/** The two ways the service acts on the dialog: typing into its text field
    (`setEditTextValue`) and clicking a labelled control (`clickButton`).
    Both are the `Search` recursion; their contracts read it through the
    frontier of candidate nodes and the host's answers. */
module Controls {
  import opened Options
  import opened Strings
  import opened Tree
  import opened TreeSearch

  /** `clickButton`'s test on a node: a Button-class or clickable node whose
      lower-cased text contains one of the lower-cased labels. Which label
      matched does not matter: only the node's place in the tree does. */
  predicate IsClickCandidate(labels: seq<string>, n: Node) {
    (IsButtonClass(n) || n.clickable) && exists k :: 0 <= k < |labels| && Contains(LowerText(n), Lower(labels[k]))
  }

  function Candidate(labels: seq<string>): Node -> bool {
    n => IsClickCandidate(labels, n)
  }

  /** The host's answer to clicking the node at a path. */
  function ClickAnswer(host: Action -> bool): Path -> bool {
    p => host(Click(p))
  }

  function ClickBlock(): Path -> seq<Action> {
    p => [Click(p)]
  }

  /** The nodes `clickButton` would click, in the order it reaches them. */
  function ClickTargets(root: Node, labels: seq<string>): seq<Path> {
    Frontier(root, [], Candidate(labels))
  }

  /** One click per path. */
  function Clicks(ps: seq<Path>): (r: seq<Action>)
    ensures |r| == |ps|
    ensures forall j :: 0 <= j < |ps| ==> r[j] == Click(ps[j])
  {
    seq(|ps|, j requires 0 <= j < |ps| => Click(ps[j]))
  }

  lemma {:induction false} ClicksAreBlocks(ps: seq<Path>)
    ensures Blocks(ps, ClickBlock()) == Clicks(ps)
  {
    if ps != [] {
      ClicksAreBlocks(ps[1..]);
    }
  }

  /** `clickButton(root, labels...)`: the host is asked to click the
      candidates in pre-order until it accepts one; nothing is clicked inside
      a candidate. The first candidate in the tree wins, whatever the order of
      the labels. */
  function ClickButton(root: Node, labels: seq<string>, host: Action -> bool): (r: Attempt)
    ensures var ts := ClickTargets(root, labels);
            var k := |r.actions|;
            && k <= |ts|
            && r.actions == Clicks(ts[..k])
            && (forall j :: 0 <= j < k - 1 ==> !host(Click(ts[j])))
            && (r.ok <==> k > 0 && host(Click(ts[k - 1])))
            && (!r.ok ==> k == |ts|)
            && (r.ok <==> exists j :: 0 <= j < |ts| && host(Click(ts[j])))
  {
    var ts := ClickTargets(root, labels);
    SearchIsScan(root, [], Candidate(labels), ClickAnswer(host), ClickBlock());
    ScanShape(ts, ClickAnswer(host), ClickBlock());
    ScanOk(ts, ClickAnswer(host), ClickBlock());
    ClicksAreBlocks(ts[..Tried(ts, ClickAnswer(host))]);
    Search(root, [], Candidate(labels), ClickAnswer(host), ClickBlock())
  }

  /** The candidates are exactly the topmost matching nodes: each listed path
      leads to a candidate, none lies below another, and every candidate of
      the tree is listed or lies below a listed one. */
  lemma ClickTargetsSpec(root: Node, labels: seq<string>)
    ensures forall q :: q in ClickTargets(root, labels) ==>
              At(root, q).Some? && IsClickCandidate(labels, At(root, q).value)
    ensures PrefixFree(ClickTargets(root, labels))
    ensures forall s :: At(root, s).Some? && IsClickCandidate(labels, At(root, s).value) ==>
              exists q :: q in ClickTargets(root, labels) && IsPrefix(q, s)
  {
    var t := Candidate(labels);
    FrontierSound(root, [], t);
    FrontierPrefixFree(root, [], t);
    forall q | q in ClickTargets(root, labels)
      ensures At(root, q).Some? && IsClickCandidate(labels, At(root, q).value)
    {
      assert q[0..] == q;
    }
    forall s | At(root, s).Some? && IsClickCandidate(labels, At(root, s).value)
      ensures exists q :: q in ClickTargets(root, labels) && IsPrefix(q, s)
    {
      FrontierComplete(root, [], t, s);
      assert [] + s == s;
    }
  }

  /** Two label lists naming the same labels lead to the same clicks: the
      order in which labels are listed never changes which node is clicked. */
  lemma LabelOrderIrrelevant(root: Node, l1: seq<string>, l2: seq<string>, host: Action -> bool)
    requires forall x :: x in l1 <==> x in l2
    ensures ClickButton(root, l1, host) == ClickButton(root, l2, host)
  {
    forall m
      ensures Candidate(l1)(m) == Candidate(l2)(m)
    {
      if IsClickCandidate(l1, m) {
        var k :| 0 <= k < |l1| && Contains(LowerText(m), Lower(l1[k]));
        assert l1[k] in l2;
      }
      if IsClickCandidate(l2, m) {
        var k :| 0 <= k < |l2| && Contains(LowerText(m), Lower(l2[k]));
        assert l2[k] in l1;
      }
    }
    FrontierSameTarget(root, [], Candidate(l1), Candidate(l2));
    SearchIsScan(root, [], Candidate(l1), ClickAnswer(host), ClickBlock());
    SearchIsScan(root, [], Candidate(l2), ClickAnswer(host), ClickBlock());
  }

  /** The labels are not a priority list: in a dialog whose "OK" button comes
      before its "Send" button, asking for "Send" first still clicks "OK". */
  lemma FirstCandidateWins(dialog: Node, host: Action -> bool)
    requires !IsButtonClass(dialog) && !dialog.clickable && |dialog.children| == 2
    requires var ok := dialog.children[0]; IsButtonClass(ok) && ok.text == Some("OK")
    requires var send := dialog.children[1]; IsButtonClass(send) && send.text == Some("Send")
    requires host(Click([0]))
    ensures ClickButton(dialog, ["Send", "OK"], host).actions == [Click([0])]
  {
    var labels := ["Send", "OK"];
    var ok := dialog.children[0];
    assert Lower("OK") == "ok";
    assert OccursAt(LowerText(ok), Lower(labels[1]), 0);
    assert IsClickCandidate(labels, ok);
    var t := Candidate(labels);
    assert Search(ok, [0], t, ClickAnswer(host), ClickBlock()) == Attempt(true, [Click([0])]);
    assert [] + [0] == [0];
    assert !t(dialog);
    assert SearchChildren(dialog, 0, [], t, ClickAnswer(host), ClickBlock()) == Attempt(true, [Click([0])]);
  }

  /** The actions `setEditTextValue` issues on one text field: focus it,
      clear it, then set the value. */
  function Fill(p: Path, value: string): seq<Action> {
    [Focus(p), SetText(p, []), SetText(p, value)]
  }

  function Fills(ps: seq<Path>, value: string): (r: seq<Action>)
    ensures |r| == 3 * |ps|
  {
    if ps == [] then [] else Fill(ps[0], value) + Fills(ps[1..], value)
  }

  function FillBlock(value: string): Path -> seq<Action> {
    p => Fill(p, value)
  }

  function SetAnswer(host: Action -> bool, value: string): Path -> bool {
    p => host(SetText(p, value))
  }

  /** The text fields `setEditTextValue` would fill, in the order it reaches
      them. */
  function EditFields(root: Node): seq<Path> {
    Frontier(root, [], IsEditText)
  }

  lemma {:induction false} FillsAreBlocks(ps: seq<Path>, value: string)
    ensures Blocks(ps, FillBlock(value)) == Fills(ps, value)
  {
    if ps != [] {
      FillsAreBlocks(ps[1..], value);
    }
  }

  /** `setEditTextValue(root, value)`: each text field in pre-order is
      focused, cleared and set to `value` until the host accepts the final
      set; the answer is the host's answer to that set. */
  function SetEditTextValue(root: Node, value: string, host: Action -> bool): (r: Attempt)
    ensures var es := EditFields(root);
            var k := |r.actions| / 3;
            && |r.actions| % 3 == 0
            && k <= |es|
            && r.actions == Fills(es[..k], value)
            && (forall j :: 0 <= j < k - 1 ==> !host(SetText(es[j], value)))
            && (r.ok <==> k > 0 && host(SetText(es[k - 1], value)))
            && (!r.ok ==> k == |es|)
            && (r.ok <==> exists j :: 0 <= j < |es| && host(SetText(es[j], value)))
  {
    var es, ok, fill := EditFields(root), SetAnswer(host, value), FillBlock(value);
    var k := Tried(es, ok);
    SearchIsScan(root, [], IsEditText, ok, fill);
    ScanShape(es, ok, fill);
    ScanOk(es, ok, fill);
    FillsAreBlocks(es[..k], value);
    var r := Search(root, [], IsEditText, ok, fill);
    assert |r.actions| == 3 * k;
    assert |r.actions| / 3 == k;
    r
  }

  /** Only text fields are written to, and never a field inside another. */
  lemma EditFieldsSpec(root: Node)
    ensures forall q :: q in EditFields(root) ==> At(root, q).Some? && IsEditText(At(root, q).value)
    ensures PrefixFree(EditFields(root))
    ensures forall s :: At(root, s).Some? && IsEditText(At(root, s).value) ==>
              exists q :: q in EditFields(root) && IsPrefix(q, s)
  {
    FrontierSound(root, [], IsEditText);
    FrontierPrefixFree(root, [], IsEditText);
    forall q | q in EditFields(root)
      ensures At(root, q).Some? && IsEditText(At(root, q).value)
    {
      assert q[0..] == q;
    }
    forall s | At(root, s).Some? && IsEditText(At(root, s).value)
      ensures exists q :: q in EditFields(root) && IsPrefix(q, s)
    {
      FrontierComplete(root, [], IsEditText, s);
      assert [] + s == s;
    }
  }
}
