/** Recovering the USSD message from the dialog tree: which nodes count as
    button labels (`isButtonText`), the pre-order text walk
    (`extractAllText`), and the clean-up of the collected text
    (`cleanResponse`). */
module Transcript {
  import opened Options
  import opened Strings
  import opened Tree

  /** The labels that mark a node as a button whatever its class. */
  const ButtonWords: seq<string> := ["send", "cancel", "ok", "reply", "dismiss"]

  /** The dialog-title artifact removed from every transcript. */
  const Noise: string := "USSD"

  /** `isButtonText`: a Button-class node, or a text that lower-cased and
      trimmed is one of the `ButtonWords`. */
  predicate IsButtonText(n: Node, text: string) {
    IsButtonClass(n) || Trim(Lower(text)) in ButtonWords
  }

  /** A word with blanks around it. */
  ghost predicate PaddedWord(s: string, w: string) {
    exists i: nat :: Window(s, w, i)
  }

  /** A trimmed word has blanks around it in `s` exactly when `s` trims to
      it. */
  lemma PaddedWordTrim(s: string, w: string)
    requires Trimmed(w)
    ensures PaddedWord(s, w) <==> Trim(s) == w
  {
    if PaddedWord(s, w) {
      var i: nat :| Window(s, w, i);
      assert s == s[..i] + w + s[i + |w|..];
      TrimSpaceSuffix(s[..i] + w, s[i + |w|..]);
      TrimSpacePrefix(s[..i], w);
      TrimTrimmed(w);
    }
    if Trim(s) == w {
      var i := TrimWindow(s);
    }
  }

  /** Outside Button-class nodes, a text is a button label exactly when, lower
      cased, it is one of the five words with nothing but blanks around it. */
  lemma IsButtonTextIff(n: Node, text: string)
    ensures IsButtonText(n, text) <==>
              IsButtonClass(n) || exists k :: 0 <= k < |ButtonWords| && PaddedWord(Lower(text), ButtonWords[k])
  {
    var l := Lower(text);
    forall k | 0 <= k < |ButtonWords|
      ensures PaddedWord(l, ButtonWords[k]) <==> Trim(l) == ButtonWords[k]
    {
      PaddedWordTrim(l, ButtonWords[k]);
    }
  }

  /** `sb.append` as `extractAllText` does it: a newline goes in front of a
      piece only when something has been collected already. */
  function Append(sb: string, piece: string): string {
    if |sb| > 0 then sb + "\n" + piece else piece
  }

  /** `extractAllText(node, sb)`: the node's own text unless it is a button
      label, its description when it has no text at all, then every child in
      order whatever the node contributed. */
  function ExtractAllText(n: Node, sb: string): string
    decreases n, 1
  {
    var withText := if n.text.Some? && !IsButtonText(n, n.text.value) then Append(sb, n.text.value) else sb;
    var withDesc := if n.desc.Some? && n.text.None? then Append(withText, n.desc.value) else withText;
    ExtractChildren(n, 0, withDesc)
  }

  function ExtractChildren(n: Node, i: nat, sb: string): string
    decreases n, 0, |n.children| - i
  {
    if i >= |n.children| then sb
    else ExtractChildren(n, i + 1, ExtractAllText(n.children[i], sb))
  }

  /** What a single node contributes: its text when that is not a button
      label; otherwise, only when it has no text, its description. */
  function Contribution(n: Node): seq<string> {
    if n.text.Some? then (if IsButtonText(n, n.text.value) then [] else [n.text.value])
    else if n.desc.Some? then [n.desc.value]
    else []
  }

  /** Every contribution of the tree, in pre-order. */
  function Pieces(n: Node): seq<string>
    decreases n, 1
  {
    Contribution(n) + PiecesChildren(n, 0)
  }

  function PiecesChildren(n: Node, i: nat): seq<string>
    decreases n, 0, |n.children| - i
  {
    if i >= |n.children| then [] else Pieces(n.children[i]) + PiecesChildren(n, i + 1)
  }

  /** Appending the pieces one after the other. */
  function Collect(sb: string, ps: seq<string>): string
    decreases |ps|
  {
    if ps == [] then sb else Collect(Append(sb, ps[0]), ps[1..])
  }

  /** Leading empty pieces leave the builder empty, so they leave no trace. */
  function DropLeadingEmpty(ps: seq<string>): (r: seq<string>)
    ensures r == [] || r[0] != []
  {
    if ps != [] && ps[0] == [] then DropLeadingEmpty(ps[1..]) else ps
  }

  lemma {:induction false} CollectAppend(sb: string, a: seq<string>, b: seq<string>)
    ensures Collect(sb, a + b) == Collect(Collect(sb, a), b)
    decreases |a|
  {
    if a == [] {
      assert a + b == b;
    } else {
      assert (a + b)[0] == a[0];
      assert (a + b)[1..] == a[1..] + b;
      CollectAppend(Append(sb, a[0]), a[1..], b);
    }
  }

  /** The walk appends exactly the pre-order contributions. */
  lemma {:induction false} ExtractIsCollect(n: Node, sb: string)
    ensures ExtractAllText(n, sb) == Collect(sb, Pieces(n))
    decreases n, 1
  {
    ExtractChildrenIsCollect(n, 0, Collect(sb, Contribution(n)));
    CollectAppend(sb, Contribution(n), PiecesChildren(n, 0));
  }

  lemma {:induction false} ExtractChildrenIsCollect(n: Node, i: nat, sb: string)
    ensures ExtractChildren(n, i, sb) == Collect(sb, PiecesChildren(n, i))
    decreases n, 0, |n.children| - i
  {
    if i < |n.children| {
      var c := n.children[i];
      ExtractIsCollect(c, sb);
      ExtractChildrenIsCollect(n, i + 1, Collect(sb, Pieces(c)));
      CollectAppend(sb, Pieces(c), PiecesChildren(n, i + 1));
    }
  }

  /** Once something has been collected, each further piece follows a single
      newline. */
  lemma {:induction false} CollectNonEmpty(sb: string, ps: seq<string>)
    requires sb != []
    ensures Collect(sb, ps) == if ps == [] then sb else sb + "\n" + Join(ps)
    decreases |ps|
  {
    if ps != [] {
      var sb' := sb + "\n" + ps[0];
      CollectNonEmpty(sb', ps[1..]);
      if |ps| > 1 {
        assert sb' + "\n" + Join(ps[1..]) == sb + "\n" + (ps[0] + "\n" + Join(ps[1..]));
      }
    }
  }

  lemma {:induction false} CollectFromEmpty(ps: seq<string>)
    ensures Collect([], ps) == Join(DropLeadingEmpty(ps))
  {
    if ps != [] {
      if ps[0] == [] {
        CollectFromEmpty(ps[1..]);
      } else {
        CollectNonEmpty(ps[0], ps[1..]);
        if |ps| > 1 {
          assert ps[0] + "\n" + Join(ps[1..]) == Join(ps);
        }
      }
    }
  }

  /** The text the walk collects from the root: the pre-order contributions
      joined by single newlines, with no leading newline (empty pieces at the
      front leave no trace). */
  lemma ExtractJoinsPieces(root: Node)
    ensures ExtractAllText(root, []) == Join(DropLeadingEmpty(Pieces(root)))
  {
    ExtractIsCollect(root, []);
    CollectFromEmpty(Pieces(root));
  }

  /** The lines of a text; the empty text has none. */
  function ContentLines(s: string): seq<string> {
    if s == [] then [] else Split(s)
  }

  /** `cleanResponse`: remove "USSD", then keep each non-blank line trimmed,
      in order, joined by single newlines. Every line of the result is
      non-empty and trimmed; `CleanResponseLines` says which lines they are. */
  function CleanResponse(response: string): (r: string)
    ensures forall k :: 0 <= k < |ContentLines(r)| ==>
              ContentLines(r)[k] != [] && Trimmed(ContentLines(r)[k])
  {
    var lines := Split(Trim(RemoveAll(response, Noise)));
    SplitLines(Trim(RemoveAll(response, Noise)));
    KeepLinesShape(lines);
    KeptLinesRoundTrip(KeepLines(lines));
    Join(KeepLines(lines))
  }

  /** The lines of a joined list of kept lines are that list. */
  lemma KeptLinesRoundTrip(kept: seq<string>)
    requires forall k :: 0 <= k < |kept| ==> kept[k] != [] && Trimmed(kept[k]) && '\n' !in kept[k]
    ensures ContentLines(Join(kept)) == kept
  {
    JoinEmpty(kept);
    if kept != [] {
      SplitJoin(kept);
    }
  }

  /** The lines of the cleaned text are exactly the non-blank lines of the
      input after "USSD" is removed, each trimmed, in their order. */
  lemma CleanResponseLines(response: string)
    ensures ContentLines(CleanResponse(response)) == KeepLines(Split(RemoveAll(response, Noise)))
  {
    var s := RemoveAll(response, Noise);
    KeepLinesTrim(s);
    SplitLines(Trim(s));
    KeepLinesShape(Split(Trim(s)));
    KeptLinesRoundTrip(KeepLines(Split(Trim(s))));
  }

  /** The message the service reports for a dialog tree: the walk from the
      root, trimmed, then cleaned. */
  function TranscriptOf(root: Node): string {
    CleanResponse(Trim(ExtractAllText(root, [])))
  }

  /** A node that adds nothing to the transcript: a button label, or a node
      with neither text nor description. */
  ghost predicate Silent(n: Node) {
    (n.text.Some? && IsButtonText(n, n.text.value)) || (n.text.None? && n.desc.None?)
  }

  /** Two dialogs whose non-label text is the same, in the same order, give
      the same transcript, whatever their buttons say. */
  lemma SameContentSameTranscript(a: Node, b: Node)
    requires Pieces(a) == Pieces(b)
    ensures TranscriptOf(a) == TranscriptOf(b)
  {
    ExtractJoinsPieces(a);
    ExtractJoinsPieces(b);
  }

  /** A tree made only of button labels and empty nodes has an empty
      transcript, so it is never reported. */
  lemma SilentTreeHasNoTranscript(root: Node)
    requires forall p :: At(root, p).Some? ==> Silent(At(root, p).value)
    ensures TranscriptOf(root) == []
  {
    SilentNoPieces(root);
    ExtractJoinsPieces(root);
    assert Split([]) == [[]];
    assert KeepLines([[]]) == [];
  }

  lemma {:induction false} SilentNoPieces(n: Node)
    requires forall p :: At(n, p).Some? ==> Silent(At(n, p).value)
    ensures Pieces(n) == []
    decreases n, 1
  {
    assert At(n, []) == Some(n);
    SilentNoPiecesChildren(n, 0);
  }

  lemma {:induction false} SilentNoPiecesChildren(n: Node, i: nat)
    requires forall p :: At(n, p).Some? ==> Silent(At(n, p).value)
    ensures PiecesChildren(n, i) == []
    decreases n, 0, |n.children| - i
  {
    if i < |n.children| {
      var c := n.children[i];
      forall q | At(c, q).Some?
        ensures Silent(At(c, q).value)
      {
        AtChild(n, i, q);
      }
      SilentNoPieces(c);
      SilentNoPiecesChildren(n, i + 1);
    }
  }

  /** A clean line comes out of the clean-up as it went in. */
  lemma CleanOneLine(l: string)
    requires l != [] && Trimmed(l) && '\n' !in l && !Contains(l, Noise)
    ensures CleanResponse(Trim(l)) == l
  {
    TrimTrimmed(l);
    SplitNoNewline(l);
    assert KeepLines([l]) == [l];
  }

  /** Two clean lines come out of the clean-up as they went in, even when
      they are the same line. */
  lemma CleanTwoLines(a: string, b: string)
    requires a != [] && Trimmed(a) && '\n' !in a && !Contains(a, Noise)
    requires b != [] && Trimmed(b) && '\n' !in b && !Contains(b, Noise)
    ensures CleanResponse(Trim(a + "\n" + b)) == a + "\n" + b
  {
    var text := a + "\n" + b;
    assert text[0] == a[0] && text[|text| - 1] == b[|b| - 1];
    TrimTrimmed(text);
    NotContainsAcrossNewline(a, b, Noise);
    assert RemoveAll(text, Noise) == text;
    KeepTwo(a, b);
  }

  lemma KeepTwo(a: string, b: string)
    requires a != [] && Trimmed(a) && '\n' !in a
    requires b != [] && Trimmed(b) && '\n' !in b
    ensures Join(KeepLines(Split(Trim(a + "\n" + b)))) == a + "\n" + b
  {
    var text := a + "\n" + b;
    assert text[0] == a[0] && text[|text| - 1] == b[|b| - 1];
    TrimTrimmed(text);
    assert Join([a, b]) == text;
    SplitJoin([a, b]);
    TrimTrimmed(a);
    TrimTrimmed(b);
    assert KeepLines([b]) == [b];
    assert KeepLines([a, b]) == [a] + KeepLines([b]);
  }

  /** A Button-class node without text still contributes its description:
      the description test does not consult the button classification. */
  lemma ButtonDescriptionIsContent(n: Node)
    requires IsButtonClass(n) && n.text.None? && n.desc.Some? && n.children == []
    requires var d := n.desc.value; d != [] && Trimmed(d) && '\n' !in d && !Contains(d, Noise)
    ensures TranscriptOf(n) == n.desc.value
  {
    assert ExtractAllText(n, []) == n.desc.value;
    CleanOneLine(n.desc.value);
  }

  /** A line shown twice, by two sibling nodes, is reported twice: nothing
      suppresses repeated lines. */
  lemma RepeatedLinesAreKept(root: Node, line: Node)
    requires root.text.None? && root.desc.None? && root.children == [line, line]
    requires line.text.Some? && !IsButtonText(line, line.text.value) && line.children == []
    requires var l := line.text.value; l != [] && Trimmed(l) && '\n' !in l && !Contains(l, Noise)
    ensures TranscriptOf(root) == line.text.value + "\n" + line.text.value
  {
    var l := line.text.value;
    assert Pieces(line) == [l];
    assert Pieces(root) == [l, l] by {
      assert PiecesChildren(root, 2) == [];
      assert PiecesChildren(root, 1) == [l];
    }
    ExtractJoinsPieces(root);
    assert ExtractAllText(root, []) == l + "\n" + l;
    CleanTwoLines(l, l);
  }

  /** The removal of "USSD" is a single left-to-right pass: letters that come
      together after a removal are not scanned again. */
  lemma NoiseRemovalIsSinglePass()
    ensures RemoveAll("USUSSDSD", Noise) == "USSD"
  {
    assert RemoveAll("SD", Noise) == "SD";
    assert "USSDSD"[..4] == Noise && "USSDSD"[4..] == "SD";
    assert RemoveAll("USSDSD", Noise) == "SD";
    assert "SUSSDSD"[1..] == "USSDSD";
    assert RemoveAll("SUSSDSD", Noise) == "SSD";
    assert "USUSSDSD"[1..] == "SUSSDSD";
  }
}
