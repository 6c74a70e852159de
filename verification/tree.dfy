/** The dialog as the accessibility service sees it: an immutable snapshot of
    the active window's node tree, captured once per observation. */
module Tree {
  import opened Options
  import opened Strings

  /** One accessibility node. `className` is `""` when the host reports no
      class; `text` and `desc` (the content description) are `None` when the
      host reports `null`; children the host reports as `null` are not part of
      the snapshot. */
  datatype Node = Node(
    className: string,
    text: Option<string>,
    desc: Option<string>,
    clickable: bool,
    children: seq<Node>)

  /** A node's address: the child indices that lead to it from the root. */
  type Path = seq<nat>

  /** The node at `p`, if there is one. */
  function At(n: Node, p: Path): Option<Node>
    decreases |p|
  {
    if p == [] then Some(n)
    else if p[0] < |n.children| then At(n.children[p[0]], p[1..])
    else None
  }

  /** Some node `t` holds of sits at `p`. */
  ghost predicate HoldsAt(n: Node, p: Path, t: Node -> bool) {
    At(n, p).Some? && t(At(n, p).value)
  }

  /** `p` leads to the `i`-th child and then along `q`. */
  lemma AtChild(n: Node, i: nat, q: Path)
    requires i < |n.children|
    ensures At(n, [i] + q) == At(n.children[i], q)
  {
    assert ([i] + q)[1..] == q;
  }

  /** The shape of the service's `hasEditText` / `hasSendOrReplyButton`
      recursion: test the node, then each child in turn, stopping at the
      first child whose subtree answers yes. */
  predicate Any(n: Node, t: Node -> bool)
    decreases n
  {
    t(n) || exists i :: 0 <= i < |n.children| && Any(n.children[i], t)
  }

  /** The recursion finds a node exactly when some node of the tree satisfies
      `t`. */
  lemma {:induction false} AnyIff(n: Node, t: Node -> bool)
    ensures Any(n, t) <==> exists p :: HoldsAt(n, p, t)
    decreases n
  {
    if Any(n, t) {
      if t(n) {
        assert HoldsAt(n, [], t);
      } else {
        var i :| 0 <= i < |n.children| && Any(n.children[i], t);
        AnyIff(n.children[i], t);
        var q :| HoldsAt(n.children[i], q, t);
        AtChild(n, i, q);
        assert HoldsAt(n, [i] + q, t);
      }
    }
    if p :| HoldsAt(n, p, t) {
      if p != [] {
        var i := p[0];
        AtChild(n, i, p[1..]);
        assert [i] + p[1..] == p;
        assert HoldsAt(n.children[i], p[1..], t);
        AnyIff(n.children[i], t);
        assert Any(n.children[i], t);
      }
    }
  }

  /** `className.contains("EditText")`. */
  predicate IsEditText(n: Node) {
    Contains(n.className, "EditText")
  }

  /** `className.contains("Button")`. */
  predicate IsButtonClass(n: Node) {
    Contains(n.className, "Button")
  }

  /** `node.getText() != null ? node.getText().toString().toLowerCase() : ""`. */
  function LowerText(n: Node): string {
    Lower(n.text.GetOr(""))
  }
}
