/** The "find a node and act on it" recursion shared by the service's
    `setEditTextValue` and `clickButton`: test the node; if it is a target,
    act on it and report the host's answer without looking at its children;
    otherwise try the children in order and stop at the first success.

    Besides the recursion itself this module gives an independent reading of
    it: the `Frontier` of targets the search can reach, listed in pre-order,
    and a left-to-right `Scan` over that list. `SearchIsScan` shows the two
    agree. */
module TreeSearch {
  import opened Tree

  /** A request to the host. Node actions carry the path of the node they are
      performed on; `Back` is the global back-navigation. */
  datatype Action =
    | Focus(path: Path)
    | SetText(path: Path, value: string)
    | Click(path: Path)
    | Back

  /** What a search did: whether it reports success, and the actions it issued
      to the host, in order. */
  datatype Attempt = Attempt(ok: bool, actions: seq<Action>)

  /** The search over the subtree `n` found at `path`. On a target, the
      actions `block(path)` are issued and `ok(path)` is the host's answer to
      the decisive one. */
  function Search(n: Node, path: Path, target: Node -> bool,
                  ok: Path -> bool, block: Path -> seq<Action>): Attempt
    decreases n, 1
  {
    if target(n) then Attempt(ok(path), block(path))
    else SearchChildren(n, 0, path, target, ok, block)
  }

  /** The loop over the children of `n`, from child `i` on. */
  function SearchChildren(n: Node, i: nat, path: Path, target: Node -> bool,
                          ok: Path -> bool, block: Path -> seq<Action>): Attempt
    decreases n, 0, |n.children| - i
  {
    if i >= |n.children| then Attempt(false, [])
    else
      var o := Search(n.children[i], path + [i], target, ok, block);
      if o.ok then o
      else
        var rest := SearchChildren(n, i + 1, path, target, ok, block);
        Attempt(rest.ok, o.actions + rest.actions)
  }

  /** The targets the search can reach, in pre-order: a target ends the
      descent, so nothing below a target is listed. */
  function Frontier(n: Node, path: Path, target: Node -> bool): seq<Path>
    decreases n, 1
  {
    if target(n) then [path] else FrontierChildren(n, 0, path, target)
  }

  function FrontierChildren(n: Node, i: nat, path: Path, target: Node -> bool): seq<Path>
    decreases n, 0, |n.children| - i
  {
    if i >= |n.children| then []
    else Frontier(n.children[i], path + [i], target) + FrontierChildren(n, i + 1, path, target)
  }

  /** Acting on the paths `ps` one after the other until one succeeds. */
  function Scan(ps: seq<Path>, ok: Path -> bool, block: Path -> seq<Action>): Attempt {
    if ps == [] then Attempt(false, [])
    else if ok(ps[0]) then Attempt(true, block(ps[0]))
    else
      var rest := Scan(ps[1..], ok, block);
      Attempt(rest.ok, block(ps[0]) + rest.actions)
  }

  /** How many paths `Scan` acts on: up to and including the first success. */
  function Tried(ps: seq<Path>, ok: Path -> bool): (k: nat)
    ensures k <= |ps|
  {
    if ps == [] then 0 else if ok(ps[0]) then 1 else 1 + Tried(ps[1..], ok)
  }

  /** The actions of the paths `ps`, one block after the other. */
  function Blocks(ps: seq<Path>, block: Path -> seq<Action>): seq<Action> {
    if ps == [] then [] else block(ps[0]) + Blocks(ps[1..], block)
  }

  predicate IsPrefix(p: Path, q: Path) {
    |p| <= |q| && q[..|p|] == p
  }

  /** No listed path lies on or below another listed path. */
  ghost predicate PrefixFree(ps: seq<Path>) {
    forall a, b :: 0 <= a < |ps| && 0 <= b < |ps| && a != b ==> !IsPrefix(ps[a], ps[b])
  }

  lemma {:induction false} ScanAppend(ps: seq<Path>, qs: seq<Path>, ok: Path -> bool, block: Path -> seq<Action>)
    ensures Scan(ps + qs, ok, block)
         == if Scan(ps, ok, block).ok then Scan(ps, ok, block)
            else Attempt(Scan(qs, ok, block).ok, Scan(ps, ok, block).actions + Scan(qs, ok, block).actions)
  {
    if ps == [] {
      assert ps + qs == qs;
      assert [] + Scan(qs, ok, block).actions == Scan(qs, ok, block).actions;
    } else {
      assert (ps + qs)[0] == ps[0];
      assert (ps + qs)[1..] == ps[1..] + qs;
      ScanAppend(ps[1..], qs, ok, block);
      if !ok(ps[0]) && !Scan(ps[1..], ok, block).ok {
        var b, x, y := block(ps[0]), Scan(ps[1..], ok, block).actions, Scan(qs, ok, block).actions;
        assert b + (x + y) == (b + x) + y;
      }
    }
  }

  /** The recursive search does exactly what scanning its frontier does. */
  lemma {:induction false} SearchIsScan(n: Node, path: Path, target: Node -> bool,
                                        ok: Path -> bool, block: Path -> seq<Action>)
    ensures Search(n, path, target, ok, block) == Scan(Frontier(n, path, target), ok, block)
    decreases n, 1
  {
    if !target(n) {
      SearchChildrenIsScan(n, 0, path, target, ok, block);
    }
  }

  lemma {:induction false} SearchChildrenIsScan(n: Node, i: nat, path: Path, target: Node -> bool,
                                                ok: Path -> bool, block: Path -> seq<Action>)
    ensures SearchChildren(n, i, path, target, ok, block)
         == Scan(FrontierChildren(n, i, path, target), ok, block)
    decreases n, 0, |n.children| - i
  {
    if i < |n.children| {
      var c := n.children[i];
      SearchIsScan(c, path + [i], target, ok, block);
      SearchChildrenIsScan(n, i + 1, path, target, ok, block);
      ScanAppend(Frontier(c, path + [i], target), FrontierChildren(n, i + 1, path, target), ok, block);
    }
  }

  /** The scan acts on a prefix of its list, every path but the last of that
      prefix failed, and it reports the answer for the last. */
  lemma {:induction false} ScanShape(ps: seq<Path>, ok: Path -> bool, block: Path -> seq<Action>)
    ensures var k := Tried(ps, ok);
            && Scan(ps, ok, block).actions == Blocks(ps[..k], block)
            && (forall j :: 0 <= j < k - 1 ==> !ok(ps[j]))
            && (Scan(ps, ok, block).ok <==> k > 0 && ok(ps[k - 1]))
            && (!Scan(ps, ok, block).ok ==> k == |ps|)
  {
    if ps != [] {
      var k := Tried(ps, ok);
      if ok(ps[0]) {
        assert ps[..1] == [ps[0]];
        assert Blocks([ps[0]], block) == block(ps[0]) + [];
      } else {
        ScanShape(ps[1..], ok, block);
        assert ps[..k][0] == ps[0];
        assert ps[..k][1..] == ps[1..][..k - 1];
        forall j | 0 <= j < k - 1
          ensures !ok(ps[j])
        {
          if j > 0 {
            assert ps[j] == ps[1..][j - 1];
          }
        }
      }
    }
  }

  /** The scan succeeds exactly when some path in its list would. */
  lemma {:induction false} ScanOk(ps: seq<Path>, ok: Path -> bool, block: Path -> seq<Action>)
    ensures Scan(ps, ok, block).ok <==> exists j :: 0 <= j < |ps| && ok(ps[j])
  {
    if ps != [] && !ok(ps[0]) {
      ScanOk(ps[1..], ok, block);
      if j :| 0 <= j < |ps| && ok(ps[j]) {
        assert ps[1..][j - 1] == ps[j];
      }
    }
  }

  /** Every listed path lies under `path` and leads to a target. */
  lemma {:induction false} FrontierSound(n: Node, path: Path, target: Node -> bool)
    ensures forall q :: q in Frontier(n, path, target) ==>
              IsPrefix(path, q) && HoldsAt(n, q[|path|..], target)
    decreases n, 1
  {
    if target(n) {
      assert path[|path|..] == [];
    } else {
      FrontierChildrenSound(n, 0, path, target);
    }
  }

  lemma {:induction false} FrontierChildrenSound(n: Node, i: nat, path: Path, target: Node -> bool)
    ensures forall q :: q in FrontierChildren(n, i, path, target) ==>
              && |path| < |q| && q[..|path|] == path && i <= q[|path|]
              && HoldsAt(n, q[|path|..], target)
    decreases n, 0, |n.children| - i
  {
    if i < |n.children| {
      var c := n.children[i];
      FrontierSound(c, path + [i], target);
      FrontierChildrenSound(n, i + 1, path, target);
      forall q | q in Frontier(c, path + [i], target)
        ensures |path| < |q| && q[..|path|] == path && i <= q[|path|]
        ensures HoldsAt(n, q[|path|..], target)
      {
        assert q[..|path| + 1] == path + [i];
        assert q[..|path|] == q[..|path| + 1][..|path|];
        assert q[|path|] == q[..|path| + 1][|path|];
        AtChild(n, i, q[|path| + 1..]);
        assert q[|path|..] == [i] + q[|path| + 1..];
        assert q[|path| + 1..] == q[|path + [i]|..];
      }
    }
  }

  /** No target the search acts on lies below another: a target's children
      are never searched. */
  lemma {:induction false} FrontierPrefixFree(n: Node, path: Path, target: Node -> bool)
    ensures PrefixFree(Frontier(n, path, target))
    decreases n, 1
  {
    if !target(n) {
      FrontierChildrenPrefixFree(n, 0, path, target);
    }
  }

  lemma {:induction false} FrontierChildrenPrefixFree(n: Node, i: nat, path: Path, target: Node -> bool)
    ensures PrefixFree(FrontierChildren(n, i, path, target))
    decreases n, 0, |n.children| - i
  {
    if i < |n.children| {
      var c := n.children[i];
      var xs, ys := Frontier(c, path + [i], target), FrontierChildren(n, i + 1, path, target);
      FrontierPrefixFree(c, path + [i], target);
      FrontierChildrenPrefixFree(n, i + 1, path, target);
      FrontierSound(c, path + [i], target);
      FrontierChildrenSound(n, i + 1, path, target);
      forall p | p in xs
        ensures |path| < |p| && p[|path|] == i
      {
        assert p[..|path| + 1][|path|] == p[|path|];
      }
      SeparatedPrefixFree(xs, ys, |path|, i);
    }
  }

  /** Paths that all take branch `i` at depth `k`, followed by paths that all
      take a later branch there, stay prefix-free together. */
  lemma SeparatedPrefixFree(xs: seq<Path>, ys: seq<Path>, k: nat, i: nat)
    requires PrefixFree(xs) && PrefixFree(ys)
    requires forall p :: p in xs ==> k < |p| && p[k] == i
    requires forall q :: q in ys ==> k < |q| && i < q[k]
    ensures PrefixFree(xs + ys)
  {
    var zs := xs + ys;
    forall a, b | 0 <= a < |zs| && 0 <= b < |zs| && a != b
      ensures !IsPrefix(zs[a], zs[b])
    {
      if a < |xs| && b < |xs| {
        assert zs[a] == xs[a] && zs[b] == xs[b];
      } else if a >= |xs| && b >= |xs| {
        assert zs[a] == ys[a - |xs|] && zs[b] == ys[b - |xs|];
      } else {
        var p, q := zs[a], zs[b];
        assert p in xs || p in ys;
        assert q in xs || q in ys;
        DifferAt(p, q, k);
      }
    }
  }

  lemma DifferAt(p: Path, q: Path, k: nat)
    requires k < |p| && k < |q| && p[k] != q[k]
    ensures !IsPrefix(p, q) && !IsPrefix(q, p)
  {
    if |p| <= |q| {
      assert q[..|p|][k] == q[k];
    }
    if |q| <= |p| {
      assert p[..|q|][k] == p[k];
    }
  }

  /** Every target in the subtree is listed or lies below a listed path: the
      search only skips targets under one it already acted on. */
  lemma {:induction false} FrontierComplete(n: Node, path: Path, target: Node -> bool, s: Path)
    requires HoldsAt(n, s, target)
    ensures exists q :: q in Frontier(n, path, target) && IsPrefix(q, path + s)
    decreases n, 1
  {
    if target(n) {
      assert (path + s)[..|path|] == path;
      assert path in Frontier(n, path, target);
    } else {
      var j := s[0];
      AtChild(n, j, s[1..]);
      assert [j] + s[1..] == s;
      var c := n.children[j];
      FrontierComplete(c, path + [j], target, s[1..]);
      assert path + [j] + s[1..] == path + s;
      FrontierChildrenContains(n, 0, path, target, j);
    }
  }

  /** The children's loop lists the frontier of every child it reaches. */
  lemma {:induction false} FrontierChildrenContains(n: Node, i: nat, path: Path, target: Node -> bool, j: nat)
    requires i <= j < |n.children|
    ensures forall q :: q in Frontier(n.children[j], path + [j], target) ==>
              q in FrontierChildren(n, i, path, target)
    decreases |n.children| - i
  {
    if i < j {
      FrontierChildrenContains(n, i + 1, path, target, j);
    }
  }

  /** Targets that agree on every node give the same frontier. */
  lemma {:induction false} FrontierSameTarget(n: Node, path: Path, t1: Node -> bool, t2: Node -> bool)
    requires forall m :: t1(m) == t2(m)
    ensures Frontier(n, path, t1) == Frontier(n, path, t2)
    decreases n, 1
  {
    FrontierChildrenSameTarget(n, 0, path, t1, t2);
  }

  lemma {:induction false} FrontierChildrenSameTarget(n: Node, i: nat, path: Path, t1: Node -> bool, t2: Node -> bool)
    requires forall m :: t1(m) == t2(m)
    ensures FrontierChildren(n, i, path, t1) == FrontierChildren(n, i, path, t2)
    decreases n, 0, |n.children| - i
  {
    if i < |n.children| {
      FrontierSameTarget(n.children[i], path + [i], t1, t2);
      FrontierChildrenSameTarget(n, i + 1, path, t1, t2);
    }
  }
}
