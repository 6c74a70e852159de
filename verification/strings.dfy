/** The handful of `java.lang.String` operations the USSD service relies on,
    over `string` (a `seq<char>`): `trim`, `toLowerCase`, `contains`,
    `replace(target, "")`, `split("\n")`, and the newline joining that the
    service does with a `StringBuilder`. */
module Strings {

  /** `String.trim` strips every leading and trailing character whose code is
      at most U+0020 (space, tab, newline, carriage return, other controls). */
  predicate IsSpace(c: char) {
    c <= ' '
  }

  predicate AllSpace(s: string) {
    forall i :: 0 <= i < |s| ==> IsSpace(s[i])
  }

  /** A string that `trim` leaves alone: empty, or with non-blank ends. */
  predicate Trimmed(s: string) {
    s == [] || (!IsSpace(s[0]) && !IsSpace(s[|s| - 1]))
  }

  function TrimLeft(s: string): (r: string)
    ensures |r| <= |s|
    ensures r == [] || !IsSpace(r[0])
  {
    if |s| > 0 && IsSpace(s[0]) then TrimLeft(s[1..]) else s
  }

  function TrimRight(s: string): (r: string)
    ensures |r| <= |s|
    ensures r == [] || !IsSpace(r[|r| - 1])
  {
    if |s| > 0 && IsSpace(s[|s| - 1]) then TrimRight(s[..|s| - 1]) else s
  }

  /** `TrimLeft` keeps a suffix of its argument. */
  lemma {:induction false} TrimLeftKeeps(s: string)
    ensures TrimLeft(s) == s[|s| - |TrimLeft(s)|..]
  {
    if |s| > 0 && IsSpace(s[0]) {
      TrimLeftKeeps(s[1..]);
    }
  }

  /** `TrimRight` keeps a prefix of its argument. */
  lemma {:induction false} TrimRightKeeps(s: string)
    ensures TrimRight(s) == s[..|TrimRight(s)|]
  {
    if |s| > 0 && IsSpace(s[|s| - 1]) {
      TrimRightKeeps(s[..|s| - 1]);
    }
  }

  /** What `TrimLeft` cuts off is blank. */
  lemma {:induction false} TrimLeftCut(s: string)
    ensures AllSpace(s[..|s| - |TrimLeft(s)|])
  {
    if |s| > 0 && IsSpace(s[0]) {
      TrimLeftCut(s[1..]);
      var r := TrimLeft(s);
      assert s[..|s| - |r|] == [s[0]] + s[1..][..|s[1..]| - |r|];
    }
  }

  /** What `TrimRight` cuts off is blank. */
  lemma {:induction false} TrimRightCut(s: string)
    ensures AllSpace(s[|TrimRight(s)|..])
  {
    if |s| > 0 && IsSpace(s[|s| - 1]) {
      TrimRightCut(s[..|s| - 1]);
      var r := TrimRight(s);
      assert s[|r|..] == s[..|s| - 1][|r|..] + [s[|s| - 1]];
    }
  }

  /** `r` is the stretch of `s` starting at `i`, with only blanks around it. */
  ghost predicate Window(s: string, r: string, i: nat) {
    i + |r| <= |s| && r == s[i..i + |r|] && AllSpace(s[..i]) && AllSpace(s[i + |r|..])
  }

  /** `String.trim`: the result has non-blank ends; `TrimWindow` shows that
      it is the middle of `s` with only blanks cut off on either side. */
  function Trim(s: string): (r: string)
    ensures Trimmed(r)
    ensures |r| <= |s|
  {
    TrimRightKeeps(TrimLeft(s));
    TrimRight(TrimLeft(s))
  }

  /** Where the trimmed text sits inside the original. */
  lemma TrimWindow(s: string) returns (i: nat)
    ensures Window(s, Trim(s), i)
  {
    var l := TrimLeft(s);
    var r := TrimRight(l);
    i := |s| - |l|;
    TrimLeftCut(s);
    TrimRightCut(l);
    TrimLeftKeeps(s);
    TrimRightKeeps(l);
    assert r == s[i..i + |r|];
    assert s[i + |r|..] == l[|r|..];
  }

  /** `trim` changes nothing on a string that is already trimmed. */
  lemma TrimTrimmed(s: string)
    requires Trimmed(s)
    ensures Trim(s) == s
  {
  }

  lemma {:induction false} TrimLeftAllSpace(s: string)
    requires AllSpace(s)
    ensures TrimLeft(s) == []
  {
    if s != [] {
      TrimLeftAllSpace(s[1..]);
    }
  }

  /** A blank string trims to nothing. */
  lemma TrimAllSpace(s: string)
    requires AllSpace(s)
    ensures Trim(s) == []
  {
    TrimLeftAllSpace(s);
  }

  lemma {:induction false} TrimLeftSpacePrefix(w: string, x: string)
    requires AllSpace(w)
    ensures TrimLeft(w + x) == TrimLeft(x)
    decreases |w|
  {
    if w != [] {
      assert (w + x)[0] == w[0];
      assert (w + x)[1..] == w[1..] + x;
      TrimLeftSpacePrefix(w[1..], x);
    } else {
      assert w + x == x;
    }
  }

  lemma {:induction false} TrimRightSpaceSuffix(x: string, w: string)
    requires AllSpace(w)
    ensures TrimRight(x + w) == TrimRight(x)
    decreases |w|
  {
    if w != [] {
      assert (x + w)[|x + w| - 1] == w[|w| - 1];
      assert (x + w)[..|x + w| - 1] == x + w[..|w| - 1];
      TrimRightSpaceSuffix(x, w[..|w| - 1]);
    } else {
      assert x + w == x;
    }
  }

  lemma {:induction false} TrimLeftSuffix(x: string, w: string)
    requires AllSpace(w) && !AllSpace(x)
    ensures TrimLeft(x + w) == TrimLeft(x) + w
    decreases |x|
  {
    if IsSpace(x[0]) {
      assert (x + w)[1..] == x[1..] + w;
      TrimLeftSuffix(x[1..], w);
    }
  }

  /** Blank characters in front of a string do not survive `trim`. */
  lemma TrimSpacePrefix(w: string, x: string)
    requires AllSpace(w)
    ensures Trim(w + x) == Trim(x)
  {
    TrimLeftSpacePrefix(w, x);
  }

  /** Blank characters after a string do not survive `trim`. */
  lemma TrimSpaceSuffix(x: string, w: string)
    requires AllSpace(w)
    ensures Trim(x + w) == Trim(x)
  {
    if AllSpace(x) {
      TrimAllSpace(x);
      TrimAllSpace(x + w);
    } else {
      TrimLeftSuffix(x, w);
      TrimRightSpaceSuffix(TrimLeft(x), w);
    }
  }

  /** ASCII case mapping; `toLowerCase` beyond ASCII is not modelled. */
  function LowerChar(c: char): char {
    if 'A' <= c <= 'Z' then (c as int + 32) as char else c
  }

  /** `String.toLowerCase` restricted to ASCII letters. */
  function Lower(s: string): (r: string)
    ensures |r| == |s|
  {
    seq(|s|, i requires 0 <= i < |s| => LowerChar(s[i]))
  }

  /** `p` occurs in `s` at offset `i`. */
  ghost predicate OccursAt(s: string, p: string, i: nat) {
    i + |p| <= |s| && s[i..i + |p|] == p
  }

  /** `String.contains`, written as the scan `indexOf` performs. Its contract
      is the textbook meaning: `p` occurs in `s` at some offset. */
  function Contains(s: string, p: string): (r: bool)
    ensures r <==> exists i: nat :: OccursAt(s, p, i)
    decreases |s|
  {
    if |p| > |s| then false
    else if s[..|p|] == p then
      assert OccursAt(s, p, 0);
      true
    else
      var r := Contains(s[1..], p);
      assert r <==> exists i: nat :: OccursAt(s, p, i) by {
        if r {
          var j: nat :| OccursAt(s[1..], p, j);
          assert s[j + 1..j + 1 + |p|] == s[1..][j..j + |p|];
          assert OccursAt(s, p, j + 1);
        }
        forall i: nat | OccursAt(s, p, i)
          ensures r
        {
          assert i != 0;
          assert s[1..][i - 1..i - 1 + |p|] == s[i..i + |p|];
          assert OccursAt(s[1..], p, i - 1);
        }
      }
      r
  }

  /** A pattern whose first character never appears in `s` does not occur
      in `s`. */
  lemma NotContainsHead(s: string, p: string)
    requires |p| > 0 && p[0] !in s
    ensures !Contains(s, p)
  {
    forall i: nat | i + |p| <= |s|
      ensures !OccursAt(s, p, i)
    {
      assert s[i..i + |p|][0] == s[i] != p[0];
    }
  }

  /** A pattern without a newline that occurs in neither of two lines does
      not occur in them joined by a newline either. */
  lemma NotContainsAcrossNewline(a: string, b: string, p: string)
    requires '\n' !in p && !Contains(a, p) && !Contains(b, p)
    ensures !Contains(a + "\n" + b, p)
  {
    var s := a + "\n" + b;
    forall i: nat | i + |p| <= |s|
      ensures !OccursAt(s, p, i)
    {
      if i + |p| <= |a| {
        NotOccursLeft(a, "\n" + b, p, i);
        assert s == a + ("\n" + b);
      } else if i > |a| {
        NotOccursRight(a + "\n", b, p, i - |a| - 1);
      } else {
        assert s[i..i + |p|][|a| - i] == '\n';
      }
    }
  }

  lemma NotOccursLeft(a: string, b: string, p: string, i: nat)
    requires i + |p| <= |a| && !OccursAt(a, p, i)
    ensures !OccursAt(a + b, p, i)
  {
    assert (a + b)[i..i + |p|] == a[i..i + |p|];
  }

  lemma NotOccursRight(a: string, b: string, p: string, i: nat)
    requires i + |p| <= |b| && !Contains(b, p)
    ensures !OccursAt(a + b, p, |a| + i)
  {
    assert !OccursAt(b, p, i);
    assert (a + b)[|a| + i..|a| + i + |p|] == b[i..i + |p|];
  }

  /** An occurrence of `p` inside a longer stretch that `s` contains is an
      occurrence in `s`. */
  lemma {:induction false} ContainsInfix(s: string, p: string, q: string, k: nat)
    requires Contains(s, q)
    requires k + |p| <= |q| && q[k..k + |p|] == p
    ensures Contains(s, p)
  {
    var i: nat :| OccursAt(s, q, i);
    assert OccursAt(s, p, i + k) by {
      forall j | 0 <= j < |p|
        ensures s[i + k + j] == p[j]
      {
        assert p[j] == q[k + j] == s[i..i + |q|][k + j];
      }
    }
  }

  /** `s.replace(p, "")`: occurrences are found left to right and removed
      without overlapping; text that comes together after a removal is not
      scanned again. Something is removed exactly when `p` occurs. */
  function RemoveAll(s: string, p: string): (r: string)
    requires |p| > 0
    ensures |r| <= |s|
    ensures Contains(s, p) <==> |r| < |s|
    ensures !Contains(s, p) ==> r == s
    decreases |s|
  {
    if |s| < |p| then s
    else if s[..|p|] == p then RemoveAll(s[|p|..], p)
    else [s[0]] + RemoveAll(s[1..], p)
  }

  /** `replace(p, "")` scans left to right: the text before the first
      occurrence of `p` is kept as it is, that occurrence is dropped, and the
      scan resumes right after it. Together with the no-occurrence case of
      `RemoveAll`'s contract this fixes the result on every input. */
  lemma RemoveAllFirst(s: string, p: string, i: nat)
    requires |p| > 0 && OccursAt(s, p, i)
    requires forall j: nat :: j < i ==> !OccursAt(s, p, j)
    ensures RemoveAll(s, p) == s[..i] + RemoveAll(s[i + |p|..], p)
  {
    RemoveAllSkip(s, p, i);
    assert s[i..][|p|..] == s[i + |p|..];
  }

  /** Where `p` does not start anywhere before `k`, the first `k` characters
      pass through unchanged. */
  lemma {:induction false} RemoveAllSkip(s: string, p: string, k: nat)
    requires |p| > 0 && k <= |s|
    requires forall j: nat :: j < k ==> !OccursAt(s, p, j)
    ensures RemoveAll(s, p) == s[..k] + RemoveAll(s[k..], p)
  {
    if k == 0 {
      assert s[..0] + RemoveAll(s[0..], p) == RemoveAll(s, p) by {
        assert s[0..] == s;
      }
    } else {
      RemoveAllSkip(s, p, k - 1);
      RemoveAllSkipOne(s, p, k);
    }
  }

  /** One more character of the kept prefix. */
  lemma RemoveAllSkipOne(s: string, p: string, k: nat)
    requires |p| > 0 && 0 < k <= |s| && !OccursAt(s, p, k - 1)
    requires RemoveAll(s, p) == s[..k - 1] + RemoveAll(s[k - 1..], p)
    ensures RemoveAll(s, p) == s[..k] + RemoveAll(s[k..], p)
  {
    RemoveAllKeeps(s, p, k - 1);
    PrefixGrows(s, k, RemoveAll(s[k..], p));
  }

  /** The first `k - 1` characters, then character `k - 1`, then `x`, are the
      first `k` characters then `x`. */
  lemma PrefixGrows(s: string, k: nat, x: string)
    requires 0 < k <= |s|
    ensures s[..k - 1] + ([s[k - 1]] + x) == s[..k] + x
  {
    assert s[..k - 1] + [s[k - 1]] == s[..k];
  }

  /** A character where `p` does not start is kept. */
  lemma {:induction false} RemoveAllKeeps(s: string, p: string, k: nat)
    requires |p| > 0 && k < |s| && !OccursAt(s, p, k)
    ensures RemoveAll(s[k..], p) == [s[k]] + RemoveAll(s[k + 1..], p)
  {
    var t := s[k..];
    assert t[1..] == s[k + 1..];
    if |t| >= |p| {
      assert t[..|p|] == s[k..k + |p|];
    }
  }



  /** `split` on newline keeping every piece, so that `Split(s)` always has
      one more element than `s` has newlines. */
  function Split(s: string): (r: seq<string>)
    ensures |r| >= 1
  {
    if s == [] then [[]] else ConsChar(s[0], Split(s[1..]))
  }

  /** Puts `c` in front of the lines `ls`: a newline opens a new first line,
      any other character joins the first line. */
  function ConsChar(c: char, ls: seq<string>): (r: seq<string>)
    requires |ls| >= 1
    ensures |r| >= 1
  {
    if c == '\n' then [[]] + ls else [[c] + ls[0]] + ls[1..]
  }

  /** The last line of `la` followed by the first of `lb`, run together. */
  function Glue(la: seq<string>, lb: seq<string>): seq<string>
    requires |la| >= 1 && |lb| >= 1
  {
    la[..|la| - 1] + [la[|la| - 1] + lb[0]] + lb[1..]
  }

  lemma GlueEmpty(lb: seq<string>)
    requires |lb| >= 1
    ensures Glue([[]], lb) == lb
  {
    var e: string := [];
    assert [e][..0] == [];
    assert e + lb[0] == lb[0];
  }

  lemma ConsCharGlue(c: char, la: seq<string>, lb: seq<string>)
    requires |la| >= 1 && |lb| >= 1
    ensures ConsChar(c, Glue(la, lb)) == Glue(ConsChar(c, la), lb)
  {
    if c == '\n' {
      NewlineGlue(la, lb);
    } else if |la| == 1 {
      CharGlueOne(c, la[0], lb);
    } else {
      CharGlueMany(c, la, lb);
    }
  }

  lemma NewlineGlue(la: seq<string>, lb: seq<string>)
    requires |la| >= 1 && |lb| >= 1
    ensures [[]] + Glue(la, lb) == Glue([[]] + la, lb)
  {
    assert ([[]] + la)[..|la|] == [[]] + la[..|la| - 1];
  }

  lemma CharGlueOne(c: char, x: string, lb: seq<string>)
    requires c != '\n' && |lb| >= 1
    ensures ConsChar(c, Glue([x], lb)) == Glue(ConsChar(c, [x]), lb)
  {
    assert Glue([x], lb) == [x + lb[0]] + lb[1..];
    assert ConsChar(c, [x]) == [[c] + x];
    assert [c] + (x + lb[0]) == ([c] + x) + lb[0];
  }

  lemma CharGlueMany(c: char, la: seq<string>, lb: seq<string>)
    requires c != '\n' && |la| >= 2 && |lb| >= 1
    ensures ConsChar(c, Glue(la, lb)) == Glue(ConsChar(c, la), lb)
  {
    var n := |la|;
    var g := Glue(la, lb);
    assert g[0] == la[0];
    assert g[1..] == la[1..n - 1] + [la[n - 1] + lb[0]] + lb[1..];
    assert ConsChar(c, la)[..n - 1] == [[c] + la[0]] + la[1..n - 1];
  }

  /** The pieces joined by single newlines, without a leading or trailing one. */
  function Join(ls: seq<string>): string {
    if ls == [] then []
    else if |ls| == 1 then ls[0]
    else ls[0] + "\n" + Join(ls[1..])
  }

  predicate NoNewline(ls: seq<string>) {
    forall k :: 0 <= k < |ls| ==> '\n' !in ls[k]
  }

  /** Splitting a concatenation: the last line of `a` runs on into the first
      line of `b`. */
  lemma {:induction false} SplitAppend(a: string, b: string)
    ensures Split(a + b) == Glue(Split(a), Split(b))
    decreases |a|
  {
    if a == [] {
      assert a + b == b;
      GlueEmpty(Split(b));
    } else {
      assert (a + b)[0] == a[0];
      assert (a + b)[1..] == a[1..] + b;
      SplitAppend(a[1..], b);
      ConsCharGlue(a[0], Split(a[1..]), Split(b));
    }
  }

  /** Join and Split are inverse on newline-free pieces. */
  lemma {:induction false} SplitJoin(ls: seq<string>)
    requires |ls| >= 1 && NoNewline(ls)
    ensures Split(Join(ls)) == ls
  {
    SplitNoNewline(ls[0]);
    if |ls| > 1 {
      var j := Join(ls[1..]);
      SplitJoin(ls[1..]);
      assert ("\n" + j)[0] == '\n' && ("\n" + j)[1..] == j;
      assert Split("\n" + j) == [[]] + ls[1..];
      assert Join(ls) == ls[0] + ("\n" + j);
      SplitAppend(ls[0], "\n" + j);
      GlueBreak(ls[0], ls[1..]);
    }
  }

  /** A text ending in a newline's empty first line glues onto a single line
      without merging anything. */
  lemma GlueBreak(x: string, ys: seq<string>)
    ensures Glue([x], [[]] + ys) == [x] + ys
  {
    assert x + [] == x;
    assert ([[]] + ys)[1..] == ys;
  }

  lemma {:induction false} SplitNoNewline(a: string)
    requires '\n' !in a
    ensures Split(a) == [a]
  {
    if a != [] {
      SplitNoNewline(a[1..]);
      assert [a[0]] + a[1..] == a;
    }
  }

  /** No piece that `Split` returns holds a newline. */
  lemma {:induction false} SplitLines(s: string)
    ensures NoNewline(Split(s))
  {
    if s != [] {
      SplitLines(s[1..]);
    }
  }

  /** Joining non-empty pieces gives the empty string only for no pieces. */
  lemma JoinEmpty(ls: seq<string>)
    requires forall k :: 0 <= k < |ls| ==> ls[k] != []
    ensures Join(ls) == [] <==> ls == []
  {
    if |ls| >= 1 {
      assert |Join(ls)| >= |ls[0]|;
    }
  }

  /** The trimmed, non-blank lines of `ls`, in order. */
  function KeepLines(ls: seq<string>): seq<string> {
    if ls == [] then [] else KeepLine(ls[0]) + KeepLines(ls[1..])
  }

  /** One line, trimmed, or nothing when it is blank. */
  function KeepLine(l: string): seq<string> {
    var t := Trim(l);
    if t == [] then [] else [t]
  }

  lemma {:induction false} KeepLinesAppend(a: seq<string>, b: seq<string>)
    ensures KeepLines(a + b) == KeepLines(a) + KeepLines(b)
  {
    if a == [] {
      assert a + b == b;
    } else {
      assert (a + b)[0] == a[0];
      assert (a + b)[1..] == a[1..] + b;
      KeepLinesAppend(a[1..], b);
    }
  }

  /** Every kept line is non-empty, trimmed, and free of newlines when the
      input lines are. */
  lemma {:induction false} KeepLinesShape(ls: seq<string>)
    requires NoNewline(ls)
    ensures NoNewline(KeepLines(ls))
    ensures forall k :: 0 <= k < |KeepLines(ls)| ==> KeepLines(ls)[k] != [] && Trimmed(KeepLines(ls)[k])
  {
    if ls != [] {
      KeepLinesShape(ls[1..]);
      var t := Trim(ls[0]);
      var i := TrimWindow(ls[0]);
      forall j | 0 <= j < |t|
        ensures t[j] != '\n'
      {
        assert t[j] == ls[0][i + j];
      }
    }
  }

  lemma {:induction false} KeepLinesBlank(ls: seq<string>)
    requires forall k :: 0 <= k < |ls| ==> AllSpace(ls[k])
    ensures KeepLines(ls) == []
  {
    if ls != [] {
      TrimAllSpace(ls[0]);
      KeepLinesBlank(ls[1..]);
    }
  }

  lemma {:induction false} SplitAllSpace(w: string)
    requires AllSpace(w)
    ensures forall k :: 0 <= k < |Split(w)| ==> AllSpace(Split(w)[k])
  {
    if w != [] {
      SplitAllSpace(w[1..]);
    }
  }

  /** The lines of a blank text, whole or with its first or last line
      dropped, are all blank. */
  lemma {:induction false} KeepLinesBlankSplit(w: string)
    requires AllSpace(w)
    ensures var sw := Split(w);
            KeepLines(sw[..|sw| - 1]) == [] && KeepLines(sw[1..]) == []
            && AllSpace(sw[0]) && AllSpace(sw[|sw| - 1])
  {
    var sw := Split(w);
    SplitAllSpace(w);
    var init, tail := sw[..|sw| - 1], sw[1..];
    forall k | 0 <= k < |init|
      ensures AllSpace(init[k])
    {
      assert init[k] == sw[k];
    }
    forall k | 0 <= k < |tail|
      ensures AllSpace(tail[k])
    {
      assert tail[k] == sw[k + 1];
    }
    KeepLinesBlank(init);
    KeepLinesBlank(tail);
  }

  lemma {:induction false} KeepLinesSnoc(ls: seq<string>)
    requires ls != []
    ensures KeepLines(ls[..|ls| - 1]) + KeepLine(ls[|ls| - 1]) == KeepLines(ls)
  {
    KeepLinesAppend(ls[..|ls| - 1], [ls[|ls| - 1]]);
    assert KeepLines([ls[|ls| - 1]]) == KeepLine(ls[|ls| - 1]);
    assert ls[..|ls| - 1] + [ls[|ls| - 1]] == ls;
  }

  lemma KeepLinesThree(a: seq<string>, x: string, b: seq<string>)
    ensures KeepLines(a + [x] + b) == KeepLines(a) + KeepLine(x) + KeepLines(b)
  {
    KeepLinesAppend(a + [x], b);
    KeepLinesAppend(a, [x]);
    assert KeepLines([x]) == KeepLine(x);
  }

  lemma KeepLinesGlue(la: seq<string>, lb: seq<string>)
    requires |la| >= 1 && |lb| >= 1
    ensures KeepLines(Glue(la, lb)) == KeepLines(la[..|la| - 1]) + KeepLine(la[|la| - 1] + lb[0]) + KeepLines(lb[1..])
  {
    KeepLinesThree(la[..|la| - 1], la[|la| - 1] + lb[0], lb[1..]);
  }

  lemma {:induction false} KeepLinesSpacePrefix(w: string, s: string)
    requires AllSpace(w)
    ensures KeepLines(Split(w + s)) == KeepLines(Split(s))
    decreases |w|
  {
    if w != [] {
      assert w + s == [w[0]] + (w[1..] + s);
      KeepLinesSpaceCons(w[0], w[1..] + s);
      KeepLinesSpacePrefix(w[1..], s);
    } else {
      assert w + s == s;
    }
  }

  /** One blank character in front of a text changes none of its kept
      lines. */
  lemma KeepLinesSpaceCons(c: char, x: string)
    requires IsSpace(c)
    ensures KeepLines(Split([c] + x)) == KeepLines(Split(x))
  {
    var sx := Split(x);
    assert ([c] + x)[1..] == x;
    if c == '\n' {
      assert Split([c] + x) == [[]] + sx;
      assert KeepLine([]) == [];
    } else {
      assert Split([c] + x) == [[c] + sx[0]] + sx[1..];
      TrimSpacePrefix([c], sx[0]);
      assert KeepLines(sx) == KeepLine(sx[0]) + KeepLines(sx[1..]);
    }
  }

  lemma KeepLinesSpaceSuffix(s: string, w: string)
    requires AllSpace(w)
    ensures KeepLines(Split(s + w)) == KeepLines(Split(s))
  {
    var ss, sw := Split(s), Split(w);
    KeepLinesSnoc(ss);
    SplitAppend(s, w);
    KeepLinesGlue(ss, sw);
    SpaceSuffixLines(ss[|ss| - 1], w);
  }

  lemma SpaceSuffixLines(x: string, w: string)
    requires AllSpace(w)
    ensures KeepLine(x + Split(w)[0]) == KeepLine(x)
    ensures KeepLines(Split(w)[1..]) == []
  {
    KeepLinesBlankSplit(w);
    TrimSpaceSuffix(x, Split(w)[0]);
  }

  /** Trimming the whole text before splitting it into lines does not change
      which trimmed, non-blank lines it has. */
  lemma KeepLinesTrim(s: string)
    ensures KeepLines(Split(Trim(s))) == KeepLines(Split(s))
  {
    var t := Trim(s);
    var i := TrimWindow(s);
    assert s == s[..i] + (t + s[i + |t|..]);
    KeepLinesSpacePrefix(s[..i], t + s[i + |t|..]);
    KeepLinesSpaceSuffix(t, s[i + |t|..]);
  }
}
