/** Cutting a string at every occurrence of a delimiter, and joining the pieces again. */
module Splitting {
  import opened MachineIntegers

  ghost predicate OccursAt(s: seq<u8>, d: seq<u8>, p: int) {
    0 <= p && p + |d| <= |s| && s[p..p + |d|] == d
  }

  ghost predicate Contains(s: seq<u8>, d: seq<u8>) {
    exists p :: OccursAt(s, d, p)
  }

  /** The leftmost occurrence, or -1. */
  ghost predicate IsFirst(s: seq<u8>, d: seq<u8>, r: int) {
    if r == -1 then !Contains(s, d) else OccursAt(s, d, r) && forall p | 0 <= p < r :: !OccursAt(s, d, p)
  }

  function FindFrom(s: seq<u8>, d: seq<u8>, p: nat): int
    decreases |s| - p
  {
    if p + |d| > |s| then -1 else if s[p..p + |d|] == d then p else FindFrom(s, d, p + 1)
  }

  function Find(s: seq<u8>, d: seq<u8>): int {
    FindFrom(s, d, 0)
  }

  lemma {:induction false} FindFromIsFirst(s: seq<u8>, d: seq<u8>, p: nat)
    requires forall q | 0 <= q < p :: !OccursAt(s, d, q)
    ensures IsFirst(s, d, FindFrom(s, d, p)) && -1 <= FindFrom(s, d, p) < |s| + 1
    decreases |s| - p
  {
    if p + |d| <= |s| && s[p..p + |d|] != d {
      FindFromIsFirst(s, d, p + 1);
    }
  }

  lemma FindIsFirst(s: seq<u8>, d: seq<u8>)
    ensures IsFirst(s, d, Find(s, d)) && -1 <= Find(s, d) <= |s|
  {
    FindFromIsFirst(s, d, 0);
  }

  lemma FirstIsUnique(s: seq<u8>, d: seq<u8>, a: int, b: int)
    requires IsFirst(s, d, a) && IsFirst(s, d, b)
    ensures a == b
  {
  }

  /** The pieces of `s`, going by what `split` does. */
  function Pieces(s: seq<u8>, d: seq<u8>): (r: seq<seq<u8>>)
    requires |d| > 0
    ensures |r| >= 1
    decreases |s|
  {
    FindIsFirst(s, d);
    var p := Find(s, d);
    if p == -1 then [s] else [s[..p]] + Pieces(s[p + |d|..], d)
  }

  /** The pieces with a delimiter between any two of them. */
  function Join(pieces: seq<seq<u8>>, d: seq<u8>): seq<u8>
    requires |pieces| >= 1
  {
    if |pieces| == 1 then pieces[0] else pieces[0] + d + Join(pieces[1..], d)
  }

  /** Joining undoes splitting. */
  lemma {:induction false} JoinUndoesSplit(s: seq<u8>, d: seq<u8>)
    requires |d| > 0
    ensures Join(Pieces(s, d), d) == s
    decreases |s|
  {
    FindIsFirst(s, d);
    var p := Find(s, d);
    if p != -1 {
      JoinUndoesSplit(s[p + |d|..], d);
      assert Pieces(s, d)[1..] == Pieces(s[p + |d|..], d);
      assert s == s[..p] + s[p..p + |d|] + s[p + |d|..];
    }
  }

  /**
   * Pieces that splitting can have made: the delimiter behind each of them is the first one from its beginning on, and
   * the last piece contains none.
   */
  ghost predicate AreCut(pieces: seq<seq<u8>>, d: seq<u8>) {
    && |pieces| >= 1
    && (forall i | 0 <= i < |pieces| - 1 :: IsFirst(pieces[i] + d, d, |pieces[i]|))
    && !Contains(pieces[|pieces| - 1], d)
  }

  /** What occurs in a part occurs in the whole. */
  lemma OccursInside(a: seq<u8>, s: seq<u8>, b: seq<u8>, d: seq<u8>, p: int)
    requires OccursAt(s, d, p)
    ensures OccursAt(a + s + b, d, |a| + p)
  {
    assert (a + s + b)[|a| + p..|a| + p + |d|] == s[p..p + |d|];
  }

  /** What is in front of its first delimiter does not contain one. */
  lemma FreeOfDelimiter(x: seq<u8>, d: seq<u8>)
    requires |d| > 0 && IsFirst(x + d, d, |x|)
    ensures !Contains(x, d)
  {
    assert [] + x + d == x + d;
    forall p ensures OccursAt(x, d, p) ==> OccursAt(x + d, d, p) {
      if OccursAt(x, d, p) {
        OccursInside([], x, d, d, p);
      }
    }
  }

  /** No piece contains the delimiter. */
  lemma CutPiecesAreFree(pieces: seq<seq<u8>>, d: seq<u8>, i: nat)
    requires AreCut(pieces, d) && |d| > 0 && i < |pieces|
    ensures !Contains(pieces[i], d)
  {
    if i < |pieces| - 1 {
      FreeOfDelimiter(pieces[i], d);
    }
  }

  /** An occurrence that ends with the first delimiter shows in front of what follows. */
  lemma FirstInFront(x: seq<u8>, d: seq<u8>, rest: seq<u8>)
    requires |d| > 0
    ensures IsFirst(x + d, d, |x|) <==> IsFirst(x + d + rest, d, |x|)
  {
    var s, t := x + d, x + d + rest;
    assert s[|x|..|x| + |d|] == d && t[|x|..|x| + |d|] == d;
    assert OccursAt(s, d, |x|) && OccursAt(t, d, |x|);
    forall p | 0 <= p < |x| ensures OccursAt(s, d, p) <==> OccursAt(t, d, p) {
      assert t[p..p + |d|] == s[p..p + |d|];
    }
  }

  /** Splitting makes such pieces. */
  lemma {:induction false} SplitCuts(s: seq<u8>, d: seq<u8>)
    requires |d| > 0
    ensures AreCut(Pieces(s, d), d)
    decreases |s|
  {
    FindIsFirst(s, d);
    var p := Find(s, d);
    if p != -1 {
      var rest := s[p + |d|..];
      SplitCuts(rest, d);
      assert s == s[..p] + d + rest;
      FirstInFront(s[..p], d, rest);
      var more, all := Pieces(rest, d), Pieces(s, d);
      assert all == [s[..p]] + more;
      forall i | 0 <= i < |all| - 1 ensures IsFirst(all[i] + d, d, |all[i]|) {
        if i > 0 {
          assert all[i] == more[i - 1];
        }
      }
    }
  }

  /** And it finds the pieces again wherever such pieces have been joined. */
  lemma {:induction false} SplitUndoesJoin(pieces: seq<seq<u8>>, d: seq<u8>)
    requires |d| > 0 && AreCut(pieces, d)
    ensures Pieces(Join(pieces, d), d) == pieces
  {
    var s := Join(pieces, d);
    FindIsFirst(s, d);
    if |pieces| > 1 {
      var rest := pieces[1..];
      forall i | 0 <= i < |rest| - 1 ensures IsFirst(rest[i] + d, d, |rest[i]|) {
        assert rest[i] == pieces[i + 1];
      }
      SplitUndoesJoin(rest, d);
      FirstInFront(pieces[0], d, Join(rest, d));
      FirstIsUnique(s, d, Find(s, d), |pieces[0]|);
      assert s[..|pieces[0]|] == pieces[0] && s[|pieces[0]| + |d|..] == Join(rest, d);
      assert pieces == [pieces[0]] + rest;
    } else {
      FirstIsUnique(s, d, Find(s, d), -1);
    }
  }

  // ----- how many delimiters there are

  /** Occurrences of the delimiter that do not overlap, from left to right. */
  ghost predicate AreApart(s: seq<u8>, d: seq<u8>, ps: seq<int>) {
    && (forall i | 0 <= i < |ps| :: OccursAt(s, d, ps[i]))
    && (forall i | 0 <= i < |ps| - 1 :: ps[i] + |d| <= ps[i + 1])
  }

  /** Where the delimiters stand that splitting takes out. */
  ghost function Cuts(s: seq<u8>, d: seq<u8>): seq<int>
    requires |d| > 0
    decreases |s|
  {
    FindIsFirst(s, d);
    var p := Find(s, d);
    if p == -1 then [] else [p] + Shifted(Cuts(s[p + |d|..], d), p + |d|)
  }

  ghost function Shifted(ps: seq<int>, shift: int): seq<int> {
    seq(|ps|, i requires 0 <= i < |ps| => ps[i] + shift)
  }

  lemma OccurrenceBounds(s: seq<u8>, d: seq<u8>, p: int)
    requires OccursAt(s, d, p)
    ensures 0 <= p && p + |d| <= |s|
  {
  }

  /** An occurrence in the rest of a string, and in the whole. */
  lemma OccursInRest(s: seq<u8>, d: seq<u8>, from: nat, p: int)
    requires from <= |s| && from <= p
    ensures OccursAt(s[from..], d, p - from) <==> OccursAt(s, d, p)
  {
    if p + |d| <= |s| {
      assert s[from..][p - from..p - from + |d|] == s[p..p + |d|];
    }
  }

  /** The cuts are occurrences that do not overlap, one fewer than there are pieces. */
  lemma {:induction false} CutsAreApart(s: seq<u8>, d: seq<u8>)
    requires |d| > 0
    ensures AreApart(s, d, Cuts(s, d)) && |Pieces(s, d)| == |Cuts(s, d)| + 1
    decreases |s|
  {
    hide OccursAt, Find;
    FindIsFirst(s, d);
    var p := Find(s, d);
    if p != -1 {
      OccurrenceBounds(s, d, p);
      CutsAreApart(s[p + |d|..], d);
      PrependCut(s, d, p, Cuts(s[p + |d|..], d));
    }
  }

  lemma PrependCut(s: seq<u8>, d: seq<u8>, p: int, more: seq<int>)
    requires OccursAt(s, d, p) && AreApart(s[p + |d|..], d, more)
    ensures AreApart(s, d, [p] + Shifted(more, p + |d|))
  {
    hide OccursAt;
    OccurrenceBounds(s, d, p);
    var from := p + |d|;
    var ps := [p] + Shifted(more, from);
    forall i | 0 <= i < |more| ensures ps[i + 1] == more[i] + from && from <= ps[i + 1] && OccursAt(s, d, ps[i + 1]) {
      OccurrenceBounds(s[from..], d, more[i]);
      OccursInRest(s, d, from, more[i] + from);
    }
    forall i | 0 <= i < |ps| ensures OccursAt(s, d, ps[i]) {
      if i > 0 {
        assert OccursAt(s, d, ps[(i - 1) + 1]);
      }
    }
    forall i | 0 <= i < |ps| - 1 ensures ps[i] + |d| <= ps[i + 1] {
      assert ps[i + 1] == more[i] + from;
      if i > 0 {
        assert ps[(i - 1) + 1] == more[i - 1] + from && more[i - 1] + |d| <= more[i];
      }
    }
  }

  /** Cutting at the leftmost occurrence each time misses none: no choice of occurrences has more of them. */
  lemma {:induction false} CutsAreMost(s: seq<u8>, d: seq<u8>, ps: seq<int>)
    requires |d| > 0 && AreApart(s, d, ps)
    ensures |ps| < |Pieces(s, d)|
    decreases |s|
  {
    hide OccursAt, Find, IsFirst;
    FindIsFirst(s, d);
    var p := Find(s, d);
    if |ps| > 0 {
      FirstIsLeftmost(s, d, p, ps[0]);
      DropOccurrence(s, d, p + |d|, ps);
      CutsAreMost(s[p + |d|..], d, Shifted(ps[1..], -(p + |d|)));
    }
  }

  lemma FirstIsLeftmost(s: seq<u8>, d: seq<u8>, p: int, q: int)
    requires IsFirst(s, d, p) && OccursAt(s, d, q)
    ensures 0 <= p <= q && p + |d| <= |s|
  {
  }

  /** Behind a place that the first occurrence has reached, the others are left. */
  lemma DropOccurrence(s: seq<u8>, d: seq<u8>, from: int, ps: seq<int>)
    requires 0 <= from && AreApart(s, d, ps) && |ps| > 0 && from <= ps[0] + |d| && from <= |s|
    ensures AreApart(s[from..], d, Shifted(ps[1..], -from))
  {
    hide OccursAt;
    var qs := Shifted(ps[1..], -from);
    forall i | 0 <= i < |qs| ensures OccursAt(s[from..], d, qs[i]) {
      LaterOccurrences(s, d, ps, i + 1);
      assert OccursAt(s, d, ps[i + 1]) && qs[i] == ps[i + 1] - from;
      OccursInRest(s, d, from, ps[i + 1]);
    }
    forall i | 0 <= i < |qs| - 1 ensures qs[i] + |d| <= qs[i + 1] {
      assert ps[i + 1] + |d| <= ps[i + 1 + 1];
    }
  }

  lemma {:induction false} LaterOccurrences(s: seq<u8>, d: seq<u8>, ps: seq<int>, i: nat)
    requires AreApart(s, d, ps) && 0 < i < |ps|
    ensures ps[0] + |d| <= ps[i]
  {
    hide OccursAt;
    assert ps[i - 1] + |d| <= ps[i - 1 + 1];
    if i > 1 {
      LaterOccurrences(s, d, ps, i - 1);
    }
  }
}
