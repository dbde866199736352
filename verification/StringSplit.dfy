/** src/string/strings.c: searching and splitting. A string is a view of bytes that stand somewhere else. */
module StringSplit {
  import opened MachineIntegers
  import opened Splitting

  /** Where a string lies; the null pointer comes with length zero. */
  datatype View = Null | View(start: nat, length: nat) {
    predicate Within(text: seq<u8>) {
      View? ==> start + length <= |text|
    }

    function Length(): nat { if Null? then 0 else length }

    function Shown(text: seq<u8>): seq<u8>
      requires Within(text)
    {
      if Null? then [] else text[start..start + length]
    }
  }

  /** The value of a cast to a signed 32-bit integer. */
  function ToInt32(x: int): (v: i32)
    ensures (v - x) % 0x1_0000_0000 == 0
  {
    var r := x % U32_LIMIT;
    if r < 0x8000_0000 then r else r - U32_LIMIT
  }

  /** string8_advance */
  function Advance(v: View, n: nat): (r: View)
    ensures forall text | v.Within(text) ::
        r.Within(text) && r.Shown(text) == if n >= v.Length() then [] else v.Shown(text)[n..]
  {
    if n >= v.Length() then Null else View(v.start + n, v.length - n)
  }

  /** string8_has_substring: the cast of the leftmost position, or -1. */
  method HasSubstring(text: seq<u8>, v: View, d: seq<u8>) returns (r: i32)
    requires v.Within(text)
    ensures r == if Find(v.Shown(text), d) == -1 then -1 else ToInt32(Find(v.Shown(text), d))
  {
    hide ToInt32;
    ghost var s := v.Shown(text);
    if v.Length() < |d| {
      return -1;
    }
    var pos := 0;
    while |d| + pos <= v.Length()
      invariant FindFrom(s, d, 0) == FindFrom(s, d, pos)
      decreases |s| - pos
    {
      var matches := MatchesAt(text, v, d, pos);
      if matches {
        return ToInt32(pos);
      }
      pos := pos + 1;
    }
    return -1;
  }

  /** The inner loop of string8_has_substring. */
  method MatchesAt(text: seq<u8>, v: View, d: seq<u8>, pos: nat) returns (matches: bool)
    requires v.Within(text) && |d| + pos <= v.Length()
    ensures matches <==> v.Shown(text)[pos..pos + |d|] == d
  {
    ghost var s := v.Shown(text);
    var k := 0;
    while k < |d|
      invariant k <= |d| && forall j | 0 <= j < k :: s[pos + j] == d[j]
    {
      if At(text, v, pos + k) != d[k] {
        assert s[pos..pos + |d|][k] != d[k];
        return false;
      }
      k := k + 1;
    }
    return true;
  }

  function At(text: seq<u8>, v: View, i: nat): (b: u8)
    requires v.Within(text) && i < v.Length()
    ensures b == v.Shown(text)[i]
  {
    text[v.start + i]
  }

  /** The output array holds the first of the pieces found, as many as it can take. */
  ghost predicate Shows(text: seq<u8>, views: seq<View>, pieces: seq<seq<u8>>) {
    forall i | 0 <= i < |pieces| && i < |views| :: views[i].Within(text) && views[i].Shown(text) == pieces[i]
  }

  /** Puts a section into the output array if there is room. */
  method Put(text: seq<u8>, output: array<View>, count: nat, v: View, ghost pieces: seq<seq<u8>>)
    requires v.Within(text) && count == |pieces| && Shows(text, output[..], pieces)
    modifies output
    ensures Shows(text, output[..], pieces + [v.Shown(text)])
    ensures forall i | 0 <= i < output.Length && i != count :: output[i] == old(output[i])
  {
    if count < output.Length {
      output[count] := v;
    }
  }

  /** What is in front of position `pos`, and what is behind the `n` bytes from there on. */
  method CutOff(text: seq<u8>, v: View, pos: nat, n: nat) returns (piece: View, rest: View)
    requires v.View? && v.Within(text) && pos + n <= v.Length()
    ensures piece.Within(text) && piece.Shown(text) == v.Shown(text)[..pos]
    ensures rest.Within(text) && rest.Shown(text) == v.Shown(text)[pos + n..]
    ensures rest.Length() == v.Length() - pos - n
  {
    piece := View(v.start, pos);
    rest := Advance(v, pos + n);
  }

  lemma LengthIsShown(text: seq<u8>, v: View)
    requires v.Within(text)
    ensures |v.Shown(text)| == v.Length()
  {
  }

  /**
   * string8_split. As many of the pieces as the output array can take are put into it, in order, and all of them are
   * counted.
   */
  method Split(text: seq<u8>, str: View, d: seq<u8>, output: array<View>) returns (count: nat)
    requires str.Within(text) && |d| > 0 && str.Length() < 0x8000_0000
    modifies output
    ensures count == |Pieces(str.Shown(text), d)|
    ensures Shows(text, output[..], Pieces(str.Shown(text), d))
    ensures forall i | 0 <= i < count && i < output.Length ::
        output[i].Within(text) && output[i].Shown(text) == Pieces(str.Shown(text), d)[i]
    ensures forall i | count <= i < output.Length :: output[i] == old(output[i])
  {
    hide Pieces, Find, Shows, ToInt32, View.Shown;
    ghost var pieces, found := Pieces(str.Shown(text), d), [];
    NothingShown(text, output[..]);
    var v := str;
    count := 0;
    while v.Length() != 0
      invariant v.Within(text) && v.Length() < 0x8000_0000
      invariant count == |found| && pieces == found + Pieces(v.Shown(text), d)
      invariant Shows(text, output[..], found)
      invariant forall i | count <= i < output.Length :: output[i] == old(output[i])
      decreases v.Length()
    {
      var pos := HasSubstring(text, v, d);
      LengthIsShown(text, v);
      PiecesStep(v.Shown(text), d);
      if pos == -1 {
        break;
      }
      var piece, rest := CutOff(text, v, pos, |d|);
      Put(text, output, count, piece, found);
      count := count + 1;
      found := AddPiece(found, v.Shown(text), d);
      v := rest;
    }
    LengthIsShown(text, v);
    PiecesStep(v.Shown(text), d);
    Put(text, output, count, v, found);
    count := count + 1;
    ShownOne(text, output[..], pieces);
    assert forall i | 0 <= i < output.Length :: output[..][i] == output[i];
  }

  lemma ShownOne(text: seq<u8>, views: seq<View>, pieces: seq<seq<u8>>)
    requires Shows(text, views, pieces)
    ensures forall i | 0 <= i < |pieces| && i < |views| :: views[i].Within(text) && views[i].Shown(text) == pieces[i]
  {
  }

  lemma NothingShown(text: seq<u8>, views: seq<View>)
    ensures Shows(text, views, [])
  {
  }

  /** What is found after one round, and that the rest still makes up the whole. */
  ghost function AddPiece(found: seq<seq<u8>>, s: seq<u8>, d: seq<u8>): (r: seq<seq<u8>>)
    requires |d| > 0 && 0 <= Find(s, d) && Find(s, d) + |d| <= |s| < 0x8000_0000
    ensures r == found + [s[..Find(s, d)]]
    ensures r + Pieces(s[Find(s, d) + |d|..], d) == found + Pieces(s, d)
  {
    PiecesStep(s, d);
    found + [s[..Find(s, d)]]
  }

  /** One round of splitting, with the position in the width it is reported in. */
  lemma PiecesStep(s: seq<u8>, d: seq<u8>)
    requires |d| > 0 && |s| < 0x8000_0000
    ensures var p := Find(s, d);
      && (p == -1 ==> Pieces(s, d) == [s])
      && (p != -1 ==> ToInt32(p) == p && 0 <= p && p + |d| <= |s| && Pieces(s, d) == [s[..p]] + Pieces(s[p + |d|..], d))
    ensures s == [] ==> Pieces(s, d) == [s]
  {
    hide ToInt32, FindFrom, Find;
    FindIsFirst(s, d);
    if Find(s, d) != -1 {
      CastIsExact(Find(s, d));
    }
    NothingToFind(s, d);
  }

  lemma CastIsExact(x: int)
    requires 0 <= x < 0x8000_0000
    ensures ToInt32(x) == x
  {
  }

  lemma NothingToFind(s: seq<u8>, d: seq<u8>)
    requires |d| > 0
    ensures s == [] ==> Find(s, d) == -1
  {
  }
}
