/** Numerals in a base: digits, grouping into units for output, and reading them back. */
module Numerals {
  import opened Arithmetic

  /** The digits of `v`, most significant first; zero has none. */
  function DigitsOf(v: nat, base: nat): seq<nat>
    requires base >= 2
    decreases v
  {
    if v == 0 then []
    else
      QuotientFalls(v, base);
      DigitsOf(v / base, base) + [v % base]
  }

  lemma QuotientFalls(v: nat, base: nat)
    requires base >= 2 && v > 0
    ensures v / base < v
  {
    DivideAndMultiply(v, base);
    MulMonotone(v / base, v / base, 2, base);
  }

  /** The number that digits spell. */
  function Evaluate(ds: seq<nat>, base: nat): nat {
    if ds == [] then 0 else Evaluate(ds[..|ds| - 1], base) * base + ds[|ds| - 1]
  }

  lemma {:induction false} DigitsSpellTheNumber(v: nat, base: nat)
    requires base >= 2
    ensures Evaluate(DigitsOf(v, base), base) == v
    ensures forall i | 0 <= i < |DigitsOf(v, base)| :: DigitsOf(v, base)[i] < base
    ensures v > 0 ==> |DigitsOf(v, base)| > 0 && DigitsOf(v, base)[0] != 0
    decreases v
  {
    if v > 0 {
      QuotientFalls(v, base);
      DigitsSpellTheNumber(v / base, base);
      var ds := DigitsOf(v, base);
      assert ds[..|ds| - 1] == DigitsOf(v / base, base);
      DivideAndMultiply(v, base);
    }
  }

  function Zeros(n: nat): seq<nat> {
    seq(n, i => 0)
  }

  /** Zeros in front do not change the number. */
  lemma {:induction false} LeadingZeros(n: nat, ds: seq<nat>, base: nat)
    ensures Evaluate(Zeros(n) + ds, base) == Evaluate(ds, base)
    decreases |ds|, n
  {
    var all := Zeros(n) + ds;
    if ds != [] {
      assert all[..|all| - 1] == Zeros(n) + ds[..|ds| - 1];
      LeadingZeros(n, ds[..|ds| - 1], base);
    } else if n > 0 {
      assert all[..|all| - 1] == Zeros(n - 1) + [];
      LeadingZeros(n - 1, [], base);
    }
  }

  // ----- grouping

  datatype Mark = Digit(d: nat) | Separator | Plus | Minus | Pad

  predicate IsMultiple(n: nat, distance: nat) {
    distance > 0 && n % distance == 0
  }

  /** A separator stands in front of `behind` digits, if there are any and their number is a multiple of `distance`. */
  function Gap(behind: nat, distance: nat): seq<Mark> {
    if behind > 0 && IsMultiple(behind, distance) then [Separator] else []
  }

  /** Digits with a separator between any two that a multiple of `distance` digits follows. */
  function Grouped(ds: seq<nat>, distance: nat): seq<Mark> {
    if ds == [] then [] else [Digit(ds[0])] + Gap(|ds| - 1, distance) + Grouped(ds[1..], distance)
  }

  function Ungrouped(ds: seq<nat>): seq<Mark> {
    seq(|ds|, i requires 0 <= i < |ds| => Digit(ds[i]))
  }

  /** How many separators `n` digits have between them. */
  function SeparatorCount(n: nat, distance: nat): nat {
    if distance > 0 && n > 0 then (n - 1) / distance else 0
  }

  /** The digits among the marks. */
  function DigitsIn(marks: seq<Mark>): seq<nat> {
    if marks == [] then [] else (if marks[0].Digit? then [marks[0].d] else []) + DigitsIn(marks[1..])
  }

  lemma {:induction false} DigitsInSum(a: seq<Mark>, b: seq<Mark>)
    ensures DigitsIn(a + b) == DigitsIn(a) + DigitsIn(b)
  {
    if a == [] {
      assert a + b == b;
    } else {
      var own := if a[0].Digit? then [a[0].d] else [];
      assert (a + b)[0] == a[0] && (a + b)[1..] == a[1..] + b;
      DigitsInSum(a[1..], b);
      assert DigitsIn(a + b) == own + DigitsIn(a[1..] + b) && DigitsIn(a) == own + DigitsIn(a[1..]);
      assert own + (DigitsIn(a[1..]) + DigitsIn(b)) == own + DigitsIn(a[1..]) + DigitsIn(b);
    }
  }

  function Repeat<T>(x: T, n: nat): seq<T> {
    seq(n, i => x)
  }

  lemma {:induction false} NoDigitsIn(m: Mark, n: nat)
    requires !m.Digit?
    ensures DigitsIn(Repeat(m, n)) == []
  {
    if n > 0 {
      assert Repeat(m, n)[1..] == Repeat(m, n - 1);
      NoDigitsIn(m, n - 1);
    }
  }

  /** One digit more on the left. */
  lemma GroupedGrows(d: nat, rest: seq<nat>, distance: nat)
    ensures Grouped([d] + rest, distance) == [Digit(d)] + Gap(|rest|, distance) + Grouped(rest, distance)
  {
    assert ([d] + rest)[1..] == rest;
  }

  /** Without separators, grouping only turns digits into marks. */
  lemma {:induction false} GroupedWithoutGaps(n: nat, ds: seq<nat>, distance: nat)
    requires forall j | |ds| <= j < |ds| + n :: Gap(j, distance) == []
    ensures Grouped(Zeros(n) + ds, distance) == Repeat(Digit(0), n) + Grouped(ds, distance)
  {
    hide Gap, Grouped;
    if n == 0 {
      assert Zeros(0) + ds == ds;
    } else {
      GroupedWithoutGaps(n - 1, ds, distance);
      assert Zeros(n) + ds == [0] + (Zeros(n - 1) + ds);
      GroupedGrows(0, Zeros(n - 1) + ds, distance);
      assert Gap(|ds| + (n - 1), distance) == [];
      assert Repeat(Digit(0), n) == [Digit(0)] + Repeat(Digit(0), n - 1);
    }
  }

  /** Grouping loses no digit and puts them in no other order. */
  lemma {:induction false} GroupedKeepsDigits(ds: seq<nat>, distance: nat)
    ensures DigitsIn(Grouped(ds, distance)) == ds
  {
    if ds != [] {
      GroupedKeepsDigits(ds[1..], distance);
      var gap, rest := Gap(|ds| - 1, distance), Grouped(ds[1..], distance);
      assert [Digit(ds[0])] + gap + rest == [Digit(ds[0])] + (gap + rest);
      assert DigitsIn([Digit(ds[0])]) == [ds[0]] by {
        assert [Digit(ds[0])][1..] == [];
      }
      DigitsInSum([Digit(ds[0])], gap + rest);
      DigitsInSum(gap, rest);
      assert DigitsIn(gap) == [] by {
        NoDigitsIn(Separator, |gap|);
        assert gap == Repeat(Separator, |gap|);
      }
    }
  }

  /**
   * A separator stands between two digits, and a multiple of `distance` digits follows; where a multiple follows,
   * there is a separator.
   */
  ghost predicate WellPlaced(m: seq<Mark>, p: nat, distance: nat)
    requires p < |m|
  {
    && (m[p] == Separator ==>
          p > 0 && p + 1 < |m| && m[p - 1].Digit? && m[p + 1].Digit? && IsMultiple(|DigitsIn(m[p + 1..])|, distance))
    && (p > 0 && m[p].Digit? && IsMultiple(|DigitsIn(m[p..])|, distance) ==> m[p - 1] == Separator)
  }

  ghost predicate WellGrouped(m: seq<Mark>, distance: nat) {
    forall p | 0 <= p < |m| :: (m[p].Digit? || m[p] == Separator) && WellPlaced(m, p, distance)
  }

  /** A digit and perhaps a separator in front of grouped digits. */
  lemma WellGroupedGrows(d: nat, gap: seq<Mark>, rest: seq<Mark>, distance: nat)
    requires WellGrouped(rest, distance)
    requires gap == if rest != [] && IsMultiple(|DigitsIn(rest)|, distance) then [Separator] else []
    ensures WellGrouped([Digit(d)] + gap + rest, distance)
  {
    hide IsMultiple, DigitsIn, WellPlaced;
    var m, k := [Digit(d)] + gap + rest, 1 + |gap|;
    assert m[k..] == rest;
    forall p | 0 <= p < |m| ensures (m[p].Digit? || m[p] == Separator) && WellPlaced(m, p, distance) {
      if p >= k {
        assert WellPlaced(rest, p - k, distance);
        assert rest != [] ==> WellPlaced(rest, 0, distance);
        PlacesMove([Digit(d)] + gap, rest, p - k, distance);
      } else {
        HeadIsWellPlaced(d, gap, rest, p, distance);
      }
    }
  }

  lemma PlacesMove(front: seq<Mark>, rest: seq<Mark>, p: nat, distance: nat)
    requires p < |rest| && WellPlaced(rest, p, distance) && front != [] && WellPlaced(rest, 0, distance)
    requires IsMultiple(|DigitsIn(rest)|, distance) ==> front[|front| - 1] == Separator
    ensures WellPlaced(front + rest, p + |front|, distance)
  {
    hide IsMultiple, DigitsIn;
    var m, q := front + rest, p + |front|;
    assert m[q] == rest[p] && m[q..] == rest[p..];
    assert p + 1 < |rest| ==> m[q + 1] == rest[p + 1] && m[q + 1..] == rest[p + 1..];
    assert p > 0 ==> m[q - 1] == rest[p - 1];
    assert rest[0..] == rest;
  }

  lemma HeadIsWellPlaced(d: nat, gap: seq<Mark>, rest: seq<Mark>, p: nat, distance: nat)
    requires WellGrouped(rest, distance) && p < 1 + |gap|
    requires gap == if rest != [] && IsMultiple(|DigitsIn(rest)|, distance) then [Separator] else []
    ensures WellPlaced([Digit(d)] + gap + rest, p, distance)
  {
    hide IsMultiple, DigitsIn;
    var m := [Digit(d)] + gap + rest;
    if p == 1 {
      assert WellPlaced(rest, 0, distance);
      assert m[2..] == rest && m[2] == rest[0];
    }
  }

  lemma {:induction false} GroupedIsWellGrouped(ds: seq<nat>, distance: nat)
    ensures WellGrouped(Grouped(ds, distance), distance)
    ensures Grouped(ds, distance) == [] <==> ds == []
  {
    hide IsMultiple, DigitsIn, WellGrouped;
    if ds != [] {
      var rest := ds[1..];
      GroupedIsWellGrouped(rest, distance);
      GroupedKeepsDigits(rest, distance);
      WellGroupedGrows(ds[0], Gap(|rest|, distance), Grouped(rest, distance), distance);
    } else {
      NothingIsWellGrouped(distance);
    }
  }

  lemma NothingIsWellGrouped(distance: nat)
    ensures WellGrouped([], distance)
  {
  }

  /** How many marks grouping makes. */
  lemma {:induction false} GroupedLength(ds: seq<nat>, distance: nat)
    ensures |Grouped(ds, distance)| == |ds| + SeparatorCount(|ds|, distance)
  {
    if ds != [] {
      GroupedLength(ds[1..], distance);
      OneMoreSeparator(|ds| - 1, distance);
    }
  }

  lemma OneMoreSeparator(n: nat, distance: nat)
    ensures SeparatorCount(n + 1, distance) == SeparatorCount(n, distance) + |Gap(n, distance)|
  {
    if distance > 0 && n > 0 {
      var q, r := n / distance, n % distance;
      DivideAndMultiply(n, distance);
      if r == 0 {
        DivisionIsUnique(n - 1, q - 1, distance - 1, distance) by {
          assert (q - 1) * distance == q * distance - distance;
        }
      } else {
        DivisionIsUnique(n - 1, q, r - 1, distance);
      }
    }
  }
}
