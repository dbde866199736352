/** src/string/format.c: filling the buffer, padding and sign from the left, digits from the right. */
module IntegerWriter {
  import opened Arithmetic
  import opened MachineIntegers
  import opened Numerals
  import opened IntegerFormat

  // ----- pieces of text

  /** One mark more at either end of a run of equal ones. */
  lemma BytesOfRun(spec: Spec, m: Mark, n: nat)
    ensures spec.Bytes(Repeat(m, n + 1)) == spec.Image(m) + spec.Bytes(Repeat(m, n))
    ensures spec.Bytes(Repeat(m, n + 1)) == spec.Bytes(Repeat(m, n)) + spec.Image(m)
  {
    assert Repeat(m, n + 1) == [m] + Repeat(m, n) && Repeat(m, n + 1) == Repeat(m, n) + [m];
    BytesSum(spec, [m], Repeat(m, n));
    BytesSum(spec, Repeat(m, n), [m]);
    BytesOfOne(spec, m);
  }

  lemma RunsGrow(spec: Spec, m: Mark, i: nat, n: nat)
    requires i <= n
    ensures |spec.Bytes(Repeat(m, i))| <= |spec.Bytes(Repeat(m, n))|
  {
    assert Repeat(m, n) == Repeat(m, n - i) + Repeat(m, i);
    BytesSum(spec, Repeat(m, n - i), Repeat(m, i));
  }

  /** What has been written of a number is not longer than the number. */
  lemma {:induction false} PartOfGrouped(spec: Spec, front: seq<nat>, ds: seq<nat>, distance: nat)
    ensures |spec.Bytes(Grouped(front + ds, distance))| >= |spec.Bytes(Grouped(ds, distance))|
    ensures front != [] ==>
        |spec.Bytes(Grouped(front + ds, distance))| >= |spec.Bytes(Gap(|ds|, distance) + Grouped(ds, distance))|
  {
    if front == [] {
      assert front + ds == ds;
    } else {
      hide Grouped, Gap, Spec.Bytes;
      var rest := front[1..];
      PartOfGrouped(spec, rest, ds, distance);
      assert (front + ds)[1..] == rest + ds;
      BytesOfGroupedStep(spec, front + ds, distance);
      BytesSum(spec, Gap(|ds|, distance), Grouped(ds, distance));
      if rest == [] {
        assert rest + ds == ds;
      }
    }
  }

  // ----- writing

  /** write_output_left */
  method WriteLeft(out: array<u8>, lo: nat, hi: nat, str: seq<u8>) returns (rest: nat)
    requires lo + |str| <= hi <= out.Length
    modifies out
    ensures rest == lo + |str|
    ensures out[..rest] == old(out[..lo]) + str && out[rest..] == old(out[rest..])
  {
    for k := 0 to |str|
      invariant out[..lo + k] == old(out[..lo]) + str[..k]
      invariant out[lo + k..] == old(out[lo + k..])
    {
      out[lo + k] := str[k];
    }
    rest := lo + |str|;
  }

  /** write_output_right */
  method WriteRight(out: array<u8>, lo: nat, hi: nat, str: seq<u8>) returns (rest: nat)
    requires lo + |str| <= hi <= out.Length
    modifies out
    ensures rest == hi - |str|
    ensures out[..rest] == old(out[..rest]) && out[rest..] == str + old(out[hi..])
  {
    rest := hi - |str|;
    for k := 0 to |str|
      invariant out[..rest] == old(out[..rest])
      invariant out[rest..rest + k] == str[..k]
      invariant out[rest + k..] == old(out[rest + k..])
    {
      out[rest + k] := str[k];
    }
  }

  /** Writing in front of a text that is already there. */
  method Prepend(out: array<u8>, lo: nat, hi: nat, str: seq<u8>, ghost text: seq<u8>, ghost tail: seq<u8>)
    returns (rest: nat)
    requires lo + |str| <= hi <= out.Length && out[hi..] == text + tail
    modifies out
    ensures rest == hi - |str|
    ensures out[..lo] == old(out[..lo]) && out[rest..] == (str + text) + tail
  {
    rest := WriteRight(out, lo, hi, str);
    assert out[..lo] == out[..rest][..lo] == old(out[..rest])[..lo] == old(out[..lo]);
    assert str + (text + tail) == (str + text) + tail;
  }

  /** write_output_left_n */
  method WriteLeftN(out: array<u8>, lo: nat, hi: nat, repeats: nat, spec: Spec, m: Mark) returns (rest: nat)
    requires lo + |spec.Bytes(Repeat(m, repeats))| <= hi <= out.Length
    modifies out
    ensures rest == lo + |spec.Bytes(Repeat(m, repeats))|
    ensures out[..rest] == old(out[..lo]) + spec.Bytes(Repeat(m, repeats)) && out[rest..] == old(out[rest..])
    ensures out[hi..] == old(out[hi..])
  {
    hide Spec.Bytes;
    rest := lo;
    NoRun(spec, m);
    for i := 0 to repeats
      invariant rest == lo + |spec.Bytes(Repeat(m, i))| <= hi
      invariant out[..rest] == old(out[..lo]) + spec.Bytes(Repeat(m, i)) && out[rest..] == old(out[rest..])
    {
      BytesOfRun(spec, m, i);
      RunsGrow(spec, m, i + 1, repeats);
      ghost var r := rest;
      rest := WriteLeft(out, rest, hi, spec.Image(m));
      assert old(out[rest..]) == old(out[r..])[rest - r..];
    }
    assert out[hi..] == out[rest..][hi - rest..] && old(out[hi..]) == old(out[rest..])[hi - rest..];
  }

  lemma NoRun(spec: Spec, m: Mark)
    ensures spec.Bytes(Repeat(m, 0)) == []
  {
  }

  /** write_output_right_n */
  method WriteRightN(out: array<u8>, lo: nat, hi: nat, repeats: nat, spec: Spec, m: Mark) returns (rest: nat)
    requires lo + |spec.Bytes(Repeat(m, repeats))| <= hi <= out.Length
    modifies out
    ensures rest == hi - |spec.Bytes(Repeat(m, repeats))|
    ensures out[..lo] == old(out[..lo]) && out[rest..] == spec.Bytes(Repeat(m, repeats)) + old(out[hi..])
  {
    hide Spec.Bytes;
    rest := hi;
    ghost var tail := out[hi..];
    NoRun(spec, m);
    for i := 0 to repeats
      invariant lo <= rest && rest == hi - |spec.Bytes(Repeat(m, i))|
      invariant out[..lo] == old(out[..lo]) && out[rest..] == spec.Bytes(Repeat(m, i)) + tail
    {
      BytesOfRun(spec, m, i);
      RunsGrow(spec, m, i + 1, repeats);
      rest := Prepend(out, lo, rest, spec.Image(m), spec.Bytes(Repeat(m, i)), tail);
    }
  }

  /** pad_output */
  method PadOutput(out: array<u8>, lo: nat, hi: nat, spec: Spec, pads: nat) returns (lo': nat, hi': nat)
    requires var l := LeftPads(spec.padding.direction, pads);
      lo + |spec.Bytes(Repeat(Pad, l))| + |spec.Bytes(Repeat(Pad, pads - l))| <= hi <= out.Length
    modifies out
    ensures var l := LeftPads(spec.padding.direction, pads);
      && lo' == lo + |spec.Bytes(Repeat(Pad, l))| && hi' == hi - |spec.Bytes(Repeat(Pad, pads - l))|
      && out[..lo'] == old(out[..lo]) + spec.Bytes(Repeat(Pad, l))
      && out[hi'..] == spec.Bytes(Repeat(Pad, pads - l)) + old(out[hi..])
    ensures spec.padding.direction == PaddingLeft ==> hi' == hi && lo' == lo + |spec.Bytes(Repeat(Pad, pads))|
    ensures spec.padding.direction == PaddingRight ==> lo' == lo && hi' == hi - |spec.Bytes(Repeat(Pad, pads))|
    ensures spec.padding.direction == PaddingBothL ==>
        lo' == lo + |spec.Bytes(Repeat(Pad, (pads + 1) / 2))| && hi' == hi - |spec.Bytes(Repeat(Pad, pads / 2))|
    ensures spec.padding.direction == PaddingBothR ==>
        lo' == lo + |spec.Bytes(Repeat(Pad, pads / 2))| && hi' == hi - |spec.Bytes(Repeat(Pad, (pads + 1) / 2))|
  {
    hide Spec.Bytes;
    NoRun(spec, Pad);
    lo', hi' := lo, hi;
    match spec.padding.direction {
      case PaddingLeft =>
        lo' := WriteLeftN(out, lo', hi', pads, spec, Pad);
      case PaddingRight =>
        hi' := WriteRightN(out, lo', hi', pads, spec, Pad);
      case PaddingBothL =>
        var right := pads / 2;
        var left := pads - right;
        assert left == (pads + 1) / 2;
        lo' := WriteLeftN(out, lo', hi', left, spec, Pad);
        hi' := WriteRightN(out, lo', hi', right, spec, Pad);
      case PaddingBothR =>
        var left := pads / 2;
        var right := pads - left;
        assert right == (pads + 1) / 2;
        hi' := WriteRightN(out, lo', hi', right, spec, Pad);
        lo' := WriteLeftN(out, lo', hi', left, spec, Pad);
    }
  }

  // ----- the separator counter

  /** Where the counter stands after `n` digits, if a separator is written as soon as it reaches the distance. */
  function CounterAt(n: nat, distance: nat): nat {
    if distance == 0 then n else n % distance
  }

  lemma CounterStep(n: nat, distance: nat)
    ensures CounterAt(n + 1, distance) ==
        if CounterAt(n, distance) + 1 == distance then 0 else CounterAt(n, distance) + 1
    ensures Gap(n + 1, distance) == if CounterAt(n, distance) + 1 == distance then [Separator] else []
    ensures CounterAt(n, distance) <= n
  {
    if distance > 0 {
      var q, r := n / distance, n % distance;
      DivideAndMultiply(n, distance);
      MulMonotone(0, q, 0, distance);
      assert (q + 1) * distance == q * distance + distance;
      if r + 1 == distance {
        DivisionIsUnique(n + 1, q + 1, 0, distance);
      } else {
        DivisionIsUnique(n + 1, q, r + 1, distance);
      }
    }
  }

  // ----- the digits of the value

  /** The part of a number that stands once the digits `ds` are written; more digits follow if `more`. */
  function Standing(ds: seq<nat>, distance: nat, more: bool): seq<Mark> {
    (if more then Gap(|ds|, distance) else []) + Grouped(ds, distance)
  }

  lemma DigitArrives(spec: Spec, d: nat, ds: seq<nat>, distance: nat, front: seq<nat>)
    ensures var ds' := [d] + ds;
      && spec.Bytes(Standing(ds', distance, false)) == spec.Image(Digit(d)) + spec.Bytes(Standing(ds, distance, true))
      && (Gap(|ds'|, distance) == [] ==>
            spec.Bytes(Standing(ds', distance, true)) == spec.Bytes(Standing(ds', distance, false)))
      && (Gap(|ds'|, distance) == [Separator] ==>
            spec.Bytes(Standing(ds', distance, true)) ==
              spec.separator.minor + spec.Bytes(Standing(ds', distance, false)))
      && |spec.Bytes(Standing(ds', distance, front != []))| <= |spec.Bytes(Grouped(front + ds', distance))|
  {
    hide Grouped, Gap, Spec.Bytes;
    var ds' := [d] + ds;
    assert ds'[1..] == ds;
    BytesOfGroupedStep(spec, ds', distance);
    assert [] + Grouped(ds', distance) == Grouped(ds', distance);
    BytesSum(spec, Gap(|ds|, distance), Grouped(ds, distance));
    BytesSum(spec, Gap(|ds'|, distance), Grouped(ds', distance));
    BytesOfOne(spec, Separator);
    PartOfGrouped(spec, front, ds', distance);
  }

  /** The first loop of write_integer_with_separators_rtl: the digits of the value. */
  method WriteDigits(out: array<u8>, lo: nat, hi: nat, value: u64, spec: Spec)
    returns (rest: nat, counter: nat, written: nat)
    requires spec.Valid()
    requires lo + |spec.Bytes(Grouped(DigitsOf(value, spec.digit.base), spec.separator.distance))| <= hi <= out.Length
    modifies out
    ensures var ds := DigitsOf(value, spec.digit.base); var text := spec.Bytes(Grouped(ds, spec.separator.distance));
      && rest == hi - |text|
      && out[..lo] == old(out[..lo]) && out[rest..] == text + old(out[hi..])
      && written == |ds|
      && counter == if ds == [] then 0 else CounterAt(|ds| - 1, spec.separator.distance) + 1
  {
    hide Spec.Bytes, DigitsOf, Grouped, Gap, CounterAt, Standing;
    ghost var all, ds, tail := DigitsOf(value, spec.digit.base), [], out[hi..];
    var distance := spec.separator.distance;
    NothingStands(spec, distance);
    var v := value;
    rest, counter, written := hi, 0, 0;
    SomeDigits(v, spec.digit.base);
    while v != 0
      invariant DigitsOf(v, spec.digit.base) == [] <==> v == 0
      invariant DigitsOf(v, spec.digit.base) + ds == all && written == |ds|
      invariant lo <= rest <= hi && rest == hi - |spec.Bytes(Standing(ds, distance, v != 0))|
      invariant out[..lo] == old(out[..lo]) && out[rest..] == spec.Bytes(Standing(ds, distance, v != 0)) + tail
      invariant v != 0 ==> counter == CounterAt(|ds|, distance)
      invariant v == 0 ==> counter == if ds == [] then 0 else CounterAt(|ds| - 1, distance) + 1
      decreases v
    {
      var digit, more := ExtractNextDigit(v, spec.digit.base);
      SomeDigits(more, spec.digit.base);
      assert DigitsOf(more, spec.digit.base) + ([digit] + ds) == all;
      DigitArrives(spec, digit, ds, distance, DigitsOf(more, spec.digit.base));
      CounterStep(|ds|, distance);
      rest := Prepend(out, lo, rest, spec.digit.digits[digit], spec.Bytes(Standing(ds, distance, true)), tail);
      counter := counter + 1;
      ds := [digit] + ds;
      if more != 0 && counter == distance {
        rest := Prepend(out, lo, rest, spec.separator.minor, spec.Bytes(Standing(ds, distance, false)), tail);
        counter := 0;
      }
      written := written + 1;
      v := more;
    }
    assert ds == all;
    AllStands(ds, distance);
  }

  lemma AllStands(ds: seq<nat>, distance: nat)
    ensures Standing(ds, distance, false) == Grouped(ds, distance)
  {
  }

  lemma NothingStands(spec: Spec, distance: nat)
    ensures spec.Bytes(Standing([], distance, true)) == [] == spec.Bytes(Standing([], distance, false))
    ensures CounterAt(0, distance) == 0
  {
  }

  lemma SomeDigits(v: nat, base: nat)
    requires base >= 2
    ensures DigitsOf(v, base) == [] <==> v == 0
  {
  }

  // ----- leading zeros

  /** The digits fill up their last group, and the counter has already reached the distance. */
  predicate GroupIsFull(n: nat, distance: nat) {
    n > 0 && IsMultiple(n, distance)
  }

  /** The part of a number that stands once `i` of `n` leading zeros are written. */
  function Extended(ds: seq<nat>, i: nat, n: nat, distance: nat): seq<Mark> {
    if GroupIsFull(|ds|, distance) then
      Repeat(Digit(0), i) + Grouped(ds, distance)
    else
      (if i < n then Gap(|ds| + i, distance) else []) + Grouped(Zeros(i) + ds, distance)
  }

  lemma FirstZero(ds: seq<nat>, n: nat, distance: nat)
    ensures Extended(ds, 0, n, distance) == Grouped(ds, distance)
  {
    hide Grouped, IsMultiple;
    assert Zeros(0) + ds == ds;
    assert [] + Grouped(ds, distance) == Grouped(ds, distance);
  }

  lemma FirstCounter(ds: seq<nat>, distance: nat)
    ensures var c := if ds == [] then 0 else CounterAt(|ds| - 1, distance) + 1;
      c == if GroupIsFull(|ds|, distance) then distance else CounterAt(|ds|, distance)
  {
    hide IsMultiple;
    if ds != [] {
      CounterStep(|ds| - 1, distance);
      FullGroups(|ds|, distance);
    }
  }

  lemma FullGroups(n: nat, distance: nat)
    requires n > 0
    ensures GroupIsFull(n, distance) <==> Gap(n, distance) == [Separator]
    ensures distance == 0 ==> CounterAt(n, distance) == n
  {
  }

  /** One leading zero more, and the separator in front of it if another one follows. */
  lemma ZeroArrives(spec: Spec, ds: seq<nat>, i: nat, n: nat, distance: nat)
    requires i < n
    ensures var text := spec.Image(Digit(0)) + spec.Bytes(Extended(ds, i, n, distance));
      && (GroupIsFull(|ds|, distance) || i + 1 == n || CounterAt(|ds| + i, distance) + 1 != distance ==>
            spec.Bytes(Extended(ds, i + 1, n, distance)) == text)
      && (!GroupIsFull(|ds|, distance) && i + 1 < n && CounterAt(|ds| + i, distance) + 1 == distance ==>
            spec.Bytes(Extended(ds, i + 1, n, distance)) == spec.separator.minor + text)
  {
    hide IsMultiple, GroupIsFull, Grouped, Gap, Spec.Bytes, CounterAt;
    if GroupIsFull(|ds|, distance) {
      BytesOfRun(spec, Digit(0), i);
      BytesSum(spec, Repeat(Digit(0), i), Grouped(ds, distance));
      BytesSum(spec, Repeat(Digit(0), i + 1), Grouped(ds, distance));
      var z, g := spec.Bytes(Repeat(Digit(0), i)), spec.Bytes(Grouped(ds, distance));
      assert spec.Image(Digit(0)) + (z + g) == spec.Image(Digit(0)) + z + g;
    } else {
      CounterStep(|ds| + i, distance);
      assert [0] + (Zeros(i) + ds) == Zeros(i + 1) + ds;
      DigitArrives(spec, 0, Zeros(i) + ds, distance, []);
      StandingIsExtended(spec, ds, i, n, distance);
      StandingIsExtended(spec, ds, i + 1, n, distance);
    }
  }

  lemma StandingIsExtended(spec: Spec, ds: seq<nat>, i: nat, n: nat, distance: nat)
    requires !GroupIsFull(|ds|, distance) && i <= n
    ensures |Zeros(i) + ds| == |ds| + i
    ensures Extended(ds, i, n, distance) == Standing(Zeros(i) + ds, distance, i < n)
  {
  }

  /** What stands is never longer than the whole. */
  lemma ExtendedGrows(spec: Spec, ds: seq<nat>, i: nat, n: nat, distance: nat)
    requires i <= n
    ensures |spec.Bytes(Extended(ds, i, n, distance))| <= |spec.Bytes(Extended(ds, n, n, distance))|
  {
    hide Grouped, Gap, Spec.Bytes;
    if GroupIsFull(|ds|, distance) {
      RunsGrow(spec, Digit(0), i, n);
      BytesSum(spec, Repeat(Digit(0), i), Grouped(ds, distance));
      BytesSum(spec, Repeat(Digit(0), n), Grouped(ds, distance));
    } else {
      assert Zeros(n) + ds == Zeros(n - i) + (Zeros(i) + ds);
      assert Extended(ds, n, n, distance) == Grouped(Zeros(n) + ds, distance);
      assert i == n ==> Extended(ds, i, n, distance) == Grouped(Zeros(i) + ds, distance);
      PartOfGrouped(spec, Zeros(n - i), Zeros(i) + ds, distance);
    }
  }

  /** Few enough zeros get no separators. */
  lemma ZerosWithoutGaps(spec: Spec, ds: seq<nat>, n: nat, distance: nat)
    requires distance == 0 || distance >= CounterAt(|ds|, distance) + n
    requires !GroupIsFull(|ds|, distance)
    ensures Extended(ds, n, n, distance) == Repeat(Digit(0), n) + Grouped(ds, distance)
  {
    forall j | |ds| <= j < |ds| + n ensures Gap(j, distance) == [] {
      if distance > 0 {
        var q, r := |ds| / distance, |ds| % distance;
        DivideAndMultiply(|ds|, distance);
        DivisionIsUnique(j, q, r + (j - |ds|), distance);
      }
    }
    GroupedWithoutGaps(n, ds, distance);
    assert Extended(ds, n, n, distance) == [] + Grouped(Zeros(n) + ds, distance);
  }

  /** The part of write_integer_with_separators_rtl that writes leading zeros in front of the digits `ds`. */
  method WriteLeadingZeros(out: array<u8>, lo: nat, hi: nat, zeros: nat, spec: Spec, counter: nat,
                           ghost ds: seq<nat>, ghost tail: seq<u8>)
    returns (rest: nat)
    requires var d := spec.separator.distance;
      && lo + |spec.Bytes(Extended(ds, zeros, zeros, d))| <= hi + |spec.Bytes(Grouped(ds, d))|
      && lo <= hi <= out.Length && out[hi..] == spec.Bytes(Grouped(ds, d)) + tail && |spec.digit.digits| >= 1
      && counter == if ds == [] then 0 else CounterAt(|ds| - 1, d) + 1
    modifies out
    ensures var text := spec.Bytes(Extended(ds, zeros, zeros, spec.separator.distance));
      && rest == out.Length - |tail| - |text| >= lo
      && out[..lo] == old(out[..lo]) && out[rest..] == text + tail
  {
    hide Spec.Bytes, Grouped, CounterAt, Extended, GroupIsFull, Gap;
    var distance := spec.separator.distance;
    FirstZero(ds, zeros, distance);
    FirstCounter(ds, distance);
    rest := hi;
    if zeros == 0 {
      return;
    }
    if distance == 0 || distance >= counter + zeros {
      NotFull(spec, ds, zeros, distance, counter);
      ZerosWithoutGaps(spec, ds, zeros, distance);
      BytesSum(spec, Repeat(Digit(0), zeros), Grouped(ds, distance));
      rest := WriteRightN(out, lo, hi, zeros, spec, Digit(0));
      var z, g := spec.Bytes(Repeat(Digit(0), zeros)), spec.Bytes(Grouped(ds, distance));
      assert z + (g + tail) == z + g + tail;
      return;
    }
    var minor := counter;
    for i := 0 to zeros
      invariant lo <= rest && rest == out.Length - |tail| - |spec.Bytes(Extended(ds, i, zeros, distance))|
      invariant out[..lo] == old(out[..lo]) && out[rest..] == spec.Bytes(Extended(ds, i, zeros, distance)) + tail
      invariant GroupIsFull(|ds|, distance) ==> minor == distance + i
      invariant !GroupIsFull(|ds|, distance) && i < zeros ==> minor == CounterAt(|ds| + i, distance)
    {
      ghost var text := spec.Bytes(Extended(ds, i, zeros, distance));
      ZeroArrives(spec, ds, i, zeros, distance);
      ExtendedGrows(spec, ds, i + 1, zeros, distance);
      CounterStep(|ds| + i, distance);
      rest := Prepend(out, lo, rest, spec.digit.digits[0], text, tail);
      minor := minor + 1;
      if i + 1 != zeros && minor == distance {
        text := spec.digit.digits[0] + text;
        rest := Prepend(out, lo, rest, spec.separator.minor, text, tail);
        minor := 0;
      }
    }
  }

  lemma NotFull(spec: Spec, ds: seq<nat>, zeros: nat, distance: nat, counter: nat)
    requires zeros > 0 && (distance == 0 || distance >= counter + zeros)
    requires counter == if GroupIsFull(|ds|, distance) then distance else CounterAt(|ds|, distance)
    ensures !GroupIsFull(|ds|, distance)
  {
  }

  // ----- the whole number

  lemma WrittenIsExtended(spec: Spec, value: int)
    requires spec.Valid()
    ensures var ds := spec.Digits(value); var z := spec.LeadingZeroCount(value); var d := spec.separator.distance;
      && Extended(ds, z, z, d) == spec.WrittenNumber(value)
      && |spec.Bytes(Grouped(ds, d))| <= |spec.Bytes(spec.WrittenNumber(value))|
  {
    hide Grouped, Spec.Bytes;
    var ds, z, d := spec.Digits(value), spec.LeadingZeroCount(value), spec.separator.distance;
    FirstZero(ds, z, d);
    ExtendedGrows(spec, ds, 0, z, d);
    assert z == 0 ==> Zeros(0) + ds == ds;
    assert Extended(ds, z, z, d) == spec.WrittenNumber(value);
  }

  /** write_integer_with_separators_rtl */
  method WriteNumber(out: array<u8>, lo: nat, hi: nat, value: int, spec: Spec) returns (rest: nat)
    requires spec.Valid() && Abs(value) < U64_LIMIT
    requires lo + |spec.Bytes(spec.WrittenNumber(value))| <= hi <= out.Length
    modifies out
    ensures rest == hi - |spec.Bytes(spec.WrittenNumber(value))|
    ensures out[..lo] == old(out[..lo]) && out[rest..] == spec.Bytes(spec.WrittenNumber(value)) + old(out[hi..])
  {
    hide Spec.Bytes, Grouped, CounterAt, Extended, Spec.WrittenNumber, Gap;
    WrittenIsExtended(spec, value);
    ghost var ds, tail := spec.Digits(value), out[hi..];
    var minor, written;
    rest, minor, written := WriteDigits(out, lo, hi, Abs(value), spec);
    var zeros := if spec.minimumDigits <= written then 0 else spec.minimumDigits - written;
    rest := WriteLeadingZeros(out, lo, rest, zeros, spec, minor, ds, tail);
  }

  /** How many bytes the writer falls short of the computed length. */
  ghost function Shortfall(spec: Spec, value: int): int
    requires spec.Valid()
  {
    if spec.LosesCount(value) then
      var d := spec.separator.distance;
      SeparatorBytes(spec, |spec.AllDigits(value)|, d) - SeparatorBytes(spec, |spec.Digits(value)|, d)
    else 0
  }

  /** The writer writes what was computed, unless it loses count of a separator that is not empty. */
  lemma WhatIsWritten(spec: Spec, value: int)
    requires spec.Valid()
    ensures |spec.Bytes(spec.NumberMarks(value))| == |spec.Bytes(spec.WrittenNumber(value))| + Shortfall(spec, value)
    ensures Shortfall(spec, value) >= 0
    ensures Shortfall(spec, value) == 0 <==> !spec.LosesCount(value) || spec.separator.minor == []
    ensures Shortfall(spec, value) == 0 ==> spec.Bytes(spec.WrittenNumber(value)) == spec.Bytes(spec.NumberMarks(value))
  {
    if spec.LosesCount(value) {
      hide Grouped, Spec.Bytes, IsMultiple, SeparatorBytes, DigitsOf, Ungrouped;
      var ds, z, d := spec.Digits(value), spec.LeadingZeroCount(value), spec.separator.distance;
      LostLength(spec, ds, z, d);
      MoreSeparatorBytes(spec, |ds|, z, d);
    }
  }

  /** How long grouped digits are behind zeros without separators, and how long all of them are with separators. */
  lemma LostLength(spec: Spec, ds: seq<nat>, z: nat, d: nat)
    ensures |spec.Bytes(Grouped(Zeros(z) + ds, d))| == |spec.Bytes(Repeat(Digit(0), z) + Grouped(ds, d))|
        + SeparatorBytes(spec, |Zeros(z) + ds|, d) - SeparatorBytes(spec, |ds|, d)
    ensures spec.separator.minor == [] ==>
        spec.Bytes(Repeat(Digit(0), z) + Grouped(ds, d)) == spec.Bytes(Grouped(Zeros(z) + ds, d))
  {
    hide Grouped, Spec.Bytes, IsMultiple, SeparatorBytes, Ungrouped;
    BytesSum(spec, Repeat(Digit(0), z), Grouped(ds, d));
    BytesOfGrouped(spec, ds, d);
    BytesOfGrouped(spec, Zeros(z) + ds, d);
    BytesOfZeroMarks(spec, z, ds);
  }

  /** The counter is lost where fewer digits than asked for, but some, fill up their last group. */
  lemma LosingCount(spec: Spec, value: int)
    requires spec.Valid()
    ensures var n, d := |DigitsOf(Abs(value), spec.digit.base)|, spec.separator.distance;
      spec.LosesCount(value) <==> 0 < n < spec.minimumDigits && d > 0 && n % d == 0
  {
  }

  lemma BytesOfZeroMarks(spec: Spec, z: nat, ds: seq<nat>)
    ensures spec.Bytes(Ungrouped(Zeros(z) + ds)) == spec.Bytes(Repeat(Digit(0), z)) + spec.Bytes(Ungrouped(ds))
  {
    assert Ungrouped(Zeros(z) + ds) == Repeat(Digit(0), z) + Ungrouped(ds);
    BytesSum(spec, Repeat(Digit(0), z), Ungrouped(ds));
  }

  lemma MoreSeparatorBytes(spec: Spec, n: nat, z: nat, distance: nat)
    requires z > 0 && n > 0 && IsMultiple(n, distance)
    ensures SeparatorBytes(spec, n + z, distance) >= SeparatorBytes(spec, n, distance) + |spec.separator.minor|
    ensures spec.separator.minor == [] ==> SeparatorBytes(spec, n + z, distance) == SeparatorBytes(spec, n, distance) == 0
  {
    MoreSeparators(n, z, distance);
    var k, g, m := SeparatorCount(n + z, distance), SeparatorCount(n, distance), |spec.separator.minor|;
    MulMonotone(g + 1, k, m, m);
    assert (g + 1) * m == g * m + m;
  }

  /** Where the digits fill up their last group, another digit brings another separator. */
  lemma {:induction false} MoreSeparators(n: nat, z: nat, distance: nat)
    requires z > 0 && n > 0 && IsMultiple(n, distance)
    ensures SeparatorCount(n + z, distance) > SeparatorCount(n, distance)
  {
    OneMoreSeparator(n + (z - 1), distance);
    if z > 1 {
      MoreSeparators(n, z - 1, distance);
    }
  }

  /** A run of padding repeats the bytes of the padding unit. */
  lemma {:induction false} PadBytes(spec: Spec, n: nat)
    ensures var p, bytes := spec.padding.padding, spec.Bytes(Repeat(Pad, n));
      && |bytes| == n * |p|
      && forall j | 0 <= j < |bytes| :: |p| > 0 && bytes[j] == p[j % |p|]
  {
    hide Spec.Bytes;
    NoRun(spec, Pad);
    if n > 0 {
      var p, rest := spec.padding.padding, spec.Bytes(Repeat(Pad, n - 1));
      BytesOfRun(spec, Pad, n - 1);
      PadBytes(spec, n - 1);
      assert n * |p| == (n - 1) * |p| + |p|;
      forall j | 0 <= j < |p| + |rest| ensures |p| > 0 && (p + rest)[j] == p[j % |p|] {
        if j >= |p| {
          var i := j - |p|;
          DivideAndMultiply(i, |p|);
          assert (i / |p| + 1) * |p| == i / |p| * |p| + |p|;
          DivisionIsUnique(j, i / |p| + 1, i % |p|, |p|);
        } else {
          DivisionIsUnique(j, 0, j, |p|);
        }
      }
    }
  }

  /**
   * Sign and number stand behind padding on the left, in front of padding on the right, or between both, with at most
   * one padding unit more on the side that is named.
   */
  lemma TextIsLaidOut(spec: Spec, value: int)
    requires spec.Valid()
    ensures var units := |spec.SignMarks(value) + spec.NumberMarks(value)|;
      exists left: nat, right: nat ::
        && spec.Bytes(spec.Marks(value)) ==
            spec.Bytes(Repeat(Pad, left)) + spec.Bytes(spec.SignMarks(value) + spec.NumberMarks(value))
            + spec.Bytes(Repeat(Pad, right))
        && left + right == (if units < spec.padding.max then spec.padding.max - units else 0)
        && match spec.padding.direction
           case PaddingLeft => right == 0
           case PaddingRight => left == 0
           case PaddingBothL => right <= left <= right + 1
           case PaddingBothR => left <= right <= left + 1
    ensures var text, whole := spec.Bytes(spec.SignMarks(value) + spec.NumberMarks(value)), spec.Bytes(spec.Marks(value));
      && (spec.padding.direction == PaddingLeft ==> |text| <= |whole| && whole[|whole| - |text|..] == text)
      && (spec.padding.direction == PaddingRight ==> text <= whole)
    // the sign stands directly in front of the number
    ensures spec.Bytes(spec.SignMarks(value) + spec.NumberMarks(value)) ==
        (if value < 0 then spec.sign.minus else if spec.alwaysSign then spec.sign.plus else [])
        + spec.Bytes(spec.NumberMarks(value))
  {
    hide Spec.Bytes, Grouped, DigitsOf, Spec.NumberMarks, Spec.SignMarks, Spec.Image, LeftPads;
    var n := spec.PadCount(value);
    var left := LeftPads(spec.padding.direction, n);
    var right: nat := n - left;
    var middle := spec.SignMarks(value) + spec.NumberMarks(value);
    BytesSum(spec, Repeat(Pad, left) + middle, Repeat(Pad, right));
    BytesSum(spec, Repeat(Pad, left), middle);
    NoRun(spec, Pad);
    BytesSum(spec, spec.SignMarks(value), spec.NumberMarks(value));
    BytesOfSign(spec, value);
  }

  // ----- formatting

  datatype FormatResult = Formatted | InsufficientBuffer

  /** write_sign_ltr */
  method WriteSign(out: array<u8>, lo: nat, hi: nat, value: int, spec: Spec) returns (rest: nat)
    requires lo + |spec.Bytes(spec.SignMarks(value))| <= hi <= out.Length
    modifies out
    ensures rest == lo + |spec.Bytes(spec.SignMarks(value))|
    ensures out[..rest] == old(out[..lo]) + spec.Bytes(spec.SignMarks(value)) && out[hi..] == old(out[hi..])
  {
    BytesOfSign(spec, value);
    rest := lo;
    if value < 0 {
      rest := WriteLeft(out, lo, hi, spec.sign.minus);
    } else if spec.alwaysSign {
      rest := WriteLeft(out, lo, hi, spec.sign.plus);
    }
    assert out[hi..] == out[rest..][hi - rest..] && old(out[hi..]) == old(out[rest..])[hi - rest..];
  }

  /**
   * format8_integer. A buffer of any other length than the computed one is refused and left alone. One of that
   * length is filled with the text of the value, from both ends; `remaining` counts the bytes in between that were
   * not written, and the assertion at the end of the function is that there are none.
   */
  method FormatInteger(value: int, output: array<u8>, spec: Spec) returns (res: FormatResult, remaining: nat)
    requires -0x8000_0000_0000_0000 < value < 0x8000_0000_0000_0000 && spec.Fits(value)
    modifies output
    ensures res == InsufficientBuffer <==> output.Length != |spec.Bytes(spec.Marks(value))|
    ensures res == InsufficientBuffer ==> output[..] == old(output[..])
    ensures res == Formatted ==> remaining == Shortfall(spec, value)
    ensures var n, d := |DigitsOf(Abs(value), spec.digit.base)|, spec.separator.distance;
      res == Formatted ==>
        (remaining == 0 <==> !(0 < n < spec.minimumDigits && d > 0 && n % d == 0) || spec.separator.minor == [])
    ensures res == Formatted && remaining == 0 ==> output[..] == spec.Bytes(spec.Marks(value))
    ensures res == Formatted && remaining == 0 ==>
        var text := spec.Bytes(spec.SignMarks(value) + spec.NumberMarks(value));
        && |text| <= output.Length
        && (spec.padding.direction == PaddingLeft ==> output[output.Length - |text|..] == text)
        && (spec.padding.direction == PaddingRight ==> output[..|text|] == text)
    ensures res == Formatted ==> FilledAround(spec, value, output[..])
  {
    hide Spec.Bytes, Grouped, DigitsOf, Spec.WrittenNumber, Spec.NumberMarks, Spec.Marks, Shortfall;
    hide Spec.LosesCount, Spec.PadCount, Spec.SignMarks, LeftPads;
    remaining := 0;
    var bytes, units := ComputeIntegerRequirements(spec, value);
    var pads := if units < spec.padding.max then spec.padding.max - units else 0;
    MarksLength(spec, value);
    PadCountIs(spec, value);
    bytes := Wrap32(bytes + |spec.padding.padding| * pads);
    if bytes != output.Length {
      return InsufficientBuffer, 0;
    }
    WhatIsWritten(spec, value);
    LosingCount(spec, value);
    remaining := Fill(value, output, spec, pads);
    res := Formatted;
    if Shortfall(spec, value) == 0 {
      FullIsWhole(spec, value, output[..]);
      TextIsLaidOut(spec, value);
    }
  }

  /** The part of format8_integer that writes into a buffer of the right length. */
  method Fill(value: int, output: array<u8>, spec: Spec, pads: nat) returns (remaining: nat)
    requires spec.Valid() && Abs(value) < U64_LIMIT && pads == spec.PadCount(value)
    requires output.Length == |spec.Bytes(spec.Marks(value))|
    modifies output
    ensures remaining == Shortfall(spec, value) && FilledAround(spec, value, output[..])
  {
    hide Spec.Bytes, Grouped, DigitsOf, Spec.WrittenNumber, Spec.NumberMarks, Spec.Marks, Shortfall;
    hide Spec.LosesCount, Spec.PadCount, Spec.SignMarks, LeftPads, FilledAround;
    WhatIsWritten(spec, value);
    PartsOf(spec, value);
    var lo, hi := 0, output.Length;
    if pads > 0 {
      lo, hi := PadOutput(output, lo, hi, spec, pads);
    }
    lo := WriteSign(output, lo, hi, value, spec);
    hi := WriteNumber(output, lo, hi, value, spec);
    remaining := hi - lo;
    assert output[..][..lo] == output[..lo] && output[..][hi..] == output[hi..];
    FilledFromBothEnds(spec, value, output[..], lo, hi);
  }

  lemma FilledFromBothEnds(spec: Spec, value: int, text: seq<u8>, lo: nat, hi: nat)
    requires spec.Valid() && lo <= hi <= |text|
    requires var n := spec.PadCount(value); var l := LeftPads(spec.padding.direction, n);
      && text[..lo] == spec.Bytes(Repeat(Pad, l)) + spec.Bytes(spec.SignMarks(value))
      && text[hi..] == spec.Bytes(spec.WrittenNumber(value)) + spec.Bytes(Repeat(Pad, n - l))
    ensures FilledAround(spec, value, text)
  {
    hide Spec.Bytes, Spec.WrittenNumber, Spec.PadCount, Spec.SignMarks, LeftPads;
    assert |text| - |text[hi..]| == hi;
  }

  /** Where nothing is left unwritten, the buffer holds the whole text. */
  lemma FullIsWhole(spec: Spec, value: int, text: seq<u8>)
    requires spec.Valid() && FilledAround(spec, value, text) && Shortfall(spec, value) == 0
    requires |text| == |spec.Bytes(spec.Marks(value))|
    ensures text == spec.Bytes(spec.Marks(value))
  {
    hide Spec.Bytes, Spec.WrittenNumber, Spec.NumberMarks, Spec.Marks, Shortfall;
    hide Spec.LosesCount, Spec.PadCount, Spec.SignMarks, LeftPads;
    WhatIsWritten(spec, value);
    PartsOf(spec, value);
    var n := spec.PadCount(value);
    var l := LeftPads(spec.padding.direction, n);
    var left := spec.Bytes(Repeat(Pad, l)) + spec.Bytes(spec.SignMarks(value));
    assert text == text[..|left|] + text[|left|..];
  }

  /** The text before and behind the bytes that were not written. */
  ghost predicate FilledAround(spec: Spec, value: int, text: seq<u8>)
    requires spec.Valid()
  {
    var n := spec.PadCount(value);
    var l := LeftPads(spec.padding.direction, n);
    && spec.Bytes(Repeat(Pad, l)) + spec.Bytes(spec.SignMarks(value)) <= text
    && var right := spec.Bytes(spec.WrittenNumber(value)) + spec.Bytes(Repeat(Pad, n - l));
      |right| <= |text| && text[|text| - |right|..] == right
  }

  lemma PadCountIs(spec: Spec, value: int)
    requires spec.Valid()
    ensures spec.PadCount(value) == Missing(|spec.SignMarks(value) + spec.NumberMarks(value)|, spec.padding.max)
  {
  }

  /** The text is put together from padding, sign and number. */
  lemma PartsOf(spec: Spec, value: int)
    requires spec.Valid()
    ensures var n := spec.PadCount(value); var l := LeftPads(spec.padding.direction, n);
      spec.Bytes(spec.Marks(value)) ==
        spec.Bytes(Repeat(Pad, l)) + spec.Bytes(spec.SignMarks(value))
        + (spec.Bytes(spec.NumberMarks(value)) + spec.Bytes(Repeat(Pad, n - l)))
    ensures spec.PadCount(value) == 0 ==> spec.Bytes(Repeat(Pad, 0)) == []
  {
    hide Spec.Bytes, Grouped, DigitsOf, Spec.NumberMarks, Spec.SignMarks, LeftPads, Spec.PadCount;
    var n := spec.PadCount(value);
    var l := LeftPads(spec.padding.direction, n);
    var sign, number := spec.SignMarks(value), spec.NumberMarks(value);
    BytesSum(spec, Repeat(Pad, l) + (sign + number), Repeat(Pad, n - l));
    BytesSum(spec, Repeat(Pad, l), sign + number);
    BytesSum(spec, sign, number);
    NoRun(spec, Pad);
    var p, q, s, k := spec.Bytes(Repeat(Pad, l)), spec.Bytes(Repeat(Pad, n - l)), spec.Bytes(sign), spec.Bytes(number);
    assert p + (s + k) + q == p + s + (k + q);
  }
}
