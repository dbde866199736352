/** src/string/format.c, the integer path: how long the text of an integer is, and writing it into a buffer. */
module IntegerFormat {
  import opened Arithmetic
  import opened MachineIntegers
  import opened Numerals

  datatype DigitSpec = DigitSpec(base: u32, digits: seq<seq<u8>>)
  datatype SignSpec = SignSpec(plus: seq<u8>, minus: seq<u8>)
  datatype SeparatorSpec = SeparatorSpec(minor: seq<u8>, distance: u32)
  datatype Direction = PaddingLeft | PaddingRight | PaddingBothL | PaddingBothR
  datatype PaddingSpec = PaddingSpec(padding: seq<u8>, max: u32, direction: Direction)

  datatype Spec = Spec(digit: DigitSpec, sign: SignSpec, separator: SeparatorSpec, padding: PaddingSpec,
                       minimumDigits: u32, alwaysSign: bool)
  {
    predicate Valid() {
      digit.base >= 2 && |digit.digits| >= digit.base
    }

    function Image(m: Mark): seq<u8> {
      match m
      case Digit(d) => if d < |digit.digits| then digit.digits[d] else []
      case Separator => separator.minor
      case Plus => sign.plus
      case Minus => sign.minus
      case Pad => padding.padding
    }

    /** The bytes of a text. */
    function Bytes(marks: seq<Mark>): seq<u8> {
      if marks == [] then [] else Image(marks[0]) + Bytes(marks[1..])
    }

    // ----- the text of a value

    function Digits(value: int): seq<nat>
      requires Valid()
    {
      DigitsOf(Abs(value), digit.base)
    }

    function LeadingZeroCount(value: int): nat
      requires Valid()
    {
      Missing(|Digits(value)|, minimumDigits)
    }

    function AllDigits(value: int): seq<nat>
      requires Valid()
    {
      Zeros(LeadingZeroCount(value)) + Digits(value)
    }

    function SignMarks(value: int): seq<Mark> {
      if value < 0 then [Minus] else if alwaysSign then [Plus] else []
    }

    function NumberMarks(value: int): seq<Mark>
      requires Valid()
    {
      Grouped(AllDigits(value), separator.distance)
    }

    function PadCount(value: int): nat
      requires Valid()
    {
      Missing(|SignMarks(value) + NumberMarks(value)|, padding.max)
    }

    function Marks(value: int): seq<Mark>
      requires Valid()
    {
      var n := PadCount(value);
      Repeat(Pad, LeftPads(padding.direction, n)) + (SignMarks(value) + NumberMarks(value))
      + Repeat(Pad, n - LeftPads(padding.direction, n))
    }

    // ----- what the writer does with it

    /**
     * The separator counter of the writer has passed the distance before the first leading zero, so that no
     * separators follow.
     */
    predicate LosesCount(value: int)
      requires Valid()
    {
      LeadingZeroCount(value) > 0 && |Digits(value)| > 0 && IsMultiple(|Digits(value)|, separator.distance)
    }

    function WrittenNumber(value: int): seq<Mark>
      requires Valid()
    {
      if LosesCount(value) then
        Repeat(Digit(0), LeadingZeroCount(value)) + Grouped(Digits(value), separator.distance)
      else
        NumberMarks(value)
    }

    /** The sizes that are computed with 32-bit integers fit: those of sign and number, and of the whole text. */
    ghost predicate NumberFits(value: int) {
      && Valid()
      && |Bytes(SignMarks(value) + NumberMarks(value))| < U32_LIMIT
      && |SignMarks(value) + NumberMarks(value)| < U32_LIMIT
      && |Bytes(Marks(value))| < U64_LIMIT
    }

    ghost predicate Fits(value: int) {
      NumberFits(value) && |Bytes(Marks(value))| < U32_LIMIT
    }
  }

  function Abs(v: int): nat { if v < 0 then -v else v }

  function Missing(have: nat, want: nat): nat { if have < want then want - have else 0 }

  /** How many of `n` padding units go to the left; the odd one out goes to the side that is named. */
  function LeftPads(direction: Direction, n: nat): (k: nat)
    ensures k <= n
    ensures direction == PaddingLeft ==> n - k == 0
    ensures direction == PaddingRight ==> k == 0
    ensures direction == PaddingBothL ==> k == n - k || k == (n - k) + 1
    ensures direction == PaddingBothR ==> n - k == k || n - k == k + 1
  {
    match direction
    case PaddingLeft => n
    case PaddingRight => 0
    case PaddingBothL => n - n / 2
    case PaddingBothR => n / 2
  }

  // ----- facts about texts

  lemma {:induction false} BytesSum(spec: Spec, a: seq<Mark>, b: seq<Mark>)
    ensures spec.Bytes(a + b) == spec.Bytes(a) + spec.Bytes(b)
  {
    if a == [] {
      assert a + b == b;
    } else {
      assert (a + b)[0] == a[0] && (a + b)[1..] == a[1..] + b;
      BytesSum(spec, a[1..], b);
      var i := spec.Image(a[0]);
      assert i + (spec.Bytes(a[1..]) + spec.Bytes(b)) == i + spec.Bytes(a[1..]) + spec.Bytes(b);
    }
  }

  lemma BytesOfOne(spec: Spec, m: Mark)
    ensures spec.Bytes([m]) == spec.Image(m)
  {
    assert [m][1..] == [];
  }

  lemma {:induction false} BytesOfRepeat(spec: Spec, m: Mark, n: nat)
    ensures |spec.Bytes(Repeat(m, n))| == n * |spec.Image(m)|
  {
    if n > 0 {
      assert Repeat(m, n)[1..] == Repeat(m, n - 1);
      BytesOfRepeat(spec, m, n - 1);
      assert n * |spec.Image(m)| == (n - 1) * |spec.Image(m)| + |spec.Image(m)|;
    }
  }

  /** One digit more on the left of grouped digits. */
  lemma BytesOfGroupedStep(spec: Spec, ds: seq<nat>, distance: nat)
    requires ds != []
    ensures spec.Bytes(Grouped(ds, distance)) == spec.Image(Digit(ds[0])) +
        (spec.Bytes(Gap(|ds| - 1, distance)) + spec.Bytes(Grouped(ds[1..], distance)))
    ensures spec.Bytes(Ungrouped(ds)) == spec.Image(Digit(ds[0])) + spec.Bytes(Ungrouped(ds[1..]))
    ensures spec.separator.minor == [] ==> spec.Bytes(Gap(|ds| - 1, distance)) == []
  {
    hide IsMultiple;
    var gap, more := Gap(|ds| - 1, distance), Grouped(ds[1..], distance);
    assert [Digit(ds[0])] + gap + more == [Digit(ds[0])] + (gap + more);
    BytesSum(spec, [Digit(ds[0])], gap + more);
    BytesSum(spec, gap, more);
    BytesOfOne(spec, Digit(ds[0]));
    BytesOfOne(spec, Separator);
    assert Ungrouped(ds)[1..] == Ungrouped(ds[1..]);
  }

  /** The bytes of the separators between `n` digits. */
  function SeparatorBytes(spec: Spec, n: nat, distance: nat): nat {
    SeparatorCount(n, distance) * |spec.separator.minor|
  }

  lemma SeparatorBytesGrow(spec: Spec, n: nat, distance: nat)
    ensures SeparatorBytes(spec, n + 1, distance) == SeparatorBytes(spec, n, distance) + |spec.Bytes(Gap(n, distance))|
  {
    OneMoreSeparator(n, distance);
    BytesOfOne(spec, Separator);
    var k, g, m := SeparatorCount(n, distance), |Gap(n, distance)|, |spec.separator.minor|;
    assert (k + g) * m == k * m + g * m;
  }

  lemma BytesOfNone(spec: Spec, distance: nat)
    ensures spec.Bytes(Grouped([], distance)) == [] == spec.Bytes(Ungrouped([]))
    ensures SeparatorBytes(spec, 0, distance) == 0
  {
  }

  /** The length of grouped digits: that of the digits, and of the separators between them. */
  lemma {:induction false} BytesOfGrouped(spec: Spec, ds: seq<nat>, distance: nat)
    ensures |spec.Bytes(Grouped(ds, distance))| ==
        |spec.Bytes(Ungrouped(ds))| + SeparatorBytes(spec, |ds|, distance)
    ensures spec.separator.minor == [] ==> spec.Bytes(Grouped(ds, distance)) == spec.Bytes(Ungrouped(ds))
  {
    hide Grouped, Gap, Ungrouped, Spec.Bytes, Spec.Image, SeparatorBytes;
    if ds == [] {
      BytesOfNone(spec, distance);
    } else {
      BytesOfGrouped(spec, ds[1..], distance);
      BytesOfGroupedStep(spec, ds, distance);
      SeparatorBytesGrow(spec, |ds| - 1, distance);
      assert |ds[1..]| == |ds| - 1;
    }
  }

  /** Zeros in front of digits. */
  lemma BytesOfZeros(spec: Spec, n: nat, ds: seq<nat>)
    requires spec.Valid()
    ensures |spec.Bytes(Ungrouped(Zeros(n) + ds))| == |spec.digit.digits[0]| * n + |spec.Bytes(Ungrouped(ds))|
    ensures n == 0 ==> |spec.Bytes(Ungrouped(Zeros(n) + ds))| == |spec.Bytes(Ungrouped(ds))|
  {
    assert Ungrouped(Zeros(n) + ds) == Repeat(Digit(0), n) + Ungrouped(ds);
    BytesSum(spec, Repeat(Digit(0), n), Ungrouped(ds));
    BytesOfRepeat(spec, Digit(0), n);
    assert |spec.digit.digits[0]| * n == n * |spec.Image(Digit(0))|;
  }

  /** The digits that are extracted first are not longer than all of them. */
  lemma BytesOfSuffix(spec: Spec, front: seq<nat>, ds: seq<nat>)
    ensures |spec.Bytes(Ungrouped(front + ds))| >= |spec.Bytes(Ungrouped(ds))|
  {
    assert Ungrouped(front + ds) == Ungrouped(front) + Ungrouped(ds);
    BytesSum(spec, Ungrouped(front), Ungrouped(ds));
  }

  /** The length of sign and number, in bytes and in units, as it is computed from digits and separators. */
  lemma NumberLength(spec: Spec, value: int)
    requires spec.Valid()
    ensures var ds := spec.AllDigits(value); var d := spec.separator.distance; var sign := spec.SignMarks(value);
      && |spec.Bytes(sign + spec.NumberMarks(value))| ==
        |spec.Bytes(sign)| + |spec.Bytes(Ungrouped(ds))| + SeparatorBytes(spec, |ds|, d)
      && |sign + spec.NumberMarks(value)| == |sign| + |ds| + SeparatorCount(|ds|, d)
  {
    var ds := spec.AllDigits(value);
    BytesSum(spec, spec.SignMarks(value), spec.NumberMarks(value));
    BytesOfGrouped(spec, ds, spec.separator.distance);
    GroupedLength(ds, spec.separator.distance);
  }

  lemma BytesOfSign(spec: Spec, value: int)
    ensures spec.Bytes(spec.SignMarks(value)) ==
        if value < 0 then spec.sign.minus else if spec.alwaysSign then spec.sign.plus else []
  {
    BytesOfOne(spec, Minus);
    BytesOfOne(spec, Plus);
  }

  /** The length of the whole text. */
  lemma MarksLength(spec: Spec, value: int)
    requires spec.Valid()
    ensures |spec.Bytes(spec.Marks(value))| ==
        |spec.Bytes(spec.SignMarks(value) + spec.NumberMarks(value))| + |spec.padding.padding| * spec.PadCount(value)
  {
    hide Spec.Bytes, Spec.Image, Spec.PadCount, LeftPads, Grouped, DigitsOf, Spec.NumberMarks, Spec.SignMarks;
    var n := spec.PadCount(value);
    var l, middle := LeftPads(spec.padding.direction, n), spec.SignMarks(value) + spec.NumberMarks(value);
    BytesSum(spec, Repeat(Pad, l) + middle, Repeat(Pad, n - l));
    BytesSum(spec, Repeat(Pad, l), middle);
    BytesOfRepeat(spec, Pad, l);
    BytesOfRepeat(spec, Pad, n - l);
    PadImage(spec);
    SumTimes(l, n - l, |spec.padding.padding|);
  }

  lemma PadImage(spec: Spec)
    ensures spec.Image(Pad) == spec.padding.padding
  {
  }

  lemma SumTimes(k: nat, g: nat, m: nat)
    ensures k * m + g * m == m * (k + g)
  {
  }

  // ----- how long the text is

  /** extract_next_digit: the last digit, and what is left of the value. */
  method ExtractNextDigit(v: u64, base: u32) returns (digit: nat, rest: u64)
    requires base >= 2 && v > 0
    ensures digit < base && rest < v && DigitsOf(v, base) == DigitsOf(rest, base) + [digit]
  {
    QuotientFalls(v, base);
    digit := v % base;
    rest := v / base;
  }

  /** The loop of compute_digit_requirements. */
  method CountDigits(value: u64, spec: Spec) returns (bytes: u32, units: u32)
    requires spec.Valid()
    requires var ds := DigitsOf(value, spec.digit.base);
      |spec.Bytes(Ungrouped(ds))| < U32_LIMIT && |ds| < U32_LIMIT
    ensures var ds := DigitsOf(value, spec.digit.base); bytes == |spec.Bytes(Ungrouped(ds))| && units == |ds|
  {
    hide Spec.Bytes, DigitsOf, Ungrouped, Wrap32;
    ghost var all, ds := DigitsOf(value, spec.digit.base), [];
    BytesOfNone(spec, 0);
    bytes, units := 0, 0;
    var v := value;
    while v != 0
      invariant DigitsOf(v, spec.digit.base) + ds == all
      invariant bytes == |spec.Bytes(Ungrouped(ds))| && units == |ds|
      decreases v
    {
      var digit, rest := ExtractNextDigit(v, spec.digit.base);
      ds := OneDigitMore(spec, DigitsOf(rest, spec.digit.base), digit, ds, all);
      v := rest;
      NoWrap32(bytes + |spec.digit.digits[digit]|);
      NoWrap32(units + 1);
      bytes := Wrap32(bytes + |spec.digit.digits[digit]|);
      units := Wrap32(units + 1);
    }
    NoDigits(spec.digit.base);
    assert ds == all;
  }

  /** The digits counted after one more of them, which are never longer than all digits. */
  ghost function OneDigitMore(spec: Spec, front: seq<nat>, d: nat, ds: seq<nat>, all: seq<nat>): (r: seq<nat>)
    requires spec.Valid() && d < spec.digit.base && front + [d] + ds == all
    ensures front + r == all && |r| == |ds| + 1 <= |all|
    ensures |spec.Bytes(Ungrouped(r))| == |spec.digit.digits[d]| + |spec.Bytes(Ungrouped(ds))|
    ensures |spec.Bytes(Ungrouped(r))| <= |spec.Bytes(Ungrouped(all))|
  {
    assert front + ([d] + ds) == all && ([d] + ds)[1..] == ds;
    BytesOfGroupedStep(spec, [d] + ds, 0);
    BytesOfSuffix(spec, front, [d] + ds);
    [d] + ds
  }

  /** compute_digit_requirements */
  method ComputeDigitRequirements(value: u64, spec: Spec, minimum: u32) returns (bytes: u32, units: u32)
    requires spec.Valid()
    requires var ds := DigitsOf(value, spec.digit.base); var all := Zeros(Missing(|ds|, minimum)) + ds;
      |spec.Bytes(Ungrouped(all))| < U32_LIMIT && |all| < U32_LIMIT
    ensures var ds := DigitsOf(value, spec.digit.base); var all := Zeros(Missing(|ds|, minimum)) + ds;
      bytes == |spec.Bytes(Ungrouped(all))| && units == |all|
  {
    hide Spec.Bytes, DigitsOf, Ungrouped, Wrap32;
    ghost var ds := DigitsOf(value, spec.digit.base);
    BytesOfSuffix(spec, Zeros(Missing(|ds|, minimum)), ds);
    BytesOfZeros(spec, Missing(|ds|, minimum), ds);
    bytes, units := CountDigits(value, spec);
    if units < minimum {
      NoWrap32(bytes + |spec.digit.digits[0]| * (minimum - units));
      NoWrap32(units + (minimum - units));
      bytes := Wrap32(bytes + |spec.digit.digits[0]| * (minimum - units));
      units := Wrap32(units + (minimum - units));
    }
  }

  lemma NoDigits(base: nat)
    requires base >= 2
    ensures DigitsOf(0, base) == []
  {
  }

  /** compute_integer_requirements */
  method ComputeIntegerRequirements(spec: Spec, value: int) returns (bytes: u32, units: u32)
    requires -0x8000_0000_0000_0000 < value < 0x8000_0000_0000_0000 && spec.NumberFits(value)
    ensures bytes == |spec.Bytes(spec.SignMarks(value) + spec.NumberMarks(value))|
    ensures units == |spec.SignMarks(value) + spec.NumberMarks(value)|
  {
    hide Spec.Bytes, DigitsOf, Ungrouped, Grouped, Spec.Marks, SeparatorCount, Wrap32;
    NumberLength(spec, value);
    BytesOfSign(spec, value);
    var len, count := 0, 0;
    if value < 0 {
      len := |spec.sign.minus|;
      count := 1;
    } else if spec.alwaysSign {
      len := |spec.sign.plus|;
      count := 1;
    }
    var digitBytes, digitUnits := ComputeDigitRequirements(Abs(value), spec, spec.minimumDigits);
    len := len + digitBytes;
    count := count + digitUnits;
    var separators := SeparatorCount(digitUnits, spec.separator.distance);
    count := count + separators;
    len := len + separators * |spec.separator.minor|;
    NoWrap32(len);
    NoWrap32(count);
    bytes, units := Wrap32(len), Wrap32(count);
  }

  /** format8_integer_length */
  method IntegerLength(value: int, spec: Spec) returns (length: nat)
    requires -0x8000_0000_0000_0000 < value < 0x8000_0000_0000_0000 && spec.NumberFits(value)
    ensures length == |spec.Bytes(spec.Marks(value))|
  {
    hide Spec.Bytes, DigitsOf, Ungrouped, Grouped, Spec.Marks;
    MarksLength(spec, value);
    var bytes, units := ComputeIntegerRequirements(spec, value);
    if units < spec.padding.max {
      var pads := spec.padding.max - units;
      return bytes + |spec.padding.padding| * pads;
    }
    return bytes;
  }
}
