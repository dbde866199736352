/** What the text of an integer says: the value can be read back from its units, and from its bytes. */
module IntegerReading {
  import opened Arithmetic
  import opened MachineIntegers
  import opened Numerals
  import opened IntegerFormat
  import opened IntegerWriter

  /**
   * The digit units spell the absolute value, at least as many of them as asked for, and the sign unit is there
   * when it should be. Separators stand where they should, and padding fills the text up to the size asked for.
   */
  lemma TextSpellsTheValue(spec: Spec, value: int)
    requires spec.Valid()
    ensures Evaluate(DigitsIn(spec.Marks(value)), spec.digit.base) == Abs(value)
    ensures |DigitsIn(spec.Marks(value))| ==
        if |spec.Digits(value)| < spec.minimumDigits then spec.minimumDigits else |spec.Digits(value)|
    ensures forall d | d in DigitsIn(spec.Marks(value)) :: d < spec.digit.base
    ensures Minus in spec.Marks(value) <==> value < 0
    ensures Plus in spec.Marks(value) <==> value >= 0 && spec.alwaysSign
    ensures WellGrouped(spec.NumberMarks(value), spec.separator.distance)
    ensures var units := |spec.SignMarks(value) + spec.NumberMarks(value)|;
      |spec.Marks(value)| == if units < spec.padding.max then spec.padding.max else units
  {
    hide DigitsOf, Evaluate, DigitsIn, Grouped, WellGrouped;
    var ds, n := spec.AllDigits(value), spec.PadCount(value);
    var l := LeftPads(spec.padding.direction, n);
    var sign, number := spec.SignMarks(value), spec.NumberMarks(value);
    DigitsInSum(Repeat(Pad, l) + (sign + number), Repeat(Pad, n - l));
    DigitsInSum(Repeat(Pad, l), sign + number);
    DigitsInSum(sign, number);
    NoDigitsIn(Pad, l);
    NoDigitsIn(Pad, n - l);
    NoDigitsInSign(spec, value);
    GroupedKeepsDigits(ds, spec.separator.distance);
    DigitsSpellTheNumber(Abs(value), spec.digit.base);
    LeadingZeros(spec.LeadingZeroCount(value), spec.Digits(value), spec.digit.base);
    GroupedIsWellGrouped(ds, spec.separator.distance);
    assert [] + ([] + ds) + [] == ds;
    NoSignIn(number, spec.separator.distance);
    assert forall m :: m in spec.Marks(value) <==>
      m in Repeat(Pad, l) || m in sign || m in number || m in Repeat(Pad, n - l);
  }

  lemma NoDigitsInSign(spec: Spec, value: int)
    ensures DigitsIn(spec.SignMarks(value)) == []
  {
  }

  lemma NoSignIn(marks: seq<Mark>, distance: nat)
    requires WellGrouped(marks, distance)
    ensures Minus !in marks && Plus !in marks && Pad !in marks
  {
  }

  // ----- reading bytes

  /** The digit a byte stands for, below `n`, or -1. */
  function DigitValue(spec: Spec, b: u8, n: nat): int
    requires n <= |spec.digit.digits|
  {
    if n == 0 then -1
    else if spec.digit.digits[n - 1] == [b] then n - 1
    else DigitValue(spec, b, n - 1)
  }

  /**
   * Digits and the minus sign are single bytes that differ from each other and occur nowhere else; separator, plus
   * sign and padding may be of any length.
   */
  ghost predicate Legible(spec: Spec) {
    && spec.Valid()
    && (forall d | 0 <= d < spec.digit.base ::
          |spec.digit.digits[d]| == 1 && DigitValue(spec, spec.digit.digits[d][0], spec.digit.base) == d)
    && |spec.sign.minus| == 1 && DigitValue(spec, spec.sign.minus[0], spec.digit.base) == -1
    && (forall b | b in spec.separator.minor + spec.sign.plus + spec.padding.padding :: IsOther(spec, b))
  }

  /** Neither a digit nor the minus sign. */
  ghost predicate IsOther(spec: Spec, b: u8)
    requires spec.Valid()
  {
    DigitValue(spec, b, spec.digit.base) == -1 && [b] != spec.sign.minus
  }

  /** The digits among the bytes of a text. */
  function ReadDigits(spec: Spec, text: seq<u8>): seq<nat>
    requires spec.Valid()
  {
    if text == [] then []
    else
      var d := DigitValue(spec, text[0], spec.digit.base);
      (if d >= 0 then [d] else []) + ReadDigits(spec, text[1..])
  }

  /** The number a text stands for. */
  ghost function ReadInteger(spec: Spec, text: seq<u8>): int
    requires spec.Valid()
  {
    var v: int := Evaluate(ReadDigits(spec, text), spec.digit.base);
    if exists b :: b in text && [b] == spec.sign.minus then -v else v
  }

  lemma {:induction false} ReadDigitsSum(spec: Spec, a: seq<u8>, b: seq<u8>)
    requires spec.Valid()
    ensures ReadDigits(spec, a + b) == ReadDigits(spec, a) + ReadDigits(spec, b)
  {
    if a == [] {
      assert a + b == b;
    } else {
      var d := DigitValue(spec, a[0], spec.digit.base);
      var own: seq<nat> := if d >= 0 then [d] else [];
      assert (a + b)[0] == a[0] && (a + b)[1..] == a[1..] + b;
      ReadDigitsSum(spec, a[1..], b);
      assert own + (ReadDigits(spec, a[1..]) + ReadDigits(spec, b)) == own + ReadDigits(spec, a[1..]) + ReadDigits(spec, b);
    }
  }

  lemma {:induction false} OthersHaveNoDigits(spec: Spec, text: seq<u8>)
    requires spec.Valid() && forall b | b in text :: DigitValue(spec, b, spec.digit.base) == -1
    ensures ReadDigits(spec, text) == []
  {
    if text != [] {
      OthersHaveNoDigits(spec, text[1..]);
    }
  }

  /** The bytes of one unit. */
  lemma ReadImage(spec: Spec, m: Mark)
    requires Legible(spec) && (m.Digit? ==> m.d < spec.digit.base)
    ensures ReadDigits(spec, spec.Image(m)) == if m.Digit? then [m.d] else []
    ensures (exists b :: b in spec.Image(m) && [b] == spec.sign.minus) <==> m == Minus
  {
    match m {
      case Digit(d) =>
        var image := spec.digit.digits[d];
        assert image == [image[0]] && image[1..] == [];
      case Minus =>
        var b := spec.sign.minus[0];
        assert spec.sign.minus == [b] && b in spec.sign.minus;
        OthersHaveNoDigits(spec, spec.sign.minus);
      case _ =>
        assert forall b | b in spec.Image(m) :: IsOther(spec, b);
        OthersHaveNoDigits(spec, spec.Image(m));
    }
  }

  /** Reading the bytes of a text finds the same digits and the same sign as reading its units. */
  lemma {:induction false} ReadBytes(spec: Spec, marks: seq<Mark>)
    requires Legible(spec) && forall i | 0 <= i < |marks| :: marks[i].Digit? ==> marks[i].d < spec.digit.base
    ensures ReadDigits(spec, spec.Bytes(marks)) == DigitsIn(marks)
    ensures (exists b :: b in spec.Bytes(marks) && [b] == spec.sign.minus) <==> Minus in marks
  {
    if marks != [] {
      hide Legible;
      LegibleIsValid(spec);
      ReadImage(spec, marks[0]);
      ReadBytes(spec, marks[1..]);
      ReadDigitsSum(spec, spec.Image(marks[0]), spec.Bytes(marks[1..]));
      assert marks == [marks[0]] + marks[1..];
      assert Minus in marks <==> marks[0] == Minus || Minus in marks[1..];
    }
  }

  lemma LegibleIsValid(spec: Spec)
    requires Legible(spec)
    ensures spec.Valid()
  {
  }

  /** No digit of a text is as large as the base. */
  lemma {:induction false} DigitsAreBelow(marks: seq<Mark>, base: nat)
    requires forall d | d in DigitsIn(marks) :: d < base
    ensures forall i | 0 <= i < |marks| :: marks[i].Digit? ==> marks[i].d < base
  {
    if marks != [] {
      assert forall d | d in DigitsIn(marks[1..]) :: d in DigitsIn(marks);
      assert marks[0].Digit? ==> marks[0].d == DigitsIn(marks)[0] && marks[0].d in DigitsIn(marks);
      DigitsAreBelow(marks[1..], base);
      forall i | 0 <= i < |marks| && marks[i].Digit? ensures marks[i].d < base {
        if i > 0 {
          assert marks[i] == marks[1..][i - 1];
        }
      }
    }
  }

  /** Reading undoes formatting. */
  lemma RoundTrip(spec: Spec, value: int)
    requires Legible(spec)
    ensures ReadInteger(spec, spec.Bytes(spec.Marks(value))) == value
  {
    hide Legible, DigitsOf, Evaluate, DigitsIn, Grouped, WellGrouped, Spec.Marks, Spec.Bytes, ReadDigits;
    LegibleIsValid(spec);
    var marks := spec.Marks(value);
    TextSpellsTheValue(spec, value);
    DigitsAreBelow(marks, spec.digit.base);
    ReadBytes(spec, marks);
  }

  /** What is read back depends on the text alone, so different values have different texts. */
  lemma TextsDiffer(spec: Spec, v: int, w: int)
    requires Legible(spec) && spec.Bytes(spec.Marks(v)) == spec.Bytes(spec.Marks(w))
    ensures v == w
  {
    RoundTrip(spec, v);
    RoundTrip(spec, w);
  }

  /** Three digits in groups of three, to be shown with four: the separator in front of them is counted, not written. */
  lemma LosingCountHappens(spec: Spec)
    requires spec.Valid() && spec.digit.base == 10 && spec.separator.distance == 3 && spec.minimumDigits == 4
    requires |spec.separator.minor| == 1
    ensures spec.LosesCount(123) && Shortfall(spec, 123) == 1
  {
    assert DigitsOf(1, 10) == [1];
    assert DigitsOf(12, 10) == [1, 2];
    assert DigitsOf(123, 10) == [1, 2, 3];
  }
}
