/** One bit for every block: bytes of states, and where counters and blocks lie. */
module BlockBits {
  import opened Arithmetic
  import opened MachineIntegers
  import opened AllocatorInternals

  function Mask(j: nat): bv8
    requires j < 8
  {
    match j
    case 0 => 1
    case 1 => 2
    case 2 => 4
    case 3 => 8
    case 4 => 16
    case 5 => 32
    case 6 => 64
    case 7 => 128
  }

  /** The mask of a bit is that power of two. */
  lemma MaskIsPower(j: nat)
    requires j < 8
    ensures Mask(j) as int == if j == 0 then 1 else 2 * Mask(j - 1) as int
  {
  }

  predicate IsSet(b: bv8, j: nat)
    requires j < 8
  {
    b & Mask(j) != 0
  }

  /** stdc_first_trailing_zero_uc, counted from zero: the lowest bit that is not set. */
  function LowestClear(b: bv8): (j: nat)
    ensures b != 255 ==> j < 8 && !IsSet(b, j)
    ensures forall k | 0 <= k < j && k < 8 :: IsSet(b, k)
    ensures b == 255 ==> j == 8
  {
    if b & 1 == 0 then 0
    else if b & 2 == 0 then 1
    else if b & 4 == 0 then 2
    else if b & 8 == 0 then 3
    else if b & 16 == 0 then 4
    else if b & 32 == 0 then 5
    else if b & 64 == 0 then 6
    else if b & 128 == 0 then 7
    else
      AllSet(b);
      8
  }

  lemma AllSet(b: bv8)
    requires b & 1 != 0 && b & 2 != 0 && b & 4 != 0 && b & 8 != 0
    requires b & 16 != 0 && b & 32 != 0 && b & 64 != 0 && b & 128 != 0
    ensures b == 255
  {
  }

  /** Setting or clearing a bit leaves the other bits of its byte alone. */
  lemma BitsAreIndependent(b: bv8, j: nat, k: nat)
    requires j < 8 && k < 8
    ensures IsSet(b | Mask(j), k) <==> j == k || IsSet(b, k)
    ensures IsSet(b & !Mask(j), k) <==> j != k && IsSet(b, k)
  {
  }

  lemma NoBitIsSet(j: nat)
    requires j < 8
    ensures !IsSet(0, j)
  {
  }

  // ----- the states of all blocks

  ghost predicate Bit(mem: seq<bv8>, i: nat) {
    i / 8 < |mem| && IsSet(mem[i / 8], i % 8)
  }

  /** The first `bytes` bytes hold the states of `count` blocks; the bits behind them are clear. */
  ghost predicate Records(mem: seq<bv8>, bytes: nat, count: nat, used: set<nat>) {
    && bytes <= |mem| && count <= 8 * bytes
    && (forall i | 0 <= i < 8 * bytes :: Bit(mem, i) <==> i in used)
    && (forall i | i in used :: i < count)
  }

  lemma RecordsSay(mem: seq<bv8>, bytes: nat, count: nat, used: set<nat>, i: nat)
    requires Records(mem, bytes, count, used) && i < count
    ensures i / 8 < bytes <= |mem| && (IsSet(mem[i / 8], i % 8) <==> i in used)
  {
    assert Bit(mem, i) <==> i in used;
  }

  /** One bit of a byte has the value `v`, the others are what they were. */
  ghost predicate OneBitIs(b: bv8, b': bv8, j: nat, v: bool)
    requires j < 8
  {
    forall k | 0 <= k < 8 :: IsSet(b', k) <==> if k == j then v else IsSet(b, k)
  }

  lemma SettingSets(b: bv8, j: nat)
    requires j < 8
    ensures OneBitIs(b, b | Mask(j), j, true) && OneBitIs(b, b & !Mask(j), j, false)
  {
    forall k | 0 <= k < 8
      ensures IsSet(b | Mask(j), k) <==> j == k || IsSet(b, k)
      ensures IsSet(b & !Mask(j), k) <==> j != k && IsSet(b, k)
    {
      BitsAreIndependent(b, j, k);
    }
  }

  /** A new state in place of an old one. */
  lemma StateIsRecorded(mem: seq<bv8>, bytes: nat, count: nat, used: set<nat>, i: nat, b: bv8, v: bool)
    requires Records(mem, bytes, count, used) && i < count
    requires i / 8 < |mem| && OneBitIs(mem[i / 8], b, i % 8, v)
    ensures i / 8 < bytes
    ensures Records(mem[i / 8 := b], bytes, count, if v then used + {i} else used - {i})
  {
    hide IsSet, Mask;
    var mem', used' := mem[i / 8 := b], if v then used + {i} else used - {i};
    forall k | 0 <= k < 8 * bytes ensures Bit(mem', k) <==> k in used' {
      assert Bit(mem, k) <==> k in used;
      assert k / 8 == i / 8 && k % 8 == i % 8 <==> k == i;
    }
  }

  /** Memory behind the states does not matter to them. */
  lemma OtherMemory(mem: seq<bv8>, mem': seq<bv8>, bytes: nat, count: nat, used: set<nat>)
    requires Records(mem, bytes, count, used) && |mem'| == |mem| && mem'[..bytes] == mem[..bytes]
    ensures Records(mem', bytes, count, used)
  {
    forall i | 0 <= i < 8 * bytes ensures Bit(mem', i) <==> i in used {
      assert mem'[..bytes][i / 8] == mem[..bytes][i / 8];
      assert Bit(mem, i) <==> i in used;
    }
  }

  /** Cleared states are those of free blocks. */
  lemma ClearedStates(mem: seq<bv8>, bytes: nat, count: nat)
    requires bytes <= |mem| && count <= 8 * bytes && forall o | 0 <= o < bytes :: mem[o] == 0
    ensures Records(mem, bytes, count, {})
  {
    forall i | 0 <= i < 8 * bytes ensures !Bit(mem, i) {
      NoBitIsSet(i % 8);
    }
  }

  /** The lowest clear bit of a byte belongs to the lowest free block that has its state there. */
  lemma LowestInByte(mem: seq<bv8>, bytes: nat, count: nat, used: set<nat>, o: nat)
    requires Records(mem, bytes, count, used) && o < bytes
    ensures forall i | 8 * o <= i < 8 * o + LowestClear(mem[o]) && i < 8 * o + 8 :: i in used
    ensures mem[o] != 255 ==> LowestClear(mem[o]) < 8 && 8 * o + LowestClear(mem[o]) !in used
  {
    hide IsSet, Mask;
    var l := LowestClear(mem[o]);
    forall i | 8 * o <= i < 8 * o + 8 ensures IsSet(mem[o], i - 8 * o) <==> i in used {
      assert i / 8 == o && i % 8 == i - 8 * o;
      assert Bit(mem, i) <==> i in used;
    }
    assert mem[o] != 255 ==> (8 * o + l) - 8 * o == l;
  }

  // ----- sizes

  /** counter_bytes: the bytes of states, in units of the alignment. */
  function CounterBytes(align: nat, count: nat): nat
    requires align > 0
  {
    DivideAndMultiply(count + (8 * align - 1), 8 * align);
    MulMonotone(0, (count + (8 * align - 1)) / (8 * align), 0, align);
    (count + (8 * align - 1)) / (8 * align) * align
  }

  /** There is a state for every block, and no unit of states is more than what one block needs. */
  lemma CountersSuffice(align: nat, count: nat)
    requires align > 0
    ensures count <= 8 * CounterBytes(align, count)
    ensures Divides(align, CounterBytes(align, count))
    ensures 8 * CounterBytes(align, count) < count + 8 * align
  {
    var k := (count + (8 * align - 1)) / (8 * align);
    DivideAndMultiply(count + (8 * align - 1), 8 * align);
    assert k * (8 * align) == 8 * (k * align);
    MultipleHasNoRemainder(k, align);
  }

  lemma CountersGrow(align: nat, m: nat, n: nat)
    requires align > 0 && m <= n
    ensures CounterBytes(align, m) <= CounterBytes(align, n)
  {
    var d := 8 * align;
    var j, k := (m + (d - 1)) / d, (n + (d - 1)) / d;
    DivideAndMultiply(m + (d - 1), d);
    DivideAndMultiply(n + (d - 1), d);
    if k < j {
      ProductFalls(k, j, d);
    }
    MulMonotone(j, k, align, align);
  }

  lemma ProductFalls(k: nat, j: nat, d: nat)
    requires k < j
    ensures k * d + d <= j * d
  {
    MulMonotone(k + 1, j, d, d);
    assert (k + 1) * d == k * d + d;
  }
}
