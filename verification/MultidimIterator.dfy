/** src/iterators/multidim_iteration.c: an iterator over the cells of a grid. */
module MultidimIterator {
  import opened Arithmetic
  import opened MachineIntegers
  import opened MixedRadix

  class Iterator {
    // the sizes of all axes, and behind them the offsets along all axes
    const cells: array<u64>
    var ndims: nat

    ghost predicate LaidOut()
      reads this
    {
      2 * ndims <= cells.Length && ndims < U32_LIMIT
    }

    ghost function Dims(): seq<u64>
      requires LaidOut()
      reads this, cells
    {
      cells[..ndims]
    }

    ghost function Offsets(): seq<u64>
      requires LaidOut()
      reads this, cells
    {
      cells[ndims..2 * ndims]
    }

    ghost predicate Valid()
      reads this, cells
    {
      LaidOut() && Sized(Dims()) && InRange(Dims(), Offsets())
    }

    /** Where the iterator is, as a flat index. */
    ghost function Position(): nat
      requires LaidOut()
      reads this, cells
    {
      Flat(Dims(), Offsets())
    }

    ghost function Total(): nat
      requires LaidOut()
      reads this, cells
    {
      Product(Dims(), ndims)
    }

    constructor (capacity: nat)
      ensures cells.Length == capacity && fresh(cells) && ndims == 0
    {
      cells := new u64[capacity];
      ndims := 0;
    }

    /** multidim_iterator_init */
    method Init(dims: seq<u64>)
      requires 2 * |dims| <= cells.Length && |dims| < U32_LIMIT
      modifies this, cells
      ensures LaidOut() && Dims() == dims && Offsets() == StartOf(dims)
    {
      ndims := |dims|;
      for i := 0 to ndims
        invariant ndims == |dims| && LaidOut()
        invariant cells[..i] == dims[..i]
        invariant forall j | ndims <= j < ndims + i :: cells[j] == 0
      {
        cells[i] := dims[i];
        cells[ndims + i] := 0;
      }
    }

    /**
     * multidim_iterator_init_dim: one axis more. The offsets move up by a cell, over the place where the size of
     * the new axis goes.
     */
    method InitDim(dim: nat, size: u64)
      requires 2 * (dim + 1) <= cells.Length && dim + 1 < U32_LIMIT
      requires dim > 0 ==> ndims == dim && LaidOut() && Offsets() == StartOf(Dims())
      modifies this, cells
      ensures LaidOut() && Dims() == (if dim == 0 then [] else old(Dims())) + [size]
      ensures Offsets() == StartOf(Dims())
    {
      ghost var before := cells[..];
      assert forall j | dim <= j < 2 * dim :: before[j] == before[dim..2 * dim][j - dim] == 0;
      ndims := dim + 1;
      cells[dim] := size;
      if dim > 0 {
        cells[ndims + dim - 1] := 0;
      }
      cells[ndims + dim] := 0;
      assert cells[..dim] == before[..dim] && cells[..ndims] == cells[..dim] + [size];
      assert forall j | ndims <= j < ndims + dim :: cells[j] == 0;
    }

    /** Setting up axis by axis comes to the same as setting up all of them at once. */
    method InitAllDims(dims: seq<u64>)
      requires |dims| >= 1 && 2 * |dims| <= cells.Length && |dims| < U32_LIMIT
      modifies this, cells
      ensures LaidOut() && Dims() == dims && Offsets() == StartOf(dims)
    {
      for i := 0 to |dims|
        invariant i > 0 ==> ndims == i && LaidOut() && Dims() == dims[..i] && Offsets() == StartOf(Dims())
      {
        InitDim(i, dims[i]);
      }
    }

    method SetOffset(dim: nat, offset: u64)
      requires LaidOut() && dim < ndims
      modifies cells
      ensures Dims() == old(Dims()) && Offsets() == old(Offsets())[dim := offset]
    {
      cells[ndims + dim] := offset;
    }

    /** multidim_iterator_set_to_start */
    method SetToStart()
      requires LaidOut() && Sized(Dims())
      modifies cells
      ensures Valid() && Dims() == old(Dims()) && Offsets() == StartOf(Dims()) && Position() == 0
    {
      hide Sized, Flat, InRange;
      ghost var dims := Dims();
      for i := 0 to ndims
        invariant Dims() == dims && forall j | 0 <= j < i :: Offsets()[j] == 0
      {
        SetOffset(i, 0);
      }
      assert Offsets() == StartOf(dims);
      StartIsInRange(dims);
      AtStart(dims, Offsets());
    }

    /** multidim_iterator_set_to_end */
    method SetToEnd()
      requires LaidOut() && Sized(Dims())
      modifies cells
      ensures Valid() && Dims() == old(Dims()) && Offsets() == EndOf(Dims()) && Position() == Total()
    {
      hide Sized, Flat, InRange, Product;
      ghost var dims := Dims();
      SizedHasAxes(dims);
      for i := 0 to ndims - 1
        invariant Dims() == dims && forall j | 0 <= j < i :: Offsets()[j] == dims[j] - 1
      {
        assert cells[i] == dims[i];
        SetOffset(i, cells[i] - 1);
      }
      assert cells[ndims - 1] == dims[ndims - 1];
      SetOffset(ndims - 1, cells[ndims - 1]);
      assert Offsets() == EndOf(dims);
      EndIsInRange(dims);
      AtEnd(dims, Offsets());
    }

    /** multidim_iterator_advance */
    method Advance(dim: nat, step: u64)
      requires Valid() && dim < ndims
      modifies cells
      ensures Valid() && Dims() == old(Dims())
      ensures Offsets() == old(Advanced(Dims(), Offsets(), dim, step))
      ensures MovesForward(Dims(), old(Offsets()), Offsets(), dim, step)
      ensures Offsets() == EndOf(Dims()) ||
          (Offsets()[dim + 1..] == old(Offsets())[dim + 1..] && Offsets()[dim] < Dims()[dim])
    {
      hide Sized, Flat, InRange, Product, Stride, EndOf, MovesForward, MovesBack, Wrap64, Quotient, Remainder;
      ghost var dims, o := Dims(), Offsets();
      SizedHasAxes(dims);
      AdvancedFlat(dims, o, dim, step);
      AdvancedAxes(dims, o, dim, step);
      var axis: nat, s: u64 := dim, step;
      while true
        invariant Dims() == dims && axis < ndims
        invariant Advanced(dims, Offsets(), axis, s) == Advanced(dims, o, dim, step)
        decreases axis
      {
        assert cells[axis] == dims[axis] && cells[ndims + axis] == Offsets()[axis];
        var x := Wrap64(cells[ndims + axis] + s);
        if x < cells[axis] {
          SetOffset(axis, x);
          return;
        }
        if axis == 0 {
          SetToEnd();
          return;
        }
        s := Quotient(x, cells[axis]);
        SetOffset(axis, Remainder(x, cells[axis]));
        axis := axis - 1;
      }
    }

    /** The steps of `recede` on one axis: what is left on it, and the steps to borrow from the axis outside. */
    method Borrow(offset: u64, size: u64, step: u64) returns (left: u64, required: u64)
      requires offset < step && size >= 1
      ensures required == Borrowed(offset, size, step) && left == LeftOver(offset, size, step)
    {
      var remaining := step - offset;
      required := Quotient(Wrap64(remaining + size - 1), size);
      left := Wrap64(offset + required * size - step);
    }

    /** multidim_iterator_recede */
    method Recede(dim: nat, step: u64)
      requires Valid() && dim < ndims
      modifies cells
      ensures Valid() && Dims() == old(Dims())
      ensures Offsets() == old(Receded(Dims(), Offsets(), dim, step))
      ensures MovesBack(Dims(), old(Offsets()), Offsets(), dim, step)
      ensures Offsets() == StartOf(Dims()) || Offsets()[dim + 1..] == old(Offsets())[dim + 1..]
      ensures step >= 1 ==> Offsets()[dim] < Dims()[dim]
      ensures step >= 1 && dim == ndims - 1 ==> Inside(Dims(), Offsets())
    {
      hide Sized, Flat, InRange, Inside, Product, Stride, StartOf, MovesForward, MovesBack, Wrap64, Borrowed, LeftOver;
      ghost var dims, o := Dims(), Offsets();
      SizedHasAxes(dims);
      RecededFlat(dims, o, dim, step);
      RecededAxes(dims, o, dim, step);
      if step >= 1 && dim == ndims - 1 {
        RecededInside(dims, o, dim, step);
      }
      var axis: nat, s: u64 := dim, step;
      while true
        invariant Dims() == dims && axis < ndims
        invariant Receded(dims, Offsets(), axis, s) == Receded(dims, o, dim, step)
        decreases axis
      {
        assert cells[axis] == dims[axis] && cells[ndims + axis] == Offsets()[axis];
        var offset := cells[ndims + axis];
        if s <= offset {
          SetOffset(axis, offset - s);
          return;
        }
        if axis == 0 {
          SetToStart();
          return;
        }
        var left, required := Borrow(offset, cells[axis], s);
        BorrowIsExact(offset, cells[axis], s);
        SetOffset(axis, left);
        axis := axis - 1;
        s := required;
      }
    }

    /** multidim_iterator_is_at_start */
    method IsAtStart() returns (yes: bool)
      requires Valid()
      ensures yes <==> Position() == 0
    {
      hide Sized, Flat, InRange;
      AtStart(Dims(), Offsets());
      for i := 0 to ndims
        invariant forall j | 0 <= j < i :: Offsets()[j] == 0
      {
        assert cells[ndims + i] == Offsets()[i];
        if cells[ndims + i] != 0 {
          return false;
        }
      }
      assert Offsets() == StartOf(Dims());
      return true;
    }

    /** multidim_iterator_is_at_end */
    method IsAtEnd() returns (yes: bool)
      requires Valid()
      ensures yes <==> Position() == Total()
    {
      hide Sized, Flat, InRange, Product;
      ghost var dims, o := Dims(), Offsets();
      SizedHasAxes(dims);
      AtEnd(dims, o);
      for i := 0 to ndims - 1
        invariant forall j | 0 <= j < i :: o[j] == dims[j] - 1
      {
        assert cells[ndims + i] == o[i] && cells[i] == dims[i];
        if cells[ndims + i] != cells[i] - 1 {
          return false;
        }
      }
      assert cells[2 * ndims - 1] == o[ndims - 1] && cells[ndims - 1] == dims[ndims - 1];
      yes := cells[2 * ndims - 1] == cells[ndims - 1];
      assert yes ==> o == EndOf(dims);
    }

    /** multidim_iterator_get_flat_index: nothing it forms wraps around. */
    method GetFlatIndex() returns (index: u64)
      requires Valid()
      ensures index == Position()
    {
      hide Sized, InRange, Product, Wrap64;
      ghost var dims, o := Dims(), Offsets();
      SizedHasAxes(dims);
      index := 0;
      for i := 0 to ndims
        invariant index == Prefix(dims, o, i)
      {
        assert cells[ndims + i] == o[i] && cells[i] == dims[i];
        PrefixFits(dims, o, i);
        WrapOnce(index * cells[i]);
        WrapOnce(index * cells[i] + cells[ndims + i]);
        index := Wrap64(index * cells[i]);
        index := Wrap64(index + cells[ndims + i]);
      }
    }

    /** multidim_iterator_total_size */
    method TotalSize() returns (total: u64)
      requires LaidOut()
      ensures total == Wrap64(Total())
      ensures Valid() ==> total == Total()
    {
      hide Wrap64;
      ghost var dims := Dims();
      total := 1;
      WrapOnce(1);
      for i := 0 to ndims
        invariant total == Wrap64(Product(dims, i))
      {
        assert cells[i] == dims[i];
        WrapProduct(Product(dims, i), dims[i]);
        total := Wrap64(total * cells[i]);
      }
      WrapOnce(Product(dims, ndims));
    }

    /**
     * A whole run from the start, one step along the last axis at a time: it visits every position inside the grid
     * exactly once, in the order of the flat index.
     */
    method VisitAll() returns (visited: seq<seq<u64>>)
      requires LaidOut() && Sized(Dims())
      modifies cells
      ensures Valid() && Dims() == old(Dims()) && Position() == Total() == |visited|
      ensures forall i | 0 <= i < |visited| :: Inside(Dims(), visited[i]) && Flat(Dims(), visited[i]) == i
      ensures forall o | Inside(Dims(), o) :: Flat(Dims(), o) < |visited| && visited[Flat(Dims(), o)] == o
    {
      hide Sized, Flat, InRange, Product, Stride;
      ghost var dims := Dims();
      SizedHasAxes(dims);
      SetToStart();
      StartIsInside(dims);
      visited := [];
      var done := IsAtEnd();
      while !done
        invariant Valid() && Dims() == dims && Position() == |visited| <= Total()
        invariant done <==> Position() == Total()
        invariant !done ==> Inside(dims, Offsets())
        invariant forall i | 0 <= i < |visited| :: Inside(dims, visited[i]) && Flat(dims, visited[i]) == i
        decreases Total() - |visited|
      {
        visited := visited + [cells[ndims..2 * ndims]];
        StepAlongLast(dims, Offsets());
        Advance(ndims - 1, 1);
        done := IsAtEnd();
      }
      forall o | Inside(dims, o) ensures Flat(dims, o) < |visited| && visited[Flat(dims, o)] == o {
        InsideIsInRange(dims, o);
        FlatIsBounded(dims, o);
        FlatDetermines(dims, visited[Flat(dims, o)], o);
      }
    }
  }

  lemma StartIsInRange(dims: seq<u64>)
    requires Sized(dims)
    ensures InRange(dims, StartOf(dims))
  {
  }

  lemma StartIsInside(dims: seq<u64>)
    requires Sized(dims)
    ensures Inside(dims, StartOf(dims))
  {
  }

  lemma EndIsInRange(dims: seq<u64>)
    requires Sized(dims)
    ensures InRange(dims, EndOf(dims))
  {
  }

  lemma PrefixFits(dims: seq<u64>, o: seq<u64>, i: nat)
    requires Sized(dims) && InRange(dims, o) && i < |dims|
    ensures Prefix(dims, o, i + 1) == Prefix(dims, o, i) * dims[i] + o[i] < U64_LIMIT
  {
    hide Product, InRange;
    SizedHasAxes(dims);
    LastMayReachSize(dims, o, i);
    PrefixIsBounded(dims, o, i + 1);
    OffsetIsBounded(dims, o, i);
  }

  /** One step along the last axis leads to the next position inside the grid, or to the end. */
  lemma StepAlongLast(dims: seq<u64>, o: seq<u64>)
    requires Sized(dims) && Inside(dims, o)
    ensures var last := |dims| - 1; var o' := Advanced(dims, o, last, 1);
      && Flat(dims, o) + 1 <= Product(dims, |dims|)
      && AdvanceFits(dims, o, last, 1)
      && Stride(dims, |dims|) == 1
      && (Flat(dims, o) + 1 < Product(dims, |dims|) ==> Inside(dims, o'))
  {
    hide Sized, Product, Prefix, Advanced;
    SizedHasAxes(dims);
    InsideIsInRange(dims, o);
    FlatIsBounded(dims, o);
    if Flat(dims, o) + 1 < Product(dims, |dims|) {
      AdvancedInside(dims, o, |dims| - 1, 1);
    }
    SmallStepFits(dims, o, |dims| - 1, 1);
  }

  /** Steps no larger than one never wrap around inside the grid. */
  lemma {:induction false} SmallStepFits(dims: seq<u64>, o: seq<u64>, dim: nat, step: u64)
    requires Sized(dims) && Inside(dims, o) && dim < |dims| && step <= 1
    ensures AdvanceFits(dims, o, dim, step)
  {
    var x, d := o[dim] + step, dims[dim];
    if x >= d && dim > 0 {
      DivisionIsUnique(x, 1, 0, d);
      SmallStepFits(dims, o, dim - 1, 1);
    }
  }
}
