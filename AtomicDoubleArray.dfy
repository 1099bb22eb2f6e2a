/**
 * AtomicDoubleMatrix: a jagged matrix of doubles kept in one flat buffer of
 * 64-bit bit patterns, with a side array of row widths. The model is
 * sequential: each primitive of the backing atomic long array is one step.
 */
module AtomicDoubleArray {
  import opened DoubleBits
  import opened JaggedLayout

  /**
   * The getters as written ignore the store. A matrix built from [[x]] holds
   * x at (0, 0), in slot 0; decoding the flat index 0 instead gives +0.0, so
   * for every x other than +0.0 the as-written getters return the wrong value.
   */
  lemma IndexDecodingDiffers(x: Double)
    requires x != PositiveZero
    ensures ShapeOf([[x]]) == [1] && Flatten([[x]]) == [DoubleToRawLongBits(x)]
    ensures Unflatten(ShapeOf([[x]]), Flatten([[x]]))[0][0] == x
    ensures LongBitsToDouble(IntToLong(FlatIndex(ShapeOf([[x]]), 0, 0))) != x
  {
    assert ShapeOf([[x]]) == [1];
    assert Flatten([[x]]) == EncodeRow([x]);
    UnflattenFlatten([[x]]);
  }

  class AtomicDoubleMatrix {
    /** The backing store: one raw bit pattern per element, rows one after another. */
    var longs: array<bv64>
    /** The width of each row; fixed at construction. */
    var colNumbers: array<nat>
    /** The number of elements; fixed at construction. */
    var noElements: int

    /**
     * The store holds exactly one slot per element of the rows `colNumbers`
     * describes, and the two arrays are separate objects, so a write to the
     * store leaves the row widths alone.
     */
    ghost predicate Valid()
      reads this, colNumbers
    {
      noElements == Sum(colNumbers[..]) && longs.Length == noElements
      && longs as object != colNumbers as object
    }

    /** The row widths, as a sequence. */
    ghost function RowWidths(): seq<nat>
      reads this, colNumbers
    {
      colNumbers[..]
    }

    /** The matrix the object currently represents: the store read row by row. */
    ghost function Matrix(): seq<seq<Double>>
      reads this, colNumbers, longs
      requires Valid()
    {
      Unflatten(colNumbers[..], longs[..])
    }

    /**
     * Copies `matrix`, which may be jagged: the row widths are taken from its
     * rows, and every element is stored as its raw bit pattern, in row-major
     * order. The object then represents `matrix` bit for bit.
     */
    constructor (matrix: seq<seq<Double>>)
      ensures Valid() && fresh(longs) && fresh(colNumbers)
      ensures RowWidths() == ShapeOf(matrix)
      ensures noElements == Sum(ShapeOf(matrix))
      ensures longs[..] == Flatten(matrix)
      ensures Matrix() == matrix
    {
      var widths, count := CountElements(matrix);
      var longArray := CopyElements(matrix, count);
      colNumbers := widths;
      noElements := count;
      // The atomic long array copies the buffer it is given, so the store is owned by this object alone.
      longs := longArray;
      UnflattenFlatten(matrix);
    }

    /** The constructor's first pass: the width of every row, and their total. */
    static method CountElements(matrix: seq<seq<Double>>) returns (widths: array<nat>, count: nat)
      ensures fresh(widths)
      ensures widths[..] == ShapeOf(matrix)
      ensures count == Sum(ShapeOf(matrix))
    {
      ghost var shape := ShapeOf(matrix);
      widths := new nat[|matrix|];
      count := 0;
      for i := 0 to |matrix|
        invariant widths[..i] == shape[..i]
        invariant count == Offset(shape, i)
      {
        widths[i] := |matrix[i]|;
        for j := 0 to |matrix[i]|
          invariant count == Offset(shape, i) + j
        {
          count := count + 1;
        }
      }
      assert widths[..] == widths[..|matrix|];
    }

    /** The constructor's second pass: the bit pattern of every element, in row-major order. */
    static method CopyElements(matrix: seq<seq<Double>>, count: nat) returns (longArray: array<bv64>)
      requires count == Sum(ShapeOf(matrix))
      ensures fresh(longArray)
      ensures longArray[..] == Flatten(matrix)
    {
      ghost var shape := ShapeOf(matrix);
      longArray := new bv64[count];
      var longArrayIndex := 0;
      for i := 0 to |matrix|
        invariant longArrayIndex == Offset(shape, i) <= count
        invariant longArray[..longArrayIndex] == FlattenRows(matrix, i)
      {
        OffsetMonotone(shape, i + 1, |matrix|);
        ghost var written := FlattenRows(matrix, i);
        for j := 0 to |matrix[i]|
          invariant longArrayIndex == Offset(shape, i) + j
          invariant longArray[..longArrayIndex] == written + EncodeRow(matrix[i][..j])
        {
          ghost var before := longArray[..];
          longArray[longArrayIndex] := DoubleToRawLongBits(matrix[i][j]);
          assert longArray[..longArrayIndex + 1] == before[..longArrayIndex] + [DoubleToRawLongBits(matrix[i][j])];
          longArrayIndex := longArrayIndex + 1;
          EncodeRowSnoc(written, matrix[i], j);
        }
        assert matrix[i][..|matrix[i]|] == matrix[i];
      }
      assert longArray[..] == longArray[..longArrayIndex];
    }

    /**
     * A rectangular matrix of `rows` rows of `cols` columns, every element
     * +0.0: the copy of a freshly allocated `rows`-by-`cols` array of doubles.
     */
    constructor FromDimensions(rows: nat, cols: nat)
      ensures Valid() && fresh(longs) && fresh(colNumbers)
      ensures RowWidths() == seq(rows, _ => cols)
      ensures noElements == rows * cols
      ensures forall i, j :: 0 <= i < rows && 0 <= j < cols ==> Matrix()[i][j] == PositiveZero
    {
      var matrix := seq(rows, _ => seq(cols, _ => PositiveZero));
      var widths, count := CountElements(matrix);
      var longArray := CopyElements(matrix, count);
      colNumbers := widths;
      noElements := count;
      longs := longArray;
      assert ShapeOf(matrix) == seq(rows, _ => cols);
      OffsetRectangle(rows, cols, rows);
      UnflattenFlatten(matrix);
    }

    /**
     * The flat index of (row, col): the widths of the rows before `row`, added
     * up, plus `col`. A negative `row` adds up no widths.
     */
    method RowColsToIndex(row: int, col: int) returns (index: int)
      requires row <= colNumbers.Length
      ensures index == Offset(colNumbers[..], if row < 0 then 0 else row) + col
    {
      var noElement := 0;
      var i := 0;
      while i < row
        invariant 0 <= i <= if row < 0 then 0 else row
        invariant noElement == Offset(colNumbers[..], i)
      {
        noElement := noElement + colNumbers[i];
        i := i + 1;
      }
      index := noElement + col;
    }

    /** The number of elements. */
    function Length(): (n: int)
      reads this, colNumbers
      requires Valid()
      ensures n == longs.Length && n == Sum(RowWidths())
    {
      noElements
    }

    /** The number of rows. */
    function GetNoRows(): (rows: int)
      reads this, colNumbers, longs
      requires Valid()
      ensures rows == |RowWidths()| && rows == |Matrix()|
    {
      colNumbers.Length
    }

    /**
     * The current value at (row, col).
     * The source decodes the flat index itself rather than the slot at that
     * index (AtomicDoubleArray.java:89); modelled here is the documented
     * behaviour, the current value of the element.
     */
    method Get(row: int, col: int) returns (v: Double)
      requires Valid() && ValidCoordinate(RowWidths(), row, col)
      ensures v == Matrix()[row][col]
    {
      var index := RowColsToIndex(row, col);
      UnflattenAt(colNumbers[..], longs[..], row, col);
      v := LongBitsToDouble(longs[index]);
    }

    /**
     * A fresh copy of one row, element by element.
     * Like Get, the source decodes flat indices instead of slots here
     * (AtomicDoubleArray.java:100); modelled is the current row.
     */
    method GetRow(row: int) returns (values: seq<Double>)
      requires Valid() && 0 <= row < colNumbers.Length
      ensures values == Matrix()[row]
    {
      UnflattenRow(colNumbers[..], longs[..], row);
      values := [];
      for i := 0 to colNumbers[row]
        invariant values == Matrix()[row][..i]
      {
        var index := RowColsToIndex(row, i);
        UnflattenAt(colNumbers[..], longs[..], row, i);
        values := values + [LongBitsToDouble(longs[index])];
      }
    }

    /** A fresh copy of the whole matrix, read slot by slot in row-major order. */
    method GetMatrix() returns (matrix: seq<seq<Double>>)
      requires Valid()
      ensures matrix == Matrix()
      ensures ShapeOf(matrix) == RowWidths()
    {
      ghost var widths := colNumbers[..];
      var elementno := 0;
      matrix := [];
      for i := 0 to colNumbers.Length
        invariant elementno == Offset(widths, i)
        invariant matrix == Matrix()[..i]
      {
        UnflattenRow(widths, longs[..], i);
        var rowValues := [];
        for j := 0 to colNumbers[i]
          invariant elementno == Offset(widths, i) + j
          invariant rowValues == Matrix()[i][..j]
        {
          UnflattenAt(widths, longs[..], i, j);
          rowValues := rowValues + [LongBitsToDouble(longs[elementno])];
          elementno := elementno + 1;
        }
        assert rowValues == Matrix()[i];
        matrix := matrix + [rowValues];
      }
      UnflattenShape(widths, longs[..]);
    }

    /** The value in slot `i` of the store (a private helper of the source, unused there). */
    method GetDirectly(i: int) returns (v: Double)
      requires Valid() && 0 <= i < longs.Length
      ensures v == LongBitsToDouble(longs[i])
      ensures v == Matrix()[Locate(RowWidths(), i).0][Locate(RowWidths(), i).1]
    {
      UnflattenAt(colNumbers[..], longs[..], Locate(colNumbers[..], i).0, Locate(colNumbers[..], i).1);
      v := LongBitsToDouble(longs[i]);
    }

    // ----- the getters as the source writes them -----
    // A Java array holds fewer than 2^31 elements, so every flat index fits in an `int`.

    /** `get(row, col)` as written: the double whose bit pattern is the flat index itself. */
    method GetAsWritten(row: int, col: int) returns (v: Double)
      requires Valid() && ValidCoordinate(RowWidths(), row, col) && Length() < 0x8000_0000
      ensures v == LongBitsToDouble(IntToLong(FlatIndex(RowWidths(), row, col)))
    {
      var index := RowColsToIndex(row, col);
      assert index == FlatIndex(RowWidths(), row, col) < Length();
      v := LongBitsToDouble(IntToLong(index));
    }

    /** `getRow(row)` as written: element `i` is the double whose bit pattern is the flat index of (row, i). */
    method GetRowAsWritten(row: int) returns (values: seq<Double>)
      requires Valid() && 0 <= row < colNumbers.Length && Length() < 0x8000_0000
      ensures |values| == RowWidths()[row]
      ensures forall i :: 0 <= i < |values| ==> values[i] == LongBitsToDouble(IntToLong(FlatIndex(RowWidths(), row, i)))
    {
      ghost var widths := RowWidths();
      assert Sum(widths) < 0x8000_0000 && colNumbers[row] == widths[row];
      values := [];
      for i := 0 to colNumbers[row]
        invariant |values| == i
        invariant forall k :: 0 <= k < i ==> values[k] == LongBitsToDouble(IntToLong(FlatIndex(widths, row, k)))
      {
        var index := RowColsToIndex(row, i);
        assert index == FlatIndex(widths, row, i) < Length();
        values := values + [LongBitsToDouble(IntToLong(index))];
      }
    }

    /** `getDirectly(i)` as written: the double whose bit pattern is `i`. */
    method GetDirectlyAsWritten(i: int) returns (v: Double)
      requires Valid() && 0 <= i < longs.Length && Length() < 0x8000_0000
      ensures v == LongBitsToDouble(IntToLong(i))
    {
      v := LongBitsToDouble(IntToLong(i));
    }

    /** Stores `newValue` at (row, col); every other element keeps its value. */
    method Set(row: int, col: int, newValue: Double)
      requires Valid() && ValidCoordinate(RowWidths(), row, col)
      modifies longs
      ensures Valid() && RowWidths() == old(RowWidths())
      ensures longs[..] == old(longs[..])[FlatIndex(RowWidths(), row, col) := DoubleToRawLongBits(newValue)]
      ensures Matrix() == Assign(old(Matrix()), row, col, newValue)
    {
      ghost var widths, slots := colNumbers[..], longs[..];
      var next := DoubleToRawLongBits(newValue);
      var index := RowColsToIndex(row, col);
      UnflattenUpdate(widths, slots, row, col, next);
      longs[index] := next;
      assert longs[..] == slots[index := next];
    }

    /**
     * Overwrites the store with the elements of `newMatrix` in row-major order,
     * slot 0 onwards. When `newMatrix` has the object's shape, the object then
     * represents `newMatrix`; with fewer elements, the remaining slots keep
     * their values.
     */
    method SetMatrix(newMatrix: seq<seq<Double>>)
      requires Valid() && Sum(ShapeOf(newMatrix)) <= longs.Length
      modifies longs
      ensures Valid() && RowWidths() == old(RowWidths())
      ensures longs[..] == Overwrite(old(longs[..]), Flatten(newMatrix))
      ensures ShapeOf(newMatrix) == RowWidths() ==> Matrix() == newMatrix
    {
      ghost var shape, initial := ShapeOf(newMatrix), longs[..];
      var elementno := 0;
      for i := 0 to |newMatrix|
        invariant elementno == Offset(shape, i) <= longs.Length
        invariant longs[..] == Overwrite(initial, FlattenRows(newMatrix, i))
      {
        OffsetMonotone(shape, i + 1, |newMatrix|);
        ghost var written := FlattenRows(newMatrix, i);
        for j := 0 to |newMatrix[i]|
          invariant elementno == Offset(shape, i) + j
          invariant longs[..] == Overwrite(initial, written + EncodeRow(newMatrix[i][..j]))
        {
          ghost var prefix := written + EncodeRow(newMatrix[i][..j]);
          var next := DoubleToRawLongBits(newMatrix[i][j]);
          longs[elementno] := next;
          assert |prefix| == elementno;
          OverwriteStep(initial, prefix, next);
          EncodeRowSnoc(written, newMatrix[i], j);
          elementno := elementno + 1;
        }
        assert newMatrix[i][..|newMatrix[i]|] == newMatrix[i];
      }
      if shape == colNumbers[..] {
        assert longs[..] == Flatten(newMatrix) by {
          assert |Flatten(newMatrix)| == |initial|;
        }
        assert Unflatten(colNumbers[..], longs[..]) == newMatrix by {
          UnflattenFlatten(newMatrix);
        }
      }
    }

    /** Stores `newValue` in slot `i` of the store (a private helper of the source, unused there). */
    method SetDirectly(i: int, newValue: Double)
      requires Valid() && 0 <= i < longs.Length
      modifies longs
      ensures Valid() && RowWidths() == old(RowWidths())
      ensures longs[..] == old(longs[..])[i := DoubleToRawLongBits(newValue)]
      ensures Matrix() == Assign(old(Matrix()), Locate(RowWidths(), i).0, Locate(RowWidths(), i).1, newValue)
    {
      ghost var widths, slots := colNumbers[..], longs[..];
      var next := DoubleToRawLongBits(newValue);
      ghost var rc := Locate(widths, i);
      UnflattenUpdate(widths, slots, rc.0, rc.1, next);
      longs[i] := next;
      assert longs[..] == slots[i := next];
    }

    /** Eventually stores `newValue` at (row, col); read sequentially, exactly Set. */
    method LazySet(row: int, col: int, newValue: Double)
      requires Valid() && ValidCoordinate(RowWidths(), row, col)
      modifies longs
      ensures Valid() && RowWidths() == old(RowWidths())
      ensures longs[..] == old(longs[..])[FlatIndex(RowWidths(), row, col) := DoubleToRawLongBits(newValue)]
      ensures Matrix() == Assign(old(Matrix()), row, col, newValue)
    {
      Set(row, col, newValue);
    }

    /** Stores `newValue` at (row, col) and returns the value it replaced. */
    method GetAndSet(row: int, col: int, newValue: Double) returns (previous: Double)
      requires Valid() && ValidCoordinate(RowWidths(), row, col)
      modifies longs
      ensures Valid() && RowWidths() == old(RowWidths())
      ensures previous == old(Matrix())[row][col]
      ensures longs[..] == old(longs[..])[FlatIndex(RowWidths(), row, col) := DoubleToRawLongBits(newValue)]
      ensures Matrix() == Assign(old(Matrix()), row, col, newValue)
    {
      ghost var widths, slots := colNumbers[..], longs[..];
      var next := DoubleToRawLongBits(newValue);
      var index := RowColsToIndex(row, col);
      UnflattenAt(widths, slots, row, col);
      UnflattenUpdate(widths, slots, row, col, next);
      var current := SlotGetAndSet(index, next);
      previous := LongBitsToDouble(current);
    }

    /**
     * Stores the bits of `update` at (row, col) if the slot's bits equal those
     * of `expected`, and reports whether it did; on failure nothing changes.
     * The test is raw-bit equality, not IEEE equality.
     */
    method CompareAndSet(row: int, col: int, expected: Double, update: Double) returns (swapped: bool)
      requires Valid() && ValidCoordinate(RowWidths(), row, col)
      modifies longs
      ensures Valid() && RowWidths() == old(RowWidths())
      ensures swapped <==> old(longs[FlatIndex(RowWidths(), row, col)]) == DoubleToRawLongBits(expected)
      ensures swapped <==> old(Matrix())[row][col] == expected
      ensures longs[..] == if swapped then old(longs[..])[FlatIndex(RowWidths(), row, col) := DoubleToRawLongBits(update)]
                           else old(longs[..])
      ensures Matrix() == if swapped then Assign(old(Matrix()), row, col, update) else old(Matrix())
    {
      ghost var widths, slots := colNumbers[..], longs[..];
      var index := RowColsToIndex(row, col);
      UnflattenAt(widths, slots, row, col);
      UnflattenUpdate(widths, slots, row, col, DoubleToRawLongBits(update));
      BitsEqualIffSame(LongBitsToDouble(slots[index]), expected);
      swapped := SlotCompareAndSet(index, DoubleToRawLongBits(expected), DoubleToRawLongBits(update));
    }

    /**
     * The weak compare-and-set: exactly CompareAndSet, except that it may
     * fail spuriously and then changes nothing. `spuriousFailure` stands for
     * the platform's choice to fail.
     */
    method WeakCompareAndSet(row: int, col: int, expected: Double, update: Double, spuriousFailure: bool)
      returns (swapped: bool)
      requires Valid() && ValidCoordinate(RowWidths(), row, col)
      modifies longs
      ensures Valid() && RowWidths() == old(RowWidths())
      ensures swapped <==> !spuriousFailure && old(Matrix())[row][col] == expected
      ensures longs[..] == if swapped then old(longs[..])[FlatIndex(RowWidths(), row, col) := DoubleToRawLongBits(update)]
                           else old(longs[..])
      ensures Matrix() == if swapped then Assign(old(Matrix()), row, col, update) else old(Matrix())
    {
      if spuriousFailure {
        swapped := false;
      } else {
        swapped := CompareAndSet(row, col, expected, update);
      }
    }

    /**
     * Adds `delta` to the element at (row, col) and returns the value before
     * the addition. Floating-point addition is the parameter `add`. The source
     * retries its compare-and-set until it succeeds; read sequentially, the
     * first attempt succeeds.
     */
    method GetAndAdd(row: int, col: int, delta: Double, add: (Double, Double) -> Double)
      returns (previous: Double)
      requires Valid() && ValidCoordinate(RowWidths(), row, col)
      modifies longs
      ensures Valid() && RowWidths() == old(RowWidths())
      ensures previous == old(Matrix())[row][col]
      ensures longs[..] == old(longs[..])[FlatIndex(RowWidths(), row, col) := DoubleToRawLongBits(add(previous, delta))]
      ensures Matrix() == Assign(old(Matrix()), row, col, add(previous, delta))
    {
      ghost var widths, slots := colNumbers[..], longs[..];
      ghost var k := FlatIndex(widths, row, col);
      ghost var sum := add(Unflatten(widths, slots)[row][col], delta);
      UnflattenAt(widths, slots, row, col);
      UnflattenUpdate(widths, slots, row, col, DoubleToRawLongBits(sum));
      var done := false;
      previous := PositiveZero;  // replaced by the attempt that succeeds
      while !done
        invariant Valid() && colNumbers[..] == widths
        invariant !done ==> longs[..] == slots
        invariant done ==> previous == LongBitsToDouble(slots[k]) && longs[..] == slots[k := DoubleToRawLongBits(sum)]
        decreases if done then 0 else 1
      {
        var l := RowColsToIndex(row, col);
        var current := longs[l];
        var currentVal := LongBitsToDouble(current);
        var nextVal := add(currentVal, delta);
        var next := DoubleToRawLongBits(nextVal);
        var swapped := SlotCompareAndSet(l, current, next);
        if swapped {
          previous := currentVal;
          done := true;
        }
      }
    }

    /**
     * Adds `delta` to the element at (row, col) and returns the value after
     * the addition; otherwise as GetAndAdd.
     */
    method AddAndGet(row: int, col: int, delta: Double, add: (Double, Double) -> Double)
      returns (updated: Double)
      requires Valid() && ValidCoordinate(RowWidths(), row, col)
      modifies longs
      ensures Valid() && RowWidths() == old(RowWidths())
      ensures updated == add(old(Matrix())[row][col], delta)
      ensures longs[..] == old(longs[..])[FlatIndex(RowWidths(), row, col) := DoubleToRawLongBits(updated)]
      ensures Matrix() == Assign(old(Matrix()), row, col, updated)
    {
      ghost var widths, slots := colNumbers[..], longs[..];
      ghost var k := FlatIndex(widths, row, col);
      ghost var sum := add(Unflatten(widths, slots)[row][col], delta);
      UnflattenAt(widths, slots, row, col);
      UnflattenUpdate(widths, slots, row, col, DoubleToRawLongBits(sum));
      var done := false;
      updated := PositiveZero;  // replaced by the attempt that succeeds
      while !done
        invariant Valid() && colNumbers[..] == widths
        invariant !done ==> longs[..] == slots
        invariant done ==> updated == sum && longs[..] == slots[k := DoubleToRawLongBits(sum)]
        decreases if done then 0 else 1
      {
        var l := RowColsToIndex(row, col);
        var current := longs[l];
        var currentVal := LongBitsToDouble(current);
        var nextVal := add(currentVal, delta);
        var next := DoubleToRawLongBits(nextVal);
        var swapped := SlotCompareAndSet(l, current, next);
        if swapped {
          updated := nextVal;
          done := true;
        }
      }
    }

    // ----- the primitives of the backing atomic long array, one step each -----

    /** Atomic get-and-set of slot `i`. */
    method SlotGetAndSet(i: int, next: bv64) returns (current: bv64)
      requires 0 <= i < longs.Length
      modifies longs
      ensures current == old(longs[i])
      ensures longs[..] == old(longs[..])[i := next]
    {
      current := longs[i];
      longs[i] := next;
    }

    /** Atomic compare-and-set of slot `i`, by raw-bit equality. */
    method SlotCompareAndSet(i: int, expected: bv64, update: bv64) returns (swapped: bool)
      requires 0 <= i < longs.Length
      modifies longs
      ensures swapped <==> old(longs[i]) == expected
      ensures longs[..] == if swapped then old(longs[..])[i := update] else old(longs[..])
    {
      swapped := longs[i] == expected;
      if swapped {
        longs[i] := update;
      }
    }
  }
}
