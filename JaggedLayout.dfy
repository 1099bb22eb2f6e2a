/**
 * The layout of a jagged matrix in one flat buffer: the rows one after
 * another (row-major order), row `i` occupying the slots from the sum of the
 * widths of rows 0..i-1 onwards. These functions are the specification the
 * class in AtomicDoubleArray is proved against.
 */
module JaggedLayout {
  import opened DoubleBits

  // ----- address translation -----

  /** The flat index of the first element of `row`: the widths of the rows before it, added up. */
  function Offset(widths: seq<nat>, row: nat): nat
    requires row <= |widths|
  {
    if row == 0 then 0 else Offset(widths, row - 1) + widths[row - 1]
  }

  /** The number of elements in rows of the given widths. */
  function Sum(widths: seq<nat>): nat
  {
    Offset(widths, |widths|)
  }

  /** A coordinate that names an element: an existing row and a column inside that row. */
  predicate ValidCoordinate(widths: seq<nat>, row: int, col: int)
  {
    0 <= row < |widths| && 0 <= col < widths[row]
  }

  /** Later rows start no earlier than earlier rows. */
  lemma {:induction false} OffsetMonotone(widths: seq<nat>, i: nat, j: nat)
    requires i <= j <= |widths|
    ensures Offset(widths, i) <= Offset(widths, j)
  {
    if i < j {
      OffsetMonotone(widths, i, j - 1);
    }
  }

  /** Every valid coordinate has its flat index inside the buffer. */
  lemma IndexInBounds(widths: seq<nat>, row: int, col: int)
    requires ValidCoordinate(widths, row, col)
    ensures Offset(widths, row) + col < Offset(widths, row + 1) <= Sum(widths)
  {
    OffsetMonotone(widths, row + 1, |widths|);
  }

  /** The flat index of a valid coordinate; it always lies inside the buffer. */
  function FlatIndex(widths: seq<nat>, row: int, col: int): (k: nat)
    requires ValidCoordinate(widths, row, col)
    ensures k < Sum(widths)
  {
    IndexInBounds(widths, row, col);
    Offset(widths, row) + col
  }

  /** Distinct valid coordinates have distinct flat indices: no two elements, in one row or in two, share a slot. */
  lemma IndexInjective(widths: seq<nat>, r1: int, c1: int, r2: int, c2: int)
    requires ValidCoordinate(widths, r1, c1) && ValidCoordinate(widths, r2, c2)
    requires Offset(widths, r1) + c1 == Offset(widths, r2) + c2
    ensures r1 == r2 && c1 == c2
  {
    if r1 < r2 {
      OffsetMonotone(widths, r1 + 1, r2);
    } else if r2 < r1 {
      OffsetMonotone(widths, r2 + 1, r1);
    }
  }

  /** The coordinate of the element in slot `k`, looking only at the first `rows` rows. */
  function LocateInRows(widths: seq<nat>, rows: nat, k: nat): (rc: (nat, nat))
    requires rows <= |widths| && k < Offset(widths, rows)
    ensures rc.0 < rows && ValidCoordinate(widths, rc.0, rc.1)
    ensures Offset(widths, rc.0) + rc.1 == k
  {
    if k >= Offset(widths, rows - 1) then (rows - 1, k - Offset(widths, rows - 1))
    else LocateInRows(widths, rows - 1, k)
  }

  /**
   * The inverse of the address translation: the coordinate of the element held
   * in slot `k`. Together with IndexInjective, every slot belongs to exactly
   * one element.
   */
  function Locate(widths: seq<nat>, k: nat): (rc: (nat, nat))
    requires k < Sum(widths)
    ensures ValidCoordinate(widths, rc.0, rc.1)
    ensures Offset(widths, rc.0) + rc.1 == k
  {
    LocateInRows(widths, |widths|, k)
  }

  /** Translating a coordinate and locating the slot again gives back the coordinate. */
  lemma LocateIndex(widths: seq<nat>, row: int, col: int)
    requires ValidCoordinate(widths, row, col)
    ensures Offset(widths, row) + col < Sum(widths)
    ensures Locate(widths, Offset(widths, row) + col) == (row, col)
  {
    IndexInBounds(widths, row, col);
    var rc := Locate(widths, Offset(widths, row) + col);
    IndexInjective(widths, row, col, rc.0, rc.1);
  }

  /** Every row of a rectangular shape has the same width, so the element count is rows times cols. */
  lemma {:induction false} OffsetRectangle(rows: nat, cols: nat, k: nat)
    requires k <= rows
    ensures Offset(seq(rows, _ => cols), k) == k * cols
  {
    if k > 0 {
      OffsetRectangle(rows, cols, k - 1);
    }
  }

  // ----- jagged matrices and their flat layout -----

  /** The widths of the rows of a jagged matrix. */
  function ShapeOf(m: seq<seq<Double>>): seq<nat>
  {
    seq(|m|, i requires 0 <= i < |m| => |m[i]|)
  }

  /** The matrix `m` with the element at (row, col) replaced by `v`. */
  function Assign(m: seq<seq<Double>>, row: nat, col: nat, v: Double): (m': seq<seq<Double>>)
    requires row < |m| && col < |m[row]|
    ensures |m'| == |m|
  {
    m[row := m[row][col := v]]
  }

  /** Assign changes exactly one element: the shape stays, (row, col) holds `v`, every other element keeps its value. */
  lemma AssignEffect(m: seq<seq<Double>>, row: nat, col: nat, v: Double)
    requires row < |m| && col < |m[row]|
    ensures ShapeOf(Assign(m, row, col, v)) == ShapeOf(m)
    ensures Assign(m, row, col, v)[row][col] == v
    ensures forall i, j :: 0 <= i < |m| && 0 <= j < |m[i]| && (i, j) != (row, col) ==> Assign(m, row, col, v)[i][j] == m[i][j]
  {
  }

  /** The bit patterns of the first `rows` rows of a jagged matrix, in row-major order. */
  function FlattenRows(m: seq<seq<Double>>, rows: nat): (slots: seq<bv64>)
    requires rows <= |m|
    ensures |slots| == Offset(ShapeOf(m), rows)
  {
    if rows == 0 then [] else FlattenRows(m, rows - 1) + EncodeRow(m[rows - 1])
  }

  /** The bit patterns of a whole jagged matrix, in row-major order. */
  function Flatten(m: seq<seq<Double>>): (slots: seq<bv64>)
    ensures |slots| == Sum(ShapeOf(m))
  {
    FlattenRows(m, |m|)
  }

  /** The buffer `slots` with its first |prefix| slots replaced by `prefix`, the rest untouched. */
  function Overwrite(slots: seq<bv64>, prefix: seq<bv64>): (r: seq<bv64>)
    requires |prefix| <= |slots|
    ensures |r| == |slots|
  {
    prefix + slots[|prefix|..]
  }

  /** Writing the next slot after an overwritten prefix extends the prefix by that slot. */
  lemma OverwriteStep(slots: seq<bv64>, prefix: seq<bv64>, bits: bv64)
    requires |prefix| < |slots|
    ensures Overwrite(slots, prefix)[|prefix| := bits] == Overwrite(slots, prefix + [bits])
  {
    var lhs, rhs := Overwrite(slots, prefix)[|prefix| := bits], Overwrite(slots, prefix + [bits]);
    forall k | 0 <= k < |slots|
      ensures lhs[k] == rhs[k]
    {
      if k > |prefix| {
        assert lhs[k] == slots[k] == rhs[k];
      }
    }
  }

  /** The slots that hold row `row`. */
  function RowSlots(widths: seq<nat>, slots: seq<bv64>, row: nat): (r: seq<bv64>)
    requires |slots| == Sum(widths) && row < |widths|
    ensures |r| == widths[row]
    ensures Offset(widths, row + 1) <= |slots|
  {
    OffsetMonotone(widths, row + 1, |widths|);
    seq(widths[row], j requires 0 <= j < widths[row] => slots[Offset(widths, row) + j])
  }

  /** The jagged matrix of the given row widths whose elements are `slots` in row-major order. */
  function Unflatten(widths: seq<nat>, slots: seq<bv64>): (m: seq<seq<Double>>)
    requires |slots| == Sum(widths)
    ensures |m| == |widths|
  {
    seq(|widths|, i requires 0 <= i < |widths| => DecodeRow(RowSlots(widths, slots, i)))
  }

  /** Whatever the buffer holds, its matrix view has exactly the given row widths. */
  lemma UnflattenShape(widths: seq<nat>, slots: seq<bv64>)
    requires |slots| == Sum(widths)
    ensures ShapeOf(Unflatten(widths, slots)) == widths
  {
    var m := Unflatten(widths, slots);
    forall i | 0 <= i < |widths|
      ensures ShapeOf(m)[i] == widths[i]
    {
      UnflattenRow(widths, slots, i);
    }
  }

  /** Row `row` of the matrix view decodes exactly that row's slots. */
  lemma UnflattenRow(widths: seq<nat>, slots: seq<bv64>, row: nat)
    requires |slots| == Sum(widths) && row < |widths|
    ensures |Unflatten(widths, slots)| == |widths|
    ensures Unflatten(widths, slots)[row] == DecodeRow(RowSlots(widths, slots, row))
  {
  }

  /** In the layout of any rows that include row `i`, the element at (i, j) is in slot Offset(i) + j. */
  lemma {:induction false} FlattenRowsAt(m: seq<seq<Double>>, rows: nat, i: nat, j: nat)
    requires i < rows <= |m| && j < |m[i]|
    ensures Offset(ShapeOf(m), i) + j < |FlattenRows(m, rows)|
    ensures FlattenRows(m, rows)[Offset(ShapeOf(m), i) + j] == DoubleToRawLongBits(m[i][j])
  {
    var w := ShapeOf(m);
    assert w[i] == |m[i]|;
    OffsetMonotone(w, i + 1, rows);
    var prefix := FlattenRows(m, rows - 1);
    assert FlattenRows(m, rows) == prefix + EncodeRow(m[rows - 1]);
    if i < rows - 1 {
      FlattenRowsAt(m, rows - 1, i, j);
    } else {
      assert Offset(w, i) + j == |prefix| + j;
    }
  }

  /** The element at (i, j) of a matrix is in slot Offset(i) + j of its layout. */
  lemma FlattenAt(m: seq<seq<Double>>, i: nat, j: nat)
    requires i < |m| && j < |m[i]|
    ensures Offset(ShapeOf(m), i) + j < |Flatten(m)|
    ensures Flatten(m)[Offset(ShapeOf(m), i) + j] == DoubleToRawLongBits(m[i][j])
  {
    FlattenRowsAt(m, |m|, i, j);
  }

  /** Round trip: laying a matrix out and reading it back by its own row widths gives the matrix. */
  lemma UnflattenFlatten(m: seq<seq<Double>>)
    ensures Unflatten(ShapeOf(m), Flatten(m)) == m
  {
    var w, flat := ShapeOf(m), Flatten(m);
    var u := Unflatten(w, flat);
    forall i | 0 <= i < |m|
      ensures u[i] == m[i]
    {
      UnflattenRow(w, flat, i);
      forall j | 0 <= j < |m[i]|
        ensures u[i][j] == m[i][j]
      {
        FlattenAt(m, i, j);
        UnflattenAt(w, flat, i, j);
      }
    }
  }

  /** The element at a valid coordinate is the decoded pattern in its slot. */
  lemma UnflattenAt(widths: seq<nat>, slots: seq<bv64>, row: int, col: int)
    requires |slots| == Sum(widths)
    requires ValidCoordinate(widths, row, col)
    ensures Offset(widths, row) + col < |slots|
    ensures Unflatten(widths, slots)[row][col] == LongBitsToDouble(slots[Offset(widths, row) + col])
  {
    IndexInBounds(widths, row, col);
    UnflattenRow(widths, slots, row);
  }

  /** Round trip the other way: reading a buffer as a matrix and laying it out again gives the buffer. */
  lemma FlattenUnflatten(widths: seq<nat>, slots: seq<bv64>)
    requires |slots| == Sum(widths)
    ensures Flatten(Unflatten(widths, slots)) == slots
  {
    var m := Unflatten(widths, slots);
    UnflattenShape(widths, slots);
    var flat := Flatten(m);
    forall k | 0 <= k < |slots|
      ensures flat[k] == slots[k]
    {
      var rc := Locate(widths, k);
      var v := m[rc.0][rc.1];
      assert flat[k] == DoubleToRawLongBits(v) by {
        FlattenAt(m, rc.0, rc.1);
      }
      assert v == LongBitsToDouble(slots[k]) by {
        UnflattenAt(widths, slots, rc.0, rc.1);
      }
    }
    assert |flat| == |slots|;
  }

  /** A write outside a row's slots does not change what the row reads. */
  lemma RowSlotsWriteElsewhere(widths: seq<nat>, slots: seq<bv64>, i: nat, k: nat, bits: bv64)
    requires |slots| == Sum(widths) && i < |widths| && k < |slots|
    requires k < Offset(widths, i) || Offset(widths, i + 1) <= k
    ensures RowSlots(widths, slots[k := bits], i) == RowSlots(widths, slots, i)
  {
    OffsetMonotone(widths, i + 1, |widths|);
  }

  /** A write inside a row's slots changes that row's element at the same column. */
  lemma RowSlotsWriteInside(widths: seq<nat>, slots: seq<bv64>, i: nat, col: nat, bits: bv64)
    requires |slots| == Sum(widths) && i < |widths| && col < widths[i]
    ensures Offset(widths, i) + col < |slots|
    ensures RowSlots(widths, slots[Offset(widths, i) + col := bits], i) == RowSlots(widths, slots, i)[col := bits]
  {
    IndexInBounds(widths, i, col);
    var after := RowSlots(widths, slots[Offset(widths, i) + col := bits], i);
    var expected := RowSlots(widths, slots, i)[col := bits];
    forall j | 0 <= j < widths[i]
      ensures after[j] == expected[j]
    {
    }
  }

  /** Row `i` of the matrix view after writing the slot of (row, col). */
  lemma UnflattenUpdateRow(widths: seq<nat>, slots: seq<bv64>, row: nat, col: nat, bits: bv64, i: nat)
    requires |slots| == Sum(widths)
    requires ValidCoordinate(widths, row, col) && i < |widths|
    ensures Offset(widths, row) + col < |slots|
    ensures Unflatten(widths, slots[Offset(widths, row) + col := bits])[i]
         == if i == row then Unflatten(widths, slots)[i][col := LongBitsToDouble(bits)]
            else Unflatten(widths, slots)[i]
  {
    IndexInBounds(widths, row, col);
    var k := Offset(widths, row) + col;
    assert slots[Offset(widths, row) + col := bits] == slots[k := bits];
    UnflattenRow(widths, slots, i);
    UnflattenRow(widths, slots[k := bits], i);
    if i < row {
      OffsetMonotone(widths, i + 1, row);
      RowSlotsWriteElsewhere(widths, slots, i, k, bits);
    } else if i > row {
      OffsetMonotone(widths, row + 1, i);
      RowSlotsWriteElsewhere(widths, slots, i, k, bits);
    } else {
      RowSlotsWriteInside(widths, slots, i, col, bits);
    }
  }

  /**
   * Writing one slot changes exactly one element of the matrix view: the one
   * whose coordinate translates to that slot. No other row sees the write.
   */
  lemma UnflattenUpdate(widths: seq<nat>, slots: seq<bv64>, row: int, col: int, bits: bv64)
    requires |slots| == Sum(widths)
    requires ValidCoordinate(widths, row, col)
    ensures Offset(widths, row) + col < |slots|
    ensures Unflatten(widths, slots[Offset(widths, row) + col := bits])
         == Assign(Unflatten(widths, slots), row, col, LongBitsToDouble(bits))
  {
    IndexInBounds(widths, row, col);
    var before := Unflatten(widths, slots);
    var after := Unflatten(widths, slots[Offset(widths, row) + col := bits]);
    UnflattenRow(widths, slots, row);
    var expected := before[row := before[row][col := LongBitsToDouble(bits)]];
    forall i | 0 <= i < |widths|
      ensures after[i] == expected[i]
    {
      UnflattenUpdateRow(widths, slots, row, col, bits, i);
    }
    assert after == expected;
  }
}
