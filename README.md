# AtomicDoubleMatrix in Dafny

This project models `AtomicDoubleMatrix` (AtomicDoubleArray.java), a matrix of
doubles whose elements can be updated atomically. The matrix may be jagged: its
rows can have different widths. The class stores the matrix in one flat
`AtomicLongArray` of 64-bit bit patterns (`longs`), laid out row by row. A side
array `colNumbers` holds each row's width, and `noElements` holds the total
element count; both are fixed at construction. Most operations on one element
first turn a (row, col) coordinate into a flat index with `rowColsToIndex`: the
widths of the earlier rows, added up, plus col. `set`, `lazySet`, `getAndSet`,
`compareAndSet`, `weakCompareAndSet`, `getAndAdd` and `addAndGet` then write,
swap or compare-and-set that slot. `get(row, col)` and `getRow` compute the
index too, but as written they decode the index itself and never read the
slot; `getDirectly(i)` likewise decodes `i` (see Findings). `setDirectly` takes
a flat index. The whole-matrix `get()` and `set(double[][])` do not translate
coordinates: they walk the store in row-major order with a running counter.

The model has three modules:

- `DoubleBits` (DoubleBits.dfy): a Java `double` known only by its raw bit
  pattern (`Double`). It also has `doubleToRawLongBits`/`longBitsToDouble` as
  mutually inverse reinterpretations, and the element-wise encoding of a row.
- `JaggedLayout` (JaggedLayout.dfy): the specification of the flat layout.
  - `Offset` and `Sum` are prefix sums of row widths, and `FlatIndex` is the
    address translation.
  - `Locate` is the inverse of the address translation.
  - `Flatten` lays a matrix out row by row; `Unflatten` reads a buffer back as
    a matrix of given row widths.
  - `Assign` replaces one element.
  - The lemmas relate these functions: round trips, injectivity, bounds, and
    the effect of writing one slot.
- `AtomicDoubleArray` (AtomicDoubleArray.dfy): the class `AtomicDoubleMatrix`.
  - Its fields are `longs: array<bv64>`, `colNumbers: array<nat>` and
    `noElements`.
  - It has the source's loops and the source's operations. The two
    constructors (the matrix copy and `FromDimensions`) set all three fields.
    `Length` and `GetNoRows` are functions. Every other operation is a method,
    and the mutators change only `longs`.
  - `Matrix()` is the matrix the object represents: `Unflatten(colNumbers,
    longs)`. The contracts of the constructors, of the readers `Get`, `GetRow`,
    `GetMatrix` and `GetDirectly`, and of every mutator say what happens to
    the store and, through `Matrix()`, to the matrix. The rest state their
    result directly: `RowColsToIndex` as an offset, `CountElements` and
    `CopyElements` through `ShapeOf`, `Sum` and `Flatten`, the as-written
    getters as decoded indices, and `SlotGetAndSet`/`SlotCompareAndSet` on the
    slots.

The model is sequential. Each primitive of the backing `AtomicLongArray` (get,
set, getAndSet, compareAndSet) is one step, modelled by `SlotGetAndSet` and
`SlotCompareAndSet` or by a direct array access.

## Model

| member | source | states |
|---|---|---|
| AtomicDoubleArray.AtomicDoubleMatrix.constructor | AtomicDoubleArray.java:40-58 | the row widths are the input's row lengths; `noElements` is their sum; the store holds every element's raw bits in row-major order; the object represents the input matrix bit for bit |
| AtomicDoubleArray.AtomicDoubleMatrix.CountElements | AtomicDoubleArray.java:41-48 | the first pass of the constructor: a fresh width array equal to the input's row lengths, and a count equal to their sum |
| AtomicDoubleArray.AtomicDoubleMatrix.CopyElements | AtomicDoubleArray.java:49-56 | the second pass of the constructor: a fresh buffer of `count` slots equal to the row-major layout of the input |
| AtomicDoubleArray.AtomicDoubleMatrix.FromDimensions | AtomicDoubleArray.java:28-30 | a rows-by-cols matrix: every row has width cols, there are rows*cols elements, and every element is +0.0 |
| AtomicDoubleArray.AtomicDoubleMatrix.RowColsToIndex | AtomicDoubleArray.java:60-66 | the loop returns the sum of the widths of rows 0..row-1, plus col; a negative row adds up no widths |
| JaggedLayout.IndexInBounds | AtomicDoubleArray.java:60-66 | the flat index of a valid coordinate lies inside its own row's slots, and so below the element count |
| JaggedLayout.FlatIndex | AtomicDoubleArray.java:60-66 | the flat index of a valid coordinate is below the element count |
| JaggedLayout.IndexInjective | AtomicDoubleArray.java:60-66 | distinct valid coordinates, in one row or in two, have distinct flat indices |
| JaggedLayout.Locate | AtomicDoubleArray.java:60-66 | every slot below the element count is the flat index of some valid coordinate |
| JaggedLayout.LocateIndex | AtomicDoubleArray.java:60-66 | locating the flat index of a valid coordinate gives back that coordinate |
| JaggedLayout.OffsetMonotone | AtomicDoubleArray.java:62-64 | later rows start at or after earlier rows |
| JaggedLayout.OffsetRectangle | AtomicDoubleArray.java:28-30 | in a rectangle of width cols, row k starts at k*cols |
| AtomicDoubleArray.AtomicDoubleMatrix.Length | AtomicDoubleArray.java:74-76 | the element count equals the store's length and the sum of the row widths |
| AtomicDoubleArray.AtomicDoubleMatrix.GetNoRows | AtomicDoubleArray.java:78-80 | the row count equals the number of row widths and the number of rows of the represented matrix |
| AtomicDoubleArray.AtomicDoubleMatrix.Get | AtomicDoubleArray.java:82-90 | the current value of the element at a valid coordinate |
| AtomicDoubleArray.AtomicDoubleMatrix.GetRow | AtomicDoubleArray.java:97-103 | a copy of the current row, element by element |
| AtomicDoubleArray.AtomicDoubleMatrix.GetMatrix | AtomicDoubleArray.java:105-116 | the slots read in row-major order are exactly the represented matrix, and its row widths are `colNumbers` |
| AtomicDoubleArray.AtomicDoubleMatrix.GetDirectly | AtomicDoubleArray.java:118-120 | the decoded value in slot i, which is the element at the coordinate that slot i belongs to |
| AtomicDoubleArray.AtomicDoubleMatrix.GetAsWritten | AtomicDoubleArray.java:88-90 | as written, get returns the double whose bit pattern is the flat index, widened from `int` to `long` (`IntToLong`), not the slot's contents |
| AtomicDoubleArray.AtomicDoubleMatrix.GetRowAsWritten | AtomicDoubleArray.java:97-103 | as written, element i of getRow is the double whose bit pattern is the flat index of (row, i) |
| AtomicDoubleArray.AtomicDoubleMatrix.GetDirectlyAsWritten | AtomicDoubleArray.java:118-120 | as written, getDirectly(i) returns the double whose bit pattern is i |
| AtomicDoubleArray.IndexDecodingDiffers | AtomicDoubleArray.java:89 | for a matrix holding x at (0, 0) with x other than +0.0, decoding the flat index gives something other than the stored element |
| AtomicDoubleArray.AtomicDoubleMatrix.Set | AtomicDoubleArray.java:122-131 | exactly the slot of (row, col) now holds the new value's bits; the represented matrix changes in that one element; the row widths and count do not change |
| AtomicDoubleArray.AtomicDoubleMatrix.SetMatrix | AtomicDoubleArray.java:133-141 | slots 0 onwards are overwritten with the new matrix's bits in row-major order and the rest keep their contents; when the new matrix has the object's row widths, the object then represents it |
| AtomicDoubleArray.AtomicDoubleMatrix.SetDirectly | AtomicDoubleArray.java:143-146 | slot i now holds the new value's bits, which changes exactly the element that slot belongs to |
| AtomicDoubleArray.AtomicDoubleMatrix.LazySet | AtomicDoubleArray.java:148-159 | the same effect as Set |
| AtomicDoubleArray.AtomicDoubleMatrix.GetAndSet | AtomicDoubleArray.java:161-172 | returns the element's previous value, and has the same effect as Set |
| AtomicDoubleArray.AtomicDoubleMatrix.CompareAndSet | AtomicDoubleArray.java:174-190 | swaps exactly when the slot's bits equal the expected value's bits, that is exactly when the element is the expected double (raw-bit equality); on success the element becomes the update; on failure nothing changes |
| AtomicDoubleArray.AtomicDoubleMatrix.WeakCompareAndSet | AtomicDoubleArray.java:192-213 | swaps exactly when it does not fail spuriously and the element is the expected double; on success it behaves as CompareAndSet, and on failure nothing changes |
| AtomicDoubleArray.AtomicDoubleMatrix.GetAndAdd | AtomicDoubleArray.java:215-233 | returns the element's previous value; the element then holds previous + delta, and nothing else changes |
| AtomicDoubleArray.AtomicDoubleMatrix.AddAndGet | AtomicDoubleArray.java:235-253 | returns previous + delta, which the element then holds, and nothing else changes |
| AtomicDoubleArray.AtomicDoubleMatrix.SlotGetAndSet | AtomicDoubleArray.java:171 | the store primitive `getAndSet`: returns the slot's old bits and writes only that slot |
| AtomicDoubleArray.AtomicDoubleMatrix.SlotCompareAndSet | AtomicDoubleArray.java:187-189 | the store primitive `compareAndSet`: writes the slot exactly when its bits equal the expected bits, and otherwise changes nothing |
| JaggedLayout.UnflattenFlatten | AtomicDoubleArray.java:40-58 | reading the row-major layout of a matrix back by its own row widths gives the matrix: construction followed by get() is the identity |
| JaggedLayout.FlattenUnflatten | AtomicDoubleArray.java:105-116 | laying out the matrix view of a buffer gives back the buffer, so get() loses nothing of the store |
| JaggedLayout.FlattenAt | AtomicDoubleArray.java:51-56 | the element at (i, j) is stored, as its raw bits, at slot Offset(i) + j of the layout |
| JaggedLayout.FlattenRowsAt | AtomicDoubleArray.java:51-56 | the same placement holds in the layout of every run of leading rows that includes row i |
| JaggedLayout.UnflattenAt | AtomicDoubleArray.java:108-113 | the matrix view's element at a valid coordinate is the decoded pattern in that coordinate's slot |
| JaggedLayout.UnflattenShape | AtomicDoubleArray.java:107-109 | the matrix view of any buffer has exactly the given row widths |
| JaggedLayout.UnflattenUpdate | AtomicDoubleArray.java:128-131 | writing the slot of (row, col) changes the matrix view in that one element, and in no other row or column |
| JaggedLayout.UnflattenUpdateRow | AtomicDoubleArray.java:128-131 | after writing the slot of (row, col), row `row` of the matrix view differs in column col only, and every other row is unchanged |
| JaggedLayout.RowSlotsWriteElsewhere | AtomicDoubleArray.java:128-131 | a write to a slot outside a row's slots leaves that row's slots as they were |
| JaggedLayout.RowSlotsWriteInside | AtomicDoubleArray.java:128-131 | a write to the slot of (i, col) changes row i's slots at column col only |
| JaggedLayout.UnflattenRow | AtomicDoubleArray.java:108-113 | row `row` of the matrix view is the decoding of exactly the slots from Offset(row) to Offset(row + 1) |
| JaggedLayout.LocateInRows | AtomicDoubleArray.java:60-66 | a slot below the start of row `rows` belongs to a valid coordinate in one of the first `rows` rows |
| JaggedLayout.AssignEffect | AtomicDoubleArray.java:128-131 | replacing one element keeps the shape and every other element |
| JaggedLayout.OverwriteStep | AtomicDoubleArray.java:136-139 | writing the slot just after an overwritten prefix extends that prefix by one slot |
| DoubleBits.LongBitsToDouble | AtomicDoubleArray.java:7-8 | reinterpreting a bit pattern and reading its bits back gives the pattern |
| DoubleBits.BitsRoundTrip | AtomicDoubleArray.java:7-8 | `doubleToRawLongBits` and `longBitsToDouble` (the JDK operations `DoubleToRawLongBits` and `LongBitsToDouble` stand for) are mutually inverse |
| DoubleBits.BitsEqualIffSame | AtomicDoubleArray.java:174-190 | two doubles have equal raw bits exactly when they are the same double, so compare-and-set by bits is compare-and-set by value |
| DoubleBits.RowRoundTrip | AtomicDoubleArray.java:51-56 | encoding a row of doubles as bits and decoding it again is the identity, in both directions |

## Left out

- Concurrency and memory ordering are not modelled. The model has one thread
  and covers neither the atomicity of the backing `AtomicLongArray` nor the
  ordering `lazySet` and `weakCompareAndSet` are meant to relax.
- WeakCompareAndSet: whether it fails spuriously is the parameter
  `spuriousFailure`, because that choice belongs to the platform.
- GetAndAdd, AddAndGet: floating-point addition is the parameter `add`, since
  the model has no IEEE-754 arithmetic. Read sequentially, the retry loop's
  first compare-and-set succeeds. The model keeps the loop but does not model
  the retries caused by other threads.
- IEEE-754 semantics are not modelled: a double is its raw bit pattern, and no
  NaN canonicalisation happens anywhere, just as with `doubleToRawLongBits`.
- `toString` is not modelled: it formats doubles as text. As written, it also
  reads `longs.get(i)` with the row index `i` for every element of row `i`
  (AtomicDoubleArray.java:266).
- Serialisation is not modelled: the `transient` fields and the Effective Java
  note.
- Exceptions are not modelled; the matching preconditions are:
  - null inputs cannot occur, because matrices are Dafny sequences;
  - negative dimensions for the two-argument constructor cannot occur (`nat`
    parameters);
  - every coordinate operation requires a valid coordinate (ValidCoordinate):
    an existing row and a column inside that row;
  - a row index above the row count for RowColsToIndex is excluded by its
    precondition;
  - a bulk set with more elements than the store is excluded by SetMatrix's
    precondition, where Java would throw `IndexOutOfBoundsException` after
    writing the slots that fit.
- Invalid coordinates whose computed flat index falls inside the store are not
  modelled. Java does not reject them: `rowColsToIndex` only adds up widths and
  never checks the coordinate. So `set`, `lazySet`, `getAndSet`,
  `compareAndSet`, `weakCompareAndSet`, `getAndAdd` and `addAndGet` act,
  without an exception, on whatever slot the formula gives, whenever that slot
  is inside the store. Examples: a column past the end of its row reaches a
  slot of a later row; a negative row adds up no widths, so (-1, c) reaches
  slot c; (rows, -1) reaches the last slot. ValidCoordinate excludes all of
  these, so the model covers only the documented element access. The index
  formula itself, for any row up to the row count and a negative row
  included, is RowColsToIndex's contract.
- Java's 32-bit `int` arithmetic is not modelled: counts and indices are
  unbounded integers. A Java array holds fewer than 2^31 elements, so the flat
  index of any valid coordinate fits; only the as-written getters, which
  reinterpret that index as bits, state this bound as a precondition.
- Arrays of doubles passed to or returned by the class are Dafny sequences. The
  Java methods copy them, so no aliasing between caller and object is lost.
- Get, GetRow, GetDirectly: these model the documented behaviour (the current
  value). The source decodes the index instead; see Findings.

## Findings

| source | as written | input that shows it | evidently intended | confidence | as-written member | corrected member |
|---|---|---|---|---|---|---|
| AtomicDoubleArray.java:89 | `get(row, col)` returns `longBitsToDouble(rowColsToIndex(row, col))`: the double whose bit pattern is the flat index | a matrix built from {{x}} with x not +0.0: get(0, 0) returns +0.0 instead of x | return the double in that slot, `longBitsToDouble(longs.get(index))`, as the documentation ("the current value") says | high, not executed | AtomicDoubleArray.AtomicDoubleMatrix.GetAsWritten, AtomicDoubleArray.IndexDecodingDiffers | AtomicDoubleArray.AtomicDoubleMatrix.Get |
| AtomicDoubleArray.java:100 | `getRow(row)` fills element i with `longBitsToDouble(rowColsToIndex(row, i))` | a matrix built from {{x}} with x not +0.0: getRow(0) returns {+0.0} instead of {x} | element i is the double in slot `rowColsToIndex(row, i)` | high, not executed | AtomicDoubleArray.AtomicDoubleMatrix.GetRowAsWritten, AtomicDoubleArray.IndexDecodingDiffers | AtomicDoubleArray.AtomicDoubleMatrix.GetRow |
| AtomicDoubleArray.java:119 | `getDirectly(i)` returns `longBitsToDouble(i)` | a matrix built from {{x}} with x not +0.0: getDirectly(0) returns +0.0 instead of x | return the double in slot i, as `setDirectly` writes it | high, not executed | AtomicDoubleArray.AtomicDoubleMatrix.GetDirectlyAsWritten, AtomicDoubleArray.IndexDecodingDiffers | AtomicDoubleArray.AtomicDoubleMatrix.GetDirectly |
