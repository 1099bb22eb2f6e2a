/**
 * Java doubles as the matrix stores them: by their raw 64-bit IEEE-754 bit
 * pattern. Nothing here interprets the bits as a number; a double is known
 * only by its pattern, so two doubles are equal exactly when their patterns
 * are (NaN payloads and the sign of zero included).
 */
module DoubleBits {

  /** A Java `double`, identified by its raw bit pattern. */
  datatype Double = DoubleValue(raw: bv64)

  /** The double +0.0, whose raw pattern is all zeros: what `new double[n]` holds. */
  const PositiveZero: Double := DoubleValue(0)

  /** `Double.doubleToRawLongBits`: the pattern itself, with no NaN canonicalisation. */
  function DoubleToRawLongBits(d: Double): (bits: bv64)
  {
    d.raw
  }

  /** `Double.longBitsToDouble`: the double whose pattern is `bits`. */
  function LongBitsToDouble(bits: bv64): (d: Double)
    ensures DoubleToRawLongBits(d) == bits
  {
    DoubleValue(bits)
  }

  /** Java's widening of a non-negative `int` to a `long`: the same number, as a 64-bit pattern. */
  function IntToLong(x: int): (bits: bv64)
    requires 0 <= x < 0x8000_0000
  {
    x as bv64
  }

  /** The two reinterpretations are mutually inverse, in both directions. */
  lemma BitsRoundTrip(d: Double, bits: bv64)
    ensures LongBitsToDouble(DoubleToRawLongBits(d)) == d
    ensures DoubleToRawLongBits(LongBitsToDouble(bits)) == bits
  {
  }

  /** Raw-bit equality is the equality the compare-and-set operations test. */
  lemma BitsEqualIffSame(a: Double, b: Double)
    ensures DoubleToRawLongBits(a) == DoubleToRawLongBits(b) <==> a == b
  {
  }

  /** The patterns of a row of doubles, element by element. */
  function EncodeRow(row: seq<Double>): (bits: seq<bv64>)
    ensures |bits| == |row|
    ensures forall j :: 0 <= j < |row| ==> LongBitsToDouble(bits[j]) == row[j]
  {
    seq(|row|, j requires 0 <= j < |row| => DoubleToRawLongBits(row[j]))
  }

  /** The doubles of a row of patterns, element by element. */
  function DecodeRow(bits: seq<bv64>): (row: seq<Double>)
    ensures |row| == |bits|
    ensures forall j :: 0 <= j < |bits| ==> DoubleToRawLongBits(row[j]) == bits[j]
  {
    seq(|bits|, j requires 0 <= j < |bits| => LongBitsToDouble(bits[j]))
  }

  /** Encoding one more element of a row, after any prefix, appends that element's pattern. */
  lemma EncodeRowSnoc(prefix: seq<bv64>, row: seq<Double>, j: nat)
    requires j < |row|
    ensures prefix + EncodeRow(row[..j + 1]) == prefix + EncodeRow(row[..j]) + [DoubleToRawLongBits(row[j])]
  {
    var last := [DoubleToRawLongBits(row[j])];
    assert EncodeRow(row[..j + 1]) == EncodeRow(row[..j]) + last;
    assert prefix + (EncodeRow(row[..j]) + last) == prefix + EncodeRow(row[..j]) + last;
  }

  /** Decoding undoes encoding and encoding undoes decoding. */
  lemma RowRoundTrip(row: seq<Double>, bits: seq<bv64>)
    ensures DecodeRow(EncodeRow(row)) == row
    ensures EncodeRow(DecodeRow(bits)) == bits
  {
  }
}
