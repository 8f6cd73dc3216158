/** Scalars in a binary PLY body. */
module PlyScalar {
  import opened Words
  import opened PlyHeaderSpec

  /** What a ply_scalar holds: 32 bits, or, before its conversion to double, the two halves of a 64-bit
      pattern. */
  datatype Scalar = Narrow(word: bv32) | Wide(high: bv32, low: bv32)

  function Size(t: PlyType): (n: nat)
    ensures 1 <= n <= 8
  {
    match t
    case Int8 => 1 case Uint8 => 1
    case Int16 => 2 case Uint16 => 2
    case Int32 => 4 case Uint32 => 4 case Float32 => 4
    case Float64 => 8
  }

  /** The scalar made of its bytes, least significant first; short ones are extended with zeros. */
  function FromBytes(t: PlyType, b: Bytes): Scalar
    requires |b| == Size(t)
  {
    match Size(t)
    case 1 => Narrow(Join(b[0], 0, 0, 0))
    case 2 => Narrow(Join(b[0], b[1], 0, 0))
    case 4 => Narrow(Join(b[0], b[1], b[2], b[3]))
    case _ => Wide(Join(b[4], b[5], b[6], b[7]), Join(b[0], b[1], b[2], b[3]))
  }

  function Reversed(b: Bytes): (r: Bytes)
    ensures |r| == |b|
    ensures forall k :: 0 <= k < |b| ==> r[k] == b[|b| - 1 - k]
  {
    seq(|b|, k requires 0 <= k < |b| => b[|b| - 1 - k])
  }

  /** A scalar at the start of the input: its value and the input behind it; an error; or not all there. */
  datatype Read = Got(value: Scalar, rest: Bytes) | Fails(code: int, rest: Bytes) | Short

  function ReadScalar(format: Format, t: PlyType, raw: Bytes): (r: Read)
    ensures r.Got? ==> Size(t) <= |raw| && r.rest == raw[Size(t)..]
    ensures r.Fails? ==> r.rest == raw && r.code < 0
  {
    if format != LittleEndian && format != BigEndian then Fails(PLY_ERR_INTERNAL, raw)
    else if |raw| < Size(t) then Short
    else
      var b := raw[..Size(t)];
      Got(FromBytes(t, if format == LittleEndian then b else Reversed(b)), raw[Size(t)..])
  }

  // ---- an independent view: writing scalars ----

  /** The bytes of a scalar, least significant first. */
  function ToBytes(t: PlyType, v: Scalar): (b: Bytes)
    requires v.Wide? <==> t == Float64
    ensures |b| == Size(t)
  {
    match Size(t)
    case 1 => [ByteAt(v.word, 0)]
    case 2 => [ByteAt(v.word, 0), ByteAt(v.word, 1)]
    case 4 => [ByteAt(v.word, 0), ByteAt(v.word, 1), ByteAt(v.word, 2), ByteAt(v.word, 3)]
    case _ => [ByteAt(v.low, 0), ByteAt(v.low, 1), ByteAt(v.low, 2), ByteAt(v.low, 3),
               ByteAt(v.high, 0), ByteAt(v.high, 1), ByteAt(v.high, 2), ByteAt(v.high, 3)]
  }

  function WriteScalar(format: Format, t: PlyType, v: Scalar): (b: Bytes)
    requires v.Wide? <==> t == Float64
    ensures |b| == Size(t)
  {
    if format == BigEndian then Reversed(ToBytes(t, v)) else ToBytes(t, v)
  }

  predicate OneByteWide(w: bv32) {
    w & 0xFFFF_FF00 == 0
  }

  predicate TwoBytesWide(w: bv32) {
    w & 0xFFFF_0000 == 0
  }

  /** A value fits a type if it is read back from the bytes written. */
  predicate Fits(t: PlyType, v: Scalar) {
    match Size(t)
    case 1 => v.Narrow? && OneByteWide(v.word)
    case 2 => v.Narrow? && TwoBytesWide(v.word)
    case 4 => v.Narrow?
    case _ => v.Wide?
  }

  lemma FromToBytes(t: PlyType, v: Scalar)
    requires v.Wide? <==> t == Float64
    ensures FromBytes(t, ToBytes(t, v)) == v <==> Fits(t, v)
  {
    hide ByteAt, Join, OneByteWide, TwoBytesWide;
    match Size(t)
    case 1 => OneByte(v.word);
    case 2 => TwoBytes(v.word);
    case 4 => JoinOfBytes(v.word);
    case _ => JoinOfBytes(v.low); JoinOfBytes(v.high);
  }

  lemma OneByte(w: bv32)
    ensures Join(ByteAt(w, 0), 0, 0, 0) == w <==> OneByteWide(w)
  {}

  lemma TwoBytes(w: bv32)
    ensures Join(ByteAt(w, 0), ByteAt(w, 1), 0, 0) == w <==> TwoBytesWide(w)
  {}

  lemma ReversedTwice(b: Bytes)
    ensures Reversed(Reversed(b)) == b
  {}

  /** In both byte orders, exactly the values that fit a type are read back from the bytes written for it,
      whatever follows them. */
  lemma ReadsBack(format: Format, t: PlyType, v: Scalar, rest: Bytes)
    requires (v.Wide? <==> t == Float64) && (format == LittleEndian || format == BigEndian)
    ensures ReadScalar(format, t, WriteScalar(format, t, v) + rest) == Got(v, rest) <==> Fits(t, v)
  {
    hide FromBytes, ToBytes, Fits;
    var b := WriteScalar(format, t, v);
    assert (b + rest)[..Size(t)] == b && (b + rest)[Size(t)..] == rest;
    ReversedTwice(ToBytes(t, v));
    FromToBytes(t, v);
  }

  /** The readers extend with zeros: an int8 or int16 never comes out negative. */
  lemma ShortNeverNegative(format: Format, t: PlyType, raw: Bytes)
    requires (t == Int8 || t == Int16) && ReadScalar(format, t, raw).Got?
    ensures ReadScalar(format, t, raw).value.Narrow? && Words.Int32(ReadScalar(format, t, raw).value.word) >= 0
  {
    var b := if format == LittleEndian then raw[..Size(t)] else Reversed(raw[..Size(t)]);
    TopClear(b[0], if t == Int8 then 0 else b[1]);
  }

  lemma TopClear(a: byte, b: byte)
    ensures Join(a, b, 0, 0) & 0x8000_0000 == 0
  {}

  /** ply_read_scalar_le and ply_read_scalar_be: the value, and the number of bytes or an error. */
  method ReadBinary(format: Format, raw: array<byte>, at: nat, t: PlyType) returns (r: int, value: Scalar)
    requires format == LittleEndian || format == BigEndian ==> at + Size(t) <= raw.Length
    ensures if format == LittleEndian then r == Size(t) && value == FromBytes(t, raw[at..at + Size(t)])
            else if format == BigEndian then r == Size(t) && value == FromBytes(t, Reversed(raw[at..at + Size(t)]))
            else r == PLY_ERR_INTERNAL
  {
    value := Narrow(0);
    if format == LittleEndian {
      value := ReadLittle(raw, at, t);
      r := Size(t);
    } else if format == BigEndian {
      value := ReadBig(raw, at, t);
      r := Size(t);
    } else {
      r := PLY_ERR_INTERNAL;
    }
  }

  /** Four bytes shifted together, least significant first. */
  method Shifted(a: byte, b: byte, c: byte, d: byte) returns (w: bv32)
    ensures w == Join(a, b, c, d)
  {
    w := a as bv32;
    w := w | ((b as bv32) << 8);
    w := w | ((c as bv32) << 16);
    w := w | ((d as bv32) << 24);
  }

  method ReadLittle(raw: array<byte>, at: nat, t: PlyType) returns (value: Scalar)
    requires at + Size(t) <= raw.Length
    ensures value == FromBytes(t, raw[at..at + Size(t)])
  {
    hide Join;
    ghost var b := raw[at..at + Size(t)];
    var low, high;
    match t
    case Int8 | Uint8 =>
      low := Shifted(raw[at], 0, 0, 0);
      value := Narrow(low);
    case Int16 | Uint16 =>
      assert b[0] == raw[at] && b[1] == raw[at + 1];
      low := Shifted(raw[at], raw[at + 1], 0, 0);
      value := Narrow(low);
    case Int32 | Uint32 | Float32 =>
      assert b[0] == raw[at] && b[1] == raw[at + 1] && b[2] == raw[at + 2] && b[3] == raw[at + 3];
      low := Shifted(raw[at], raw[at + 1], raw[at + 2], raw[at + 3]);
      value := Narrow(low);
    case Float64 =>
      assert b[0] == raw[at] && b[1] == raw[at + 1] && b[2] == raw[at + 2] && b[3] == raw[at + 3];
      assert b[4] == raw[at + 4] && b[5] == raw[at + 5] && b[6] == raw[at + 6] && b[7] == raw[at + 7];
      low := Shifted(raw[at], raw[at + 1], raw[at + 2], raw[at + 3]);
      high := Shifted(raw[at + 4], raw[at + 5], raw[at + 6], raw[at + 7]);
      value := Wide(high, low);
  }

  method ReadBig(raw: array<byte>, at: nat, t: PlyType) returns (value: Scalar)
    requires at + Size(t) <= raw.Length
    ensures value == FromBytes(t, Reversed(raw[at..at + Size(t)]))
  {
    hide Join, Reversed;
    ghost var b := Reversed(raw[at..at + Size(t)]);
    var low, high;
    match t
    case Int8 | Uint8 =>
      low := Shifted(raw[at], 0, 0, 0);
      value := Narrow(low);
    case Int16 | Uint16 =>
      assert b[0] == raw[at + 1] && b[1] == raw[at];
      low := Shifted(raw[at + 1], raw[at], 0, 0);
      value := Narrow(low);
    case Int32 | Uint32 | Float32 =>
      assert b[0] == raw[at + 3] && b[1] == raw[at + 2] && b[2] == raw[at + 1] && b[3] == raw[at];
      low := Shifted(raw[at + 3], raw[at + 2], raw[at + 1], raw[at]);
      value := Narrow(low);
    case Float64 =>
      assert b[0] == raw[at + 7] && b[1] == raw[at + 6] && b[2] == raw[at + 5] && b[3] == raw[at + 4];
      assert b[4] == raw[at + 3] && b[5] == raw[at + 2] && b[6] == raw[at + 1] && b[7] == raw[at];
      low := Shifted(raw[at + 7], raw[at + 6], raw[at + 5], raw[at + 4]);
      high := Shifted(raw[at + 3], raw[at + 2], raw[at + 1], raw[at]);
      value := Wide(high, low);
  }
}
