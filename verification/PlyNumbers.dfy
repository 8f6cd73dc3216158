/** The numbers that the bytes of a body stand for. */
module PlyNumbers {
  import opened Words
  import opened PlyHeaderSpec
  import opened PlyScalar
  import opened PlyDecoder

  /** The least significant byte first. */
  function Rising(b: Bytes): nat {
    if b == [] then 0 else ByteValue(b[0]) + 256 * Rising(b[1..])
  }

  /** The most significant byte first. */
  function Falling(b: Bytes): nat {
    if b == [] then 0 else 256 * Falling(b[..|b| - 1]) + ByteValue(b[|b| - 1])
  }

  /** The number at the start of the body, if it is that long. */
  function NumberAt(format: Format, width: nat, raw: Bytes): nat
    requires width <= |raw|
  {
    if format == LittleEndian then Rising(raw[..width]) else Falling(raw[..width])
  }

  function Width(t: PlyType): nat {
    if t == Int8 || t == Uint8 then 1 else if t == Int16 || t == Uint16 then 2 else if t == Float64 then 8 else 4
  }

  function NumberIn(v: Scalar): nat {
    match v
    case Narrow(word) => Words.Value(word)
    case Wide(high, low) => 0x1_0000_0000 * Words.Value(high) + Words.Value(low)
  }

  lemma {:induction false} FallingReversed(b: Bytes)
    ensures Falling(b) == Rising(Reversed(b))
  {
    hide ByteValue;
    if b != [] {
      var front := b[..|b| - 1];
      FallingReversed(front);
      assert Reversed(b)[1..] == Reversed(front);
    }
  }

  lemma RisingOne(b: Bytes)
    requires |b| == 1
    ensures Rising(b) == ByteValue(b[0])
  {
    hide ByteValue;
  }

  lemma RisingTwo(b: Bytes)
    requires |b| == 2
    ensures Rising(b) == ByteValue(b[0]) + 0x100 * ByteValue(b[1])
  {
    hide ByteValue;
    RisingOne(b[1..]);
  }

  lemma RisingFour(b: Bytes)
    requires |b| == 4
    ensures Rising(b) == FourBytes(ByteValue(b[0]), ByteValue(b[1]), ByteValue(b[2]), ByteValue(b[3]))
  {
    hide ByteValue;
    assert b[1..][1..] == b[2..];
    RisingTwo(b[2..]);
  }

  lemma RisingNext(b: Bytes, k: nat)
    requires k < |b|
    ensures Rising(b[k..]) == ByteValue(b[k]) + 256 * Rising(b[k + 1..])
  {
    hide ByteValue;
    assert b[k..][1..] == b[k + 1..];
  }

  lemma RisingEight(b: Bytes)
    requires |b| == 8
    ensures Rising(b) == Rising(b[..4]) + 0x1_0000_0000 * Rising(b[4..])
  {
    hide ByteValue, Rising;
    RisingFour(b[..4]);
    RisingNext(b, 0);
    RisingNext(b, 1);
    RisingNext(b, 2);
    RisingNext(b, 3);
    assert b[0..] == b;
  }

  lemma JoinNumber(a: byte, b: byte, c: byte, d: byte)
    ensures Words.Value(Join(a, b, c, d)) == FourBytes(ByteValue(a), ByteValue(b), ByteValue(c), ByteValue(d))
  {
    hide ByteValue, Join;
    BytesOfJoin(a, b, c, d);
  }

  lemma ZeroValue()
    ensures ByteValue(0) == 0
  {}

  lemma EightNumber(b: Bytes)
    requires |b| == 8
    ensures NumberIn(Wide(Join(b[4], b[5], b[6], b[7]), Join(b[0], b[1], b[2], b[3]))) == Rising(b)
  {
    hide ByteValue, Join, Words.Value, Rising, FourBytes;
    JoinNumber(b[0], b[1], b[2], b[3]);
    JoinNumber(b[4], b[5], b[6], b[7]);
    RisingFour(b[..4]);
    RisingFour(b[4..]);
    RisingEight(b);
  }

  lemma OneNumber(b: Bytes)
    requires |b| == 1
    ensures NumberIn(Narrow(Join(b[0], 0, 0, 0))) == Rising(b)
  {
    hide ByteValue, Join, Words.Value, Rising;
    ZeroValue();
    JoinNumber(b[0], 0, 0, 0);
    RisingOne(b);
  }

  lemma TwoNumber(b: Bytes)
    requires |b| == 2
    ensures NumberIn(Narrow(Join(b[0], b[1], 0, 0))) == Rising(b)
  {
    hide ByteValue, Join, Words.Value, Rising;
    ZeroValue();
    JoinNumber(b[0], b[1], 0, 0);
    RisingTwo(b);
  }

  lemma FourNumber(b: Bytes)
    requires |b| == 4
    ensures NumberIn(Narrow(Join(b[0], b[1], b[2], b[3]))) == Rising(b)
  {
    hide ByteValue, Join, Words.Value, Rising, FourBytes;
    JoinNumber(b[0], b[1], b[2], b[3]);
    RisingFour(b);
  }

  lemma FromBytesNumber(t: PlyType, b: Bytes)
    requires |b| == Size(t)
    ensures NumberIn(FromBytes(t, b)) == Rising(b) && (FromBytes(t, b).Wide? <==> t == Float64)
  {
    hide Join, Rising, NumberIn;
    match Size(t)
    case 1 => OneNumber(b);
    case 2 => TwoNumber(b);
    case 4 => FourNumber(b);
    case _ => EightNumber(b);
  }

  /** What is read is the number its bytes stand for in the order the format names, all of them and no more. */
  lemma NumberRead(format: Format, t: PlyType, raw: Bytes)
    requires format == LittleEndian || format == BigEndian
    ensures ReadScalar(format, t, raw).Got? <==> |raw| >= Width(t)
    ensures |raw| >= Width(t) ==>
            var r := ReadScalar(format, t, raw);
            r.rest == raw[Width(t)..] && NumberIn(r.value) == NumberAt(format, Width(t), raw) &&
            (r.value.Wide? <==> t == Float64)
  {
    hide FromBytes, Rising, Falling, NumberIn;
    if |raw| >= Width(t) {
      var b := raw[..Size(t)];
      FallingReversed(b);
      FromBytesNumber(t, if format == LittleEndian then b else Reversed(b));
    }
  }

  /** The length of a list: the number its bytes stand for, but an int32 from two to the 31 on is negative and
      refused, as every floating-point length is. */
  lemma LengthExactly(format: Format, p: PropertySpec, raw: Bytes)
    requires (format == LittleEndian || format == BigEndian) && p.isList && |raw| >= Width(p.lengthType)
    ensures var width := Width(p.lengthType);
            var n, rest := NumberAt(format, width, raw), raw[width..];
            var r := ReadValue(format, p, raw);
            if p.lengthType == Float32 || p.lengthType == Float64 || (p.lengthType == Int32 && n >= 0x8000_0000)
            then r == Fails(-140, rest)
            else r.Got? && r.rest == rest && r.value.Narrow? && Words.Value(r.value.word) == n
  {
    hide ReadScalar, NumberAt, Words.Value, Words.Int32;
    NumberRead(format, p.lengthType, raw);
    var r := ReadScalar(format, p.lengthType, raw);
    if r.value.Narrow? {
      SignOfWord(r.value.word);
      if p.lengthType == Int8 || p.lengthType == Int16 { ShortNeverNegative(format, p.lengthType, raw); }
    }
  }

  lemma SignOfWord(w: bv32)
    ensures Words.Int32(w) < 0 <==> Words.Value(w) >= 0x8000_0000
  {
    hide Words.Value;
    TopBit(w);
  }
}
