/** Bytes and 32-bit words, and the numbers they stand for.

    Dafny's own casts between `int` and bit-vectors are opaque to the solver, so the conversions are
    spelled out here bit by bit; what the project needs about them is proved below. */
module Words {

  type byte = bv8
  type Bytes = seq<byte>

  const WORD_BITS := 32
  const TWO_TO_THE_31: int := 0x8000_0000
  const TWO_TO_THE_32: int := 0x1_0000_0000

  /** The bits of a byte, least significant first. */
  datatype Bits = Bits(b0: bool, b1: bool, b2: bool, b3: bool, b4: bool, b5: bool, b6: bool, b7: bool)

  function Unpack(b: byte): Bits {
    Bits(b & 1 != 0, b & 2 != 0, b & 4 != 0, b & 8 != 0, b & 16 != 0, b & 32 != 0, b & 64 != 0, b & 128 != 0)
  }

  function Pack(s: Bits): byte {
    (if s.b0 then 1 else 0) | (if s.b1 then 2 else 0) | (if s.b2 then 4 else 0) | (if s.b3 then 8 else 0) |
    (if s.b4 then 16 else 0) | (if s.b5 then 32 else 0) | (if s.b6 then 64 else 0) | (if s.b7 then 128 else 0)
  }

  function Horner(digit: bool, rest: nat): nat {
    (if digit then 1 else 0) + 2 * rest
  }

  function Number(s: Bits): (n: nat)
    ensures n < 256
    ensures n >= 128 <==> s.b7
  {
    Horner(s.b0, Horner(s.b1, Horner(s.b2, Horner(s.b3, Horner(s.b4, Horner(s.b5, Horner(s.b6, Horner(s.b7, 0))))))))
  }

  function Digits(n: nat): Bits {
    var n1 := n / 2; var n2 := n1 / 2; var n3 := n2 / 2; var n4 := n3 / 2;
    var n5 := n4 / 2; var n6 := n5 / 2; var n7 := n6 / 2;
    Bits(n % 2 == 1, n1 % 2 == 1, n2 % 2 == 1, n3 % 2 == 1, n4 % 2 == 1, n5 % 2 == 1, n6 % 2 == 1, n7 % 2 == 1)
  }

  lemma HornerOfHalf(n: nat)
    ensures Horner(n % 2 == 1, n / 2) == n
  {}

  lemma NumberOfDigits(n: nat)
    requires n < 256
    ensures Number(Digits(n)) == n
  {
    var n1 := n / 2; var n2 := n1 / 2; var n3 := n2 / 2; var n4 := n3 / 2;
    var n5 := n4 / 2; var n6 := n5 / 2; var n7 := n6 / 2;
    HornerOfHalf(n); HornerOfHalf(n1); HornerOfHalf(n2); HornerOfHalf(n3);
    HornerOfHalf(n4); HornerOfHalf(n5); HornerOfHalf(n6); HornerOfHalf(n7);
    assert n7 / 2 == 0;
  }

  /** The value of a byte read as `unsigned char`. */
  function ByteValue(b: byte): (n: nat)
    ensures n < 256
  {
    Number(Unpack(b))
  }

  /** Conversion of a number to `unsigned char`. */
  function Byte(n: nat): byte {
    Pack(Digits(n))
  }

  lemma UnpackPack(s: Bits)
    ensures Unpack(Pack(s)) == s
  {}

  lemma ValueOfByte(n: nat)
    requires n < 256
    ensures ByteValue(Byte(n)) == n
  {
    UnpackPack(Digits(n));
    NumberOfDigits(n);
  }

  /** The k-th byte of a word, least significant first. */
  function ByteAt(w: bv32, k: nat): byte
    requires k < 4
  {
    if k == 0 then (w & 0xFF) as byte
    else if k == 1 then ((w >> 8) & 0xFF) as byte
    else if k == 2 then ((w >> 16) & 0xFF) as byte
    else ((w >> 24) & 0xFF) as byte
  }

  /** The word made of four bytes, least significant first. */
  function Join(a: byte, b: byte, c: byte, d: byte): bv32 {
    (a as bv32) | ((b as bv32) << 8) | ((c as bv32) << 16) | ((d as bv32) << 24)
  }

  function FourBytes(a: nat, b: nat, c: nat, d: nat): nat {
    a + 0x100 * b + 0x1_0000 * c + 0x100_0000 * d
  }

  /** The unsigned value of a word. */
  function Value(w: bv32): (n: nat)
    ensures n < TWO_TO_THE_32
  {
    FourBytes(ByteValue(ByteAt(w, 0)), ByteValue(ByteAt(w, 1)), ByteValue(ByteAt(w, 2)), ByteValue(ByteAt(w, 3)))
  }

  /** Conversion of a number to `unsigned int`: reduction modulo two to the 32. */
  function Word(n: nat): bv32 {
    Join(Byte(n % 256), Byte(n / 0x100 % 256), Byte(n / 0x1_0000 % 256), Byte(n / 0x100_0000 % 256))
  }

  /** The value of a word read as `int32_t`. */
  function Int32(w: bv32): (i: int)
  {
    if w & 0x8000_0000 == 0 then Value(w) else Value(w) - TWO_TO_THE_32
  }

  lemma BytesOfJoin(a: byte, b: byte, c: byte, d: byte)
    ensures var w := Join(a, b, c, d);
            ByteAt(w, 0) == a && ByteAt(w, 1) == b && ByteAt(w, 2) == c && ByteAt(w, 3) == d
  {}

  lemma JoinOfBytes(w: bv32)
    ensures Join(ByteAt(w, 0), ByteAt(w, 1), ByteAt(w, 2), ByteAt(w, 3)) == w
  {}

  lemma ValueOfWord(n: nat)
    requires n < TWO_TO_THE_32
    ensures Value(Word(n)) == n
  {
    var a, b, c, d := n % 256, n / 0x100 % 256, n / 0x1_0000 % 256, n / 0x100_0000 % 256;
    BytesOfJoin(Byte(a), Byte(b), Byte(c), Byte(d));
    ValueOfByte(a); ValueOfByte(b); ValueOfByte(c); ValueOfByte(d);
    BaseBytes(n);
  }

  lemma ByteShifts(n: nat)
    ensures n / 0x1_0000 == n / 0x100 / 256 && n / 0x100_0000 == n / 0x1_0000 / 256
  {}

  lemma BaseBytes(n: nat)
    requires n < TWO_TO_THE_32
    ensures n == FourBytes(n % 256, n / 0x100 % 256, n / 0x1_0000 % 256, n / 0x100_0000 % 256)
  {
    ByteShifts(n);
    var n1, n2, n3 := n / 0x100, n / 0x1_0000, n / 0x100_0000;
    assert n == 256 * n1 + n % 256 && n1 == 256 * n2 + n1 % 256 && n2 == 256 * n3 + n2 % 256;
    assert n3 < 256;
  }

  lemma TopBit(w: bv32)
    ensures w & 0x8000_0000 == 0 <==> Value(w) < TWO_TO_THE_31
  {
    assert w & 0x8000_0000 == 0 <==> ByteAt(w, 3) & 128 == 0;
  }

  lemma Int32OfWord(n: nat)
    requires n < TWO_TO_THE_31
    ensures Int32(Word(n)) == n
  {
    ValueOfWord(n);
    TopBit(Word(n));
  }
}
