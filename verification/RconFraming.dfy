/** RCON packets on the wire: little-endian words read through plain `char`, length-prefixed framing,
    and the splitting of long responses (Source RCON Protocol, "Basic Packet Structure" and
    "Multiple-packet Responses"). */
module RconFraming {
  import opened Words

  const MAX_PAYLOAD := 4086
  const PACKET_OVERHEAD := 14
  const BUFFER_SIZE := 4100

  // ---- rcon_read_i32 and rcon_write_i32 ----

  /** Conversion of a `char` to `int32_t`; whether plain `char` is signed depends on the platform. */
  function Extend(b: byte, signedChar: bool): bv32 {
    if signedChar && b & 0x80 != 0 then 0xFFFF_FF00 | (b as bv32) else b as bv32
  }

  function ReadWord(a: byte, b: byte, c: byte, d: byte, signedChar: bool): bv32 {
    Extend(a, signedChar) | (Extend(b, signedChar) << 8) | (Extend(c, signedChar) << 16) | (Extend(d, signedChar) << 24)
  }

  /** `4 + rcon_read_i32(buffer)`, wrapping like a 32-bit int. */
  function LengthOf(w: bv32): int {
    var n := 4 + Int32(w);
    if n >= TWO_TO_THE_31 then n - TWO_TO_THE_32 else n
  }

  /** How a platform reads header words. Everything about streams below holds for any reader. */
  datatype Reader = Reader(word: (byte, byte, byte, byte) -> bv32, length: (byte, byte, byte, byte) -> int)

  /** rcon_read_i32 on a platform whose plain `char` is signed, or is not. */
  function CharReader(signedChar: bool): Reader {
    Reader((a, b, c, d) => ReadWord(a, b, c, d, signedChar),
           (a, b, c, d) => LengthOf(ReadWord(a, b, c, d, signedChar)))
  }

  function ReadI32(s: Bytes, r: Reader): bv32
    requires |s| >= 4
  {
    r.word(s[0], s[1], s[2], s[3])
  }

  /** The value stored in packetLength. */
  function PacketLength(s: Bytes, r: Reader): int
    requires |s| >= 4
  {
    r.length(s[0], s[1], s[2], s[3])
  }

  function WriteI32(v: bv32): (s: Bytes)
    ensures |s| == 4
  {
    [ByteAt(v, 0), ByteAt(v, 1), ByteAt(v, 2), ByteAt(v, 3)]
  }

  /** Where `char` is unsigned a word survives being written and read. */
  lemma ReadBackUnsigned(v: bv32)
    ensures ReadI32(WriteI32(v), CharReader(false)) == v
  {
    var s := WriteI32(v);
    assert ReadI32(s, CharReader(false)) == ReadWord(ByteAt(v, 0), ByteAt(v, 1), ByteAt(v, 2), ByteAt(v, 3), false);
    JoinOfBytes(v);
  }

  /** What a signed `char` can carry: a low byte with its top bit set only below bytes of all ones. */
  predicate SignSafe(v: bv32) {
    (v & 0x80 != 0 ==> v >> 8 == 0xFF_FFFF) &&
    (v & 0x8000 != 0 ==> v >> 16 == 0xFFFF) &&
    (v & 0x80_0000 != 0 ==> v >> 24 == 0xFF)
  }

  /** Where `char` is signed, exactly the sign-safe words survive. */
  lemma ReadBackSigned(v: bv32)
    ensures ReadI32(WriteI32(v), CharReader(true)) == v <==> SignSafe(v)
  {
    var s := WriteI32(v);
    assert ReadI32(s, CharReader(true)) == ReadWord(ByteAt(v, 0), ByteAt(v, 1), ByteAt(v, 2), ByteAt(v, 3), true);
    SignedWord(v, ByteAt(v, 0), ByteAt(v, 1), ByteAt(v, 2), ByteAt(v, 3));
  }

  lemma SignedWord(v: bv32, a: byte, b: byte, c: byte, d: byte)
    requires a == ByteAt(v, 0) && b == ByteAt(v, 1) && c == ByteAt(v, 2) && d == ByteAt(v, 3)
    ensures ReadWord(a, b, c, d, true) == v <==> SignSafe(v)
  {
    if v & 0x80 != 0 {
      LowestNegative(v, a, b, c, d);
    } else if v & 0x8000 != 0 {
      SecondNegative(v, a, b, c, d);
    } else if v & 0x80_0000 != 0 {
      ThirdNegative(v, a, b, c, d);
    } else {
      NoneNegative(v, a, b, c, d);
    }
  }

  lemma LowestNegative(v: bv32, a: byte, b: byte, c: byte, d: byte)
    requires a == ByteAt(v, 0) && b == ByteAt(v, 1) && c == ByteAt(v, 2) && d == ByteAt(v, 3) && v & 0x80 != 0
    ensures ReadWord(a, b, c, d, true) == v <==> SignSafe(v)
  {
    assert ReadWord(a, b, c, d, true) == 0xFFFF_FF00 | (v & 0xFF);
  }

  lemma SecondNegative(v: bv32, a: byte, b: byte, c: byte, d: byte)
    requires a == ByteAt(v, 0) && b == ByteAt(v, 1) && c == ByteAt(v, 2) && d == ByteAt(v, 3)
    requires v & 0x80 == 0 && v & 0x8000 != 0
    ensures ReadWord(a, b, c, d, true) == v <==> SignSafe(v)
  {
    assert ReadWord(a, b, c, d, true) == 0xFFFF_0000 | (v & 0xFFFF);
  }

  lemma ThirdNegative(v: bv32, a: byte, b: byte, c: byte, d: byte)
    requires a == ByteAt(v, 0) && b == ByteAt(v, 1) && c == ByteAt(v, 2) && d == ByteAt(v, 3)
    requires v & 0x80 == 0 && v & 0x8000 == 0 && v & 0x80_0000 != 0
    ensures ReadWord(a, b, c, d, true) == v <==> SignSafe(v)
  {
    assert ReadWord(a, b, c, d, true) == 0xFF00_0000 | (v & 0xFF_FFFF);
  }

  lemma NoneNegative(v: bv32, a: byte, b: byte, c: byte, d: byte)
    requires a == ByteAt(v, 0) && b == ByteAt(v, 1) && c == ByteAt(v, 2) && d == ByteAt(v, 3)
    requires v & 0x80 == 0 && v & 0x8000 == 0 && v & 0x80_0000 == 0
    ensures ReadWord(a, b, c, d, true) == v && SignSafe(v)
  {}

  lemma TopBitOfByte(n: nat)
    requires n < 256
    ensures Byte(n) & 0x80 != 0 <==> n >= 128
  {
    ValueOfByte(n);
    TopDigit(Byte(n));
  }

  lemma TopDigit(b: byte)
    ensures ByteValue(b) >= 128 <==> b & 0x80 != 0
  {}

  /** Small lengths: only those whose low byte is below 128 can be read back through a signed `char`. */
  lemma LengthSignSafe(n: nat)
    requires n <= 4096
    ensures SignSafe(Word(n)) <==> n % 256 < 128
  {
    SmallWord(n);
    TopBitOfByte(n % 256);
    TopBitOfByte(n / 256);
    SmallJoin(Byte(n % 256), Byte(n / 256));
  }

  lemma SmallWord(n: nat)
    requires n <= 4096
    ensures Word(n) == Join(Byte(n % 256), Byte(n / 256), 0, 0)
  {
    assert n / 0x100 % 256 == n / 256 && n / 0x1_0000 == 0 && n / 0x100_0000 == 0;
    assert Byte(0) == 0;
  }

  lemma SmallJoin(a: byte, b: byte)
    requires b & 0x80 == 0
    ensures SignSafe(Join(a, b, 0, 0)) <==> a & 0x80 == 0
  {}

  // ---- framing ----

  /** The complete packets at the front of a byte stream. A length below ten stops the parse for good. */
  function Parse(s: Bytes, r: Reader): seq<Bytes>
    decreases |s|
  {
    if |s| < 4 then [] else
    var n := PacketLength(s, r);
    if |s| < n || n < 10 then [] else [s[..n]] + Parse(s[n..], r)
  }

  predicate IsFrame(f: Bytes, r: Reader) {
    |f| >= 10 && PacketLength(f, r) == |f|
  }

  function Concat(fs: seq<Bytes>): Bytes {
    if fs == [] then [] else fs[0] + Concat(fs[1..])
  }

  lemma {:induction false} ConcatAppend(fs: seq<Bytes>, gs: seq<Bytes>)
    ensures Concat(fs + gs) == Concat(fs) + Concat(gs)
  {
    if fs == [] {
      assert fs + gs == gs;
    } else {
      assert (fs + gs)[1..] == fs[1..] + gs;
      ConcatAppend(fs[1..], gs);
      assert fs[0] + (Concat(fs[1..]) + Concat(gs)) == (fs[0] + Concat(fs[1..])) + Concat(gs);
    }
  }

  lemma ConcatOne(f: Bytes)
    ensures Concat([f]) == f
  {
    assert [f][1..] == [] && f + [] == f;
  }

  predicate AllFrames(fs: seq<Bytes>, r: Reader) {
    forall k :: 0 <= k < |fs| ==> IsFrame(fs[k], r)
  }

  /** A frame at the front of a stream is the first packet parsed. */
  lemma ParseFrame(f: Bytes, t: Bytes, r: Reader)
    requires IsFrame(f, r)
    ensures Parse(f + t, r) == [f] + Parse(t, r)
  {
    var s := f + t;
    assert s[..4] == f[..4];
    assert s[0] == f[0] && s[1] == f[1] && s[2] == f[2] && s[3] == f[3];
    assert PacketLength(s, r) == |f|;
    assert s[..|f|] == f && s[|f|..] == t;
  }

  lemma {:induction false} ParseFrames(fs: seq<Bytes>, t: Bytes, r: Reader)
    requires AllFrames(fs, r)
    ensures Parse(Concat(fs) + t, r) == fs + Parse(t, r)
  {
    if fs == [] {
      assert Concat(fs) + t == t && fs + Parse(t, r) == Parse(t, r);
    } else {
      assert Concat(fs) + t == fs[0] + (Concat(fs[1..]) + t);
      ParseFrame(fs[0], Concat(fs[1..]) + t, r);
      ParseFrames(fs[1..], t, r);
      assert fs == [fs[0]] + fs[1..];
    }
  }

  /** A concatenation is parsed into its parts exactly if these are frames. */
  lemma ParsesIntoFrames(fs: seq<Bytes>, t: Bytes, r: Reader)
    ensures Parse(Concat(fs) + t, r) == fs + Parse(t, r) <==> AllFrames(fs, r)
  {
    hide Parse, Concat, IsFrame;
    if AllFrames(fs, r) {
      ParseFrames(fs, t, r);
    } else if Parse(Concat(fs) + t, r) == fs + Parse(t, r) {
      ParseYieldsFrames(Concat(fs) + t, r);
      forall k | 0 <= k < |fs| ensures IsFrame(fs[k], r) {
        assert fs[k] == (fs + Parse(t, r))[k];
      }
    }
  }

  /** Bytes that arrive later never change the packets already complete. */
  lemma {:induction false} ParseGrows(s: Bytes, t: Bytes, r: Reader)
    ensures Parse(s, r) <= Parse(s + t, r)
    decreases |s|
  {
    if |s| >= 4 {
      var u := s + t;
      assert u[0] == s[0] && u[1] == s[1] && u[2] == s[2] && u[3] == s[3];
      var n := PacketLength(s, r);
      if |s| >= n && n >= 10 {
        assert u[..n] == s[..n] && u[n..] == s[n..] + t;
        ParseGrows(s[n..], t, r);
      }
    }
  }

  lemma {:induction false} ParseYieldsFrames(s: Bytes, r: Reader)
    ensures AllFrames(Parse(s, r), r)
    decreases |s|
  {
    if |s| >= 4 {
      var n := PacketLength(s, r);
      if |s| >= n && n >= 10 {
        var f := s[..n];
        assert f[0] == s[0] && f[1] == s[1] && f[2] == s[2] && f[3] == s[3];
        ParseYieldsFrames(s[n..], r);
      }
    }
  }

  // ---- rcon_send ----

  datatype Packet = Packet(id: bv32, kind: bv32, payload: Bytes)

  /** One packet as rcon_send lays it out. */
  function Encode(id: bv32, kind: bv32, payload: Bytes): (f: Bytes)
    ensures |f| == |payload| + PACKET_OVERHEAD
  {
    WriteI32(Word(|payload| + 10)) + WriteI32(id) + WriteI32(kind) + payload + [0, 0]
  }

  /** The id, type and payload rcon_fetch_command takes from a packet. */
  function Decode(f: Bytes, r: Reader): Packet
    requires |f| >= PACKET_OVERHEAD
  {
    Packet(ReadI32(f[4..], r), ReadI32(f[8..], r), f[12..|f| - 2])
  }

  /** How a payload is cut up: full fragments, then what is left (possibly nothing, but never no packet). */
  function Fragments(payload: Bytes): (fs: seq<Bytes>)
    ensures |fs| >= 1
    decreases |payload|
  {
    if |payload| <= MAX_PAYLOAD then [payload]
    else [payload[..MAX_PAYLOAD]] + Fragments(payload[MAX_PAYLOAD..])
  }

  function EncodeAll(id: bv32, kind: bv32, fragments: seq<Bytes>): (fs: seq<Bytes>)
    ensures |fs| == |fragments|
  {
    seq(|fragments|, k requires 0 <= k < |fragments| => Encode(id, kind, fragments[k]))
  }

  /** The packets rcon_send sends. */
  function Send(id: bv32, kind: bv32, payload: Bytes): seq<Bytes> {
    EncodeAll(id, kind, Fragments(payload))
  }

  /** Fragments fit a packet, all but the last fill one, and put together they give the payload; there are as
      many as it takes. */
  lemma {:induction false} FragmentsExact(payload: Bytes)
    ensures Concat(Fragments(payload)) == payload
    ensures forall k :: 0 <= k < |Fragments(payload)| ==> |Fragments(payload)[k]| <= 4086
    ensures forall k :: 0 <= k < |Fragments(payload)| - 1 ==> |Fragments(payload)[k]| == 4086
    ensures |Fragments(payload)| == if payload == [] then 1 else (|payload| + 4085) / 4086
    decreases |payload|
  {
    if |payload| <= MAX_PAYLOAD {
      ConcatOne(payload);
    } else {
      FragmentsExact(payload[MAX_PAYLOAD..]);
      assert payload == payload[..MAX_PAYLOAD] + payload[MAX_PAYLOAD..];
    }
  }

  lemma EncodedParts(id: bv32, kind: bv32, payload: Bytes)
    ensures var f := Encode(id, kind, payload);
            f[..4] == WriteI32(Word(|payload| + 10)) && f[4..8] == WriteI32(id) && f[8..12] == WriteI32(kind) &&
            f[12..|f| - 2] == payload
  {}

  /** Only the first four bytes matter. */
  lemma SameHeader(f: Bytes, w: Bytes, r: Reader)
    requires |f| >= 4 && |w| >= 4 && f[..4] == w[..4]
    ensures ReadI32(f, r) == ReadI32(w, r) && PacketLength(f, r) == PacketLength(w, r)
  {
    assert forall k :: 0 <= k < 4 ==> f[k] == f[..4][k] && w[k] == w[..4][k];
  }

  lemma ReaderAgrees(w: Bytes, signedChar: bool)
    requires |w| >= 4
    ensures PacketLength(w, CharReader(signedChar)) == LengthOf(ReadI32(w, CharReader(signedChar)))
  {}

  lemma LengthOfWord(n: nat)
    requires n <= 4096
    ensures LengthOf(Word(n)) == n + 4
  {
    Int32OfWord(n);
  }

  lemma EncodedLength(f: Bytes, n: nat, signedChar: bool)
    requires n <= 4096 && |f| >= 4 && f[..4] == WriteI32(Word(n)) && (signedChar ==> SignSafe(Word(n)))
    ensures PacketLength(f, CharReader(signedChar)) == n + 4
  {
    var r := CharReader(signedChar);
    var w := WriteI32(Word(n));
    assert w[..4] == w;
    SameHeader(f, w, r);
    ReaderAgrees(w, signedChar);
    if signedChar { ReadBackSigned(Word(n)); } else { ReadBackUnsigned(Word(n)); }
    LengthOfWord(n);
  }

  /** What the receiving side reads back from a packet sent: it is a frame, and its id and type are what was
      sent, always where `char` is unsigned; where it is signed, exactly if the low byte of the length is
      below 128, and exactly if these two words are sign-safe. */
  lemma EncodedFrame(id: bv32, kind: bv32, payload: Bytes, signedChar: bool)
    requires |payload| <= MAX_PAYLOAD
    ensures var f, r := Encode(id, kind, payload), CharReader(signedChar);
            |f| <= BUFFER_SIZE && (IsFrame(f, r) <==> LengthSurvives(payload, signedChar)) &&
            (Decode(f, r) == Packet(id, kind, payload) <==> Survives(id, signedChar) && Survives(kind, signedChar))
  {
    hide SignSafe, ReadI32, WriteI32, Word, CharReader;
    var f := Encode(id, kind, payload);
    EncodedParts(id, kind, payload);
    if signedChar {
      SignedLengthReadsBack(id, kind, payload);
    } else {
      EncodedLength(f, |payload| + 10, false);
    }
    ReadsBack(f, 4, id, signedChar);
    ReadsBack(f, 8, kind, signedChar);
  }

  predicate Survives(v: bv32, signedChar: bool) {
    signedChar ==> SignSafe(v)
  }

  predicate LengthSurvives(payload: Bytes, signedChar: bool) {
    signedChar ==> (|payload| + 10) % 256 < 128
  }

  lemma ReadsBack(f: Bytes, at: nat, v: bv32, signedChar: bool)
    requires at + 4 <= |f| && f[at..at + 4] == WriteI32(v)
    ensures ReadI32(f[at..], CharReader(signedChar)) == v <==> Survives(v, signedChar)
  {
    assert f[at..][..4] == f[at..at + 4];
    var w := WriteI32(v);
    assert w[..4] == w;
    SameHeader(f[at..], w, CharReader(signedChar));
    if signedChar { ReadBackSigned(v); } else { ReadBackUnsigned(v); }
  }

  /** Fragment and reassemble: whatever follows on the stream, the packets rcon_send sends for a payload are
      parsed back one by one if and only if the length of each fragment survives, and then each has its
      fragment of the payload, with the id and the type sent if and only if these survive. */
  lemma SendParsesBack(id: bv32, kind: bv32, payload: Bytes, t: Bytes, signedChar: bool)
    ensures var fs, gs, r := Send(id, kind, payload), Fragments(payload), CharReader(signedChar);
            && (Parse(Concat(fs) + t, r) == fs + Parse(t, r) <==> forall g :: g in gs ==> LengthSurvives(g, signedChar))
            && forall k :: 0 <= k < |fs| ==>
                 PACKET_OVERHEAD <= |fs[k]| <= BUFFER_SIZE &&
                 (Decode(fs[k], r) == Packet(id, kind, gs[k]) <==>
                   Survives(id, signedChar) && Survives(kind, signedChar))
  {
    hide Parse, Decode, IsFrame, Fragments, Concat, LengthSurvives, Survives, Encode;
    var fs, gs, r := Send(id, kind, payload), Fragments(payload), CharReader(signedChar);
    FragmentsExact(payload);
    ParsesIntoFrames(fs, t, r);
    forall k | 0 <= k < |fs|
      ensures |fs[k]| <= BUFFER_SIZE && (IsFrame(fs[k], r) <==> LengthSurvives(gs[k], signedChar))
      ensures Decode(fs[k], r) == Packet(id, kind, gs[k]) <==> Survives(id, signedChar) && Survives(kind, signedChar)
    {
      EncodedFrame(id, kind, gs[k], signedChar);
    }
  }

  /** Through a signed `char` a packet keeps its length exactly when the low byte of the length word is
      below 128; otherwise it is not recognised as a frame. */
  lemma SignedLengthReadsBack(id: bv32, kind: bv32, payload: Bytes)
    requires |payload| <= MAX_PAYLOAD
    ensures IsFrame(Encode(id, kind, payload), CharReader(true)) <==> (|payload| + 10) % 256 < 128
  {
    var f, n := Encode(id, kind, payload), |payload| + 10;
    EncodedParts(id, kind, payload);
    LengthSignSafe(n);
    if n % 256 < 128 {
      EncodedLength(f, n, true);
    } else {
      NegativeLength(f, n);
    }
  }

  lemma NegativeLength(f: Bytes, n: nat)
    requires n <= 4096 && n % 256 >= 128 && |f| >= 4 && f[..4] == WriteI32(Word(n))
    ensures PacketLength(f, CharReader(true)) < 4
  {
    var w := WriteI32(Word(n));
    assert w[..4] == w;
    SameHeader(f, w, CharReader(true));
    ReaderAgrees(w, true);
    SmallLow(n);
    NegativeLow(w[0], w[1], w[2], w[3]);
    NegativeWord(ReadWord(w[0], w[1], w[2], w[3], true));
  }

  lemma NegativeWord(w: bv32)
    requires w & 0x8000_0000 != 0
    ensures LengthOf(w) < 4
  {
    assert Value(w) < TWO_TO_THE_32;
  }

  lemma NegativeLow(a: byte, b: byte, c: byte, d: byte)
    requires a & 0x80 != 0
    ensures ReadWord(a, b, c, d, true) & 0x8000_0000 != 0
  {}

  lemma SmallLow(n: nat)
    ensures ByteAt(Word(n), 0) & 0x80 != 0 <==> n % 256 >= 128
  {
    BytesOfJoin(Byte(n % 256), Byte(n / 0x100 % 256), Byte(n / 0x1_0000 % 256), Byte(n / 0x100_0000 % 256));
    ValueOfByte(n % 256);
  }
}
