/** What a client reads in the bytes it is sent: every reply decoded again, with the numbers of the protocol. */
module RconReplies {
  import opened Wrappers
  import opened Words
  import opened CStrings
  import opened RconFraming
  import opened RconModel
  import opened RconStream
  import opened RconRuns

  // ---- a packet, byte by byte ----

  /** Four bytes as a number, least significant first. */
  function Number32(s: Bytes): nat
    requires |s| == 4
  {
    ByteValue(s[0]) + 256 * ByteValue(s[1]) + 65536 * ByteValue(s[2]) + 16777216 * ByteValue(s[3])
  }

  /** A packet begins with its length, which counts what follows, then has its id, its type and its payload,
      and ends in two zeros. */
  lemma OnTheWire(id: bv32, kind: bv32, payload: Bytes)
    requires |payload| <= 4086
    ensures var f := Encode(id, kind, payload);
            && |f| == |payload| + 14
            && Number32(f[..4]) == |payload| + 10
            && Number32(f[4..8]) == Value(id) && Number32(f[8..12]) == Value(kind)
            && f[12..|payload| + 12] == payload && f[|payload| + 12..] == [0, 0]
  {
    hide WriteI32, Value, Word, Number32;
    var f := Encode(id, kind, payload);
    EncodedParts(id, kind, payload);
    WrittenNumber(Word(|payload| + 10));
    WrittenNumber(id);
    WrittenNumber(kind);
    ValueOfWord(|payload| + 10);
    assert f[|payload| + 12..] == [0, 0];
  }

  lemma WrittenNumber(v: bv32)
    ensures Number32(WriteI32(v)) == Value(v)
  {}

  /** Where `char` is unsigned, what is read from four bytes is their number. */
  lemma ReadNumber(s: Bytes)
    requires |s| == 4
    ensures Value(ReadI32(s, CharReader(false))) == Number32(s)
  {
    hide ByteValue;
    BytesOfJoin(s[0], s[1], s[2], s[3]);
    UnsignedWord(s[0], s[1], s[2], s[3]);
  }

  lemma UnsignedWord(a: byte, b: byte, c: byte, d: byte)
    ensures ReadWord(a, b, c, d, false) == Join(a, b, c, d)
  {}

  // ---- replies ----

  /** The packets with these ids, types and payloads, read where `char` is unsigned. */
  function Read(fs: seq<Bytes>): seq<Packet>
    requires forall f :: f in fs ==> |f| >= 14
  {
    seq(|fs|, k requires 0 <= k < |fs| => assert fs[k] in fs; Decode(fs[k], CharReader(false)))
  }

  /** A text in pieces. */
  function Pieces(id: bv32, kind: bv32, text: Bytes): seq<Packet> {
    var fs := Fragments(text);
    seq(|fs|, k requires 0 <= k < |fs| => Packet(id, kind, fs[k]))
  }

  /** The payload of a packet begins with this password, and a NUL is behind it. */
  predicate Gives(f: Bytes, secret: Secret) {
    secret.Some? && 0 !in secret.value &&
    |f| > 12 + |secret.value| && f[12..12 + |secret.value|] == secret.value && f[12 + |secret.value|] == 0
  }

  /** What a client is to be told about one of its packets. Type 3 asks for authorisation: an empty packet,
      then one of type 2, with the same id if the password is right and -1 if not. Type 2 is a command: its
      response. Any other is sent back, and a packet that holds the bytes 1 and 0. */
  function Told(i: Item, r: Reader): seq<Packet>
    requires |i.raw| >= 10 && (i.kind != 3 && i.kind != 2 ==> |i.raw| >= 14)
  {
    var id := ReadI32(i.raw[4..], r);
    if i.kind == 3 then [Packet(id, 0, []), Packet(if Gives(i.raw, i.secret) then id else 0xFFFF_FFFF, 2, [])]
    else if i.kind == 2 then Pieces(id, 0, i.response)
    else Pieces(id, 0, i.raw[12..|i.raw| - 2]) + [Packet(id, 0, [1, 0])]
  }

  function AllTold(items: seq<Item>, r: Reader): seq<Packet>
    requires AllObserved(items, r)
  {
    if items == [] then []
    else
      var last := items[|items| - 1];
      AllTold(items[..|items| - 1], r) + Told(last, r)
  }

  /** These packets are read as those, however they are split. */
  ghost predicate ReadAs(fs: seq<Bytes>, ps: seq<Packet>) {
    AllFrames(fs, CharReader(false)) && (forall f :: f in fs ==> 14 <= |f| <= 4100) && Read(fs) == ps
  }

  lemma ReadAsConcat(fs: seq<Bytes>, gs: seq<Bytes>, ps: seq<Packet>, qs: seq<Packet>)
    requires ReadAs(fs, ps) && ReadAs(gs, qs)
    ensures ReadAs(fs + gs, ps + qs)
  {
    hide IsFrame, Decode;
  }

  lemma ReadNothing()
    ensures ReadAs([], [])
  {}

  lemma SentRead(id: bv32, kind: bv32, payload: Bytes)
    ensures ReadAs(Send(id, kind, payload), Pieces(id, kind, payload))
  {
    hide Fragments, Encode, Decode, IsFrame;
    var fs, gs := Send(id, kind, payload), Fragments(payload);
    FragmentsExact(payload);
    forall k | 0 <= k < |fs|
      ensures IsFrame(fs[k], CharReader(false)) && 14 <= |fs[k]| <= 4100
      ensures Decode(fs[k], CharReader(false)) == Packet(id, kind, gs[k])
    {
      EncodedFrame(id, kind, gs[k], false);
    }
  }

  lemma SentReadOne(id: bv32, kind: bv32, payload: Bytes)
    requires |payload| <= 4086
    ensures ReadAs(Send(id, kind, payload), [Packet(id, kind, payload)])
  {
    SentRead(id, kind, payload);
    assert Fragments(payload) == [payload];
    assert Pieces(id, kind, payload) == [Packet(id, kind, payload)];
  }

  /** Comparing as a C string is looking for the password and a NUL. */
  lemma GrantsGives(i: Item)
    ensures Grants(i) <==> i.kind == 3 && Gives(i.raw, i.secret)
  {
    if i.secret.Some? && |i.raw| >= 12 {
      var s, t := i.raw[12..], i.secret.value;
      if Gives(i.raw, i.secret) {
        assert s == t + s[|t|..] && s[|t|] == 0;
        StringContinues(t, s[|t|..]);
        assert CString(s[|t|..]) == [];
      }
    }
  }

  /** The replies to every kind of packet, as the client reads them. */
  lemma RepliesRead(i: Item, r: Reader)
    requires Observed(i, r)
    ensures |i.raw| >= 10 && (i.kind != 3 && i.kind != 2 ==> |i.raw| >= 14) && ReadAs(Replies(i, r), Told(i, r))
  {
    hide ReadAs, Send, Grants, Gives;
    var id := ReadI32(i.raw[4..], r);
    GrantsGives(i);
    if i.kind == 3 {
      var given := if Gives(i.raw, i.secret) then id else 0xFFFF_FFFF;
      SentReadOne(id, 0, []);
      SentReadOne(given, 2, []);
      ReadAsConcat(Send(id, 0, []), Send(given, 2, []), [Packet(id, 0, [])], [Packet(given, 2, [])]);
      assert [Packet(id, 0, [])] + [Packet(given, 2, [])] == [Packet(id, 0, []), Packet(given, 2, [])];
    } else if i.kind == 2 {
      SentRead(id, 0, i.response);
    } else {
      var payload := i.raw[12..|i.raw| - 2];
      SentRead(id, 0, payload);
      SentReadOne(id, 0, [1, 0]);
      ReadAsConcat(Send(id, 0, payload), Send(id, 0, [1, 0]), Pieces(id, 0, payload), [Packet(id, 0, [1, 0])]);
    }
  }

  lemma {:induction false} AllRepliesRead(items: seq<Item>, r: Reader)
    requires AllObserved(items, r)
    ensures ReadAs(AllReplies(items, r), AllTold(items, r))
    decreases |items|
  {
    hide ReadAs, Replies, Told, Observed;
    if items == [] {
      ReadNothing();
    } else {
      var before, last := items[..|items| - 1], items[|items| - 1];
      AllRepliesRead(before, r);
      RepliesRead(last, r);
      ReadAsConcat(AllReplies(before, r), Replies(last, r), AllTold(before, r), Told(last, r));
    }
  }

  /** Over every run, however the bytes arrive: if no fetch was undefined and every AUTH packet handled settled
      its comparison, the bytes sent to the client are parsed by it into just the packets it is to be told,
      about each of its packets in order. */
  lemma RunTold(slot: Client, es: seq<Event>, r: Reader)
    requires slot.Valid() && IsRun(Start(slot), es, r) && AllDefined(Start(slot), es, r)
    requires AllSettled(Run(Start(slot), es, r).items)
    ensures var k := Run(Start(slot), es, r);
            && AllObserved(k.items, r)
            && (forall f :: f in k.sent ==> 14 <= |f| <= 4100)
            && Parse(Concat(k.sent), CharReader(false)) == k.sent
            && Read(k.sent) == AllTold(k.items, r)
  {
    hide Parse, Concat, Read, AllReplies, AllTold, AllObserved, AllFrames;
    var k := Run(Start(slot), es, r);
    ChunkingIndependence(slot, es, r);
    AllRepliesRead(k.items, r);
    AllParsed(k.sent);
  }

  lemma AllParsed(fs: seq<Bytes>)
    requires AllFrames(fs, CharReader(false))
    ensures Parse(Concat(fs), CharReader(false)) == fs
  {
    hide AllFrames, Concat;
    ParseFrames(fs, [], CharReader(false));
    assert Concat(fs) + [] == Concat(fs) && fs + [] == fs && Parse([], CharReader(false)) == [];
  }
}
