/** What a client and its server exchange over a whole connection, however the bytes arrive. */
module RconStream {
  import opened Wrappers
  import opened Words
  import opened CStrings
  import opened RconFraming
  import opened RconModel

  /** A packet that was handled: its bytes, the type read for it, the password then in force if it was an
      AUTH packet, and the caller's response if it was a command. */
  datatype Item = Item(raw: Bytes, kind: bv32, secret: Secret, response: Bytes)

  /** The request id and the type within a packet. */
  function IdOf(f: Bytes, r: Reader): bv32
    requires |f| >= 8
  {
    ReadI32(f[4..], r)
  }

  function KindOf(f: Bytes, r: Reader): bv32
    requires |f| >= 12
  {
    ReadI32(f[8..], r)
  }

  /** A frame with the type the code reads for it. Only AUTH packets and commands can be handled when they
      are too short for a payload and its two NULs. */
  predicate Observed(i: Item, r: Reader) {
    && IsFrame(i.raw, r)
    && (|i.raw| >= 12 ==> i.kind == KindOf(i.raw, r))
    && (|i.raw| < PACKET_OVERHEAD ==> i.kind == AUTH || i.kind == EXECCOMMAND)
  }

  predicate AllObserved(items: seq<Item>, r: Reader) {
    forall k :: 0 <= k < |items| ==> Observed(items[k], r)
  }

  /** An AUTH packet that holds the password in force, ended by a NUL. */
  predicate Grants(i: Item) {
    i.kind == AUTH && |i.raw| >= 12 && 0 in i.raw[12..] && Matches(i.raw[12..], i.secret)
  }

  /** An AUTH packet settles the comparison if there is no password, or its payload holds a NUL or is not
      the start of the password. Other packets settle everything. */
  predicate Settled(i: Item) {
    i.kind == AUTH && i.secret.Some? ==> |i.raw| >= 12 && (0 in i.raw[12..] || !(i.raw[12..] <= i.secret.value))
  }

  predicate AllSettled(items: seq<Item>) {
    forall k :: 0 <= k < |items| ==> Settled(items[k])
  }

  /** The replies specified for one packet. */
  function Replies(i: Item, r: Reader): seq<Bytes>
    requires Observed(i, r)
  {
    if i.kind == AUTH then AuthReplies(IdOf(i.raw, r), Grants(i))
    else if i.kind == EXECCOMMAND then Send(IdOf(i.raw, r), RESPONSE_VALUE, i.response)
    else EchoReplies(IdOf(i.raw, r), i.raw[12..|i.raw| - 2])
  }

  function Raws(items: seq<Item>): (fs: seq<Bytes>)
    ensures |fs| == |items|
    ensures forall k :: 0 <= k < |fs| ==> fs[k] == items[k].raw
  {
    if items == [] then [] else Raws(items[..|items| - 1]) + [items[|items| - 1].raw]
  }

  /** The replies to packets, in the order of the packets. */
  function AllReplies(items: seq<Item>, r: Reader): seq<Bytes>
    requires AllObserved(items, r)
  {
    if items == [] then [] else AllReplies(items[..|items| - 1], r) + Replies(items[|items| - 1], r)
  }

  /** A matching AUTH packet is among the packets. */
  predicate Granted(items: seq<Item>) {
    exists k :: 0 <= k < |items| && Grants(items[k])
  }

  /** Every command came after a matching AUTH packet. */
  predicate CommandsGranted(items: seq<Item>) {
    forall k :: 0 <= k < |items| && items[k].kind == EXECCOMMAND ==> Granted(items[..k])
  }

  /** A connection since it was accepted: the client, every byte received, every packet handled and
      everything sent. */
  datatype Conn = Conn(client: Client, stream: Bytes, items: seq<Item>, sent: seq<Bytes>)

  /** While a command is out, the packet it came in is at the front of the buffer. */
  ghost predicate InFlight(c: Client, r: Reader)
    requires c.Valid()
  {
    && Complete(c, r) && c.authd && c.packetType == EXECCOMMAND
    && c.packetLength == PacketLength(c.buffer, r) && c.requestID == ReadI32(c.buffer[4..], r)
    && (c.packetLength >= 12 ==> c.packetType == ReadI32(c.buffer[8..], r))
  }

  /** The stream is the packets handled followed by what is in the buffer, and a command that is out is the
      next packet. This holds for all bytes a client can send. */
  ghost predicate Conserved(k: Conn, r: Reader) {
    && k.client.Valid()
    && AllObserved(k.items, r)
    && k.stream == Concat(Raws(k.items)) + k.client.Pending()
    && (k.client.inCmd ==> InFlight(k.client, r))
  }

  /** What was sent is the replies to the packets handled, in order. */
  ghost predicate Answered(k: Conn, r: Reader) {
    AllObserved(k.items, r) && k.sent == AllReplies(k.items, r)
  }

  /** The client is authorised exactly if a matching AUTH packet was handled. */
  ghost predicate Permitted(k: Conn) {
    (k.client.authd <==> Granted(k.items)) && CommandsGranted(k.items)
  }

  /** Conservation alone, or with it what follows for packets that settle the comparison. */
  ghost predicate Kept(k: Conn, r: Reader, all: bool) {
    Conserved(k, r) && (all && AllSettled(k.items) ==> Answered(k, r) && Permitted(k))
  }

  ghost predicate Inv(k: Conn, r: Reader) {
    Kept(k, r, true)
  }

  // ---- one packet ----

  lemma RawsSnoc(items: seq<Item>, i: Item)
    ensures Raws(items + [i]) == Raws(items) + [i.raw]
  {
    assert (items + [i])[..|items|] == items;
  }

  lemma ObservedFrames(items: seq<Item>, r: Reader)
    requires AllObserved(items, r)
    ensures AllFrames(Raws(items), r)
  {}

  lemma RepliesSnoc(items: seq<Item>, i: Item, r: Reader)
    requires AllObserved(items, r) && Observed(i, r)
    ensures AllObserved(items + [i], r)
    ensures AllReplies(items + [i], r) == AllReplies(items, r) + Replies(i, r)
  {
    assert (items + [i])[..|items|] == items;
  }

  lemma SettledSnoc(items: seq<Item>, i: Item)
    ensures AllSettled(items + [i]) <==> AllSettled(items) && Settled(i)
  {
    var all := items + [i];
    if AllSettled(all) {
      assert forall k :: 0 <= k < |items| ==> all[k] == items[k];
      assert all[|items|] == i;
    }
  }

  lemma GrantedSnoc(items: seq<Item>, i: Item)
    ensures Granted(items + [i]) <==> Granted(items) || Grants(i)
  {
    var all := items + [i];
    if Granted(items) {
      var k :| 0 <= k < |items| && Grants(items[k]);
      assert all[k] == items[k];
    }
    if Grants(i) { assert all[|items|] == i; }
  }

  lemma CommandsSnoc(items: seq<Item>, i: Item)
    requires CommandsGranted(items) && (i.kind == EXECCOMMAND ==> Granted(items))
    ensures CommandsGranted(items + [i])
  {
    var all := items + [i];
    assert forall k :: 0 <= k < |items| ==> all[k] == items[k] && all[..k] == items[..k];
    assert all[..|items|] == items;
  }

  lemma FrontIsFrame(c: Client, r: Reader)
    requires c.Valid() && Complete(c, r)
    ensures IsFrame(Front(c, r), r)
    ensures Front(c, r) + c.Pending()[|Front(c, r)|..] == c.Pending()
  {
    var f := Front(c, r);
    assert f[0] == c.buffer[0] && f[1] == c.buffer[1] && f[2] == c.buffer[2] && f[3] == c.buffer[3];
  }

  /** The header fields read from the buffer are those of the packet, as far as it reaches. */
  lemma FrontHeader(c: Client, r: Reader)
    requires c.Valid() && Complete(c, r)
    ensures var o, f := Opened(c, r), Front(c, r);
            |f| == o.packetLength && o.requestID == IdOf(f, r) && (|f| >= 12 ==> o.packetType == KindOf(f, r))
  {
    var b, f := c.buffer, Front(c, r);
    assert forall k :: 0 <= k < |f| ==> f[k] == b[k];
    assert f[4..][0] == b[4..][0] && f[4..][1] == b[4..][1] && f[4..][2] == b[4..][2] && f[4..][3] == b[4..][3];
    if |f| >= 12 {
      assert f[8..][0] == b[8..][0] && f[8..][1] == b[8..][1] && f[8..][2] == b[8..][2] && f[8..][3] == b[8..][3];
    }
  }

  /** A settled AUTH packet is decided by what is in it, whatever the buffer holds behind it. */
  lemma FrontSettled(c: Client, secret: Secret, r: Reader)
    requires c.Valid() && Complete(c, r) && (secret.Some? ==> 0 in c.buffer[12..])
    ensures var i := Item(Front(c, r), AUTH, secret, []);
            Settled(i) ==> (Matches(c.buffer[12..], secret) <==> Grants(i))
  {
    var f := Front(c, r);
    if secret.Some? && |f| >= 12 {
      var p, t := f[12..], c.buffer[|f|..];
      assert c.buffer[12..] == p + t;
      if 0 in p { StringSettled(p, t); } else { StringContinues(p, t); }
    }
  }

  /** The packet at the front is the first one in the stream that was not handled. */
  lemma FrontIsNext(k: Conn, r: Reader)
    requires Conserved(k, r) && Complete(k.client, r)
    ensures |k.items| < |Parse(k.stream, r)| && Parse(k.stream, r)[|k.items|] == Front(k.client, r)
  {
    ObservedFrames(k.items, r);
    ParseFrames(Raws(k.items), k.client.Pending(), r);
    FrontIsFrame(k.client, r);
    ParseFrame(Front(k.client, r), k.client.Pending()[|Front(k.client, r)|..], r);
  }

  /** The connection after the packet at the front was handled with the given replies. */
  function Handle(k: Conn, c: Client, i: Item, replies: seq<Bytes>): Conn {
    Conn(c, k.stream, k.items + [i], k.sent + replies)
  }

  lemma HandleConserves(k: Conn, c: Client, i: Item, replies: seq<Bytes>, r: Reader)
    requires Conserved(k, r) && Complete(k.client, r) && i.raw == Front(k.client, r) && Observed(i, r)
    requires c.Valid() && c.Pending() == k.client.Pending()[|i.raw|..] && !c.inCmd
    ensures Conserved(Handle(k, c, i, replies), r)
  {
    hide Front, Complete, Observed, InFlight;
    FrontIsFrame(k.client, r);
    RawsSnoc(k.items, i);
    ConcatMoves(Raws(k.items), i.raw, c.Pending());
    RepliesSnoc(k.items, i, r);
  }

  lemma ConcatMoves(fs: seq<Bytes>, f: Bytes, rest: Bytes)
    ensures Concat(fs + [f]) + rest == Concat(fs) + (f + rest)
  {
    ConcatAppend(fs, [f]);
    ConcatOne(f);
  }

  /** Handling the packet at the front keeps the invariant when authorisation and the replies follow the
      packet, should it settle them, and commands are handled for authorised clients only. */
  lemma HandleKeeps(k: Conn, c: Client, i: Item, replies: seq<Bytes>, r: Reader, all: bool)
    requires Kept(k, r, all) && Complete(k.client, r) && i.raw == Front(k.client, r) && Observed(i, r)
    requires c.Valid() && c.Pending() == k.client.Pending()[|i.raw|..] && !c.inCmd
    requires all && Settled(i) ==> (c.authd <==> k.client.authd || Grants(i)) && replies == Replies(i, r)
    requires all && i.kind == EXECCOMMAND ==> k.client.authd
    ensures Kept(Handle(k, c, i, replies), r, all)
  {
    hide Front, Grants, Replies, Granted, CommandsGranted, AllObserved, Observed, AllSettled, Settled, Conserved;
    HandleConserves(k, c, i, replies, r);
    SettledSnoc(k.items, i);
    if all && AllSettled(k.items + [i]) {
      RepliesSnoc(k.items, i, r);
      GrantedSnoc(k.items, i);
      CommandsSnoc(k.items, i);
    }
  }

  // ---- rcon_fetch_command ----

  /** What is recorded about a packet that needed no response from the caller. */
  function Recorded(h: Handled, secret: Secret): Item {
    Item(h.raw, h.kind, if h.kind == AUTH then secret else None, [])
  }

  function AllRecorded(hs: seq<Handled>, secret: Secret): (items: seq<Item>)
    ensures |items| == |hs|
  {
    seq(|hs|, n requires 0 <= n < |hs| => Recorded(hs[n], secret))
  }

  function AfterFetch(k: Conn, f: Fetched, secret: Secret): Conn {
    Conn(f.client, k.stream, k.items + AllRecorded(f.handled, secret), k.sent + f.sent)
  }

  lemma AfterFetchAfter(k: Conn, c: Client, h: Handled, replies: seq<Bytes>, rest: Fetched, secret: Secret)
    ensures AfterFetch(k, rest.After(h, replies), secret)
         == AfterFetch(Handle(k, c, Recorded(h, secret), replies), rest, secret)
  {
    assert AllRecorded([h] + rest.handled, secret) == [Recorded(h, secret)] + AllRecorded(rest.handled, secret);
    assert k.sent + (replies + rest.sent) == (k.sent + replies) + rest.sent;
  }

  lemma AuthKeeps(k: Conn, secret: Secret, r: Reader, all: bool)
    requires Kept(k, r, all) && Complete(k.client, r) && !k.client.inCmd && Opened(k.client, r).packetType == AUTH
    requires secret.Some? ==> 0 in k.client.buffer[12..]
    ensures var c := k.client;
            var replies := AuthReplies(Opened(c, r).requestID, Matches(c.buffer[12..], secret));
            Kept(Handle(k, AfterAuth(c, secret, r), Recorded(Handled(Front(c, r), AUTH), secret), replies), r, all)
  {
    hide Matches;
    var c := k.client;
    FrontHeader(c, r);
    FrontIsFrame(c, r);
    FrontSettled(c, secret, r);
    HandleKeeps(k, AfterAuth(c, secret, r), Recorded(Handled(Front(c, r), AUTH), secret),
                AuthReplies(Opened(c, r).requestID, Matches(c.buffer[12..], secret)), r, all);
  }

  lemma EchoKeeps(k: Conn, secret: Secret, r: Reader, all: bool)
    requires k.client.Valid() && Kept(k, r, all) && Complete(k.client, r) && !k.client.inCmd &&
             PacketLength(k.client.buffer, r) >= PACKET_OVERHEAD
    requires Opened(k.client, r).packetType != AUTH && Opened(k.client, r).packetType != EXECCOMMAND
    ensures var c := k.client;
            var o := Opened(c, r);
            var replies := EchoReplies(o.requestID, o.buffer[12..o.packetLength - 2]);
            Kept(Handle(k, AfterEcho(c, r), Recorded(Handled(Front(c, r), o.packetType), secret), replies), r, all)
  {
    hide Kept, EchoReplies, Matches;
    var c := k.client;
    var o := Opened(c, r);
    FrontHeader(c, r);
    FrontIsFrame(c, r);
    assert Front(c, r)[12..|Front(c, r)| - 2] == o.buffer[12..o.packetLength - 2];
    HandleKeeps(k, AfterEcho(c, r), Recorded(Handled(Front(c, r), o.packetType), secret),
                EchoReplies(o.requestID, o.buffer[12..o.packetLength - 2]), r, all);
  }

  /** Fetching loses no byte, and as long as it stays within what C defines it keeps the invariant. */
  ghost predicate FetchFine(k: Conn, secret: Secret, r: Reader, all: bool)
    requires k.client.Valid() && !k.client.inCmd
  {
    var f := Fetch(k.client, secret, r);
    && Conserved(AfterFetch(k, f, secret), r)
    && (f.ending != Undefined ==> Kept(AfterFetch(k, f, secret), r, all))
    && (f.ending == Command <==> f.client.inCmd)
  }

  lemma FineAfter(k: Conn, c: Client, h: Handled, replies: seq<Bytes>, secret: Secret, r: Reader, all: bool)
    requires k.client.Valid() && !k.client.inCmd && c.Valid() && !c.inCmd
    requires Fetch(k.client, secret, r) == Fetch(c, secret, r).After(h, replies)
    requires FetchFine(Handle(k, c, Recorded(h, secret), replies), secret, r, all)
    ensures FetchFine(k, secret, r, all)
  {
    hide Fetch, Kept, Conserved, AfterFetch, Recorded;
    AfterFetchAfter(k, c, h, replies, Fetch(c, secret, r), secret);
  }

  /** So it is for all bytes a client can send. */
  lemma {:induction false} FetchKeeps(k: Conn, secret: Secret, r: Reader, all: bool)
    requires k.client.Valid() && Kept(k, r, all) && !k.client.inCmd
    ensures FetchFine(k, secret, r, all)
    decreases k.client.recvd
  {
    hide Fetch, FetchFine, Kept, Matches, Front;
    var c := k.client;
    var o := Opened(c, r);
    if !Complete(c, r) {
      FetchIncomplete(k, secret, r, all);
    } else if o.packetType == AUTH && (secret.None? || 0 in c.buffer[12..]) {
      AuthKeeps(k, secret, r, all);
      UnfoldAuth(c, secret, r);
      var replies, next := AuthReplies(o.requestID, Matches(c.buffer[12..], secret)), AfterAuth(c, secret, r);
      var h := Handled(Front(c, r), AUTH);
      FetchKeeps(Handle(k, next, Recorded(h, secret), replies), secret, r, all);
      FineAfter(k, next, h, replies, secret, r, all);
    } else if o.packetType != AUTH && o.packetType != EXECCOMMAND && o.packetLength >= PACKET_OVERHEAD {
      EchoKeeps(k, secret, r, all);
      UnfoldEcho(c, secret, r);
      var replies, next := EchoReplies(o.requestID, o.buffer[12..o.packetLength - 2]), AfterEcho(c, r);
      var h := Handled(Front(c, r), o.packetType);
      FetchKeeps(Handle(k, next, Recorded(h, secret), replies), secret, r, all);
      FineAfter(k, next, h, replies, secret, r, all);
    } else {
      FetchEnds(k, secret, r, all);
    }
  }

  /** Only the header fields kept beside the buffer change. */
  lemma SameBytes(k: Conn, f: Fetched, secret: Secret, r: Reader, all: bool)
    requires Kept(k, r, all) && f.handled == []
    requires f.client.Valid() && f.client.Pending() == k.client.Pending() && f.client.authd == k.client.authd
    requires f.client.inCmd ==> InFlight(f.client, r)
    ensures Conserved(AfterFetch(k, f, secret), r)
    ensures f.sent == [] ==> Kept(AfterFetch(k, f, secret), r, all)
  {
    hide InFlight, AllObserved, AllSettled, Granted, CommandsGranted;
    assert AfterFetch(k, f, secret).items == k.items;
    assert f.sent == [] ==> AfterFetch(k, f, secret).sent == k.sent;
  }

  lemma FetchIncomplete(k: Conn, secret: Secret, r: Reader, all: bool)
    requires k.client.Valid() && Kept(k, r, all) && !k.client.inCmd && !Complete(k.client, r)
    ensures FetchFine(k, secret, r, all)
  {
    hide Kept, Conserved, InFlight, AfterFetch;
    SameBytes(k, Fetch(k.client, secret, r), secret, r, all);
  }

  /** At a packet where the loop stops nothing is taken from the buffer. */
  lemma FetchEnds(k: Conn, secret: Secret, r: Reader, all: bool)
    requires k.client.Valid() && Kept(k, r, all) && !k.client.inCmd && Complete(k.client, r)
    requires var o := Opened(k.client, r);
             if o.packetType == AUTH then secret.Some? && 0 !in k.client.buffer[12..]
             else o.packetType == EXECCOMMAND || o.packetLength < PACKET_OVERHEAD
    ensures FetchFine(k, secret, r, all)
  {
    FetchStops(k.client, secret, r);
    hide Fetch, Kept, Conserved, AfterFetch, Send;
    SameBytes(k, Fetch(k.client, secret, r), secret, r, all);
  }

  // ---- streams of well-formed packets ----

  /** A packet that fits the protocol: a payload and two NULs, or for a string at least one NUL in it. */
  predicate WellFormed(f: Bytes, r: Reader) {
    |f| >= PACKET_OVERHEAD && (KindOf(f, r) == AUTH ==> 0 in f[12..])
  }

  predicate AllWellFormed(fs: seq<Bytes>, r: Reader) {
    forall k :: 0 <= k < |fs| ==> WellFormed(fs[k], r)
  }

  /** Such packets settle the comparison. */
  lemma WellFormedSettled(items: seq<Item>, r: Reader)
    requires AllObserved(items, r) && AllWellFormed(Raws(items), r)
    ensures AllSettled(items)
  {
    forall k | 0 <= k < |items| ensures Settled(items[k]) {
      assert WellFormed(Raws(items)[k], r) && Observed(items[k], r);
    }
  }

  /** Fetching them stays within what C defines. */
  lemma {:induction false} FetchDefined(c: Client, secret: Secret, r: Reader)
    requires c.Valid() && !c.inCmd && AllWellFormed(Parse(c.Pending(), r), r)
    ensures Fetch(c, secret, r).ending != Undefined
    decreases c.recvd
  {
    hide Fetch, WellFormed, Matches;
    if Complete(c, r) {
      var f := Front(c, r);
      FrontHeader(c, r);
      FrontIsFrame(c, r);
      var rest := c.Pending()[|f|..];
      ParseFrame(f, rest, r);
      assert Parse(c.Pending(), r) == [f] + Parse(rest, r);
      RestWellFormed(f, Parse(rest, r), r);
      FrontDefined(c, r);
      FetchStops(c, secret, r);
      if Opened(c, r).packetType == AUTH {
        UnfoldAuth(c, secret, r);
        FetchDefined(AfterAuth(c, secret, r), secret, r);
      } else if Opened(c, r).packetType != EXECCOMMAND {
        UnfoldEcho(c, secret, r);
        FetchDefined(AfterEcho(c, r), secret, r);
      }
    } else {
      IncompleteDefined(c, secret, r);
    }
  }

  lemma RestWellFormed(f: Bytes, fs: seq<Bytes>, r: Reader)
    requires AllWellFormed([f] + fs, r)
    ensures WellFormed(f, r) && AllWellFormed(fs, r)
  {
    assert ([f] + fs)[0] == f;
    assert forall k :: 0 <= k < |fs| ==> ([f] + fs)[k + 1] == fs[k];
  }

  lemma FrontDefined(c: Client, r: Reader)
    requires c.Valid() && Complete(c, r) && WellFormed(Front(c, r), r)
    ensures PacketLength(c.buffer, r) >= PACKET_OVERHEAD
    ensures Opened(c, r).packetType == AUTH ==> 0 in c.buffer[12..]
  {
    var f := Front(c, r);
    FrontHeader(c, r);
    assert c.buffer[12..] == f[12..] + c.buffer[|f|..];
  }

  lemma IncompleteDefined(c: Client, secret: Secret, r: Reader)
    requires c.Valid() && !c.inCmd && !Complete(c, r)
    ensures Fetch(c, secret, r).ending != Undefined
  {}
}
