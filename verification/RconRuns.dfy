/** Whole connections: any splitting of the byte stream, any interleaving of receiving, fetching and
    completing. */
module RconRuns {
  import opened Wrappers
  import opened Words
  import opened CStrings
  import opened RconFraming
  import opened RconModel
  import opened RconStream

  /** What can happen to a connection while it is kept. */
  datatype Event = Arrives(data: Bytes) | Fetches(secret: Secret) | Completes(response: Bytes)

  /** cb_recv stores at least one byte and no more than fit. */
  predicate Fits(c: Client, data: Bytes) {
    data != [] && c.recvd + |data| <= BUFFER_SIZE
  }

  predicate CanHappen(k: Conn, e: Event) {
    e.Arrives? ==> Fits(k.client, e.data)
  }

  /** The packet a command is in. */
  function CommandItem(c: Client, response: Bytes): Item
    requires c.Valid() && c.inCmd
  {
    Item(c.buffer[..c.packetLength], EXECCOMMAND, None, response)
  }

  function Step(k: Conn, e: Event, r: Reader): (k': Conn)
    requires k.client.Valid() && CanHappen(k, e)
    ensures k'.client.Valid()
  {
    match e
    case Arrives(data) => k.(client := Received(k.client, data), stream := k.stream + data)
    case Fetches(secret) => if k.client.inCmd then k else AfterFetch(k, Fetch(k.client, secret, r), secret)
    case Completes(response) =>
      if !k.client.inCmd then k
      else Handle(k, Completed(k.client), CommandItem(k.client, response), CommandReplies(k.client, response))
  }

  predicate IsRun(k: Conn, es: seq<Event>, r: Reader)
    requires k.client.Valid()
    decreases |es|
  {
    es == [] || (CanHappen(k, es[0]) && IsRun(Step(k, es[0], r), es[1..], r))
  }

  function Run(k: Conn, es: seq<Event>, r: Reader): (k': Conn)
    requires k.client.Valid() && IsRun(k, es, r)
    ensures k'.client.Valid()
    decreases |es|
  {
    if es == [] then k else Run(Step(k, es[0], r), es[1..], r)
  }

  /** This event leaves the outcome undefined. */
  predicate GoesWrong(k: Conn, e: Event, r: Reader)
    requires k.client.Valid()
  {
    e.Fetches? && !k.client.inCmd && Fetch(k.client, e.secret, r).ending == Undefined
  }

  predicate AllDefined(k: Conn, es: seq<Event>, r: Reader)
    requires k.client.Valid() && IsRun(k, es, r)
    decreases |es|
  {
    es != [] ==> !GoesWrong(k, es[0], r) && AllDefined(Step(k, es[0], r), es[1..], r)
  }

  /** A connection just accepted into a slot that may have served others before. */
  function Start(slot: Client): Conn {
    Conn(Accepted(slot), [], [], [])
  }

  lemma StartFine(slot: Client, r: Reader)
    requires slot.Valid()
    ensures Start(slot).client.Valid() && Inv(Start(slot), r)
  {}

  // ---- one event ----

  lemma ArrivesKeeps(k: Conn, data: Bytes, r: Reader, all: bool)
    requires Kept(k, r, all) && Fits(k.client, data)
    ensures Kept(Step(k, Arrives(data), r), r, all)
  {
    hide AllObserved, AllReplies, Granted, CommandsGranted, AllSettled;
    var k' := Step(k, Arrives(data), r);
    assert k'.stream == Concat(Raws(k.items)) + (k.client.Pending() + data);
    if k.client.inCmd { StillInFlight(k.client, data, r); }
  }

  /** More input leaves a command and its header where they are. */
  lemma StillInFlight(c: Client, data: Bytes, r: Reader)
    requires c.Valid() && InFlight(c, r) && Fits(c, data)
    ensures InFlight(Received(c, data), r)
    ensures Received(c, data).buffer[..c.packetLength] == c.buffer[..c.packetLength]
  {
    var b, d := c.buffer, Received(c, data).buffer;
    assert forall n :: 0 <= n < c.recvd ==> d[n] == b[n];
    assert d[4..][0] == b[4] && d[4..][1] == b[5] && d[4..][2] == b[6] && d[4..][3] == b[7];
    if c.packetLength >= 12 {
      assert d[8..][0] == b[8] && d[8..][1] == b[9] && d[8..][2] == b[10] && d[8..][3] == b[11];
    }
  }

  lemma CommandReplied(c: Client, response: Bytes, r: Reader)
    requires c.Valid() && c.inCmd && InFlight(c, r)
    ensures var i := CommandItem(c, response);
            i.raw == Front(c, r) && Observed(i, r) && Settled(i) && !Grants(i) &&
            CommandReplies(c, response) == Replies(i, r)
  {
    hide Send;
    FrontHeader(c, r);
    FrontIsFrame(c, r);
  }

  lemma CompletesKeeps(k: Conn, response: Bytes, r: Reader, all: bool)
    requires Kept(k, r, all) && k.client.Valid() && k.client.inCmd
    ensures Kept(Step(k, Completes(response), r), r, all)
  {
    hide AllObserved, Observed, AllSettled, Settled, Answered, Permitted, Replies, Grants, CommandReplies;
    var c := k.client;
    CommandReplied(c, response, r);
    HandleKeeps(k, Completed(c), CommandItem(c, response), CommandReplies(c, response), r, all);
  }

  lemma StepKeeps(k: Conn, e: Event, r: Reader, all: bool)
    requires k.client.Valid() && Kept(k, r, all) && CanHappen(k, e)
    ensures Conserved(Step(k, e, r), r)
    ensures !GoesWrong(k, e, r) ==> Kept(Step(k, e, r), r, all)
  {
    hide Conserved, AllSettled, Answered, Permitted;
    match e
    case Arrives(data) => ArrivesKeeps(k, data, r, all);
    case Fetches(secret) => if !k.client.inCmd { FetchKeeps(k, secret, r, all); }
    case Completes(response) => if k.client.inCmd { CompletesKeeps(k, response, r, all); }
  }

  // ---- whole runs ----

  /** For all bytes a client can send and every run, no byte is lost, invented or reordered. */
  lemma {:induction false} RunConserves(k: Conn, es: seq<Event>, r: Reader)
    requires k.client.Valid() && Conserved(k, r) && IsRun(k, es, r)
    ensures Conserved(Run(k, es, r), r)
    decreases |es|
  {
    hide Conserved;
    if es != [] {
      StepKeeps(k, es[0], r, false);
      RunConserves(Step(k, es[0], r), es[1..], r);
    }
  }

  /** Every run that stays within what C defines keeps the invariant. */
  lemma {:induction false} RunKeeps(k: Conn, es: seq<Event>, r: Reader)
    requires k.client.Valid() && Inv(k, r) && IsRun(k, es, r) && AllDefined(k, es, r)
    ensures Inv(Run(k, es, r), r)
    decreases |es|
  {
    hide Conserved, AllSettled, Answered, Permitted;
    if es != [] {
      StepKeeps(k, es[0], r, true);
      RunKeeps(Step(k, es[0], r), es[1..], r);
    }
  }

  lemma StepGrows(k: Conn, e: Event, r: Reader)
    requires k.client.Valid() && CanHappen(k, e)
    ensures k.stream <= Step(k, e, r).stream
  {}

  lemma {:induction false} RunGrows(k: Conn, es: seq<Event>, r: Reader)
    requires k.client.Valid() && IsRun(k, es, r)
    ensures k.stream <= Run(k, es, r).stream
    decreases |es|
  {
    if es != [] {
      StepGrows(k, es[0], r);
      RunGrows(Step(k, es[0], r), es[1..], r);
    }
  }

  // ---- what this means for a connection ----

  lemma ParseConserved(k: Conn, r: Reader)
    requires Conserved(k, r)
    ensures Parse(k.stream, r) == Raws(k.items) + Parse(k.client.Pending(), r)
  {
    ObservedFrames(k.items, r);
    ParseFrames(Raws(k.items), k.client.Pending(), r);
  }

  /** However the bytes arrived and whatever they are, the packets handled are the first ones parsed from
      the whole stream, and the buffer holds the rest. If no fetch went wrong and every AUTH packet handled
      settled its comparison, what was sent is the replies to the packets in order. */
  lemma ChunkingIndependence(slot: Client, es: seq<Event>, r: Reader)
    requires slot.Valid() && IsRun(Start(slot), es, r)
    ensures var k := Run(Start(slot), es, r);
            && k.stream == Concat(Raws(k.items)) + k.client.Pending()
            && Parse(k.stream, r) == Raws(k.items) + Parse(k.client.Pending(), r)
            && AllObserved(k.items, r)
            && (AllDefined(Start(slot), es, r) && AllSettled(k.items) ==> k.sent == AllReplies(k.items, r))
  {
    StartFine(slot, r);
    RunConserves(Start(slot), es, r);
    ParseConserved(Run(Start(slot), es, r), r);
    if AllDefined(Start(slot), es, r) { RunKeeps(Start(slot), es, r); }
  }

  /** On a stream of well-formed packets nothing goes wrong and every AUTH packet settles its comparison. */
  lemma WellFormedRun(slot: Client, es: seq<Event>, r: Reader)
    requires slot.Valid() && IsRun(Start(slot), es, r)
    requires AllWellFormed(Parse(Run(Start(slot), es, r).stream, r), r)
    ensures AllDefined(Start(slot), es, r) && AllSettled(Run(Start(slot), es, r).items)
  {
    StartFine(slot, r);
    RunDefined(Start(slot), es, r);
    RunConserves(Start(slot), es, r);
    var k := Run(Start(slot), es, r);
    ParseConserved(k, r);
    assert forall n :: 0 <= n < |k.items| ==> Raws(k.items)[n] == Parse(k.stream, r)[n];
    WellFormedSettled(k.items, r);
  }

  lemma {:induction false} RunDefined(k: Conn, es: seq<Event>, r: Reader)
    requires k.client.Valid() && Conserved(k, r) && IsRun(k, es, r)
    requires AllWellFormed(Parse(Run(k, es, r).stream, r), r)
    ensures AllDefined(k, es, r)
    decreases |es|
  {
    hide Conserved, AllWellFormed;
    if es != [] {
      RunGrows(k, es, r);
      PendingWellFormed(k, Run(k, es, r).stream, r);
      if es[0].Fetches? && !k.client.inCmd { FetchDefined(k.client, es[0].secret, r); }
      StepKeeps(k, es[0], r, false);
      RunDefined(Step(k, es[0], r), es[1..], r);
    }
  }

  lemma PendingWellFormed(k: Conn, t: Bytes, r: Reader)
    requires k.client.Valid() && Conserved(k, r) && k.stream <= t && AllWellFormed(Parse(t, r), r)
    ensures AllWellFormed(Parse(k.client.Pending(), r), r)
  {
    hide Parse, Conserved, WellFormed;
    var s := k.stream;
    assert t == s + t[|s|..];
    ParseGrows(s, t[|s|..], r);
    ParseConserved(k, r);
    PartWellFormed(Raws(k.items), Parse(k.client.Pending(), r), Parse(t, r), r);
  }

  lemma PartWellFormed(before: seq<Bytes>, fs: seq<Bytes>, all: seq<Bytes>, r: Reader)
    requires before + fs <= all && AllWellFormed(all, r)
    ensures AllWellFormed(fs, r)
  {
    hide WellFormed;
    forall n | 0 <= n < |fs| ensures WellFormed(fs[n], r) {
      assert fs[n] == (before + fs)[|before| + n] == all[|before| + n];
    }
  }

  /** The same passwords were in force and the same responses given, as far as both got; and packets too
      short to hold their type were taken for the same. */
  predicate Agree(xs: seq<Item>, ys: seq<Item>) {
    forall n :: 0 <= n < |xs| && n < |ys| ==>
      xs[n].secret == ys[n].secret && xs[n].response == ys[n].response &&
      (|xs[n].raw| < 12 ==> xs[n].kind == ys[n].kind)
  }

  lemma {:induction false} RepliesPrefix(xs: seq<Item>, ys: seq<Item>, r: Reader)
    requires AllObserved(ys, r) && xs <= ys
    ensures AllObserved(xs, r) && AllReplies(xs, r) <= AllReplies(ys, r)
    decreases |ys|
  {
    assert forall n :: 0 <= n < |xs| ==> xs[n] == ys[n];
    if |xs| < |ys| {
      RepliesPrefix(xs, ys[..|ys| - 1], r);
    } else {
      assert xs == ys;
    }
  }

  /** Two connections that got the same bytes, in whatever pieces and with whatever was fetched and
      completed in between, sent the same as far as both got. */
  lemma SameStreamSameReplies(a: Client, xs: seq<Event>, b: Client, ys: seq<Event>, r: Reader)
    requires a.Valid() && b.Valid() && IsRun(Start(a), xs, r) && IsRun(Start(b), ys, r)
    requires AllDefined(Start(a), xs, r) && AllDefined(Start(b), ys, r)
    requires Run(Start(a), xs, r).stream == Run(Start(b), ys, r).stream
    requires AllSettled(Run(Start(a), xs, r).items) && AllSettled(Run(Start(b), ys, r).items)
    requires Agree(Run(Start(a), xs, r).items, Run(Start(b), ys, r).items)
    ensures SameAsFar(Run(Start(a), xs, r), Run(Start(b), ys, r))
  {
    StartFine(a, r);
    StartFine(b, r);
    RunKeeps(Start(a), xs, r);
    RunKeeps(Start(b), ys, r);
    SamePrefix(Run(Start(a), xs, r), Run(Start(b), ys, r), r);
  }

  /** One handled and sent no more than the other, and the same; if as many, then all is the same. */
  ghost predicate SameAsFar(k: Conn, l: Conn)
    requires k.client.Valid() && l.client.Valid()
  {
    && (|k.items| <= |l.items| ==> k.items <= l.items && k.sent <= l.sent)
    && (|k.items| == |l.items| ==>
         k.sent == l.sent && k.client.Pending() == l.client.Pending() && k.client.authd == l.client.authd)
  }

  lemma SameItems(k: Conn, l: Conn, r: Reader)
    requires Conserved(k, r) && Conserved(l, r) && k.stream == l.stream && Agree(k.items, l.items)
    requires |k.items| <= |l.items|
    ensures k.items <= l.items
  {
    ParseConserved(k, r);
    ParseConserved(l, r);
    forall n | 0 <= n < |k.items| ensures k.items[n] == l.items[n] {
      assert Raws(k.items)[n] == Parse(k.stream, r)[n] == Raws(l.items)[n];
      assert Observed(k.items[n], r) && Observed(l.items[n], r);
    }
  }

  lemma SamePrefix(k: Conn, l: Conn, r: Reader)
    requires Inv(k, r) && Inv(l, r) && k.stream == l.stream && Agree(k.items, l.items)
    requires AllSettled(k.items) && AllSettled(l.items)
    ensures SameAsFar(k, l)
  {
    hide Agree, AllReplies, AllObserved, AllSettled, InFlight, Granted, CommandsGranted;
    if |k.items| <= |l.items| {
      SameItems(k, l, r);
      RepliesPrefix(k.items, l.items, r);
      if |k.items| == |l.items| {
        assert k.items == l.items;
        var c := Concat(Raws(k.items));
        assert k.client.Pending() == k.stream[|c|..] && l.client.Pending() == l.stream[|c|..];
      }
    }
  }

  // ---- commands ----

  /** The command that is out is the next packet of the stream, whatever the bytes are, and its client is
      authorised. Where every AUTH packet handled settled its comparison, a client is authorised exactly if
      one of them, handled since it was accepted, matched the password of its time; and every command came
      after one that did. */
  lemma CommandNeedsAuth(slot: Client, es: seq<Event>, r: Reader)
    requires slot.Valid() && IsRun(Start(slot), es, r)
    ensures var k := Run(Start(slot), es, r);
            (k.client.inCmd ==> k.client.authd && IsNextPacket(k, r)) &&
            (AllDefined(Start(slot), es, r) && AllSettled(k.items) ==>
              (k.client.authd <==> Granted(k.items)) && CommandsGranted(k.items))
  {
    StartFine(slot, r);
    RunConserves(Start(slot), es, r);
    var k := Run(Start(slot), es, r);
    if k.client.inCmd { CommandIsNext(k, r); }
    if AllDefined(Start(slot), es, r) { RunKeeps(Start(slot), es, r); }
  }

  /** The packet the command is in is the first one parsed that was not handled. */
  ghost predicate IsNextPacket(k: Conn, r: Reader)
    requires k.client.Valid() && k.client.inCmd
  {
    var c, n := k.client, |k.items|;
    n < |Parse(k.stream, r)| && 10 <= c.packetLength && c.Pending()[..c.packetLength] == Parse(k.stream, r)[n]
  }

  lemma CommandIsNext(k: Conn, r: Reader)
    requires Conserved(k, r) && k.client.Valid() && k.client.inCmd
    ensures IsNextPacket(k, r) && k.client.authd
  {
    hide AllObserved, Parse;
    var c := k.client;
    FrontIsNext(k, r);
    assert c.Pending()[..c.packetLength] == Front(c, r);
  }

  /** Whatever arrives and however often the server fetches, a command given to the caller stays as it is
      until it is completed. */
  lemma {:induction false} CommandHeld(k: Conn, es: seq<Event>, r: Reader)
    requires k.client.Valid() && Conserved(k, r) && k.client.inCmd && IsRun(k, es, r)
    requires forall n :: 0 <= n < |es| ==> !es[n].Completes?
    ensures var c, d := k.client, Run(k, es, r).client;
            d.inCmd && d.packetLength == c.packetLength && d.requestID == c.requestID &&
            d.buffer[..c.packetLength] == c.buffer[..c.packetLength] && d.recvd >= c.recvd &&
            Run(k, es, r).items == k.items && Run(k, es, r).sent == k.sent
    decreases |es|
  {
    hide AllObserved, Complete;
    if es != [] {
      var k' := Step(k, es[0], r);
      if es[0].Arrives? { StillInFlight(k.client, es[0].data, r); }
      StepKeeps(k, es[0], r, false);
      CommandHeld(k', es[1..], r);
    }
  }

  /** The C string at *commandPtr. */
  function CommandString(c: Client): Bytes
    requires c.Valid()
  {
    CString(c.buffer[12..])
  }

  /** Whatever arrives, the string stays as it is exactly if it ends within the bytes received, or nothing
      more fits; a NUL in the packet is enough. A packet of ten or eleven bytes ends before the string. */
  lemma CommandStringHeld(c: Client)
    requires c.Valid()
    ensures (forall data | Fits(c, data) :: CommandString(Received(c, data)) == CommandString(c))
       <==> (12 <= c.recvd && 0 in c.buffer[12..c.recvd]) || c.recvd == BUFFER_SIZE
  {
    if c.recvd < 12 {
      StringBefore(c, Reaching(c));
    } else if 0 in c.buffer[12..c.recvd] {
      forall data | Fits(c, data) ensures CommandString(Received(c, data)) == CommandString(c) { StringEnded(c, data); }
    } else if c.recvd < BUFFER_SIZE {
      StringOpen(c, if c.buffer[c.recvd] == 0 then [1] else [0]);
    }
  }

  /** Bytes up to the first of the string, which they change. */
  function Reaching(c: Client): (data: Bytes)
    requires c.Valid() && c.recvd < 12
    ensures |data| == 13 - c.recvd && (data[12 - c.recvd] == 0 <==> c.buffer[12] != 0)
  {
    seq(12 - c.recvd, k => 0) + (if c.buffer[12] == 0 then [1] else [0])
  }

  lemma StringBefore(c: Client, data: Bytes)
    requires c.Valid() && c.recvd < 12 && |data| == 13 - c.recvd && Fits(c, data)
    requires data[12 - c.recvd] == 0 <==> c.buffer[12] != 0
    ensures CommandString(Received(c, data)) != CommandString(c)
  {
    var s, u := c.buffer[12..], Received(c, data).buffer[12..];
    assert s[0] == c.buffer[12] && u[0] == data[12 - c.recvd];
    assert CString(s) == [] <==> s[0] == 0;
    assert CString(u) == [] <==> u[0] == 0;
  }

  lemma StringEnded(c: Client, data: Bytes)
    requires c.Valid() && 12 <= c.recvd && Fits(c, data) && 0 in c.buffer[12..c.recvd]
    ensures CommandString(Received(c, data)) == CommandString(c)
  {
    hide Received, CString;
    var p, t := c.buffer[12..c.recvd], c.buffer[c.recvd..];
    assert c.buffer[12..] == p + t;
    StringReceived(c, data);
    StringSettled(p, t);
    StringSettled(p, data + t[|data|..]);
  }

  lemma StringOpen(c: Client, data: Bytes)
    requires c.Valid() && 12 <= c.recvd && Fits(c, data) && 0 !in c.buffer[12..c.recvd]
    requires data[0] == 0 <==> c.buffer[c.recvd] != 0
    ensures CommandString(Received(c, data)) != CommandString(c)
  {
    hide Received;
    var p, t := c.buffer[12..c.recvd], c.buffer[c.recvd..];
    var u := data + t[|data|..];
    assert c.buffer[12..] == p + t;
    StringReceived(c, data);
    StringContinues(p, t);
    StringContinues(p, u);
    assert CString(t) == [] <==> t[0] == 0;
    assert CString(u) == [] <==> u[0] == 0;
  }

  lemma StringReceived(c: Client, data: Bytes)
    requires c.Valid() && 12 <= c.recvd && Fits(c, data)
    ensures Received(c, data).buffer[12..] == c.buffer[12..c.recvd] + (data + c.buffer[c.recvd..][|data|..])
  {}

  // ---- how fetching ends ----

  /** Nothing complete is left; a full buffer then holds a packet too long for it. */
  predicate Drained(c: Client, r: Reader)
    requires c.Valid()
  {
    Parse(c.Pending(), r) == [] && (c.recvd == BUFFER_SIZE ==> PacketLength(c.buffer, r) > BUFFER_SIZE)
  }

  /** At the front is a length below ten, or a command although the client is not authorised. */
  predicate Refusable(c: Client, r: Reader)
    requires c.Valid()
  {
    c.recvd >= 4 && PacketLength(c.buffer, r) <= c.recvd &&
    (PacketLength(c.buffer, r) < 10 || (!c.authd && ReadI32(c.buffer[8..], r) == EXECCOMMAND))
  }

  predicate EndsRight(f: Fetched, r: Reader)
    requires f.client.Valid()
  {
    match f.ending
    case Waiting => Drained(f.client, r) && !f.client.inCmd
    case Command => f.client.authd && f.client.inCmd
    case Refused => Refusable(f.client, r)
    case Undefined => true
  }

  /** Fetching goes on until no complete packet is left, a command is found or a packet is refused. */
  lemma {:induction false} FetchDrains(c: Client, secret: Secret, r: Reader)
    requires c.Valid() && !c.inCmd
    ensures EndsRight(Fetch(c, secret, r), r)
    decreases c.recvd
  {
    if Complete(c, r) {
      var o := Opened(c, r);
      if o.packetType == AUTH {
        if secret.None? || 0 in o.buffer[12..] {
          UnfoldAuth(c, secret, r);
          FetchDrains(AfterAuth(c, secret, r), secret, r);
        }
      } else if o.packetType != EXECCOMMAND && o.packetLength >= PACKET_OVERHEAD {
        UnfoldEcho(c, secret, r);
        FetchDrains(AfterEcho(c, r), secret, r);
      }
    } else {
      WaitsDrained(c, secret, r);
    }
  }

  lemma WaitsDrained(c: Client, secret: Secret, r: Reader)
    requires c.Valid() && !c.inCmd && !Complete(c, r)
    ensures EndsRight(Fetch(c, secret, r), r)
  {
    if c.recvd >= 4 {
      SameHeader(c.Pending(), c.buffer, r);
    }
  }

  /** A full buffer holds a complete packet exactly if the length at its front is one a packet can have; so
      no packet that fits the buffer ever waits for input that cannot come. */
  lemma FullBufferComplete(c: Client, r: Reader)
    requires c.Valid() && c.recvd == BUFFER_SIZE
    ensures Parse(c.Pending(), r) != [] <==> 10 <= PacketLength(c.buffer, r) <= BUFFER_SIZE
  {
    assert c.Pending() == c.buffer;
  }

  /** A refused packet stays at the front: fetching again, with any password, changes nothing, sends nothing
      and is refused again. A client that waits goes on waiting. */
  lemma {:induction false} FetchStuck(c: Client, secret: Secret, again: Secret, r: Reader)
    requires c.Valid() && !c.inCmd
    ensures var f := Fetch(c, secret, r);
            f.ending == Refused || f.ending == Waiting ==>
              !f.client.inCmd && Fetch(f.client, again, r) == Fetched(f.client, [], [], f.ending)
    decreases c.recvd
  {
    if Complete(c, r) {
      var o := Opened(c, r);
      FetchStops(c, secret, r);
      if o.packetType == AUTH && (secret.None? || 0 in c.buffer[12..]) {
        UnfoldAuth(c, secret, r);
        FetchStuck(AfterAuth(c, secret, r), secret, again, r);
      } else if o.packetType != AUTH && o.packetType != EXECCOMMAND && o.packetLength >= PACKET_OVERHEAD {
        UnfoldEcho(c, secret, r);
        FetchStuck(AfterEcho(c, r), secret, again, r);
      } else if o.packetType == EXECCOMMAND {
        assert Opened(o, r) == o;
        FetchStops(o, again, r);
      }
    } else {
      IncompleteStuck(c, secret, again, r);
    }
  }

  lemma IncompleteStuck(c: Client, secret: Secret, again: Secret, r: Reader)
    requires c.Valid() && !c.inCmd && !Complete(c, r)
    ensures var f := Fetch(c, secret, r);
            !f.client.inCmd && Fetch(f.client, again, r) == Fetched(f.client, [], [], f.ending)
  {
    hide Fetch;
    FetchIncompleteIs(c, secret, r);
    FetchIncompleteIs(if c.recvd < 4 then c else Sized(c, r), again, r);
  }

  lemma FetchIncompleteIs(c: Client, secret: Secret, r: Reader)
    requires c.Valid() && !c.inCmd && !Complete(c, r)
    ensures Fetch(c, secret, r)
         == if c.recvd < 4 then Fetched(c, [], [], Waiting)
            else Fetched(Sized(c, r), [], [], if c.recvd < PacketLength(c.buffer, r) then Waiting else Refused)
  {}
}
