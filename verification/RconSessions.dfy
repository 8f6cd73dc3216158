/** Sessions: who is connected, and that a client that keeps to the protocol is served. */
module RconSessions {
  import opened Wrappers
  import opened Words
  import opened CStrings
  import opened RconFraming
  import opened RconModel
  import opened RconStream
  import opened RconRuns
  import opened RconAuth
  import opened RconReplies
  import opened RconServer
  import opened RconServerRuns

  // ---- accepting a client ----

  /** Receiving fails on no slot. */
  predicate NoneFail(cs: seq<Client>, input: Input)
    requires |input.ready| == |input.arrivals| == |cs|
  {
    forall i :: 0 <= i < |cs| ==> !(cs[i].inUse && input.ready[i] && input.arrivals[i].Failed?)
  }

  /** A client that is not sent any data although it is ready has gone. */
  predicate Goes(input: Input, i: nat)
    requires i < |input.ready| == |input.arrivals|
  {
    input.ready[i] && !input.arrivals[i].Data?
  }

  /** What rcon_wait_for_input does if waiting succeeds and no receive fails: the client accepted is in its slot,
      in use, with nothing received, not authorised and without a command; the bytes of a slot that was free
      are as they were. All others are in use if they were and have not gone. */
  lemma AcceptedIsIn(was: seq<Client>, now: seq<Client>, input: Input, stop: nat, status: int)
    requires Possible(was, input) && AllValid(was) && Waited(was, now, input, stop, status)
    requires input.waited > 0 && NoneFail(was, input)
    ensures |now| == |was| && status == if input.listenerReady && input.accepted < 0 then input.accepted else 0
    ensures var n := if input.listenerReady && input.accepted > 0 then input.accepted - 1 else |was|;
            && (n < |was| ==>
                 now[n].inUse && now[n].recvd == 0 && !now[n].authd && !now[n].inCmd &&
                 (!was[n].inUse ==> now[n].buffer == was[n].buffer))
            && forall i :: 0 <= i < |was| && i != n ==> (now[i].inUse <==> was[i].inUse && !Goes(input, i))
  {
    hide TookAll, CanArrive, Goes, Client.Valid, Fails;
    NobodyFails(was, now, input, stop, status);
    var mid: seq<Client> :| TookAll(was, mid, input, stop, 0) && |mid| == |was| && now == Joined(mid, input) &&
      status == JoinStatus(input);
    TookStay(was, mid, input, stop);
  }

  lemma NobodyFails(was: seq<Client>, now: seq<Client>, input: Input, stop: nat, status: int)
    requires Possible(was, input) && AllValid(was) && Waited(was, now, input, stop, status)
    requires input.waited > 0 && NoneFail(was, input)
    ensures stop >= |was|
  {
    hide CanArrive, Client.Valid, TakenUpTo, Joined;
    assert forall i :: 0 <= i < |was| ==> !FailsAt(was, input, i);
  }

  lemma TookStay(was: seq<Client>, mid: seq<Client>, input: Input, stop: nat)
    requires Possible(was, input) && AllValid(was) && stop >= |was| && TookAll(was, mid, input, stop, 0)
    ensures |mid| == |was|
    ensures forall i :: 0 <= i < |was| ==> (mid[i].inUse <==> was[i].inUse && !Goes(input, i))
    ensures forall i :: 0 <= i < |was| && !was[i].inUse ==> mid[i].buffer == was[i].buffer
  {
    hide CanArrive, TakenAt, Goes, Client.Valid;
    forall i | 0 <= i < |was|
      ensures mid[i].inUse <==> was[i].inUse && !Goes(input, i)
      ensures !was[i].inUse ==> mid[i].buffer == was[i].buffer
    {
      assert mid[i] == TakenAt(was, input, i);
      TakenGoes(was, input, i);
    }
  }

  lemma TakenGoes(was: seq<Client>, input: Input, i: nat)
    requires Possible(was, input) && AllValid(was) && i < |was|
    ensures TakenAt(was, input, i).inUse <==> was[i].inUse && !Goes(input, i)
    ensures !was[i].inUse ==> TakenAt(was, input, i).buffer == was[i].buffer
  {
    hide CanArrive, Client.Valid;
  }

  // ---- who is connected ----

  /** Is slot i connected after this call of a server with n slots, if it was or was not before? Only what was
      called and answered is asked. */
  predicate StillIn(connected: bool, call: Call, i: nat, n: nat) {
    match call
    case Wait(input, stop) =>
      if input.waited <= 0 then connected
      else if stop == n && input.listenerReady && input.accepted == i + 1 then true
      else connected && !(i <= stop && i < |input.ready| == |input.arrivals| && Goes(input, i))
    case FetchOne(_, _) => connected
    case Complete(_, _) => connected
    case Drop(slot) => connected && slot != i
  }

  predicate ConnectedAfter(calls: seq<Call>, i: nat, n: nat)
    decreases |calls|
  {
    calls != [] && StillIn(ConnectedAfter(calls[..|calls| - 1], i, n), calls[|calls| - 1], i, n)
  }

  lemma CallConnects(w: World, call: Call, i: nat, r: Reader)
    requires Sound(w) && Allowed(w, call) && i < |w|
    ensures Do(w, call, r)[i].client.inUse <==> StillIn(w[i].client.inUse, call, i, |w|)
  {
    hide Client.Valid, Fetch;
    match call
    case Wait(input, stop) => assert CanArrive(ClientsOf(w)[i], input.ready[i], input.arrivals[i]);
    case FetchOne(secret, stop) => FetchStaysIn(w[i], secret, r);
    case Complete(slot, response) =>
    case Drop(slot) =>
  }

  lemma FetchStaysIn(k: Conn, secret: Secret, r: Reader)
    requires k.client.Valid()
    ensures FetchConn(k, secret, r).client.inUse == k.client.inUse
  {
    hide Fetch, Client.Valid;
  }

  /** The calls from the front. */
  predicate Connected(connected: bool, calls: seq<Call>, i: nat, n: nat)
    decreases |calls|
  {
    if calls == [] then connected else Connected(StillIn(connected, calls[0], i, n), calls[1..], i, n)
  }

  lemma {:induction false} ConnectedMore(connected: bool, calls: seq<Call>, call: Call, i: nat, n: nat)
    ensures Connected(connected, calls + [call], i, n) == StillIn(Connected(connected, calls, i, n), call, i, n)
    decreases |calls|
  {
    hide StillIn;
    if calls == [] {
      assert calls + [call] == [call] && [call][1..] == [];
    } else {
      assert (calls + [call])[0] == calls[0] && (calls + [call])[1..] == calls[1..] + [call];
      ConnectedMore(StillIn(connected, calls[0], i, n), calls[1..], call, i, n);
    }
  }

  lemma {:induction false} FromTheEnd(calls: seq<Call>, i: nat, n: nat)
    ensures Connected(false, calls, i, n) == ConnectedAfter(calls, i, n)
    decreases |calls|
  {
    hide StillIn;
    if calls != [] {
      var before, last := calls[..|calls| - 1], calls[|calls| - 1];
      assert calls == before + [last];
      FromTheEnd(before, i, n);
      ConnectedMore(false, before, last, i, n);
    }
  }

  lemma {:induction false} RunConnects(w: World, calls: seq<Call>, i: nat, r: Reader)
    requires Sound(w) && IsServerRun(w, calls, r) && i < |w|
    ensures RunServer(w, calls, r)[i].client.inUse == Connected(w[i].client.inUse, calls, i, |w|)
    decreases |calls|
  {
    hide StillIn, Do, Sound;
    if calls != [] {
      CallConnects(w, calls[0], i, r);
      RunConnects(Do(w, calls[0], r), calls[1..], i, r);
    }
  }

  /** Over every run of the server: a slot is in use if and only if a client was accepted into it and has
      neither gone nor been dropped since. */
  lemma InUseExactly(clients: nat, calls: seq<Call>, i: nat, r: Reader)
    requires IsServerRun(Fresh(clients), calls, r) && i < clients
    ensures RunServer(Fresh(clients), calls, r)[i].client.inUse <==> ConnectedAfter(calls, i, clients)
  {
    RunConnects(Fresh(clients), calls, i, r);
    FromTheEnd(calls, i, clients);
  }

  /** One of these packets is of type 3 and gives the password then in force. */
  predicate Proved(items: seq<Item>) {
    exists j :: 0 <= j < |items| && items[j].kind == 3 && Gives(items[j].raw, items[j].secret)
  }

  /** Over every run of the server, with clients coming and going: if every AUTH packet of a connection settled
      its comparison, the bytes sent on it are parsed into just what it is to be told about each of its
      packets in order, and it is authorised if and only if one of them gave the password. */
  lemma ServerTold(clients: nat, calls: seq<Call>, i: nat, r: Reader)
    requires IsServerRun(Fresh(clients), calls, r) && i < clients
    requires RunServer(Fresh(clients), calls, r)[i].client.inUse
    ensures var k := RunServer(Fresh(clients), calls, r)[i];
            && AllObserved(k.items, r)
            && (AllSettled(k.items) ==>
                 (forall f :: f in k.sent ==> 14 <= |f| <= 4100) &&
                 Parse(Concat(k.sent), CharReader(false)) == k.sent && Read(k.sent) == AllTold(k.items, r) &&
                 (k.client.authd <==> Proved(k.items)))
  {
    hide Parse, Concat, Read, AllReplies, AllTold, AllFrames, Granted, Proved, Observed;
    ServerRunsSafe(clients, calls, i, r);
    var k := RunServer(Fresh(clients), calls, r)[i];
    if AllSettled(k.items) {
      AllRepliesRead(k.items, r);
      AllParsed(k.sent);
      GrantedProved(k.items);
    }
  }

  lemma GrantedProved(items: seq<Item>)
    ensures Granted(items) <==> Proved(items)
  {
    hide Grants, Gives;
    forall j | 0 <= j < |items|
      ensures Grants(items[j]) <==> items[j].kind == 3 && Gives(items[j].raw, items[j].secret)
    {
      GrantsGives(items[j]);
    }
  }

  // ---- a client that keeps to the protocol ----

  /** Someone connects, to the first slot. */
  function Connecting(n: nat): Input {
    Input(1, seq(n, i => false), seq(n, i => Closed), true, 1)
  }

  /** These bytes arrive there. */
  function Sending(n: nat, data: Bytes): Input {
    Input(1, seq(n, i => i == 0), seq(n, i => Data(data)), false, 0)
  }

  /** Accepting, receiving, fetching. */
  function LoginCalls(n: nat, f: Bytes, secret: Bytes): seq<Call> {
    [Wait(Connecting(n), n), Wait(Sending(n, f), n), FetchOne(Some(secret), n)]
  }

  /** Only the first slot is in use, and it is this connection's. */
  ghost predicate Alone(w: World, k: Conn, r: Reader) {
    Safe(w, r) && w != [] && w[0] == k && forall i :: 0 < i < |w| ==> !w[i].client.inUse
  }

  lemma Connects(n: nat, r: Reader)
    requires n > 0
    ensures Safe(Fresh(n), r) && Allowed(Fresh(n), Wait(Connecting(n), n))
    ensures Defined(Fresh(n), Wait(Connecting(n), n), r)
    ensures Alone(Do(Fresh(n), Wait(Connecting(n), n), r), Start(FreshSlot()), r)
  {
    hide Inv;
    var w, call := Fresh(n), Wait(Connecting(n), n);
    DoKeeps(w, call, r);
  }

  lemma Sends(w: World, k: Conn, data: Bytes, r: Reader)
    requires Alone(w, k, r) && k.client.inUse && Fits(k.client, data)
    ensures Allowed(w, Wait(Sending(|w|, data), |w|)) && Defined(w, Wait(Sending(|w|, data), |w|), r)
    ensures Alone(Do(w, Wait(Sending(|w|, data), |w|), r), Step(k, Arrives(data), r), r)
  {
    hide Inv, Received, Client.Valid;
    var call := Wait(Sending(|w|, data), |w|);
    assert forall i :: 0 <= i < |w| ==> CanArrive(w[i].client, call.input.ready[i], call.input.arrivals[i]);
    DoKeeps(w, call, r);
  }

  lemma FetchesAll(w: World, k: Conn, secret: Secret, r: Reader)
    requires Alone(w, k, r) && k.client.inUse && !k.client.inCmd && Fetch(k.client, secret, r).ending == Waiting
    ensures Allowed(w, FetchOne(secret, |w|)) && Defined(w, FetchOne(secret, |w|), r)
    ensures forall i :: 0 <= i < |w| ==> FetchSlot(w[i].client, secret, r).ending == Waiting
    ensures Alone(Do(w, FetchOne(secret, |w|), r), Step(k, Fetches(secret), r), r)
  {
    hide Inv, Fetch, Client.Valid;
    DoKeeps(w, FetchOne(secret, |w|), r);
  }

  /** A packet of type 3 that gives the password. */
  predicate GoodLogin(f: Bytes, secret: Bytes, r: Reader) {
    IsFrame(f, r) && 12 <= |f| <= 4100 && ReadI32(f[8..], r) == 3 && Gives(f, Some(secret))
  }

  /** A new server with room for a client: whoever connects and sends a packet of type 3 that gives the password
      is in its slot, authorised, and told so; just that packet was handled, and nobody else is there. */
  lemma LoginServed(n: nat, f: Bytes, secret: Bytes, r: Reader)
    requires n > 0 && GoodLogin(f, secret, r)
    ensures IsServerRun(Fresh(n), LoginCalls(n, f, secret), r)
    ensures var w := RunServer(Fresh(n), LoginCalls(n, f, secret), r);
            LoggedIn(w[0], f, secret, r) && forall i :: 0 < i < n ==> !w[i].client.inUse
  {
    hide Do, Safe, Allowed, Defined, Run, IsRun, AllDefined, LogsIn, Step, LoggedIn, Alone;
    var k0, w0 := Start(FreshSlot()), Fresh(n);
    var calls := LoginCalls(n, f, secret);
    Connects(n, r);
    var w1 := Do(w0, calls[0], r);
    StartIs();
    AloneSize(w1, k0, r);
    Sends(w1, k0, f, r);
    var w2, k1 := Do(w1, calls[1], r), Step(k0, Arrives(f), r);
    LoginWorks(f, secret, r);
    AloneSize(w2, k1, r);
    FetchesAll(w2, k1, Some(secret), r);
    var w3, k2 := Do(w2, calls[2], r), Step(k1, Fetches(Some(secret)), r);
    AloneSize(w3, k2, r);
    ThreeCalls(w0, calls[0], calls[1], calls[2], r);
  }

  lemma ThreeCalls(w: World, a: Call, b: Call, c: Call, r: Reader)
    requires Sound(w) && Allowed(w, a) && Defined(w, a, r) && Sound(Do(w, a, r))
    requires var w1 := Do(w, a, r); Allowed(w1, b) && Defined(w1, b, r) && Sound(Do(w1, b, r))
    requires var w2 := Do(Do(w, a, r), b, r); Allowed(w2, c) && Defined(w2, c, r) && Sound(Do(w2, c, r))
    ensures IsServerRun(w, [a, b, c], r)
    ensures RunServer(w, [a, b, c], r) == Do(Do(Do(w, a, r), b, r), c, r)
  {
    hide Do, Allowed, Defined, Sound;
    var w1 := Do(w, a, r);
    var w2 := Do(w1, b, r);
    var w3 := Do(w2, c, r);
    assert [a, b, c][1..] == [b, c] && [b, c][1..] == [c] && [c][1..] == [];
    assert IsServerRun(w3, [], r) && RunServer(w3, [], r) == w3;
    assert IsServerRun(w2, [c], r) && RunServer(w2, [c], r) == w3;
    assert IsServerRun(w1, [b, c], r) && RunServer(w1, [b, c], r) == w3;
  }

  lemma StartIs()
    ensures var k := Start(FreshSlot()); k.client.Valid() && k.client.inUse && k.client.recvd == 0 && !k.client.inCmd
  {}

  lemma AloneSize(w: World, k: Conn, r: Reader)
    requires Alone(w, k, r)
    ensures Sound(w) && w != [] && w[0] == k && forall i :: 0 < i < |w| ==> !w[i].client.inUse
  {}

  /** What a login makes of a new connection. */
  ghost predicate LoggedIn(k: Conn, f: Bytes, secret: Bytes, r: Reader)
    requires |f| >= 8
  {
    var id := ReadI32(f[4..], r);
    && k.client.Valid() && k.client.inUse && k.client.authd && !k.client.inCmd && k.client.recvd == 0
    && k.items == [Item(f, 3, Some(secret), [])] && AllObserved(k.items, r)
    && ReadAs(k.sent, [Packet(id, 0, []), Packet(id, 2, [])])
  }

  /** The same for the connection by itself. */
  lemma LoginWorks(f: Bytes, secret: Bytes, r: Reader)
    requires GoodLogin(f, secret, r)
    ensures Fits(Start(FreshSlot()).client, f)
    ensures var k1 := Step(Start(FreshSlot()), Arrives(f), r);
            k1.client.inUse && !k1.client.inCmd && Fetch(k1.client, Some(secret), r).ending == Waiting
    ensures LoggedIn(Step(Step(Start(FreshSlot()), Arrives(f), r), Fetches(Some(secret)), r), f, secret, r)
  {
    hide LoggedIn, Run, IsRun, AllDefined, Fetch, IsFrame, Gives;
    LoginFetched(f, secret, r);
    LoginSteps(FreshSlot(), f, secret, r);
    LoginOutcome(f, secret, r);
  }

  lemma LoginFetched(f: Bytes, secret: Bytes, r: Reader)
    requires GoodLogin(f, secret, r)
    ensures var c := Received(Accepted(FreshSlot()), f);
            c.inUse && !c.inCmd && Fetch(c, Some(secret), r).ending == Waiting
  {
    hide Fetch, Matches, Front, RconModel.Complete, IsFrame, Overlaid, Gives;
    var slot := FreshSlot();
    var c := Received(Accepted(slot), f);
    GivenIn(f, secret, slot.buffer, r);
    LoginArrives(slot, f);
    LoginFront(c, f, r);
    LoginFetch(c, f, secret, r);
  }

  lemma LoginOutcome(f: Bytes, secret: Bytes, r: Reader)
    requires GoodLogin(f, secret, r)
    ensures IsRun(Start(FreshSlot()), Login(f, secret), r)
    ensures LoggedIn(Run(Start(FreshSlot()), Login(f, secret), r), f, secret, r)
  {
    hide Matches, IsFrame, Overlaid, ReadAs, Run, IsRun, AllDefined, Gives, Grants, Settled, Fetch;
    hide AllReplies, AllTold, AllObserved, Granted, Conserved, CommandsGranted;
    var slot, es, i := FreshSlot(), Login(f, secret), Item(f, 3, Some(secret), []);
    GivenIn(f, secret, slot.buffer, r);
    LoginRuns(slot, f, secret, r);
    var k := Run(Start(slot), es, r);
    assert k.items == [i];
    ChunkingIndependence(slot, es, r);
    OneItem(k.items, i, r);
    CommandNeedsAuth(slot, es, r);
    GrantsGives(i);
    LoginStays(f, secret, r);
    NothingPending(k, f, i);
    AllRepliesRead(k.items, r);
    TakenUp(k, r);
  }

  /** A login leaves the client in its slot. */
  lemma LoginStays(f: Bytes, secret: Bytes, r: Reader)
    requires GoodLogin(f, secret, r) && IsRun(Start(FreshSlot()), Login(f, secret), r)
    ensures var k := Run(Start(FreshSlot()), Login(f, secret), r); k.client.inUse && k.stream == f
  {
    hide Fetch, IsFrame, Gives, Run, IsRun, AllDefined;
    LoginSteps(FreshSlot(), f, secret, r);
  }

  /** No command is out where nothing is pending. */
  lemma TakenUp(k: Conn, r: Reader)
    requires k.client.Valid() && k.client.recvd == 0 && (k.client.inCmd ==> IsNextPacket(k, r))
    ensures !k.client.inCmd
  {
    hide Parse;
    if k.client.inCmd { EmptyStream(r); }
  }

  lemma EmptyStream(r: Reader)
    ensures Parse([], r) == []
  {}

  /** The buffer then has the type, and a NUL behind the password. */
  lemma GivenIn(f: Bytes, secret: Bytes, was: Bytes, r: Reader)
    requires GoodLogin(f, secret, r) && |was| == BUFFER_SIZE
    ensures var b := Overlaid(f, was); |b| == BUFFER_SIZE && ReadI32(b[8..], r) == AUTH && 0 in b[12..]
    ensures Settled(Item(f, 3, Some(secret), [])) && 0 in f[12..]
  {
    hide IsFrame;
    var b := Overlaid(f, was);
    SameWord(b, f, r);
    assert b[12..][|secret|] == 0 && f[12..][|secret|] == 0;
  }

  lemma OneItem(items: seq<Item>, i: Item, r: Reader)
    requires items == [i]
    ensures AllSettled(items) <==> Settled(i)
    ensures Granted(items) <==> Grants(i)
    ensures Raws(items) == [i.raw]
    ensures AllObserved(items, r) ==> Observed(i, r) && AllTold(items, r) == Told(i, r)
  {
    hide Settled, Grants, Observed, Told;
    if Grants(i) { assert Grants(items[0]); }
    assert items[..0] == [];
    if AllObserved(items, r) { assert Observed(items[0], r); }
  }

  lemma NothingPending(k: Conn, f: Bytes, i: Item)
    requires k.client.Valid() && k.stream == f && i.raw == f && k.items == [i]
    requires k.stream == Concat(Raws(k.items)) + k.client.Pending()
    ensures k.client.recvd == 0
  {
    ConcatOne(f);
    assert Raws(k.items) == [f];
  }

  // ---- commands ----

  /** A packet of type 2 with a NUL in its payload. */
  predicate GoodCommand(g: Bytes, r: Reader) {
    IsFrame(g, r) && 12 <= |g| <= 4100 && ReadI32(g[8..], r) == 2 && 0 in g[12..]
  }

  lemma CommandArrives(c: Client, g: Bytes, r: Reader)
    requires c.Valid() && !c.inCmd && c.recvd == 0 && GoodCommand(g, r)
    ensures var d := Received(c, g);
            && RconModel.Complete(d, r) && Front(d, r) == g && d.recvd == |g| && !d.inCmd && d.authd == c.authd
            && PacketLength(d.buffer, r) == |g| && d.buffer[..|g|] == g
            && ReadI32(d.buffer[8..], r) == 2 && ReadI32(d.buffer[4..], r) == ReadI32(g[4..], r)
            && CString(d.buffer[12..]) == CString(g[12..])
  {
    hide IsFrame, RconModel.Complete, CString, Received, Front, PacketLength, ReadI32;
    var d := Received(c, g);
    CommandBuffer(c, g);
    StringSettled(g[12..], c.buffer[|g|..]);
    LoginFront(d, g, r);
    FrontLength(d, g, r);
    SameWord(d.buffer, g, r);
    SameId(d.buffer, g, r);
  }

  lemma CommandBuffer(c: Client, g: Bytes)
    requires c.Valid() && c.recvd == 0 && 12 <= |g| <= BUFFER_SIZE
    ensures var d := Received(c, g);
            && d.recvd == |g| && d.inCmd == c.inCmd && d.authd == c.authd && d.buffer[..|g|] == g
            && d.buffer[4..12] == g[4..12] && d.buffer[8..12] == g[8..12]
            && d.buffer[12..] == g[12..] + c.buffer[|g|..]
  {
    assert Received(c, g).buffer == g + c.buffer[|g|..];
  }

  lemma SameId(a: Bytes, b: Bytes, r: Reader)
    requires |a| >= 12 && |b| >= 12 && a[4..12] == b[4..12]
    ensures ReadI32(a[4..], r) == ReadI32(b[4..], r)
  {
    assert forall k :: 4 <= k < 12 ==> a[k] == a[4..12][k - 4] && b[k] == b[4..12][k - 4];
  }

  lemma FrontLength(d: Client, g: Bytes, r: Reader)
    requires d.Valid() && RconModel.Complete(d, r) && Front(d, r) == g
    ensures PacketLength(d.buffer, r) == |g|
  {}

  /** A command that is out: its packet, its id and its text. */
  ghost predicate Holds(c: Client, g: Bytes, r: Reader)
    requires |g| >= 12
  {
    && c.Valid() && c.inCmd && c.authd && c.requestID == ReadI32(g[4..], r) && c.packetLength == |g| == c.recvd
    && c.buffer[..|g|] == g && CommandString(c) == CString(g[12..])
  }

  /** The command is handed out. */
  lemma CommandFetched(k: Conn, g: Bytes, secret: Secret, r: Reader)
    requires k.client.Valid() && k.client.authd && !k.client.inCmd && k.client.recvd == 0 && GoodCommand(g, r)
    ensures Fits(k.client, g) && Fetch(Step(k, Arrives(g), r).client, secret, r).ending == Command
    ensures var k2 := Step(Step(k, Arrives(g), r), Fetches(secret), r);
            Holds(k2.client, g, r) && k2.sent == k.sent && k2.items == k.items
  {
    hide Fetch, IsFrame, RconModel.Complete, CString, Received, ReadI32, PacketLength, Front, Holds;
    CommandOut(k.client, g, secret, r);
  }

  lemma CommandOut(c: Client, g: Bytes, secret: Secret, r: Reader)
    requires c.Valid() && c.authd && !c.inCmd && c.recvd == 0 && GoodCommand(g, r)
    ensures var f := Fetch(Received(c, g), secret, r);
            f.ending == Command && AllRecorded(f.handled, secret) == [] && f.sent == [] && Holds(f.client, g, r)
    ensures !Received(c, g).inCmd
  {
    hide Fetch, IsFrame, RconModel.Complete, CString, Received, ReadI32, PacketLength, Front;
    CommandArrives(c, g, r);
    CommandFetch(Received(c, g), secret, r);
  }

  lemma CommandFetch(c: Client, secret: Secret, r: Reader)
    requires c.Valid() && !c.inCmd && c.authd && RconModel.Complete(c, r) && ReadI32(c.buffer[8..], r) == 2
    ensures var f := Fetch(c, secret, r); var d := f.client;
            && f.ending == Command && AllRecorded(f.handled, secret) == [] && f.sent == []
            && d.inCmd && d.authd && d.requestID == ReadI32(c.buffer[4..], r) && d.recvd == c.recvd
            && d.packetLength == PacketLength(c.buffer, r) && d.buffer == c.buffer
  {
    hide Fetch, RconModel.Complete, ReadI32, PacketLength;
    FetchStops(c, secret, r);
  }

  /** The command is answered. */
  lemma CommandAnswered(k: Conn, g: Bytes, response: Bytes, r: Reader)
    requires var c := k.client; c.Valid() && c.inCmd && c.packetLength == |g| == c.recvd && c.buffer[..|g|] == g
    ensures var k', id := Step(k, Completes(response), r), k.client.requestID;
            && !k'.client.inCmd && k'.client.authd == k.client.authd && k'.client.recvd == 0
            && k'.items == k.items + [Item(g, 2, None, response)]
            && k.sent <= k'.sent && ReadAs(k'.sent[|k.sent|..], Pieces(id, 0, response))
  {
    hide ReadAs, Pieces, Send;
    SentRead(k.client.requestID, 0, response);
  }

  /** A client that is authorised, has nothing pending and sends a packet of type 2: fetching hands out its
      payload up to the NUL; once the caller has answered, just that packet was handled, and what was sent
      since is read as the response, in pieces of type 0 with the packet's id. */
  lemma CommandServed(k: Conn, g: Bytes, secret: Secret, response: Bytes, r: Reader)
    requires k.client.Valid() && k.client.authd && !k.client.inCmd && k.client.recvd == 0 && GoodCommand(g, r)
    ensures Fits(k.client, g)
    ensures var k2 := Step(Step(k, Arrives(g), r), Fetches(secret), r);
            && Fetch(Step(k, Arrives(g), r).client, secret, r).ending == Command
            && k2.client.inCmd && CommandString(k2.client) == CString(g[12..]) && k2.sent == k.sent
    ensures var k3 := Step(Step(Step(k, Arrives(g), r), Fetches(secret), r), Completes(response), r);
            && !k3.client.inCmd && k3.client.authd && k3.client.recvd == 0
            && k3.items == k.items + [Item(g, 2, None, response)]
            && k.sent <= k3.sent && ReadAs(k3.sent[|k.sent|..], Pieces(ReadI32(g[4..], r), 0, response))
  {
    hide Fetch, IsFrame, CString, ReadAs, Pieces, Step, CommandString;
    FitsAll(k.client, g, r);
    CommandFetched(k, g, secret, r);
    CommandAnswered(Step(Step(k, Arrives(g), r), Fetches(secret), r), g, response, r);
  }

  lemma FitsAll(c: Client, g: Bytes, r: Reader)
    requires c.recvd == 0 && GoodCommand(g, r)
    ensures Fits(c, g)
  {}
}
