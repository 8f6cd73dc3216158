/** Whole runs of the server: what its calls do to the connections in its slots. */
module RconServerRuns {
  import opened Wrappers
  import opened Words
  import opened RconFraming
  import opened RconModel
  import opened RconStream
  import opened RconRuns
  import opened RconServer

  /** The connection in each slot since it was last accepted there. */
  type World = seq<Conn>

  /** A call of the server, with what the outside answered and the slot it stopped at. */
  datatype Call =
    | Wait(input: Input, stop: nat)
    | FetchOne(secret: Secret, stop: nat)
    | Complete(slot: nat, response: Bytes)
    | Drop(slot: nat)

  function ClientsOf(w: World): (cs: seq<Client>)
    ensures |cs| == |w| && forall i :: 0 <= i < |w| ==> cs[i] == w[i].client
  {
    seq(|w|, i requires 0 <= i < |w| => w[i].client)
  }

  ghost predicate Sound(w: World) {
    forall i :: 0 <= i < |w| ==> w[i].client.Valid()
  }

  /** Every connection that is kept satisfies its invariant. */
  ghost predicate Safe(w: World, r: Reader) {
    Sound(w) && forall i :: 0 <= i < |w| && w[i].client.inUse ==> Inv(w[i], r)
  }

  ghost predicate Allowed(w: World, call: Call) {
    match call
    case Wait(input, stop) => Possible(ClientsOf(w), input) && stop <= |w|
    case FetchOne(secret, stop) => stop <= |w|
    case Complete(slot, response) => slot < |w|
    case Drop(slot) => slot < |w|
  }

  /** No fetch of this call leaves the outcome undefined. */
  ghost predicate Defined(w: World, call: Call, r: Reader)
    requires Sound(w)
  {
    call.FetchOne? ==> forall i :: 0 <= i < |w| && i <= call.stop ==>
      FetchSlot(w[i].client, call.secret, r).ending != Undefined
  }

  // ---- what a call does to one connection ----

  function TakeConn(k: Conn, ready: bool, a: Arrival, r: Reader): (k': Conn)
    requires k.client.Valid() && CanArrive(k.client, ready, a)
    ensures k'.client == Taken(k.client, ready, a)
  {
    if !k.client.inUse || !ready then k
    else if a.Data? then Step(k, Arrives(a.bytes), r)
    else k.(client := Dropped(k.client))
  }

  function FetchConn(k: Conn, secret: Secret, r: Reader): (k': Conn)
    requires k.client.Valid()
    ensures var f := FetchSlot(k.client, secret, r);
            k'.client == f.client && k'.sent == k.sent + f.sent
  {
    if k.client.inUse then Step(k, Fetches(secret), r) else k
  }

  function WaitConn(w: World, i: nat, input: Input, stop: nat, r: Reader): (k': Conn)
    requires i < |w| == |input.ready| == |input.arrivals|
    requires w[i].client.Valid() && CanArrive(w[i].client, input.ready[i], input.arrivals[i])
  {
    if input.waited <= 0 || i > stop then w[i]
    else
      var k := TakeConn(w[i], input.ready[i], input.arrivals[i], r);
      if stop == |w| && input.listenerReady && i == input.accepted - 1 then Start(k.client) else k
  }

  function Do(w: World, call: Call, r: Reader): (w': World)
    requires Sound(w) && Allowed(w, call)
    ensures |w'| == |w|
  {
    match call
    case Wait(input, stop) => seq(|w|, i requires 0 <= i < |w| => WaitConn(w, i, input, stop, r))
    case FetchOne(secret, stop) =>
      seq(|w|, i requires 0 <= i < |w| => if i <= stop then FetchConn(w[i], secret, r) else w[i])
    case Complete(slot, response) =>
      if w[slot].client.inUse then w[slot := Step(w[slot], Completes(response), r)] else w
    case Drop(slot) => w[slot := w[slot].(client := Dropped(w[slot].client))]
  }

  // ---- the methods of the server do this ----

  /** The outcome promised by rcon_wait_for_input. */
  lemma WaitTracks(w: World, now: seq<Client>, input: Input, stop: nat, status: int, r: Reader)
    requires Sound(w) && Allowed(w, Wait(input, stop)) && Waited(ClientsOf(w), now, input, stop, status)
    ensures now == ClientsOf(Do(w, Wait(input, stop), r))
  {
    hide TakenAt, FailsAt, CanArrive, WaitConn, Joined;
    if input.waited > 0 {
      var cs, mid := ClientsOf(w), now;
      if stop == |w| {
        mid :| TookAll(cs, mid, input, stop, 0) && |mid| == |w| && now == Joined(mid, input);
      }
      forall i | 0 <= i < |w| ensures now[i] == WaitConn(w, i, input, stop, r).client {
        WaitTracksAt(w, mid, now, input, stop, i, r);
      }
    } else {
      forall i | 0 <= i < |w| ensures now[i] == WaitConn(w, i, input, stop, r).client { NoWait(w, input, stop, i, r); }
    }
  }

  lemma NoWait(w: World, input: Input, stop: nat, i: nat, r: Reader)
    requires Sound(w) && Possible(ClientsOf(w), input) && i < |w| && input.waited <= 0
    ensures WaitConn(w, i, input, stop, r).client == w[i].client
  {}

  lemma WaitTracksAt(w: World, mid: seq<Client>, now: seq<Client>, input: Input, stop: nat, i: nat, r: Reader)
    requires Sound(w) && Possible(ClientsOf(w), input) && i < |w| && stop <= |w| && input.waited > 0
    requires TakenUpTo(ClientsOf(w), mid, input, if stop < |w| then stop + 1 else stop)
    requires now == if stop == |w| then Joined(mid, input) else mid
    ensures |now| == |w| && now[i] == WaitConn(w, i, input, stop, r).client
  {
    hide Taken, CanArrive, Fails;
    if i <= stop { assert mid[i] == TakenAt(ClientsOf(w), input, i); }
  }

  /** The outcome promised by rcon_fetch_command, and what was sent. */
  lemma FetchTracks(w: World, sent: seq<seq<Bytes>>, now: seq<Client>, sentNow: seq<seq<Bytes>>,
                    stop: nat, answer: Answer, secret: Secret, r: Reader)
    requires Sound(w) && stop <= |w| && FetchedAll(ClientsOf(w), sent, now, sentNow, stop, answer, secret, r)
    ensures now == ClientsOf(Do(w, FetchOne(secret, stop), r))
    ensures |sent| == |sentNow| == |w|
    ensures forall i, earlier :: 0 <= i < |w| && sent[i] == earlier + w[i].sent ==>
              sentNow[i] == earlier + Do(w, FetchOne(secret, stop), r)[i].sent
  {
    hide FetchSlot, FetchConn;
    forall i | 0 <= i < |w|
      ensures now[i] == Do(w, FetchOne(secret, stop), r)[i].client
      ensures forall earlier :: sent[i] == earlier + w[i].sent ==>
              sentNow[i] == earlier + Do(w, FetchOne(secret, stop), r)[i].sent
    {
      if i <= stop { assert now[i] == Fetching(ClientsOf(w), i, secret, r).client; }
    }
  }

  /** The outcome promised by rcon_complete_command, and what was sent. */
  lemma CompleteTracks(w: World, sent: seq<seq<Bytes>>, now: seq<Client>, sentNow: seq<seq<Bytes>>,
                       slot: nat, text: Bytes, status: Option<int>, r: Reader)
    requires Sound(w) && slot < |w| == |sent|
    requires CompletedAt(ClientsOf(w), sent, now, sentNow, slot + 1, text, status)
    ensures now == ClientsOf(Do(w, Complete(slot, text), r)) && |sentNow| == |w|
    ensures forall i, earlier :: 0 <= i < |w| && sent[i] == earlier + w[i].sent ==>
              sentNow[i] == earlier + Do(w, Complete(slot, text), r)[i].sent
  {
    hide Completed, CommandReplies;
    var w' := Do(w, Complete(slot, text), r);
    forall i | 0 <= i < |w|
      ensures now[i] == w'[i].client
      ensures forall earlier :: sent[i] == earlier + w[i].sent ==> sentNow[i] == earlier + w'[i].sent
    {}
  }

  /** What rcon_drop_client promises. */
  lemma DropTracks(w: World, now: seq<Client>, slot: nat, r: Reader)
    requires Sound(w) && slot < |w| && now == ClientsOf(w)[slot := Dropped(w[slot].client)]
    ensures now == ClientsOf(Do(w, Drop(slot), r))
    ensures forall i :: 0 <= i < |w| ==> Do(w, Drop(slot), r)[i].sent == w[i].sent
  {
    var w' := Do(w, Drop(slot), r);
    assert forall i :: 0 <= i < |w| ==> now[i] == w'[i].client;
  }

  // ---- runs ----

  lemma TakeKeeps(k: Conn, ready: bool, a: Arrival, r: Reader)
    requires k.client.Valid() && CanArrive(k.client, ready, a) && (k.client.inUse ==> Inv(k, r))
    ensures var k' := TakeConn(k, ready, a, r);
            k'.client.Valid() && (k'.client.inUse ==> Inv(k', r))
  {
    if k.client.inUse && ready && a.Data? { ArrivesKeeps(k, a.bytes, r, true); }
  }

  lemma WaitKeeps(w: World, i: nat, input: Input, stop: nat, r: Reader)
    requires Safe(w, r) && Possible(ClientsOf(w), input) && i < |w| && stop <= |w|
    ensures var k' := WaitConn(w, i, input, stop, r);
            k'.client.Valid() && (k'.client.inUse ==> Inv(k', r))
  {
    hide Inv, TakeConn, Taken;
    TakeKeeps(w[i], input.ready[i], input.arrivals[i], r);
    StartFine(TakeConn(w[i], input.ready[i], input.arrivals[i], r).client, r);
  }

  lemma FetchConnKeeps(k: Conn, secret: Secret, r: Reader)
    requires k.client.Valid() && (k.client.inUse ==> Inv(k, r)) && FetchSlot(k.client, secret, r).ending != Undefined
    ensures var k' := FetchConn(k, secret, r);
            k'.client.Valid() && (k'.client.inUse ==> Inv(k', r))
  {
    hide Kept, Fetch;
    if k.client.inUse { StepKeeps(k, Fetches(secret), r, true); }
  }

  /** No call damages any connection, whatever bytes it or others sent. */
  lemma DoKeeps(w: World, call: Call, r: Reader)
    requires Safe(w, r) && Allowed(w, call) && Defined(w, call, r)
    ensures Safe(Do(w, call, r), r)
  {
    hide Kept, WaitConn, FetchConn, Step, FetchSlot;
    match call
    case Wait(input, stop) =>
      forall i | 0 <= i < |w|
        ensures var k' := Do(w, call, r)[i]; k'.client.Valid() && (k'.client.inUse ==> Inv(k', r))
      {
        WaitKeeps(w, i, input, stop, r);
      }
    case FetchOne(secret, stop) =>
      forall i | 0 <= i < |w|
        ensures var k' := Do(w, call, r)[i]; k'.client.Valid() && (k'.client.inUse ==> Inv(k', r))
      {
        if i <= stop { FetchConnKeeps(w[i], secret, r); }
      }
    case Complete(slot, response) =>
      if w[slot].client.inUse { StepKeeps(w[slot], Completes(response), r, true); }
    case Drop(slot) =>
  }

  /** Calls, each allowed where it is made, none of which runs into undefined behaviour. */
  ghost predicate IsServerRun(w: World, calls: seq<Call>, r: Reader)
    requires Sound(w)
    decreases |calls|
  {
    calls != [] ==>
      Allowed(w, calls[0]) && Defined(w, calls[0], r) &&
      Sound(Do(w, calls[0], r)) && IsServerRun(Do(w, calls[0], r), calls[1..], r)
  }

  function RunServer(w: World, calls: seq<Call>, r: Reader): (w': World)
    requires Sound(w) && IsServerRun(w, calls, r)
    ensures Sound(w') && |w'| == |w|
    decreases |calls|
  {
    if calls == [] then w else RunServer(Do(w, calls[0], r), calls[1..], r)
  }

  /** The slots rcon_create allocates: none in use. */
  function Fresh(clients: nat): World {
    seq(clients, i => Conn(FreshSlot(), [], [], []))
  }

  lemma {:induction false} RunKeepsSafe(w: World, calls: seq<Call>, r: Reader)
    requires Safe(w, r) && IsServerRun(w, calls, r)
    ensures Safe(RunServer(w, calls, r), r)
    decreases |calls|
  {
    hide Kept;
    if calls != [] {
      DoKeeps(w, calls[0], r);
      RunKeepsSafe(Do(w, calls[0], r), calls[1..], r);
    }
  }

  /** Over every run of the server from its creation, with clients coming and going and sending anything:
      each connection kept has handled the first packets of its own stream. If every AUTH packet it sent
      settled its comparison, it was sent the replies to these packets in order, and it is authorised
      exactly if it sent a matching one since it was accepted. What others send does not matter. */
  lemma ServerRunsSafe(clients: nat, calls: seq<Call>, i: nat, r: Reader)
    requires IsServerRun(Fresh(clients), calls, r) && i < clients
    requires RunServer(Fresh(clients), calls, r)[i].client.inUse
    ensures var k := RunServer(Fresh(clients), calls, r)[i];
            && Parse(k.stream, r) == Raws(k.items) + Parse(k.client.Pending(), r)
            && AllObserved(k.items, r)
            && (AllSettled(k.items) ==>
                 k.sent == AllReplies(k.items, r) && (k.client.authd <==> Granted(k.items)) && CommandsGranted(k.items))
  {
    RunKeepsSafe(Fresh(clients), calls, r);
    var k := RunServer(Fresh(clients), calls, r)[i];
    assert Inv(k, r);
    ParseConserved(k, r);
  }

  /** The command rcon_fetch_command hands out is the next packet of an authorised client's stream; that
      client sent a matching AUTH packet since it was accepted, if all it sent settled their comparisons.
      Undefined behaviour is met only where the packets pending are not well-formed. */
  lemma CommandsAreAuthorised(w: World, sent: seq<seq<Bytes>>, now: seq<Client>, sentNow: seq<seq<Bytes>>, stop: nat,
                              answer: Answer, secret: Secret, r: Reader)
    requires Safe(w, r) && stop <= |w|
    requires FetchedAll(ClientsOf(w), sent, now, sentNow, stop, answer, secret, r)
    ensures answer.CommandFrom? ==>
              stop < |w| && answer.clientIndex == stop + 1 && HandsOut(Do(w, FetchOne(secret, stop), r)[stop], r)
    ensures answer == UndefinedBehaviour ==>
              stop < |w| && w[stop].client.inUse && !AllWellFormed(Parse(w[stop].client.Pending(), r), r)
  {
    hide Kept, AllWellFormed, Fetch, FetchConn, AnswerOf;
    if stop < |w| {
      var c := w[stop].client;
      var f := Fetching(ClientsOf(w), stop, secret, r);
      assert c.inUse && !c.inCmd by { assert f.ending != Waiting; }
      AnswerMeans(f.ending, stop);
      if f.ending == Undefined {
        if AllWellFormed(Parse(c.Pending(), r), r) { FetchDefined(c, secret, r); }
      } else if f.ending == Command {
        CommandHandedOut(w[stop], secret, r);
      }
    }
  }

  /** A connection whose command is handed out. */
  ghost predicate HandsOut(k: Conn, r: Reader) {
    && k.client.Valid() && k.client.inUse && k.client.inCmd && k.client.authd && IsNextPacket(k, r)
    && (AllSettled(k.items) ==> Granted(k.items))
  }

  lemma CommandHandedOut(k: Conn, secret: Secret, r: Reader)
    requires k.client.Valid() && k.client.inUse && !k.client.inCmd && Inv(k, r)
    requires Fetch(k.client, secret, r).ending == Command
    ensures HandsOut(FetchConn(k, secret, r), r)
  {
    hide Fetch, InFlight, AllObserved, IsNextPacket;
    FetchKeeps(k, secret, r, true);
    CommandIsNext(FetchConn(k, secret, r), r);
  }

  lemma AnswerMeans(ending: Ending, i: nat)
    ensures AnswerOf(ending, i) == UndefinedBehaviour ==> ending == Undefined
    ensures AnswerOf(ending, i).CommandFrom? <==> ending == Command
    ensures ending == Command ==> AnswerOf(ending, i).clientIndex == i + 1
  {}

  // ---- a refused packet ----

  /** Once rcon_fetch_command has answered with a protocol error, it does so for ever: with any password it
      changes nothing, sends nothing and stops at the same slot; the slots behind it are never served. */
  lemma FetchAgain(was: seq<Client>, sent: seq<seq<Bytes>>, now: seq<Client>, sentNow: seq<seq<Bytes>>, stop: nat,
                   code: int, secret: Secret, later: seq<Client>, sentLater: seq<seq<Bytes>>, stopLater: nat,
                   answer: Answer, again: Secret, r: Reader)
    requires AllValid(was) && FetchedAll(was, sent, now, sentNow, stop, Error(code), secret, r)
    requires AllValid(now) && FetchedAll(now, sentNow, later, sentLater, stopLater, answer, again, r)
    ensures later == now && sentLater == sentNow && stopLater == stop && answer == Error(code)
    ensures forall i :: stop < i < |was| ==> later[i] == was[i] && sentLater[i] == sent[i]
  {
    hide FetchSlot;
    assert stop < |was|;
    RefusedAnswer(Fetching(was, stop, secret, r).ending, stop, code);
    forall i | 0 <= i < |was| && i <= stop
      ensures Fetching(now, i, again, r) == Fetched(now[i], [], [], Fetching(was, i, secret, r).ending)
    {
      assert Fetching(was, i, secret, r).ending == if i < stop then Waiting else Refused;
      SlotAgain(was[i], secret, again, r);
    }
    assert stopLater == stop;
    forall i | 0 <= i < |was| ensures later[i] == now[i] && sentLater[i] == sentNow[i] {
      if i <= stop { assert sentNow[i] + [] == sentNow[i]; }
    }
  }

  lemma RefusedAnswer(ending: Ending, i: nat, code: int)
    ensures AnswerOf(ending, i) == Error(code) ==> ending == Refused && forall j :: AnswerOf(Refused, j) == Error(code)
  {}

  lemma SlotAgain(c: Client, secret: Secret, again: Secret, r: Reader)
    requires c.Valid() && (FetchSlot(c, secret, r).ending == Waiting || FetchSlot(c, secret, r).ending == Refused)
    ensures var f := FetchSlot(c, secret, r);
            FetchSlot(f.client, again, r) == Fetched(f.client, [], [], f.ending)
  {
    hide Fetch;
    if c.inUse && !c.inCmd { FetchStuck(c, secret, again, r); }
  }
}
