/** The RCON server in place: client slots with their buffers, the packets sent, and the calls that work
    through the slots. Each method is tied to the functions on client values that the theorems about
    connections are stated for. */
module RconServer {
  import opened Wrappers
  import opened Words
  import opened CStrings
  import opened RconFraming
  import opened RconCompare
  import opened RconModel

  /** The string a password pointer denotes. */
  function SecretOf(password: Option<Bytes>): Secret {
    if password.Some? then Some(CString(password.value)) else None
  }

  /** A slot for one client. What cb_send is given for it is kept in `sent`. */
  class Slot {
    var recvd: nat
    var inUse: bool
    var authd: bool
    var inCmd: bool
    var packetLength: int
    var requestID: bv32
    var packetType: bv32
    const buffer: array<byte>
    ghost var sent: seq<Bytes>
    /** How often the connection in the slot was closed. */
    ghost var closings: nat

    constructor ()
      ensures State() == FreshSlot()
      ensures fresh(buffer) && sent == [] && closings == 0
    {
      recvd, inUse, authd, inCmd, packetLength, requestID, packetType := 0, false, false, false, 0, 0, 0;
      buffer := new byte[BUFFER_SIZE](n => 0);
      sent, closings := [], 0;
      new;
      assert buffer[..] == seq(BUFFER_SIZE, n => 0);
    }

    function State(): Client
      reads this, buffer
    {
      Client(recvd, inUse, authd, inCmd, packetLength, requestID, packetType, buffer[..])
    }

    ghost predicate Valid()
      reads this, buffer
    {
      State().Valid()
    }

    /** rcon_send */
    method Send(id: bv32, kind: bv32, payload: Bytes)
      modifies this`sent
      ensures sent == old(sent) + RconFraming.Send(id, kind, payload)
    {
      hide Encode, RconFraming.Send;
      var packet := new byte[BUFFER_SIZE];
      var rest := payload;
      while true
        invariant sent + RconFraming.Send(id, kind, rest) == old(sent) + RconFraming.Send(id, kind, payload)
        decreases |rest|
      {
        SendUnfold(id, kind, rest);
        var size := if MAX_PAYLOAD < |rest| then MAX_PAYLOAD else |rest|;
        assert |rest| <= MAX_PAYLOAD ==> rest[..size] == rest;
        FillPacket(packet, id, kind, rest[..size]);
        sent := sent + [packet[..PACKET_OVERHEAD + size]];
        rest := rest[size..];
        if rest == [] {
          break;
        }
      }
    }

    /** The char at an offset read as a word. */
    method ReadI32(at: nat, r: Reader) returns (w: bv32)
      requires at + 4 <= buffer.Length
      ensures w == RconFraming.ReadI32(buffer[at..], r)
    {
      w := r.word(buffer[at], buffer[at + 1], buffer[at + 2], buffer[at + 3]);
    }

    /** Removes the packet at the front. */
    method Consume()
      requires Valid() && !inCmd && 0 <= packetLength <= recvd
      modifies this`recvd, buffer
      ensures State() == Consumed(old(State()))
    {
      recvd := recvd - packetLength;
      MoveDown(buffer, packetLength, recvd);
    }

    /** A packet of type AUTH. */
    method Authenticate(password: Option<Bytes>, signedChar: bool)
      requires Valid() && (password.Some? ==> PasswordFits(password.value) && 0 in buffer[12..])
      modifies this`authd, this`sent
      ensures var granted := Matches(old(buffer[12..]), SecretOf(password));
              State() == old(State()).(authd := old(authd) || granted) &&
              sent == old(sent) + AuthReplies(old(requestID), granted)
    {
      hide RconFraming.Send, Matches, SecretOf, CString;
      Send(requestID, RESPONSE_VALUE, []);
      var same := StreqConsttime(if 0 in buffer[12..] then Some(buffer[12..]) else None, password, signedChar);
      assert same == 1 <==> Matches(buffer[12..], SecretOf(password)) by { Decided(buffer[12..], password); }
      if same == 1 {
        authd := true;
        Send(requestID, AUTH_RESPONSE, []);
      } else {
        Send(MINUS_ONE, AUTH_RESPONSE, []);
      }
    }

    /** A packet of any type but AUTH and EXECCOMMAND. */
    method Echo()
      requires Valid() && PACKET_OVERHEAD <= packetLength <= recvd
      modifies this`sent
      ensures sent == old(sent) + EchoReplies(requestID, buffer[12..packetLength - 2])
    {
      Send(requestID, RESPONSE_VALUE, buffer[12..packetLength - 2]);
      Send(requestID, RESPONSE_VALUE, [1, 0]);
    }

    /** The header of the packet at the front, if it is complete. */
    method Open(r: Reader) returns (ending: Option<Ending>)
      requires Valid() && !inCmd
      modifies this`packetLength, this`requestID, this`packetType
      ensures Valid()
      ensures ending.None? <==> Complete(old(State()), r)
      ensures ending.None? ==> State() == Opened(old(State()), r)
      ensures ending.Some? ==> RconModel.Fetch(old(State()), None, r) == Fetched(State(), [], [], ending.value)
    {
      if recvd < 4 {
        return Some(Waiting);
      }
      packetLength := r.length(buffer[0], buffer[1], buffer[2], buffer[3]);
      if recvd < packetLength {
        return Some(Waiting);
      }
      if packetLength < 10 {
        return Some(Refused);
      }
      requestID := ReadI32(4, r);
      packetType := ReadI32(8, r);
      return None;
    }

    /** The loop of rcon_fetch_command for one slot. */
    method Fetch(password: Option<Bytes>, signedChar: bool) returns (ending: Ending)
      requires Valid() && !inCmd && (password.Some? ==> PasswordFits(password.value))
      modifies this`recvd, this`authd, this`inCmd, this`packetLength, this`requestID, this`packetType, this`sent, buffer
      ensures var f := RconModel.Fetch(old(State()), SecretOf(password), CharReader(signedChar));
              State() == f.client && sent == old(sent) + f.sent && ending == f.ending
    {
      hide RconModel.Fetch, CharReader, SecretOf, PasswordFits;
      ghost var secret, r := SecretOf(password), CharReader(signedChar);
      ghost var goal, before, done := RconModel.Fetch(State(), secret, r), sent, [];
      while true
        invariant Valid() && !inCmd && sent == before + done
        invariant var f := RconModel.Fetch(State(), secret, r);
                  f.client == goal.client && f.ending == goal.ending && goal.sent == done + f.sent
        decreases recvd
      {
        var stop, replies := Turn(password, signedChar);
        done := done + replies;
        if stop.Some? {
          return stop.value;
        }
      }
    }

    /** Unused slots and slots with a command out are passed over. */
    method Serve(password: Option<Bytes>, signedChar: bool) returns (ending: Ending)
      requires Valid() && (password.Some? ==> PasswordFits(password.value))
      modifies this`recvd, this`authd, this`inCmd, this`packetLength, this`requestID, this`packetType, this`sent, buffer
      ensures var f := FetchSlot(old(State()), SecretOf(password), CharReader(signedChar));
              Valid() && State() == f.client && sent == old(sent) + f.sent && ending == f.ending
    {
      ending := Waiting;
      if inUse && !inCmd {
        ending := Fetch(password, signedChar);
      }
    }

    /** rcon_drop_client */
    method Drop()
      requires Valid()
      modifies this`inUse, this`closings
      ensures Valid() && State() == Dropped(old(State())) && closings == old(closings) + 1
    {
      closings := closings + 1;
      inUse := false;
    }

    /** cb_recv on a slot that has data: the bytes go behind those already there; on an error or at the
        end of the stream the client is dropped. */
    method Receive(arrival: Arrival) returns (status: int)
      requires Valid() && inUse && CanArrive(State(), true, arrival)
      modifies this`recvd, this`inUse, this`closings, buffer
      ensures Valid() && State() == Taken(old(State()), true, arrival)
      ensures closings == old(closings) + if arrival.Data? then 0 else 1
      ensures status == if arrival.Failed? then arrival.code else if arrival.Closed? then 0 else |arrival.bytes|
    {
      match arrival
      case Failed(code) =>
        Drop();
        status := code;
      case Closed =>
        Drop();
        status := 0;
      case Data(bytes) =>
        Copy(buffer, recvd, bytes);
        recvd := recvd + |bytes|;
        status := |bytes|;
    }

    method Poll(ready: bool, arrival: Arrival) returns (status: int)
      requires Valid() && CanArrive(State(), ready, arrival) && (arrival.Failed? ==> arrival.code < 0)
      modifies this`recvd, this`inUse, this`closings, buffer
      ensures Valid() && State() == Taken(old(State()), ready, arrival)
      ensures closings == old(closings) + Closings(old(State()), ready, arrival)
      ensures status < 0 <==> Fails(old(State()), ready, arrival)
      ensures status < 0 ==> status == arrival.code
    {
      status := 0;
      if inUse && ready {
        status := Receive(arrival);
      }
    }

    /** A client was accepted into this slot. */
    method Accept()
      requires Valid()
      modifies this`recvd, this`inUse, this`authd, this`inCmd
      ensures Valid() && State() == Accepted(old(State()))
    {
      recvd, inUse, authd, inCmd := 0, true, false, false;
    }

    /** rcon_complete_command for a command that is out, with the text of the response. */
    method Answer(text: Bytes)
      requires Valid() && inCmd
      modifies this`recvd, this`inCmd, this`sent, buffer
      ensures Valid() && State() == Completed(old(State()))
      ensures sent == old(sent) + CommandReplies(old(State()), text)
    {
      hide RconFraming.Send;
      Send(requestID, RESPONSE_VALUE, text);
      inCmd := false;
      Consume();
    }

    /** One turn of that loop: some ending, or the packet at the front is handled and removed. */
    method Turn(password: Option<Bytes>, signedChar: bool) returns (stop: Option<Ending>, ghost replies: seq<Bytes>)
      requires Valid() && !inCmd && (password.Some? ==> PasswordFits(password.value))
      modifies this`recvd, this`authd, this`inCmd, this`packetLength, this`requestID, this`packetType, this`sent, buffer
      ensures Valid() && (stop.None? ==> !inCmd && recvd < old(recvd)) && sent == old(sent) + replies
      ensures Advances(old(State()), State(), stop, replies, SecretOf(password), CharReader(signedChar))
    {
      hide RconModel.Fetch, CharReader, RconFraming.Send, AuthReplies, EchoReplies, Matches, SecretOf;
      ghost var was, secret, r := State(), SecretOf(password), CharReader(signedChar);
      stop := Open(CharReader(signedChar));
      replies := [];
      if stop.Some? {
        SameEnding(was, secret, r);
        return;
      }
      FetchStops(was, secret, r);
      if packetType == AUTH {
        stop, replies := TurnAuth(password, signedChar, was);
      } else if packetType == EXECCOMMAND {
        if !authd {
          return Some(Refused), [];
        }
        inCmd := true;
        return Some(Command), [];
      } else {
        if packetLength < PACKET_OVERHEAD {
          return Some(Undefined), [];
        }
        replies := TurnEcho(signedChar, was, secret);
      }
    }

    method TurnAuth(password: Option<Bytes>, signedChar: bool, ghost was: Client)
      returns (stop: Option<Ending>, ghost replies: seq<Bytes>)
      requires was.Valid() && !was.inCmd && Complete(was, CharReader(signedChar)) &&
               State() == Opened(was, CharReader(signedChar))
      requires packetType == AUTH && (password.Some? ==> PasswordFits(password.value))
      modifies this`recvd, this`authd, this`sent, buffer
      ensures Valid() && (stop.None? ==> !inCmd && recvd < old(recvd)) && sent == old(sent) + replies
      ensures Advances(was, State(), stop, replies, SecretOf(password), CharReader(signedChar))
    {
      hide RconModel.Fetch, CharReader, RconFraming.Send, AuthReplies, Matches, LosesFront, Advances;
      ghost var secret, r := SecretOf(password), CharReader(signedChar);
      if password.Some? && 0 !in buffer[12..] {
        AuthStops(was, secret, r);
        Send(requestID, RESPONSE_VALUE, []);
        return Some(Undefined), RconFraming.Send(requestID, RESPONSE_VALUE, []);
      }
      AuthAdvances(was, secret, r);
      replies := AuthReplies(requestID, Matches(buffer[12..], secret));
      Authenticate(password, signedChar);
      Consume();
      assert State() == AfterAuth(was, secret, r);
      stop := None;
    }

    method TurnEcho(signedChar: bool, ghost was: Client, ghost secret: Secret) returns (ghost replies: seq<Bytes>)
      requires was.Valid() && !was.inCmd && Complete(was, CharReader(signedChar)) &&
               State() == Opened(was, CharReader(signedChar))
      requires packetType != AUTH && packetType != EXECCOMMAND && packetLength >= PACKET_OVERHEAD
      modifies this`recvd, this`sent, buffer
      ensures Valid() && !inCmd && recvd < old(recvd) && sent == old(sent) + replies
      ensures Advances(was, State(), None, replies, secret, CharReader(signedChar))
    {
      hide RconModel.Fetch, CharReader, EchoReplies, LosesFront, Advances;
      ghost var r := CharReader(signedChar);
      EchoAdvances(was, secret, r);
      replies := EchoReplies(requestID, buffer[12..packetLength - 2]);
      Echo();
      Consume();
      assert State() == AfterEcho(was, r);
    }
  }

  lemma AuthStops(was: Client, secret: Secret, r: Reader)
    requires was.Valid() && !was.inCmd && Complete(was, r) && Opened(was, r).packetType == AUTH
    requires secret.Some? && 0 !in was.buffer[12..]
    ensures var o := Opened(was, r);
            Advances(was, o, Some(Undefined), RconFraming.Send(o.requestID, RESPONSE_VALUE, []), secret, r)
  {
    FetchStops(was, secret, r);
  }

  lemma AuthAdvances(was: Client, secret: Secret, r: Reader)
    requires was.Valid() && !was.inCmd && Complete(was, r) && Opened(was, r).packetType == AUTH
    requires secret.None? || 0 in was.buffer[12..]
    ensures Advances(was, AfterAuth(was, secret, r), None,
                     AuthReplies(Opened(was, r).requestID, Matches(was.buffer[12..], secret)), secret, r)
  {
    hide RconModel.Fetch, Matches;
    UnfoldAuth(was, secret, r);
  }

  lemma EchoAdvances(was: Client, secret: Secret, r: Reader)
    requires was.Valid() && !was.inCmd && Complete(was, r) && Opened(was, r).packetLength >= PACKET_OVERHEAD
    requires Opened(was, r).packetType != AUTH && Opened(was, r).packetType != EXECCOMMAND
    ensures var o := Opened(was, r);
            Advances(was, AfterEcho(was, r), None,
                     EchoReplies(o.requestID, was.buffer[12..o.packetLength - 2]), secret, r)
  {
    hide RconModel.Fetch;
    UnfoldEcho(was, secret, r);
  }

  /** One turn of the loop took the client from `was` to `now`. */
  ghost predicate Advances(was: Client, now: Client, stop: Option<Ending>,
                           replies: seq<Bytes>, secret: Secret, r: Reader)
    requires was.Valid() && !was.inCmd && now.Valid() && (stop.None? ==> !now.inCmd)
  {
    var f := RconModel.Fetch(was, secret, r);
    if stop.Some? then f.client == now && f.ending == stop.value && f.sent == replies
    else
      var g := RconModel.Fetch(now, secret, r);
      f.client == g.client && f.ending == g.ending && f.sent == replies + g.sent
  }

  /** Without a complete packet the password does not matter. */
  lemma SameEnding(c: Client, secret: Secret, r: Reader)
    requires c.Valid() && !c.inCmd && !Complete(c, r)
    ensures RconModel.Fetch(c, secret, r) == RconModel.Fetch(c, None, r)
  {}

  lemma Decided(given: Bytes, password: Option<Bytes>)
    ensures Matches(given, SecretOf(password)) <==> password.Some? && CString(given) == CString(password.value)
  {}

  predicate PasswordFits(password: Bytes) {
    0 in password && |CString(password)| <= MAX_PASSWORD_LENGTH
  }

  /** What rcon_send sends, one packet after the other. */
  lemma SendUnfold(id: bv32, kind: bv32, payload: Bytes)
    ensures |payload| <= MAX_PAYLOAD ==> RconFraming.Send(id, kind, payload) == [Encode(id, kind, payload)]
    ensures |payload| > MAX_PAYLOAD ==>
      RconFraming.Send(id, kind, payload) ==
      [Encode(id, kind, payload[..MAX_PAYLOAD])] + RconFraming.Send(id, kind, payload[MAX_PAYLOAD..])
  {}

  method WriteI32(packet: array<byte>, at: nat, v: bv32)
    requires at + 4 <= packet.Length
    modifies packet
    ensures packet[..at + 4] == old(packet[..at]) + RconFraming.WriteI32(v)
  {
    packet[at], packet[at + 1], packet[at + 2], packet[at + 3] :=
      ByteAt(v, 0), ByteAt(v, 1), ByteAt(v, 2), ByteAt(v, 3);
  }

  /** Lays out one packet at the front of the array. */
  method FillPacket(packet: array<byte>, id: bv32, kind: bv32, payload: Bytes)
    requires packet.Length == BUFFER_SIZE && |payload| <= MAX_PAYLOAD
    modifies packet
    ensures packet[..PACKET_OVERHEAD + |payload|] == Encode(id, kind, payload)
  {
    hide RconFraming.WriteI32, Word;
    ghost var w1, w2, w3 :=
      RconFraming.WriteI32(Word(|payload| + 10)), RconFraming.WriteI32(id), RconFraming.WriteI32(kind);
    WriteI32(packet, 0, Word(|payload| + 10));
    assert packet[..4] == [] + w1 == w1;
    WriteI32(packet, 4, id);
    assert packet[..8] == w1 + w2;
    WriteI32(packet, 8, kind);
    assert packet[..12] == w1 + w2 + w3;
    Copy(packet, 12, payload);
    var n := |payload|;
    ghost var front := packet[..12 + n];
    packet[12 + n], packet[12 + n + 1] := 0, 0;
    assert packet[..12 + n] == front == w1 + w2 + w3 + payload;
    assert packet[..PACKET_OVERHEAD + n] == front + [0, 0];
  }

  /** memcpy */
  method Copy(to: array<byte>, at: nat, from: Bytes)
    requires at + |from| <= to.Length
    modifies to
    ensures to[..at + |from|] == old(to[..at]) + from
    ensures to[at + |from|..] == old(to[at + |from|..])
  {
    for n := 0 to |from|
      invariant forall k :: 0 <= k < n ==> to[at + k] == from[k]
      invariant forall k :: 0 <= k < to.Length && !(at <= k < at + n) ==> to[k] == old(to[k])
    {
      to[at + n] := from[n];
    }
  }

  /** memmove to the front of the buffer from further up. */
  method MoveDown(buffer: array<byte>, from: nat, count: nat)
    requires from + count <= buffer.Length
    modifies buffer
    ensures buffer[..] == old(buffer[from..from + count] + buffer[count..])
  {
    for n := 0 to count
      invariant forall m :: 0 <= m < n ==> buffer[m] == old(buffer[from + m])
      invariant forall m :: n <= m < buffer.Length ==> buffer[m] == old(buffer[m])
    {
      buffer[n] := buffer[from + n];
    }
    Spliced(buffer[..], old(buffer[..]), from, count);
  }

  lemma Spliced(now: Bytes, was: Bytes, from: nat, count: nat)
    requires |now| == |was| && from + count <= |was|
    requires forall m :: 0 <= m < count ==> now[m] == was[from + m]
    requires forall m :: count <= m < |was| ==> now[m] == was[m]
    ensures now == was[from..from + count] + was[count..]
  {}

  // ---- the server ----

  /** RCON_BOX_ERROR(RCON_ERRSRC_PROTO, 1) */
  const PROTOCOL_ERROR: int := -4

  /** What cb_recv does: an error code below zero, an orderly end, or bytes stored. */
  datatype Arrival = Failed(code: int) | Closed | Data(bytes: Bytes)

  /** What the callbacks answer during one rcon_wait_for_input: the result of waiting, which slots have
      data and what receiving from them gives, and whether and into which slot a client is accepted. */
  datatype Input = Input(waited: int, ready: seq<bool>, arrivals: seq<Arrival>, listenerReady: bool, accepted: int)

  predicate CanArrive(c: Client, ready: bool, a: Arrival) {
    c.inUse && ready && a.Data? ==> 0 < |a.bytes| <= BUFFER_SIZE - c.recvd
  }

  /** What receiving does to one slot. */
  function Taken(c: Client, ready: bool, a: Arrival): (d: Client)
    requires c.Valid() && CanArrive(c, ready, a)
    ensures d.Valid()
  {
    if !c.inUse || !ready then c else if a.Data? then Received(c, a.bytes) else Dropped(c)
  }

  /** How often it closes the connection. */
  function Closings(c: Client, ready: bool, a: Arrival): nat {
    if c.inUse && ready && !a.Data? then 1 else 0
  }

  predicate Fails(c: Client, ready: bool, a: Arrival) {
    c.inUse && ready && a.Failed?
  }

  /** What rcon_fetch_command hands back: its result and, for a command, the slot it is in. */
  datatype Answer = NoCommand | CommandFrom(clientIndex: int) | Error(code: int) | UndefinedBehaviour

  function AnswerOf(ending: Ending, i: nat): Answer {
    match ending
    case Waiting => NoCommand
    case Command => CommandFrom(i + 1)
    case Refused => Error(PROTOCOL_ERROR)
    case Undefined => UndefinedBehaviour
  }

  ghost function StatesOf(slots: seq<Slot>): (cs: seq<Client>)
    reads set s: Slot | s in slots :: s
    reads set s: Slot | s in slots :: s.buffer
    ensures |cs| == |slots| && forall i :: 0 <= i < |slots| ==> cs[i] == slots[i].State()
    decreases |slots|
  {
    if slots == [] then [] else
    assert slots[0] in slots && forall s :: s in slots[1..] ==> s in slots;
    [slots[0].State()] + StatesOf(slots[1..])
  }

  ghost function SentOf(slots: seq<Slot>): (ss: seq<seq<Bytes>>)
    reads set s: Slot | s in slots :: s
    ensures |ss| == |slots| && forall i :: 0 <= i < |slots| ==> ss[i] == slots[i].sent
    decreases |slots|
  {
    if slots == [] then [] else
    assert slots[0] in slots && forall s :: s in slots[1..] ==> s in slots;
    [slots[0].sent] + SentOf(slots[1..])
  }

  ghost function ClosingsOf(slots: seq<Slot>): (ns: seq<nat>)
    reads set s: Slot | s in slots :: s
    ensures |ns| == |slots| && forall i :: 0 <= i < |slots| ==> ns[i] == slots[i].closings
    decreases |slots|
  {
    if slots == [] then [] else
    assert slots[0] in slots && forall s :: s in slots[1..] ==> s in slots;
    [slots[0].closings] + ClosingsOf(slots[1..])
  }

  ghost predicate AllValid(cs: seq<Client>) {
    forall i :: 0 <= i < |cs| ==> cs[i].Valid()
  }

  /** What fetching does for the i-th slot. */
  function Fetching(cs: seq<Client>, i: nat, secret: Secret, r: Reader): Fetched
    requires i < |cs| && cs[i].Valid()
  {
    FetchSlot(cs[i], secret, r)
  }

  /** The first n slots were served, the others are as before. */
  ghost predicate FetchedUpTo(was: seq<Client>, sent: seq<seq<Bytes>>, now: seq<Client>,
                              sentNow: seq<seq<Bytes>>, n: nat, secret: Secret, r: Reader)
    requires AllValid(was)
  {
    && n <= |was| == |sent| == |now| == |sentNow|
    && (forall i :: 0 <= i < n ==>
         now[i] == Fetching(was, i, secret, r).client && sentNow[i] == sent[i] + Fetching(was, i, secret, r).sent)
    && (forall i :: n <= i < |was| ==> now[i] == was[i] && sentNow[i] == sent[i])
  }

  /** None of the slots before this one has anything to report. */
  ghost predicate AllWaiting(was: seq<Client>, n: nat, secret: Secret, r: Reader)
    requires AllValid(was) && n <= |was|
  {
    forall i :: 0 <= i < n ==> Fetching(was, i, secret, r).ending == Waiting
  }

  /** rcon_fetch_command served the slots up to and including `stop`, the first with something to report. */
  ghost predicate FetchedAll(was: seq<Client>, sent: seq<seq<Bytes>>, now: seq<Client>, sentNow: seq<seq<Bytes>>,
                             stop: nat, answer: Answer, secret: Secret, r: Reader)
    requires AllValid(was)
  {
    && stop <= |was|
    && FetchedUpTo(was, sent, now, sentNow, if stop < |was| then stop + 1 else stop, secret, r)
    && AllWaiting(was, stop, secret, r)
    && (stop < |was| ==>
         var ending := Fetching(was, stop, secret, r).ending;
         ending != Waiting && answer == AnswerOf(ending, stop))
    && (stop == |was| ==> answer == NoCommand)
  }

  lemma FetchedNone(was: seq<Client>, sent: seq<seq<Bytes>>, secret: Secret, r: Reader)
    requires AllValid(was) && |sent| == |was|
    ensures FetchedUpTo(was, sent, was, sent, 0, secret, r)
  {}

  lemma NoneWaiting(was: seq<Client>, secret: Secret, r: Reader)
    requires AllValid(was)
    ensures AllWaiting(was, 0, secret, r)
  {}

  lemma FetchedNext(was: seq<Client>, sent: seq<seq<Bytes>>, now: seq<Client>,
                    sentNow: seq<seq<Bytes>>, n: nat, secret: Secret, r: Reader)
    requires AllValid(was) && n < |was| && FetchedUpTo(was, sent, now, sentNow, n, secret, r)
    ensures |now| == |was| == |sentNow| && now[n].Valid() && Fetching(was, n, secret, r) == FetchSlot(now[n], secret, r)
    ensures var f := Fetching(was, n, secret, r);
            FetchedUpTo(was, sent, now[n := f.client], sentNow[n := sentNow[n] + f.sent], n + 1, secret, r)
  {
    hide FetchSlot;
  }

  /** The slot just served has something to report, or has not. */
  lemma FetchedSlot(was: seq<Client>, sent: seq<seq<Bytes>>, now: seq<Client>,
                    sentNow: seq<seq<Bytes>>, n: nat, secret: Secret, r: Reader)
    requires AllValid(was) && n < |was| && FetchedUpTo(was, sent, now, sentNow, n + 1, secret, r) &&
             AllWaiting(was, n, secret, r)
    ensures var ending := Fetching(was, n, secret, r).ending;
            if ending == Waiting then AllWaiting(was, n + 1, secret, r)
            else FetchedAll(was, sent, now, sentNow, n, AnswerOf(ending, n), secret, r)
  {
    hide Fetching, FetchedUpTo, AnswerOf;
  }

  /** What the callbacks may answer. */
  ghost predicate Possible(cs: seq<Client>, input: Input) {
    && |input.ready| == |input.arrivals| == |cs|
    && input.accepted <= |cs|
    && (forall i :: 0 <= i < |cs| ==> CanArrive(cs[i], input.ready[i], input.arrivals[i]))
    && (forall i :: 0 <= i < |cs| && input.arrivals[i].Failed? ==> input.arrivals[i].code < 0)
  }

  ghost function TakenAt(cs: seq<Client>, input: Input, i: nat): Client
    requires Possible(cs, input) && i < |cs| && cs[i].Valid()
  {
    Taken(cs[i], input.ready[i], input.arrivals[i])
  }

  ghost predicate FailsAt(cs: seq<Client>, input: Input, i: nat)
    requires Possible(cs, input) && i < |cs|
  {
    Fails(cs[i], input.ready[i], input.arrivals[i])
  }

  /** Input was taken for the first n slots, the others are as before. */
  ghost predicate TakenUpTo(was: seq<Client>, now: seq<Client>, input: Input, n: nat)
    requires Possible(was, input) && AllValid(was)
  {
    && n <= |was| == |now|
    && (forall i :: 0 <= i < n ==> now[i] == TakenAt(was, input, i))
    && (forall i :: n <= i < |was| ==> now[i] == was[i])
  }

  lemma TakenNone(was: seq<Client>, input: Input)
    requires Possible(was, input) && AllValid(was)
    ensures TakenUpTo(was, was, input, 0)
  {}

  lemma TakenNext(was: seq<Client>, now: seq<Client>, input: Input, n: nat)
    requires Possible(was, input) && AllValid(was) && n < |was| && TakenUpTo(was, now, input, n)
    ensures |now| == |was| == |input.ready| == |input.arrivals| &&
            (input.arrivals[n].Failed? ==> input.arrivals[n].code < 0)
    ensures now[n] == was[n] && now[n].Valid() && CanArrive(now[n], input.ready[n], input.arrivals[n])
    ensures TakenAt(was, input, n) == Taken(now[n], input.ready[n], input.arrivals[n])
    ensures FailsAt(was, input, n) == Fails(now[n], input.ready[n], input.arrivals[n])
    ensures TakenUpTo(was, now[n := TakenAt(was, input, n)], input, n + 1)
  {
    hide Taken, CanArrive;
  }

  /** For each of the first n slots the connection was closed exactly if its client was dropped. */
  ghost predicate ClosedUpTo(was: seq<Client>, before: seq<nat>, after: seq<nat>, input: Input, n: nat) {
    && n <= |was| == |before| == |after| == |input.ready| == |input.arrivals|
    && (forall i :: 0 <= i < n ==> after[i] == before[i] + Closings(was[i], input.ready[i], input.arrivals[i]))
    && (forall i :: n <= i < |was| ==> after[i] == before[i])
  }

  lemma ClosedNone(was: seq<Client>, before: seq<nat>, input: Input)
    requires Possible(was, input) && |was| == |before|
    ensures ClosedUpTo(was, before, before, input, 0)
  {}

  lemma ClosedNext(was: seq<Client>, before: seq<nat>, after: seq<nat>, input: Input, n: nat)
    requires ClosedUpTo(was, before, after, input, n) && n < |was|
    ensures var closed := after[n] + Closings(was[n], input.ready[n], input.arrivals[n]);
            ClosedUpTo(was, before, after[n := closed], input, n + 1)
  {
    hide Closings;
  }

  /** On none of the slots before this one receiving failed. */
  ghost predicate NoneFails(cs: seq<Client>, input: Input, n: nat)
    requires Possible(cs, input) && n <= |cs|
  {
    forall i :: 0 <= i < n ==> !FailsAt(cs, input, i)
  }

  /** Input was taken from the slots up to and including `stop`, the first on which receiving failed. */
  ghost predicate TookAll(was: seq<Client>, now: seq<Client>, input: Input, stop: nat, status: int)
    requires Possible(was, input) && AllValid(was)
  {
    && stop <= |was|
    && TakenUpTo(was, now, input, if stop < |was| then stop + 1 else stop)
    && NoneFails(was, input, stop)
    && (stop < |was| ==> FailsAt(was, input, stop) && status == input.arrivals[stop].code)
    && (stop == |was| ==> status == 0)
  }

  /** Receiving failed on the slot just polled, or did not. */
  lemma TookSlot(was: seq<Client>, now: seq<Client>, input: Input, n: nat)
    requires Possible(was, input) && AllValid(was) && n < |was|
    requires TakenUpTo(was, now, input, n + 1) && NoneFails(was, input, n)
    ensures if FailsAt(was, input, n) then n < |input.arrivals| && TookAll(was, now, input, n, input.arrivals[n].code)
            else NoneFails(was, input, n + 1)
  {
    hide TakenUpTo, CanArrive;
  }

  /** Receiving failed on no slot. */
  lemma TookEvery(was: seq<Client>, now: seq<Client>, input: Input)
    requires Possible(was, input) && AllValid(was)
    requires TakenUpTo(was, now, input, |was|) && NoneFails(was, input, |was|)
    ensures TookAll(was, now, input, |was|, 0)
  {
    hide TakenUpTo, CanArrive;
  }

  lemma NoneFailed(was: seq<Client>, input: Input)
    requires Possible(was, input)
    ensures NoneFails(was, input, 0)
  {}

  lemma TookStatus(was: seq<Client>, now: seq<Client>, input: Input, stop: nat, status: int)
    requires Possible(was, input) && AllValid(was) && TookAll(was, now, input, stop, status)
    ensures stop <= |was| == |now| && (status == 0 <==> stop == |was|)
  {}

  function Joined(cs: seq<Client>, input: Input): (now: seq<Client>)
    requires input.accepted <= |cs|
    ensures |now| == |cs|
  {
    if input.listenerReady && input.accepted > 0 then cs[input.accepted - 1 := Accepted(cs[input.accepted - 1])] else cs
  }

  function JoinStatus(input: Input): int {
    if input.listenerReady && input.accepted < 0 then input.accepted else 0
  }

  /** What rcon_wait_for_input makes of the slots, and its result. */
  ghost predicate Waited(was: seq<Client>, now: seq<Client>, input: Input, stop: nat, status: int)
    requires Possible(was, input) && AllValid(was)
  {
    if input.waited <= 0 then now == was && status == input.waited
    else if stop < |was| then TookAll(was, now, input, stop, status)
    else
      exists mid ::
        TookAll(was, mid, input, stop, 0) && |mid| == |was| && now == Joined(mid, input) && status == JoinStatus(input)
  }

  /** What rcon_complete_command makes of the slots, and its result. It does not check that there is such a
      slot: past the last one the outcome is undefined. */
  ghost predicate CompletedAt(was: seq<Client>, sent: seq<seq<Bytes>>, now: seq<Client>, sentNow: seq<seq<Bytes>>,
                              clientIndex: int, text: Bytes, status: Option<int>)
    requires AllValid(was) && |sent| == |was|
  {
    var i := clientIndex - 1;
    if i >= |was| then status == None
    else if i < 0 || !was[i].inUse then status == Some(0) && now == was && sentNow == sent
    else if !was[i].inCmd then status == Some(PROTOCOL_ERROR) && now == was && sentNow == sent
    else
      status == Some(0) && now == was[i := Completed(was[i])] &&
      sentNow == sent[i := sent[i] + CommandReplies(was[i], text)]
  }

  /** A client in use that has data although its buffer is full is dropped, whatever the callback answers and
      even if its command is being carried out: it is asked for no bytes at all. With room in the buffer, it
      can stay. */
  lemma FullDrops(c: Client)
    requires c.Valid() && c.inUse
    ensures (forall a :: CanArrive(c, true, a) ==> !Taken(c, true, a).inUse) <==> c.recvd == BUFFER_SIZE
  {
    if c.recvd < BUFFER_SIZE {
      assert CanArrive(c, true, Data([0])) && Taken(c, true, Data([0])).inUse;
    }
  }

  /** rcon_create; `room` is whether calloc has room for the slots. */
  method Create(maxClients: nat, signedChar: bool, password: Option<Bytes>, room: bool)
    returns (status: int, server: Server?)
    requires password.Some? ==> PasswordFits(password.value)
    ensures status == if room then 0 else PROTOCOL_ERROR
    ensures server != null <==> room
    ensures server != null ==>
      && server.Valid() && fresh(server.Footprint())
      && server.signedChar == signedChar && server.password == password && |server.slots| == maxClients
      && server.Clients() == seq(maxClients, i => FreshSlot())
      && server.Sent() == seq(maxClients, i => []) && server.Closed() == seq(maxClients, i => 0)
  {
    if !room {
      return PROTOCOL_ERROR, null;
    }
    var made := new Server(maxClients, signedChar, password);
    return 0, made;
  }

  class Server {
    const slots: seq<Slot>
    const signedChar: bool
    var password: Option<Bytes>

    /** rcon_create: slots all zero. The password pointer stays what it was in the caller's memory. */
    constructor (maxClients: nat, signedChar: bool, password: Option<Bytes>)
      requires password.Some? ==> PasswordFits(password.value)
      ensures Valid() && |slots| == maxClients && this.signedChar == signedChar && this.password == password
      ensures fresh(Footprint())
      ensures forall i :: 0 <= i < maxClients ==> slots[i].sent == [] && slots[i].closings == 0
      ensures forall i :: 0 <= i < maxClients ==> slots[i].State() == FreshSlot()
    {
      var made: seq<Slot> := [];
      for i := 0 to maxClients
        invariant |made| == i
        invariant forall j :: 0 <= j < i ==>
                  fresh(made[j]) && fresh(made[j].buffer) && made[j].sent == [] && made[j].closings == 0
        invariant forall j :: 0 <= j < i ==> made[j].State() == FreshSlot()
        invariant forall j, k :: 0 <= j < k < i ==> made[j] != made[k] && made[j].buffer != made[k].buffer
      {
        var slot := new Slot();
        made := made + [slot];
      }
      slots, this.signedChar, this.password := made, signedChar, password;
    }

    ghost predicate Distinct() {
      forall i, j :: 0 <= i < j < |slots| ==> slots[i] != slots[j] && slots[i].buffer != slots[j].buffer
    }

    ghost function Footprint(): set<object> {
      (set s: Slot | s in slots :: s) + (set s: Slot | s in slots :: s.buffer)
    }

    ghost predicate Valid()
      reads this, Footprint()
    {
      Distinct() && (password.Some? ==> PasswordFits(password.value)) &&
      forall i :: 0 <= i < |slots| ==> slots[i].Valid()
    }

    /** The clients in the slots, and what was sent to each. */
    ghost function Clients(): (cs: seq<Client>)
      reads this, Footprint()
      ensures |cs| == |slots| && forall i :: 0 <= i < |slots| ==> cs[i] == slots[i].State()
    {
      StatesOf(slots)
    }

    ghost function Sent(): (ss: seq<seq<Bytes>>)
      reads this, Footprint()
      ensures |ss| == |slots| && forall i :: 0 <= i < |slots| ==> ss[i] == slots[i].sent
    {
      SentOf(slots)
    }

    /** How often the connection in each was closed. */
    ghost function Closed(): (ns: seq<nat>)
      reads this, Footprint()
      ensures |ns| == |slots| && forall i :: 0 <= i < |slots| ==> ns[i] == slots[i].closings
    {
      ClosingsOf(slots)
    }

    method ServeSlot(i: nat) returns (ending: Ending)
      requires Valid() && i < |slots|
      modifies slots[i], slots[i].buffer
      ensures var f := FetchSlot(old(Clients())[i], SecretOf(password), CharReader(signedChar));
              Valid() && Clients() == old(Clients())[i := f.client] &&
              Sent() == old(Sent())[i := old(Sent())[i] + f.sent] &&
              ending == f.ending
      ensures Closed() == old(Closed())
    {
      hide FetchSlot, RconModel.Fetch, CharReader, SecretOf, Client.Valid, PasswordFits, StatesOf, SentOf, ClosingsOf;
      ending := slots[i].Serve(password, signedChar);
    }

    /** rcon_fetch_command: the slots are served in order up to the first that has something to report. */
    method FetchCommand() returns (answer: Answer, ghost stop: nat)
      requires Valid()
      modifies Footprint()
      ensures Valid()
      ensures AllValid(old(Clients())) &&
              FetchedAll(old(Clients()), old(Sent()), Clients(), Sent(),
                         stop, answer, SecretOf(password), CharReader(signedChar))
      ensures Closed() == old(Closed())
    {
      hide FetchedUpTo, AllWaiting, Fetching, FetchSlot, RconModel.Fetch,
           CharReader, SecretOf, Client.Valid, PasswordFits;
      hide StatesOf, SentOf, ClosingsOf, AnswerOf;
      ghost var was, sent, secret, r := Clients(), Sent(), SecretOf(password), CharReader(signedChar);
      FetchedNone(was, sent, secret, r);
      NoneWaiting(was, secret, r);
      for i := 0 to |slots|
        invariant Valid() && password == old(password)
        invariant FetchedUpTo(was, sent, Clients(), Sent(), i, secret, r) && Closed() == old(Closed())
        invariant AllWaiting(was, i, secret, r)
      {
        FetchedNext(was, sent, Clients(), Sent(), i, secret, r);
        assert slots[i] in slots;
        var ending := ServeSlot(i);
        FetchedSlot(was, sent, Clients(), Sent(), i, secret, r);
        if ending != Waiting {
          return AnswerOf(ending, i), i;
        }
      }
      return NoCommand, |slots|;
    }

    method PollSlot(input: Input, i: nat) returns (status: int)
      requires Valid() && i < |slots| == |input.ready| == |input.arrivals|
      requires CanArrive(Clients()[i], input.ready[i], input.arrivals[i]) &&
               (input.arrivals[i].Failed? ==> input.arrivals[i].code < 0)
      modifies slots[i], slots[i].buffer
      ensures Valid() && Sent() == old(Sent()) && old(Clients())[i].Valid()
      ensures Clients() == old(Clients())[i := Taken(old(Clients())[i], input.ready[i], input.arrivals[i])]
      ensures Closed() ==
              old(Closed())[i := old(Closed())[i] + Closings(old(Clients())[i], input.ready[i], input.arrivals[i])]
      ensures status < 0 <==> Fails(old(Clients())[i], input.ready[i], input.arrivals[i])
      ensures status < 0 ==> status == input.arrivals[i].code
    {
      hide CanArrive, Taken, Fails, Closings, PasswordFits, Client.Valid, StatesOf, SentOf, ClosingsOf;
      status := slots[i].Poll(input.ready[i], input.arrivals[i]);
    }

    /** The first loop of rcon_wait_for_input: input is taken from every slot that has some, up to the
        first on which receiving fails. */
    method TakeInput(input: Input) returns (status: int, ghost stop: nat)
      requires Valid() && Possible(Clients(), input)
      modifies Footprint()
      ensures Valid() && Sent() == old(Sent()) && AllValid(old(Clients()))
      ensures TookAll(old(Clients()), Clients(), input, stop, status)
      ensures ClosedUpTo(old(Clients()), old(Closed()), Closed(), input, if stop < |slots| then stop + 1 else stop)
    {
      hide Possible, CanArrive, Taken, TakenUpTo, TakenAt, FailsAt, NoneFails, Fails, ClosedUpTo, Closings;
      hide TookAll, PasswordFits, Client.Valid, StatesOf, SentOf, ClosingsOf;
      ghost var was, closed := Clients(), Closed();
      TakenNone(was, input);
      ClosedNone(was, closed, input);
      NoneFailed(was, input);
      for i := 0 to |slots|
        invariant Valid() && Sent() == old(Sent())
        invariant TakenUpTo(was, Clients(), input, i) && ClosedUpTo(was, closed, Closed(), input, i)
        invariant NoneFails(was, input, i)
      {
        TakenNext(was, Clients(), input, i);
        ClosedNext(was, closed, Closed(), input, i);
        assert slots[i] in slots;
        var s := PollSlot(input, i);
        TookSlot(was, Clients(), input, i);
        if s < 0 {
          return s, i;
        }
      }
      TookEvery(was, Clients(), input);
      return 0, |slots|;
    }

    /** The end of rcon_wait_for_input. */
    method TakeClient(input: Input) returns (status: int)
      requires Valid() && input.accepted <= |slots|
      modifies Footprint()
      ensures Valid() && Sent() == old(Sent()) && Closed() == old(Closed())
      ensures Clients() == Joined(old(Clients()), input) && status == JoinStatus(input)
    {
      hide PasswordFits, Client.Valid, StatesOf, SentOf;
      status := 0;
      if input.listenerReady {
        if input.accepted < 0 {
          return input.accepted;
        }
        if input.accepted > 0 {
          slots[input.accepted - 1].Accept();
        }
      }
    }

    /** rcon_wait_for_input: nothing happens unless waiting succeeds; nobody is accepted after a failure. */
    method WaitForInput(input: Input) returns (status: int, ghost stop: nat)
      requires Valid() && Possible(Clients(), input)
      modifies Footprint()
      ensures Valid() && Sent() == old(Sent()) && AllValid(old(Clients()))
      ensures Waited(old(Clients()), Clients(), input, stop, status)
      ensures if input.waited <= 0 then Closed() == old(Closed())
              else ClosedUpTo(old(Clients()), old(Closed()), Closed(), input, if stop < |slots| then stop + 1 else stop)
    {
      hide TakenUpTo, TakenAt, FailsAt, CanArrive, ClosedUpTo, PasswordFits, Client.Valid, StatesOf, SentOf, ClosingsOf;
      ghost var was := Clients();
      if input.waited <= 0 {
        return input.waited, |slots|;
      }
      status, stop := TakeInput(input);
      ghost var now := Clients();
      assert status == 0 <==> stop == |was| by { TookStatus(was, now, input, stop, status); }
      if status == 0 {
        assert TookAll(was, now, input, stop, 0);
        status := TakeClient(input);
      }
    }

    /** rcon_complete_command */
    method CompleteCommand(clientIndex: int, response: Bytes) returns (status: Option<int>)
      requires Valid() && 0 in response
      modifies Footprint()
      ensures Valid() && Closed() == old(Closed()) && AllValid(old(Clients()))
      ensures CompletedAt(old(Clients()), old(Sent()), Clients(), Sent(), clientIndex, CString(response), status)
    {
      hide Completed, CommandReplies, CString, PasswordFits, Client.Valid, StatesOf, SentOf, ClosingsOf;
      ghost var cs := Clients();
      if clientIndex > |slots| {
        return None;
      }
      if clientIndex <= 0 || !slots[clientIndex - 1].inUse {
        return Some(0);
      }
      if !slots[clientIndex - 1].inCmd {
        return Some(PROTOCOL_ERROR);
      }
      assert slots[clientIndex - 1] in slots && cs[clientIndex - 1].inCmd;
      AnswerSlot(clientIndex - 1, CString(response));
      return Some(0);
    }

    method AnswerSlot(i: nat, text: Bytes)
      requires Valid() && i < |slots| && slots[i].inCmd
      modifies slots[i], slots[i].buffer
      ensures var c := old(Clients())[i];
              Valid() && c.Valid() && c.inCmd && Clients() == old(Clients())[i := Completed(c)] &&
              Sent() == old(Sent())[i := old(Sent())[i] + CommandReplies(c, text)]
      ensures Closed() == old(Closed())
    {
      hide Completed, CommandReplies, LosesFront, Client.Valid, PasswordFits, StatesOf, SentOf, ClosingsOf;
      slots[i].Answer(text);
    }

    /** rcon_set_password: one too long is as good as none. */
    method SetPassword(password: Option<Bytes>) returns (status: int)
      requires Valid() && (password.Some? ==> 0 in password.value)
      modifies this
      ensures Valid()
      ensures status == if password.Some? && |CString(password.value)| > MAX_PASSWORD_LENGTH then 0 else 1
      ensures SecretOf(this.password) == if status == 1 then SecretOf(password) else None
    {
      if password.Some? && |CString(password.value)| > MAX_PASSWORD_LENGTH {
        this.password := None;
        return 0;
      }
      this.password := password;
      return 1;
    }

    /** rcon_drop_client */
    method DropClient(i: nat)
      requires Valid() && i < |slots|
      modifies slots[i]
      ensures Valid() && Sent() == old(Sent())
      ensures Clients() == old(Clients())[i := Dropped(old(Clients())[i])]
      ensures Closed() == old(Closed())[i := old(Closed())[i] + 1]
    {
      hide PasswordFits, Client.Valid, StatesOf, SentOf, ClosingsOf;
      slots[i].Drop();
    }
  }
}
