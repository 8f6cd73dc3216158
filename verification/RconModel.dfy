/** One client of an RCON server as a value: how its buffer fills, how packets are taken from it and what
    is sent in reply. */
module RconModel {
  import opened Wrappers
  import opened Words
  import opened CStrings
  import opened RconFraming

  const MAX_PASSWORD_LENGTH := 4086

  const AUTH: bv32 := 3
  const AUTH_RESPONSE: bv32 := 2
  const EXECCOMMAND: bv32 := 2
  const RESPONSE_VALUE: bv32 := 0
  const MINUS_ONE: bv32 := 0xFFFF_FFFF

  /** A password, or NULL. */
  type Secret = Option<Bytes>

  datatype Client = Client(
    recvd: nat, inUse: bool, authd: bool, inCmd: bool,
    packetLength: int, requestID: bv32, packetType: bv32, buffer: Bytes)
  {
    ghost predicate Valid() {
      |buffer| == BUFFER_SIZE && recvd <= BUFFER_SIZE && (inCmd ==> 0 <= packetLength <= recvd)
    }

    /** The bytes received and not yet handled. */
    function Pending(): Bytes
      requires Valid()
    {
      buffer[..recvd]
    }
  }

  /** A slot as rcon_create leaves it. */
  function FreshSlot(): Client {
    Client(0, false, false, false, 0, 0, 0, seq(BUFFER_SIZE, n => 0))
  }

  // ---- rcon_wait_for_input ----

  function Accepted(c: Client): Client {
    c.(recvd := 0, inUse := true, authd := false, inCmd := false)
  }

  function Dropped(c: Client): Client {
    c.(inUse := false)
  }

  /** cb_recv stored these bytes behind those already there. */
  function Received(c: Client, data: Bytes): (d: Client)
    requires c.Valid() && c.recvd + |data| <= BUFFER_SIZE
    ensures d.Valid() && d.Pending() == c.Pending() + data
  {
    c.(recvd := c.recvd + |data|, buffer := c.buffer[..c.recvd] + data + c.buffer[c.recvd + |data|..])
  }

  // ---- rcon_fetch_command ----

  /** The bytes pending lose exactly the packet at their front. */
  predicate LosesFront(c: Client, d: Client)
    requires c.Valid() && d.Valid() && 0 <= c.packetLength <= c.recvd
  {
    d.Pending() == c.Pending()[c.packetLength..]
  }

  /** recvd and the bytes behind the first packet move down. */
  function Consumed(c: Client): (d: Client)
    requires c.Valid() && !c.inCmd && 0 <= c.packetLength <= c.recvd
    ensures d.Valid() && LosesFront(c, d)
  {
    var left := c.recvd - c.packetLength;
    c.(recvd := left, buffer := c.buffer[c.packetLength..c.recvd] + c.buffer[left..])
  }

  /** The packet at the front of the buffer is complete and not malformed. */
  predicate Complete(c: Client, r: Reader)
    requires c.Valid()
  {
    c.recvd >= 4 && 10 <= PacketLength(c.buffer, r) <= c.recvd
  }

  function Sized(c: Client, r: Reader): Client
    requires c.Valid() && !c.inCmd
  {
    c.(packetLength := PacketLength(c.buffer, r))
  }

  /** The header fields of the packet at the front. */
  function Opened(c: Client, r: Reader): Client
    requires c.Valid()
  {
    c.(packetLength := PacketLength(c.buffer, r),
       requestID := ReadI32(c.buffer[4..], r), packetType := ReadI32(c.buffer[8..], r))
  }

  predicate Matches(given: Bytes, secret: Secret) {
    secret.Some? && CString(given) == secret.value
  }

  /** What is sent in reply to an AUTH packet. */
  function AuthReplies(id: bv32, granted: bool): seq<Bytes> {
    Send(id, RESPONSE_VALUE, []) + Send(if granted then id else MINUS_ONE, AUTH_RESPONSE, [])
  }

  /** What is sent in reply to a packet of any other type than AUTH and EXECCOMMAND. */
  function EchoReplies(id: bv32, payload: Bytes): seq<Bytes> {
    Send(id, RESPONSE_VALUE, payload) + Send(id, RESPONSE_VALUE, [1, 0])
  }

  /** How fetching ends for one client: it waits for input or is idle; it has a command for the caller;
      it broke the protocol; or the code reads or writes where C leaves the outcome undefined. */
  datatype Ending = Waiting | Command | Refused | Undefined

  /** A packet taken from the buffer, and the type read for it. The type of a packet of ten or eleven bytes
      is read in part from whatever lies behind it. */
  datatype Handled = Handled(raw: Bytes, kind: bv32)

  /** The client afterwards, the packets taken from its buffer, and what was sent. */
  datatype Fetched = Fetched(client: Client, handled: seq<Handled>, sent: seq<Bytes>, ending: Ending)
  {
    function After(packet: Handled, replies: seq<Bytes>): Fetched {
      this.(handled := [packet] + handled, sent := replies + sent)
    }
  }

  /** The loop of rcon_fetch_command for one client. The comparison is undefined when it runs off the
      buffer, and the copy when its length is negative. */
  function Fetch(c: Client, secret: Secret, r: Reader): (f: Fetched)
    requires c.Valid() && !c.inCmd
    ensures f.client.Valid() && f.client.inUse == c.inUse
    decreases c.recvd
  {
    if c.recvd < 4 then Fetched(c, [], [], Waiting)
    else if c.recvd < PacketLength(c.buffer, r) then Fetched(Sized(c, r), [], [], Waiting)
    else if PacketLength(c.buffer, r) < 10 then Fetched(Sized(c, r), [], [], Refused)
    else
      var o := Opened(c, r);
      if o.packetType == AUTH then
        if secret.Some? && 0 !in o.buffer[12..] then Fetched(o, [], Send(o.requestID, RESPONSE_VALUE, []), Undefined)
        else
          var granted := Matches(o.buffer[12..], secret);
          Fetch(Consumed(o.(authd := o.authd || granted)), secret, r)
            .After(Handled(o.buffer[..o.packetLength], AUTH), AuthReplies(o.requestID, granted))
      else if o.packetType == EXECCOMMAND then
        if !o.authd then Fetched(o, [], [], Refused) else Fetched(o.(inCmd := true), [], [], Command)
      else if o.packetLength < PACKET_OVERHEAD then Fetched(o, [], [], Undefined)
      else
        Fetch(Consumed(o), secret, r)
          .After(Handled(o.buffer[..o.packetLength], o.packetType),
                 EchoReplies(o.requestID, o.buffer[12..o.packetLength - 2]))
  }

  // ---- the loop unfolded ----

  /** The packet at the front of the buffer. */
  function Front(c: Client, r: Reader): (f: Bytes)
    requires c.Valid() && Complete(c, r)
  {
    c.buffer[..PacketLength(c.buffer, r)]
  }

  /** The client after an AUTH packet, and after one that is only echoed. */
  function AfterAuth(c: Client, secret: Secret, r: Reader): (d: Client)
    requires c.Valid() && !c.inCmd && Complete(c, r)
    ensures d.Valid()
  {
    var o := Opened(c, r);
    Consumed(o.(authd := o.authd || Matches(o.buffer[12..], secret)))
  }

  function AfterEcho(c: Client, r: Reader): (d: Client)
    requires c.Valid() && !c.inCmd && Complete(c, r)
    ensures d.Valid()
  {
    Consumed(Opened(c, r))
  }

  lemma UnfoldAuth(c: Client, secret: Secret, r: Reader)
    requires c.Valid() && !c.inCmd && Complete(c, r) && Opened(c, r).packetType == AUTH
    requires secret.None? || 0 in c.buffer[12..]
    ensures Fetch(c, secret, r)
         == Fetch(AfterAuth(c, secret, r), secret, r)
              .After(Handled(Front(c, r), AUTH), AuthReplies(Opened(c, r).requestID, Matches(c.buffer[12..], secret)))
  {}

  lemma UnfoldEcho(c: Client, secret: Secret, r: Reader)
    requires c.Valid() && !c.inCmd && Complete(c, r) && PacketLength(c.buffer, r) >= PACKET_OVERHEAD
    requires Opened(c, r).packetType != AUTH && Opened(c, r).packetType != EXECCOMMAND
    ensures Fetch(c, secret, r)
         == Fetch(AfterEcho(c, r), secret, r)
              .After(Handled(Front(c, r), Opened(c, r).packetType),
                     EchoReplies(Opened(c, r).requestID, c.buffer[12..PacketLength(c.buffer, r) - 2]))
  {}

  lemma FetchStops(c: Client, secret: Secret, r: Reader)
    requires c.Valid() && !c.inCmd && Complete(c, r)
    ensures var o, f := Opened(c, r), Fetch(c, secret, r);
            && (o.packetType == AUTH && secret.Some? && 0 !in c.buffer[12..] ==>
                 f == Fetched(o, [], Send(o.requestID, RESPONSE_VALUE, []), Undefined))
            && (o.packetType == EXECCOMMAND ==>
                 f == if o.authd then Fetched(o.(inCmd := true), [], [], Command) else Fetched(o, [], [], Refused))
            && (o.packetType != AUTH && o.packetType != EXECCOMMAND && o.packetLength < PACKET_OVERHEAD ==>
                 f == Fetched(o, [], [], Undefined))
  {}

  /** What fetching does for one slot: unused ones and those with a command out are passed over. */
  function FetchSlot(c: Client, secret: Secret, r: Reader): (f: Fetched)
    requires c.Valid()
    ensures f.client.Valid()
  {
    if c.inUse && !c.inCmd then Fetch(c, secret, r) else Fetched(c, [], [], Waiting)
  }

  // ---- rcon_complete_command ----

  /** The client after its command was answered. */
  function Completed(c: Client): (d: Client)
    requires c.Valid() && c.inCmd
    ensures d.Valid() && LosesFront(c, d)
  {
    Consumed(c.(inCmd := false))
  }

  function CommandReplies(c: Client, response: Bytes): seq<Bytes> {
    Send(c.requestID, RESPONSE_VALUE, response)
  }
}
