/** AUTH packets that hold no NUL: the comparison goes on behind them, into what the buffer held before. */
module RconAuth {
  import opened Wrappers
  import opened Words
  import opened CStrings
  import opened RconFraming
  import opened RconModel
  import opened RconStream
  import opened RconRuns

  /** The packet at the front, taken for an AUTH packet, and what is recorded about it. */
  predicate AuthAtFront(c: Client, r: Reader) {
    |c.buffer| == BUFFER_SIZE && c.recvd <= BUFFER_SIZE && !c.inCmd && Complete(c, r) && Opened(c, r).packetType == AUTH
  }

  function AuthItem(f: Bytes, secret: Bytes): Item {
    Item(f, AUTH, Some(secret), [])
  }

  /** Whatever else the buffer holds, handling this packet keeps authorisation what it should be: granted
      before, or by what is in the packet. */
  ghost predicate KeepsAuthorisation(f: Bytes, secret: Bytes, r: Reader) {
    forall c: Client | AuthAtFront(c, r) && Front(c, r) == f && 0 in c.buffer[12..] ::
      AfterAuth(c, Some(secret), r).authd <==> c.authd || Grants(AuthItem(f, secret))
  }

  /** The same packet at the front of a buffer in which the password follows it up to its end. */
  function Continued(c: Client, secret: Bytes, r: Reader): (d: Client)
    requires AuthAtFront(c, r) && |secret| <= MAX_PASSWORD_LENGTH
    ensures |d.buffer| == BUFFER_SIZE
  {
    var n := PacketLength(c.buffer, r);
    var front := if n >= 12 then c.buffer[..n] else c.buffer[..12];
    var rest := if n >= 12 && n - 12 <= |secret| then secret[n - 12..] else secret;
    var rest := if |front| + |rest| < BUFFER_SIZE then rest else [];
    c.(authd := false, buffer := front + rest + Zeros(BUFFER_SIZE - |front| - |rest|))
  }

  lemma ContinuedSame(c: Client, secret: Bytes, r: Reader)
    requires AuthAtFront(c, r) && |secret| <= MAX_PASSWORD_LENGTH
    ensures AuthAtFront(Continued(c, secret, r), r) && Front(Continued(c, secret, r), r) == Front(c, r)
  {
    var b, d, n := c.buffer, Continued(c, secret, r).buffer, PacketLength(c.buffer, r);
    assert forall k :: 0 <= k < n || 0 <= k < 12 ==> d[k] == b[k];
    assert d[8..][0] == b[8..][0] && d[8..][1] == b[8..][1] && d[8..][2] == b[8..][2] && d[8..][3] == b[8..][3];
  }

  function Zeros(n: nat): Bytes {
    seq(n, k => 0)
  }

  lemma PaddedSpells(secret: Bytes, n: nat)
    requires 0 !in secret && n > 0
    ensures 0 in secret + Zeros(n) && CString(secret + Zeros(n)) == secret
  {
    assert (secret + Zeros(n))[|secret|] == 0;
    StringContinues(secret, Zeros(n));
  }

  lemma ContinuedTail(c: Client, secret: Bytes, r: Reader)
    requires AuthAtFront(c, r) && |secret| <= MAX_PASSWORD_LENGTH
    requires var f := Front(c, r); |f| >= 12 ==> f[12..] <= secret
    ensures Continued(c, secret, r).buffer[12..] == secret + Zeros(BUFFER_SIZE - 12 - |secret|)
  {
    var f, n := Front(c, r), PacketLength(c.buffer, r);
    if n >= 12 { assert f[12..] + secret[n - 12..] == secret; }
  }

  /** From there on the buffer spells the password. */
  lemma ContinuedSpells(c: Client, secret: Bytes, r: Reader)
    requires AuthAtFront(c, r) && |secret| <= MAX_PASSWORD_LENGTH && 0 !in secret
    requires var f := Front(c, r); |f| >= 12 ==> f[12..] <= secret
    ensures var d := Continued(c, secret, r).buffer;
            0 in d[12..] && CString(d[12..]) == secret
  {
    hide Continued;
    ContinuedTail(c, secret, r);
    PaddedSpells(secret, BUFFER_SIZE - 12 - |secret|);
  }

  /** An AUTH packet keeps authorisation right, whatever else is in the buffer, if and only if it settles the
      comparison: its payload holds a NUL, or is not the start of the password. So the packets of ten or
      eleven bytes that can be taken for AUTH packets never do, nor does one without a payload. */
  lemma AuthExactly(c: Client, secret: Bytes, r: Reader)
    requires AuthAtFront(c, r) && 0 !in secret && |secret| <= MAX_PASSWORD_LENGTH
    ensures var f := Front(c, r);
            (KeepsAuthorisation(f, secret, r) <==> Settled(AuthItem(f, secret))) &&
            (Settled(AuthItem(f, secret)) <==> |f| >= 12 && (0 in f[12..] || !(f[12..] <= secret)))
  {
    var f := Front(c, r);
    if Settled(AuthItem(f, secret)) {
      forall d: Client | AuthAtFront(d, r) && Front(d, r) == f && 0 in d.buffer[12..]
        ensures AfterAuth(d, Some(secret), r).authd <==> d.authd || Grants(AuthItem(f, secret))
      {
        FrontSettled(d, Some(secret), r);
      }
    } else {
      var d := Continued(c, secret, r);
      ContinuedSame(c, secret, r);
      ContinuedSpells(c, secret, r);
      assert AfterAuth(d, Some(secret), r).authd;
      assert !d.authd && !Grants(AuthItem(f, secret));
    }
  }

  // ---- a run in which it happens ----

  /** An AUTH packet of twelve bytes: no payload, no NULs. */
  function BareAuth(id: bv32): (f: Bytes)
    ensures |f| == 12
  {
    WriteI32(Word(8)) + WriteI32(id) + WriteI32(AUTH)
  }

  /** One client sends an AUTH packet and the server fetches. */
  function Login(packet: Bytes, secret: Bytes): seq<Event> {
    [Arrives(packet), Fetches(Some(secret))]
  }

  /** What a login with a complete AUTH packet does to a slot. */
  ghost predicate LogsIn(slot: Client, f: Bytes, secret: Bytes, r: Reader)
    requires slot.Valid()
  {
    && IsRun(Start(slot), Login(f, secret), r) && AllDefined(Start(slot), Login(f, secret), r)
    && var k := Run(Start(slot), Login(f, secret), r);
       k.client.authd == Matches(k.client.buffer[12..], Some(secret)) && k.items == [AuthItem(f, secret)]
  }

  /** What the buffer holds once the packet has come. */
  function Overlaid(f: Bytes, was: Bytes): Bytes {
    if |f| <= |was| then f + was[|f|..] else f
  }

  lemma LoginRuns(slot: Client, f: Bytes, secret: Bytes, r: Reader)
    requires slot.Valid() && IsFrame(f, r) && |f| <= BUFFER_SIZE
    requires var b := Overlaid(f, slot.buffer); ReadI32(b[8..], r) == AUTH && 0 in b[12..]
    ensures LogsIn(slot, f, secret, r)
    ensures Run(Start(slot), Login(f, secret), r).client.buffer == Overlaid(f, slot.buffer)
  {
    hide Fetch, Matches, IsRun, Run, AllDefined, Front, Complete, IsFrame, Received, Overlaid;
    var c := Received(Accepted(slot), f);
    FrameLength(f, r);
    LoginArrives(slot, f);
    LoginFront(c, f, r);
    LoginFetch(c, f, secret, r);
    LoginSteps(slot, f, secret, r);
    assert AllRecorded([Handled(f, AUTH)], Some(secret)) == [AuthItem(f, secret)];
  }

  lemma FrameLength(f: Bytes, r: Reader)
    requires IsFrame(f, r)
    ensures |f| >= 10
  {}

  lemma LoginArrives(slot: Client, f: Bytes)
    requires slot.Valid() && 10 <= |f| <= BUFFER_SIZE
    ensures var c := Received(Accepted(slot), f);
            c.recvd == |f| && !c.inCmd && !c.authd && c.buffer == Overlaid(f, slot.buffer) && c.buffer[..|f|] == f
  {}

  /** The two events of a login. */
  lemma LoginSteps(slot: Client, f: Bytes, secret: Bytes, r: Reader)
    requires slot.Valid() && f != [] && |f| <= BUFFER_SIZE
    ensures var k0, es := Start(slot), Login(f, secret);
            var k1 := Step(k0, Arrives(f), r);
            IsRun(k0, es, r) && Run(k0, es, r) == Step(k1, Fetches(Some(secret)), r) &&
            (AllDefined(k0, es, r) <==> Fetch(k1.client, Some(secret), r).ending != Undefined)
  {
    hide Fetch;
    var k0, es := Start(slot), Login(f, secret);
    var k1 := Step(k0, Arrives(f), r);
    assert es[1..] == [Fetches(Some(secret))] && es[1..][1..] == [];
    var k2 := Step(k1, es[1..][0], r);
    assert IsRun(k1, es[1..], r) && Run(k1, es[1..], r) == k2;
    assert AllDefined(k2, es[1..][1..], r);
    assert AllDefined(k1, es[1..], r) <==> !GoesWrong(k1, es[1..][0], r);
  }

  lemma LoginFront(c: Client, f: Bytes, r: Reader)
    requires c.Valid() && IsFrame(f, r) && c.recvd == |f| && c.buffer[..|f|] == f
    ensures Complete(c, r) && Front(c, r) == f
  {
    var b := c.buffer;
    assert forall k :: 0 <= k < |f| ==> b[k] == b[..|f|][k];
    assert PacketLength(b, r) == |f|;
  }

  /** Fetching takes the packet, leaves nothing, and keeps the bytes of the buffer. */
  lemma LoginFetch(c: Client, f: Bytes, secret: Bytes, r: Reader)
    requires c.Valid() && !c.inCmd && Complete(c, r) && Front(c, r) == f && |f| == c.recvd
    requires Opened(c, r).packetType == AUTH && 0 in c.buffer[12..]
    ensures var t := Fetch(c, Some(secret), r);
            t.ending == Waiting && t.handled == [Handled(f, AUTH)] && t.client.buffer == c.buffer && !t.client.inCmd &&
            t.client.authd == (c.authd || Matches(c.buffer[12..], Some(secret)))
  {
    hide Fetch, AfterAuth, Matches;
    LoginDrains(c, secret, r);
    UnfoldAuth(c, Some(secret), r);
    FetchIncompleteIs(AfterAuth(c, Some(secret), r), Some(secret), r);
  }

  lemma LoginDrains(c: Client, secret: Bytes, r: Reader)
    requires c.Valid() && !c.inCmd && Complete(c, r) && PacketLength(c.buffer, r) == c.recvd
    ensures var d := AfterAuth(c, Some(secret), r);
            d.recvd == 0 && d.buffer == c.buffer && !d.inCmd &&
            d.authd == (c.authd || Matches(c.buffer[12..], Some(secret)))
  {
    assert c.buffer[c.recvd..c.recvd] == [] && [] + c.buffer[0..] == c.buffer;
  }

  /** After a client with this AUTH packet has left, the one with that AUTH packet is authorised. */
  ghost predicate SecondAuthorised(g: Bytes, f: Bytes, secret: Bytes, r: Reader) {
    && LogsIn(FreshSlot(), g, secret, r)
    && var left := Dropped(Run(Start(FreshSlot()), Login(g, secret), r).client);
       && left.Valid() && LogsIn(left, f, secret, r)
       && var k := Run(Start(left), Login(f, secret), r);
          k.client.authd && !Granted(k.items)
  }

  /** A buffer that holds the password and a NUL behind the header. */
  lemma LeftoverSpells(secret: Bytes, zeros: Bytes)
    requires 0 !in secret && zeros != [] && zeros[0] == 0
    ensures 0 in secret + zeros && Matches(secret + zeros, Some(secret))
  {
    StringContinues(secret, zeros);
    assert CString(zeros) == [];
    assert (secret + zeros)[|secret|] == 0;
  }

  /** A login into a slot whose buffer then spells the password, by what the packet holds or by what the
      buffer held. */
  lemma SpelledLogin(slot: Client, f: Bytes, secret: Bytes, zeros: Bytes, r: Reader)
    requires slot.Valid() && IsFrame(f, r) && |f| <= BUFFER_SIZE
    requires var b := Overlaid(f, slot.buffer); ReadI32(b[8..], r) == AUTH && b[12..] == secret + zeros
    requires 0 !in secret && zeros != [] && zeros[0] == 0
    ensures LogsIn(slot, f, secret, r)
    ensures var k := Run(Start(slot), Login(f, secret), r);
            k.client.authd && k.client.buffer == Overlaid(f, slot.buffer)
  {
    hide IsRun, Run, AllDefined, IsFrame, Matches, CString, Overlaid;
    LeftoverSpells(secret, zeros);
    LoginRuns(slot, f, secret, r);
  }

  /** Does this packet pass for an AUTH packet, behind that one? Of ten or eleven bytes, it takes the rest of
      its type from there. */
  predicate PassesForAuth(f: Bytes, g: Bytes, r: Reader) {
    var b := Overlaid(f, g);
    IsFrame(f, r) && |f| <= BUFFER_SIZE && |b| >= 12 && ReadI32(b[8..], r) == AUTH
  }

  /** An honest login: the packet of a client that knows the password. */
  predicate Honest(g: Bytes, secret: Bytes, r: Reader) {
    IsFrame(g, r) && |g| == |secret| + PACKET_OVERHEAD && ReadI32(g[8..], r) == AUTH && g[12..] == secret + [0, 0]
  }

  /** What the honest login leaves behind the header of the next packet. */
  lemma LeftBehind(f: Bytes, g: Bytes, rest: Bytes, secret: Bytes)
    requires |g| == |secret| + PACKET_OVERHEAD && g[12..] == secret + [0, 0]
    requires 10 <= |f| <= |g| && (|f| >= 12 ==> f[12..] <= secret)
    ensures var b := Overlaid(f, g + rest); |b| == |g + rest| && b[12..] == secret + ([0, 0] + rest)
    ensures Overlaid(f, g + rest)[8..12] == Overlaid(f, g)[8..12]
  {
    var s := g + rest;
    assert s[12..] == secret + ([0, 0] + rest);
    if |f| >= 12 {
      assert s[|f|..] == s[12..][|f| - 12..];
      assert f[12..] + secret[|f| - 12..] == secret;
    }
  }

  lemma HonestFirst(g: Bytes, secret: Bytes, r: Reader)
    requires Honest(g, secret, r) && 0 !in secret && |secret| <= MAX_PASSWORD_LENGTH
    ensures LogsIn(FreshSlot(), g, secret, r)
    ensures var k := Run(Start(FreshSlot()), Login(g, secret), r);
            k.client.Valid() && Dropped(k.client).Valid() && k.client.buffer == Overlaid(g, FreshSlot().buffer)
  {
    hide IsRun, Run, AllDefined, IsFrame, Matches, CString;
    var b, zeros := FreshSlot().buffer, [0, 0] + FreshSlot().buffer[|g|..];
    assert Overlaid(g, b)[12..] == secret + zeros;
    SameWord(Overlaid(g, b), g, r);
    SpelledLogin(FreshSlot(), g, secret, zeros, r);
  }

  /** The type is read from four bytes. */
  lemma SameWord(a: Bytes, b: Bytes, r: Reader)
    requires |a| >= 12 && |b| >= 12 && a[8..12] == b[8..12]
    ensures ReadI32(a[8..], r) == ReadI32(b[8..], r)
  {
    assert a[8..][..4] == a[8..12] && b[8..][..4] == b[8..12];
    SameHeader(a[8..], b[8..], r);
  }

  lemma LeftoverUnsettled(g: Bytes, f: Bytes, secret: Bytes, r: Reader)
    requires 0 !in secret && |secret| <= MAX_PASSWORD_LENGTH && Honest(g, secret, r)
    requires PassesForAuth(f, g, r) && !Settled(AuthItem(f, secret))
    ensures SecondAuthorised(g, f, secret, r)
  {
    hide IsRun, Run, AllDefined, IsFrame, Matches, CString, Overlaid;
    FrameLength(f, r);
    HonestFirst(g, secret, r);
    var left, rest := Dropped(Run(Start(FreshSlot()), Login(g, secret), r).client), FreshSlot().buffer[|g|..];
    OverlaidIs(g, FreshSlot().buffer);
    LeftBehind(f, g, rest, secret);
    OverlaidIs(f, g);
    SameWord(Overlaid(f, left.buffer), Overlaid(f, g), r);
    SpelledLogin(left, f, secret, [0, 0] + rest, r);
    NotGranted(f, secret, Run(Start(left), Login(f, secret), r), left, r);
  }

  lemma OverlaidIs(f: Bytes, was: Bytes)
    requires |f| <= |was|
    ensures Overlaid(f, was) == f + was[|f|..] && |Overlaid(f, was)| == |was|
  {}

  /** A packet that does not settle the comparison does not hold the password. */
  lemma NotGranted(f: Bytes, secret: Bytes, k: Conn, left: Client, r: Reader)
    requires left.Valid() && LogsIn(left, f, secret, r) && k == Run(Start(left), Login(f, secret), r)
    requires !Settled(AuthItem(f, secret))
    ensures !Granted(k.items)
  {
    hide IsRun, Run, AllDefined, Matches;
    assert !Grants(AuthItem(f, secret));
  }

  /** The code fails the law, for every password and whether `char` is signed or not: a client authenticates
      and leaves; the next one in its slot is authorised by a packet that passes for an AUTH packet, without
      having sent the password, if and only if the packet does not settle the comparison. */
  lemma LeftoverPassword(secret: Bytes, id: bv32, f: Bytes, signedChar: bool)
    requires 0 !in secret && |secret| <= MAX_PASSWORD_LENGTH && LengthSurvives(secret, signedChar)
    requires PassesForAuth(f, Encode(id, AUTH, secret), CharReader(signedChar))
    ensures SecondAuthorised(Encode(id, AUTH, secret), f, secret, CharReader(signedChar)) <==>
            !Settled(AuthItem(f, secret))
  {
    hide Encode, CharReader, PassesForAuth, Honest, Settled;
    var g, r := Encode(id, AUTH, secret), CharReader(signedChar);
    if !Settled(AuthItem(f, secret)) {
      EncodedAuth(id, secret, signedChar);
      LeftoverUnsettled(g, f, secret, r);
    } else if SecondAuthorised(g, f, secret, r) {
      SettledNotFooled(g, f, secret, r);
    }
  }

  lemma SettledNotFooled(g: Bytes, f: Bytes, secret: Bytes, r: Reader)
    requires Settled(AuthItem(f, secret))
    ensures !SecondAuthorised(g, f, secret, r)
  {
    hide IsRun, Run, AllDefined, Settled, Granted, Matches;
    if SecondAuthorised(g, f, secret, r) {
      var left := Dropped(Run(Start(FreshSlot()), Login(g, secret), r).client);
      CommandNeedsAuth(left, Login(f, secret), r);
    }
  }

  lemma EncodedAuth(id: bv32, secret: Bytes, signedChar: bool)
    requires |secret| <= MAX_PASSWORD_LENGTH && LengthSurvives(secret, signedChar)
    ensures Honest(Encode(id, AUTH, secret), secret, CharReader(signedChar))
  {
    hide WriteI32, Word, CharReader, IsFrame;
    var g := Encode(id, AUTH, secret);
    EncodedFrame(id, AUTH, secret, signedChar);
    EncodedParts(id, AUTH, secret);
    AuthSurvives(signedChar);
    ReadsBack(g, 8, AUTH, signedChar);
    assert g[12..] == secret + [0, 0];
  }

  lemma AuthSurvives(signedChar: bool)
    ensures Survives(AUTH, signedChar)
  {}

  /** There is such a packet: twelve bytes without a payload. */
  lemma BareAuthPasses(id: bv32, other: bv32, secret: Bytes, signedChar: bool)
    requires |secret| <= MAX_PASSWORD_LENGTH
    ensures PassesForAuth(BareAuth(id), Encode(other, AUTH, secret), CharReader(signedChar))
    ensures !Settled(AuthItem(BareAuth(id), secret))
  {
    hide WriteI32, Word, CharReader, SignSafe, Encode;
    var f, g := BareAuth(id), Encode(other, AUTH, secret);
    assert f[..4] == WriteI32(Word(8)) && f[8..12] == WriteI32(AUTH);
    AuthSurvives(signedChar);
    LengthSignSafe(8);
    EncodedLength(f, 8, signedChar);
    ReadsBack(f, 8, AUTH, signedChar);
    SameWord(Overlaid(f, g), f, CharReader(signedChar));
    assert f[12..] == [];
  }
}
