/** ply_process_with_callbacks: nested loops over the streaming functions, in step with them. */
module PlyDriver {
  import opened Words
  import opened PlyHeaderSpec
  import opened PlyRecords
  import opened PlyScalar
  import opened PlyDecoder
  import opened PlyWindow
  import opened PlyDelivery
  import opened PlyHeader
  import opened PlyPositions
  import opened PlyStream

  /** One call of the application: the calls so far, and what it answers. */
  method Call(h: Handler, calls: seq<Event>, event: Event) returns (now: seq<Event>, r: int)
    ensures now == calls + [event] && r == h(now)
  {
    now := calls + [event];
    r := h(now);
  }

  /** The last call of a part. */
  method CallLast(h: Handler, calls: seq<Event>, event: Event) returns (d: Delivery)
    ensures d == Called(calls, event, h)
  {
    var now, r := Call(h, calls, event);
    d := Delivery(now, if r < 0 then r else 0, false);
  }

  /** The stream has come to this position. */
  ghost predicate Behind(ply: Parser, es: seq<ElementSpec>, pos: Position)
    reads ply, ply.schema, ply.schema.repr
  {
    Reached(ply, es, pos) && InRange(es, pos)
  }

  lemma BehindBounds(ply: Parser, es: seq<ElementSpec>, pos: Position)
    requires Behind(ply, es, pos)
    ensures Bounds(ply)
  {}

  /** What the window is refilled with. */
  function FeedOf(ply: Parser): Feed
    reads ply, ply.source
  {
    Feed(ply.memoryBreak, ply.source.good)
  }

  /** The items of the list the stream is in. */
  method DriveItems(ply: Parser, h: Handler, before: seq<Event>, n: nat,
                    ghost es: seq<ElementSpec>, ghost pos: Position)
    returns (d: Delivery)
    requires Bounds(ply) && pos.At? && Behind(ply, es, pos)
    modifies ply`bufferOffset, ply`currentItem
    ensures Bounds(ply) && Behind(ply, es, pos)
    ensures var run := ItemsRun(ply.format, PropertyOn(es, pos).scalarType, n, old(Window(ply)));
            d == Delivered(before, run, h) &&
              (!d.Stops() ==> d.code == 0 && run.ending == Complete && Window(ply) == run.rest)
  {
    hide Reached, ReadScalar, Delivered, ItemsRun;
    ghost var t := PropertyOn(es, pos).scalarType;
    ghost var goal := ItemsRun(ply.format, t, n, Window(ply));
    var calls := before;
    for i := 0 to n
      invariant Bounds(ply) && Behind(ply, es, pos)
      invariant Continues(goal, before, ItemsRun(ply.format, t, n - i, Window(ply)), calls, h)
    {
      ItemsStep(ply.format, t, n - i, Window(ply), calls, h);
      var r, item, past := StreamListItem(ply, es, pos);
      if past || r < 0 {
        return Delivery(calls, if past then 0 else r, past);
      }
      calls, r := Call(h, calls, OnListItem(item));
      if r < 0 {
        return Delivery(calls, r, false);
      }
    }
    ItemsOver(ply.format, t, Window(ply), calls, h);
    d := Delivery(calls, 0, false);
  }

  /** A list whose length was read. */
  method DriveList(ply: Parser, h: Handler, before: seq<Event>, p: nat, n: nat,
                   ghost es: seq<ElementSpec>, ghost pos: Position)
    returns (d: Delivery)
    requires Bounds(ply) && pos.At? && Behind(ply, es, pos)
    modifies ply`bufferOffset, ply`currentItem
    ensures Bounds(ply) && Behind(ply, es, pos)
    ensures var run := ListRun(ply.format, PropertyOn(es, pos).scalarType, p, n, old(Window(ply)));
            d == Delivered(before, run, h) &&
              (!d.Stops() ==> d.code == 0 && run.ending == Complete && Window(ply) == run.rest)
  {
    hide Reached, Delivered, ItemsRun, ListRun;
    ListStep(ply.format, PropertyOn(es, pos).scalarType, p, n, Window(ply), before, h);
    var calls, r := Call(h, before, StartList(p, n));
    if r < 0 {
      return Delivery(calls, r, false);
    }
    d := DriveItems(ply, h, calls, n, es, pos);
    if !d.Stops() {
      d := CallLast(h, d.calls, EndList);
    }
  }

  /** A property, once its value or length was read. */
  method DriveRead(ply: Parser, h: Handler, before: seq<Event>, isList: bool, p: nat,
                   r: int, value: Scalar, past: bool,
                   ghost es: seq<ElementSpec>, ghost pos: Position, ghost raw: Bytes)
    returns (d: Delivery)
    requires Bounds(ply) && Behind(ply, es, pos) && pos.At? && pos.property == p
    requires isList == PropertyOn(es, pos).isList
    requires Came(ply, ReadValue(ply.format, PropertyOn(es, pos), raw), r, value, past) && !past && r >= 0
    modifies ply`bufferOffset, ply`currentItem
    ensures Bounds(ply) && Behind(ply, es, pos)
    ensures var run := ValueRun(ply.format, es[pos.element].properties, p, raw);
            d == Delivered(before, run, h) &&
            (!d.Stops() ==> d.code == 0 && run.ending == Complete && Window(ply) == run.rest)
  {
    hide Reached, Delivered, ReadValue, ValueRun, ListRun, Words.Value;
    ValueStep(ply.format, es[pos.element].properties, p, raw, before, h);
    if isList {
      d := DriveList(ply, h, before, p, Words.Value(value.word), es, pos);
    } else {
      d := CallLast(h, before, OnScalarValue(p, value));
    }
  }

  /** One property of a tuple. */
  method DriveProperty(ply: Parser, h: Handler, before: seq<Event>, isList: bool, p: nat,
                       ghost es: seq<ElementSpec>, ghost pos: Position)
    returns (d: Delivery)
    requires Bounds(ply) && Behind(ply, es, pos) && Moves(es, pos)
    requires Following(es, pos).property == p && isList == PropertyOn(es, Following(es, pos)).isList
    modifies ply`currentElement, ply`currentTuple, ply`currentProperty, ply`currentItem
    modifies ply`bufferOffset, ply`bufferFill, ply.memory, ply.source
    ensures ply.source.good == if p > 0 then old(ply.source.good) else Less(old(ply.source.good), 1)
    ensures if p == 0 && Failing(old(ply.source.good)) then d == Delivery(before, PLY_ERR_READ, false)
            else
              var next := Following(es, pos);
              var run := ValueRun(ply.format, es[next.element].properties, p, old(Seen(ply, p)));
              d == Delivered(before, run, h) &&
              (!d.Stops() ==>
                d.code == 0 && run.ending == Complete && Behind(ply, es, next) && Bounds(ply) &&
                Window(ply) == run.rest && ply.source.rest == old(Unseen(ply, p)))
    ensures UpperKept(ply)
  {
    hide Reached, Delivered, ReadValue, ValueRun, Following, Front, Back, Came;
    ReachedIs(ply, es, pos);
    ghost var next, raw := Following(es, pos), Seen(ply, p);
    ghost var starved := Starves(ply, next);
    var r, value, past := StreamValue(ply, es, pos);
    if past || r < 0 {
      if !starved { ReadStops(ply, es, next, raw, r, value, past, before, h); }
      return Delivery(before, if past then 0 else r, past);
    }
    BehindBounds(ply, es, next);
    d := DriveRead(ply, h, before, isList, p, r, value, past, es, next, raw);
  }

  lemma ReadStops(ply: Parser, es: seq<ElementSpec>, pos: Position, raw: Bytes, r: int, value: Scalar, past: bool,
                  before: seq<Event>, h: Handler)
    requires pos.At? && InRange(es, pos) && (past || r < 0)
    requires Came(ply, ReadValue(ply.format, PropertyOn(es, pos), raw), r, value, past)
    ensures Delivered(before, ValueRun(ply.format, es[pos.element].properties, pos.property, raw), h)
         == Delivery(before, if past then 0 else r, past)
  {
    hide ReadValue, ValueRun, ListRun, Words.Value, Delivered;
    ValueStep(ply.format, es[pos.element].properties, pos.property, raw, before, h);
  }

  lemma ReachedIs(ply: Parser, es: seq<ElementSpec>, pos: Position)
    requires Reached(ply, es, pos)
    ensures Streams(ply, es) && Stands(ply, pos)
  {}

  /** The stream is about to enter this tuple, if it has properties. */
  predicate Enterable(es: seq<ElementSpec>, pos: Position, e: nat, t: nat) {
    e < |es| && t < es[e].numTuples && (es[e].properties != [] ==> Following(es, pos) == At(e, t, 0))
  }

  /** Where the stream is after a tuple. */
  function AfterTuple(es: seq<ElementSpec>, pos: Position, e: nat, t: nat): Position
    requires e < |es|
  {
    if es[e].properties == [] then pos else At(e, t, |es[e].properties| - 1)
  }

  /** A part of the body was decoded through the window and delivered; if nothing stopped it, the stream has
      come to this position, with what is left of the input and of the reads that go well. */
  ghost predicate Did(ply: Parser, d: Delivery, before: seq<Event>, run: Run, h: Handler,
                      es: seq<ElementSpec>, pos: Position, w: Feed)
    reads ply, ply.schema, ply.schema.repr, ply.memory, ply.source
  {
    d == Delivered(before, run, h) &&
    (!d.Stops() ==>
      && d.code == 0 && run.ending == Complete
      && Behind(ply, es, pos) && Bounds(ply) && Rest(ply) == run.rest && FeedOf(ply) == w)
  }

  /** The properties of a tuple. */
  method DriveProperties(ply: Parser, h: Handler, before: seq<Event>, first: Property?,
                         ghost es: seq<ElementSpec>, ghost pos: Position, ghost e: nat, ghost t: nat)
    returns (d: Delivery)
    requires Bounds(ply) && Behind(ply, es, pos) && Enterable(es, pos, e, t)
    requires e < |ply.schema.members| && first == PropertyAt(ply.schema.members[e].members, 0)
    modifies ply`currentElement, ply`currentTuple, ply`currentProperty, ply`currentItem
    modifies ply`bufferOffset, ply`bufferFill, ply.memory, ply.source
    ensures Did(ply, d, before, PropertiesThrough(ply.format, es[e].properties, old(Rest(ply)), old(FeedOf(ply))), h,
                es, AfterTuple(es, pos, e, t), AfterTuples(old(FeedOf(ply)), es[e].properties, 1))
    ensures UpperKept(ply)
  {
    hide Reached, Delivered, ValueRun, PropertiesRun, Front, Back;
    ghost var ps, raw := es[e].properties, Rest(ply);
    ghost var goal := PropertiesRun(ply.format, ps, 0, Seen(ply, 0));
    PropertiesEnter(ply.format, ps, raw, before, h, FeedOf(ply));
    EndOfList(ply, es, pos, e);
    ghost var cur, back, good := pos, Unseen(ply, 0), ply.source.good;
    d := Delivery(before, 0, false);
    var property, p := first, 0;
    while property != null
      invariant UpperKept(ply) && p <= |ps| && Bounds(ply) && Behind(ply, es, cur)
      invariant property == PropertyAt(ply.schema.members[e].members, p) && |ply.schema.members[e].members| == |ps|
      invariant if p > 0 then cur == At(e, t, p - 1) && !Failing(good) else cur == pos && Rest(ply) == raw
      invariant d == Delivery(d.calls, 0, false) && (p == 0 ==> d.calls == before)
      invariant Unseen(ply, p) == back && ply.source.good == if p > 0 then Less(good, 1) else good
      invariant Continues(goal, before, PropertiesRun(ply.format, ps, p, Seen(ply, p)), d.calls, h)
      decreases |ps| - p
    {
      PropertyHere(ply, es, cur, e, p);
      FollowingIn(es, e, t, p, cur);
      PropertiesStep(ply.format, ps, p, Seen(ply, p), d.calls, h);
      d := DriveProperty(ply, h, d.calls, property.isList, p, es, cur);
      if d.Stops() {
        return;
      }
      cur := At(e, t, p);
      property := property.next;
      p := p + 1;
    }
    PropertiesOver(ply.format, ps, Seen(ply, p), d.calls, h);
  }

  lemma PropertyHere(ply: Parser, es: seq<ElementSpec>, pos: Position, e: nat, p: nat)
    requires Behind(ply, es, pos) && e < |es| && p < |es[e].properties|
    ensures e < |ply.schema.members| && p < |ply.schema.members[e].members|
    ensures ply.schema.members[e].members[p].isList == es[e].properties[p].isList
    ensures ply.schema.members[e].members[p].next == PropertyAt(ply.schema.members[e].members, p + 1)
  {
    DescribedProperty(ply.schema, es, e, p);
  }

  lemma EndOfList(ply: Parser, es: seq<ElementSpec>, pos: Position, e: nat)
    requires Behind(ply, es, pos) && e < |es|
    ensures e < |ply.schema.members| && |ply.schema.members[e].members| == |es[e].properties|
  {
    DescribedElement(ply.schema, es, e);
  }

  lemma FollowingIn(es: seq<ElementSpec>, e: nat, t: nat, p: nat, cur: Position)
    requires InRange(es, cur) && InRange(es, At(e, t, p))
    requires if p > 0 then cur == At(e, t, p - 1) else Following(es, cur) == At(e, t, 0)
    ensures Following(es, cur) == At(e, t, p) && Moves(es, cur)
  {}

  /** One tuple of an element. */
  method DriveTuple(ply: Parser, h: Handler, before: seq<Event>, element: Element, t: nat,
                    ghost es: seq<ElementSpec>, ghost pos: Position, ghost e: nat)
    returns (d: Delivery)
    requires Bounds(ply) && Behind(ply, es, pos) && Enterable(es, pos, e, t)
    requires e < |ply.schema.members| && element == ply.schema.members[e]
    modifies ply`currentElement, ply`currentTuple, ply`currentProperty, ply`currentItem
    modifies ply`bufferOffset, ply`bufferFill, ply.memory, ply.source
    ensures Did(ply, d, before, TupleThrough(ply.format, es[e].properties, t, old(Rest(ply)), old(FeedOf(ply))), h,
                es, AfterTuple(es, pos, e, t), AfterTuples(old(FeedOf(ply)), es[e].properties, 1))
    ensures UpperKept(ply)
  {
    hide Reached, Delivered, PropertiesThrough, TupleThrough;
    TupleStep(ply.format, es[e].properties, t, Rest(ply), before, h, FeedOf(ply));
    FirstProperty(ply, es, pos, e);
    var calls, r := Call(h, before, StartTuple(t));
    if r < 0 {
      return Delivery(calls, r, false);
    }
    d := DriveProperties(ply, h, calls, element.properties, es, pos, e, t);
    if !d.Stops() {
      d := CallLast(h, d.calls, EndTuple);
    }
  }

  lemma FirstProperty(ply: Parser, es: seq<ElementSpec>, pos: Position, e: nat)
    requires Behind(ply, es, pos) && e < |es|
    ensures e < |ply.schema.members| && ply.schema.members[e].numTuples == es[e].numTuples
    ensures ply.schema.members[e].properties == PropertyAt(ply.schema.members[e].members, 0)
  {
    DescribedElement(ply.schema, es, e);
  }

  /** Where the stream is after an element. */
  function EndAfter(es: seq<ElementSpec>, pos: Position, e: nat): Position
    requires e < |es|
  {
    if HasValues(es[e]) then EndOf(es, e) else pos
  }

  /** The tuples of an element. */
  method DriveTuples(ply: Parser, h: Handler, before: seq<Event>, element: Element,
                     ghost es: seq<ElementSpec>, ghost pos: Position, ghost e: nat)
    returns (d: Delivery)
    requires Bounds(ply) && Behind(ply, es, pos) && e < |es| && (HasValues(es[e]) ==> Following(es, pos) == At(e, 0, 0))
    requires e < |ply.schema.members| && element == ply.schema.members[e]
    modifies ply`currentElement, ply`currentTuple, ply`currentProperty, ply`currentItem
    modifies ply`bufferOffset, ply`bufferFill, ply.memory, ply.source
    ensures Did(ply, d, before, TuplesThrough(ply.format, es[e], 0, old(Rest(ply)), old(FeedOf(ply))), h,
                es, EndAfter(es, pos, e), AfterElement(old(FeedOf(ply)), es[e]))
    ensures UpperKept(ply)
  {
    hide Reached, Delivered, TupleThrough, TuplesThrough;
    hide Following, HasValues, AfterTuple, AfterTuples, EndAfter, Enterable;
    ghost var w := FeedOf(ply);
    ghost var goal := TuplesThrough(ply.format, es[e], 0, Rest(ply), w);
    ghost var cur := pos;
    FirstProperty(ply, es, pos, e);
    NoTuples(w, es[e].properties);
    d := Delivery(before, 0, false);
    for t := 0 to element.numTuples
      invariant UpperKept(ply) && Bounds(ply) && Behind(ply, es, cur)
      invariant cur == if t > 0 then AfterTuple(es, pos, e, t - 1) else pos
      invariant d == Delivery(d.calls, 0, false) && FeedOf(ply) == AfterTuples(w, es[e].properties, t)
      invariant Continues(goal, before, TuplesThrough(ply.format, es[e], t, Rest(ply), FeedOf(ply)), d.calls, h)
    {
      FollowingTuple(es, e, t, pos, cur);
      TuplesStep(ply.format, es[e], t, Rest(ply), d.calls, h, FeedOf(ply));
      OneMoreTuple(w, es[e].properties, t);
      d := DriveTuple(ply, h, d.calls, element, t, es, cur, e);
      if d.Stops() {
        return;
      }
      cur := AfterTuple(es, pos, e, t);
    }
    TuplesOver(ply.format, es[e], Rest(ply), d.calls, h, FeedOf(ply));
    ElementAfter(es, e, pos);
    ElementFeed(w, es[e]);
  }

  lemma NoTuples(w: Feed, ps: seq<PropertySpec>)
    ensures AfterTuples(w, ps, 0) == w
  {}

  lemma OneMoreTuple(w: Feed, ps: seq<PropertySpec>, t: nat)
    ensures AfterTuples(AfterTuples(w, ps, t), ps, 1) == AfterTuples(w, ps, t + 1)
  {}

  lemma ElementFeed(w: Feed, e: ElementSpec)
    ensures AfterElement(w, e) == AfterTuples(w, e.properties, e.numTuples)
  {}

  lemma ElementAfter(es: seq<ElementSpec>, e: nat, pos: Position)
    requires e < |es|
    ensures EndAfter(es, pos, e) == if es[e].numTuples > 0 then AfterTuple(es, pos, e, es[e].numTuples - 1) else pos
  {}

  lemma FollowingTuple(es: seq<ElementSpec>, e: nat, t: nat, pos: Position, cur: Position)
    requires e < |es| && t < es[e].numTuples && (HasValues(es[e]) ==> Following(es, pos) == At(e, 0, 0))
    requires cur == if t > 0 then AfterTuple(es, pos, e, t - 1) else pos
    ensures Enterable(es, cur, e, t)
    ensures AfterTuple(es, cur, e, t) == AfterTuple(es, pos, e, t)
  {}

  /** One element of the body. */
  method DriveElement(ply: Parser, h: Handler, before: seq<Event>, element: Element, e: nat,
                      ghost es: seq<ElementSpec>, ghost pos: Position)
    returns (d: Delivery)
    requires Bounds(ply) && Behind(ply, es, pos) && e < |es| && (HasValues(es[e]) ==> Following(es, pos) == At(e, 0, 0))
    requires e < |ply.schema.members| && element == ply.schema.members[e]
    modifies ply`currentElement, ply`currentTuple, ply`currentProperty, ply`currentItem
    modifies ply`bufferOffset, ply`bufferFill, ply.memory, ply.source
    ensures Did(ply, d, before, ElementThrough(ply.format, es, e, old(Rest(ply)), old(FeedOf(ply))), h,
                es, EndAfter(es, pos, e), AfterElement(old(FeedOf(ply)), es[e]))
    ensures UpperKept(ply)
  {
    hide Reached, Delivered, TuplesThrough, ElementThrough;
    ElementStep(ply.format, es, e, Rest(ply), before, h, FeedOf(ply));
    var calls, r := Call(h, before, StartElement(e));
    if r < 0 {
      return Delivery(calls, r, false);
    }
    d := DriveTuples(ply, h, calls, element, es, pos, e);
    if !d.Stops() {
      d := CallLast(h, d.calls, EndElement);
    }
  }

  lemma ElementHere(ply: Parser, es: seq<ElementSpec>, pos: Position, e: nat)
    requires Behind(ply, es, pos) && e < |es|
    ensures |ply.schema.members| == |es| && ply.schema.members[e].next == ElementAt(ply.schema.members, e + 1)
  {
    Described(ply.schema, es);
    DescribedElement(ply.schema, es, e);
  }

  lemma FirstElement(ply: Parser, es: seq<ElementSpec>, pos: Position)
    requires Behind(ply, es, pos)
    ensures |ply.schema.members| == |es| && ply.schema.elements == ElementAt(ply.schema.members, 0)
  {
    Described(ply.schema, es);
  }

  /** All elements of the body, one after the other. */
  method DriveElements(ply: Parser, h: Handler, ghost es: seq<ElementSpec>) returns (d: Delivery)
    requires Bounds(ply) && Behind(ply, es, Before) && EmptiesLast(es, 0)
    modifies ply`currentElement, ply`currentTuple, ply`currentProperty, ply`currentItem
    modifies ply`bufferOffset, ply`bufferFill, ply.memory, ply.source
    ensures var run := ElementsThrough(ply.format, es, 0, old(Rest(ply)), old(FeedOf(ply)));
            d == Delivered([], run, h) &&
            (!d.Stops() ==> d.code == 0 && run.ending == Complete && Bounds(ply) && Rest(ply) == run.rest)
    ensures UpperKept(ply)
  {
    hide Reached, Delivered, ElementThrough, ElementsThrough;
    hide Following, EmptiesLast, EndBefore, EndAfter, AfterElement;
    ghost var goal := ElementsThrough(ply.format, es, 0, Rest(ply), FeedOf(ply));
    FirstElement(ply, es, Before);
    StreamStart(es);
    ghost var cur := Before;
    d := Delivery([], 0, false);
    var element, e := ply.schema.elements, 0;
    while element != null
      invariant UpperKept(ply)
      invariant e <= |es| == |ply.schema.members| && Bounds(ply) && Behind(ply, es, cur)
      invariant element == ElementAt(ply.schema.members, e) && d == Delivery(d.calls, 0, false)
      invariant cur == EndBefore(es, e)
      invariant Continues(goal, [], ElementsThrough(ply.format, es, e, Rest(ply), FeedOf(ply)), d.calls, h)
      decreases |es| - e
    {
      ElementHere(ply, es, cur, e);
      if HasValues(es[e]) { Enters(es, e); }
      ElementsStep(ply.format, es, e, Rest(ply), d.calls, h, FeedOf(ply));
      d := DriveElement(ply, h, d.calls, element, e, es, cur);
      if d.Stops() {
        return;
      }
      cur := EndAfter(es, cur, e);
      StreamAfter(es, e);
      element := element.next;
      e := e + 1;
    }
    ElementsOver(ply.format, es, Rest(ply), d.calls, h, FeedOf(ply));
  }

  /** ply_process_with_callbacks, for every body and whatever reads fail, given that no element with values
      comes after one without tuples or properties: all calls made, the result, and whether bytes past the
      window were read, are those for the body decoded through the window. */
  method ProcessWithCallbacks(ply: Parser, h: Handler, ghost known: Header) returns (d: Delivery)
    requires ply.Valid() && ply.Known() == known && ply.bufferFill <= ply.memoryBreak
    requires EmptiesLast(known.elements, 0) && known.format != Ascii
    modifies ply`currentElement, ply`currentTuple, ply`currentProperty, ply`currentItem
    modifies ply`bufferOffset, ply`bufferFill, ply.memory, ply.source
    ensures var run := Through(known, old(ply.Left()), old(ply.source.good));
            d == Delivered([], run, h) &&
            (!d.Stops() ==> d.code == 0 && run.ending == Complete && Bounds(ply) && Rest(ply) == run.rest)
    ensures UpperKept(ply)
  {
    hide Streams, Stands, ElementsThrough, EmptiesLast;
    StartStreaming(ply, known.elements);
    StreamBounds(ply, known.elements);
    d := DriveElements(ply, h, known.elements);
  }

  lemma StreamAfter(es: seq<ElementSpec>, e: nat)
    requires e < |es|
    ensures EndAfter(es, EndBefore(es, e), e) == EndBefore(es, e + 1)
  {}

  lemma StreamStart(es: seq<ElementSpec>)
    ensures EndBefore(es, 0) == Before
  {}

  lemma StreamBounds(ply: Parser, es: seq<ElementSpec>)
    requires Streams(ply, es)
    ensures Bounds(ply)
  {}
}
