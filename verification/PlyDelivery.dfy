/** The calls an application gets for a body that is decoded, up to the first that answers with an error. */
module PlyDelivery {
  import opened Words
  import opened PlyHeaderSpec
  import opened PlyScalar
  import opened PlyDecoder
  import opened PlyWindow

  /** What the application's callbacks return, given everything they were called with so far. */
  type Handler = seq<Event> -> int

  /** Calls the callbacks for these events, up to the first that returns a negative value: all calls made
      by then, and that value or zero. */
  function Deliver(before: seq<Event>, events: seq<Event>, h: Handler): (r: (seq<Event>, int))
    ensures before <= r.0 && r.1 <= 0
    ensures r.1 == 0 ==> r.0 == before + events
    decreases |events|
  {
    if events == [] then (before, 0)
    else
      var now := before + [events[0]];
      assert before + events == now + events[1..];
      if h(now) < 0 then (now, h(now)) else Deliver(now, events[1..], h)
  }

  /** All calls made, the result, and whether bytes of the body were missing where it went on. */
  datatype Delivery = Delivery(calls: seq<Event>, code: int, cut: bool)
  {
    predicate Stops() {
      code < 0 || cut
    }
  }

  /** The delivery of a run: a callback's error stops it, or the end of the run does. */
  function Delivered(before: seq<Event>, run: Run, h: Handler): (d: Delivery)
    ensures before <= d.calls
  {
    var (calls, code) := Deliver(before, run.events, h);
    if code < 0 then Delivery(calls, code, false)
    else Delivery(calls, if run.ending.Broken? then run.ending.code else 0, run.ending == Truncated)
  }

  /** Just one call, after a delivery that went well. */
  function Called(before: seq<Event>, event: Event, h: Handler): Delivery {
    var now := before + [event];
    Delivery(now, if h(now) < 0 then h(now) else 0, false)
  }

  lemma {:induction false} DeliverMore(before: seq<Event>, xs: seq<Event>, ys: seq<Event>, h: Handler)
    ensures var d := Deliver(before, xs, h);
            Deliver(before, xs + ys, h) == if d.1 < 0 then d else Deliver(d.0, ys, h)
    decreases |xs|
  {
    if xs == [] {
      assert xs + ys == ys;
    } else {
      var now := before + [xs[0]];
      assert (xs + ys)[0] == xs[0] && (xs + ys)[1..] == xs[1..] + ys;
      if h(now) >= 0 { DeliverMore(now, xs[1..], ys, h); }
    }
  }

  /** An error of the data has a negative code. */
  predicate Coded(run: Run) {
    run.ending.Broken? ==> run.ending.code < 0
  }

  /** Delivering one part and then another. */
  lemma DeliveredThen(before: seq<Event>, a: Run, b: Run, h: Handler)
    requires Coded(a)
    ensures var d := Delivered(before, a, h);
            Delivered(before, Then(a, b), h) == if d.Stops() then d else Delivered(d.calls, b, h)
    ensures !Delivered(before, a, h).Stops() ==> a.ending == Complete
  {
    DeliverMore(before, a.events, b.events, h);
  }

  lemma DeliveredOne(before: seq<Event>, event: Event, raw: Bytes, h: Handler)
    ensures Delivered(before, Say(event, raw), h) == Called(before, event, h)
  {
    assert [event][1..] == [];
    assert Deliver(before + [event], [], h) == (before + [event], 0);
  }

  lemma DeliveredNone(before: seq<Event>, rest: Bytes, ending: Ending, h: Handler)
    ensures Delivered(before, Run([], rest, ending), h)
         == Delivery(before, if ending.Broken? then ending.code else 0, ending == Truncated)
  {
    assert Deliver(before, [], h) == (before, 0);
  }

  /** How a run between two calls is delivered. */
  ghost predicate Frames(run: Run, before: seq<Event>, first: Event, a: Run, last: Event, h: Handler) {
    var d0 := Called(before, first, h);
    var d := Delivered(d0.calls, a, h);
    && run.rest == a.rest && run.ending == a.ending
    && (!d0.Stops() ==> d.calls <= Delivered(before, run, h).calls)
    && Delivered(before, run, h) == if d0.Stops() then d0 else if d.Stops() then d else Called(d.calls, last, h)
  }

  lemma FramedStep(before: seq<Event>, first: Event, raw: Bytes, a: Run, last: Event, h: Handler)
    requires Coded(a)
    ensures Frames(Then(Say(first, raw), Then(a, Say(last, a.rest))), before, first, a, last, h)
  {
    hide Delivered;
    var d0 := Called(before, first, h);
    DeliveredOne(before, first, raw, h);
    DeliveredThen(before, Say(first, raw), Then(a, Say(last, a.rest)), h);
    DeliveredThen(d0.calls, a, Say(last, a.rest), h);
    DeliveredOne(Delivered(d0.calls, a, h).calls, last, a.rest, h);
  }

  /** How one part and then another are delivered. */
  ghost predicate Joins(run: Run, before: seq<Event>, a: Run, b: Run, h: Handler) {
    var d := Delivered(before, a, h);
    && |run.rest| <= |a.rest| && d.calls <= Delivered(before, run, h).calls
    && (d.Stops() ==> Delivered(before, run, h) == d)
    && (!d.Stops() ==> a.ending == Complete && Continues(run, before, b, d.calls, h))
  }

  /** A run goes on like another one, after these calls. */
  ghost predicate Continues(run: Run, before: seq<Event>, left: Run, calls: seq<Event>, h: Handler) {
    left.rest == run.rest && left.ending == run.ending && Delivered(calls, left, h) == Delivered(before, run, h)
  }

  lemma JoinedStep(before: seq<Event>, a: Run, b: Run, h: Handler)
    requires Coded(a) && |b.rest| <= |a.rest|
    ensures Joins(Then(a, b), before, a, b, h)
  {
    hide Delivered;
    DeliveredThen(before, a, b, h);
  }

  // ---- the parts of a body ----

  /** How the decoding of n items goes on with the first. */
  lemma ItemsStep(format: Format, t: PlyType, n: nat, raw: Bytes, before: seq<Event>, h: Handler)
    requires n > 0
    ensures var run := ItemsRun(format, t, n, raw);
            match ReadScalar(format, t, raw)
            case Got(v, rest) =>
              var d := Called(before, OnListItem(v), h);
              if d.Stops() then Delivered(before, run, h) == d
              else Continues(run, before, ItemsRun(format, t, n - 1, rest), d.calls, h)
            case Fails(code, rest) => Delivered(before, run, h) == Delivery(before, code, false)
            case Short => Delivered(before, run, h) == Delivery(before, 0, true)
  {
    hide ReadScalar, Delivered;
    match ReadScalar(format, t, raw)
    case Got(v, rest) =>
      DeliveredOne(before, OnListItem(v), rest, h);
      DeliveredThen(before, Say(OnListItem(v), rest), ItemsRun(format, t, n - 1, rest), h);
    case Fails(code, rest) => DeliveredNone(before, rest, Broken(code), h);
    case Short => DeliveredNone(before, raw, Truncated, h);
  }

  lemma ItemsOver(format: Format, t: PlyType, raw: Bytes, before: seq<Event>, h: Handler)
    ensures ItemsRun(format, t, 0, raw) == Run([], raw, Complete)
    ensures Delivered(before, ItemsRun(format, t, 0, raw), h) == Delivery(before, 0, false)
  {
    DeliveredNone(before, raw, Complete, h);
  }

  lemma {:induction false} ItemsCoded(format: Format, t: PlyType, n: nat, raw: Bytes)
    ensures Coded(ItemsRun(format, t, n, raw))
    decreases n
  {
    hide ReadScalar;
    if n > 0 {
      match ReadScalar(format, t, raw)
      case Got(_, rest) => ItemsCoded(format, t, n - 1, rest);
      case Fails(_, _) =>
      case Short =>
    }
  }

  lemma ListStep(format: Format, t: PlyType, p: nat, n: nat, raw: Bytes, before: seq<Event>, h: Handler)
    ensures Frames(ListRun(format, t, p, n, raw), before, StartList(p, n), ItemsRun(format, t, n, raw), EndList, h)
  {
    hide Frames, ItemsRun;
    ItemsCoded(format, t, n, raw);
    FramedStep(before, StartList(p, n), raw, ItemsRun(format, t, n, raw), EndList, h);
  }

  /** How a property is delivered, once its value or length is read. */
  lemma ValueStep(format: Format, ps: seq<PropertySpec>, p: nat, raw: Bytes, before: seq<Event>, h: Handler)
    requires p < |ps|
    ensures var run, read := ValueRun(format, ps, p, raw), ReadValue(format, ps[p], raw);
            && (read.Short? ==> Delivered(before, run, h) == Delivery(before, 0, true))
            && (read.Fails? ==> Delivered(before, run, h) == Delivery(before, read.code, false))
            && (read.Got? && ps[p].isList ==>
                 run == ListRun(format, ps[p].scalarType, p, Words.Value(read.value.word), read.rest))
            && (read.Got? && !ps[p].isList ==>
                 run.rest == read.rest && run.ending == Complete &&
                 Delivered(before, run, h) == Called(before, OnScalarValue(p, read.value), h))
  {
    hide ReadValue, ListRun, Words.Value, Delivered;
    match ReadValue(format, ps[p], raw)
    case Got(v, rest) => if !ps[p].isList { DeliveredOne(before, OnScalarValue(p, v), rest, h); }
    case Fails(code, rest) => DeliveredNone(before, rest, Broken(code), h);
    case Short => DeliveredNone(before, raw, Truncated, h);
  }

  lemma ValueCoded(format: Format, ps: seq<PropertySpec>, p: nat, raw: Bytes)
    requires p < |ps|
    ensures Coded(ValueRun(format, ps, p, raw))
  {
    hide ReadValue, Words.Value, ItemsRun;
    var read := ReadValue(format, ps[p], raw);
    if read.Got? && ps[p].isList { ItemsCoded(format, ps[p].scalarType, Words.Value(read.value.word), read.rest); }
  }

  /** How the properties of a tuple go on with the p-th. */
  lemma PropertiesStep(format: Format, ps: seq<PropertySpec>, p: nat, raw: Bytes, before: seq<Event>, h: Handler)
    requires p < |ps|
    ensures var v := ValueRun(format, ps, p, raw);
            Joins(PropertiesRun(format, ps, p, raw), before, v, PropertiesRun(format, ps, p + 1, v.rest), h)
  {
    hide ValueRun, Joins;
    ValueCoded(format, ps, p, raw);
    var v := ValueRun(format, ps, p, raw);
    JoinedStep(before, v, PropertiesRun(format, ps, p + 1, v.rest), h);
  }

  lemma PropertiesOver(format: Format, ps: seq<PropertySpec>, raw: Bytes, before: seq<Event>, h: Handler)
    ensures PropertiesRun(format, ps, |ps|, raw) == Run([], raw, Complete)
    ensures Delivered(before, Run([], raw, Complete), h) == Delivery(before, 0, false)
  {
    DeliveredNone(before, raw, Complete, h);
  }

  lemma {:induction false} PropertiesCoded(format: Format, ps: seq<PropertySpec>, p: nat, raw: Bytes)
    requires p <= |ps|
    ensures Coded(PropertiesRun(format, ps, p, raw))
    decreases |ps| - p
  {
    hide ValueRun;
    if p < |ps| {
      ValueCoded(format, ps, p, raw);
      PropertiesCoded(format, ps, p + 1, ValueRun(format, ps, p, raw).rest);
    }
  }

  /** How the properties of a tuple come out through the window. */
  lemma PropertiesEnter(format: Format, ps: seq<PropertySpec>, raw: Bytes, before: seq<Event>, h: Handler, w: Feed)
    ensures var run := PropertiesThrough(format, ps, raw, w);
            if ps == [] then run == Run([], raw, Complete) && Delivered(before, run, h) == Delivery(before, 0, false)
            else if Failing(w.good) then Delivered(before, run, h) == Delivery(before, PLY_ERR_READ, false)
            else
              var inner := PropertiesRun(format, ps, 0, Front(raw, w.limit));
              run == Followed(inner, Back(raw, w.limit)) && Delivered(before, run, h) == Delivered(before, inner, h)
  {
    hide PropertiesRun;
    DeliveredNone(before, raw, Complete, h);
    DeliveredNone(before, raw, Broken(PLY_ERR_READ), h);
  }

  lemma ThroughCoded(format: Format, ps: seq<PropertySpec>, raw: Bytes, w: Feed)
    ensures Coded(PropertiesThrough(format, ps, raw, w))
  {
    hide PropertiesRun;
    PropertiesCoded(format, ps, 0, Front(raw, w.limit));
  }

  lemma TupleStep(format: Format, ps: seq<PropertySpec>, t: nat, raw: Bytes, before: seq<Event>, h: Handler, w: Feed)
    ensures Frames(TupleThrough(format, ps, t, raw, w), before,
                   StartTuple(t), PropertiesThrough(format, ps, raw, w), EndTuple, h)
  {
    hide Frames, PropertiesThrough;
    ThroughCoded(format, ps, raw, w);
    FramedStep(before, StartTuple(t), raw, PropertiesThrough(format, ps, raw, w), EndTuple, h);
  }

  lemma TupleCoded(format: Format, ps: seq<PropertySpec>, t: nat, raw: Bytes, w: Feed)
    ensures Coded(TupleThrough(format, ps, t, raw, w))
  {
    hide PropertiesThrough;
    ThroughCoded(format, ps, raw, w);
  }

  /** How the tuples of an element go on with the t-th. */
  lemma TuplesStep(format: Format, e: ElementSpec, t: nat, raw: Bytes, before: seq<Event>, h: Handler, w: Feed)
    requires t < e.numTuples
    ensures var tuple := TupleThrough(format, e.properties, t, raw, w);
            Joins(TuplesThrough(format, e, t, raw, w), before, tuple,
                  TuplesThrough(format, e, t + 1, tuple.rest, AfterTuples(w, e.properties, 1)), h)
  {
    hide TupleThrough, Joins;
    TupleCoded(format, e.properties, t, raw, w);
    var tuple := TupleThrough(format, e.properties, t, raw, w);
    JoinedStep(before, tuple, TuplesThrough(format, e, t + 1, tuple.rest, AfterTuples(w, e.properties, 1)), h);
  }

  lemma TuplesOver(format: Format, e: ElementSpec, raw: Bytes, before: seq<Event>, h: Handler, w: Feed)
    ensures TuplesThrough(format, e, e.numTuples, raw, w) == Run([], raw, Complete)
    ensures Delivered(before, Run([], raw, Complete), h) == Delivery(before, 0, false)
  {
    DeliveredNone(before, raw, Complete, h);
  }

  lemma {:induction false} TuplesCoded(format: Format, e: ElementSpec, t: nat, raw: Bytes, w: Feed)
    requires t <= e.numTuples
    ensures Coded(TuplesThrough(format, e, t, raw, w))
    decreases e.numTuples - t
  {
    hide TupleThrough;
    if t < e.numTuples {
      TupleCoded(format, e.properties, t, raw, w);
      var tuple := TupleThrough(format, e.properties, t, raw, w);
      TuplesCoded(format, e, t + 1, tuple.rest, AfterTuples(w, e.properties, 1));
    }
  }

  lemma ElementStep(format: Format, es: seq<ElementSpec>, e: nat, raw: Bytes, before: seq<Event>, h: Handler, w: Feed)
    requires e < |es|
    ensures Frames(ElementThrough(format, es, e, raw, w), before,
                   StartElement(e), TuplesThrough(format, es[e], 0, raw, w), EndElement, h)
  {
    hide Frames, TuplesThrough;
    TuplesCoded(format, es[e], 0, raw, w);
    FramedStep(before, StartElement(e), raw, TuplesThrough(format, es[e], 0, raw, w), EndElement, h);
  }

  lemma ElementCoded(format: Format, es: seq<ElementSpec>, e: nat, raw: Bytes, w: Feed)
    requires e < |es|
    ensures Coded(ElementThrough(format, es, e, raw, w))
  {
    hide TuplesThrough;
    TuplesCoded(format, es[e], 0, raw, w);
  }

  /** How the elements go on with the e-th. */
  lemma ElementsStep(format: Format, es: seq<ElementSpec>, e: nat, raw: Bytes,
                     before: seq<Event>, h: Handler, w: Feed)
    requires e < |es|
    ensures var element := ElementThrough(format, es, e, raw, w);
            Joins(ElementsThrough(format, es, e, raw, w), before, element,
                  ElementsThrough(format, es, e + 1, element.rest, AfterElement(w, es[e])), h)
  {
    hide ElementThrough, Joins;
    ElementCoded(format, es, e, raw, w);
    var element := ElementThrough(format, es, e, raw, w);
    JoinedStep(before, element, ElementsThrough(format, es, e + 1, element.rest, AfterElement(w, es[e])), h);
  }

  lemma ElementsOver(format: Format, es: seq<ElementSpec>, raw: Bytes, before: seq<Event>, h: Handler, w: Feed)
    ensures ElementsThrough(format, es, |es|, raw, w) == Run([], raw, Complete)
    ensures Delivered(before, Run([], raw, Complete), h) == Delivery(before, 0, false)
  {
    DeliveredNone(before, raw, Complete, h);
  }

  /** The beginning of a run is delivered by the first of its calls. */
  lemma DeliveredBegins(before: seq<Event>, a: Run, b: Run, h: Handler)
    requires Begins(a, b)
    ensures Delivered(before, a, h).calls <= Delivered(before, b, h).calls
  {
    var behind := b.events[|a.events|..];
    assert b.events == a.events + behind;
    DeliverMore(before, a.events, behind, h);
  }

  /** Whatever reads fail, and however long the tuples are: the calls made are the first of those for the body
      decoded without a window. */
  lemma CallsBegin(known: Header, body: Bytes, good: Reads, h: Handler)
    ensures Delivered([], Through(known, body, good), h).calls <= Delivered([], Decode(known, body), h).calls
  {
    hide Through, Decode, Delivered, Begins;
    ThroughBegins(known, body, good);
    DeliveredBegins([], Through(known, body, good), Decode(known, body), h);
  }
}
