/** In which order the callbacks are called, for any body, window and handler. */
module PlyCalls {
  import opened Wrappers
  import opened Words
  import opened PlyHeaderSpec
  import opened PlyScalar
  import opened PlyDecoder
  import opened PlyWindow
  import opened PlyDelivery

  /** A place between two calls: before element e, or behind the last; inside an element before tuple t, or
      behind its last; inside a tuple before property p, or behind its last; inside a list with items left. */
  datatype Place =
    | BeforeElement(e: nat)
    | BeforeTuple(e: nat, t: nat)
    | BeforeProperty(e: nat, t: nat, p: nat)
    | InList(e: nat, t: nat, p: nat, left: nat)

  /** Where a call leads, if it may come here. */
  function Step(es: seq<ElementSpec>, at: Place, call: Event): Option<Place> {
    match at
    case BeforeElement(e) => if call == StartElement(e) && e < |es| then Some(BeforeTuple(e, 0)) else None
    case BeforeTuple(e, t) =>
      if e >= |es| then None
      else if t < es[e].numTuples && call == StartTuple(t) then Some(BeforeProperty(e, t, 0))
      else if t == es[e].numTuples && call == EndElement then Some(BeforeElement(e + 1))
      else None
    case BeforeProperty(e, t, p) =>
      if e >= |es| then None
      else if p == |es[e].properties| && call == EndTuple then Some(BeforeTuple(e, t + 1))
      else if p >= |es[e].properties| then None
      else if !es[e].properties[p].isList && call.OnScalarValue? && call.property == p
      then Some(BeforeProperty(e, t, p + 1))
      else if es[e].properties[p].isList && call.StartList? && call.list == p then Some(InList(e, t, p, call.length))
      else None
    case InList(e, t, p, left) =>
      if left > 0 && call.OnListItem? then Some(InList(e, t, p, left - 1))
      else if left == 0 && call == EndList then Some(BeforeProperty(e, t, p + 1))
      else None
  }

  function Walk(es: seq<ElementSpec>, at: Place, calls: seq<Event>): Option<Place>
    decreases |calls|
  {
    if calls == [] then Some(at)
    else
      match Step(es, at, calls[0])
      case None => None
      case Some(next) => Walk(es, next, calls[1..])
  }

  /** Here something has to be read before the next call. */
  predicate Waits(es: seq<ElementSpec>, at: Place) {
    match at
    case BeforeProperty(e, _, p) => e < |es| && p < |es[e].properties|
    case InList(_, _, _, left) => left > 0
    case _ => false
  }

  /** A run that is complete leads from one place to another; one that is not stops where something has to be
      read. */
  ghost predicate Leads(es: seq<ElementSpec>, from: Place, run: Run, to: Place) {
    var end := Walk(es, from, run.events);
    if run.ending == Complete then end == Some(to) else end.Some? && Waits(es, end.value)
  }

  lemma {:induction false} WalkOn(es: seq<ElementSpec>, at: Place, xs: seq<Event>, ys: seq<Event>)
    ensures var mid := Walk(es, at, xs);
            Walk(es, at, xs + ys) == if mid.None? then None else Walk(es, mid.value, ys)
    decreases |xs|
  {
    hide Step;
    if xs == [] {
      assert xs + ys == ys;
    } else {
      assert (xs + ys)[0] == xs[0] && (xs + ys)[1..] == xs[1..] + ys;
      if Step(es, at, xs[0]).Some? { WalkOn(es, Step(es, at, xs[0]).value, xs[1..], ys); }
    }
  }

  lemma LeadsOn(es: seq<ElementSpec>, from: Place, a: Run, mid: Place, b: Run, to: Place)
    requires Leads(es, from, a, mid) && (a.ending == Complete ==> Leads(es, mid, b, to))
    ensures Leads(es, from, Then(a, b), to)
  {
    WalkOn(es, from, a.events, b.events);
  }

  lemma OneLeads(es: seq<ElementSpec>, from: Place, call: Event, raw: Bytes, to: Place)
    requires Step(es, from, call) == Some(to)
    ensures Leads(es, from, Say(call, raw), to)
  {
    hide Step;
    assert [call][1..] == [];
    assert Walk(es, to, []) == Some(to);
  }

  /** A part between two calls. */
  lemma FramedLeads(es: seq<ElementSpec>, from: Place, first: Event, raw: Bytes, inner: Place,
                    a: Run, behind: Place, last: Event, to: Place)
    requires Step(es, from, first) == Some(inner) && Leads(es, inner, a, behind) && Step(es, behind, last) == Some(to)
    ensures Leads(es, from, Then(Say(first, raw), Then(a, Say(last, a.rest))), to)
  {
    hide Step, Leads;
    OneLeads(es, from, first, raw, inner);
    OneLeads(es, behind, last, a.rest, to);
    LeadsOn(es, inner, a, behind, Say(last, a.rest), to);
    LeadsOn(es, from, Say(first, raw), inner, Then(a, Say(last, a.rest)), to);
  }

  // ---- the parts of a body ----

  lemma {:induction false} ItemsLead(es: seq<ElementSpec>, e: nat, t: nat, p: nat,
                                     format: Format, kind: PlyType, n: nat, raw: Bytes)
    ensures Leads(es, InList(e, t, p, n), ItemsRun(format, kind, n, raw), InList(e, t, p, 0))
    decreases n
  {
    hide ReadScalar, Leads;
    if n == 0 {
      NothingLeads(es, InList(e, t, p, 0), raw);
    } else {
      match ReadScalar(format, kind, raw)
      case Got(v, rest) =>
        OneLeads(es, InList(e, t, p, n), OnListItem(v), rest, InList(e, t, p, n - 1));
        ItemsLead(es, e, t, p, format, kind, n - 1, rest);
        LeadsOn(es, InList(e, t, p, n), Say(OnListItem(v), rest), InList(e, t, p, n - 1),
                ItemsRun(format, kind, n - 1, rest), InList(e, t, p, 0));
      case Fails(code, rest) => StopLeads(es, InList(e, t, p, n), rest, Broken(code), InList(e, t, p, 0));
      case Short => StopLeads(es, InList(e, t, p, n), raw, Truncated, InList(e, t, p, 0));
    }
  }

  lemma NothingLeads(es: seq<ElementSpec>, at: Place, raw: Bytes)
    ensures Leads(es, at, Run([], raw, Complete), at)
  {}

  lemma StopLeads(es: seq<ElementSpec>, at: Place, raw: Bytes, ending: Ending, to: Place)
    requires Waits(es, at) && ending != Complete
    ensures Leads(es, at, Run([], raw, ending), to)
  {}

  lemma ValueLeads(es: seq<ElementSpec>, e: nat, t: nat, p: nat, format: Format, raw: Bytes)
    requires e < |es| && p < |es[e].properties|
    ensures Leads(es, BeforeProperty(e, t, p), ValueRun(format, es[e].properties, p, raw), BeforeProperty(e, t, p + 1))
  {
    hide ReadValue, Leads, Words.Value, ItemsRun;
    var ps, from, to := es[e].properties, BeforeProperty(e, t, p), BeforeProperty(e, t, p + 1);
    match ReadValue(format, ps[p], raw)
    case Got(v, rest) =>
      if ps[p].isList {
        var n := Words.Value(v.word);
        ItemsLead(es, e, t, p, format, ps[p].scalarType, n, rest);
        FramedLeads(es, from, StartList(p, n), rest, InList(e, t, p, n),
                    ItemsRun(format, ps[p].scalarType, n, rest), InList(e, t, p, 0), EndList, to);
      } else {
        OneLeads(es, from, OnScalarValue(p, v), rest, to);
      }
    case Fails(code, rest) => StopLeads(es, from, rest, Broken(code), to);
    case Short => StopLeads(es, from, raw, Truncated, to);
  }

  lemma {:induction false} PropertiesLead(es: seq<ElementSpec>, e: nat, t: nat, p: nat, format: Format, raw: Bytes)
    requires e < |es| && p <= |es[e].properties|
    ensures var ps := es[e].properties;
            Leads(es, BeforeProperty(e, t, p), PropertiesRun(format, ps, p, raw), BeforeProperty(e, t, |ps|))
    decreases |es[e].properties| - p
  {
    hide ValueRun, Leads;
    var ps := es[e].properties;
    if p == |ps| {
      NothingLeads(es, BeforeProperty(e, t, p), raw);
    } else {
      var v := ValueRun(format, ps, p, raw);
      ValueLeads(es, e, t, p, format, raw);
      PropertiesLead(es, e, t, p + 1, format, v.rest);
      LeadsOn(es, BeforeProperty(e, t, p), v, BeforeProperty(e, t, p + 1),
              PropertiesRun(format, ps, p + 1, v.rest), BeforeProperty(e, t, |ps|));
    }
  }

  lemma TupleLeads(es: seq<ElementSpec>, e: nat, t: nat, format: Format, raw: Bytes, w: Feed)
    requires e < |es| && t < es[e].numTuples
    ensures Leads(es, BeforeTuple(e, t), TupleThrough(format, es[e].properties, t, raw, w), BeforeTuple(e, t + 1))
  {
    hide Leads, PropertiesThrough;
    var ps := es[e].properties;
    ThroughLeads(es, e, t, format, raw, w);
    FramedLeads(es, BeforeTuple(e, t), StartTuple(t), raw, BeforeProperty(e, t, 0),
                PropertiesThrough(format, ps, raw, w), BeforeProperty(e, t, |ps|), EndTuple, BeforeTuple(e, t + 1));
  }

  lemma ThroughLeads(es: seq<ElementSpec>, e: nat, t: nat, format: Format, raw: Bytes, w: Feed)
    requires e < |es|
    ensures var ps := es[e].properties;
            Leads(es, BeforeProperty(e, t, 0), PropertiesThrough(format, ps, raw, w), BeforeProperty(e, t, |ps|))
  {
    hide PropertiesRun, Walk;
    var ps, from := es[e].properties, BeforeProperty(e, t, 0);
    if ps == [] {
      NothingLeads(es, from, raw);
    } else if Failing(w.good) {
      StopLeads(es, from, raw, Broken(PLY_ERR_READ), BeforeProperty(e, t, |ps|));
    } else {
      PropertiesLead(es, e, t, 0, format, Front(raw, w.limit));
    }
  }

  lemma {:induction false} TuplesLead(es: seq<ElementSpec>, e: nat, t: nat, format: Format, raw: Bytes, w: Feed)
    requires e < |es| && t <= es[e].numTuples
    ensures Leads(es, BeforeTuple(e, t), TuplesThrough(format, es[e], t, raw, w), BeforeTuple(e, es[e].numTuples))
    decreases es[e].numTuples - t
  {
    hide TupleThrough, Leads;
    var n := es[e].numTuples;
    if t == n {
      NothingLeads(es, BeforeTuple(e, t), raw);
    } else {
      var tuple := TupleThrough(format, es[e].properties, t, raw, w);
      var w' := AfterTuples(w, es[e].properties, 1);
      TupleLeads(es, e, t, format, raw, w);
      TuplesLead(es, e, t + 1, format, tuple.rest, w');
      LeadsOn(es, BeforeTuple(e, t), tuple, BeforeTuple(e, t + 1),
              TuplesThrough(format, es[e], t + 1, tuple.rest, w'), BeforeTuple(e, n));
    }
  }

  lemma ElementLeads(es: seq<ElementSpec>, e: nat, format: Format, raw: Bytes, w: Feed)
    requires e < |es|
    ensures Leads(es, BeforeElement(e), ElementThrough(format, es, e, raw, w), BeforeElement(e + 1))
  {
    hide Leads, TuplesThrough;
    TuplesLead(es, e, 0, format, raw, w);
    FramedLeads(es, BeforeElement(e), StartElement(e), raw, BeforeTuple(e, 0), TuplesThrough(format, es[e], 0, raw, w),
                BeforeTuple(e, es[e].numTuples), EndElement, BeforeElement(e + 1));
  }

  lemma {:induction false} ElementsLead(es: seq<ElementSpec>, e: nat, format: Format, raw: Bytes, w: Feed)
    requires e <= |es|
    ensures Leads(es, BeforeElement(e), ElementsThrough(format, es, e, raw, w), BeforeElement(|es|))
    decreases |es| - e
  {
    hide ElementThrough, Leads;
    if e == |es| {
      NothingLeads(es, BeforeElement(e), raw);
    } else {
      var element := ElementThrough(format, es, e, raw, w);
      var w' := AfterElement(w, es[e]);
      ElementLeads(es, e, format, raw, w);
      ElementsLead(es, e + 1, format, element.rest, w');
      LeadsOn(es, BeforeElement(e), element, BeforeElement(e + 1),
              ElementsThrough(format, es, e + 1, element.rest, w'), BeforeElement(|es|));
    }
  }

  // ---- what the callbacks see ----

  /** A handler that was called this often has not answered with an error before the last call. */
  predicate Patient(calls: seq<Event>, h: Handler) {
    forall k :: 0 < k < |calls| ==> h(calls[..k]) >= 0
  }

  /** The calls are the first of the events, up to one that is answered with an error or to the last. */
  lemma {:induction false} DeliverExactly(before: seq<Event>, events: seq<Event>, h: Handler)
    requires forall k :: 0 < k <= |before| ==> h(before[..k]) >= 0
    ensures var (calls, code) := Deliver(before, events, h);
            calls <= before + events && Patient(calls, h) &&
            (if calls != [] && h(calls) < 0 then code == h(calls) else calls == before + events && code == 0)
    decreases |events|
  {
    if events == [] {
      assert before[..|before|] == before && before + events == before;
    } else {
      var now := before + [events[0]];
      assert now + events[1..] == before + events;
      assert forall k :: 0 < k <= |before| ==> now[..k] == before[..k];
      assert now[..|now|] == now;
      if h(now) >= 0 { DeliverExactly(now, events[1..], h); }
    }
  }

  /** Where the calls for a run end. */
  ghost predicate Ordered(es: seq<ElementSpec>, d: Delivery, h: Handler) {
    var end := Walk(es, BeforeElement(0), d.calls);
    && end.Some? && Patient(d.calls, h)
    && if d.calls != [] && h(d.calls) < 0 then d.code == h(d.calls) && !d.cut
       else if d.code == 0 && !d.cut then end.value == BeforeElement(|es|)
       else Waits(es, end.value)
  }

  lemma RunOrdered(es: seq<ElementSpec>, run: Run, h: Handler)
    requires Leads(es, BeforeElement(0), run, BeforeElement(|es|)) && Coded(run)
    ensures Ordered(es, Delivered([], run, h), h)
  {
    hide Deliver, Walk, Waits, Step, Patient;
    DeliverExactly([], run.events, h);
    var calls := Deliver([], run.events, h).0;
    assert [] + run.events == run.events;
    assert run.events == calls + run.events[|calls|..];
    WalkOn(es, BeforeElement(0), calls, run.events[|calls|..]);
  }

  lemma {:induction false} ElementsCoded(format: Format, es: seq<ElementSpec>, e: nat, raw: Bytes, w: Feed)
    requires e <= |es|
    ensures Coded(ElementsThrough(format, es, e, raw, w))
    decreases |es| - e
  {
    hide ElementThrough;
    if e < |es| {
      ElementCoded(format, es, e, raw, w);
      ElementsCoded(format, es, e + 1, ElementThrough(format, es, e, raw, w).rest, AfterElement(w, es[e]));
    }
  }

  /** Whatever the body, the window and the reads: the calls walk through the elements, tuples and properties
      that the header declares, list items between the calls around them, and nothing else. No call follows
      one that is answered with an error, whose code comes out. Otherwise the calls end behind the last
      element exactly if the result is zero and no bytes were missing, and where something has to be read if
      not. */
  lemma CallsInOrder(known: Header, body: Bytes, good: Reads, h: Handler)
    ensures Ordered(known.elements, Delivered([], Through(known, body, good), h), h)
  {
    hide Ordered, Leads, ElementsThrough, Delivered;
    var w := Feed(known.memoryBreak, good);
    ElementsLead(known.elements, 0, known.format, body, w);
    ElementsCoded(known.format, known.elements, 0, body, w);
    RunOrdered(known.elements, Through(known, body, good), h);
  }

  // ---- reads ----

  /** The tuples with properties that were begun, from within element `at`. */
  function Begun(es: seq<ElementSpec>, at: nat, calls: seq<Event>): nat
    decreases |calls|
  {
    if calls == [] then 0
    else if calls[0].StartElement? then Begun(es, calls[0].element, calls[1..])
    else
      (if calls[0].StartTuple? && at < |es| && es[at].properties != [] then 1 else 0) + Begun(es, at, calls[1..])
  }

  /** The element that the calls end in. */
  function Within(at: nat, calls: seq<Event>): nat
    decreases |calls|
  {
    if calls == [] then at
    else Within(if calls[0].StartElement? then calls[0].element else at, calls[1..])
  }

  lemma {:induction false} BegunMore(es: seq<ElementSpec>, at: nat, xs: seq<Event>, ys: seq<Event>)
    ensures Begun(es, at, xs + ys) == Begun(es, at, xs) + Begun(es, Within(at, xs), ys)
    ensures Within(at, xs + ys) == Within(Within(at, xs), ys)
    decreases |xs|
  {
    if xs == [] {
      assert xs + ys == ys;
    } else {
      assert (xs + ys)[0] == xs[0] && (xs + ys)[1..] == xs[1..] + ys;
      BegunMore(es, if xs[0].StartElement? then xs[0].element else at, xs[1..], ys);
    }
  }

  lemma BegunOne(es: seq<ElementSpec>, at: nat, call: Event)
    ensures Begun(es, at, [call]) == if call.StartTuple? && at < |es| && es[at].properties != [] then 1 else 0
    ensures Within(at, [call]) == if call.StartElement? then call.element else at
  {
    assert [call][1..] == [];
    assert forall e :: Begun(es, e, []) == 0 && Within(e, []) == e;
  }

  /** A part of a body that begins n such tuples if it is complete. */
  ghost predicate Counts(es: seq<ElementSpec>, at: nat, run: Run, n: nat, to: nat) {
    && Within(at, run.events) == to
    && (run.ending == Complete ==> Begun(es, at, run.events) == n)
  }

  /** Its reads: one for each tuple begun, the last of which failed if it ends in a read error. */
  ghost predicate Fed(es: seq<ElementSpec>, at: nat, run: Run, good: Reads) {
    var n := Begun(es, at, run.events);
    if run.ending == Broken(-130) then n > 0 && good == Some(n - 1) else good.Some? ==> good.value >= n
  }

  lemma FedOn(es: seq<ElementSpec>, at: nat, a: Run, n: nat, mid: nat, b: Run, good: Reads)
    requires Counts(es, at, a, n, mid) && Fed(es, at, a, good) && Fed(es, mid, b, Less(good, n))
    ensures Fed(es, at, Then(a, b), good)
  {
    BegunMore(es, at, a.events, b.events);
  }

  lemma FedThen(es: seq<ElementSpec>, at: nat, a: Run, n: nat, mid: nat, b: Run, m: nat, to: nat, good: Reads)
    requires Counts(es, at, a, n, mid) && Fed(es, at, a, good)
    requires Counts(es, mid, b, m, to) && Fed(es, mid, b, Less(good, n))
    ensures Fed(es, at, Then(a, b), good) && Within(at, Then(a, b).events) == (if a.ending == Complete then to else mid)
    ensures Then(a, b).ending == Complete ==> Begun(es, at, Then(a, b).events) == n + m
  {
    FedOn(es, at, a, n, mid, b, good);
    BegunMore(es, at, a.events, b.events);
  }

  /** Calls that begin nothing. */
  predicate Quiet(calls: seq<Event>) {
    forall k :: 0 <= k < |calls| ==> !calls[k].StartElement? && !calls[k].StartTuple?
  }

  lemma {:induction false} QuietBegins(es: seq<ElementSpec>, at: nat, calls: seq<Event>)
    requires Quiet(calls)
    ensures Begun(es, at, calls) == 0 && Within(at, calls) == at
    decreases |calls|
  {
    if calls != [] { QuietBegins(es, at, calls[1..]); }
  }

  /** The decoder of values has no read errors of its own. */
  predicate Plain(run: Run) {
    Quiet(run.events) && run.ending != Broken(-130)
  }

  lemma {:induction false} ItemsPlain(format: Format, t: PlyType, n: nat, raw: Bytes)
    ensures Plain(ItemsRun(format, t, n, raw))
    decreases n
  {
    if n > 0 {
      match ReadScalar(format, t, raw)
      case Got(v, rest) => ItemsPlain(format, t, n - 1, rest);
      case Fails(_, _) =>
      case Short =>
    }
  }

  lemma ValuePlain(format: Format, ps: seq<PropertySpec>, p: nat, raw: Bytes)
    requires p < |ps|
    ensures Plain(ValueRun(format, ps, p, raw))
  {
    hide Words.Value, ItemsRun, FromBytes;
    var read := ReadValue(format, ps[p], raw);
    if read.Got? && ps[p].isList { ItemsPlain(format, ps[p].scalarType, Words.Value(read.value.word), read.rest); }
  }

  lemma {:induction false} PropertiesPlain(format: Format, ps: seq<PropertySpec>, p: nat, raw: Bytes)
    requires p <= |ps|
    ensures Plain(PropertiesRun(format, ps, p, raw))
    decreases |ps| - p
  {
    hide ValueRun;
    if p < |ps| {
      ValuePlain(format, ps, p, raw);
      PropertiesPlain(format, ps, p + 1, ValueRun(format, ps, p, raw).rest);
    }
  }

  lemma TupleFed(es: seq<ElementSpec>, e: nat, t: nat, format: Format, raw: Bytes, w: Feed)
    requires e < |es|
    ensures var run := TupleThrough(format, es[e].properties, t, raw, w);
            Counts(es, e, run, if es[e].properties == [] then 0 else 1, e) && Fed(es, e, run, w.good)
  {
    hide PropertiesRun, Begun, Within, Quiet;
    var ps := es[e].properties;
    var values := PropertiesThrough(format, ps, raw, w);
    PropertiesPlain(format, ps, 0, Front(raw, w.limit));
    assert Quiet(values.events) by { NoCalls(); }
    QuietBegins(es, e, values.events);
    BegunOne(es, e, StartTuple(t));
    BegunOne(es, e, EndTuple);
    BegunMore(es, e, values.events, [EndTuple]);
    BegunMore(es, e, [StartTuple(t)], values.events);
    BegunMore(es, e, [StartTuple(t)], values.events + [EndTuple]);
  }

  lemma NoCalls()
    ensures Quiet([])
  {}

  lemma NothingFed(es: seq<ElementSpec>, at: nat, raw: Bytes, good: Reads)
    ensures Counts(es, at, Run([], raw, Complete), 0, at) && Fed(es, at, Run([], raw, Complete), good)
  {}

  lemma {:induction false} TuplesFed(es: seq<ElementSpec>, e: nat, t: nat, format: Format, raw: Bytes, w: Feed)
    requires e < |es| && t <= es[e].numTuples
    ensures var run := TuplesThrough(format, es[e], t, raw, w);
            Counts(es, e, run, if es[e].properties == [] then 0 else es[e].numTuples - t, e) && Fed(es, e, run, w.good)
    decreases es[e].numTuples - t
  {
    hide TupleThrough, Fed, Begun, Within;
    if t == es[e].numTuples {
      NothingFed(es, e, raw, w.good);
    } else {
      var ps := es[e].properties;
      var tuple, w' := TupleThrough(format, ps, t, raw, w), AfterTuples(w, ps, 1);
      TupleFed(es, e, t, format, raw, w);
      TuplesFed(es, e, t + 1, format, tuple.rest, w');
      assert ps == [] ==> Less(w.good, 0) == w.good;
      FedThen(es, e, tuple, if ps == [] then 0 else 1, e, TuplesThrough(format, es[e], t + 1, tuple.rest, w'),
              if ps == [] then 0 else es[e].numTuples - t - 1, e, w.good);
    }
  }

  function TuplesOf(e: ElementSpec): nat {
    if e.properties == [] then 0 else e.numTuples
  }

  lemma ElementFed(es: seq<ElementSpec>, at: nat, e: nat, format: Format, raw: Bytes, w: Feed)
    requires e < |es|
    ensures var run := ElementThrough(format, es, e, raw, w);
            Counts(es, at, run, TuplesOf(es[e]), e) && Fed(es, at, run, w.good)
  {
    hide TuplesThrough, Begun, Within;
    var tuples := TuplesThrough(format, es[e], 0, raw, w);
    TuplesFed(es, e, 0, format, raw, w);
    BegunOne(es, at, StartElement(e));
    BegunOne(es, e, EndElement);
    BegunMore(es, e, tuples.events, [EndElement]);
    BegunMore(es, at, [StartElement(e)], tuples.events);
    BegunMore(es, at, [StartElement(e)], tuples.events + [EndElement]);
  }

  lemma {:induction false} ElementsFed(es: seq<ElementSpec>, at: nat, e: nat, format: Format, raw: Bytes, w: Feed)
    requires e <= |es|
    ensures Fed(es, at, ElementsThrough(format, es, e, raw, w), w.good)
    decreases |es| - e
  {
    hide ElementThrough, Fed, Begun, Within;
    if e == |es| {
      NothingFed(es, at, raw, w.good);
    } else {
      var element, w' := ElementThrough(format, es, e, raw, w), AfterElement(w, es[e]);
      ElementFed(es, at, e, format, raw, w);
      ElementsFed(es, e, e + 1, format, element.rest, w');
      assert es[e].properties == [] ==> Less(w.good, 0) == w.good;
      FedOn(es, at, element, TuplesOf(es[e]), e, ElementsThrough(format, es, e + 1, element.rest, w'), w.good);
    }
  }

  /** The body takes one read for each tuple with properties that is begun, and no other: decoding ends in a read
      error exactly if the read of the last one failed. */
  lemma ReadsOnce(known: Header, body: Bytes, good: Reads)
    ensures var run := Through(known, body, good);
            var n := Begun(known.elements, 0, run.events);
            if run.ending == Broken(-130) then n > 0 && good == Some(n - 1) else good.Some? ==> good.value >= n
  {
    hide ElementsThrough, Begun;
    ElementsFed(known.elements, 0, 0, known.format, body, Feed(known.memoryBreak, good));
  }
}
