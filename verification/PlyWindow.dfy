/** A body decoded through the parser's window: at the start of each tuple with properties one read refills
    the window, as far as the memory and the input go, and the tuple's values must all lie in it. */
module PlyWindow {
  import opened Wrappers
  import opened Words
  import opened PlyHeaderSpec
  import opened PlyScalar
  import opened PlyDecoder

  /** The size of the window, and how many of the reads that refill it go well. */
  datatype Feed = Feed(limit: nat, good: Reads)

  function Front(raw: Bytes, limit: nat): Bytes {
    if |raw| <= limit then raw else raw[..limit]
  }

  function Back(raw: Bytes, limit: nat): Bytes {
    if |raw| <= limit then [] else raw[limit..]
  }

  /** A run with more of the input behind it. */
  function Followed(run: Run, back: Bytes): Run {
    Run(run.events, run.rest + back, run.ending)
  }

  /** The properties of a tuple. Where one lies behind the window, decoding ends as truncated: the code reads
      whatever is there. */
  function PropertiesThrough(format: Format, ps: seq<PropertySpec>, raw: Bytes, w: Feed): (r: Run)
    ensures |r.rest| <= |raw|
  {
    if ps == [] then Run([], raw, Complete)
    else if Failing(w.good) then Run([], raw, Broken(PLY_ERR_READ))
    else Followed(PropertiesRun(format, ps, 0, Front(raw, w.limit)), Back(raw, w.limit))
  }

  function TupleThrough(format: Format, ps: seq<PropertySpec>, t: nat, raw: Bytes, w: Feed): (r: Run)
    ensures |r.rest| <= |raw|
  {
    var values := PropertiesThrough(format, ps, raw, w);
    Then(Say(StartTuple(t), raw), Then(values, Say(EndTuple, values.rest)))
  }

  /** Tuples without properties take no read. */
  function AfterTuples(w: Feed, ps: seq<PropertySpec>, n: nat): Feed {
    if ps == [] then w else Feed(w.limit, Less(w.good, n))
  }

  function TuplesThrough(format: Format, e: ElementSpec, t: nat, raw: Bytes, w: Feed): (r: Run)
    requires t <= e.numTuples
    ensures |r.rest| <= |raw|
    decreases e.numTuples - t
  {
    if t == e.numTuples then Run([], raw, Complete)
    else
      var tuple := TupleThrough(format, e.properties, t, raw, w);
      Then(tuple, TuplesThrough(format, e, t + 1, tuple.rest, AfterTuples(w, e.properties, 1)))
  }

  function ElementThrough(format: Format, es: seq<ElementSpec>, e: nat, raw: Bytes, w: Feed): (r: Run)
    requires e < |es|
    ensures |r.rest| <= |raw|
  {
    var tuples := TuplesThrough(format, es[e], 0, raw, w);
    Then(Say(StartElement(e), raw), Then(tuples, Say(EndElement, tuples.rest)))
  }

  function AfterElement(w: Feed, e: ElementSpec): Feed {
    AfterTuples(w, e.properties, e.numTuples)
  }

  function ElementsThrough(format: Format, es: seq<ElementSpec>, e: nat, raw: Bytes, w: Feed): (r: Run)
    requires e <= |es|
    ensures |r.rest| <= |raw|
    decreases |es| - e
  {
    if e == |es| then Run([], raw, Complete)
    else
      var element := ElementThrough(format, es, e, raw, w);
      Then(element, ElementsThrough(format, es, e + 1, element.rest, AfterElement(w, es[e])))
  }

  /** The whole body; the window is the memory below the records. */
  function Through(h: Header, body: Bytes, good: Reads): Run {
    ElementsThrough(h.format, h.elements, 0, body, Feed(h.memoryBreak, good))
  }

  // ---- more input behind ----

  /** With more input behind it a part is decoded to the same; or it was cut short, and now takes some of
      what is behind. */
  ghost predicate Extends(b: Run, a: Run, back: Bytes) {
    b == Followed(a, back) || (a.ending == Truncated && |b.rest| < |back| && a.events <= b.events)
  }

  lemma ScalarExtends(format: Format, t: PlyType, raw: Bytes, back: Bytes)
    ensures match ReadScalar(format, t, raw)
            case Got(v, rest) => ReadScalar(format, t, raw + back) == Got(v, rest + back)
            case Fails(code, rest) => ReadScalar(format, t, raw + back) == Fails(code, rest + back)
            case Short =>
              var read := ReadScalar(format, t, raw + back);
              read.Short? || (read.Got? && |read.rest| < |back|)
  {
    hide FromBytes, Reversed;
    var n := Size(t);
    if n <= |raw| {
      assert (raw + back)[..n] == raw[..n] && (raw + back)[n..] == raw[n..] + back;
    }
  }

  lemma ValueExtends(format: Format, p: PropertySpec, raw: Bytes, back: Bytes)
    ensures match ReadValue(format, p, raw)
            case Got(v, rest) => ReadValue(format, p, raw + back) == Got(v, rest + back)
            case Fails(code, rest) => ReadValue(format, p, raw + back) == Fails(code, rest + back)
            case Short =>
              var read := ReadValue(format, p, raw + back);
              read.Short? || |read.rest| < |back|
  {
    hide ReadScalar, Words.Int32;
    ScalarExtends(format, if p.isList then p.lengthType else p.scalarType, raw, back);
  }

  /** If both parts extend, so does one followed by the other. */
  lemma ThenExtends(b: Run, d: Run, a: Run, c: Run, back: Bytes)
    requires Extends(b, a, back) && |d.rest| <= |b.rest| && (b == Followed(a, back) ==> Extends(d, c, back))
    ensures Extends(Then(b, d), Then(a, c), back)
  {}

  lemma {:induction false} ItemsExtend(format: Format, t: PlyType, n: nat, raw: Bytes, back: Bytes)
    ensures Extends(ItemsRun(format, t, n, raw + back), ItemsRun(format, t, n, raw), back)
    decreases n
  {
    hide ReadScalar;
    if n > 0 {
      ScalarExtends(format, t, raw, back);
      match ReadScalar(format, t, raw)
      case Got(v, rest) =>
        ItemsExtend(format, t, n - 1, rest, back);
        ThenExtends(Say(OnListItem(v), rest + back), ItemsRun(format, t, n - 1, rest + back),
                    Say(OnListItem(v), rest), ItemsRun(format, t, n - 1, rest), back);
      case Fails(_, _) =>
      case Short =>
    }
  }

  lemma ListExtends(format: Format, t: PlyType, p: nat, n: nat, raw: Bytes, back: Bytes)
    ensures Extends(ListRun(format, t, p, n, raw + back), ListRun(format, t, p, n, raw), back)
  {
    hide ItemsRun, Extends;
    var a, b := ItemsRun(format, t, n, raw), ItemsRun(format, t, n, raw + back);
    ItemsExtend(format, t, n, raw, back);
    OneExtends(EndList, a.rest, back);
    OneExtends(StartList(p, n), raw, back);
    ThenExtends(b, Say(EndList, b.rest), a, Say(EndList, a.rest), back);
    ThenExtends(Say(StartList(p, n), raw + back), Then(b, Say(EndList, b.rest)),
                Say(StartList(p, n), raw), Then(a, Say(EndList, a.rest)), back);
  }

  lemma OneExtends(event: Event, raw: Bytes, back: Bytes)
    ensures Extends(Say(event, raw + back), Say(event, raw), back)
  {}

  lemma ValueRunExtends(format: Format, ps: seq<PropertySpec>, p: nat, raw: Bytes, back: Bytes)
    requires p < |ps|
    ensures Extends(ValueRun(format, ps, p, raw + back), ValueRun(format, ps, p, raw), back)
  {
    hide ReadValue, ListRun, Words.Value;
    ValueExtends(format, ps[p], raw, back);
    match ReadValue(format, ps[p], raw)
    case Got(v, rest) =>
      if ps[p].isList { ListExtends(format, ps[p].scalarType, p, Words.Value(v.word), rest, back); }
    case Fails(_, _) =>
    case Short =>
  }

  lemma {:induction false} PropertiesExtend(format: Format, ps: seq<PropertySpec>, p: nat, raw: Bytes, back: Bytes)
    requires p <= |ps|
    ensures Extends(PropertiesRun(format, ps, p, raw + back), PropertiesRun(format, ps, p, raw), back)
    decreases |ps| - p
  {
    hide ValueRun, Extends;
    if p < |ps| {
      var a, b := ValueRun(format, ps, p, raw), ValueRun(format, ps, p, raw + back);
      ValueRunExtends(format, ps, p, raw, back);
      PropertiesExtend(format, ps, p + 1, a.rest, back);
      ThenExtends(b, PropertiesRun(format, ps, p + 1, b.rest), a, PropertiesRun(format, ps, p + 1, a.rest), back);
    } else {
      NothingExtends(raw, back);
    }
  }

  lemma NothingExtends(raw: Bytes, back: Bytes)
    ensures Extends(Run([], raw + back, Complete), Run([], raw, Complete), back)
  {}

  // ---- tuples that fit, reads that go well ----

  lemma FrontThenBack(raw: Bytes, limit: nat)
    ensures raw == Front(raw, limit) + Back(raw, limit)
    ensures |Back(raw, limit)| == if |raw| <= limit then 0 else |raw| - limit
  {}

  lemma PropertiesFit(format: Format, ps: seq<PropertySpec>, raw: Bytes, w: Feed)
    requires TupleSize(format, ps, raw) <= w.limit && (ps == [] || !Failing(w.good))
    ensures PropertiesThrough(format, ps, raw, w) == PropertiesRun(format, ps, 0, raw)
  {
    hide PropertiesRun, Front, Back;
    NoProperties(format, raw);
    if ps != [] {
      FrontThenBack(raw, w.limit);
      PropertiesExtend(format, ps, 0, Front(raw, w.limit), Back(raw, w.limit));
    }
  }

  /** Decoding a tuple leaves the window if and only if the read goes well and bytes of the tuple are missing,
      or it is longer than the window. */
  lemma CutExactly(format: Format, ps: seq<PropertySpec>, raw: Bytes, w: Feed)
    ensures PropertiesThrough(format, ps, raw, w).ending == Truncated <==>
            ps != [] && !Failing(w.good) &&
            (PropertiesRun(format, ps, 0, raw).ending == Truncated || TupleSize(format, ps, raw) > w.limit)
  {
    hide PropertiesRun, Front, Back;
    if ps != [] {
      FrontThenBack(raw, w.limit);
      PropertiesExtend(format, ps, 0, Front(raw, w.limit), Back(raw, w.limit));
    }
  }

  /** So many reads go well. */
  predicate GoWell(good: Reads, n: nat) {
    good.Some? ==> n <= good.value
  }

  /** The reads that the tuples of an element take. */
  function ReadsOf(e: ElementSpec, t: nat): nat
    requires t <= e.numTuples
  {
    if e.properties == [] then 0 else e.numTuples - t
  }

  function AllReads(es: seq<ElementSpec>, e: nat): nat
    requires e <= |es|
    decreases |es| - e
  {
    if e == |es| then 0 else ReadsOf(es[e], 0) + AllReads(es, e + 1)
  }

  lemma {:induction false} TuplesDecoded(format: Format, e: ElementSpec, t: nat, raw: Bytes, w: Feed)
    requires t <= e.numTuples && TuplesFit(format, e, t, raw, w.limit) && GoWell(w.good, ReadsOf(e, t))
    ensures TuplesThrough(format, e, t, raw, w) == TuplesRun(format, e, t, raw)
    decreases e.numTuples - t
  {
    hide PropertiesRun, PropertiesThrough, TupleSize;
    if t < e.numTuples {
      PropertiesFit(format, e.properties, raw, w);
      var tuple := TupleRun(format, e.properties, t, raw);
      if tuple.ending == Complete {
        TuplesDecoded(format, e, t + 1, tuple.rest, AfterTuples(w, e.properties, 1));
      }
    }
  }

  lemma {:induction false} ElementsDecoded(format: Format, es: seq<ElementSpec>, e: nat, raw: Bytes, w: Feed)
    requires e <= |es| && ElementsFit(format, es, e, raw, w.limit) && GoWell(w.good, AllReads(es, e))
    ensures ElementsThrough(format, es, e, raw, w) == ElementsRun(format, es, e, raw)
    decreases |es| - e
  {
    hide TuplesRun, TuplesThrough, TuplesFit;
    if e < |es| {
      TuplesDecoded(format, es[e], 0, raw, w);
      var element := ElementRun(format, es, e, raw);
      if element.ending == Complete {
        ElementsDecoded(format, es, e + 1, element.rest, AfterElement(w, es[e]));
      }
    }
  }

  /** If no tuple is longer than the window and no read fails that is needed, the window makes no
      difference. */
  lemma ThroughDecodes(h: Header, body: Bytes, good: Reads)
    requires ElementsFit(h.format, h.elements, 0, body, h.memoryBreak) && GoWell(good, AllReads(h.elements, 0))
    ensures Through(h, body, good) == Decode(h, body)
  {
    ElementsDecoded(h.format, h.elements, 0, body, Feed(h.memoryBreak, good));
  }

  // ---- whatever fails ----

  /** One run is the beginning of another, which it is if it is complete. */
  predicate Begins(a: Run, b: Run) {
    a.events <= b.events && (a.ending == Complete ==> a == b)
  }

  lemma ThenBegins(a: Run, c: Run, b: Run, d: Run)
    requires Begins(a, b) && (a == b ==> Begins(c, d))
    ensures Begins(Then(a, c), Then(b, d))
  {
    if a.ending != Complete && b.ending == Complete {
      assert a.events <= b.events + d.events;
    }
  }

  lemma PropertiesBegin(format: Format, ps: seq<PropertySpec>, raw: Bytes, w: Feed)
    ensures Begins(PropertiesThrough(format, ps, raw, w), PropertiesRun(format, ps, 0, raw))
  {
    hide PropertiesRun, Front, Back;
    if ps != [] && !Failing(w.good) {
      FrontThenBack(raw, w.limit);
      PropertiesExtend(format, ps, 0, Front(raw, w.limit), Back(raw, w.limit));
    } else if ps == [] {
      NoProperties(format, raw);
    }
  }

  lemma NoProperties(format: Format, raw: Bytes)
    ensures PropertiesRun(format, [], 0, raw) == Run([], raw, Complete)
  {}

  /** What is between two calls begins, so the whole does. */
  lemma FramedBegins(first: Event, raw: Bytes, a: Run, b: Run, last: Event)
    requires Begins(a, b)
    ensures Begins(Then(Say(first, raw), Then(a, Say(last, a.rest))), Then(Say(first, raw), Then(b, Say(last, b.rest))))
  {
    hide Begins;
    SameBegins(Say(first, raw));
    SameBegins(Say(last, a.rest));
    ThenBegins(a, Say(last, a.rest), b, Say(last, b.rest));
    ThenBegins(Say(first, raw), Then(a, Say(last, a.rest)), Say(first, raw), Then(b, Say(last, b.rest)));
  }

  lemma SameBegins(run: Run)
    ensures Begins(run, run)
  {}

  lemma {:induction false} TuplesBegin(format: Format, e: ElementSpec, t: nat, raw: Bytes, w: Feed)
    requires t <= e.numTuples
    ensures Begins(TuplesThrough(format, e, t, raw, w), TuplesRun(format, e, t, raw))
    decreases e.numTuples - t
  {
    hide Begins, PropertiesRun, PropertiesThrough;
    if t < e.numTuples {
      var ps := e.properties;
      PropertiesBegin(format, ps, raw, w);
      FramedBegins(StartTuple(t), raw, PropertiesThrough(format, ps, raw, w),
        PropertiesRun(format, ps, 0, raw), EndTuple);
      var a, b := TupleThrough(format, ps, t, raw, w), TupleRun(format, ps, t, raw);
      TuplesBegin(format, e, t + 1, a.rest, AfterTuples(w, ps, 1));
      ThenBegins(a, TuplesThrough(format, e, t + 1, a.rest, AfterTuples(w, ps, 1)),
        b, TuplesRun(format, e, t + 1, b.rest));
    } else {
      SameBegins(Run([], raw, Complete));
    }
  }

  lemma {:induction false} ElementsBegin(format: Format, es: seq<ElementSpec>, e: nat, raw: Bytes, w: Feed)
    requires e <= |es|
    ensures Begins(ElementsThrough(format, es, e, raw, w), ElementsRun(format, es, e, raw))
    decreases |es| - e
  {
    hide Begins, TuplesRun, TuplesThrough;
    if e < |es| {
      TuplesBegin(format, es[e], 0, raw, w);
      FramedBegins(StartElement(e), raw, TuplesThrough(format, es[e], 0, raw, w),
        TuplesRun(format, es[e], 0, raw), EndElement);
      var a, b := ElementThrough(format, es, e, raw, w), ElementRun(format, es, e, raw);
      var next := AfterElement(w, es[e]);
      ElementsBegin(format, es, e + 1, a.rest, next);
      ThenBegins(a, ElementsThrough(format, es, e + 1, a.rest, next), b, ElementsRun(format, es, e + 1, b.rest));
    } else {
      SameBegins(Run([], raw, Complete));
    }
  }

  /** Whatever fails, and however long the tuples are: what is decoded through the window is the beginning of
      what the body says, and all of it if decoding is complete. */
  lemma ThroughBegins(h: Header, body: Bytes, good: Reads)
    ensures Begins(Through(h, body, good), Decode(h, body))
  {
    ElementsBegin(h.format, h.elements, 0, body, Feed(h.memoryBreak, good));
  }
}
