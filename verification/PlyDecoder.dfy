/** The body of a PLY file decoded without any buffer: elements, their tuples, the tuples' properties, one
    nested in the other. */
module PlyDecoder {
  import opened Words
  import opened PlyHeaderSpec
  import opened PlyScalar

  /** The callbacks of ply_handler. A property is named by its position. */
  datatype Event =
    | StartElement(element: nat)
    | EndElement
    | StartTuple(tuple: nat)
    | EndTuple
    | OnScalarValue(property: nat, value: Scalar)
    | StartList(list: nat, length: nat)
    | EndList
    | OnListItem(item: Scalar)

  /** How decoding ends: all is there; an error code; or bytes are missing. */
  datatype Ending = Complete | Broken(code: int) | Truncated

  /** What decoding a part of the body gives, and what is left of the body. */
  datatype Run = Run(events: seq<Event>, rest: Bytes, ending: Ending)

  function Say(event: Event, rest: Bytes): Run {
    Run([event], rest, Complete)
  }

  /** One part and then another. */
  function Then(a: Run, b: Run): Run {
    if a.ending == Complete then Run(a.events + b.events, b.rest, b.ending) else a
  }

  predicate Signed(t: PlyType) {
    t == Int8 || t == Int16 || t == Int32
  }

  /** The value of a property that is not a list, or the length of one that is. */
  function ReadValue(format: Format, p: PropertySpec, raw: Bytes): (r: Read)
    ensures r.Got? || r.Fails? ==> |r.rest| <= |raw| && r.rest == raw[|raw| - |r.rest|..]
    ensures r.Got? && p.isList ==> r.value.Narrow?
    ensures r.Fails? ==> r.code < 0
  {
    if !p.isList then ReadScalar(format, p.scalarType, raw)
    else
      match ReadScalar(format, p.lengthType, raw)
      case Got(v, rest) =>
        if p.lengthType == Float32 || v.Wide? || (Signed(p.lengthType) && Words.Int32(v.word) < 0)
        then Fails(PLY_ERR_SYNTAX, rest)
        else Got(v, rest)
      case Fails(code, rest) => Fails(code, rest)
      case Short => Short
  }

  /** The items of a list. */
  function ItemsRun(format: Format, t: PlyType, n: nat, raw: Bytes): (r: Run)
    ensures |r.rest| <= |raw|
    decreases n
  {
    if n == 0 then Run([], raw, Complete)
    else
      match ReadScalar(format, t, raw)
      case Got(v, rest) => Then(Say(OnListItem(v), rest), ItemsRun(format, t, n - 1, rest))
      case Fails(code, rest) => Run([], rest, Broken(code))
      case Short => Run([], raw, Truncated)
  }

  /** A list of n items. */
  function ListRun(format: Format, t: PlyType, p: nat, n: nat, raw: Bytes): (r: Run)
    ensures |r.rest| <= |raw|
  {
    var items := ItemsRun(format, t, n, raw);
    Then(Say(StartList(p, n), raw), Then(items, Say(EndList, items.rest)))
  }

  /** One property of a tuple. */
  function ValueRun(format: Format, ps: seq<PropertySpec>, p: nat, raw: Bytes): (r: Run)
    requires p < |ps|
    ensures |r.rest| <= |raw|
  {
    match ReadValue(format, ps[p], raw)
    case Got(v, rest) =>
      if ps[p].isList then ListRun(format, ps[p].scalarType, p, Words.Value(v.word), rest)
      else Say(OnScalarValue(p, v), rest)
    case Fails(code, rest) => Run([], rest, Broken(code))
    case Short => Run([], raw, Truncated)
  }

  /** The properties of a tuple, from the p-th on. */
  function PropertiesRun(format: Format, ps: seq<PropertySpec>, p: nat, raw: Bytes): (r: Run)
    requires p <= |ps|
    ensures |r.rest| <= |raw|
    decreases |ps| - p
  {
    if p == |ps| then Run([], raw, Complete)
    else
      var v := ValueRun(format, ps, p, raw);
      Then(v, PropertiesRun(format, ps, p + 1, v.rest))
  }

  function TupleRun(format: Format, ps: seq<PropertySpec>, t: nat, raw: Bytes): (r: Run)
    ensures |r.rest| <= |raw|
  {
    var values := PropertiesRun(format, ps, 0, raw);
    Then(Say(StartTuple(t), raw), Then(values, Say(EndTuple, values.rest)))
  }

  /** The tuples of an element, from the t-th on. */
  function TuplesRun(format: Format, e: ElementSpec, t: nat, raw: Bytes): (r: Run)
    requires t <= e.numTuples
    ensures |r.rest| <= |raw|
    decreases e.numTuples - t
  {
    if t == e.numTuples then Run([], raw, Complete)
    else
      var tuple := TupleRun(format, e.properties, t, raw);
      Then(tuple, TuplesRun(format, e, t + 1, tuple.rest))
  }

  function ElementRun(format: Format, es: seq<ElementSpec>, e: nat, raw: Bytes): (r: Run)
    requires e < |es|
    ensures |r.rest| <= |raw|
  {
    var tuples := TuplesRun(format, es[e], 0, raw);
    Then(Say(StartElement(e), raw), Then(tuples, Say(EndElement, tuples.rest)))
  }

  /** The elements from the e-th on. */
  function ElementsRun(format: Format, es: seq<ElementSpec>, e: nat, raw: Bytes): (r: Run)
    requires e <= |es|
    ensures |r.rest| <= |raw|
    decreases |es| - e
  {
    if e == |es| then Run([], raw, Complete)
    else
      var element := ElementRun(format, es, e, raw);
      Then(element, ElementsRun(format, es, e + 1, element.rest))
  }

  /** The whole body. */
  function Decode(h: Header, body: Bytes): Run {
    ElementsRun(h.format, h.elements, 0, body)
  }

  // ---- tuples and the buffer ----

  /** The bytes of a tuple, or of as much of it as is decoded. */
  function TupleSize(format: Format, ps: seq<PropertySpec>, raw: Bytes): nat {
    |raw| - |PropertiesRun(format, ps, 0, raw).rest|
  }

  /** No tuple is longer than the limit. */
  predicate TuplesFit(format: Format, e: ElementSpec, t: nat, raw: Bytes, limit: nat)
    requires t <= e.numTuples
    decreases e.numTuples - t
  {
    t < e.numTuples ==>
      TupleSize(format, e.properties, raw) <= limit &&
      (var tuple := TupleRun(format, e.properties, t, raw);
       tuple.ending == Complete ==> TuplesFit(format, e, t + 1, tuple.rest, limit))
  }

  predicate ElementsFit(format: Format, es: seq<ElementSpec>, e: nat, raw: Bytes, limit: nat)
    requires e <= |es|
    decreases |es| - e
  {
    e < |es| ==>
      TuplesFit(format, es[e], 0, raw, limit) &&
      (var element := ElementRun(format, es, e, raw);
       element.ending == Complete ==> ElementsFit(format, es, e + 1, element.rest, limit))
  }

  // ---- how many values there are ----

  /** The values delivered, list items not counted. */
  function Values(events: seq<Event>): nat {
    if events == [] then 0
    else
      var last := events[|events| - 1];
      Values(events[..|events| - 1]) + if last.OnScalarValue? || last.StartList? then 1 else 0
  }

  function Sum(es: seq<ElementSpec>, e: nat): nat
    requires e <= |es|
    decreases |es| - e
  {
    if e == |es| then 0 else es[e].numTuples * |es[e].properties| + Sum(es, e + 1)
  }

  lemma {:induction false} ValuesConcat(xs: seq<Event>, ys: seq<Event>)
    ensures Values(xs + ys) == Values(xs) + Values(ys)
    decreases |ys|
  {
    if ys == [] {
      assert xs + ys == xs;
    } else {
      var n := |ys| - 1;
      assert (xs + ys)[..|xs| + n] == xs + ys[..n] && (xs + ys)[|xs| + n] == ys[n];
      ValuesConcat(xs, ys[..n]);
    }
  }

  lemma ValuesThen(a: Run, b: Run)
    ensures Then(a, b).ending == Complete ==>
      a.ending == Complete && b.ending == Complete && Values(Then(a, b).events) == Values(a.events) + Values(b.events)
  {
    ValuesConcat(a.events, b.events);
  }

  lemma ValuesOne(event: Event)
    ensures Values([event]) == if event.OnScalarValue? || event.StartList? then 1 else 0
  {
    assert [event][..0] == [];
  }

  lemma {:induction false} ItemsNoValues(format: Format, t: PlyType, n: nat, raw: Bytes)
    ensures ItemsRun(format, t, n, raw).ending == Complete ==> Values(ItemsRun(format, t, n, raw).events) == 0
    decreases n
  {
    hide ReadScalar, Values;
    if n == 0 {
      NoValues();
    } else {
      match ReadScalar(format, t, raw)
      case Got(v, rest) =>
        ItemsNoValues(format, t, n - 1, rest);
        ValuesThen(Say(OnListItem(v), rest), ItemsRun(format, t, n - 1, rest));
        ValuesOne(OnListItem(v));
      case Fails(_, _) =>
      case Short =>
    }
  }

  lemma ListOnce(format: Format, t: PlyType, p: nat, n: nat, raw: Bytes)
    ensures ListRun(format, t, p, n, raw).ending == Complete ==> Values(ListRun(format, t, p, n, raw).events) == 1
  {
    hide ItemsRun, Values;
    var items := ItemsRun(format, t, n, raw);
    ItemsNoValues(format, t, n, raw);
    ValuesThen(items, Say(EndList, items.rest));
    ValuesThen(Say(StartList(p, n), raw), Then(items, Say(EndList, items.rest)));
    ValuesOne(StartList(p, n));
    ValuesOne(EndList);
  }

  lemma ValueOnce(format: Format, ps: seq<PropertySpec>, p: nat, raw: Bytes)
    requires p < |ps|
    ensures ValueRun(format, ps, p, raw).ending == Complete ==> Values(ValueRun(format, ps, p, raw).events) == 1
  {
    hide ReadValue, ListRun, Values;
    if ReadValue(format, ps[p], raw).Got? {
      var v, rest := ReadValue(format, ps[p], raw).value, ReadValue(format, ps[p], raw).rest;
      if ps[p].isList {
        ListOnce(format, ps[p].scalarType, p, Words.Value(v.word), rest);
      } else {
        ValuesOne(OnScalarValue(p, v));
      }
    }
  }

  lemma {:induction false} PropertiesCount(format: Format, ps: seq<PropertySpec>, p: nat, raw: Bytes)
    requires p <= |ps|
    ensures PropertiesRun(format, ps, p, raw).ending == Complete ==>
            Values(PropertiesRun(format, ps, p, raw).events) == |ps| - p
    decreases |ps| - p
  {
    hide ValueRun;
    if p < |ps| {
      var v := ValueRun(format, ps, p, raw);
      ValueOnce(format, ps, p, raw);
      PropertiesCount(format, ps, p + 1, v.rest);
      ValuesThen(v, PropertiesRun(format, ps, p + 1, v.rest));
    }
  }

  lemma TupleCounts(format: Format, ps: seq<PropertySpec>, t: nat, raw: Bytes)
    ensures TupleRun(format, ps, t, raw).ending == Complete ==> Values(TupleRun(format, ps, t, raw).events) == |ps|
  {
    hide PropertiesRun, Values;
    var values := PropertiesRun(format, ps, 0, raw);
    PropertiesCount(format, ps, 0, raw);
    ValuesThen(values, Say(EndTuple, values.rest));
    ValuesThen(Say(StartTuple(t), raw), Then(values, Say(EndTuple, values.rest)));
    ValuesOne(StartTuple(t));
    ValuesOne(EndTuple);
  }

  lemma {:induction false} TuplesCount(format: Format, e: ElementSpec, t: nat, raw: Bytes)
    requires t <= e.numTuples
    ensures TuplesRun(format, e, t, raw).ending == Complete ==>
      Values(TuplesRun(format, e, t, raw).events) == (e.numTuples - t) * |e.properties|
    decreases e.numTuples - t
  {
    hide TupleRun;
    if t < e.numTuples {
      var tuple := TupleRun(format, e.properties, t, raw);
      TupleCounts(format, e.properties, t, raw);
      TuplesCount(format, e, t + 1, tuple.rest);
      ValuesThen(tuple, TuplesRun(format, e, t + 1, tuple.rest));
      OneMore(e.numTuples - t - 1, |e.properties|);
    }
  }

  lemma OneMore(n: nat, k: nat)
    ensures (n + 1) * k == n * k + k
  {}

  lemma {:induction false} ElementsCount(format: Format, es: seq<ElementSpec>, e: nat, raw: Bytes)
    requires e <= |es|
    ensures ElementsRun(format, es, e, raw).ending == Complete ==>
            Values(ElementsRun(format, es, e, raw).events) == Sum(es, e)
    decreases |es| - e
  {
    hide TuplesRun, Values;
    if e < |es| {
      var tuples := TuplesRun(format, es[e], 0, raw);
      var element := ElementRun(format, es, e, raw);
      TuplesCount(format, es[e], 0, raw);
      ValuesThen(tuples, Say(EndElement, tuples.rest));
      ValuesThen(Say(StartElement(e), raw), Then(tuples, Say(EndElement, tuples.rest)));
      ValuesOne(StartElement(e));
      ValuesOne(EndElement);
      ElementsCount(format, es, e + 1, element.rest);
      ValuesThen(element, ElementsRun(format, es, e + 1, element.rest));
    } else {
      NoValues();
    }
  }

  lemma NoValues()
    ensures Values([]) == 0
  {}

  /** A complete body gives exactly one value for every property of every tuple of every element. */
  lemma ValuesCounted(h: Header, body: Bytes)
    requires Decode(h, body).ending == Complete
    ensures Values(Decode(h, body).events) == Sum(h.elements, 0)
  {
    ElementsCount(h.format, h.elements, 0, body);
  }
}
