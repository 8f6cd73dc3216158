/** Writing the body of a PLY file, and what the decoder makes of what was written. */
module PlyEncoder {
  import opened Words
  import opened PlyHeaderSpec
  import opened PlyScalar
  import opened PlyDecoder

  /** The value of a property in a tuple. */
  datatype Datum = One(value: Scalar) | Many(items: seq<Scalar>)

  /** A tuple has a value for each property, an element has tuples, a body has elements. */
  type TupleData = seq<Datum>
  type ElementData = seq<TupleData>

  // ---- what can be written ----

  predicate ScalarFits(t: PlyType, v: Scalar) {
    (v.Wide? <==> t == Float64) && Fits(t, v)
  }

  /** Lengths below this can be written in a length type: short signed types are read without their sign,
      a negative int32 is refused. */
  function LengthLimit(t: PlyType): nat {
    match t
    case Int8 => 0x100 case Uint8 => 0x100
    case Int16 => 0x1_0000 case Uint16 => 0x1_0000
    case Int32 => 0x8000_0000 case Uint32 => 0x1_0000_0000
    case _ => 0
  }

  predicate DatumFits(p: PropertySpec, d: Datum) {
    if d.One? then !p.isList && ScalarFits(p.scalarType, d.value)
    else
      p.isList && |d.items| < LengthLimit(p.lengthType) &&
      forall k :: 0 <= k < |d.items| ==> ScalarFits(p.scalarType, d.items[k])
  }

  predicate TupleFits(ps: seq<PropertySpec>, d: TupleData) {
    |d| == |ps| && forall p :: 0 <= p < |ps| ==> DatumFits(ps[p], d[p])
  }

  predicate ElementFits(e: ElementSpec, d: ElementData) {
    |d| == e.numTuples && forall t :: 0 <= t < |d| ==> TupleFits(e.properties, d[t])
  }

  predicate BodyFits(es: seq<ElementSpec>, d: seq<ElementData>) {
    |d| == |es| && forall e :: 0 <= e < |es| ==> ElementFits(es[e], d[e])
  }

  // ---- writing ----

  function WriteItems(format: Format, t: PlyType, items: seq<Scalar>): Bytes
    requires forall k :: 0 <= k < |items| ==> ScalarFits(t, items[k])
  {
    if items == [] then [] else
    assert ScalarFits(t, items[0]);
    WriteScalar(format, t, items[0]) + WriteItems(format, t, items[1..])
  }

  function WriteDatum(format: Format, p: PropertySpec, d: Datum): Bytes
    requires DatumFits(p, d)
  {
    if d.One? then WriteScalar(format, p.scalarType, d.value)
    else WriteScalar(format, p.lengthType, Narrow(Word(|d.items|))) + WriteItems(format, p.scalarType, d.items)
  }

  function WriteTuple(format: Format, ps: seq<PropertySpec>, d: TupleData, p: nat): Bytes
    requires TupleFits(ps, d) && p <= |ps|
    decreases |ps| - p
  {
    if p == |ps| then [] else WriteDatum(format, ps[p], d[p]) + WriteTuple(format, ps, d, p + 1)
  }

  function WriteElement(format: Format, e: ElementSpec, d: ElementData, t: nat): Bytes
    requires ElementFits(e, d) && t <= |d|
    decreases |d| - t
  {
    if t == |d| then [] else WriteTuple(format, e.properties, d[t], 0) + WriteElement(format, e, d, t + 1)
  }

  function WriteBody(format: Format, es: seq<ElementSpec>, d: seq<ElementData>, e: nat): Bytes
    requires BodyFits(es, d) && e <= |es|
    decreases |es| - e
  {
    if e == |es| then [] else WriteElement(format, es[e], d[e], 0) + WriteBody(format, es, d, e + 1)
  }

  // ---- the calls the data stand for ----

  function ItemCalls(items: seq<Scalar>): seq<Event> {
    if items == [] then [] else [OnListItem(items[0])] + ItemCalls(items[1..])
  }

  function DatumCalls(p: nat, d: Datum): seq<Event> {
    if d.One? then [OnScalarValue(p, d.value)] else [StartList(p, |d.items|)] + (ItemCalls(d.items) + [EndList])
  }

  function TupleCalls(d: TupleData, p: nat): seq<Event>
    requires p <= |d|
    decreases |d| - p
  {
    if p == |d| then [] else DatumCalls(p, d[p]) + TupleCalls(d, p + 1)
  }

  function ElementCalls(d: ElementData, t: nat): seq<Event>
    requires t <= |d|
    decreases |d| - t
  {
    if t == |d| then [] else ([StartTuple(t)] + (TupleCalls(d[t], 0) + [EndTuple])) + ElementCalls(d, t + 1)
  }

  function BodyCalls(d: seq<ElementData>, e: nat): seq<Event>
    requires e <= |d|
    decreases |d| - e
  {
    if e == |d| then [] else ([StartElement(e)] + (ElementCalls(d[e], 0) + [EndElement])) + BodyCalls(d, e + 1)
  }

  // ---- reading back ----

  predicate Binary(format: Format) {
    format == LittleEndian || format == BigEndian
  }

  lemma Regroup(a: Bytes, b: Bytes, c: Bytes)
    ensures (a + b) + c == a + (b + c)
  {}

  lemma {:induction false} ItemsReadBack(format: Format, t: PlyType, items: seq<Scalar>, rest: Bytes)
    requires Binary(format) && forall k :: 0 <= k < |items| ==> ScalarFits(t, items[k])
    ensures ItemsRun(format, t, |items|, WriteItems(format, t, items) + rest) == Run(ItemCalls(items), rest, Complete)
  {
    hide ReadScalar, WriteScalar, Fits;
    if items == [] {
      assert [] + rest == rest;
    } else {
      var behind := WriteItems(format, t, items[1..]);
      Regroup(WriteScalar(format, t, items[0]), behind, rest);
      ReadsBack(format, t, items[0], behind + rest);
      ItemsReadBack(format, t, items[1..], rest);
    }
  }

  /** A length that fits its type is read back as it is, and is not refused. */
  lemma LengthReadsBack(format: Format, p: PropertySpec, n: nat, rest: Bytes)
    requires Binary(format) && p.isList && n < LengthLimit(p.lengthType)
    ensures p.lengthType != Float64
    ensures ReadValue(format, p, WriteScalar(format, p.lengthType, Narrow(Word(n))) + rest) ==
            Got(Narrow(Word(n)), rest)
    ensures Words.Value(Word(n)) == n
  {
    hide ReadScalar, WriteScalar, Word, Words.Value, Words.Int32;
    ValueOfWord(n);
    LengthFits(p.lengthType, n);
    ReadsBack(format, p.lengthType, Narrow(Word(n)), rest);
    if Signed(p.lengthType) { LengthNotNegative(n); }
  }

  lemma LengthNotNegative(n: nat)
    requires n < 0x8000_0000
    ensures Words.Int32(Word(n)) >= 0
  {
    hide Word, Words.Int32;
    Int32OfWord(n);
  }

  lemma LengthFits(t: PlyType, n: nat)
    requires n < LengthLimit(t)
    ensures Fits(t, Narrow(Word(n)))
  {
    hide Word;
    if n < 0x100 { ByteWord(n); }
    if n < 0x1_0000 { ShortWord(n); }
  }

  lemma ByteWord(n: nat)
    requires n < 0x100
    ensures OneByteWide(Word(n)) && TwoBytesWide(Word(n))
  {
    hide Byte, Join;
    ShortWord(n);
    assert n / 0x100 == 0;
    ZeroByte();
    OneJoined(Byte(n % 256));
  }

  lemma ShortWord(n: nat)
    requires n < 0x1_0000
    ensures TwoBytesWide(Word(n))
    ensures Word(n) == Join(Byte(n % 256), Byte(n / 0x100 % 256), 0, 0)
  {
    hide Byte, Join;
    assert n / 0x1_0000 == 0 && n / 0x100_0000 == 0;
    ZeroByte();
    TwoJoined(Byte(n % 256), Byte(n / 0x100 % 256));
  }

  lemma ZeroByte()
    ensures Byte(0) == 0
  {}

  lemma OneJoined(a: byte)
    ensures OneByteWide(Join(a, 0, 0, 0))
  {}

  lemma TwoJoined(a: byte, b: byte)
    ensures TwoBytesWide(Join(a, b, 0, 0))
  {}

  lemma DatumReadsBack(format: Format, ps: seq<PropertySpec>, p: nat, d: Datum, rest: Bytes)
    requires Binary(format) && p < |ps| && DatumFits(ps[p], d)
    ensures ValueRun(format, ps, p, WriteDatum(format, ps[p], d) + rest) == Run(DatumCalls(p, d), rest, Complete)
  {
    hide ReadScalar, WriteScalar, ItemsRun, ItemCalls, WriteItems, Word, Words.Value, Words.Int32, Fits, LengthLimit;
    if d.One? {
      ReadsBack(format, ps[p].scalarType, d.value, rest);
    } else {
      hide ReadValue;
      var n, items := |d.items|, WriteItems(format, ps[p].scalarType, d.items);
      LengthReadsBack(format, ps[p], n, items + rest);
      Regroup(WriteScalar(format, ps[p].lengthType, Narrow(Word(n))), items, rest);
      ItemsReadBack(format, ps[p].scalarType, d.items, rest);
    }
  }

  lemma {:induction false} TupleReadsBack(format: Format, ps: seq<PropertySpec>, d: TupleData, p: nat, rest: Bytes)
    requires Binary(format) && TupleFits(ps, d) && p <= |ps|
    ensures PropertiesRun(format, ps, p, WriteTuple(format, ps, d, p) + rest) == Run(TupleCalls(d, p), rest, Complete)
    decreases |ps| - p
  {
    hide ValueRun, WriteDatum, DatumCalls, DatumFits;
    if p == |ps| {
      assert [] + rest == rest;
    } else {
      var behind := WriteTuple(format, ps, d, p + 1);
      Regroup(WriteDatum(format, ps[p], d[p]), behind, rest);
      DatumReadsBack(format, ps, p, d[p], behind + rest);
      TupleReadsBack(format, ps, d, p + 1, rest);
    }
  }

  lemma {:induction false} ElementReadsBack(format: Format, e: ElementSpec, d: ElementData, t: nat, rest: Bytes)
    requires Binary(format) && ElementFits(e, d) && t <= |d|
    ensures TuplesRun(format, e, t, WriteElement(format, e, d, t) + rest) == Run(ElementCalls(d, t), rest, Complete)
    decreases |d| - t
  {
    hide PropertiesRun, WriteTuple, TupleCalls, TupleFits;
    if t == |d| {
      assert [] + rest == rest;
    } else {
      var behind := WriteElement(format, e, d, t + 1);
      Regroup(WriteTuple(format, e.properties, d[t], 0), behind, rest);
      TupleReadsBack(format, e.properties, d[t], 0, behind + rest);
      ElementReadsBack(format, e, d, t + 1, rest);
    }
  }

  lemma {:induction false} BodyReadsBack(format: Format, es: seq<ElementSpec>, d: seq<ElementData>, e: nat, rest: Bytes)
    requires Binary(format) && BodyFits(es, d) && e <= |es|
    ensures ElementsRun(format, es, e, WriteBody(format, es, d, e) + rest) == Run(BodyCalls(d, e), rest, Complete)
    decreases |es| - e
  {
    hide TuplesRun, WriteElement, ElementCalls, ElementFits;
    if e == |es| {
      assert [] + rest == rest;
    } else {
      var behind := WriteBody(format, es, d, e + 1);
      Regroup(WriteElement(format, es[e], d[e], 0), behind, rest);
      ElementReadsBack(format, es[e], d[e], 0, behind + rest);
      BodyReadsBack(format, es, d, e + 1, rest);
    }
  }

  /** Round trip: for all data that fit the header, in both byte orders and whatever follows them in the
      file, the decoder makes exactly the calls the data stand for, and stops where they end. */
  lemma RoundTrip(h: Header, d: seq<ElementData>, rest: Bytes)
    requires Binary(h.format) && BodyFits(h.elements, d)
    ensures Decode(h, WriteBody(h.format, h.elements, d, 0) + rest) == Run(BodyCalls(d, 0), rest, Complete)
  {
    BodyReadsBack(h.format, h.elements, d, 0, rest);
  }
}
