/** A whole file: its header is parsed and its body goes to the callbacks, through one small memory. */
module PlyFile {
  import opened Words
  import opened PlyHeaderSpec
  import opened PlyDecoder
  import opened PlyWindow
  import opened PlyDelivery
  import opened PlyEncoder
  import opened PlyHeader
  import opened PlyPositions
  import opened PlyDriver
  import opened PlyHeaderText

  /** The body can be read by the driver, if the header parses. */
  predicate Drivable(o: Outcome) {
    o.Parsed? ==> o.header.format != Ascii && EmptiesLast(o.header.elements, 0)
  }

  /** ply_process_header and, if that goes well, ply_process_with_callbacks. From the bytes of the file, the
      reads that go well and the memory alone follows what the callbacks are called with and what comes out. */
  method ProcessFile(memory: array<byte>, file: Bytes, good: Reads, h: Handler) returns (s: Status, d: Delivery)
    requires MIN_BUFFER_CAPACITY <= memory.Length && Drivable(FileHeader(file, memory.Length, good))
    modifies memory
    ensures match FileHeader(file, memory.Length, good)
            case Parsed(known, body, left) => s == Code(0) && d == Delivered([], Through(known, body, left), h)
            case Failed(code) => s == Code(code) && code < 0 && d.calls == []
            case OutOfMemory => s == Undefined && d.calls == []
            case Unspecified => s == Undefined && d.calls == []
  {
    hide FileHeader, Through, Delivered, EmptiesLast;
    var source := new Source(file, good);
    var ply := new Parser(memory, source);
    d := Delivery([], 0, false);
    s := ply.ProcessHeader();
    if s == Code(0) {
      d := ProcessWithCallbacks(ply, h, ply.Known());
    }
  }

  // ---- files that were written ----

  predicate TuplesShort(format: Format, e: ElementSpec, d: ElementData, t: nat, limit: nat)
    requires ElementFits(e, d)
  {
    forall k :: t <= k < |d| ==> |WriteTuple(format, e.properties, d[k], 0)| <= limit
  }

  /** No tuple takes more bytes than this. */
  predicate AllShort(format: Format, es: seq<ElementSpec>, d: seq<ElementData>, e: nat, limit: nat)
    requires BodyFits(es, d)
  {
    forall k :: e <= k < |d| ==> TuplesShort(format, es[k], d[k], 0, limit)
  }

  lemma {:induction false} ElementShort(format: Format, e: ElementSpec, d: ElementData, t: nat, rest: Bytes, limit: nat)
    requires Binary(format) && ElementFits(e, d) && t <= |d| && TuplesShort(format, e, d, t, limit)
    ensures TuplesFit(format, e, t, WriteElement(format, e, d, t) + rest, limit)
    decreases |d| - t
  {
    hide PropertiesRun, WriteTuple, TupleCalls, TupleFits;
    if t < |d| {
      var behind := WriteElement(format, e, d, t + 1);
      Regroup(WriteTuple(format, e.properties, d[t], 0), behind, rest);
      TupleReadsBack(format, e.properties, d[t], 0, behind + rest);
      ElementShort(format, e, d, t + 1, rest, limit);
    }
  }

  lemma {:induction false} BodyShort(format: Format, es: seq<ElementSpec>,
                                     d: seq<ElementData>, e: nat, rest: Bytes, limit: nat)
    requires Binary(format) && BodyFits(es, d) && e <= |es| && AllShort(format, es, d, e, limit)
    ensures ElementsFit(format, es, e, WriteBody(format, es, d, e) + rest, limit)
    decreases |es| - e
  {
    hide TuplesRun, TuplesFit, WriteElement, ElementCalls, ElementFits, TuplesShort;
    if e < |es| {
      var behind := WriteBody(format, es, d, e + 1);
      Regroup(WriteElement(format, es[e], d[e], 0), behind, rest);
      ElementShort(format, es[e], d[e], 0, behind + rest, limit);
      ElementReadsBack(format, es[e], d[e], 0, behind + rest);
      BodyShort(format, es, d, e + 1, rest, limit);
    }
  }

  /** A file whose body was written for its header comes out as the data that were written: for all data that
      fit the header, whatever follows them in the file, if no tuple is longer than the memory left and no
      read fails that the body takes. The calls go on to the first callback that answers with an error. */
  lemma WrittenFile(file: Bytes, memorySize: nat, good: Reads, data: seq<ElementData>, tail: Bytes, h: Handler)
    requires FileHeader(file, memorySize, good).Parsed?
    requires var known := FileHeader(file, memorySize, good).header;
             Binary(known.format) && BodyFits(known.elements, data) &&
             AllShort(known.format, known.elements, data, 0, known.memoryBreak)
    requires var Parsed(known, body, left) := FileHeader(file, memorySize, good);
             body == WriteBody(known.format, known.elements, data, 0) + tail &&
             GoWell(left, AllReads(known.elements, 0))
    ensures var Parsed(known, body, left) := FileHeader(file, memorySize, good);
            var (calls, code) := Deliver([], BodyCalls(data, 0), h);
            Delivered([], Through(known, body, left), h) == Delivery(calls, code, false)
  {
    hide FileHeader, Through, WriteBody, BodyCalls, AllReads, ElementsFit;
    var Parsed(known, body, left) := FileHeader(file, memorySize, good);
    BodyShort(known.format, known.elements, data, 0, tail, known.memoryBreak);
    ThroughDecodes(known, body, left);
    RoundTrip(known, data, tail);
  }

  /** The same for a header and a body that were written: from the data alone follow the calls, whatever comes
      behind them in the file. */
  lemma FileReadsBack(d: HeaderText, data: seq<ElementData>, tail: Bytes, memorySize: nat, good: Reads, h: Handler)
    requires Good(d) && d.coding != Text
    requires memorySize >= 1024 && memorySize - memorySize % 16 >= 1024 + Room(d.elements)
    requires var format, es := FormatMeant(d.coding), ElementsMeant(d.elements);
             BodyFits(es, data) && Enough(good, ReadsTaken(d) + AllReads(es, 0)) &&
             AllShort(format, es, data, 0, memorySize - memorySize % 16 - Room(d.elements))
    ensures var format, es := FormatMeant(d.coding), ElementsMeant(d.elements);
            var body := WriteBody(format, es, data, 0) + tail;
            var known := Header(format, es, memorySize - memorySize % 16 - Room(d.elements));
            var left := Less(good, ReadsTaken(d));
            var (calls, code) := Deliver([], BodyCalls(data, 0), h);
            && FileHeader(Written(d, body), memorySize, good) == Parsed(known, body, left)
            && Delivered([], Through(known, body, left), h) == Delivery(calls, code, false)
  {
    hide FileHeader, Through, WriteBody, BodyCalls, AllReads, BodyFits, AllShort, Good;
    hide ElementsMeant, Room, Delivered, Written, ReadsTaken;
    var body := WriteBody(FormatMeant(d.coding), ElementsMeant(d.elements), data, 0) + tail;
    HeaderReadsBack(d, body, memorySize, good);
    WrittenFile(Written(d, body), memorySize, good, data, tail, h);
  }
}
