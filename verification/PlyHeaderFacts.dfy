/** What holds of every header that parses: it describes the elements its lines group into, and it takes
    nothing from the body. */
module PlyHeaderFacts {
  import opened Wrappers
  import opened Words
  import opened PlyTokens
  import opened PlyHeaderSpec

  /** The header's lines as tokens, up to the one that ends it. */
  function TokenLines(rest: Bytes): seq<seq<Bytes>>
    decreases |rest|
  {
    var n := LineEnd(rest);
    if n == |rest| then []
    else
      var ts := Tokens(rest[..n], SPACE, 0);
      if ts != [] && ts[0] == Name("end_header") then [] else [ts] + TokenLines(rest[n + 1..])
  }

  predicate Starts(ts: seq<Bytes>, word: string) {
    ts != [] && ts[0] == Name(word)
  }

  /** An `element` line, and what it says. */
  predicate IsElement(ts: seq<Bytes>) {
    Starts(ts, "element") && |ts| == 3 && TupleCount(ts[2]).Some?
  }

  predicate IsProperty(ts: seq<Bytes>) {
    Starts(ts, "property") && PropertyOf(ts[1..]).Some?
  }

  /** The properties listed before the next element begins. */
  function PropertiesFirst(ls: seq<seq<Bytes>>): seq<PropertySpec> {
    if ls == [] || Starts(ls[0], "element") then []
    else if IsProperty(ls[0]) then [PropertyOf(ls[0][1..]).value.0] + PropertiesFirst(ls[1..])
    else PropertiesFirst(ls[1..])
  }

  /** One element for each `element` line, with the properties listed under it. */
  function Groups(ls: seq<seq<Bytes>>): seq<ElementSpec> {
    if ls == [] then []
    else if IsElement(ls[0]) then
      [ElementSpec(Cut(ls[0][1]), TupleCount(ls[0][2]).value, PropertiesFirst(ls[1..]))] + Groups(ls[1..])
    else Groups(ls[1..])
  }

  /** The last format named. */
  function FormatSaid(ls: seq<seq<Bytes>>, before: Format): Format {
    if ls == [] then before
    else if Starts(ls[0], "format") && |ls[0]| > 1 && FormatOf(ls[0][1]).Some?
    then FormatSaid(ls[1..], FormatOf(ls[0][1]).value)
    else FormatSaid(ls[1..], before)
  }

  /** More properties for the last of these elements. */
  function Extended(es: seq<ElementSpec>, ps: seq<PropertySpec>): seq<ElementSpec> {
    if es == [] then []
    else
      var last := es[|es| - 1];
      es[..|es| - 1] + [last.(properties := last.properties + ps)]
  }

  ghost predicate Follows(h: Header, ls: seq<seq<Bytes>>, o: Outcome) {
    o.Parsed? ==>
      && o.header.elements == Extended(h.elements, PropertiesFirst(ls)) + Groups(ls)
      && o.header.format == FormatSaid(ls, h.format)
      && (h.elements == [] ==> PropertiesFirst(ls) == [])
  }

  lemma ExtendedByNothing(es: seq<ElementSpec>)
    ensures Extended(es, []) == es
  {
    if es != [] {
      var last := es[|es| - 1];
      assert last.properties + [] == last.properties;
      assert last.(properties := last.properties) == last;
    }
  }

  /** The keywords are different words. */
  lemma Keywords()
    ensures |Name("element")| == 7 && |Name("property")| == 8 && |Name("format")| == 6 && |Name("comment")| == 7
    ensures Name("element") != Name("comment")
  {
    hide Byte;
    KeywordsDiffer();
    assert Name("element")[0] == Byte(101) && Name("comment")[0] == Byte(99);
  }

  lemma KeywordsDiffer()
    ensures Byte(101) != Byte(99)
  {
    ValueOfByte(101);
    ValueOfByte(99);
  }

  /** What one line adds, for what follows. */
  lemma LineFollows(h: Header, ts: seq<Bytes>, ls: seq<seq<Bytes>>, o: Outcome)
    requires HeaderLine(h, ts).Next? && Follows(HeaderLine(h, ts).header, ls, o)
    ensures Follows(h, [ts] + ls, o)
  {
    hide PropertyOf, TupleCount, FormatOf, Reserve, Name;
    Keywords();
    var all := [ts] + ls;
    assert all[0] == ts && all[1..] == ls;
    if o.Parsed? {
      if Starts(ts, "element") {
        ElementAdds(h, ts);
        ElementFollows(h, ts, ls);
      } else if Starts(ts, "property") {
        PropertyFollows(h, ts, ls);
      } else if Starts(ts, "format") {
        assert ts[1..][0] == ts[1];
      }
    }
  }

  /** What an `element` line adds. */
  lemma ElementAdds(h: Header, ts: seq<Bytes>)
    requires HeaderLine(h, ts).Next? && Starts(ts, "element")
    ensures IsElement(ts) && HeaderLine(h, ts).header.format == h.format
    ensures var e := ElementSpec(Cut(ts[1]), TupleCount(ts[2]).value, []);
            HeaderLine(h, ts).header.elements == h.elements + [e] && HeaderLine(h, ts).header.elements != []
  {
    hide PropertyOf, TupleCount, FormatOf, Reserve, Name;
    Keywords();
    assert ts[1..][0] == ts[1] && ts[1..][1] == ts[2];
  }

  lemma LastExtended(es: seq<ElementSpec>, e: ElementSpec, ps: seq<PropertySpec>)
    requires e.properties == []
    ensures Extended(es + [e], ps) == es + [e.(properties := ps)]
  {
    assert (es + [e])[..|es|] == es && [] + ps == ps;
  }

  lemma GroupBegins(ts: seq<Bytes>, ls: seq<seq<Bytes>>)
    requires IsElement(ts)
    ensures Groups([ts] + ls) ==
            [ElementSpec(Cut(ts[1]), TupleCount(ts[2]).value, PropertiesFirst(ls))] + Groups(ls)
  {
    hide TupleCount, Name;
    assert ([ts] + ls)[1..] == ls;
  }

  lemma ElementFollows(h: Header, ts: seq<Bytes>, ls: seq<seq<Bytes>>)
    requires HeaderLine(h, ts).Next? && Starts(ts, "element")
    ensures Extended(HeaderLine(h, ts).header.elements, PropertiesFirst(ls)) + Groups(ls) ==
            h.elements + Groups([ts] + ls)
    ensures Extended(h.elements, []) == h.elements
  {
    hide HeaderLine, TupleCount, Groups, Extended, PropertiesFirst;
    ElementAdds(h, ts);
    ExtendedByNothing(h.elements);
    LastExtended(h.elements, ElementSpec(Cut(ts[1]), TupleCount(ts[2]).value, []), PropertiesFirst(ls));
    GroupBegins(ts, ls);
  }

  lemma PropertyFollows(h: Header, ts: seq<Bytes>, ls: seq<seq<Bytes>>)
    requires HeaderLine(h, ts).Next? && Starts(ts, "property")
    ensures IsProperty(ts) && h.elements != [] && HeaderLine(h, ts).header.format == h.format
    ensures HeaderLine(h, ts).header.elements == AddProperty(h.elements, PropertyOf(ts[1..]).value.0)
    ensures Extended(HeaderLine(h, ts).header.elements, PropertiesFirst(ls)) ==
            Extended(h.elements, PropertiesFirst([ts] + ls))
    ensures HeaderLine(h, ts).header.elements != []
  {
    hide PropertyOf, TupleCount, FormatOf, Reserve, Name;
    Keywords();
    assert ([ts] + ls)[1..] == ls;
    var p := PropertyOf(ts[1..]).value.0;
    var es, last := h.elements, h.elements[|h.elements| - 1];
    assert (last.properties + [p]) + PropertiesFirst(ls) == last.properties + ([p] + PropertiesFirst(ls));
    assert AddProperty(es, p)[..|es| - 1] == es[..|es| - 1];
  }

  lemma {:induction false} LinesFollow(h: Header, rest: Bytes, good: Reads)
    ensures Follows(h, TokenLines(rest), Lines(h, rest, good))
    decreases |rest|
  {
    hide HeaderLine, Tokens, Name;
    var n := LineEnd(rest);
    if !Failing(good) && n < |rest| && n < MIN_BUFFER_CAPACITY && rest[n] != 0 {
      var ts := Tokens(rest[..n], SPACE, 0);
      EndOfHeader(h, ts);
      match HeaderLine(h, ts)
      case Next(h') =>
        LinesFollow(h', rest[n + 1..], Less(good, 1));
        LineFollows(h, ts, TokenLines(rest[n + 1..]), Lines(h, rest, good));
      case Last =>
        ExtendedByNothing(h.elements);
        assert TokenLines(rest) == [];
      case Refused(_) =>
      case Full =>
    }
  }

  lemma EndOfHeader(h: Header, ts: seq<Bytes>)
    ensures HeaderLine(h, ts).Last? <==> Starts(ts, "end_header")
  {
    hide FormatPart, ElementPart, PropertyPart, Name;
  }

  /** A header that parses describes exactly the elements its lines group into, in order, each with the
      properties listed under it, and the format named last. */
  lemma HeaderIsGrouping(file: Bytes, memorySize: nat, good: Reads)
    requires FileHeader(file, memorySize, good).Parsed?
    ensures var h, ls := FileHeader(file, memorySize, good).header, TokenLines(file[4..]);
            h.elements == Groups(ls) && h.format == FormatSaid(ls, Format.Unknown)
  {
    LinesFollow(Start(memorySize), file[4..], Less(good, 1));
  }

  /** The end of the input behind some newline. */
  predicate BehindNewline(rest: Bytes, body: Bytes) {
    |body| < |rest| && body == rest[|rest| - |body|..] && rest[|rest| - |body| - 1] == NEWLINE
  }

  /** The body is the end of the file, and it starts behind a newline. */
  lemma {:induction false} BodyIsRest(h: Header, rest: Bytes, good: Reads)
    requires Lines(h, rest, good).Parsed?
    ensures BehindNewline(rest, Lines(h, rest, good).body)
    decreases |rest|
  {
    hide HeaderLine, Tokens, BehindNewline;
    var n := LineEnd(rest);
    match HeaderLine(h, Tokens(rest[..n], SPACE, 0))
    case Next(h') =>
      BodyIsRest(h', rest[n + 1..], Less(good, 1));
      BehindLater(rest, n + 1, Lines(h', rest[n + 1..], Less(good, 1)).body);
    case Last => BehindFirst(rest, n);
  }

  lemma BehindFirst(rest: Bytes, n: nat)
    requires n < |rest| && rest[n] == NEWLINE
    ensures BehindNewline(rest, rest[n + 1..])
  {}

  lemma BehindLater(rest: Bytes, from: nat, body: Bytes)
    requires from <= |rest| && BehindNewline(rest[from..], body)
    ensures BehindNewline(rest, body)
  {}

  lemma InputConserved(file: Bytes, memorySize: nat, good: Reads)
    requires FileHeader(file, memorySize, good).Parsed?
    ensures var body := FileHeader(file, memorySize, good).body;
            |body| < |file| && file == file[..|file| - |body|] + body
  {
    BodyIsRest(Start(memorySize), file[4..], Less(good, 1));
  }

  lemma LineWellMade(h: Header, ts: seq<Bytes>)
    requires HeaderLine(h, ts).Next? && WellMade(h)
    ensures WellMade(HeaderLine(h, ts).header)
  {
    hide PropertyOf, TupleCount, FormatOf, Name, ElementWellMade;
    if Starts(ts, "element") {
      ElementAdds(h, ts);
      NewWellMade(ts);
    } else if Starts(ts, "property") {
      PropertyFollows(h, ts, []);
      GrownWellMade(h.elements[|h.elements| - 1], ts[1..]);
    }
  }

  lemma NewWellMade(ts: seq<Bytes>)
    requires |ts| >= 3 && TupleCount(ts[2]).Some?
    ensures ElementWellMade(ElementSpec(Cut(ts[1]), TupleCount(ts[2]).value, []))
  {}

  lemma GrownWellMade(e: ElementSpec, ts: seq<Bytes>)
    requires ElementWellMade(e) && PropertyOf(ts).Some?
    ensures ElementWellMade(e.(properties := e.properties + [PropertyOf(ts).value.0]))
  {}

  lemma {:induction false} LinesWellMade(h: Header, rest: Bytes, good: Reads)
    requires WellMade(h) && Lines(h, rest, good).Parsed?
    ensures WellMade(Lines(h, rest, good).header)
    decreases |rest|
  {
    hide HeaderLine, Tokens, WellMade;
    var n := LineEnd(rest);
    var ts := Tokens(rest[..n], SPACE, 0);
    match HeaderLine(h, ts)
    case Next(h') =>
      LineWellMade(h, ts);
      LinesWellMade(h', rest[n + 1..], Less(good, 1));
    case Last =>
  }

  /** Names fit their fields, tuple counts fit an unsigned long, list lengths are never floating-point. */
  lemma HeaderWellMade(file: Bytes, memorySize: nat, good: Reads)
    requires FileHeader(file, memorySize, good).Parsed?
    ensures WellMade(FileHeader(file, memorySize, good).header)
  {
    LinesWellMade(Start(memorySize), file[4..], Less(good, 1));
  }

  // ---- reads that fail ----

  /** The reads the lines of a header take, if none fails. */
  function LineReads(h: Header, rest: Bytes): nat
    decreases |rest|
  {
    var n := LineEnd(rest);
    if n == |rest| || n >= MIN_BUFFER_CAPACITY || rest[n] == 0 then 1
    else
      match HeaderLine(h, Tokens(rest[..n], SPACE, 0))
      case Next(h') => 1 + LineReads(h', rest[n + 1..])
      case _ => 1
  }

  /** One read for the first bytes, and one before each line. */
  function HeaderReads(file: Bytes, memorySize: nat): nat {
    if |file| < 4 || file[..4] != Name("ply\n") then 1 else 1 + LineReads(Start(memorySize), file[4..])
  }

  predicate ReadFails(good: Reads, n: nat) {
    good.Some? && good.value < n
  }

  /** The outcome, when n reads were taken. */
  function Taking(o: Outcome, good: Reads, n: nat): Outcome {
    if o.Parsed? then o.(good := Less(good, n)) else o
  }

  lemma {:induction false} LinesRead(h: Header, rest: Bytes, good: Reads)
    ensures Lines(h, rest, None) != Failed(PLY_ERR_READ)
    ensures Lines(h, rest, good) == if ReadFails(good, LineReads(h, rest)) then Failed(PLY_ERR_READ)
                                    else Taking(Lines(h, rest, None), good, LineReads(h, rest))
    decreases |rest|
  {
    hide HeaderLine, Tokens;
    var n := LineEnd(rest);
    if n < |rest| && n < MIN_BUFFER_CAPACITY && rest[n] != 0 {
      var ts := Tokens(rest[..n], SPACE, 0);
      RefusedSyntax(h, ts);
      match HeaderLine(h, ts)
      case Next(h') => LinesRead(h', rest[n + 1..], Less(good, 1));
      case _ =>
    }
  }

  lemma RefusedSyntax(h: Header, ts: seq<Bytes>)
    ensures HeaderLine(h, ts).Refused? ==> HeaderLine(h, ts).code == PLY_ERR_SYNTAX
  {
    hide Name, FormatOf, TupleCount, PropertyOf, Reserve;
  }

  /** A header ends in a read error if and only if a read fails that it takes; otherwise it comes out as if
      no read ever failed. */
  lemma ReadErrorExactly(file: Bytes, memorySize: nat, good: Reads)
    ensures FileHeader(file, memorySize, good) == Failed(PLY_ERR_READ) <==>
            ReadFails(good, HeaderReads(file, memorySize))
    ensures !ReadFails(good, HeaderReads(file, memorySize)) ==>
            FileHeader(file, memorySize, good) ==
            Taking(FileHeader(file, memorySize, None), good, HeaderReads(file, memorySize))
  {
    hide Lines, LineReads, Name, Start;
    if |file| >= 4 { LinesRead(Start(memorySize), file[4..], Less(good, 1)); }
  }
}
