/** What a PLY header says, as a fold over its lines. */
module PlyHeaderSpec {
  import opened Wrappers
  import opened Words
  import opened PlyTokens

  const PLY_ERR_READ := -130
  const PLY_ERR_SYNTAX := -140
  const PLY_ERR_INTERNAL := -150

  const MIN_BUFFER_CAPACITY := 1024
  const MAX_NAME := 32

  /** Sizes of the records on a platform with 8-byte pointers and longs. */
  const ELEMENT_SIZE := 72
  const PROPERTY_SIZE := 56

  const ULONG_MAX: nat := 0xFFFF_FFFF_FFFF_FFFF

  const SPACE: byte := 32
  const NEWLINE: byte := 10

  datatype PlyType = Int8 | Uint8 | Int16 | Uint16 | Int32 | Uint32 | Float32 | Float64

  datatype Format = Unknown | Ascii | LittleEndian | BigEndian

  datatype PropertySpec = PropertySpec(name: Bytes, isList: bool, lengthType: PlyType, scalarType: PlyType)

  datatype ElementSpec = ElementSpec(name: Bytes, numTuples: nat, properties: seq<PropertySpec>)

  /** What the header lines so far said, and where the records made for them begin. */
  datatype Header = Header(format: Format, elements: seq<ElementSpec>, memoryBreak: nat)

  /** The bytes of a name in the source's character set. */
  function Name(s: string): Bytes {
    seq(|s|, k requires 0 <= k < |s| => Byte(s[k] as int % 256))
  }

  // ---- pieces of a line ----

  /** Both names of each type, in the order of the types. */
  function TypeNames(): seq<(string, string)> {
    [("int8", "char"), ("uint8", "uchar"), ("int16", "short"), ("uint16", "ushort"),
     ("int32", "int"), ("uint32", "uint"), ("float32", "float"), ("float64", "double")]
  }

  function TypeAt(i: nat): PlyType {
    match i
    case 0 => Int8 case 1 => Uint8 case 2 => Int16 case 3 => Uint16
    case 4 => Int32 case 5 => Uint32 case 6 => Float32 case _ => Float64
  }

  predicate Names(token: Bytes, i: nat)
    requires i < 8
  {
    token == Name(TypeNames()[i].0) || token == Name(TypeNames()[i].1)
  }

  function TypeFrom(token: Bytes, i: nat): Option<PlyType>
    requires i <= 8
    decreases 8 - i
  {
    if i == 8 then None else if Names(token, i) then Some(TypeAt(i)) else TypeFrom(token, i + 1)
  }

  function TypeOf(token: Bytes): Option<PlyType> {
    TypeFrom(token, 0)
  }

  /** A name is kept up to its 31st byte. */
  function Cut(token: Bytes): (name: Bytes)
    ensures |name| < MAX_NAME
  {
    if |token| < MAX_NAME then token else token[..MAX_NAME - 1]
  }

  predicate IsSpace(b: byte) {
    b == 32 || b == 9 || b == 10 || b == 11 || b == 12 || b == 13
  }

  predicate IsDigit(b: byte) {
    48 <= b <= 57
  }

  function SkipSpaces(s: Bytes, from: nat): (n: nat)
    requires from <= |s|
    ensures from <= n <= |s|
    decreases |s| - from
  {
    if from < |s| && IsSpace(s[from]) then SkipSpaces(s, from + 1) else from
  }

  function SkipDigits(s: Bytes, from: nat): (n: nat)
    requires from <= |s|
    ensures from <= n <= |s|
    decreases |s| - from
  {
    if from < |s| && IsDigit(s[from]) then SkipDigits(s, from + 1) else from
  }

  function Decimal(s: Bytes): nat {
    if s == [] then 0 else 10 * Decimal(s[..|s| - 1]) + ByteValue(s[|s| - 1] - 48)
  }

  /** strtoul in base ten on a whole token: nothing if anything is left over or there is no digit. A number
      too large gives the largest, one with a minus sign wraps around. */
  function TupleCount(token: Bytes): Option<nat> {
    var start := SkipSpaces(token, 0);
    var signed := start < |token| && (token[start] == 43 || token[start] == 45);
    var first := if signed then start + 1 else start;
    var end := SkipDigits(token, first);
    if first == end || end < |token| then None
    else
      var n := Decimal(token[first..end]);
      Some(if n > ULONG_MAX then ULONG_MAX else if signed && token[start] == 45 && n > 0 then ULONG_MAX + 1 - n else n)
  }

  function FormatOf(token: Bytes): Option<Format> {
    if token == Name("ascii") then Some(Ascii)
    else if token == Name("binary_little_endian") then Some(LittleEndian)
    else if token == Name("binary_big_endian") then Some(BigEndian)
    else None
  }

  // ---- records ----

  function Align(n: nat): (m: nat)
    ensures m <= n < m + 16 && m % 16 == 0
  {
    n - n % 16
  }

  /** Where ply_reserve puts a record, if it does. */
  function Reserve(memoryBreak: nat, size: nat): (at: Option<nat>)
    ensures at.Some? ==> MIN_BUFFER_CAPACITY <= at.value && at.value + size <= memoryBreak && at.value % 16 == 0
  {
    if memoryBreak < MIN_BUFFER_CAPACITY + size then None else Some(Align(memoryBreak - size))
  }

  // ---- lines ----

  /** How a part of a line comes out: the header with what it adds and the tokens left, an error code, or
      a record the memory has no room for. */
  datatype Part = Part(header: Header, rest: seq<Bytes>) | Bad(code: int) | NoRoom

  function FormatPart(h: Header, ts: seq<Bytes>): Part {
    if |ts| == 0 || FormatOf(ts[0]).None? || |ts| == 1 || ts[1] != Name("1.0") then Bad(PLY_ERR_SYNTAX)
    else Part(h.(format := FormatOf(ts[0]).value), ts[2..])
  }

  /** A line without another token is refused before the record it asked for is touched. */
  function ElementPart(h: Header, ts: seq<Bytes>): Part {
    var at := Reserve(h.memoryBreak, ELEMENT_SIZE);
    if ts == [] then Bad(PLY_ERR_SYNTAX)
    else if at.None? then NoRoom
    else if |ts| < 2 || TupleCount(ts[1]).None? then Bad(PLY_ERR_SYNTAX)
    else Part(Header(h.format, h.elements + [ElementSpec(Cut(ts[0]), TupleCount(ts[1]).value, [])], at.value), ts[2..])
  }

  /** The types and the name that follow `property`, and how many tokens they take. */
  function PropertyOf(ts: seq<Bytes>): (p: Option<(PropertySpec, nat)>)
    ensures p.Some? ==> p.value.1 <= |ts|
  {
    if |ts| >= 2 && ts[0] != Name("list") && TypeOf(ts[0]).Some? then
      Some((PropertySpec(Cut(ts[1]), false, Int8, TypeOf(ts[0]).value), 2))
    else if |ts| >= 4 && ts[0] == Name("list") && TypeOf(ts[1]).Some? && TypeOf(ts[1]).value != Float32 &&
            TypeOf(ts[1]).value != Float64 && TypeOf(ts[2]).Some? then
      Some((PropertySpec(Cut(ts[3]), true, TypeOf(ts[1]).value, TypeOf(ts[2]).value), 4))
    else None
  }

  function AddProperty(es: seq<ElementSpec>, p: PropertySpec): seq<ElementSpec>
    requires es != []
  {
    var last := |es| - 1;
    es[last := es[last].(properties := es[last].properties + [p])]
  }

  function PropertyPart(h: Header, ts: seq<Bytes>): Part {
    if h.elements == [] then Bad(PLY_ERR_SYNTAX)
    else
      var at := Reserve(h.memoryBreak, PROPERTY_SIZE);
      if ts == [] then Bad(PLY_ERR_SYNTAX)
      else if at.None? then NoRoom
      else
        var p := PropertyOf(ts);
        if p.None? then Bad(PLY_ERR_SYNTAX)
        else Part(Header(h.format, AddProperty(h.elements, p.value.0), at.value), ts[p.value.1..])
  }

  /** How a line comes out: the header goes on, it is over, it is refused, or a record has no room. */
  datatype Line = Next(header: Header) | Last | Refused(code: int) | Full

  /** Nothing may follow a part. */
  function Ended(p: Part): Line {
    match p
    case Part(h, rest) => if rest == [] then Next(h) else Refused(PLY_ERR_SYNTAX)
    case Bad(code) => Refused(code)
    case NoRoom => Full
  }

  function HeaderLine(h: Header, ts: seq<Bytes>): Line {
    if ts == [] then Refused(PLY_ERR_SYNTAX)
    else if ts[0] == Name("end_header") then Last
    else if ts[0] == Name("format") then Ended(FormatPart(h, ts[1..]))
    else if ts[0] == Name("element") then Ended(ElementPart(h, ts[1..]))
    else if ts[0] == Name("property") then Ended(PropertyPart(h, ts[1..]))
    else if ts[0] == Name("comment") then Next(h)
    else Refused(PLY_ERR_SYNTAX)
  }

  // ---- the file ----

  /** How many reads of the input go well before one fails; none ever fails if there is no such number. */
  type Reads = Option<nat>

  predicate Failing(good: Reads) {
    good == Some(0)
  }

  /** The reads that go well after n more. */
  function Less(good: Reads, n: nat): Reads {
    match good
    case None => None
    case Some(k) => Some(if k < n then 0 else k - n)
  }

  /** How the header of a file comes out, and which reads are left for the body. Nothing is specified about a
      line that does not end, in a newline or at a NUL, within the 1024 bytes the parser looks at. */
  datatype Outcome =
    | Parsed(header: Header, body: Bytes, good: Reads)
    | Failed(code: int)
    | OutOfMemory
    | Unspecified

  /** The first newline or NUL, or the end. */
  function LineEnd(s: Bytes): (n: nat)
    ensures n <= |s|
    ensures forall k :: 0 <= k < n ==> s[k] != NEWLINE && s[k] != 0
    ensures n < |s| ==> s[n] == NEWLINE || s[n] == 0
  {
    if s == [] || s[0] == NEWLINE || s[0] == 0 then 0 else 1 + LineEnd(s[1..])
  }

  /** The lines of the header. There is a read before each. */
  function Lines(h: Header, rest: Bytes, good: Reads): Outcome
    decreases |rest|
  {
    var n := LineEnd(rest);
    if Failing(good) then Failed(PLY_ERR_READ)
    else if n == |rest| || n >= MIN_BUFFER_CAPACITY then Unspecified
    else if rest[n] == 0 then Failed(PLY_ERR_SYNTAX)
    else
      match HeaderLine(h, Tokens(rest[..n], SPACE, 0))
      case Next(h') => Lines(h', rest[n + 1..], Less(good, 1))
      case Last => Parsed(h, rest[n + 1..], Less(good, 1))
      case Refused(code) => Failed(code)
      case Full => OutOfMemory
  }

  function Start(memorySize: nat): Header {
    Header(Unknown, [], Align(memorySize))
  }

  function FileHeader(file: Bytes, memorySize: nat, good: Reads): Outcome {
    if Failing(good) then Failed(PLY_ERR_READ)
    else if |file| < 4 || file[..4] != Name("ply\n") then Failed(PLY_ERR_SYNTAX)
    else Lines(Start(memorySize), file[4..], Less(good, 1))
  }

  // ---- what holds of every header that parses ----

  predicate PropertyWellMade(p: PropertySpec) {
    |p.name| < MAX_NAME && (p.isList ==> p.lengthType != Float32 && p.lengthType != Float64)
  }

  ghost predicate ElementWellMade(e: ElementSpec) {
    |e.name| < MAX_NAME && e.numTuples <= ULONG_MAX && forall p :: p in e.properties ==> PropertyWellMade(p)
  }

  /** Names are cut, tuple counts fit an unsigned long, list lengths are integers, records are aligned. */
  ghost predicate WellMade(h: Header) {
    (forall e :: e in h.elements ==> ElementWellMade(e)) && h.memoryBreak % 16 == 0
  }
}
