/** Reading the header of a PLY file through a small buffer, in place. */
module PlyHeader {
  import opened Wrappers
  import opened Words
  import opened PlyTokens
  import opened PlyHeaderSpec
  import opened PlyRecords

  /** What a parsing step returns: the source's int, or no defined outcome. */
  datatype Status = Code(code: int) | Undefined

  /** The application's input. Reading fills the request unless the input ends. After so many reads one
      fails, and then all do. */
  class Source {
    var rest: Bytes
    var good: Reads

    constructor (input: Bytes, good: Reads)
      ensures rest == input && this.good == good
    {
      rest, this.good := input, good;
    }

    method Read(memory: array<byte>, at: nat, max: nat) returns (r: int)
      requires at + max <= memory.Length
      modifies this, memory
      ensures r < 0 <==> Failing(old(good))
      ensures good == Less(old(good), 1)
      ensures r < 0 ==> rest == old(rest) && memory[..] == old(memory[..])
      ensures r >= 0 ==> r == if |old(rest)| < max then |old(rest)| else max
      ensures r >= 0 ==> rest == old(rest)[r..] && memory[at..at + r] == old(rest)[..r]
      ensures forall k :: 0 <= k < memory.Length && !(at <= k < at + r) ==> memory[k] == old(memory[k])
    {
      if Failing(good) {
        return PLY_ERR_READ;
      }
      good := Less(good, 1);
      var count := if |rest| < max then |rest| else max;
      for n := 0 to count
        invariant rest == old(rest) && good == Less(old(good), 1)
        invariant memory[at..at + n] == rest[..n]
        invariant forall k :: 0 <= k < memory.Length && !(at <= k < at + n) ==> memory[k] == old(memory[k])
      {
        memory[at + n] := rest[n];
      }
      rest := rest[count..];
      return count;
    }
  }

  /** memmove to the front of the memory. */
  method MoveToFront(memory: array<byte>, from: nat, count: nat)
    requires from + count <= memory.Length
    modifies memory
    ensures memory[..count] == old(memory[from..from + count])
    ensures forall k :: count <= k < memory.Length ==> memory[k] == old(memory[k])
  {
    for n := 0 to count
      invariant forall m :: 0 <= m < n ==> memory[m] == old(memory[from + m])
      invariant forall m :: n <= m < memory.Length ==> memory[m] == old(memory[m])
    {
      memory[n] := memory[from + n];
    }
  }

  /** ply_parse_type */
  method ParseType(token: Bytes) returns (kind: Option<PlyType>)
    ensures kind == TypeOf(token)
  {
    hide Names;
    for i := 0 to 8
      invariant TypeFrom(token, 0) == TypeFrom(token, i)
    {
      if Names(token, i) {
        return Some(TypeAt(i));
      }
    }
    return None;
  }

  /** Where in the memory a record is. */
  datatype Extent = Extent(start: nat, size: nat)

  function ExtentOf(record: object): Option<Extent> {
    if record is Element then Some(Extent((record as Element).offset, ELEMENT_SIZE))
    else if record is Property then Some(Extent((record as Property).offset, PROPERTY_SIZE))
    else None
  }

  /** A record lies between these bounds, aligned, above the buffer. */
  predicate Placed(record: object, bottom: nat, top: nat) {
    var e := ExtentOf(record);
    e.Some? && MIN_BUFFER_CAPACITY <= bottom <= e.value.start &&
    e.value.start + e.value.size <= top && e.value.start % 16 == 0
  }

  predicate Disjoint(a: Extent, b: Extent) {
    a.start + a.size <= b.start || b.start + b.size <= a.start
  }

  /** The records lie in the upper part of the memory, and no two of them overlap. */
  ghost predicate Spread(records: set<object>, bottom: nat, top: nat) {
    && (forall a :: a in records ==> Placed(a, bottom, top))
    && (forall a, b :: a in records && b in records && a != b ==> Disjoint(ExtentOf(a).value, ExtentOf(b).value))
  }

  lemma SpreadMore(records: set<object>, record: object, was: nat, now: nat, top: nat)
    requires Spread(records, was, top) && Placed(record, now, was) && was <= top
    ensures Spread(records + {record}, now, top)
  {
    assert forall a :: a in records ==> Placed(a, was, top) && Placed(a, now, top);
  }

  /** A line came out like this, and `now` is what is known then. */
  predicate CameOut(l: Line, s: Status, was: Header, now: Header) {
    match l
    case Next(h) => s == Code(1) && now == h
    case Last => s == Code(0) && now == was
    case Refused(code) => s == Code(code) && code < 0
    case Full => s == Undefined
  }

  class Parser {
    var format: Format
    const schema: Schema
    const memory: array<byte>
    var memoryBreak: nat
    var bufferFill: nat
    const source: Source

    var currentElement: Element?
    var currentTuple: nat
    var currentProperty: Property?
    var currentItem: nat
    var bufferOffset: nat

    /** ply_parser_set_input and ply_parser_set_memory: the application supplies the input and enough
        memory for the buffer. */
    constructor (memory: array<byte>, source: Source)
      requires MIN_BUFFER_CAPACITY <= memory.Length
      ensures Valid() && this.memory == memory && this.source == source && fresh(schema) && schema.repr == {}
      ensures bufferFill == 0 && memoryBreak == Align(memory.Length)
    {
      schema := new Schema();
      format, this.memory, this.source := Format.Unknown, memory, source;
      bufferFill, memoryBreak := 0, memory.Length - memory.Length % 16;
      currentElement, currentTuple, currentProperty, currentItem, bufferOffset := null, 0, null, 0, 0;
    }

    ghost predicate Valid()
      reads this, schema, schema.repr
    {
      && this !in schema.repr && memory !in schema.repr && source !in schema.repr
      && schema.Valid()
      && MIN_BUFFER_CAPACITY <= memoryBreak <= memory.Length
      && Spread(schema.repr, memoryBreak, memory.Length)
    }

    /** What the parser knows of the file. */
    ghost function Known(): Header
      requires Valid()
      reads this, schema, schema.repr
    {
      Header(format, schema.Specs(), memoryBreak)
    }

    /** ply_reserve */
    method Reserve(size: nat) returns (at: Option<nat>)
      requires memoryBreak <= memory.Length
      modifies this`memoryBreak, memory
      ensures at == PlyHeaderSpec.Reserve(old(memoryBreak), size)
      ensures memoryBreak == if at.Some? then at.value else old(memoryBreak)
      ensures at.Some? ==> forall k :: at.value <= k < at.value + size ==> memory[k] == 0
      ensures forall k :: 0 <= k < MIN_BUFFER_CAPACITY && k < memory.Length ==> memory[k] == old(memory[k])
    {
      if memoryBreak < MIN_BUFFER_CAPACITY + size {
        return None;
      }
      var pointer := Align(memoryBreak - size);
      memoryBreak := pointer;
      for n := 0 to size
        invariant memoryBreak == pointer
        invariant forall k :: pointer <= k < pointer + n ==> memory[k] == 0
        invariant forall k :: 0 <= k < MIN_BUFFER_CAPACITY ==> memory[k] == old(memory[k])
      {
        memory[pointer + n] := 0;
      }
      return Some(pointer);
    }

    /** The rest of a line, from `at` on, lies uncut at the start of the memory. */
    ghost predicate LineAt(at: nat, line: Bytes)
      reads memory
    {
      && at <= |line| < MIN_BUFFER_CAPACITY <= memory.Length && 0 !in line
      && memory[|line|] == 0 && memory[at..|line|] == line[at..]
    }

    /** Behind the line nothing changed in the lower part of the memory. */
    twostate predicate OnlyLine(line: Bytes)
      reads memory
    {
      forall k :: |line| < k < MIN_BUFFER_CAPACITY && k < memory.Length ==> memory[k] == old(memory[k])
    }

    method Token(at: nat, ghost line: Bytes) returns (token: Option<Bytes>, next: nat)
      requires LineAt(at, line)
      modifies memory
      ensures LineAt(next, line) && OnlyLine(line)
      ensures var ts := Tokens(line, SPACE, at);
              if ts == [] then token == None && Tokens(line, SPACE, next) == []
              else token == Some(ts[0]) && Tokens(line, SPACE, next) == ts[1..]
    {
      token, next := NextToken(memory, at, SPACE, line);
    }

    /** The format's name. */
    method FormatToken(at: nat, ghost line: Bytes) returns (f: Option<Format>, next: nat)
      requires LineAt(at, line)
      modifies memory
      ensures LineAt(next, line) && OnlyLine(line)
      ensures var ts := Tokens(line, SPACE, at);
              if ts == [] then f == None else f == FormatOf(ts[0]) && Tokens(line, SPACE, next) == ts[1..]
    {
      hide Tokens, Name;
      var token;
      token, next := Token(at, line);
      f := if token.Some? then FormatOf(token.value) else None;
    }

    /** The next token is this one. */
    method Expect(at: nat, word: Bytes, ghost line: Bytes) returns (found: bool, next: nat)
      requires LineAt(at, line)
      modifies memory
      ensures LineAt(next, line) && OnlyLine(line)
      ensures var ts := Tokens(line, SPACE, at);
              if ts == [] then !found else found == (ts[0] == word) && Tokens(line, SPACE, next) == ts[1..]
    {
      hide Tokens;
      var token;
      token, next := Token(at, line);
      found := token == Some(word);
    }

    /** ply_parse_format */
    method ParseFormat(at: nat, ghost line: Bytes) returns (s: Status, next: nat)
      requires Valid() && LineAt(at, line)
      modifies this`format, memory
      ensures Valid() && LineAt(next, line) && OnlyLine(line)
      ensures LineDid(FormatPart(old(Known()), Tokens(line, SPACE, at)), s, line, next)
    {
      hide Tokens, Name, FormatOf, Schema.Valid, Schema.Specs, Spread;
      var f, found;
      f, next := FormatToken(at, line);
      SameSchema(schema);
      if f.None? {
        return Code(PLY_ERR_SYNTAX), next;
      }
      format := f.value;
      found, next := Expect(next, Name("1.0"), line);
      SameSchema(schema);
      s := if found then Code(0) else Code(PLY_ERR_SYNTAX);
    }

    /** The name and number of tuples of a new element. */
    method FillElement(element: Element, name: Bytes, at: nat, ghost line: Bytes)
      returns (filled: bool, next: nat)
      requires LineAt(at, line) && element.Valid() && element.members == []
      modifies memory, element`name, element`numTuples
      ensures LineAt(next, line) && OnlyLine(line) && element.Valid()
      ensures var ts := Tokens(line, SPACE, at);
              filled == (ts != [] && TupleCount(ts[0]).Some?) &&
              (filled ==>
                element.Spec() == ElementSpec(Cut(name), TupleCount(ts[0]).value, []) &&
                Tokens(line, SPACE, next) == ts[1..])
    {
      hide Tokens, TupleCount;
      element.name := Cut(name);
      var token;
      token, next := Token(at, line);
      if token.None? || TupleCount(token.value).None? {
        return false, next;
      }
      element.numTuples := TupleCount(token.value).value;
      return true, next;
    }

    /** Reserves and fills a new element. */
    method MakeElement(at: nat, ghost line: Bytes) returns (s: Status, element: Element?, next: nat)
      requires LineAt(at, line) && memoryBreak <= memory.Length
      modifies this`memoryBreak, memory
      ensures LineAt(next, line) && OnlyLine(line)
      ensures var place, ts := PlyHeaderSpec.Reserve(old(memoryBreak), ELEMENT_SIZE), Tokens(line, SPACE, at);
              if ts == [] then s == Code(PLY_ERR_SYNTAX)
              else if place.None? then s == Undefined
              else if |ts| < 2 || TupleCount(ts[1]).None? then s == Code(PLY_ERR_SYNTAX)
              else
                s == Code(0) && memoryBreak == place.value && element != null && fresh(element) &&
                Placed(element, place.value, old(memoryBreak)) && Tokens(line, SPACE, next) == ts[2..] &&
                element.Valid() && element.members == [] && element.owner == null &&
                element.next == null && element.Spec() == ElementSpec(Cut(ts[0]), TupleCount(ts[1]).value, [])
    {
      hide Tokens, TupleCount, PlyHeaderSpec.Reserve;
      next, element := at, null;
      var place := Reserve(ELEMENT_SIZE);
      var token, filled;
      token, next := Token(at, line);
      if token.None? {
        return Code(PLY_ERR_SYNTAX), element, next;
      }
      if place.None? {
        return Undefined, element, next;
      }
      element := new Element(place.value);
      filled, next := FillElement(element, token.value, next, line);
      s := if filled then Code(0) else Code(PLY_ERR_SYNTAX);
    }

    /** ply_parse_element */
    method ParseElement(at: nat, ghost line: Bytes) returns (s: Status, next: nat)
      requires Valid() && LineAt(at, line)
      modifies this`memoryBreak, memory, schema, schema.repr
      ensures LineAt(next, line) && OnlyLine(line) && fresh(schema.repr - old(schema.repr))
      ensures s == Code(0) ==> Valid()
      ensures LineDid(ElementPart(old(Known()), Tokens(line, SPACE, at)), s, line, next)
    {
      hide Tokens, TupleCount, Schema.Valid, Schema.Specs, PlyHeaderSpec.Reserve, Spread, ExtentOf;
      var element;
      s, element, next := MakeElement(at, line);
      SameSchema(schema);
      if s == Code(0) {
        SpreadMore(schema.repr, element, old(memoryBreak), memoryBreak, memory.Length);
        schema.Append(element);
      }
    }

    /** A type and whether it may be that of a list's length. */
    method TypeToken(at: nat, ghost line: Bytes) returns (kind: Option<PlyType>, next: nat)
      requires LineAt(at, line)
      modifies memory
      ensures LineAt(next, line) && OnlyLine(line)
      ensures var ts := Tokens(line, SPACE, at);
              if ts == [] then kind == None else kind == TypeOf(ts[0]) && Tokens(line, SPACE, next) == ts[1..]
    {
      hide Tokens, TypeOf;
      var token;
      token, next := Token(at, line);
      kind := None;
      if token.Some? {
        kind := ParseType(token.value);
      }
    }

    /** The types and the name of a new property. */
    method FillProperty(property: Property, first: Bytes, at: nat, ghost line: Bytes)
      returns (filled: bool, next: nat)
      requires LineAt(at, line) && property.Spec() == PropertySpec([], false, Int8, Int8)
      modifies memory, property`isList, property`name, property`lengthType, property`scalarType
      ensures LineAt(next, line) && OnlyLine(line)
      ensures var ts := [first] + Tokens(line, SPACE, at);
              match PropertyOf(ts)
              case Some((p, n)) => filled && property.Spec() == p && Tokens(line, SPACE, next) == ts[n..]
              case None => !filled
    {
      hide Tokens, TypeOf, Name;
      var token, kind := Some(first), None;
      next := at;
      if first == Name("list") {
        property.isList := true;
        kind, next := TypeToken(next, line);
        if kind.None? {
          return false, next;
        }
        property.lengthType := kind.value;
        if property.lengthType == Float32 || property.lengthType == Float64 {
          return false, next;
        }
        token, next := Token(next, line);
        if token.None? {
          return false, next;
        }
      }
      kind := ParseType(token.value);
      if kind.None? {
        return false, next;
      }
      property.scalarType := kind.value;
      token, next := Token(next, line);
      if token.None? {
        return false, next;
      }
      property.name := Cut(token.value);
      return true, next;
    }

    /** Reserves and fills a new property. */
    method MakeProperty(at: nat, ghost line: Bytes) returns (s: Status, property: Property?, next: nat)
      requires LineAt(at, line) && memoryBreak <= memory.Length
      modifies this`memoryBreak, memory
      ensures LineAt(next, line) && OnlyLine(line)
      ensures var place, ts := PlyHeaderSpec.Reserve(old(memoryBreak), PROPERTY_SIZE), Tokens(line, SPACE, at);
              if ts == [] then s == Code(PLY_ERR_SYNTAX)
              else if place.None? then s == Undefined
              else
                match PropertyOf(ts)
                case None => s == Code(PLY_ERR_SYNTAX)
                case Some((p, n)) =>
                  s == Code(0) && memoryBreak == place.value && property != null && fresh(property) &&
                  Placed(property, place.value, old(memoryBreak)) && Tokens(line, SPACE, next) == ts[n..] &&
                  property.owner == null && property.next == null && property.Spec() == p
    {
      hide Tokens, PropertyOf, PlyHeaderSpec.Reserve;
      next, property := at, null;
      var place := Reserve(PROPERTY_SIZE);
      ghost var ts := Tokens(line, SPACE, at);
      var token, filled;
      token, next := Token(at, line);
      if token.None? {
        return Code(PLY_ERR_SYNTAX), property, next;
      }
      if place.None? {
        return Undefined, property, next;
      }
      property := new Property(place.value);
      assert ts == [token.value] + Tokens(line, SPACE, next);
      filled, next := FillProperty(property, token.value, next, line);
      s := if filled then Code(0) else Code(PLY_ERR_SYNTAX);
    }

    /** ply_parse_property */
    method ParseProperty(at: nat, ghost line: Bytes) returns (s: Status, next: nat)
      requires Valid() && LineAt(at, line)
      modifies this`memoryBreak, memory, schema`repr, schema.repr
      ensures LineAt(next, line) && OnlyLine(line) && fresh(schema.repr - old(schema.repr))
      ensures s == Code(0) ==> Valid()
      ensures LineDid(PropertyPart(old(Known()), Tokens(line, SPACE, at)), s, line, next)
    {
      hide Tokens, PropertyOf, Schema.Valid, Schema.Specs, PlyHeaderSpec.Reserve, Spread, ExtentOf, AddProperty;
      NoElements(schema);
      if schema.lastElement == null {
        return Code(PLY_ERR_SYNTAX), at;
      }
      var property;
      s, property, next := MakeProperty(at, line);
      SameSchema(schema);
      if s == Code(0) {
        SpreadMore(schema.repr, property, old(memoryBreak), memoryBreak, memory.Length);
        schema.AppendProperty(property);
      }
    }

    /** ply_parse_header_line: zero at the end of the header, one if it goes on. */
    method ParseHeaderLine(ghost line: Bytes) returns (s: Status)
      requires Valid() && LineAt(0, line)
      modifies this`format, this`memoryBreak, memory, schema, schema.repr
      ensures OnlyLine(line) && fresh(schema.repr - old(schema.repr))
      ensures s == Code(0) || s == Code(1) ==> Valid()
      ensures CameOut(HeaderLine(old(Known()), Tokens(line, SPACE, 0)), s, old(Known()), KnownAfter(s, old(Known())))
    {
      hide Tokens, Schema.Valid, Schema.Specs, FormatPart, ElementPart, PropertyPart, Name, Ended, Spread;
      ghost var h, ts := Known(), Tokens(line, SPACE, 0);
      var token, next;
      token, next := Token(0, line);
      SameSchema(schema);
      if token.None? {
        return Code(PLY_ERR_SYNTAX);
      }
      if token.value == Name("end_header") {
        return Code(0);
      } else if token.value == Name("format") {
        s, next := ParseFormat(next, line);
        s := EndLine(s, next, line, FormatPart(h, ts[1..]), h);
      } else if token.value == Name("element") {
        s, next := ParseElement(next, line);
        s := EndLine(s, next, line, ElementPart(h, ts[1..]), h);
      } else if token.value == Name("property") {
        s, next := ParseProperty(next, line);
        s := EndLine(s, next, line, PropertyPart(h, ts[1..]), h);
      } else if token.value == Name("comment") {
        return Code(1);
      } else {
        return Code(PLY_ERR_SYNTAX);
      }
    }

    /** Nothing may follow a part. */
    method EndLine(s: Status, at: nat, ghost line: Bytes, ghost p: Part, ghost was: Header) returns (t: Status)
      requires LineAt(at, line) && (s == Code(0) ==> Valid()) && LineDid(p, s, line, at)
      modifies memory
      ensures OnlyLine(line) && (t == Code(0) || t == Code(1) ==> Valid())
      ensures CameOut(Ended(p), t, was, KnownAfter(t, was))
    {
      hide Tokens, Schema.Valid, Schema.Specs, Spread;
      t := s;
      if s == Code(0) {
        var token, next := Token(at, line);
        SameSchema(schema);
        t := if token.Some? then Code(PLY_ERR_SYNTAX) else Code(1);
      }
    }

    /** What of the input the parser has not gone past: its buffer and what was not read. */
    ghost function Left(): Bytes
      requires bufferFill <= memory.Length
      reads this, memory, source
    {
      memory[..bufferFill] + source.rest
    }

    /** Fills the buffer up to a limit, or to the end of the input. */
    method Refill(limit: nat) returns (ok: bool)
      requires bufferFill <= limit <= memory.Length
      modifies this`bufferFill, memory, source
      ensures bufferFill <= limit && source.good == Less(old(source.good), 1)
      ensures ok <==> !Failing(old(source.good))
      ensures ok ==> Left() == old(Left()) && bufferFill == if |Left()| < limit then |Left()| else limit
      ensures forall k :: limit <= k < memory.Length ==> memory[k] == old(memory[k])
    {
      var r := source.Read(memory, bufferFill, limit - bufferFill);
      if r < 0 {
        return false;
      }
      ghost var window := memory[..bufferFill];
      bufferFill := bufferFill + r;
      assert memory[..bufferFill] == window + memory[bufferFill - r..bufferFill];
      assert window == old(memory[..bufferFill]);
      return true;
    }

    /** Goes past the first bytes of the buffer. */
    method Shift(n: nat)
      requires n <= bufferFill <= memory.Length
      modifies this`bufferFill, memory
      ensures bufferFill == old(bufferFill) - n &&
              Left() == old(memory[n..bufferFill]) + source.rest == old(Left())[n..]
      ensures forall k :: old(bufferFill) <= k < memory.Length ==> memory[k] == old(memory[k])
    {
      bufferFill := bufferFill - n;
      MoveToFront(memory, n, bufferFill);
    }

    /** strchr for the newline: nothing if a NUL comes first. Past the buffer the outcome would depend on
        what earlier reads left in the memory. */
    method FindNewline() returns (s: Status, nl: nat)
      requires bufferFill <= memory.Length
      ensures var n := LineEnd(memory[..bufferFill]);
              nl == n &&
              s == if n == bufferFill then Undefined else if memory[n] == 0 then Code(PLY_ERR_SYNTAX) else Code(0)
    {
      nl := 0;
      while nl < bufferFill && memory[nl] != NEWLINE && memory[nl] != 0
        invariant nl <= bufferFill && LineEnd(memory[..bufferFill]) == nl + LineEnd(memory[nl..bufferFill])
      {
        assert memory[nl..bufferFill][1..] == memory[nl + 1..bufferFill];
        nl := nl + 1;
      }
      s := if nl == bufferFill then Undefined else if memory[nl] == 0 then Code(PLY_ERR_SYNTAX) else Code(0);
    }

    /** The same, in terms of all the input that is left. */
    method FindLine(ghost rest: Bytes) returns (s: Status, nl: nat)
      requires bufferFill <= memory.Length && Left() == rest
      requires bufferFill == if |rest| < MIN_BUFFER_CAPACITY then |rest| else MIN_BUFFER_CAPACITY
      ensures s == Searched(rest)
      ensures s == Code(0) ==> nl == LineEnd(rest) && nl < bufferFill && memory[..nl] == rest[..nl] && 0 !in rest[..nl]
    {
      assert memory[..bufferFill] == rest[..bufferFill];
      LineEndWithin(rest, bufferFill);
      s, nl := FindNewline();
    }

    /** Cuts the first line off the buffer, parses it and goes past it. */
    method TakeLine(nl: nat, ghost line: Bytes) returns (s: Status)
      requires Valid() && nl < bufferFill <= MIN_BUFFER_CAPACITY && 0 !in line && line == memory[..nl]
      modifies this`format, this`memoryBreak, this`bufferFill, memory, schema, schema.repr
      ensures fresh(schema.repr - old(schema.repr)) && bufferFill <= MIN_BUFFER_CAPACITY
      ensures s == Code(0) || s == Code(1) ==> Valid() && Left() == old(Left())[nl + 1..]
      ensures CameOut(HeaderLine(old(Known()), Tokens(line, SPACE, 0)), s, old(Known()), KnownAfter(s, old(Known())))
    {
      hide Schema.Valid, Schema.Specs, HeaderLine, Tokens, Spread, CameOut;
      ghost var behind := memory[nl + 1..bufferFill];
      assert Left()[nl + 1..] == behind + source.rest;
      s := CutLine(nl, line);
      assert memory[nl + 1..bufferFill] == behind;
      if s == Code(0) || s == Code(1) {
        label parsed:
        Shift(nl + 1);
        SameSchema@parsed(schema);
      }
    }

    method CutLine(nl: nat, ghost line: Bytes) returns (s: Status)
      requires Valid() && nl < MIN_BUFFER_CAPACITY && 0 !in line && line == memory[..nl]
      modifies this`format, this`memoryBreak, memory, schema, schema.repr
      ensures fresh(schema.repr - old(schema.repr)) && OnlyLine(line)
      ensures s == Code(0) || s == Code(1) ==> Valid()
      ensures CameOut(HeaderLine(old(Known()), Tokens(line, SPACE, 0)), s, old(Known()), KnownAfter(s, old(Known())))
    {
      hide Schema.Valid, Schema.Specs, HeaderLine, Tokens, Spread;
      memory[nl] := 0;
      SameSchema(schema);
      s := ParseHeaderLine(line);
    }

    /** One turn of the loop of ply_process_header. */
    method HeaderStep() returns (s: Status)
      requires Valid() && bufferFill <= MIN_BUFFER_CAPACITY
      modifies this`format, this`memoryBreak, this`bufferFill, memory, source, schema, schema.repr
      ensures fresh(schema.repr - old(schema.repr)) && bufferFill <= MIN_BUFFER_CAPACITY
      ensures s == Code(0) || s == Code(1) ==> Valid()
      ensures source.good == Less(old(source.good), 1)
      ensures if Failing(old(source.good)) then s == Code(PLY_ERR_READ) else StepDid(old(Known()), old(Left()), s)
    {
      hide Schema.Valid, Schema.Specs, HeaderLine, Tokens, CameOut, Spread, LineEnd;
      ghost var h, rest := Known(), Left();
      var ok := Refill(MIN_BUFFER_CAPACITY);
      SameSchema(schema);
      if !ok {
        return Code(PLY_ERR_READ);
      }
      var nl;
      s, nl := FindLine(rest);
      if s == Code(0) {
        s := TakeLine(nl, rest[..nl]);
      }
    }

    /** What one turn makes of the input that is left. */
    ghost predicate StepDid(h: Header, rest: Bytes, s: Status)
      requires bufferFill <= memory.Length && (s == Code(0) || s == Code(1) ==> Valid())
      reads this, memory, source, schema, schema.repr
    {
      var n := LineEnd(rest);
      if Searched(rest) != Code(0) then s == Searched(rest)
      else
        CameOut(HeaderLine(h, Tokens(rest[..n], SPACE, 0)), s, h, KnownAfter(s, h)) &&
        (s == Code(0) || s == Code(1) ==> Left() == rest[n + 1..])
    }

    /** How looking for the end of the first line ends. */
    ghost function Searched(rest: Bytes): Status {
      var n := LineEnd(rest);
      if n == |rest| || n >= MIN_BUFFER_CAPACITY then Undefined
      else if rest[n] == 0 then Code(PLY_ERR_SYNTAX)
      else Code(0)
    }

    /** ply_process_header */
    method ProcessHeader() returns (s: Status)
      requires MIN_BUFFER_CAPACITY <= memory.Length
      modifies this`format, this`memoryBreak, this`bufferFill, memory, source, schema
      ensures s == Code(0) ==> Valid() && bufferFill <= MIN_BUFFER_CAPACITY && fresh(schema.repr)
      ensures FileDid(FileHeader(old(source.rest), memory.Length, old(source.good)), s)
    {
      hide Schema.Valid, Schema.Specs, Lines, Name;
      format := Format.Unknown;
      schema.Clear();
      bufferFill := 0;
      memoryBreak := Align(memory.Length);
      ghost var file := source.rest;
      assert Left() == file;
      ClearSchema(schema);
      label cleared:
      var ok := Refill(MIN_BUFFER_CAPACITY);
      SameSchema@cleared(schema);
      if !ok {
        return Code(PLY_ERR_READ);
      }
      assert memory[..bufferFill] == file[..bufferFill];
      if bufferFill < 4 || memory[..4] != Name("ply\n") {
        return Code(PLY_ERR_SYNTAX);
      }
      label filled:
      Shift(4);
      SameSchema@filled(schema);
      s := Loop();
    }

    /** The loop of ply_process_header. */
    method Loop() returns (s: Status)
      requires Valid() && bufferFill <= MIN_BUFFER_CAPACITY && schema.repr == {}
      modifies this`format, this`memoryBreak, this`bufferFill, memory, source, schema
      ensures s == Code(0) ==> Valid() && bufferFill <= MIN_BUFFER_CAPACITY && fresh(schema.repr)
      ensures FileDid(Lines(old(Known()), old(Left()), old(source.good)), s)
    {
      hide Schema.Valid, Schema.Specs, HeaderLine, Tokens, Spread;
      ghost var goal := Lines(Known(), Left(), source.good);
      while true
        invariant Valid() && bufferFill <= MIN_BUFFER_CAPACITY && fresh(schema.repr)
        invariant Lines(Known(), Left(), source.good) == goal
        decreases |Left()|
      {
        s := HeaderStep();
        if s != Code(1) {
          return;
        }
      }
    }

    /** The header of the file came out like this; the body is what is left. */
    ghost predicate FileDid(o: Outcome, s: Status)
      requires s == Code(0) ==> Valid() && bufferFill <= memory.Length
      reads this, memory, source, schema, schema.repr
    {
      match o
      case Parsed(h, body, good) => s == Code(0) && Known() == h && Left() == body && source.good == good
      case Failed(code) => s == Code(code) && code < 0
      case OutOfMemory => s == Undefined
      case Unspecified => s == Undefined
    }

    /** What is known if the header goes on or ends well. */
    ghost function KnownAfter(s: Status, was: Header): Header
      requires s == Code(0) || s == Code(1) ==> Valid()
      reads this, schema, schema.repr
    {
      if s == Code(0) || s == Code(1) then Known() else was
    }

    /** A part of a line came out like this. */
    ghost predicate LineDid(p: Part, s: Status, line: Bytes, next: nat)
      requires next <= |line| && (s == Code(0) ==> Valid())
      reads this, schema, schema.repr
    {
      match p
      case Part(h, rest) => s == Code(0) && Known() == h && Tokens(line, SPACE, next) == rest
      case Bad(code) => s == Code(code) && code < 0
      case NoRoom => s == Undefined
    }
  }

  lemma {:induction false} LineEndWithin(s: Bytes, n: nat)
    requires n <= |s|
    ensures LineEnd(s[..n]) == if LineEnd(s) < n then LineEnd(s) else n
  {
    if n > 0 && s[0] != NEWLINE && s[0] != 0 {
      LineEndWithin(s[1..], n - 1);
      assert s[..n][1..] == s[1..][..n - 1];
    }
  }

  lemma ClearSchema(schema: Schema)
    requires schema.Valid() && schema.members == []
    ensures schema.Specs() == []
  {}

  lemma NoElements(schema: Schema)
    requires schema.Valid()
    ensures schema.lastElement == null <==> schema.Specs() == []
    ensures schema.lastElement == null <==> schema.members == []
  {}

  twostate lemma SameSchema(schema: Schema)
    requires old(schema.Valid()) && unchanged(schema) && unchanged(schema.repr)
    ensures schema.Valid() && schema.Specs() == old(schema.Specs())
  {}
}
