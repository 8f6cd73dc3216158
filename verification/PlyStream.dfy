/** Reading the body of a PLY file through a window that slides over the input: the streaming functions. */
module PlyStream {
  import opened Words
  import opened PlyHeaderSpec
  import opened PlyRecords
  import opened PlyScalar
  import opened PlyDecoder
  import opened PlyWindow
  import opened PlyHeader
  import opened PlyPositions

  /** The pointers of the parser denote this position. */
  ghost predicate Stands(ply: Parser, pos: Position)
    reads ply, ply.schema, ply.schema.repr
    requires ply.Valid()
  {
    match pos
    case Before => ply.currentProperty == null && ply.bufferOffset == 0
    case Lost => false
    case At(e, t, p) =>
      && e < |ply.schema.members| && ply.currentElement == ply.schema.members[e]
      && ply.currentTuple == t && t < ply.schema.members[e].numTuples
      && p < |ply.schema.members[e].members| && ply.currentProperty == ply.schema.members[e].members[p]
  }

  /** The parser is ready to read a body described by these elements. */
  ghost predicate Streams(ply: Parser, es: seq<ElementSpec>)
    reads ply, ply.schema, ply.schema.repr
  {
    ply.Valid() && ply.schema.Specs() == es && ply.format != Ascii &&
    ply.bufferOffset <= ply.bufferFill <= ply.memoryBreak
  }

  predicate Bounds(ply: Parser)
    reads ply
  {
    ply.bufferOffset <= ply.bufferFill <= ply.memory.Length
  }

  /** The unread bytes in the window. */
  ghost function Window(ply: Parser): Bytes
    requires Bounds(ply)
    reads ply, ply.memory
  {
    ply.memory[ply.bufferOffset..ply.bufferFill]
  }

  /** The input from the next unread byte on. */
  ghost function Rest(ply: Parser): Bytes
    requires Bounds(ply)
    reads ply, ply.memory, ply.source
  {
    Window(ply) + ply.source.rest
  }

  /** The window as the value of the p-th property of a tuple will find it: the first comes with a refill. */
  ghost function Seen(ply: Parser, p: nat): Bytes
    requires Bounds(ply)
    reads ply, ply.memory, ply.source
  {
    if p == 0 then Front(Rest(ply), ply.memoryBreak) else Window(ply)
  }

  /** The input behind it. */
  ghost function Unseen(ply: Parser, p: nat): Bytes
    requires Bounds(ply)
    reads ply, ply.memory, ply.source
  {
    if p == 0 then Back(Rest(ply), ply.memoryBreak) else ply.source.rest
  }

  /** ply_start_streaming */
  method StartStreaming(ply: Parser, ghost es: seq<ElementSpec>)
    requires ply.Valid() && ply.schema.Specs() == es && ply.format != Ascii && ply.bufferFill <= ply.memoryBreak
    modifies ply`currentElement, ply`currentTuple, ply`currentProperty, ply`currentItem, ply`bufferOffset
    ensures Streams(ply, es) && Stands(ply, Before) && Rest(ply) == old(ply.Left())
  {
    hide Schema.Valid, Schema.Specs, Spread;
    ply.currentElement := null;
    ply.currentTuple := ULONG_MAX;
    ply.currentProperty := null;
    ply.currentItem := 0;
    ply.bufferOffset := 0;
    SameSchema(ply.schema);
  }

  /** The records in the upper part of the memory are not touched. */
  twostate predicate UpperKept(ply: Parser)
    reads ply, ply.memory
  {
    forall k :: ply.memoryBreak <= k < ply.memory.Length ==> ply.memory[k] == old(ply.memory[k])
  }

  /** What is left is the window, as full as the memory and the input allow, and the rest. */
  ghost predicate Filled(ply: Parser, raw: Bytes)
    requires Bounds(ply)
    reads ply, ply.memory, ply.source
  {
    Window(ply) == Front(raw, ply.memoryBreak) && ply.source.rest == Back(raw, ply.memoryBreak)
  }

  lemma FrontOf(window: Bytes, rest: Bytes, limit: nat)
    requires |window| == if |window + rest| < limit then |window + rest| else limit
    ensures Front(window + rest, limit) == window && Back(window + rest, limit) == rest
  {}

  /** The read that refills the window from its start. */
  method Fill(ply: Parser) returns (ok: bool)
    requires ply.bufferOffset == 0 && ply.bufferFill <= ply.memoryBreak <= ply.memory.Length
    modifies ply`bufferFill, ply.memory, ply.source
    ensures ply.bufferFill <= ply.memoryBreak && ply.source.good == Less(old(ply.source.good), 1)
    ensures ok <==> !Failing(old(ply.source.good))
    ensures ok ==> Filled(ply, old(Rest(ply)))
    ensures UpperKept(ply)
  {
    hide Front, Back;
    assert Rest(ply) == ply.Left();
    ok := ply.Refill(ply.memoryBreak);
    assert Rest(ply) == ply.Left();
    if ok { FrontOf(Window(ply), ply.source.rest, ply.memoryBreak); }
  }

  /** The refill at the start of a tuple: the window begins at the next unread byte. */
  method Slide(ply: Parser) returns (ok: bool)
    requires ply.bufferOffset <= ply.bufferFill <= ply.memoryBreak <= ply.memory.Length
    modifies ply`bufferFill, ply`bufferOffset, ply.memory, ply.source
    ensures ply.bufferOffset == 0 && ply.bufferFill <= ply.memoryBreak
    ensures ply.source.good == Less(old(ply.source.good), 1)
    ensures ok <==> !Failing(old(ply.source.good))
    ensures ok ==> Filled(ply, old(Rest(ply)))
    ensures UpperKept(ply)
  {
    hide Filled;
    ghost var raw := Rest(ply);
    ply.Shift(ply.bufferOffset);
    ply.bufferOffset := 0;
    assert Rest(ply) == raw;
    ok := Fill(ply);
  }

  /** The list of elements as it is described. */
  lemma Described(schema: Schema, es: seq<ElementSpec>)
    requires schema.Valid() && schema.Specs() == es
    ensures |schema.members| == |es| && schema.elements == ElementAt(schema.members, 0)
  {}

  lemma DescribedElement(schema: Schema, es: seq<ElementSpec>, e: nat)
    requires schema.Valid() && schema.Specs() == es && e < |es|
    ensures e < |schema.members| && schema.members[e].next == ElementAt(schema.members, e + 1)
    ensures schema.members[e].numTuples == es[e].numTuples && |schema.members[e].members| == |es[e].properties|
    ensures schema.members[e].properties == PropertyAt(schema.members[e].members, 0)
  {
    assert schema.members[e].Valid() && schema.members[e].Spec() == es[e];
  }

  /** The list of properties as the element describes them. */
  lemma DescribedProperty(schema: Schema, es: seq<ElementSpec>, e: nat, p: nat)
    requires schema.Valid() && schema.Specs() == es && e < |es| && p < |es[e].properties|
    ensures e < |schema.members| && p < |schema.members[e].members|
    ensures schema.members[e].members[p].Spec() == es[e].properties[p]
    ensures schema.members[e].members[p].next == PropertyAt(schema.members[e].members, p + 1)
  {
    assert schema.members[e].Valid() && schema.members[e].Spec() == es[e];
  }

  /** The stream is at this position. */
  ghost predicate Reached(ply: Parser, es: seq<ElementSpec>, next: Position)
    reads ply, ply.schema, ply.schema.repr
  {
    Streams(ply, es) && Stands(ply, next)
  }

  lemma StreamsIs(ply: Parser, es: seq<ElementSpec>)
    ensures Streams(ply, es) <==>
      ply.Valid() && ply.schema.Specs() == es && ply.format != Ascii &&
      ply.bufferOffset <= ply.bufferFill <= ply.memoryBreak
  {}

  /** ply_advance */
  method Advance(ply: Parser, ghost es: seq<ElementSpec>, ghost pos: Position) returns (ok: bool)
    requires Streams(ply, es) && Moves(es, pos) && Stands(ply, pos)
    modifies ply`currentElement, ply`currentTuple, ply`currentProperty, ply`currentItem
    modifies ply`bufferOffset, ply`bufferFill, ply.memory, ply.source
    ensures ply.source.good == if Following(es, pos).property > 0 then old(ply.source.good)
                               else Less(old(ply.source.good), 1)
    ensures ok <==> Following(es, pos).property > 0 || !Failing(old(ply.source.good))
    ensures ok ==> Reached(ply, es, Following(es, pos))
    ensures ok ==> Window(ply) == old(Seen(ply, Following(es, pos).property))
    ensures ok ==> ply.source.rest == old(Unseen(ply, Following(es, pos).property))
    ensures UpperKept(ply)
  {
    hide Schema.Valid, Schema.Specs, Spread, ElementAt, Front, Back, PropertyAt;
    if ply.currentProperty == null {
      ok := AdvanceFirst(ply, es);
      return;
    }
    FollowingIs(es, pos);
    hide Following;
    NextProperty(ply, es, pos);
    if ply.currentProperty.next == null {
      ok := AdvanceTuple(ply, es, pos);
    } else {
      AdvanceProperty(ply, es, pos);
      ok := true;
    }
  }

  lemma NextProperty(ply: Parser, es: seq<ElementSpec>, pos: Position)
    requires Streams(ply, es) && pos.At? && Stands(ply, pos)
    ensures ply.currentProperty != null && pos.element < |es| && pos.property < |es[pos.element].properties|
    ensures ply.currentProperty.next ==
            PropertyAt(ply.schema.members[pos.element].members, pos.property + 1)
    ensures ply.currentProperty.next == null <==> pos.property + 1 == |es[pos.element].properties|
  {
    hide Schema.Valid, Schema.Specs, Spread, ElementAt;
    Described(ply.schema, es);
    DescribedElement(ply.schema, es, pos.element);
    DescribedProperty(ply.schema, es, pos.element, pos.property);
  }

  /** To the next property of the same tuple. */
  method AdvanceProperty(ply: Parser, ghost es: seq<ElementSpec>, ghost pos: Position)
    requires Streams(ply, es) && pos.At? && Stands(ply, pos) && pos.element < |es|
    requires pos.property + 1 < |es[pos.element].properties| && ply.currentProperty.next != null
    modifies ply`currentProperty
    ensures Reached(ply, es, At(pos.element, pos.tuple, pos.property + 1))
    ensures Window(ply) == old(Window(ply))
  {
    hide Schema.Valid, Schema.Specs, Spread, ElementAt;
    NextProperty(ply, es, pos);
    ply.currentProperty := ply.currentProperty.next;
    SameSchema(ply.schema);
  }

  method AdvanceFirst(ply: Parser, ghost es: seq<ElementSpec>) returns (ok: bool)
    requires Streams(ply, es) && Stands(ply, Before) && es != [] && HasValues(es[0])
    modifies ply`currentElement, ply`currentTuple, ply`currentProperty,
             ply`currentItem, ply`bufferFill, ply.memory, ply.source
    ensures ply.source.good == Less(old(ply.source.good), 1)
    ensures ok <==> !Failing(old(ply.source.good))
    ensures ok ==> Reached(ply, es, At(0, 0, 0)) && Filled(ply, old(Rest(ply)))
    ensures UpperKept(ply)
  {
    hide Schema.Valid, Schema.Specs, Spread, HasValues, ElementAt, PropertyAt, Filled;
    PointFirst(ply, es);
    SameSchema(ply.schema);
    label pointed:
    ok := Fill(ply);
    SameSchema@pointed(ply.schema);
    StreamsIs(ply, es);
  }

  /** To the first property of the first element. */
  method PointFirst(ply: Parser, ghost es: seq<ElementSpec>)
    requires Streams(ply, es) && es != [] && HasValues(es[0])
    modifies ply`currentElement, ply`currentTuple, ply`currentProperty, ply`currentItem
    ensures |ply.schema.members| > 0 && ply.schema.members[0].numTuples > 0 && |ply.schema.members[0].members| > 0
    ensures ply.currentElement == ply.schema.members[0] && ply.currentTuple == 0
    ensures ply.currentProperty == ply.schema.members[0].members[0]
  {
    hide Schema.Valid, Schema.Specs, Spread;
    Described(ply.schema, es);
    DescribedElement(ply.schema, es, 0);
    ply.currentElement := ply.schema.elements;
    ply.currentTuple := 0;
    ply.currentProperty := ply.currentElement.properties;
    ply.currentItem := 0;
  }

  method AdvanceTuple(ply: Parser, ghost es: seq<ElementSpec>, ghost pos: Position) returns (ok: bool)
    requires Streams(ply, es) && Moves(es, pos) && pos.At? && pos.property + 1 == |es[pos.element].properties|
    requires pos.element < |ply.schema.members| && ply.currentElement == ply.schema.members[pos.element] &&
             ply.currentTuple == pos.tuple
    modifies ply`currentElement, ply`currentTuple, ply`currentProperty,
             ply`bufferOffset, ply`bufferFill, ply.memory, ply.source
    ensures ply.source.good == Less(old(ply.source.good), 1)
    ensures ok <==> !Failing(old(ply.source.good))
    ensures ok ==> Reached(ply, es, Following(es, pos)) && Filled(ply, old(Rest(ply)))
    ensures UpperKept(ply)
  {
    hide Streams, Schema.Valid, Schema.Specs, Spread, Following, HasValues, ElementAt, Enter, Filled;
    assert InRange(es, Following(es, pos));
    hide InRange;
    StreamsIs(ply, es);
    Cross(ply, es, pos);
    SameSchema(ply.schema);
    label crossed:
    ok := Slide(ply);
    SameSchema@crossed(ply.schema);
    StreamsIs(ply, es);
  }

  /** To the next tuple, or to the next element's first. */
  method Cross(ply: Parser, ghost es: seq<ElementSpec>, ghost pos: Position)
    requires Streams(ply, es) && Moves(es, pos) && pos.At? && pos.property + 1 == |es[pos.element].properties|
    requires pos.element < |ply.schema.members| && ply.currentElement == ply.schema.members[pos.element] &&
             ply.currentTuple == pos.tuple
    modifies ply`currentElement, ply`currentTuple, ply`currentProperty
    ensures var At(e, t, p) := Following(es, pos);
            p == 0 && e < |ply.schema.members| && t < ply.schema.members[e].numTuples &&
            |ply.schema.members[e].members| > 0 &&
            ply.currentElement == ply.schema.members[e] && ply.currentTuple == t &&
            ply.currentProperty == ply.schema.members[e].members[0]
  {
    hide Schema.Valid, Schema.Specs, Spread;
    Described(ply.schema, es);
    DescribedElement(ply.schema, es, pos.element);
    DescribedElement(ply.schema, es, Following(es, pos).element);
    ply.currentTuple := ply.currentTuple + 1;
    if ply.currentTuple >= ply.currentElement.numTuples {
      ply.currentElement := ply.currentElement.next;
      if ply.currentElement == null {
        ply.currentElement := ply.schema.elements;
      }
      ply.currentTuple := 0;
    }
    ply.currentProperty := ply.currentElement.properties;
  }

  /** The first bytes of the window, and those behind them. */
  lemma TakeFront(memory: Bytes, from: nat, to: nat, n: nat)
    requires from + n <= to <= |memory|
    ensures memory[from..to][..n] == memory[from..from + n] && memory[from..to][n..] == memory[from + n..to]
  {}

  /** Reads a scalar from the window and goes past it, unless it goes past the window: what is there depends
      on what earlier reads left in the memory, and nothing is said of what follows. */
  method ReadScalarAt(ply: Parser, t: PlyType) returns (r: int, value: Scalar, past: bool)
    requires Bounds(ply)
    modifies ply`bufferOffset
    ensures Bounds(ply)
    ensures match ReadScalar(ply.format, t, old(Window(ply)))
            case Got(v, rest) => !past && r >= 0 && value == v && Window(ply) == rest
            case Fails(code, _) => !past && r == code && code < 0
            case Short => past
  {
    hide FromBytes, Reversed;
    if (ply.format == LittleEndian || ply.format == BigEndian) && Size(t) > ply.bufferFill - ply.bufferOffset {
      return 0, Narrow(0), true;
    }
    past := false;
    r, value := ReadBinary(ply.format, ply.memory, ply.bufferOffset, t);
    if r >= 0 {
      TakeFront(ply.memory[..], ply.bufferOffset, ply.bufferFill, Size(t));
      ply.bufferOffset := ply.bufferOffset + r;
    }
  }

  /** The property at a position. */
  function PropertyOn(es: seq<ElementSpec>, pos: Position): PropertySpec
    requires pos.At? && InRange(es, pos)
  {
    es[pos.element].properties[pos.property]
  }

  /** A value came out like this. */
  ghost predicate Came(ply: Parser, read: Read, r: int, value: Scalar, past: bool)
    reads ply, ply.memory
  {
    && Bounds(ply)
    && match read
       case Got(v, rest) => !past && r == 0 && value == v && Window(ply) == rest
       case Fails(code, _) => !past && r == code && code < 0
       case Short => past
  }

  /** The value, or the length of the list, of the property the parser is at. */
  method ReadCurrent(ply: Parser, property: Property, ghost p: PropertySpec)
    returns (r: int, value: Scalar, past: bool)
    requires Bounds(ply) && property.Spec() == p
    modifies ply`bufferOffset, ply`currentItem
    ensures Came(ply, ReadValue(ply.format, p, old(Window(ply))), r, value, past)
  {
    hide ReadScalar, Words.Int32, Size;
    ScalarWide(ply.format, p, Window(ply));
    if property.isList {
      var lengthValue;
      r, lengthValue, past := ReadScalarAt(ply, property.lengthType);
      if past || r < 0 {
        return r, lengthValue, past;
      }
      if Signed(property.lengthType) {
        if Words.Int32(lengthValue.word) < 0 {
          return PLY_ERR_SYNTAX, lengthValue, past;
        }
      } else if property.lengthType == Float32 || property.lengthType == Float64 {
        return PLY_ERR_SYNTAX, lengthValue, past;
      }
      value := lengthValue;
      ply.currentItem := 0;
    } else {
      r, value, past := ReadScalarAt(ply, property.scalarType);
      if past || r < 0 {
        return;
      }
    }
    r := 0;
  }

  /** Only one type is wide. */
  lemma ScalarWide(format: Format, p: PropertySpec, raw: Bytes)
    ensures var t := if p.isList then p.lengthType else p.scalarType;
            var read := ReadScalar(format, t, raw);
            read.Got? ==> (read.value.Wide? <==> t == Float64)
  {
    hide Words.Int32, Join, Reversed;
  }

  /** Does coming to this position take a read that fails? */
  ghost predicate Starves(ply: Parser, next: Position)
    reads ply, ply.source
  {
    next.At? && next.property == 0 && Failing(ply.source.good)
  }

  /** ply_stream_value */
  method StreamValue(ply: Parser, ghost es: seq<ElementSpec>, ghost pos: Position)
    returns (r: int, value: Scalar, past: bool)
    requires Streams(ply, es) && Moves(es, pos) && Stands(ply, pos)
    modifies ply`currentElement, ply`currentTuple, ply`currentProperty, ply`currentItem
    modifies ply`bufferOffset, ply`bufferFill, ply.memory, ply.source
    ensures ply.source.good == if Following(es, pos).property > 0 then old(ply.source.good)
                               else Less(old(ply.source.good), 1)
    ensures var next := Following(es, pos);
            if old(Starves(ply, next)) then r == PLY_ERR_READ && !past
            else
              && Reached(ply, es, next) && ply.source.rest == old(Unseen(ply, next.property))
              && Came(ply, ReadValue(ply.format, PropertyOn(es, next), old(Seen(ply, next.property))), r, value, past)
    ensures UpperKept(ply)
  {
    hide Schema.Valid, Schema.Specs, Spread, Following, ReadValue, Came, Front, Back;
    ghost var next := Following(es, pos);
    value, past := Narrow(0), false;
    var ok := Advance(ply, es, pos);
    if !ok {
      return PLY_ERR_READ, value, past;
    }
    r, value, past := ReadOn(ply, es, next);
  }

  method ReadOn(ply: Parser, ghost es: seq<ElementSpec>, ghost pos: Position)
    returns (r: int, value: Scalar, past: bool)
    requires Reached(ply, es, pos) && pos.At? && InRange(es, pos)
    modifies ply`bufferOffset, ply`currentItem
    ensures Reached(ply, es, pos)
    ensures Came(ply, ReadValue(ply.format, PropertyOn(es, pos), old(Window(ply))), r, value, past)
  {
    hide Schema.Valid, Schema.Specs, Spread, ReadValue;
    DescribedProperty(ply.schema, es, pos.element, pos.property);
    r, value, past := ReadCurrent(ply, ply.currentProperty, PropertyOn(es, pos));
    SameSchema(ply.schema);
  }

  /** ply_stream_list_item */
  method StreamListItem(ply: Parser, ghost es: seq<ElementSpec>, ghost pos: Position)
    returns (r: int, value: Scalar, past: bool)
    requires Reached(ply, es, pos) && pos.At? && InRange(es, pos)
    modifies ply`bufferOffset, ply`currentItem
    ensures Reached(ply, es, pos)
    ensures Came(ply, ReadScalar(ply.format, PropertyOn(es, pos).scalarType, old(Window(ply))), r, value, past)
  {
    hide Schema.Valid, Schema.Specs, Spread, ReadScalar;
    DescribedProperty(ply.schema, es, pos.element, pos.property);
    r, value, past := ReadItem(ply, ply.currentProperty.scalarType);
    SameSchema(ply.schema);
  }

  method ReadItem(ply: Parser, t: PlyType) returns (r: int, value: Scalar, past: bool)
    requires Bounds(ply)
    modifies ply`bufferOffset, ply`currentItem
    ensures Came(ply, ReadScalar(ply.format, t, old(Window(ply))), r, value, past)
  {
    r, value, past := ReadScalarAt(ply, t);
    if past || r < 0 {
      return;
    }
    ply.currentItem := ply.currentItem + 1;
    r := 0;
  }
}
