/** PLY headers written from data, and what the parser makes of them. */
module PlyHeaderText {
  import opened Wrappers
  import opened Words
  import opened PlyTokens
  import opened PlyTypeNames
  import opened PlyHeaderSpec
  import opened PlyHeaderFacts

  // ---- what a header says ----

  /** A type under one of its two names. */
  datatype TypeWord = TypeWord(meant: PlyType, alias: bool)

  datatype Kind = Plain(value: TypeWord) | Listed(length: TypeWord, item: TypeWord)

  /** Comment lines may stand before everything. */
  datatype PropertyText = PropertyText(comments: seq<Bytes>, name: Bytes, kind: Kind)

  datatype ElementText = ElementText(comments: seq<Bytes>, name: Bytes, count: nat, properties: seq<PropertyText>)

  datatype Coding = Text | Little | Big

  datatype HeaderText = HeaderText(early: seq<Bytes>, coding: Coding, elements: seq<ElementText>, late: seq<Bytes>)

  // ---- writing it: each part before what stands behind it in the file ----

  function Numeral(n: nat): (digits: Bytes)
    ensures |digits| >= 1
  {
    if n < 10 then [Byte(48 + n)] else Numeral(n / 10) + [Byte(48 + n % 10)]
  }

  function Spaced(words: seq<Bytes>): Bytes {
    if words == [] then [] else if |words| == 1 then words[0] else words[0] + ([32] + Spaced(words[1..]))
  }

  function LineBefore(line: Bytes, behind: Bytes): Bytes {
    line + ([10] + behind)
  }

  function CommentsBefore(comments: seq<Bytes>, behind: Bytes): Bytes {
    if comments == [] then behind
    else LineBefore(Name("comment") + comments[0], CommentsBefore(comments[1..], behind))
  }

  function Spelt(w: TypeWord): Bytes {
    Name(if w.alias then Spellings(w.meant).1 else Spellings(w.meant).0)
  }

  function PropertyWords(p: PropertyText): seq<Bytes> {
    match p.kind
    case Plain(value) => [Name("property"), Spelt(value), p.name]
    case Listed(length, item) => [Name("property"), Name("list"), Spelt(length), Spelt(item), p.name]
  }

  function PropertiesBefore(ps: seq<PropertyText>, behind: Bytes): Bytes {
    if ps == [] then behind
    else CommentsBefore(ps[0].comments, LineBefore(Spaced(PropertyWords(ps[0])), PropertiesBefore(ps[1..], behind)))
  }

  function ElementWords(e: ElementText): seq<Bytes> {
    [Name("element"), e.name, Numeral(e.count)]
  }

  function ElementsBefore(es: seq<ElementText>, behind: Bytes): Bytes {
    if es == [] then behind
    else
      var properties := PropertiesBefore(es[0].properties, ElementsBefore(es[1..], behind));
      CommentsBefore(es[0].comments, LineBefore(Spaced(ElementWords(es[0])), properties))
  }

  function CodingWord(c: Coding): Bytes {
    match c
    case Text => Name("ascii")
    case Little => Name("binary_little_endian")
    case Big => Name("binary_big_endian")
  }

  function FormatWords(c: Coding): seq<Bytes> {
    [Name("format"), CodingWord(c), Name("1.0")]
  }

  /** The file of a header and a body. */
  function Written(d: HeaderText, body: Bytes): Bytes {
    var elements := ElementsBefore(d.elements, CommentsBefore(d.late, LineBefore(Name("end_header"), body)));
    LineBefore(Name("ply"), CommentsBefore(d.early, LineBefore(Spaced(FormatWords(d.coding)), elements)))
  }

  // ---- what can be written ----

  predicate GoodName(name: Bytes) {
    |name| >= 1 && 0 !in name && 10 !in name && 32 !in name
  }

  predicate GoodComments(comments: seq<Bytes>) {
    forall k :: 0 <= k < |comments| ==>
      && |comments[k]| <= 1016 && 0 !in comments[k] && 10 !in comments[k]
      && (comments[k] != [] ==> comments[k][0] == 32)
  }

  predicate GoodProperty(p: PropertyText) {
    && GoodName(p.name) && GoodComments(p.comments) && |Spaced(PropertyWords(p))| <= 1023
    && (p.kind.Listed? ==> p.kind.length.meant != Float32 && p.kind.length.meant != Float64)
  }

  predicate GoodProperties(ps: seq<PropertyText>) {
    forall k :: 0 <= k < |ps| ==> GoodProperty(ps[k])
  }

  predicate GoodElement(e: ElementText) {
    GoodName(e.name) && GoodComments(e.comments) && |Spaced(ElementWords(e))| <= 1023 && GoodProperties(e.properties)
  }

  predicate GoodElements(es: seq<ElementText>) {
    forall k :: 0 <= k < |es| ==> GoodElement(es[k])
  }

  predicate Good(d: HeaderText) {
    GoodComments(d.early) && GoodElements(d.elements) && GoodComments(d.late)
  }

  // ---- what it should be read as ----

  /** Names are kept up to 31 bytes. */
  function Kept(name: Bytes): Bytes {
    if |name| <= 31 then name else name[..31]
  }

  function PropertyMeant(p: PropertyText): PropertySpec {
    match p.kind
    case Plain(value) => PropertySpec(Kept(p.name), false, Int8, value.meant)
    case Listed(length, item) => PropertySpec(Kept(p.name), true, length.meant, item.meant)
  }

  function PropertiesMeant(ps: seq<PropertyText>): seq<PropertySpec> {
    seq(|ps|, k requires 0 <= k < |ps| => PropertyMeant(ps[k]))
  }

  /** Counts beyond an unsigned long are read as the largest one. */
  function ElementMeant(e: ElementText): ElementSpec {
    var count := if e.count <= 0xFFFF_FFFF_FFFF_FFFF then e.count else 0xFFFF_FFFF_FFFF_FFFF;
    ElementSpec(Kept(e.name), count, PropertiesMeant(e.properties))
  }

  function ElementsMeant(es: seq<ElementText>): seq<ElementSpec> {
    seq(|es|, k requires 0 <= k < |es| => ElementMeant(es[k]))
  }

  function FormatMeant(c: Coding): Format {
    match c
    case Text => Ascii
    case Little => LittleEndian
    case Big => BigEndian
  }

  /** The memory the records take. */
  function Room(es: seq<ElementText>): nat {
    if es == [] then 0 else 80 + 64 * |es[0].properties| + Room(es[1..])
  }

  function PropertyLines(ps: seq<PropertyText>): nat {
    if ps == [] then 0 else |ps[0].comments| + 1 + PropertyLines(ps[1..])
  }

  function ElementLines(es: seq<ElementText>): nat {
    if es == [] then 0 else |es[0].comments| + 1 + PropertyLines(es[0].properties) + ElementLines(es[1..])
  }

  /** There is a read for `ply`, and one for each line. */
  function ReadsTaken(d: HeaderText): nat {
    1 + |d.early| + 1 + ElementLines(d.elements) + |d.late| + 1
  }

  predicate Enough(good: Reads, n: nat) {
    good.Some? ==> good.value >= n
  }

  // ---- words ----

  lemma {:induction false} NextShifted(a: Bytes, b: Bytes, from: nat)
    requires from <= |b|
    ensures NextOther(a + b, 32, |a| + from) == |a| + NextOther(b, 32, from)
    ensures NextDelim(a + b, 32, |a| + from) == |a| + NextDelim(b, 32, from)
    decreases |b| - from
  {
    if from < |b| {
      assert (a + b)[|a| + from] == b[from];
      NextShifted(a, b, from + 1);
    }
  }

  lemma {:induction false} TokensShifted(a: Bytes, b: Bytes, from: nat)
    requires from <= |b|
    ensures Tokens(a + b, 32, |a| + from) == Tokens(b, 32, from)
    decreases |b| - from
  {
    hide NextOther, NextDelim, Tokens;
    NextShifted(a, b, from);
    TokensFrom(a + b, |a| + from);
    TokensFrom(b, from);
    var start := NextOther(b, 32, from);
    if start < |b| {
      NextShifted(a, b, start);
      var end := NextDelim(b, 32, start);
      TokensShifted(a, b, end);
      SliceShifted(a, b, start, end);
    }
  }

  lemma TokensFrom(s: Bytes, from: nat)
    requires from <= |s|
    ensures var start := NextOther(s, 32, from); var end := NextDelim(s, 32, start);
            Tokens(s, 32, from) == if start == |s| then [] else [s[start..end]] + Tokens(s, 32, end)
  {
    hide NextOther, NextDelim;
  }

  lemma SliceShifted(a: Bytes, b: Bytes, from: nat, to: nat)
    requires from <= to <= |b|
    ensures (a + b)[|a| + from..|a| + to] == b[from..to]
  {}

  /** A word at the start of a line is its first token. */
  lemma FirstWord(word: Bytes, rest: Bytes)
    requires |word| >= 1 && 32 !in word && (rest != [] ==> rest[0] == 32)
    ensures Tokens(word + rest, 32, 0) == [word] + Tokens(rest, 32, 0)
  {
    hide NextOther, NextDelim;
    var s := word + rest;
    assert s[..|word|] == word;
    var end := NextDelim(s, 32, 0);
    assert forall k :: 0 <= k < |word| ==> s[k] == word[k] && word[k] != 32;
    if end < |word| { assert false; }
    assert s[0] != 32 && (rest != [] ==> s[|word|] == 32);
    TokensShifted(word, rest, 0);
  }

  lemma SpaceBefore(rest: Bytes)
    ensures Tokens([32] + rest, 32, 0) == Tokens(rest, 32, 0)
  {
    TokensBehind([32] + rest, 32, 0);
    TokensShifted([32], rest, 0);
  }

  lemma NoTokens()
    ensures Tokens([], 32, 0) == []
  {}

  predicate GoodWords(words: seq<Bytes>) {
    forall k :: 0 <= k < |words| ==> GoodName(words[k])
  }

  /** Words written with spaces between them are the tokens of the line. */
  lemma {:induction false} TokensOfSpaced(words: seq<Bytes>)
    requires GoodWords(words)
    ensures Tokens(Spaced(words), 32, 0) == words
    ensures 0 !in Spaced(words) && 10 !in Spaced(words)
  {
    hide Tokens;
    if words == [] {
      NoTokens();
    } else if |words| == 1 {
      FirstWord(words[0], []);
      NoTokens();
      assert words[0] + [] == words[0] && [words[0]] + [] == words;
    } else {
      TokensOfSpaced(words[1..]);
      FirstWord(words[0], [32] + Spaced(words[1..]));
      SpaceBefore(Spaced(words[1..]));
      assert [words[0]] + words[1..] == words;
    }
  }

  predicate Printing(s: string) {
    |s| >= 1 && forall k :: 0 <= k < |s| ==> 33 <= s[k] as int < 128
  }

  lemma PrintingGood(s: string)
    requires Printing(s)
    ensures GoodName(Name(s)) && |Name(s)| == |s|
  {
    hide Byte;
    forall k | 0 <= k < |s| ensures Name(s)[k] != 0 && Name(s)[k] != 10 && Name(s)[k] != 32 {
      PrintingByte(s[k] as int);
    }
  }

  lemma PrintingByte(n: nat)
    requires 33 <= n < 128
    ensures Byte(n) != 0 && Byte(n) != 10 && Byte(n) != 32
  {
    hide Byte;
    ValueOfByte(n);
  }

  lemma NamesDiffer(s: string, t: string)
    requires PlyTypeNames.Ascii(s) && PlyTypeNames.Ascii(t) && s != t
    ensures Name(s) != Name(t)
  {
    hide Name;
    TextOfName(s);
    TextOfName(t);
  }

  lemma SpeltGood(w: TypeWord)
    ensures GoodName(Spelt(w)) && Spelt(w) != Name("list") && TypeOf(Spelt(w)) == Some(w.meant)
  {
    hide Name, TypeOf;
    TypeOfExact(Spelt(w), w.meant);
    var s := if w.alias then Spellings(w.meant).1 else Spellings(w.meant).0;
    PrintingGood(s);
    NamesDiffer(s, "list");
  }

  // ---- numbers ----

  lemma DigitByte(d: nat)
    requires d < 10
    ensures IsDigit(Byte(48 + d)) && ByteValue(Byte(48 + d) - 48) == d
  {}

  lemma {:induction false} NumeralDigits(n: nat)
    ensures forall k :: 0 <= k < |Numeral(n)| ==> IsDigit(Numeral(n)[k])
    ensures Decimal(Numeral(n)) == n
  {
    hide Byte, ByteValue;
    DigitByte(n % 10);
    var s := Numeral(n);
    if n < 10 {
      assert s[..|s| - 1] == [];
    } else {
      NumeralDigits(n / 10);
      assert s[..|s| - 1] == Numeral(n / 10);
    }
  }

  lemma {:induction false} AllDigits(s: Bytes, from: nat)
    requires from <= |s| && forall k :: 0 <= k < |s| ==> IsDigit(s[k])
    ensures SkipDigits(s, from) == |s|
    decreases |s| - from
  {
    if from < |s| { AllDigits(s, from + 1); }
  }

  lemma NumeralCounts(n: nat)
    ensures TupleCount(Numeral(n)) == Some(if n <= 0xFFFF_FFFF_FFFF_FFFF then n else 0xFFFF_FFFF_FFFF_FFFF)
    ensures GoodName(Numeral(n))
  {
    hide Numeral, Decimal, SkipDigits;
    NumeralDigits(n);
    var s := Numeral(n);
    AllDigits(s, 0);
    assert SkipSpaces(s, 0) == 0;
    assert s[0..|s|] == s;
  }

  // ---- lines ----

  lemma LineEnds(line: Bytes, behind: Bytes)
    requires 0 !in line && 10 !in line
    ensures LineEnd(LineBefore(line, behind)) == |line|
    ensures |LineBefore(line, behind)| > |line|
    ensures LineBefore(line, behind)[..|line|] == line && LineBefore(line, behind)[|line|] == 10
    ensures LineBefore(line, behind)[|line| + 1..] == behind
  {
    hide LineEnd;
    var s := LineBefore(line, behind);
    var n := LineEnd(s);
    assert forall k :: 0 <= k < |line| ==> s[k] == line[k] && line[k] != 0 && line[k] != 10;
    assert s[|line|] == 10;
    if n < |line| { assert false; }
  }

  /** How a header comes out behind a line. */
  function After(h: Header, line: Line, behind: Bytes, good: Reads): Outcome {
    match line
    case Next(next) => Lines(next, behind, good)
    case Last => Parsed(h, behind, good)
    case Refused(code) => Failed(code)
    case Full => OutOfMemory
  }

  /** A line at the start of the rest of a header. */
  lemma LineRead(h: Header, line: Bytes, behind: Bytes, good: Reads)
    requires 0 !in line && 10 !in line && |line| <= 1023 && Enough(good, 1)
    ensures Lines(h, LineBefore(line, behind), good) ==
            After(h, HeaderLine(h, Tokens(line, 32, 0)), behind, Less(good, 1))
  {
    hide HeaderLine, Tokens, LineEnd, LineBefore;
    LineEnds(line, behind);
  }

  /** The same for a line of words. */
  lemma WordsRead(h: Header, words: seq<Bytes>, behind: Bytes, good: Reads)
    requires GoodWords(words) && |Spaced(words)| <= 1023 && Enough(good, 1)
    ensures Lines(h, LineBefore(Spaced(words), behind), good) ==
            After(h, HeaderLine(h, words), behind, Less(good, 1))
  {
    hide HeaderLine, Tokens, LineBefore, Lines, Spaced, GoodWords;
    TokensOfSpaced(words);
    LineRead(h, Spaced(words), behind, good);
  }

  lemma CommentRead(h: Header, comment: Bytes, behind: Bytes, good: Reads)
    requires GoodComments([comment]) && Enough(good, 1)
    ensures Lines(h, LineBefore(Name("comment") + comment, behind), good) == Lines(h, behind, Less(good, 1))
  {
    hide Tokens, LineBefore, Lines, Name, FormatPart, ElementPart, PropertyPart;
    assert [comment][0] == comment;
    PrintingGood("comment");
    FirstWord(Name("comment"), comment);
    CommentLine(h, Tokens(comment, 32, 0));
    LineRead(h, Name("comment") + comment, behind, good);
  }

  lemma CommentLine(h: Header, rest: seq<Bytes>)
    ensures HeaderLine(h, [Name("comment")] + rest) == Next(h)
  {
    hide Name, FormatPart, ElementPart, PropertyPart;
    NamesDiffer("comment", "end_header");
    NamesDiffer("comment", "format");
    NamesDiffer("comment", "element");
    NamesDiffer("comment", "property");
  }

  lemma {:induction false} CommentsRead(h: Header, comments: seq<Bytes>, behind: Bytes, good: Reads)
    requires GoodComments(comments) && Enough(good, |comments|)
    ensures Lines(h, CommentsBefore(comments, behind), good) == Lines(h, behind, Less(good, |comments|))
  {
    hide Lines, LineBefore, Name;
    if comments != [] {
      CommentRead(h, comments[0], CommentsBefore(comments[1..], behind), good);
      CommentsRead(h, comments[1..], behind, Less(good, 1));
    }
  }

  lemma FormatLine(h: Header, c: Coding)
    ensures HeaderLine(h, FormatWords(c)) == Next(h.(format := FormatMeant(c)))
    ensures GoodWords(FormatWords(c)) && |Spaced(FormatWords(c))| <= 1023
  {
    hide Name, ElementPart, PropertyPart;
    PrintingGood("format");
    PrintingGood("1.0");
    PrintingGood("ascii");
    PrintingGood("binary_little_endian");
    PrintingGood("binary_big_endian");
    NamesDiffer("format", "end_header");
    var ts := FormatWords(c);
    assert ts[1..] == [CodingWord(c), Name("1.0")] && ts[1..][2..] == [];
    assert ts[1..] == [ts[1], ts[2]] && ts[2..] == [ts[2]];
  }

  lemma ElementLine(h: Header, e: ElementText)
    requires h.memoryBreak % 16 == 0
    ensures HeaderLine(h, ElementWords(e)) ==
            if h.memoryBreak >= 1024 + 80
            then Next(Header(h.format, h.elements + [ElementMeant(e.(properties := []))], h.memoryBreak - 80)) else Full
  {
    hide Name, FormatPart, PropertyPart, Numeral, TupleCount;
    NamesDiffer("element", "end_header");
    NamesDiffer("element", "format");
    NumeralCounts(e.count);
    var ts := ElementWords(e);
    assert ts[1..] == [e.name, Numeral(e.count)] && ts[1..][2..] == [];
    assert PropertiesMeant([]) == [];
    assert ElementPart(h, ts[1..]).Part? ==> ElementPart(h, ts[1..]).rest == [];
  }

  lemma PropertyFound(p: PropertyText)
    requires GoodProperty(p)
    ensures var ts := PropertyWords(p);
            PropertyOf(ts[1..]) == Some((PropertyMeant(p), |ts| - 1)) && |ts| >= 3 && ts[0] == Name("property")
  {
    hide Name, TypeOf, Spaced, Spelt, GoodName, GoodComments;
    var ts := PropertyWords(p);
    match p.kind
    case Plain(value) =>
      SpeltGood(value);
      assert ts[1..] == [Spelt(value), p.name];
    case Listed(length, item) =>
      SpeltGood(length);
      SpeltGood(item);
      assert ts[1..] == [Name("list"), Spelt(length), Spelt(item), p.name];
  }

  lemma PropertyLine(h: Header, p: PropertyText)
    requires h.memoryBreak % 16 == 0 && h.elements != [] && GoodProperty(p)
    ensures HeaderLine(h, PropertyWords(p)) ==
            if h.memoryBreak >= 1024 + 64
            then Next(Header(h.format, Extended(h.elements, [PropertyMeant(p)]), h.memoryBreak - 64)) else Full
  {
    hide Name, FormatPart, ElementPart, PropertyOf, PropertyMeant, GoodProperty;
    NamesDiffer("property", "end_header");
    NamesDiffer("property", "format");
    NamesDiffer("property", "element");
    PropertyFound(p);
    var es, last := h.elements, |h.elements| - 1;
    assert AddProperty(es, PropertyMeant(p)) == Extended(es, [PropertyMeant(p)]);
  }

  // ---- parts of a header ----

  lemma ExtendedTwice(es: seq<ElementSpec>, p: PropertySpec, ps: seq<PropertySpec>)
    requires es != []
    ensures Extended(Extended(es, [p]), ps) == Extended(es, [p] + ps) && Extended(es, [p]) != []
  {
    var last := es[|es| - 1];
    assert (last.properties + [p]) + ps == last.properties + ([p] + ps);
  }

  /** The properties of the last element, if there is room for them. */
  lemma {:induction false} PropertiesRead(h: Header, ps: seq<PropertyText>, behind: Bytes, good: Reads)
    requires h.memoryBreak % 16 == 0 && h.memoryBreak >= 1024 && h.elements != []
    requires GoodProperties(ps) && Enough(good, PropertyLines(ps))
    ensures Lines(h, PropertiesBefore(ps, behind), good) ==
            if h.memoryBreak < 1024 + 64 * |ps| then OutOfMemory
            else Lines(Header(h.format, Extended(h.elements, PropertiesMeant(ps)), h.memoryBreak - 64 * |ps|), behind,
                       Less(good, PropertyLines(ps)))
    decreases |ps|
  {
    hide Lines, CommentsBefore, LineBefore, Spaced, GoodProperty, PropertyMeant, HeaderLine, PropertyWords;
    if ps == [] {
      ExtendedByNothing(h.elements);
      assert PropertiesMeant(ps) == [];
    } else {
      var p, more := ps[0], PropertiesBefore(ps[1..], behind);
      PropertyRead(h, p, more, good);
      assert PropertiesMeant(ps) == [PropertyMeant(p)] + PropertiesMeant(ps[1..]);
      if h.memoryBreak >= 1024 + 64 {
        var next := Header(h.format, Extended(h.elements, [PropertyMeant(p)]), h.memoryBreak - 64);
        ExtendedTwice(h.elements, PropertyMeant(p), PropertiesMeant(ps[1..]));
        PropertiesRead(next, ps[1..], behind, Less(good, |p.comments| + 1));
      }
    }
  }

  lemma PropertyRead(h: Header, p: PropertyText, behind: Bytes, good: Reads)
    requires h.memoryBreak % 16 == 0 && h.elements != []
    requires GoodProperty(p) && Enough(good, |p.comments| + 1)
    ensures Lines(h, CommentsBefore(p.comments, LineBefore(Spaced(PropertyWords(p)), behind)), good) ==
            if h.memoryBreak < 1024 + 64 then OutOfMemory
            else Lines(Header(h.format, Extended(h.elements, [PropertyMeant(p)]), h.memoryBreak - 64), behind,
                       Less(good, |p.comments| + 1))
  {
    hide Lines, CommentsBefore, LineBefore, Spaced, PropertyMeant, HeaderLine, PropertyWords, GoodComments, GoodName;
    CommentsRead(h, p.comments, LineBefore(Spaced(PropertyWords(p)), behind), good);
    PropertyGood(p);
    WordsRead(h, PropertyWords(p), behind, Less(good, |p.comments|));
    PropertyLine(h, p);
  }

  lemma PropertyGood(p: PropertyText)
    requires GoodProperty(p)
    ensures GoodWords(PropertyWords(p))
  {
    hide Name, Spelt, GoodName, TypeOf;
    PrintingGood("property");
    PrintingGood("list");
    match p.kind
    case Plain(value) => SpeltGood(value);
    case Listed(length, item) => SpeltGood(length); SpeltGood(item);
  }

  /** The line of an element, with the comments before it. */
  lemma ElementBegins(h: Header, e: ElementText, behind: Bytes, good: Reads)
    requires h.memoryBreak % 16 == 0 && GoodElement(e) && Enough(good, |e.comments| + 1)
    ensures Lines(h, CommentsBefore(e.comments, LineBefore(Spaced(ElementWords(e)), behind)), good) ==
            if h.memoryBreak < 1024 + 80 then OutOfMemory
            else Lines(Header(h.format, h.elements + [ElementMeant(e.(properties := []))], h.memoryBreak - 80), behind,
                       Less(good, |e.comments| + 1))
  {
    hide Lines, CommentsBefore, LineBefore, Spaced, ElementMeant, HeaderLine, GoodComments, GoodName, Numeral;
    hide GoodProperties, Name;
    CommentsRead(h, e.comments, LineBefore(Spaced(ElementWords(e)), behind), good);
    PrintingGood("element");
    NumeralCounts(e.count);
    WordsRead(h, ElementWords(e), behind, Less(good, |e.comments|));
    ElementLine(h, e);
  }

  lemma ElementRead(h: Header, e: ElementText, behind: Bytes, good: Reads)
    requires h.memoryBreak % 16 == 0 && h.memoryBreak >= 1024 && GoodElement(e)
    requires Enough(good, |e.comments| + 1 + PropertyLines(e.properties))
    ensures var file := CommentsBefore(e.comments, LineBefore(Spaced(ElementWords(e)),
                                                              PropertiesBefore(e.properties, behind)));
            var room := 80 + 64 * |e.properties|;
            Lines(h, file, good) ==
            if h.memoryBreak < 1024 + room then OutOfMemory
            else Lines(Header(h.format, h.elements + [ElementMeant(e)], h.memoryBreak - room), behind,
                       Less(good, |e.comments| + 1 + PropertyLines(e.properties)))
  {
    hide Lines, CommentsBefore, LineBefore, Spaced, ElementWords, GoodComments, GoodName, PropertiesBefore;
    hide PropertyLines, Kept, Extended, GoodProperties, PropertiesMeant;
    ElementBegins(h, e, PropertiesBefore(e.properties, behind), good);
    if h.memoryBreak >= 1024 + 80 {
      var empty := ElementMeant(e.(properties := []));
      NothingMeant();
      LastExtended(h.elements, empty, PropertiesMeant(e.properties));
      PropertiesRead(Header(h.format, h.elements + [empty], h.memoryBreak - 80), e.properties, behind,
                     Less(good, |e.comments| + 1));
    }
  }

  lemma NothingMeant()
    ensures PropertiesMeant([]) == []
  {}

  lemma {:induction false} ElementsRead(h: Header, es: seq<ElementText>, behind: Bytes, good: Reads)
    requires h.memoryBreak % 16 == 0 && h.memoryBreak >= 1024
    requires GoodElements(es) && Enough(good, ElementLines(es))
    ensures Lines(h, ElementsBefore(es, behind), good) ==
            if h.memoryBreak < 1024 + Room(es) then OutOfMemory
            else Lines(Header(h.format, h.elements + ElementsMeant(es), h.memoryBreak - Room(es)), behind,
                       Less(good, ElementLines(es)))
    decreases |es|
  {
    hide Lines, CommentsBefore, LineBefore, Spaced, GoodElement, ElementMeant, HeaderLine, ElementWords;
    hide PropertiesBefore, PropertyLines;
    if es == [] {
      assert h.elements + ElementsMeant(es) == h.elements;
    } else {
      var e := es[0];
      ElementRead(h, e, ElementsBefore(es[1..], behind), good);
      var room := 80 + 64 * |e.properties|;
      if h.memoryBreak >= 1024 + room {
        var next := Header(h.format, h.elements + [ElementMeant(e)], h.memoryBreak - room);
        ElementsRead(next, es[1..], behind, Less(good, |e.comments| + 1 + PropertyLines(e.properties)));
        assert next.elements + ElementsMeant(es[1..]) == h.elements + ElementsMeant(es);
      }
    }
  }

  // ---- the round trip ----

  lemma MagicRead(rest: Bytes)
    ensures var file := LineBefore(Name("ply"), rest);
            |file| >= 4 && file[..4] == Name("ply\n") && file[4..] == rest
  {
    hide Byte;
    NewlineByte();
    assert Name("ply") + [10] == Name("ply\n");
    assert LineBefore(Name("ply"), rest) == Name("ply\n") + rest;
  }

  lemma NewlineByte()
    ensures Byte(10) == 10
  {
    hide Pack;
    PackedNewline();
    assert Digits(10) == Bits(false, true, false, true, false, false, false, false);
  }

  lemma PackedNewline()
    ensures Pack(Bits(false, true, false, true, false, false, false, false)) == 10
  {}

  /** Behind the last element. */
  lemma EndRead(h: Header, late: seq<Bytes>, body: Bytes, good: Reads)
    requires GoodComments(late) && Enough(good, |late| + 1)
    ensures Lines(h, CommentsBefore(late, LineBefore(Name("end_header"), body)), good) ==
            Parsed(h, body, Less(good, |late| + 1))
  {
    hide Lines, CommentsBefore, LineBefore, Name, GoodComments, FormatPart, ElementPart, PropertyPart;
    CommentsRead(h, late, LineBefore(Name("end_header"), body), good);
    PrintingGood("end_header");
    var words := [Name("end_header")];
    assert Spaced(words) == Name("end_header") && HeaderLine(h, words) == Last;
    WordsRead(h, words, body, Less(good, |late|));
  }

  /** Every header that is written is read as what it says, and nothing of the body is lost: format, names up
      to 31 bytes, counts, types and list lengths, in order. It takes 80 bytes of memory for an element and 64
      for a property, and 1024 must be left; this decides whether there is enough. */
  lemma HeaderReadsBack(d: HeaderText, body: Bytes, memorySize: nat, good: Reads)
    requires Good(d) && memorySize >= 1024 && Enough(good, ReadsTaken(d))
    ensures var left := memorySize - memorySize % 16 - Room(d.elements);
            FileHeader(Written(d, body), memorySize, good) ==
            if left < 1024 then OutOfMemory
            else Parsed(Header(FormatMeant(d.coding), ElementsMeant(d.elements), left), body, Less(good, ReadsTaken(d)))
  {
    hide Lines, CommentsBefore, LineBefore, Spaced, GoodComments, GoodElements, HeaderLine, ElementsBefore;
    hide Name, FormatWords, FormatMeant, ElementsMeant, Room, ElementLines;
    var h0 := Start(memorySize);
    var end := CommentsBefore(d.late, LineBefore(Name("end_header"), body));
    var elements := ElementsBefore(d.elements, end);
    var format := LineBefore(Spaced(FormatWords(d.coding)), elements);
    MagicRead(CommentsBefore(d.early, format));
    CommentsRead(h0, d.early, format, Less(good, 1));
    FormatLine(h0, d.coding);
    WordsRead(h0, FormatWords(d.coding), elements, Less(good, 1 + |d.early|));
    var h1 := h0.(format := FormatMeant(d.coding));
    ElementsRead(h1, d.elements, end, Less(good, 2 + |d.early|));
    var left := memorySize - memorySize % 16 - Room(d.elements);
    if left >= 1024 {
      var h2 := Header(h1.format, ElementsMeant(d.elements), left);
      assert h1.elements + ElementsMeant(d.elements) == ElementsMeant(d.elements);
      EndRead(h2, d.late, body, Less(good, 2 + |d.early| + ElementLines(d.elements)));
    }
  }
}
