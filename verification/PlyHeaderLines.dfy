/** Which header lines are accepted. */
module PlyHeaderLines {
  import opened Wrappers
  import opened Words
  import opened PlyTypeNames
  import opened PlyHeaderSpec
  import opened PlyHeaderText

  // ---- numbers as strtoul takes them ----

  predicate Blank(b: byte) {
    b == 32 || 9 <= b <= 13
  }

  predicate Digit(b: byte) {
    48 <= b <= 57
  }

  predicate DigitsFrom(s: Bytes, from: nat) {
    from < |s| && forall k :: from <= k < |s| ==> Digit(s[k])
  }

  /** White space up to here. */
  predicate BlankTo(s: Bytes, to: nat) {
    to <= |s| && forall k :: 0 <= k < to ==> Blank(s[k])
  }

  /** White space, a plus or minus sign or none, and at least one digit. */
  ghost predicate IsNumber(s: Bytes) {
    exists at: nat :: BlankTo(s, at) && at < |s| &&
                      (DigitsFrom(s, at) || ((s[at] == 43 || s[at] == 45) && DigitsFrom(s, at + 1)))
  }

  lemma BlanksSkipped(s: Bytes, from: nat)
    requires from <= |s|
    ensures forall k :: from <= k < SkipSpaces(s, from) ==> Blank(s[k])
    ensures SkipSpaces(s, from) < |s| ==> !Blank(s[SkipSpaces(s, from)])
    decreases |s| - from
  {}

  lemma DigitsSkipped(s: Bytes, from: nat)
    requires from <= |s|
    ensures forall k :: from <= k < SkipDigits(s, from) ==> Digit(s[k])
    ensures SkipDigits(s, from) < |s| ==> !Digit(s[SkipDigits(s, from)])
    decreases |s| - from
  {}

  /** The place where the white space ends is the only one. */
  lemma BlanksEnd(s: Bytes, at: nat)
    requires BlankTo(s, at) && at < |s| && !Blank(s[at])
    ensures SkipSpaces(s, 0) == at
  {
    hide SkipSpaces;
    BlanksSkipped(s, 0);
    var n := SkipSpaces(s, 0);
    if n < at { assert false; }
  }

  lemma DigitsToTheEnd(s: Bytes, from: nat)
    requires from <= |s|
    ensures SkipDigits(s, from) == |s| && from < |s| <==> DigitsFrom(s, from)
  {
    hide SkipDigits;
    DigitsSkipped(s, from);
  }

  lemma NumberExactly(token: Bytes)
    ensures TupleCount(token).Some? <==> IsNumber(token)
  {
    hide SkipSpaces, SkipDigits, Decimal;
    BlanksSkipped(token, 0);
    var start := SkipSpaces(token, 0);
    if start < |token| {
      DigitsToTheEnd(token, start);
      DigitsToTheEnd(token, start + 1);
      assert BlankTo(token, start);
    }
    if IsNumber(token) {
      var at: nat :| BlankTo(token, at) && at < |token| &&
                     (DigitsFrom(token, at) || ((token[at] == 43 || token[at] == 45) && DigitsFrom(token, at + 1)));
      BlanksEnd(token, at);
    }
  }

  // ---- lines ----

  predicate SaysComment(ts: seq<Bytes>) {
    |ts| >= 1 && ts[0] == Name("comment")
  }

  predicate SaysFormat(ts: seq<Bytes>) {
    && |ts| == 3 && ts[0] == Name("format") && ts[2] == Name("1.0")
    && (ts[1] == Name("ascii") || ts[1] == Name("binary_little_endian") || ts[1] == Name("binary_big_endian"))
  }

  ghost predicate SaysElement(ts: seq<Bytes>) {
    |ts| == 3 && ts[0] == Name("element") && IsNumber(ts[2])
  }

  ghost predicate IsType(token: Bytes) {
    exists t :: token == Name(Spellings(t).0) || token == Name(Spellings(t).1)
  }

  ghost predicate IsInteger(token: Bytes) {
    exists t :: t != Float32 && t != Float64 && (token == Name(Spellings(t).0) || token == Name(Spellings(t).1))
  }

  ghost predicate SaysProperty(ts: seq<Bytes>) {
    || (|ts| == 3 && ts[0] == Name("property") && IsType(ts[1]))
    || (|ts| == 5 && ts[0] == Name("property") && ts[1] == Name("list") && IsInteger(ts[2]) && IsType(ts[3]))
  }

  lemma TypeExactly(token: Bytes)
    ensures TypeOf(token).Some? <==> IsType(token)
    ensures IsInteger(token) <==>
            TypeOf(token).Some? && TypeOf(token).value != Float32 && TypeOf(token).value != Float64
    ensures IsType(token) ==> token != Name("list")
  {
    hide TypeOf, Name;
    forall t ensures TypeOf(token) == Some(t) <==> token == Name(Spellings(t).0) || token == Name(Spellings(t).1) {
      TypeOfExact(token, t);
    }
    if IsType(token) {
      var t :| token == Name(Spellings(t).0) || token == Name(Spellings(t).1);
      SpeltGood(TypeWord(t, token == Name(Spellings(t).1)));
    }
  }

  lemma KeywordsApart()
    ensures Name("comment") != Name("format") && Name("comment") != Name("element")
    ensures Name("comment") != Name("property")
    ensures Name("format") != Name("element") && Name("format") != Name("property")
    ensures Name("element") != Name("property")
    ensures Name("end_header") != Name("comment") && Name("end_header") != Name("format")
    ensures Name("end_header") != Name("element") && Name("end_header") != Name("property")
  {
    hide Name;
    PrintingGood("comment");
    PrintingGood("format");
    PrintingGood("element");
    PrintingGood("property");
    PrintingGood("end_header");
    NamesDiffer("comment", "element");
  }

  lemma FormatExactly(h: Header, ts: seq<Bytes>)
    requires |ts| >= 1
    ensures var p := FormatPart(h, ts[1..]);
            if |ts| == 3 && ts[2] == Name("1.0") &&
               (ts[1] == Name("ascii") || ts[1] == Name("binary_little_endian") || ts[1] == Name("binary_big_endian"))
            then p.Part? && p.rest == [] else Ended(p) == Refused(-140)
  {
    hide Name;
    if |ts| >= 3 { assert ts[1..][0] == ts[1] && ts[1..][1] == ts[2]; }
    if |ts| == 3 { assert ts[1..][2..] == []; }
  }

  lemma ElementExactly(h: Header, ts: seq<Bytes>)
    requires |ts| >= 1
    ensures var p := ElementPart(h, ts[1..]);
            if |ts| >= 2 && h.memoryBreak < 1024 + 72 then p.NoRoom?
            else if |ts| == 3 && IsNumber(ts[2]) then p.Part? && p.rest == [] else Ended(p) == Refused(-140)
  {
    hide IsNumber, TupleCount;
    if |ts| >= 3 {
      assert ts[1..][1] == ts[2];
      NumberExactly(ts[2]);
    }
    if |ts| == 3 { assert ts[1..][2..] == []; }
  }

  lemma PropertyExactly(h: Header, ts: seq<Bytes>)
    requires |ts| >= 1 && ts[0] == Name("property")
    ensures var p := PropertyPart(h, ts[1..]);
            if h.elements != [] && |ts| >= 2 && h.memoryBreak < 1024 + 56 then p.NoRoom?
            else if h.elements != [] && SaysProperty(ts) then p.Part? && p.rest == [] else Ended(p) == Refused(-140)
  {
    hide Name, TypeOf, IsType, IsInteger;
    PropertyTokens(ts);
    if |ts| == 3 { assert ts[1..][2..] == []; }
    if |ts| == 5 { assert ts[1..][4..] == []; }
  }

  lemma PropertyTokens(ts: seq<Bytes>)
    requires |ts| >= 1 && ts[0] == Name("property")
    ensures SaysProperty(ts) <==> PropertyOf(ts[1..]).Some? && PropertyOf(ts[1..]).value.1 == |ts| - 1
  {
    hide Name, TypeOf, IsType, IsInteger;
    if |ts| >= 3 {
      assert ts[1..][0] == ts[1] && ts[1..][1] == ts[2];
      TypeExactly(ts[1]);
      TypeExactly(ts[2]);
    }
    if |ts| >= 5 {
      assert ts[1..][2] == ts[3] && ts[1..][3] == ts[4];
      TypeExactly(ts[3]);
    }
  }

  /** The header goes on behind a line if and only if it is one of these and its record has room; a line that
      is not, does not end the header and asks for no record without room is a syntax error. */
  lemma LineExactly(h: Header, ts: seq<Bytes>)
    ensures HeaderLine(h, ts).Last? <==> |ts| >= 1 && ts[0] == Name("end_header")
    ensures HeaderLine(h, ts).Next? <==>
            || SaysComment(ts)
            || SaysFormat(ts)
            || (SaysElement(ts) && h.memoryBreak >= 1024 + 72)
            || (SaysProperty(ts) && h.elements != [] && h.memoryBreak >= 1024 + 56)
    ensures HeaderLine(h, ts).Full? <==>
            || (|ts| >= 2 && ts[0] == Name("element") && h.memoryBreak < 1024 + 72)
            || (|ts| >= 2 && ts[0] == Name("property") && h.elements != [] && h.memoryBreak < 1024 + 56)
    ensures HeaderLine(h, ts).Refused? ==> HeaderLine(h, ts).code == -140
  {
    hide Name, TypeOf, TupleCount, IsNumber, IsType, IsInteger;
    KeywordsApart();
    if ts != [] {
      if ts[0] == Name("format") { FormatExactly(h, ts); }
      else if ts[0] == Name("element") { ElementExactly(h, ts); }
      else if ts[0] == Name("property") { PropertyExactly(h, ts); }
    }
  }

  // ---- files that are refused ----

  /** Without `ply` and a newline at its start a file is no PLY file. */
  lemma MagicExactly(file: Bytes, memorySize: nat, good: Reads)
    requires good != Some(0) && !(|file| >= 4 && file[..4] == [112, 108, 121, 10])
    ensures FileHeader(file, memorySize, good) == Failed(-140)
  {
    hide Lines, Byte;
    MagicBytes();
  }

  lemma MagicBytes()
    ensures Name("ply\n") == [112, 108, 121, 10]
  {
    hide Byte;
    PlyLetters();
    NewlineByte();
  }

  lemma PlyLetters()
    ensures Byte(112) == 112 && Byte(108) == 108 && Byte(121) == 121
  {
    hide Pack, Digits;
    LetterP();
    LetterL();
    LetterY();
    PackedLetters();
  }

  lemma LetterP()
    ensures Digits(112) == Bits(false, false, false, false, true, true, true, false)
  {}

  lemma LetterL()
    ensures Digits(108) == Bits(false, false, true, true, false, true, true, false)
  {}

  lemma LetterY()
    ensures Digits(121) == Bits(true, false, false, true, true, true, true, false)
  {}

  lemma PackedLetters()
    ensures Pack(Bits(false, false, false, false, true, true, true, false)) == 112
    ensures Pack(Bits(false, false, true, true, false, true, true, false)) == 108
    ensures Pack(Bits(true, false, false, true, true, true, true, false)) == 121
  {}

  /** A line cut short by a NUL is refused, wherever it stands. */
  lemma CutLine(h: Header, line: Bytes, behind: Bytes, good: Reads)
    requires 0 !in line && 10 !in line && |line| <= 1023 && good != Some(0)
    ensures Lines(h, line + ([0] + behind), good) == Failed(-140)
  {
    hide LineEnd;
    var rest := line + ([0] + behind);
    var n := LineEnd(rest);
    assert forall k :: 0 <= k < |line| ==> rest[k] == line[k] && line[k] != 0 && line[k] != 10;
    assert rest[|line|] == 0;
    if n < |line| { assert false; }
  }
}
