/** Which type a name in a header stands for. */
module PlyTypeNames {
  import opened Wrappers
  import opened Words
  import opened PlyHeaderSpec

  /** The two ways of writing a type. */
  function Spellings(t: PlyType): (string, string) {
    match t
    case Int8 => ("int8", "char")
    case Uint8 => ("uint8", "uchar")
    case Int16 => ("int16", "short")
    case Uint16 => ("uint16", "ushort")
    case Int32 => ("int32", "int")
    case Uint32 => ("uint32", "uint")
    case Float32 => ("float32", "float")
    case Float64 => ("float64", "double")
  }

  /** Its row in the table of names. */
  function Row(t: PlyType): nat {
    match t
    case Int8 => 0 case Uint8 => 1 case Int16 => 2 case Uint16 => 3
    case Int32 => 4 case Uint32 => 5 case Float32 => 6 case Float64 => 7
  }

  /** A token is read as a type exactly if it is, to the last byte, one of the two names of that type. */
  lemma TypeOfExact(token: Bytes, t: PlyType)
    ensures TypeOf(token) == Some(t) <==> token == Name(Spellings(t).0) || token == Name(Spellings(t).1)
  {
    hide Name, Names, TypeOf;
    NamesSpelled(token, Row(t));
    var i := FirstNamed(token);
    if i < 8 {
      NamesSpelled(token, i);
      if Names(token, Row(t)) { NamesApart(token, TypeAt(i), t); }
    }
  }

  /** The row of the table the walk stops at. */
  lemma FirstNamed(token: Bytes) returns (i: nat)
    ensures i <= 8 && TypeOf(token) == if i < 8 then Some(TypeAt(i)) else None
    ensures if i < 8 then Names(token, i) else forall j :: 0 <= j < 8 ==> !Names(token, j)
  {
    i := 0;
    while i < 8 && !Names(token, i)
      invariant i <= 8 && TypeOf(token) == TypeFrom(token, i)
      invariant forall j :: 0 <= j < i ==> !Names(token, j)
    {
      i := i + 1;
    }
  }

  lemma NamesSpelled(token: Bytes, i: nat)
    requires i < 8
    ensures var (first, second) := Spellings(TypeAt(i));
            Names(token, i) <==> token == Name(first) || token == Name(second)
  {
    hide Name;
  }

  /** No token names two types. */
  lemma NamesApart(token: Bytes, t: PlyType, u: PlyType)
    requires token == Name(Spellings(t).0) || token == Name(Spellings(t).1)
    requires token == Name(Spellings(u).0) || token == Name(Spellings(u).1)
    ensures t == u
  {
    hide Name, Spellings, Ascii;
    SpelledAscii(t);
    SpelledAscii(u);
    TextOfName(Spellings(t).0);
    TextOfName(Spellings(t).1);
    TextOfName(Spellings(u).0);
    TextOfName(Spellings(u).1);
    if t != u { Apart(t, u); }
  }

  predicate Ascii(s: string) {
    forall k :: 0 <= k < |s| ==> s[k] as int < 128
  }

  lemma SpelledAscii(t: PlyType)
    ensures Ascii(Spellings(t).0) && Ascii(Spellings(t).1)
  {}

  /** The characters these bytes are in ASCII. */
  function Text(s: Bytes): string {
    seq(|s|, k requires 0 <= k < |s| => ByteValue(s[k]) as char)
  }

  lemma TextOfName(s: string)
    requires Ascii(s)
    ensures Text(Name(s)) == s
  {
    hide Byte, ByteValue;
    forall k | 0 <= k < |s| ensures Text(Name(s))[k] == s[k] {
      ValueOfByte(s[k] as int % 256);
    }
  }

  /** What tells the spellings of different types apart: length, first, third and last character. */
  function Marks(s: string): (nat, char, char, char) {
    if |s| < 3 then (|s|, ' ', ' ', ' ') else (|s|, s[0], s[2], s[|s| - 1])
  }

  lemma Apart(t: PlyType, u: PlyType)
    requires t != u
    ensures Spellings(t).0 != Spellings(u).0 && Spellings(t).0 != Spellings(u).1
    ensures Spellings(t).1 != Spellings(u).0 && Spellings(t).1 != Spellings(u).1
  {
    var a, b, c, d := Marks(Spellings(t).0), Marks(Spellings(t).1), Marks(Spellings(u).0), Marks(Spellings(u).1);
    assert a != c && a != d && b != c && b != d;
  }
}
