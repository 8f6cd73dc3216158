/** The password comparison whose running time does not depend on where the strings differ. */
module RconCompare {
  import opened Wrappers
  import opened Words
  import opened CStrings
  import opened RconFraming

  /** The shift-or cascade. */
  function Smear(c: bv32): bv32 {
    var m := c | (c << 8);
    var m := m | (m << 4);
    var m := m | (m << 2);
    var m := m | (m << 1);
    var m := m | (m >> 4);
    var m := m | (m >> 2);
    m | (m >> 1)
  }

  /** It turns every character but NUL into a mask with at least the low sixteen bits set, and NUL into
      zero, for both kinds of `char`. */
  lemma SmearFills(c: byte, signedChar: bool)
    ensures MaskFor(c, Smear(Extend(c, signedChar)))
  {
    if signedChar { SmearSigned(c); } else { SmearUnsigned(c); }
  }

  lemma SmearUnsigned(c: byte)
    ensures c == 0 ==> Smear(Extend(c, false)) == 0
    ensures c != 0 ==> Smear(Extend(c, false)) & 0xFFFF == 0xFFFF
  {}

  lemma SmearSigned(c: byte)
    ensures c == 0 ==> Smear(Extend(c, true)) == 0
    ensures c != 0 ==> Smear(Extend(c, true)) & 0xFFFF == 0xFFFF
  {}

  // ---- the index into the secret, an unsigned int ----

  /** An index below two to the 16. */
  predicate Short(j: bv32) {
    j & 0xFFFF == j
  }

  predicate LowOnes(mask: bv32) {
    mask & 0xFFFF == 0xFFFF
  }

  function NextIndex(j: bv32, mask: bv32): bv32 {
    (j + 1) & mask
  }

  lemma NextStays(j: bv32)
    ensures NextIndex(j, 0) == 0
  {}

  lemma NextGoesOn(j: bv32, mask: bv32)
    requires Short(j) && j != 0xFFFF && LowOnes(mask)
    ensures NextIndex(j, mask) == j + 1 && Short(j + 1)
  {}

  lemma ByteAfter(b: byte)
    requires b != 0xFF
    ensures ByteValue(b + 1) == ByteValue(b) + 1
  {}

  lemma WithoutCarry(j: bv32)
    requires ByteAt(j, 0) != 0xFF
    ensures ByteAt(j + 1, 0) == ByteAt(j, 0) + 1 && ByteAt(j + 1, 1) == ByteAt(j, 1)
    ensures ByteAt(j + 1, 2) == ByteAt(j, 2) && ByteAt(j + 1, 3) == ByteAt(j, 3)
  {}

  lemma WithCarry(j: bv32)
    requires ByteAt(j, 0) == 0xFF && ByteAt(j, 1) != 0xFF
    ensures ByteAt(j + 1, 0) == 0 && ByteAt(j + 1, 1) == ByteAt(j, 1) + 1
    ensures ByteAt(j + 1, 2) == ByteAt(j, 2) && ByteAt(j + 1, 3) == ByteAt(j, 3)
  {}

  lemma SecondByteFull(j: bv32)
    requires Short(j) && j != 0xFFFF && ByteAt(j, 0) == 0xFF
    ensures ByteAt(j, 1) != 0xFF
  {}

  lemma FullByte()
    ensures ByteValue(0xFF) == 255 && ByteValue(0) == 0
  {}

  lemma ValueAfter(j: bv32)
    requires Short(j) && j != 0xFFFF
    ensures Value(j + 1) == Value(j) + 1
  {
    hide ByteAt, ByteValue;
    if ByteAt(j, 0) != 0xFF {
      WithoutCarry(j);
      ByteAfter(ByteAt(j, 0));
    } else {
      FullByte();
      SecondByteFull(j);
      WithCarry(j);
      ByteAfter(ByteAt(j, 1));
    }
  }

  lemma ValueOfZero()
    ensures Value(0) == 0 && Short(0)
  {
    assert ByteAt(0, 0) == 0 && ByteAt(0, 1) == 0 && ByteAt(0, 2) == 0 && ByteAt(0, 3) == 0;
  }

  lemma ValueOfLast()
    ensures Value(0xFFFF) == 0xFFFF
  {
    assert ByteAt(0xFFFF, 0) == 0xFF && ByteAt(0xFFFF, 1) == 0xFF && ByteAt(0xFFFF, 2) == 0 && ByteAt(0xFFFF, 3) == 0;
    FullByte();
  }

  /** What the cascade makes of a character. */
  predicate MaskFor(c: byte, mask: bv32) {
    if c == 0 then mask == 0 else LowOnes(mask)
  }

  lemma NextValue(j: bv32, c: byte, mask: bv32)
    requires Short(j) && (c != 0 ==> j != 0xFFFF) && MaskFor(c, mask)
    ensures Short(NextIndex(j, mask)) && Value(NextIndex(j, mask)) == if c == 0 then 0 else Value(j) + 1
  {
    if c == 0 {
      NextStays(j);
      ValueOfZero();
    } else {
      NextGoesOn(j, mask);
      ValueAfter(j);
    }
  }

  /** Two C strings that agree up to i, where the first goes on, both go on. */
  lemma CommonPrefix(given: Bytes, secret: Bytes, i: nat)
    requires 0 in given && 0 in secret
    requires i <= |CString(given)| && i <= |CString(secret)| && given[..i] == secret[..i]
    ensures given[i] != secret[i] ==> CString(given) != CString(secret)
    ensures given[i] == secret[i] && given[i] == 0 ==> CString(given) == CString(secret)
    ensures given[i] == secret[i] && given[i] != 0 ==>
      i < |CString(given)| && i < |CString(secret)| && given[..i + 1] == secret[..i + 1]
  {
    EndOfString(given, i);
    EndOfString(secret, i);
    if given[i] != secret[i] && i < |CString(given)| && i < |CString(secret)| {
      assert CString(given)[i] == given[i] && CString(secret)[i] == secret[i];
    }
  }

  /** `r |= given[i] ^ secret[j]` */
  method Accumulate(diff: byte, a: byte, b: byte) returns (next: byte)
    ensures next == 0 <==> diff == 0 && a == b
  {
    next := diff | (a ^ b);
  }

  /** rcon_streq_consttime: one exactly for equal strings. NULL on either side is unequal; otherwise both
      are NUL-terminated and the secret is shorter than two to the 16. The index into the secret never
      passes its NUL. */
  method StreqConsttime(given: Option<Bytes>, secret: Option<Bytes>, signedChar: bool) returns (r: int)
    requires given.Some? && secret.Some? ==>
      0 in given.value && 0 in secret.value && |CString(secret.value)| < 0x1_0000
    ensures r == if given.Some? && secret.Some? && CString(given.value) == CString(secret.value) then 1 else 0
  {
    hide Value, Short;
    if given.None? || secret.None? {
      return 0;
    }
    var g, s := given.value, secret.value;
    var i: nat := 0;
    var j: bv32 := 0;
    ValueOfZero();
    var diff: byte := 0;
    while true
      invariant i <= |CString(g)| && Short(j) && Value(j) <= |CString(s)|
      invariant diff == 0 ==> i == Value(j) && g[..i] == s[..i]
      invariant diff != 0 ==> CString(g) != CString(s)
      decreases |CString(g)| - i
    {
      if diff == 0 { CommonPrefix(g, s, i); }
      diff := Accumulate(diff, g[i], s[Value(j)]);
      if g[i] == 0 {
        break;
      }
      assert i < |CString(g)|;
      i := i + 1;
      j := Increment(s, j, signedChar);
    }
    return if diff == 0 then 1 else 0;
  }

  /** The branch-free increment: past a character the index goes on by one, on the NUL it starts again. */
  method Increment(s: Bytes, j: bv32, signedChar: bool) returns (next: bv32)
    requires 0 in s && Short(j) && Value(j) <= |CString(s)| < 0x1_0000
    ensures Short(next) && Value(next) == if Value(j) == |CString(s)| then 0 else Value(j) + 1
  {
    var mask := MaskOf(s[Value(j)], signedChar);
    StepIndex(s, j, mask);
    next := NextIndex(j, mask);
  }

  method MaskOf(c: byte, signedChar: bool) returns (mask: bv32)
    ensures MaskFor(c, mask)
  {
    mask := Smear(Extend(c, signedChar));
    SmearFills(c, signedChar);
  }

  lemma StepIndex(s: Bytes, j: bv32, mask: bv32)
    requires 0 in s && Short(j) && Value(j) <= |CString(s)| < 0x1_0000
    requires MaskFor(s[Value(j)], mask)
    ensures Short(NextIndex(j, mask)) &&
            Value(NextIndex(j, mask)) == if Value(j) == |CString(s)| then 0 else Value(j) + 1
  {
    EndOfString(s, Value(j));
    ValueOfLast();
    NextValue(j, s[Value(j)], mask);
  }
}
