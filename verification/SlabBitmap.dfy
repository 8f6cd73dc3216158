/** The free bitmap in a page footer: an array of 32-bit words that stands for a set of slot indices. */
module SlabBitmap {
  import opened Words

  predicate Meets(w: bv32, m: bv32) {
    w & m != 0
  }

  function JoinedWith(w: bv32, m: bv32): bv32 {
    w | m
  }

  function ClearedOf(w: bv32, m: bv32): bv32 {
    w & !m
  }

  function Doubled(w: bv32): bv32 {
    w << 1
  }

  /** `1u << k`. */
  function OneBit(k: nat): bv32 {
    if k == 0 then 1 else Doubled(OneBit(k - 1))
  }

  /** `(w >> k) & 1`, tested in place. */
  predicate Bit(w: bv32, k: nat) {
    Meets(w, OneBit(k))
  }

  // SLAB_GET_BIT, SLAB_SET_BIT and SLAB_CLR_BIT

  predicate GetBit(avail: seq<bv32>, i: nat)
    requires i < WORD_BITS * |avail|
  {
    Bit(avail[i / WORD_BITS], i % WORD_BITS)
  }

  function SetBit(avail: seq<bv32>, i: nat): (r: seq<bv32>)
    requires i < WORD_BITS * |avail|
    ensures |r| == |avail|
  {
    avail[i / WORD_BITS := JoinedWith(avail[i / WORD_BITS], OneBit(i % WORD_BITS))]
  }

  function ClrBit(avail: seq<bv32>, i: nat): (r: seq<bv32>)
    requires i < WORD_BITS * |avail|
    ensures |r| == |avail|
  {
    avail[i / WORD_BITS := ClearedOf(avail[i / WORD_BITS], OneBit(i % WORD_BITS))]
  }

  /** The set a bitmap stands for. */
  function FreeSet(avail: seq<bv32>): set<nat> {
    set i: nat | 0 <= i < WORD_BITS * |avail| && GetBit(avail, i)
  }

  // ---- one word ----

  lemma DoubledDisjoint(v: bv32, w: bv32)
    requires !Meets(v, w)
    ensures !Meets(Doubled(v), Doubled(w))
  {}

  lemma DoubledEven(w: bv32)
    ensures !Meets(1, Doubled(w))
  {}

  lemma {:induction false} OneBitsDisjoint(i: nat, j: nat)
    requires i < j
    ensures !Meets(OneBit(i), OneBit(j))
  {
    if i == 0 {
      DoubledEven(OneBit(j - 1));
    } else {
      OneBitsDisjoint(i - 1, j - 1);
      DoubledDisjoint(OneBit(i - 1), OneBit(j - 1));
    }
  }

  lemma LastBits()
    ensures OneBit(31) == 0x8000_0000
  {
    assert OneBit(1) == 2; assert OneBit(3) == 8; assert OneBit(5) == 0x20; assert OneBit(7) == 0x80;
    assert OneBit(9) == 0x200; assert OneBit(11) == 0x800; assert OneBit(13) == 0x2000;
    assert OneBit(15) == 0x8000; assert OneBit(17) == 0x2_0000; assert OneBit(19) == 0x8_0000;
    assert OneBit(21) == 0x20_0000; assert OneBit(23) == 0x80_0000; assert OneBit(25) == 0x200_0000;
    assert OneBit(27) == 0x800_0000; assert OneBit(29) == 0x2000_0000;
  }

  lemma {:induction false} OneBitNonZero(k: nat)
    requires k < WORD_BITS
    ensures OneBit(k) != 0
    decreases WORD_BITS - k
  {
    if k == WORD_BITS - 1 {
      LastBits();
    } else {
      OneBitNonZero(k + 1);
    }
  }

  /** The bits below position k are clear. */
  predicate ClearBelow(w: bv32, m: bv32) {
    w & (m - 1) == 0
  }

  lemma CarryUp(w: bv32, m: bv32)
    requires ClearBelow(m, m) && ClearBelow(w, m) && !Meets(w, m)
    ensures ClearBelow(w, Doubled(m))
  {}

  lemma PowerDoubles(m: bv32)
    requires ClearBelow(m, m)
    ensures ClearBelow(Doubled(m), Doubled(m))
  {}

  lemma {:induction false} NoLowBits(w: bv32, k: nat)
    requires forall j :: 0 <= j < k ==> !Bit(w, j)
    ensures ClearBelow(OneBit(k), OneBit(k))
    ensures ClearBelow(w, OneBit(k))
  {
    if k > 0 {
      NoLowBits(w, k - 1);
      assert !Bit(w, k - 1);
      CarryUp(w, OneBit(k - 1));
      PowerDoubles(OneBit(k - 1));
    }
  }

  lemma NoBitsLeft(w: bv32)
    requires ClearBelow(w, 0x8000_0000) && !Meets(w, 0x8000_0000)
    ensures w == 0
  {}

  lemma SomeBit(w: bv32)
    requires w != 0
    ensures exists k :: 0 <= k < WORD_BITS && Bit(w, k)
  {
    if forall k :: 0 <= k < WORD_BITS ==> !Bit(w, k) {
      assert !Bit(w, WORD_BITS - 1);
      NoLowBits(w, WORD_BITS - 1);
      LastBits();
      NoBitsLeft(w);
    }
  }

  lemma UntouchedByWith(w: bv32, m: bv32, n: bv32)
    requires !Meets(m, n)
    ensures Meets(JoinedWith(w, m), n) ==> Meets(w, n)
  {}

  lemma WithGrows(w: bv32, m: bv32, n: bv32)
    ensures Meets(w, n) ==> Meets(JoinedWith(w, m), n)
  {}

  lemma UntouchedByWithout(w: bv32, m: bv32, n: bv32)
    requires !Meets(m, n)
    ensures Meets(w, n) ==> Meets(ClearedOf(w, m), n)
  {}

  lemma WithoutShrinks(w: bv32, m: bv32, n: bv32)
    ensures Meets(ClearedOf(w, m), n) ==> Meets(w, n)
  {}

  lemma WithMeets(w: bv32, m: bv32)
    requires m != 0
    ensures Meets(JoinedWith(w, m), m)
  {}

  lemma WithoutMisses(w: bv32, m: bv32)
    ensures !Meets(ClearedOf(w, m), m)
  {}

  lemma SameBitChanges(w: bv32, i: nat)
    requires i < WORD_BITS
    ensures Bit(JoinedWith(w, OneBit(i)), i)
    ensures !Bit(ClearedOf(w, OneBit(i)), i)
  {
    OneBitNonZero(i);
    WithMeets(w, OneBit(i));
    WithoutMisses(w, OneBit(i));
  }

  lemma MeetsCommutes(v: bv32, w: bv32)
    ensures Meets(v, w) == Meets(w, v)
  {}

  lemma OtherBitStays(w: bv32, i: nat, j: nat)
    requires i != j
    ensures Bit(JoinedWith(w, OneBit(i)), j) <==> Bit(w, j)
    ensures Bit(ClearedOf(w, OneBit(i)), j) <==> Bit(w, j)
  {
    if i < j { OneBitsDisjoint(i, j); } else { OneBitsDisjoint(j, i); MeetsCommutes(OneBit(i), OneBit(j)); }
    UntouchedByWith(w, OneBit(i), OneBit(j));
    WithGrows(w, OneBit(i), OneBit(j));
    UntouchedByWithout(w, OneBit(i), OneBit(j));
    WithoutShrinks(w, OneBit(i), OneBit(j));
  }

  // ---- the whole bitmap ----

  lemma SetBitInserts(avail: seq<bv32>, i: nat)
    requires i < WORD_BITS * |avail|
    ensures FreeSet(SetBit(avail, i)) == FreeSet(avail) + {i}
  {
    var after := SetBit(avail, i);
    forall j: nat | j < WORD_BITS * |avail|
      ensures GetBit(after, j) <==> i == j || GetBit(avail, j)
    {
      if i == j {
        SameBitChanges(avail[i / WORD_BITS], i % WORD_BITS);
      } else if i / WORD_BITS == j / WORD_BITS {
        OtherBitStays(avail[i / WORD_BITS], i % WORD_BITS, j % WORD_BITS);
      }
    }
  }

  lemma ClrBitRemoves(avail: seq<bv32>, i: nat)
    requires i < WORD_BITS * |avail|
    ensures FreeSet(ClrBit(avail, i)) == FreeSet(avail) - {i}
  {
    var after := ClrBit(avail, i);
    forall j: nat | j < WORD_BITS * |avail|
      ensures GetBit(after, j) <==> i != j && GetBit(avail, j)
    {
      if i == j {
        SameBitChanges(avail[i / WORD_BITS], i % WORD_BITS);
      } else if i / WORD_BITS == j / WORD_BITS {
        OtherBitStays(avail[i / WORD_BITS], i % WORD_BITS, j % WORD_BITS);
      }
    }
  }

  /** The first index in [k, n) that lies in s, or n. */
  function Least(s: set<nat>, k: nat, n: nat): (m: nat)
    requires k <= n
    ensures k <= m <= n
    ensures m < n ==> m in s
    ensures forall j :: k <= j < m ==> j !in s
    decreases n - k
  {
    if k == n || k in s then k else Least(s, k + 1, n)
  }

  /** `__builtin_ffs`: one plus the position of the least significant one bit, zero if there is none. */
  function FindFirstSet(w: bv32): (r: nat)
    ensures w == 0 ==> r == 0
    ensures w != 0 ==> 0 < r <= WORD_BITS && Bit(w, r - 1)
    ensures forall k :: 0 <= k < r - 1 ==> !Bit(w, k)
  {
    if w == 0 then 0 else SomeBit(w); FirstBit(w, 0) + 1
  }

  function FirstBit(w: bv32, k: nat): (r: nat)
    requires exists j :: k <= j < WORD_BITS && Bit(w, j)
    ensures k <= r < WORD_BITS && Bit(w, r)
    ensures forall j :: k <= j < r ==> !Bit(w, j)
    decreases WORD_BITS - k
  {
    if Bit(w, k) then k else FirstBit(w, k + 1)
  }

  /** The word scan of slab_alloc. */
  method ScanFirstFree(avail: seq<bv32>) returns (idx: int)
    ensures idx == -1 <==> FreeSet(avail) == {}
    ensures idx != -1 ==> idx >= 0 && idx in FreeSet(avail) && forall j :: j in FreeSet(avail) ==> idx <= j
  {
    hide FreeSet, GetBit, Bit;
    idx := -1;
    var w := 0;
    while w < |avail|
      invariant 0 <= w <= |avail|
      invariant forall v :: 0 <= v < w ==> avail[v] == 0
    {
      if avail[w] != 0 {
        var b := FindFirstSet(avail[w]) - 1;
        idx := w * WORD_BITS + b;
        FirstInWord(avail, w, b);
        return;
      }
      w := w + 1;
    }
    NothingSet(avail);
  }

  lemma NothingSet(avail: seq<bv32>)
    requires forall v :: 0 <= v < |avail| ==> avail[v] == 0
    ensures FreeSet(avail) == {}
  {}

  lemma FirstInWord(avail: seq<bv32>, w: nat, b: nat)
    requires w < |avail| && b < WORD_BITS && Bit(avail[w], b)
    requires forall v :: 0 <= v < w ==> avail[v] == 0
    requires forall k :: 0 <= k < b ==> !Bit(avail[w], k)
    ensures w * WORD_BITS + b in FreeSet(avail)
    ensures forall j :: j in FreeSet(avail) ==> w * WORD_BITS + b <= j
  {
    var i := w * WORD_BITS + b;
    assert i / WORD_BITS == w && i % WORD_BITS == b;
    assert GetBit(avail, i);
    forall j | j in FreeSet(avail) ensures i <= j {
      if j < i {
      }
    }
  }
}
