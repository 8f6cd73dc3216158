/** Where things are inside a SLAB page: element size, footer, slot addresses, and the two ways back
    from an address (masking off the page offset, dividing by the element size).
    Addresses are numbers; `struct slab_footer` is laid out for 8-byte pointers. */
module SlabLayout {
  import opened Arithmetic
  import opened Words

  const MIN_ALLOC := 16

  /** `p & ~m`, bit by bit. */
  function AndNot(p: nat, m: nat): (r: nat)
    ensures r <= p
  {
    if p == 0 then 0 else 2 * AndNot(p / 2, m / 2) + (if p % 2 == 1 && m % 2 == 0 then 1 else 0)
  }

  /** SLAB_AVAIL_WORDS */
  function AvailWords(pageSize: nat): nat {
    DivideRoundUp(pageSize / MIN_ALLOC, WORD_BITS)
  }

  /** sizeof (struct slab_footer): signature, two links, the bitmap, one int, padded to 8. */
  function FooterSize(pageSize: nat): nat {
    DivideRoundUp(8 + 16 + 4 * AvailWords(pageSize) + 4, 8) * 8
  }

  /** The offset of the member `node` in `struct slab_footer`. */
  const NODE_OFFSET := 8

  /** The sizes struct slab stores, with the page size it was compiled for. */
  datatype Layout = Layout(pageBits: nat, elemsz: nat, maxelems: nat) {

    /** SLAB_PAGE_SIZE, a power of two. */
    function PageSize(): (n: nat)
      ensures n > 0
    {
      Pow2(pageBits)
    }

    /** The bytes of a page below its footer. */
    function Room(): int {
      PageSize() - FooterSize(PageSize())
    }

    /** The bits of the bitmap in a footer. */
    function Bits(): nat {
      WORD_BITS * AvailWords(PageSize())
    }

    /** What slab_create guarantees about the sizes it stores. */
    predicate Accepted() {
      pageBits >= 5 && MIN_ALLOC <= elemsz <= Room() && elemsz % MIN_ALLOC == 0 && maxelems == Room() / elemsz
    }

    /** SLAB_GET_BASE */
    function Base(p: nat): (b: nat)
      ensures b <= p
    {
      AndNot(p, PageSize() - 1)
    }

    /** The index slab_free computes. */
    function Index(p: nat): nat
      requires elemsz > 0
    {
      DivMod(p - Base(p), elemsz);
      (p - Base(p)) / elemsz
    }

    function Slot(base: nat, i: nat): nat {
      base + i * elemsz
    }

    function NodeAddress(base: nat): int {
      base + Room() + NODE_OFFSET
    }

    /** Is this address the start of some slot of its page? */
    predicate IsSlot(a: nat)
      requires elemsz > 0
    {
      Index(a) < maxelems && a == Slot(Base(a), Index(a))
    }

    predicate IsPageBase(b: nat) {
      b > 0 && Base(b) == b
    }
  }

  const INT_MAX := 0x7FFF_FFFF

  /** Division in C, which rounds towards zero. */
  function Quotient(a: int, b: nat): int
    requires b > 0
  {
    if a >= 0 then a / b else -(-a / b)
  }

  /** The least multiple of 16 that holds an element and is at least MIN_ALLOC. */
  function RoundedSize(requested: int): nat {
    var rounded := Quotient(requested + 16 - 1, 16) * 16;
    if rounded < MIN_ALLOC then MIN_ALLOC else rounded
  }

  /** What slab_create makes of the size it is asked for: rounding it overflows an int, which C leaves
      undefined; the element does not fit a page, for which it returns NULL; or the sizes to store. */
  datatype Sizing = Overflows | TooLarge | Sized(layout: Layout)

  /** The size computation of slab_create. The request is any int. */
  function CreateLayout(pageBits: nat, requested: int): (r: Sizing)
    requires pageBits >= 5
  {
    if requested + 16 > INT_MAX then Overflows else
    var elemsz := RoundedSize(requested);
    var room := Layout(pageBits, elemsz, 0).Room();
    if room < elemsz then TooLarge else DivMod(room, elemsz); Sized(Layout(pageBits, elemsz, room / elemsz))
  }

  function Floor(p: nat, d: nat): int
    requires d > 0
  {
    p - p % d
  }

  /** Masking with one more low bit doubles what masking the halved number gives. */
  lemma AndNotOnes(p: nat, q: nat)
    requires q > 0 && MaskFloors(p / 2, q)
    ensures MaskFloors(p, 2 * q)
  {
    var m := 2 * q - 1;
    assert m / 2 == q - 1 && m % 2 == 1;
    HalveRemainder(p, q);
  }

  predicate MaskFloors(p: nat, d: nat)
    requires d > 0
  {
    AndNot(p, d - 1) == Floor(p, d)
  }

  lemma MaskFloorsSmall(p: nat, d: nat)
    requires d > 0 && (p == 0 || d == 1)
    ensures MaskFloors(p, d)
  {
    if p == 0 {
      DivModUnique(0, d, 0, 0);
    } else {
      AndNotZero(p);
      DivModUnique(p, 1, p, 0);
    }
  }

  lemma {:induction false} MaskIsFloor(p: nat, k: nat)
    ensures MaskFloors(p, Pow2(k))
    decreases p
  {
    if p == 0 || k == 0 {
      MaskFloorsSmall(p, Pow2(k));
    } else {
      MaskIsFloor(p / 2, k - 1);
      AndNotOnes(p, Pow2(k - 1));
    }
  }

  lemma {:induction false} AndNotZero(p: nat)
    ensures AndNot(p, 0) == p
  {
    if p > 0 { AndNotZero(p / 2); }
  }

  lemma BaseIsFloor(l: Layout, base: nat, off: nat)
    requires l.Base(base) == base && off < l.PageSize()
    ensures l.Base(base + off) == base
  {
    var d := l.PageSize();
    PageBaseAligned(l, base);
    MaskIsFloor(base + off, l.pageBits);
    DivMod(base, d);
    DivModUnique(base + off, d, base / d, off);
  }

  /** A page base is a multiple of the page size, hence of 16. */
  lemma PageBaseAligned(l: Layout, base: nat)
    ensures l.Base(base) == base <==> base % l.PageSize() == 0
    ensures l.pageBits >= 5 && l.Base(base) == base ==> base % 16 == 0
  {
    MaskIsFloor(base, l.pageBits);
    DivMod(base, l.PageSize());
    if l.pageBits >= 5 && l.Base(base) == base {
      Pow2Multiple(l.pageBits);
      MultipleOfMultiple(base, l.PageSize(), 16);
    }
  }

  // ---- the page ----

  /** Could an element of the size asked for have this size? */
  predicate Holds(n: nat, requested: int) {
    n % 16 == 0 && n >= MIN_ALLOC && n >= requested
  }

  /** slab_create overflows exactly for the sixteen largest ints. Otherwise it rounds a request up to the
      least multiple of 16 that holds it (at least 16), negative requests included, and refuses exactly the
      elements that do not fit beside the footer once rounded. */
  lemma CreateLayoutExact(pageBits: nat, requested: int)
    requires pageBits >= 5
    ensures var r := CreateLayout(pageBits, requested);
            var room := Layout(pageBits, 0, 0).Room();
            (r.Overflows? <==> requested > INT_MAX - 16) &&
            (r.TooLarge? <==> requested <= INT_MAX - 16 && forall n: nat :: Holds(n, requested) ==> room < n) &&
            (r.Sized? ==>
              r.layout.pageBits == pageBits && r.layout.Accepted() && Holds(r.layout.elemsz, requested) &&
              forall n: nat :: Holds(n, requested) ==> r.layout.elemsz <= n)
  {
    var e := RoundedSize(requested);
    RoundedLeast(requested);
    assert Layout(pageBits, 0, 0).Room() == Layout(pageBits, e, 0).Room();
  }

  lemma RoundedLeast(requested: int)
    ensures var e := RoundedSize(requested);
            Holds(e, requested) && forall n: nat :: Holds(n, requested) ==> e <= n
  {
    var q := Quotient(requested + 16 - 1, 16);
    if requested > 0 {
      assert 16 * q >= requested && 16 * q < requested + 16;
    } else {
      assert q <= 0;
    }
    forall n: nat | Holds(n, requested) ensures RoundedSize(requested) <= n {
      var m := n / 16;
      assert n == 16 * m;
    }
  }

  /** At least one element fits, all of them lie below the footer, and the bitmap has a bit for each. */
  lemma MaxElemsFits(l: Layout)
    requires l.Accepted()
    ensures 1 <= l.maxelems <= WORD_BITS * AvailWords(l.PageSize())
    ensures l.maxelems * l.elemsz <= l.Room() < l.PageSize()
  {
    var room, e, s := l.Room(), l.elemsz, l.PageSize();
    AtLeastSixteen(room, e);
    FooterPositive(s);
    BitmapCovers(s, room, l.maxelems);
  }

  lemma AtLeastSixteen(room: int, e: int)
    requires 16 <= e <= room
    ensures 1 <= room / e && 16 * (room / e) <= room / e * e <= room
  {
    DivMod(room, e);
    var m := room / e;
    if m < 1 { MulGrows(e, 1 - m); Distribute(e, 1, m); }
    Distribute(m, e, 16);
  }

  /** The footer holds the signature, the two links, the bitmap and the counter, and ends at the next multiple
      of eight. The bitmap has a bit for each sixteen bytes of the page, and less than a word to spare. */
  lemma FooterFits(pageSize: nat)
    ensures var used := 8 + 8 + 8 + 4 * AvailWords(pageSize) + 4;
            used <= FooterSize(pageSize) < used + 8 && FooterSize(pageSize) % 8 == 0
    ensures pageSize / 16 <= 32 * AvailWords(pageSize) < pageSize / 16 + 32
  {
    hide DivideRoundUp;
    RoundsToEight(8 + 8 + 8 + 4 * AvailWords(pageSize) + 4);
    RoundsToWord(pageSize / 16);
  }

  lemma RoundsToEight(n: nat)
    ensures var m := DivideRoundUp(n, 8) * 8; n <= m < n + 8 && m % 8 == 0
  {
    DivMod(n + 7, 8);
  }

  lemma RoundsToWord(n: nat)
    ensures var m := 32 * DivideRoundUp(n, 32); n <= m < n + 32
  {
    DivMod(n + 31, 32);
  }

  lemma FooterPositive(s: nat)
    ensures FooterSize(s) > NODE_OFFSET
  {}

  lemma BitmapCovers(s: nat, room: int, m: int)
    requires 16 * m <= room < s
    ensures m <= WORD_BITS * AvailWords(s)
  {
    var t := s / 16;
    assert m <= t;
    DivMod(t + 31, 32);
  }

  /** The index computed for any pointer, even one behind the last slot of its page, has a bit. */
  lemma IndexInBitmap(l: Layout, p: nat)
    requires l.Accepted()
    ensures l.Index(p) < WORD_BITS * AvailWords(l.PageSize())
  {
    var s, off := l.PageSize(), p - l.Base(p);
    MaskIsFloor(p, l.pageBits);
    DivMod(p, s);
    assert off < s;
    Pow2Multiple(l.pageBits);
    IndexSmall(off, l.elemsz, s);
  }

  lemma IndexSmall(off: nat, e: nat, s: nat)
    requires off < s && e >= 16 && s % 16 == 0
    ensures off / e < WORD_BITS * AvailWords(s)
  {
    var i, t := off / e, s / 16;
    DivMod(off, e);
    Distribute(i, e, 16);
    if e > 16 && i > 0 { MulGrows(e - 16, i); }
    assert 16 * i <= off;
    DivMod(t + 31, 32);
  }

  /** From any address inside slot i of a page, slab_free recovers exactly the page and the index. */
  lemma SlotRoundTrip(l: Layout, base: nat, i: nat, off: nat)
    requires l.Accepted() && l.Base(base) == base && i < l.maxelems && off < l.elemsz
    ensures l.Base(l.Slot(base, i) + off) == base
    ensures l.Index(l.Slot(base, i) + off) == i
    ensures base <= l.Slot(base, i) && l.Slot(base, i) + l.elemsz <= base + l.Room()
  {
    MaxElemsFits(l);
    var d := i * l.elemsz + off;
    ProductBelow(i, l.maxelems, l.elemsz);
    BaseIsFloor(l, base, d);
    DivModUnique(d, l.elemsz, i, off);
  }

  lemma SlotAligned(l: Layout, base: nat, i: nat)
    requires l.Accepted() && l.Base(base) == base
    ensures l.Slot(base, i) % 16 == 0
  {
    PageBaseAligned(l, base);
    ProductMultiple(i, l.elemsz, 16);
    SumMultiple(base, i * l.elemsz, 16);
  }

  lemma SlotStart(l: Layout, base: nat, i: nat)
    requires l.Accepted() && l.Base(base) == base && i < l.maxelems
    ensures l.Base(l.Slot(base, i)) == base && l.Index(l.Slot(base, i)) == i && l.IsSlot(l.Slot(base, i))
  {
    SlotRoundTrip(l, base, i, 0);
  }

  /** Different slots share no byte. */
  lemma SlotsDisjoint(l: Layout, b: nat, i: nat, c: nat, j: nat)
    requires l.Accepted() && l.Base(b) == b && l.Base(c) == c
    requires i < l.maxelems && j < l.maxelems && (b != c || i != j)
    ensures l.Slot(b, i) + l.elemsz <= l.Slot(c, j) || l.Slot(c, j) + l.elemsz <= l.Slot(b, i)
  {
    var p, q, e := l.Slot(b, i), l.Slot(c, j), l.elemsz;
    if p <= q < p + e {
      SlotRoundTrip(l, b, i, q - p);
      SlotRoundTrip(l, c, j, 0);
    } else if q <= p < q + e {
      SlotRoundTrip(l, c, j, p - q);
      SlotRoundTrip(l, b, i, 0);
    }
  }

  /** slab_alloc and slab_release find the page from the address of the list node in its footer. */
  lemma NodeBase(l: Layout, base: nat)
    requires l.Accepted() && l.Base(base) == base
    ensures l.NodeAddress(base) >= 0 && l.Base(l.NodeAddress(base)) == base
  {
    FooterPositive(l.PageSize());
    BaseIsFloor(l, base, l.Room() + NODE_OFFSET);
  }
}
