/** The allocator as a state machine over values: three sequences of pages and a trace of what the
    outside world saw. This is what the heap classes in SlabAllocator.dfy are proved to implement;
    the properties of whole runs are proved here and in the files that import this one. */
module SlabModel {
  import opened Wrappers
  import opened SlabLayout
  import SlabBitmap

  /** A page: its base address, the set of free slot indices, and the counter in its footer. */
  datatype Page = Page(base: nat, free: set<nat>, numelems: int)

  /** Calls out of the library: page allocator, constructor, destructor. */
  datatype Event =
    | PageTaken(base: nat)
    | Constructed(addr: nat)
    | Destructed(addr: nat)
    | PageReturned(base: nat)

  datatype Slab = Slab(layout: Layout, empty: seq<Page>, partial: seq<Page>, full: seq<Page>, trace: seq<Event>)

  /** How slab_free ends: it returns; it panics, because the page is none of the allocator's or the bit of
      the slot is set; or one of its assertions fails. */
  datatype FreeOutcome = Done | NotInSlabPage | DoubleFree | AssertFails

  const NULL: nat := 0

  /** The slot indices below n. */
  function Indices(n: int): (s: set<nat>)
    ensures forall i :: i in s <==> 0 <= i < n
  {
    if n <= 0 then {} else Indices(n - 1) + {n - 1}
  }

  function Create(layout: Layout): Slab {
    Slab(layout, [], [], [], [])
  }

  /** The constructor calls of slab_grow, slots 0 to n. */
  function Constructions(l: Layout, base: nat, n: nat): seq<Event> {
    if n == 0 then [] else Constructions(l, base, n - 1) + [Constructed(l.Slot(base, n - 1))]
  }

  function Destructions(l: Layout, base: nat, n: nat): seq<Event> {
    if n == 0 then [] else Destructions(l, base, n - 1) + [Destructed(l.Slot(base, n - 1))]
  }

  function Grown(l: Layout, base: nat): seq<Event> {
    [PageTaken(base)] + Constructions(l, base, l.maxelems)
  }

  /** slab_grow, once the page allocator has handed out a page. */
  function Grow(s: Slab, base: nat): Slab
  {
    s.(empty := s.empty + [Page(base, Indices(s.layout.maxelems), 0)],
       trace := s.trace + Grown(s.layout, base))
  }

  /** A sequence with the element at position k taken out. */
  function Without<T>(s: seq<T>, k: nat): seq<T>
    requires k < |s|
  {
    s[..k] + s[k + 1..]
  }

  lemma WithoutFirst<T>(s: seq<T>)
    requires s != []
    ensures Without(s, 0) == s[1..]
  {}

  lemma WithoutUpdated<T>(s: seq<T>, k: nat, x: T)
    requires k < |s|
    ensures Without(s[k := x], k) == Without(s, k)
  {}

  /** empty -> partial */
  function Promote(s: Slab): Slab
    requires s.empty != []
  {
    s.(empty := s.empty[1..], partial := s.partial + [s.empty[0]])
  }

  /** Make sure the partial list has a head, if that is possible. */
  function Provide(s: Slab, offer: Option<nat>): Slab {
    if s.partial != [] then s else
    var t := if s.empty == [] && offer.Some? then Grow(s, offer.value) else s;
    if t.empty == [] then t else Promote(t)
  }

  /** The index of the lowest bit set in the bitmap of a page. */
  function Lowest(l: Layout, p: Page): nat {
    SlabBitmap.Least(p.free, 0, l.Bits())
  }

  /** A page with its lowest free slot handed out. */
  function Taken(l: Layout, p: Page): Page {
    Page(p.base, p.free - {Lowest(l, p)}, p.numelems + 1)
  }

  /** Take a slot of the first partial page; a page that is full by its counter changes lists. */
  function Take(s: Slab): Slab
    requires s.partial != []
  {
    var page' := Taken(s.layout, s.partial[0]);
    if page'.numelems == s.layout.maxelems then s.(partial := Without(s.partial, 0), full := s.full + [page'])
    else s.(partial := s.partial[0 := page'])
  }

  /** slab_alloc; `offer` is what the page allocator would answer if it were asked. */
  function Alloc(s: Slab, offer: Option<nat>): (r: (Slab, nat))
    ensures r.0.layout == s.layout
  {
    var t := Provide(s, offer);
    if t.partial == [] then (t, NULL)
    else (Take(t), t.layout.Slot(t.partial[0].base, Lowest(t.layout, t.partial[0])))
  }

  /** The position of the page with this base, or the length of the list. */
  function Find(ps: seq<Page>, base: nat): (k: nat)
    ensures k <= |ps|
    ensures k < |ps| ==> ps[k].base == base
    ensures forall j :: 0 <= j < k ==> ps[j].base != base
  {
    if ps == [] || ps[0].base == base then 0 else Find(ps[1..], base) + 1
  }

  /** full -> partial */
  function AfterFull(s: Slab, f: nat, i: nat): Slab
    requires f < |s.full|
  {
    var page := s.full[f];
    s.(full := Without(s.full, f), partial := s.partial + [Page(page.base, page.free + {i}, page.numelems - 1)])
  }

  /** partial -> empty when the counter is one; otherwise the counter does not move. */
  function AfterPartial(s: Slab, p: nat, i: nat): Slab
    requires p < |s.partial|
  {
    var page := s.partial[p];
    if page.numelems == 1
    then s.(partial := Without(s.partial, p), empty := s.empty + [Page(page.base, page.free + {i}, 0)])
    else s.(partial := s.partial[p := Page(page.base, page.free + {i}, page.numelems)])
  }

  /** With this slot returned every slot of the page would be free, as the consistency check wants. */
  predicate AllBack(page: Page, i: nat, max: int) {
    Indices(max) <= page.free + {i}
  }

  /** Return a slot to its page. The index is that of any pointer into the page, so it may lie behind the
      last slot. */
  function GiveBack(s: Slab, base: nat, i: nat): (r: (Slab, FreeOutcome)) {
    var f, p, e := Find(s.full, base), Find(s.partial, base), Find(s.empty, base);
    if f < |s.full| then
      if i in s.full[f].free then (s, DoubleFree)
      else if s.full[f].numelems <= 0 then (s, AssertFails)
      else (AfterFull(s, f, i), Done)
    else if p < |s.partial| then
      var page := s.partial[p];
      if i in page.free then (s, DoubleFree)
      else if page.numelems <= 0 || (page.numelems == 1 && !AllBack(page, i, s.layout.maxelems)) then (s, AssertFails)
      else (AfterPartial(s, p, i), Done)
    else if e < |s.empty| then
      (s, if i in s.empty[e].free then DoubleFree else AssertFails)
    else
      (s, NotInSlabPage)
  }

  /** slab_release of the head of the empty list. */
  function ReleaseFirst(s: Slab): Slab
    requires s.empty != []
  {
    s.(empty := s.empty[1..], trace := s.trace + Released(s.layout, s.empty[0].base))
  }

  function Released(l: Layout, base: nat): seq<Event>
  {
    Destructions(l, base, l.maxelems) + [PageReturned(base)]
  }

  /** slab_trim: it stops as soon as there are no more empty pages than others. */
  function Trim(s: Slab): (t: Slab)
    ensures t.layout == s.layout && t.partial == s.partial && t.full == s.full
    ensures |t.empty| == if |s.empty| <= |s.partial| + |s.full| then |s.empty| else |s.partial| + |s.full|
    ensures t.empty == s.empty[|s.empty| - |t.empty|..]
    decreases |s.empty|
  {
    if |s.empty| > |s.full| + |s.partial| then
      var t := Trim(ReleaseFirst(s));
      assert t.empty == s.empty[1..][|s.empty| - 1 - |t.empty|..] == s.empty[|s.empty| - |t.empty|..];
      t
    else s
  }

  /** slab_free */
  function Free(s: Slab, ptr: nat): (r: (Slab, FreeOutcome))
    requires s.layout.elemsz > 0
    ensures r.0.layout == s.layout
  {
    if ptr == NULL then (s, Done) else
    var (t, outcome) := GiveBack(s, s.layout.Base(ptr), s.layout.Index(ptr));
    if outcome == Done then (Trim(t), Done) else (s, outcome)
  }

  function Cleared(ps: seq<Page>, max: int): seq<Page> {
    seq(|ps|, k requires 0 <= k < |ps| => Page(ps[k].base, ps[k].free + Indices(max), 0))
  }

  /** slab_reset: partial pages first, then full ones, all to the end of the empty list. */
  function Reset(s: Slab): Slab
  {
    s.(empty := s.empty + Cleared(s.partial, s.layout.maxelems) + Cleared(s.full, s.layout.maxelems),
       partial := [], full := [])
  }

  function ReleasedAll(l: Layout, ps: seq<Page>): seq<Event>
  {
    if ps == [] then [] else Released(l, ps[0].base) + ReleasedAll(l, ps[1..])
  }

  /** slab_destroy */
  function Destroy(s: Slab): Slab
  {
    s.(empty := [], partial := [], full := [],
       trace := s.trace + ReleasedAll(s.layout, s.empty) + ReleasedAll(s.layout, s.partial)
                + ReleasedAll(s.layout, s.full))
  }

  // ---- the invariant ----

  function Bases(ps: seq<Page>): set<nat> {
    if ps == [] then {} else {ps[0].base} + Bases(ps[1..])
  }

  function AllBases(s: Slab): set<nat> {
    Bases(s.empty) + Bases(s.partial) + Bases(s.full)
  }

  /** No two pages of the list share a base. */
  predicate Distinct(ps: seq<Page>) {
    ps == [] || (ps[0].base !in Bases(ps[1..]) && Distinct(ps[1..]))
  }

  function Used(p: Page, max: int): int {
    max - |p.free|
  }

  predicate PageOk(l: Layout, p: Page) {
    l.IsPageBase(p.base) && p.free <= Indices(l.maxelems)
  }

  datatype Role = Empty | Partial | Full

  /** On the partial list the counter is an upper bound of the slots in use, below the maximum;
      it is zero only on a page that has room for just one element. */
  predicate Fits(l: Layout, role: Role, p: Page) {
    PageOk(l, p) &&
    match role
    case Empty => p.free == Indices(l.maxelems) && p.numelems == 0
    case Partial => Used(p, l.maxelems) <= p.numelems < l.maxelems && (p.numelems == 0 ==> l.maxelems == 1)
    case Full => p.numelems == l.maxelems
  }

  predicate AllFit(l: Layout, role: Role, ps: seq<Page>) {
    forall k :: 0 <= k < |ps| ==> Fits(l, role, ps[k])
  }

  /** The three lists partition the pages. */
  predicate Apart(s: Slab) {
    && Distinct(s.empty) && Distinct(s.partial) && Distinct(s.full)
    && Bases(s.empty) !! Bases(s.partial) && Bases(s.empty) !! Bases(s.full) && Bases(s.partial) !! Bases(s.full)
  }

  predicate Inv(s: Slab) {
    && s.layout.Accepted()
    && AllFit(s.layout, Empty, s.empty) && AllFit(s.layout, Partial, s.partial) && AllFit(s.layout, Full, s.full)
    && Apart(s)
  }

  // ---- live pointers ----

  function LivePage(l: Layout, p: Page): set<nat>
  {
    set i: nat | i in Indices(l.maxelems) && i !in p.free :: l.Slot(p.base, i)
  }

  function LiveIn(l: Layout, ps: seq<Page>): set<nat>
  {
    if ps == [] then {} else LivePage(l, ps[0]) + LiveIn(l, ps[1..])
  }

  /** The pointers handed out and not taken back. */
  function Live(s: Slab): set<nat>
  {
    LiveIn(s.layout, s.empty) + LiveIn(s.layout, s.partial) + LiveIn(s.layout, s.full)
  }

  // ---- runs ----

  datatype Op = OpAlloc(offer: Option<nat>) | OpFree(ptr: nat) | OpReset

  /** What the caller and the page allocator owe: a page offered is page-aligned and not in use,
      a pointer freed is NULL or live. */
  predicate Legal(s: Slab, op: Op)
  {
    match op
    case OpAlloc(offer) => offer.Some? ==> s.layout.IsPageBase(offer.value) && offer.value !in AllBases(s)
    case OpFree(ptr) => ptr == NULL || ptr in Live(s)
    case OpReset => true
  }

  /** One operation, with the pointer it returns (NULL for the operations that return nothing). */
  function Step(s: Slab, op: Op): (r: (Slab, nat))
    requires s.layout.elemsz > 0
    ensures r.0.layout == s.layout
  {
    match op
    case OpAlloc(offer) => Alloc(s, offer)
    case OpFree(ptr) => (Free(s, ptr).0, NULL)
    case OpReset => (Reset(s), NULL)
  }

  predicate LegalRun(s: Slab, ops: seq<Op>)
    requires s.layout.elemsz > 0
    decreases |ops|
  {
    ops == [] || (Legal(s, ops[0]) && LegalRun(Step(s, ops[0]).0, ops[1..]))
  }

  function Run(s: Slab, ops: seq<Op>): (t: Slab)
    requires s.layout.elemsz > 0
    ensures t.layout == s.layout
    decreases |ops|
  {
    if ops == [] then s else Run(Step(s, ops[0]).0, ops[1..])
  }

  function Results(s: Slab, ops: seq<Op>): (rs: seq<nat>)
    requires s.layout.elemsz > 0
    ensures |rs| == |ops|
    decreases |ops|
  {
    if ops == [] then [] else [Step(s, ops[0]).1] + Results(Step(s, ops[0]).0, ops[1..])
  }
}
