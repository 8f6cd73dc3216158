/** Constructors, destructors and pages, counted over the trace of calls the library makes. */
module SlabLifetimes {
  import opened Wrappers
  import opened SlabLayout
  import opened SlabModel
  import opened SlabInvariant
  import opened SlabSteps
  import opened SlabRuns

  function Count(trace: seq<Event>, e: Event): nat {
    multiset(trace)[e]
  }

  lemma CountConcat(a: seq<Event>, b: seq<Event>, e: Event)
    ensures Count(a + b, e) == Count(a, e) + Count(b, e)
  {
    assert multiset(a + b) == multiset(a) + multiset(b);
  }

  predicate SlotBelow(l: Layout, base: nat, n: nat, a: nat)
    requires l.elemsz > 0
  {
    l.IsSlot(a) && l.Base(a) == base && l.Index(a) < n
  }

  lemma SlotBelowNext(l: Layout, base: nat, n: nat, a: nat)
    requires l.Accepted() && l.Base(base) == base && n < l.maxelems
    ensures SlotBelow(l, base, n + 1, a) <==> SlotBelow(l, base, n, a) || a == l.Slot(base, n)
    ensures !SlotBelow(l, base, n, l.Slot(base, n))
  {
    SlotStart(l, base, n);
  }

  /** slab_grow constructs each slot of the page once. */
  lemma {:induction false} CountConstructions(l: Layout, base: nat, n: nat, a: nat)
    requires l.Accepted() && l.Base(base) == base && n <= l.maxelems
    ensures Count(Constructions(l, base, n), Constructed(a)) == (if SlotBelow(l, base, n, a) then 1 else 0)
  {
    if n > 0 {
      CountConstructions(l, base, n - 1, a);
      CountConcat(Constructions(l, base, n - 1), [Constructed(l.Slot(base, n - 1))], Constructed(a));
      SlotBelowNext(l, base, n - 1, a);
    }
  }

  lemma {:induction false} CountDestructions(l: Layout, base: nat, n: nat, a: nat)
    requires l.Accepted() && l.Base(base) == base && n <= l.maxelems
    ensures Count(Destructions(l, base, n), Destructed(a)) == (if SlotBelow(l, base, n, a) then 1 else 0)
  {
    if n > 0 {
      CountDestructions(l, base, n - 1, a);
      CountConcat(Destructions(l, base, n - 1), [Destructed(l.Slot(base, n - 1))], Destructed(a));
      SlotBelowNext(l, base, n - 1, a);
    }
  }

  lemma {:induction false} OnlyConstructions(l: Layout, base: nat, n: nat, e: Event)
    requires !e.Constructed?
    ensures Count(Constructions(l, base, n), e) == 0
  {
    if n > 0 {
      OnlyConstructions(l, base, n - 1, e);
      CountConcat(Constructions(l, base, n - 1), [Constructed(l.Slot(base, n - 1))], e);
    }
  }

  lemma {:induction false} OnlyDestructions(l: Layout, base: nat, n: nat, e: Event)
    requires !e.Destructed?
    ensures Count(Destructions(l, base, n), e) == 0
  {
    if n > 0 {
      OnlyDestructions(l, base, n - 1, e);
      CountConcat(Destructions(l, base, n - 1), [Destructed(l.Slot(base, n - 1))], e);
    }
  }

  /** An address is a slot of one of these pages. */
  predicate Owned(l: Layout, bases: set<nat>, a: nat)
    requires l.elemsz > 0
  {
    l.IsSlot(a) && l.Base(a) in bases
  }

  function Digit(b: bool): nat {
    if b then 1 else 0
  }

  /** The books for one slot address: constructed once more than destructed exactly while its page is
      held, and once per time the page was taken. */
  predicate SlotBalanced(l: Layout, trace: seq<Event>, bases: set<nat>, a: nat)
    requires l.elemsz > 0
  {
    Count(trace, Constructed(a)) == Count(trace, Destructed(a)) + Digit(Owned(l, bases, a)) &&
    Count(trace, Constructed(a)) == (if l.IsSlot(a) then Count(trace, PageTaken(l.Base(a))) else 0)
  }

  predicate PageBalanced(trace: seq<Event>, bases: set<nat>, b: nat) {
    Count(trace, PageTaken(b)) == Count(trace, PageReturned(b)) + Digit(b in bases)
  }

  predicate Balanced(l: Layout, trace: seq<Event>, bases: set<nat>, a: nat)
    requires l.elemsz > 0
  {
    SlotBalanced(l, trace, bases, a) && PageBalanced(trace, bases, a)
  }

  lemma CountGrown(l: Layout, base: nat, a: nat)
    requires l.Accepted() && l.Base(base) == base
    ensures Count(Grown(l, base), Constructed(a)) == Digit(l.IsSlot(a) && l.Base(a) == base)
    ensures Count(Grown(l, base), Destructed(a)) == 0
    ensures Count(Grown(l, base), PageTaken(a)) == Digit(a == base)
    ensures Count(Grown(l, base), PageReturned(a)) == 0
  {
    var cs := Constructions(l, base, l.maxelems);
    CountConcat([PageTaken(base)], cs, Constructed(a));
    CountConcat([PageTaken(base)], cs, Destructed(a));
    CountConcat([PageTaken(base)], cs, PageTaken(a));
    CountConcat([PageTaken(base)], cs, PageReturned(a));
    CountConstructions(l, base, l.maxelems, a);
    OnlyConstructions(l, base, l.maxelems, Destructed(a));
    OnlyConstructions(l, base, l.maxelems, PageTaken(a));
    OnlyConstructions(l, base, l.maxelems, PageReturned(a));
  }

  lemma CountReleased(l: Layout, base: nat, a: nat)
    requires l.Accepted() && l.Base(base) == base
    ensures Count(Released(l, base), Destructed(a)) == Digit(l.IsSlot(a) && l.Base(a) == base)
    ensures Count(Released(l, base), Constructed(a)) == 0
    ensures Count(Released(l, base), PageReturned(a)) == Digit(a == base)
    ensures Count(Released(l, base), PageTaken(a)) == 0
  {
    var ds := Destructions(l, base, l.maxelems);
    CountConcat(ds, [PageReturned(base)], Constructed(a));
    CountConcat(ds, [PageReturned(base)], Destructed(a));
    CountConcat(ds, [PageReturned(base)], PageTaken(a));
    CountConcat(ds, [PageReturned(base)], PageReturned(a));
    CountDestructions(l, base, l.maxelems, a);
    OnlyDestructions(l, base, l.maxelems, Constructed(a));
    OnlyDestructions(l, base, l.maxelems, PageTaken(a));
    OnlyDestructions(l, base, l.maxelems, PageReturned(a));
  }

  lemma GrowBalanced(l: Layout, trace: seq<Event>, bases: set<nat>, base: nat, a: nat)
    requires l.Accepted() && l.Base(base) == base && base !in bases && Balanced(l, trace, bases, a)
    ensures Balanced(l, trace + Grown(l, base), bases + {base}, a)
  {
    var g := Grown(l, base);
    CountGrown(l, base, a);
    CountGrown(l, base, l.Base(a));
    CountConcat(trace, g, Constructed(a));
    CountConcat(trace, g, Destructed(a));
    CountConcat(trace, g, PageTaken(l.Base(a)));
    CountConcat(trace, g, PageTaken(a));
    CountConcat(trace, g, PageReturned(a));
  }

  lemma ReleaseBalanced(l: Layout, trace: seq<Event>, bases: set<nat>, base: nat, a: nat)
    requires l.Accepted() && l.Base(base) == base && base in bases && Balanced(l, trace, bases, a)
    ensures Balanced(l, trace + Released(l, base), bases - {base}, a)
  {
    var g := Released(l, base);
    CountReleased(l, base, a);
    CountReleased(l, base, l.Base(a));
    CountConcat(trace, g, Constructed(a));
    CountConcat(trace, g, Destructed(a));
    CountConcat(trace, g, PageTaken(l.Base(a)));
    CountConcat(trace, g, PageTaken(a));
    CountConcat(trace, g, PageReturned(a));
  }

  /** For this address, the trace of a state accounts for exactly the pages the state holds. */
  predicate Accounted(s: Slab, a: nat)
    requires s.layout.elemsz > 0
  {
    Balanced(s.layout, s.trace, AllBases(s), a)
  }

  lemma ProvideAccounted(s: Slab, offer: Option<nat>, a: nat)
    requires Inv(s) && Legal(s, OpAlloc(offer)) && Accounted(s, a)
    ensures Accounted(Provide(s, offer), a)
  {
    ProvideKeeps(s, offer);
    if s.partial == [] && s.empty == [] && offer.Some? {
      GrowBalanced(s.layout, s.trace, AllBases(s), offer.value, a);
    }
  }

  lemma AllocAccounted(s: Slab, offer: Option<nat>, a: nat)
    requires Inv(s) && Legal(s, OpAlloc(offer)) && Accounted(s, a)
    ensures Accounted(Alloc(s, offer).0, a)
  {
    ProvideAccounted(s, offer, a);
    ProvideKeeps(s, offer);
    var t := Provide(s, offer);
    if t.partial != [] { TakeAccounted(t, a); }
  }

  lemma TakeAccounted(s: Slab, a: nat)
    requires Ready(s) && Accounted(s, a)
    ensures Accounted(Take(s), a)
  {
    TakeApart(s);
  }

  lemma {:induction false} TrimAccounted(s: Slab, a: nat)
    requires Inv(s) && Accounted(s, a)
    ensures Accounted(Trim(s), a)
    decreases |s.empty|
  {
    if |s.empty| > |s.full| + |s.partial| {
      var base, r := s.empty[0].base, ReleaseFirst(s);
      assert PageOk(s.layout, s.empty[0]);
      ReleaseBalanced(s.layout, s.trace, AllBases(s), base, a);
      ReleaseFirstKeeps(s);
      TrimAccounted(r, a);
    }
  }

  lemma FreeAccounted(s: Slab, ptr: nat, a: nat)
    requires Inv(s) && ptr in Live(s) && Accounted(s, a)
    ensures Accounted(Free(s, ptr).0, a)
  {
    LiveOnPage(s, ptr);
    GiveBackKeeps(s, s.layout.Base(ptr), s.layout.Index(ptr));
    GiveBackAccounted(s, s.layout.Base(ptr), s.layout.Index(ptr), a);
    TrimAccounted(GiveBack(s, s.layout.Base(ptr), s.layout.Index(ptr)).0, a);
  }

  lemma GiveBackAccounted(s: Slab, base: nat, i: nat, a: nat)
    requires Inv(s) && i < s.layout.maxelems && Accounted(s, a)
    ensures Accounted(GiveBack(s, base, i).0, a)
  {
    GiveBackKeeps(s, base, i);
  }

  lemma StepAccounted(s: Slab, op: Op, a: nat)
    requires Inv(s) && Legal(s, op) && Accounted(s, a)
    ensures Accounted(Step(s, op).0, a)
  {
    match op
    case OpAlloc(offer) => AllocAccounted(s, offer, a);
    case OpFree(ptr) =>
      if ptr != NULL {
        FreeAccounted(s, ptr, a);
      }
    case OpReset => ResetApart(s);
  }

  lemma {:induction false} RunAccounted(s: Slab, ops: seq<Op>, a: nat)
    requires Inv(s) && LegalRun(s, ops) && Accounted(s, a)
    ensures Accounted(Run(s, ops), a)
    decreases |ops|
  {
    if ops != [] {
      StepRefines(s, ops[0]);
      StepAccounted(s, ops[0], a);
      RunAccounted(Step(s, ops[0]).0, ops[1..], a);
    }
  }

  lemma {:induction false} ReleaseAllBalanced(l: Layout, trace: seq<Event>, bases: set<nat>, ps: seq<Page>, a: nat)
    requires l.Accepted() && AllOk(l, ps) && Distinct(ps) && Bases(ps) <= bases && Balanced(l, trace, bases, a)
    ensures Balanced(l, trace + ReleasedAll(l, ps), bases - Bases(ps), a)
    decreases |ps|
  {
    ReleaseAllSplits(l, trace, bases, ps);
    if ps != [] {
      var base := ps[0].base;
      FirstOk(l, ps);
      ReleaseBalanced(l, trace, bases, base, a);
      ReleaseAllBalanced(l, trace + Released(l, base), bases - {base}, ps[1..], a);
    }
  }

  lemma FirstOk(l: Layout, ps: seq<Page>)
    requires ps != [] && AllOk(l, ps)
    ensures l.Base(ps[0].base) == ps[0].base && AllOk(l, ps[1..])
  {
    assert PageOk(l, ps[0]);
  }

  lemma ReleaseAllSplits(l: Layout, trace: seq<Event>, bases: set<nat>, ps: seq<Page>)
    ensures ps == [] ==> trace + ReleasedAll(l, ps) == trace && bases - Bases(ps) == bases
    ensures ps != [] ==>
      trace + ReleasedAll(l, ps) == (trace + Released(l, ps[0].base)) + ReleasedAll(l, ps[1..]) &&
      bases - Bases(ps) == (bases - {ps[0].base}) - Bases(ps[1..])
  {
    if ps != [] {
      assert trace + (Released(l, ps[0].base) + ReleasedAll(l, ps[1..])) ==
             (trace + Released(l, ps[0].base)) + ReleasedAll(l, ps[1..]);
    }
  }

  lemma DestroyBalanced(s: Slab, a: nat)
    requires Inv(s) && Accounted(s, a)
    ensures Balanced(s.layout, Destroy(s).trace, {}, a)
  {
    var l, b := s.layout, AllBases(s);
    ListsOk(s);
    ReleaseAllBalanced(l, s.trace, b, s.empty, a);
    var t1, b1 := s.trace + ReleasedAll(l, s.empty), b - Bases(s.empty);
    ReleaseAllBalanced(l, t1, b1, s.partial, a);
    var t2, b2 := t1 + ReleasedAll(l, s.partial), b1 - Bases(s.partial);
    ReleaseAllBalanced(l, t2, b2, s.full, a);
    assert b2 - Bases(s.full) == {};
  }

  lemma RunFromStart(l: Layout, ops: seq<Op>, a: nat) returns (s: Slab)
    requires l.Accepted() && LegalRun(Create(l), ops)
    ensures s == Run(Create(l), ops) && s.layout == l && Inv(s) && Accounted(s, a)
  {
    s := Run(Create(l), ops);
    CreateInv(l);
    RunRefines(Create(l), ops);
    RunAccounted(Create(l), ops, a);
  }

  /** Over any run from creation to destruction every slot is constructed and destructed equally often,
      once per lifetime of its page, and every page taken is returned. */
  lemma EveryLifetimeEnds(l: Layout, ops: seq<Op>, a: nat)
    requires l.Accepted() && LegalRun(Create(l), ops)
    ensures var trace := Destroy(Run(Create(l), ops)).trace;
            Count(trace, Constructed(a)) == Count(trace, Destructed(a)) &&
            Count(trace, Constructed(a)) == (if l.IsSlot(a) then Count(trace, PageTaken(l.Base(a))) else 0) &&
            Count(trace, PageTaken(a)) == Count(trace, PageReturned(a))
  {
    var s := RunFromStart(l, ops, a);
    DestroyBalanced(s, a);
  }

  /** While the allocator lives, a slot has been constructed once more than destructed exactly when its
      page is one of the allocator's pages; so no slot is ever constructed twice in a row. */
  lemma SlotsOnceAlive(l: Layout, ops: seq<Op>, a: nat)
    requires l.Accepted() && LegalRun(Create(l), ops)
    ensures var s := Run(Create(l), ops);
            Count(s.trace, Constructed(a)) == Count(s.trace, Destructed(a)) + Digit(Owned(l, AllBases(s), a))
  {
    var s := RunFromStart(l, ops, a);
  }
}
