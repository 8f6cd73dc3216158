/** The order of the calls out of the allocator: at each point of every trace the page and the slot are in the
    state the call needs. */
module SlabOrder {
  import opened Wrappers
  import opened SlabLayout
  import opened SlabModel
  import opened SlabInvariant
  import opened SlabSteps
  import opened SlabRuns
  import opened SlabLifetimes

  /** The page was taken once more than it was returned. */
  predicate PageHeld(before: seq<Event>, b: nat) {
    Count(before, PageTaken(b)) == Count(before, PageReturned(b)) + 1
  }

  /** The slot was constructed so often more than it was destructed. */
  predicate Alive(before: seq<Event>, a: nat, n: nat) {
    Count(before, Constructed(a)) == Count(before, Destructed(a)) + n
  }

  /** After these calls this one is in place: a page is taken when it is not held; a slot is constructed on a
      page that is held, when it is not alive, and destructed on a page that is held, when it is alive; a page
      is returned when it is held and none of its slots is alive. */
  ghost predicate InPlace(l: Layout, before: seq<Event>, e: Event)
    requires l.elemsz > 0
  {
    match e
    case PageTaken(b) => Count(before, PageTaken(b)) == Count(before, PageReturned(b))
    case Constructed(a) => l.IsSlot(a) && PageHeld(before, l.Base(a)) && Alive(before, a, 0)
    case Destructed(a) => l.IsSlot(a) && PageHeld(before, l.Base(a)) && Alive(before, a, 1)
    case PageReturned(b) =>
      PageHeld(before, b) && forall a: nat | l.IsSlot(a) && l.Base(a) == b :: Alive(before, a, 0)
  }

  /** Every call is in place. */
  ghost predicate Orderly(l: Layout, trace: seq<Event>)
    requires l.elemsz > 0
  {
    forall n :: 0 <= n < |trace| ==> InPlace(l, trace[..n], trace[n])
  }

  lemma OrderlyMore(l: Layout, trace: seq<Event>, e: Event)
    requires l.elemsz > 0 && Orderly(l, trace) && InPlace(l, trace, e)
    ensures Orderly(l, trace + [e])
  {
    hide InPlace;
    var t := trace + [e];
    forall n | 0 <= n < |t| ensures InPlace(l, t[..n], t[n]) {
      if n < |trace| {
        assert t[..n] == trace[..n] && t[n] == trace[n];
      } else {
        assert t[..n] == trace;
      }
    }
  }

  ghost predicate AllBalanced(l: Layout, trace: seq<Event>, bases: set<nat>)
    requires l.elemsz > 0
  {
    forall a: nat :: Balanced(l, trace, bases, a)
  }

  /** The books and the order. */
  ghost predicate Kept(l: Layout, trace: seq<Event>, bases: set<nat>)
    requires l.elemsz > 0
  {
    AllBalanced(l, trace, bases) && Orderly(l, trace)
  }

  // ---- taking a page ----

  lemma {:induction false} ConstructingOrderly(l: Layout, trace: seq<Event>, bases: set<nat>, base: nat, n: nat)
    requires l.Accepted() && l.Base(base) == base && base !in bases && n <= l.maxelems
    requires Kept(l, trace, bases)
    ensures Orderly(l, (trace + [PageTaken(base)]) + Constructions(l, base, n))
    decreases n
  {
    hide Orderly, InPlace, Balanced;
    var t := trace + [PageTaken(base)];
    if n == 0 {
      assert t + Constructions(l, base, 0) == t;
      TakingInPlace(l, trace, bases, base);
      OrderlyMore(l, trace, PageTaken(base));
    } else {
      var cs, a := Constructions(l, base, n - 1), l.Slot(base, n - 1);
      ConstructingOrderly(l, trace, bases, base, n - 1);
      ConstructingInPlace(l, trace, bases, base, n - 1);
      OrderlyMore(l, t + cs, Constructed(a));
      assert (t + cs) + [Constructed(a)] == t + Constructions(l, base, n);
    }
  }

  lemma TakingInPlace(l: Layout, trace: seq<Event>, bases: set<nat>, base: nat)
    requires l.elemsz > 0 && base !in bases && AllBalanced(l, trace, bases)
    ensures InPlace(l, trace, PageTaken(base))
  {
    hide SlotBalanced;
    assert Balanced(l, trace, bases, base);
  }

  lemma ConstructingInPlace(l: Layout, trace: seq<Event>, bases: set<nat>, base: nat, n: nat)
    requires l.Accepted() && l.Base(base) == base && base !in bases && n < l.maxelems && AllBalanced(l, trace, bases)
    ensures InPlace(l, (trace + [PageTaken(base)]) + Constructions(l, base, n), Constructed(l.Slot(base, n)))
  {
    hide Layout.Base, Layout.Index, Layout.PageSize, Layout.Room, Constructions;
    var a, cs, taken := l.Slot(base, n), Constructions(l, base, n), [PageTaken(base)];
    var t := trace + taken;
    SlotStart(l, base, n);
    assert Balanced(l, trace, bases, a) && Balanced(l, trace, bases, base);
    CountConstructions(l, base, n, a);
    SlotBelowNext(l, base, n, a);
    OnlyConstructions(l, base, n, Destructed(a));
    OnlyConstructions(l, base, n, PageTaken(base));
    OnlyConstructions(l, base, n, PageReturned(base));
    CountThree(trace, taken, cs, Constructed(a));
    CountThree(trace, taken, cs, Destructed(a));
    CountThree(trace, taken, cs, PageTaken(base));
    CountThree(trace, taken, cs, PageReturned(base));
  }

  lemma CountThree(a: seq<Event>, b: seq<Event>, c: seq<Event>, e: Event)
    ensures Count((a + b) + c, e) == Count(a, e) + Count(b, e) + Count(c, e)
  {
    CountConcat(a, b, e);
    CountConcat(a + b, c, e);
  }

  lemma GrowOrderly(l: Layout, trace: seq<Event>, bases: set<nat>, base: nat)
    requires l.Accepted() && l.Base(base) == base && base !in bases && Kept(l, trace, bases)
    ensures Kept(l, trace + Grown(l, base), bases + {base})
  {
    hide Orderly, Balanced;
    ConstructingOrderly(l, trace, bases, base, l.maxelems);
    assert (trace + [PageTaken(base)]) + Constructions(l, base, l.maxelems) == trace + Grown(l, base);
    forall a: nat ensures Balanced(l, trace + Grown(l, base), bases + {base}, a) {
      GrowBalanced(l, trace, bases, base, a);
    }
  }

  // ---- returning a page ----

  lemma {:induction false} DestructingOrderly(l: Layout, trace: seq<Event>, bases: set<nat>, base: nat, n: nat)
    requires l.Accepted() && l.Base(base) == base && base in bases && n <= l.maxelems
    requires Kept(l, trace, bases)
    ensures Orderly(l, trace + Destructions(l, base, n))
    decreases n
  {
    hide Orderly, InPlace, Balanced;
    if n == 0 {
      assert trace + Destructions(l, base, 0) == trace;
    } else {
      var ds, a := Destructions(l, base, n - 1), l.Slot(base, n - 1);
      DestructingOrderly(l, trace, bases, base, n - 1);
      DestructingInPlace(l, trace, bases, base, n - 1);
      OrderlyMore(l, trace + ds, Destructed(a));
      assert (trace + ds) + [Destructed(a)] == trace + Destructions(l, base, n);
    }
  }

  lemma DestructingInPlace(l: Layout, trace: seq<Event>, bases: set<nat>, base: nat, n: nat)
    requires l.Accepted() && l.Base(base) == base && base in bases && n < l.maxelems && AllBalanced(l, trace, bases)
    ensures InPlace(l, trace + Destructions(l, base, n), Destructed(l.Slot(base, n)))
  {
    hide Layout.Base, Layout.Index, Layout.PageSize, Layout.Room, Destructions;
    var a, ds := l.Slot(base, n), Destructions(l, base, n);
    SlotStart(l, base, n);
    assert Balanced(l, trace, bases, a) && Balanced(l, trace, bases, base);
    CountDestructions(l, base, n, a);
    SlotBelowNext(l, base, n, a);
    OnlyDestructions(l, base, n, Constructed(a));
    OnlyDestructions(l, base, n, PageTaken(base));
    OnlyDestructions(l, base, n, PageReturned(base));
    CountConcat(trace, ds, Constructed(a));
    CountConcat(trace, ds, Destructed(a));
    CountConcat(trace, ds, PageTaken(base));
    CountConcat(trace, ds, PageReturned(base));
  }

  lemma ReturningInPlace(l: Layout, trace: seq<Event>, bases: set<nat>, base: nat)
    requires l.Accepted() && l.Base(base) == base && base in bases && AllBalanced(l, trace, bases)
    ensures InPlace(l, trace + Destructions(l, base, l.maxelems), PageReturned(base))
  {
    hide Layout.Base, Layout.Index, Layout.PageSize, Layout.Room, Destructions;
    var ds := Destructions(l, base, l.maxelems);
    assert Balanced(l, trace, bases, base);
    OnlyDestructions(l, base, l.maxelems, PageTaken(base));
    OnlyDestructions(l, base, l.maxelems, PageReturned(base));
    CountConcat(trace, ds, PageTaken(base));
    CountConcat(trace, ds, PageReturned(base));
    forall a: nat | l.IsSlot(a) && l.Base(a) == base ensures Alive(trace + ds, a, 0) {
      assert Balanced(l, trace, bases, a);
      CountDestructions(l, base, l.maxelems, a);
      OnlyDestructions(l, base, l.maxelems, Constructed(a));
      CountConcat(trace, ds, Constructed(a));
      CountConcat(trace, ds, Destructed(a));
    }
  }

  lemma ReleaseOrderly(l: Layout, trace: seq<Event>, bases: set<nat>, base: nat)
    requires l.Accepted() && l.Base(base) == base && base in bases && Kept(l, trace, bases)
    ensures Kept(l, trace + Released(l, base), bases - {base})
  {
    hide Orderly, InPlace, Balanced;
    var ds := Destructions(l, base, l.maxelems);
    DestructingOrderly(l, trace, bases, base, l.maxelems);
    ReturningInPlace(l, trace, bases, base);
    OrderlyMore(l, trace + ds, PageReturned(base));
    assert (trace + ds) + [PageReturned(base)] == trace + Released(l, base);
    forall a: nat ensures Balanced(l, trace + Released(l, base), bases - {base}, a) {
      ReleaseBalanced(l, trace, bases, base, a);
    }
  }

  // ---- runs ----

  ghost predicate KeptState(s: Slab)
    requires s.layout.elemsz > 0
  {
    Kept(s.layout, s.trace, AllBases(s))
  }

  lemma ProvideOrderly(s: Slab, offer: Option<nat>)
    requires Inv(s) && Legal(s, OpAlloc(offer)) && KeptState(s)
    ensures KeptState(Provide(s, offer))
  {
    hide Kept, Inv, Live, AllBases, Provide;
    InvSizes(s);
    ProvideKeeps(s, offer);
    ProvideCalls(s, offer);
    if s.partial == [] && s.empty == [] && offer.Some? {
      GrowOrderly(s.layout, s.trace, AllBases(s), offer.value);
    } else {
      assert AllBases(s) + {} == AllBases(s);
    }
  }

  lemma ProvideCalls(s: Slab, offer: Option<nat>)
    ensures var t := Provide(s, offer);
            t.layout == s.layout &&
            t.trace == if s.partial == [] && s.empty == [] && offer.Some? then s.trace + Grown(s.layout, offer.value)
                       else s.trace
  {}

  lemma AllocOrderly(s: Slab, offer: Option<nat>)
    requires Inv(s) && Legal(s, OpAlloc(offer)) && KeptState(s)
    ensures KeptState(Alloc(s, offer).0)
  {
    hide Kept, Inv, Live, AllBases, Legal, Provide, Take;
    InvSizes(s);
    ProvideOrderly(s, offer);
    ProvideKeeps(s, offer);
    var t := Provide(s, offer);
    if t.partial != [] { TakeOrderly(t); }
  }

  lemma TakeOrderly(t: Slab)
    requires t.layout.elemsz > 0 && t.partial != [] && Apart(t) && KeptState(t)
    ensures KeptState(Take(t))
  {
    hide Kept;
    TakeApart(t);
  }

  lemma {:induction false} TrimOrderly(s: Slab)
    requires Inv(s) && KeptState(s)
    ensures KeptState(Trim(s))
    decreases |s.empty|
  {
    hide Kept;
    if |s.empty| > |s.full| + |s.partial| {
      assert PageOk(s.layout, s.empty[0]);
      ReleaseOrderly(s.layout, s.trace, AllBases(s), s.empty[0].base);
      ReleaseFirstKeeps(s);
      TrimOrderly(ReleaseFirst(s));
    }
  }

  lemma FreeOrderly(s: Slab, ptr: nat)
    requires Inv(s) && ptr in Live(s) && KeptState(s)
    ensures KeptState(Free(s, ptr).0)
  {
    hide Kept;
    LiveOnPage(s, ptr);
    GiveBackKeeps(s, s.layout.Base(ptr), s.layout.Index(ptr));
    TrimOrderly(GiveBack(s, s.layout.Base(ptr), s.layout.Index(ptr)).0);
  }

  lemma StepOrderly(s: Slab, op: Op)
    requires Inv(s) && Legal(s, op) && KeptState(s)
    ensures KeptState(Step(s, op).0)
  {
    hide Kept;
    match op
    case OpAlloc(offer) => AllocOrderly(s, offer);
    case OpFree(ptr) => if ptr != NULL { FreeOrderly(s, ptr); }
    case OpReset => ResetApart(s);
  }

  lemma {:induction false} RunKept(s: Slab, ops: seq<Op>)
    requires Inv(s) && LegalRun(s, ops) && KeptState(s)
    ensures KeptState(Run(s, ops))
    decreases |ops|
  {
    hide Kept;
    if ops != [] {
      StepRefines(s, ops[0]);
      StepOrderly(s, ops[0]);
      RunKept(Step(s, ops[0]).0, ops[1..]);
    }
  }

  lemma {:induction false} ReleaseAllOrderly(l: Layout, trace: seq<Event>, bases: set<nat>, ps: seq<Page>)
    requires l.Accepted() && AllOk(l, ps) && Distinct(ps) && Bases(ps) <= bases && Kept(l, trace, bases)
    ensures Kept(l, trace + ReleasedAll(l, ps), bases - Bases(ps))
    decreases |ps|
  {
    hide Kept;
    ReleaseAllSplits(l, trace, bases, ps);
    if ps != [] {
      var base := ps[0].base;
      FirstOk(l, ps);
      ReleaseOrderly(l, trace, bases, base);
      ReleaseAllOrderly(l, trace + Released(l, base), bases - {base}, ps[1..]);
    }
  }

  lemma DestroyOrderly(s: Slab)
    requires Inv(s) && KeptState(s)
    ensures Kept(s.layout, Destroy(s).trace, {})
  {
    hide Kept;
    var l, b := s.layout, AllBases(s);
    ListsOk(s);
    ReleaseAllOrderly(l, s.trace, b, s.empty);
    var t1, b1 := s.trace + ReleasedAll(l, s.empty), b - Bases(s.empty);
    ReleaseAllOrderly(l, t1, b1, s.partial);
    var t2, b2 := t1 + ReleasedAll(l, s.partial), b1 - Bases(s.partial);
    ReleaseAllOrderly(l, t2, b2, s.full);
    assert b2 - Bases(s.full) == {};
  }

  /** Over every run, and if the allocator is then destroyed: every call to the page allocator, to the
      constructor and to the destructor is in place. */
  lemma RunOrderly(l: Layout, ops: seq<Op>)
    requires l.Accepted() && LegalRun(Create(l), ops)
    ensures Orderly(l, Run(Create(l), ops).trace)
    ensures Orderly(l, Destroy(Run(Create(l), ops)).trace)
  {
    hide Orderly, Balanced;
    CreateInv(l);
    StartKept(l);
    RunKept(Create(l), ops);
    RunRefines(Create(l), ops);
    DestroyOrderly(Run(Create(l), ops));
  }

  lemma StartKept(l: Layout)
    requires l.elemsz > 0
    ensures KeptState(Create(l))
  {
    forall a: nat ensures Balanced(l, [], {}, a) {}
  }

  // ---- ascending ----

  /** A page is taken, then its slots are constructed from the first byte up, each behind the one before. */
  lemma {:induction false} GrownAscends(l: Layout, base: nat, k: nat)
    requires k < l.maxelems
    ensures |Grown(l, base)| == l.maxelems + 1 && Grown(l, base)[0] == PageTaken(base)
    ensures Grown(l, base)[k + 1] == Constructed(base + k * l.elemsz)
  {
    Ascending(l, base, l.maxelems, k);
  }

  lemma {:induction false} Ascending(l: Layout, base: nat, n: nat, k: nat)
    requires k < n
    ensures |Constructions(l, base, n)| == n && Constructions(l, base, n)[k] == Constructed(base + k * l.elemsz)
    ensures |Destructions(l, base, n)| == n && Destructions(l, base, n)[k] == Destructed(base + k * l.elemsz)
    decreases n
  {
    if n > 1 { Ascending(l, base, n - 1, if k < n - 1 then k else 0); }
  }

  /** Before it is returned, its slots are destructed in the same order. */
  lemma {:induction false} ReleasedAscends(l: Layout, base: nat, k: nat)
    requires k < l.maxelems
    ensures |Released(l, base)| == l.maxelems + 1 && Released(l, base)[l.maxelems] == PageReturned(base)
    ensures Released(l, base)[k] == Destructed(base + k * l.elemsz)
  {
    Ascending(l, base, l.maxelems, k);
  }
}
