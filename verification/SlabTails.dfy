/** Pointers behind the last slot of a page, in the states the allocator can be in: which of them slab_free
    takes, and what comes of it. */
module SlabTails {
  import opened Arithmetic
  import opened Wrappers
  import opened SlabLayout
  import opened SlabModel
  import opened SlabInvariant
  import opened SlabSteps
  import opened SlabRuns
  import opened SlabCapacity
  import opened SlabIdle
  import opened SlabPanics

  // ---- small counters are exact ----

  predicate CountedPage(l: Layout, page: Page) {
    page.numelems <= 1 ==> page.numelems == Used(page, l.maxelems)
  }

  /** A counter of zero or one on the partial list is the number of slots in use. */
  predicate Counted(s: Slab) {
    forall k :: 0 <= k < |s.partial| ==> CountedPage(s.layout, s.partial[k])
  }

  lemma ProvideCounted(s: Slab, offer: Option<nat>)
    requires Inv(s) && Counted(s)
    ensures Counted(Provide(s, offer))
  {
    IndicesSize(s.layout.maxelems);
    if s.empty != [] { assert Fits(s.layout, Empty, s.empty[0]); }
  }

  lemma TakeCounted(s: Slab)
    requires Ready(s) && Counted(s)
    ensures Counted(Take(s))
  {
    hide Ready, Used;
    HeadHasRoom(s);
    TakenCounted(s);
    var rest := Without(s.partial, 0);
    assert forall k :: 0 <= k < |rest| ==> rest[k] == s.partial[k + 1];
  }

  lemma TakenCounted(s: Slab)
    requires Ready(s) && Counted(s)
    ensures s.partial != [] && CountedPage(s.layout, Taken(s.layout, s.partial[0]))
  {
    hide Ready;
    HeadHasRoom(s);
    assert CountedPage(s.layout, s.partial[0]);
  }

  lemma GiveBackCounted(s: Slab, base: nat, i: nat)
    requires Inv(s) && Counted(s) && s.layout.maxelems >= 3 && GiveBack(s, base, i).1 == Done
    ensures Counted(GiveBack(s, base, i).0)
  {
    hide Inv, Used, AllBack;
    var f, p := Find(s.full, base), Find(s.partial, base);
    if f < |s.full| {
      CounterFits(s, Full, s.full, f);
    } else {
      var rest := Without(s.partial, p);
      assert forall k :: 0 <= k < |rest| ==> rest[k] == s.partial[if k < p then k else k + 1];
    }
  }

  lemma StepCounted(s: Slab, op: Op)
    requires Inv(s) && Legal(s, op) && Counted(s) && s.layout.maxelems >= 3
    ensures Counted(Step(s, op).0)
  {
    hide Inv, Counted, Live;
    InvSizes(s);
    match op
    case OpAlloc(offer) =>
      ProvideKeeps(s, offer);
      ProvideCounted(s, offer);
      if Provide(s, offer).partial != [] { ProvidedReady(s, offer); TakeCounted(Provide(s, offer)); }
    case OpFree(ptr) =>
      if ptr != NULL {
        FreeLive(s, ptr);
        LiveOnPage(s, ptr);
        GiveBackCounted(s, s.layout.Base(ptr), s.layout.Index(ptr));
        SamePartial(GiveBack(s, s.layout.Base(ptr), s.layout.Index(ptr)).0);
      }
    case OpReset => NoPartial(Reset(s));
  }

  lemma ProvidedReady(s: Slab, offer: Option<nat>)
    requires Inv(s) && Legal(s, OpAlloc(offer)) && Provide(s, offer).partial != []
    ensures Ready(Provide(s, offer))
  {
    hide Inv, Ready;
    ProvideKeeps(s, offer);
  }

  lemma SamePartial(s: Slab)
    requires Counted(s)
    ensures Counted(Trim(s))
  {}

  lemma NoPartial(s: Slab)
    requires s.partial == []
    ensures Counted(s)
  {}

  lemma {:induction false} RunCounted(s: Slab, ops: seq<Op>)
    requires Inv(s) && LegalRun(s, ops) && Counted(s) && s.layout.maxelems >= 3
    ensures Counted(Run(s, ops))
    decreases |ops|
  {
    hide Counted;
    if ops != [] {
      StepCounted(s, ops[0]);
      StepRefines(s, ops[0]);
      RunCounted(Step(s, ops[0]).0, ops[1..]);
    }
  }

  lemma ReachableCounted(l: Layout, ops: seq<Op>)
    requires l.Accepted() && LegalRun(Create(l), ops)
    ensures Inv(Run(Create(l), ops)) && Counted(Run(Create(l), ops))
  {
    CreateInv(l);
    RunRefines(Create(l), ops);
    if l.maxelems >= 3 {
      RunCounted(Create(l), ops);
    } else {
      SmallRunExact(Create(l), ops);
    }
  }

  // ---- what slab_free does, for every pointer ----

  /** A pointer behind the last slot is taken if the counter of its page is two or more, or the maximum. */
  predicate TakesTail(l: Layout, page: Page) {
    page.numelems == l.maxelems || page.numelems >= 2
  }

  /** In the states the allocator can be in: slab_free takes a pointer behind the last slot exactly if the
      counter says so, and then exactly the allocator is broken when it returns. */
  lemma TailExactly(s: Slab, ptr: nat)
    requires Inv(s) && Counted(s) && ptr != NULL && s.layout.Base(ptr) in AllBases(s)
    requires s.layout.Index(ptr) >= s.layout.maxelems
    ensures var page, (t, outcome) := Holder(s, s.layout.Base(ptr)).1, Free(s, ptr);
            && outcome == (if TakesTail(s.layout, page) then Done else AssertFails)
            && (outcome == Done <==> !Inv(t))
            && (outcome == AssertFails ==> t == s)
  {
    hide GiveBack, Inv, Holder, TailAborts, TakesTail, Trim;
    InvSizes(s);
    var base, i := s.layout.Base(ptr), s.layout.Index(ptr);
    FreeInOwnPage(s, ptr);
    AbortsByCounter(s, base);
    if TakesTail(s.layout, Holder(s, base).1) { TailBreaks(s, base, i); }
  }

  lemma AbortsByCounter(s: Slab, base: nat)
    requires Inv(s) && Counted(s) && base in AllBases(s)
    ensures var (role, page) := Holder(s, base); TailAborts(s.layout, role, page) <==> !TakesTail(s.layout, page)
  {
    hide Inv, Holder;
    HolderFits(s, base);
    if Holder(s, base).0 == Partial {
      assert CountedPage(s.layout, s.partial[Find(s.partial, base)]);
      CounterBounds(s.layout, s.partial[Find(s.partial, base)]);
    }
  }

  lemma TailBreaks(s: Slab, base: nat, i: nat)
    requires Inv(s) && base in AllBases(s) && TakesTail(s.layout, Holder(s, base).1) && i >= s.layout.maxelems
    ensures var (t, outcome) := GiveBack(s, base, i); outcome == Done && !Inv(Trim(t))
  {
    hide Inv, Holder, GiveBack, Trim;
    HolderFits(s, base);
    match Holder(s, base).0
    case Full => FullTail(s, Find(s.full, base), i);
    case Partial => PartialTail(s, Find(s.partial, base), i);
    case Empty => assert false;
  }

  lemma HolderFits(s: Slab, base: nat)
    requires Inv(s) && base in AllBases(s)
    ensures var (role, page) := Holder(s, base);
            && Fits(s.layout, role, page) && s.layout.maxelems >= 1
            && (role == Full ==> Find(s.full, base) < |s.full| && page == s.full[Find(s.full, base)])
            && (role == Partial ==>
                 Find(s.full, base) == |s.full| && Find(s.partial, base) < |s.partial| &&
                 page == s.partial[Find(s.partial, base)])
  {
    MaxElemsFits(s.layout);
    FindInBases(s.full, base);
    FindInBases(s.partial, base);
    FindInBases(s.empty, base);
  }

  lemma FullTail(s: Slab, k: nat, i: nat)
    requires Inv(s) && k < |s.full| && i >= s.layout.maxelems
    ensures GiveBack(s, s.full[k].base, i).1 == Done && !Inv(Trim(GiveBack(s, s.full[k].base, i).0))
  {
    hide Trim;
    assert Fits(s.layout, Full, s.full[k]);
    GiveBackAtFull(s, k, i);
    var t := Trim(AfterFull(s, k, i));
    assert !PageOk(t.layout, t.partial[|s.partial|]);
  }

  lemma PartialTail(s: Slab, k: nat, i: nat)
    requires Inv(s) && k < |s.partial| && i >= s.layout.maxelems && s.partial[k].numelems >= 2
    ensures GiveBack(s, s.partial[k].base, i).1 == Done && !Inv(Trim(GiveBack(s, s.partial[k].base, i).0))
  {
    hide Trim;
    assert Fits(s.layout, Partial, s.partial[k]);
    GiveBackAtPartial(s, k, i);
    var t := Trim(AfterPartial(s, k, i));
    assert !PageOk(t.layout, t.partial[k]);
  }

  /** In every reachable state and for every pointer: NULL is ignored; a panic says that the page is none of
      the allocator's, or that the slot is free, exactly if that is so; a pointer into a slot in use is taken,
      which gives back just that slot and leaves the allocator as it should be; one behind the last slot is
      taken as its page's counter says, and leaves it broken. */
  lemma FreeDecided(l: Layout, ops: seq<Op>, ptr: nat)
    requires l.Accepted() && LegalRun(Create(l), ops)
    ensures var s := Run(Create(l), ops);
            var base, i, (t, outcome) := l.Base(ptr), l.Index(ptr), Free(s, ptr);
            && (outcome != Done ==> t == s)
            && (if ptr == NULL then outcome == Done && t == s
                else if base !in AllBases(s) then outcome == NotInSlabPage
                else
                  var page, slot := Holder(s, base).1, l.Slot(base, i);
                  if i in page.free then i < l.maxelems && outcome == DoubleFree && slot !in Live(s)
                  else if i < l.maxelems then
                    outcome == Done && Inv(t) && slot in Live(s) && Live(t) == Live(s) - {slot} && Trimmed(t)
                  else outcome == (if TakesTail(l, page) then Done else AssertFails) && (outcome == Done <==> !Inv(t)))
  {
    hide Inv, GiveBack;
    var s := Run(Create(l), ops);
    ReachableCounted(l, ops);
    if ptr != NULL {
      if l.Base(ptr) !in AllBases(s) {
        FreeCorrect(s, ptr);
      } else {
        FreeInOwnPage(s, ptr);
        if l.Index(ptr) < l.maxelems { FreeCorrect(s, ptr); } else { TailExactly(s, ptr); }
      }
    }
  }

  // ---- a run ----

  lemma {:induction false} AllocsLegal(s: Slab, offers: seq<Option<nat>>)
    requires s.layout.elemsz > 0 && forall k :: 0 <= k < |offers| ==> offers[k] == None
    ensures LegalRun(s, AllocAll(offers))
    decreases |offers|
  {
    hide Step;
    if offers != [] {
      var ops := AllocAll(offers);
      assert ops[1..] == AllocAll(offers[1..]) && ops[0] == OpAlloc(None);
      AllocsLegal(Step(s, ops[0]).0, offers[1..]);
    }
  }

  /** One page and no other, with every slot taken. */
  predicate OneFull(s: Slab, base: nat) {
    s.empty == [] && s.partial == [] && s.full == [Page(base, {}, s.layout.maxelems)]
  }

  /** The page allocator offers its page when first asked. */
  function Offers(base: nat, n: nat): (offers: seq<Option<nat>>)
    ensures |offers| == n
  {
    seq(n, k => if k == 0 then Some(base) else None)
  }

  /** As many allocations as a page has slots fill it. */
  lemma FillPage(l: Layout, base: nat)
    requires l.Accepted() && l.IsPageBase(base)
    ensures var ops := AllocAll(Offers(base, l.maxelems));
            LegalRun(Create(l), ops) && Inv(Run(Create(l), ops)) && OneFull(Run(Create(l), ops), base)
  {
    hide Alloc, LegalRun, Run, Inv;
    MaxElemsFits(l);
    var m, offers := l.maxelems, Offers(base, l.maxelems);
    var ops, c, g := AllocAll(offers), Create(l), Grow(Create(l), base);
    CreateInv(l);
    GrownAlloc(l, base);
    RunAllocAll(c, offers);
    RunAllocAll(g, offers);
    FillGrown(l, base, offers);
    var rest := offers[1..];
    AllocsLegal(Alloc(c, Some(base)).0, rest);
    OpsBegin(offers);
    Prepend(c, OpAlloc(Some(base)), AllocAll(rest));
    RunRefines(c, ops);
  }

  lemma OpsBegin(offers: seq<Option<nat>>)
    requires offers != []
    ensures AllocAll(offers) == [OpAlloc(offers[0])] + AllocAll(offers[1..])
  {}

  /** It makes no difference whether the page was there. */
  lemma GrownAlloc(l: Layout, base: nat)
    ensures Alloc(Create(l), Some(base)) == Alloc(Grow(Create(l), base), Some(base))
  {}

  lemma FillGrown(l: Layout, base: nat, offers: seq<Option<nat>>)
    requires l.Accepted() && l.IsPageBase(base) && |offers| == l.maxelems
    ensures OneFull(Run(Grow(Create(l), base), AllocAll(offers)), base)
  {
    hide Run, Alloc;
    MaxElemsFits(l);
    var g := Grow(Create(l), base);
    assert g.empty == [Page(base, Indices(l.maxelems), 0)];
    assert Filled(g, g.empty, 0, 0) == g;
    RunFilled(g, g.empty, 0, 0, offers);
  }

  /** The last byte of a page lies behind its last slot. */
  lemma LastByte(l: Layout, base: nat)
    requires l.Accepted() && l.IsPageBase(base)
    ensures var ptr := base + l.PageSize() - 1;
            l.Base(ptr) == base && l.maxelems <= l.Index(ptr) < l.Bits()
    ensures var ptr := base + l.PageSize() - 1;
            var p := l.Slot(base, l.Index(ptr)); p < base + l.PageSize() && base + l.Room() < p + l.elemsz
  {
    hide Layout.Base, Layout.PageSize, AvailWords, FooterSize;
    var last, e, m := l.PageSize() - 1, l.elemsz, l.maxelems;
    MaxElemsFits(l);
    BaseIsFloor(l, base, last);
    IndexInBitmap(l, base + last);
    LastSlot(last, e, m, l.Room());
  }

  lemma LastSlot(last: nat, e: nat, m: nat, room: int)
    requires e > 0 && m * e <= room <= last
    ensures m <= last / e && last / e * e <= last && room < last / e * e + e
  {
    DivMod(last, e);
    var i := last / e;
    if i < m { ProductBelow(i, m, e); }
  }

  /** slab_free takes a pointer behind the last slot of a full page: the bitmap then has a bit for it. */
  lemma FreeTailOfFull(s: Slab, base: nat, ptr: nat)
    requires Inv(s) && OneFull(s, base) && s.layout.Base(ptr) == base && ptr != NULL
    requires s.layout.Index(ptr) >= s.layout.maxelems
    ensures Free(s, ptr) == (AfterFull(s, 0, s.layout.Index(ptr)), Done)
    ensures var t := Free(s, ptr).0;
            t.empty == [] && t.full == [] && t.partial == [Page(base, {s.layout.Index(ptr)}, s.layout.maxelems - 1)]
  {
    hide Trim, Inv, GiveBack;
    InvSizes(s);
    FullCounter(s, 0);
    var i := s.layout.Index(ptr);
    GiveBackAtFull(s, 0, i);
    NothingToTrim(AfterFull(s, 0, i));
    assert {} + {i} == {i};
  }

  lemma FullCounter(s: Slab, k: nat)
    requires Inv(s) && k < |s.full|
    ensures s.full[k].numelems == s.layout.maxelems >= 1
  {
    MaxElemsFits(s.layout);
    assert Fits(s.layout, Full, s.full[k]);
  }

  lemma NothingToTrim(s: Slab)
    requires s.empty == []
    ensures Trim(s) == s
  {}

  /** The next allocation finds that bit. */
  lemma AllocTail(t: Slab, base: nat, i: nat, offer: Option<nat>)
    requires t.empty == [] && t.partial == [Page(base, {i}, t.layout.maxelems - 1)] && i < t.layout.Bits()
    ensures Alloc(t, offer).1 == t.layout.Slot(base, i)
  {
    assert i in {i};
  }

  /** The code fails what it is for: for every layout slab_create accepts there is a run after which
      slab_free takes a pointer that was never handed out and returns, and slab_alloc then hands out memory
      that lies over the footer of the page. */
  lemma TailRun(l: Layout, offer: Option<nat>) returns (ops: seq<Op>, ptr: nat)
    requires l.Accepted()
    ensures LegalRun(Create(l), ops)
    ensures var s := Run(Create(l), ops);
            var (t, outcome) := Free(s, ptr);
            var p, base := Alloc(t, offer).1, l.Base(ptr);
            && ptr != NULL && ptr !in Live(s) && outcome == Done && !Inv(t)
            && base in AllBases(s) && base <= p < base + l.PageSize() && base + l.Room() < p + l.elemsz
  {
    hide Alloc, Run, LegalRun, Inv, Free, AfterFull;
    var base := l.PageSize();
    PageBaseAligned(l, base);
    PageAtItself(l);
    ops, ptr := AllocAll(Offers(base, l.maxelems)), base + l.PageSize() - 1;
    FillPage(l, base);
    LastByte(l, base);
    var s := Run(Create(l), ops);
    FreeTailOfFull(s, base, ptr);
    OneFullBase(s, base);
    ReachableCounted(l, ops);
    TailExactly(s, ptr);
    if ptr in Live(s) { LiveOnPage(s, ptr); }
    AllocTail(Free(s, ptr).0, base, l.Index(ptr), offer);
  }

  lemma PageAtItself(l: Layout)
    ensures l.PageSize() % l.PageSize() == 0
  {
    DivModUnique(l.PageSize(), l.PageSize(), 1, 0);
  }

  lemma OneFullBase(s: Slab, base: nat)
    requires OneFull(s, base)
    ensures base in AllBases(s)
  {}
}
