/** Which pages without a live slot find their way back to the empty list. */
module SlabIdle {
  import opened Wrappers
  import opened SlabLayout
  import opened SlabModel
  import opened SlabInvariant
  import opened SlabSteps
  import opened SlabRuns
  import opened SlabRetention

  /** Each of the pages has a live slot. */
  predicate InUse(l: Layout, ps: seq<Page>) {
    forall k :: 0 <= k < |ps| ==> LivePage(l, ps[k]) != {}
  }

  /** Every page without a live slot is on the empty list. */
  predicate Returned(s: Slab) {
    InUse(s.layout, s.partial) && InUse(s.layout, s.full)
  }

  ghost predicate AlwaysReturned(l: Layout)
    requires l.elemsz > 0
  {
    forall ops :: LegalRun(Create(l), ops) ==> Returned(Run(Create(l), ops))
  }

  /** In every reachable state all pages without a live slot are on the empty list exactly for pages with
      room for just two elements: with one, a page freed goes to the partial list and stays there; with
      three or more, the counter that is left alone keeps it there. */
  lemma ReturnedIff(l: Layout)
    requires l.Accepted()
    ensures AlwaysReturned(l) <==> l.maxelems == 2
  {
    MaxElemsFits(l);
    if l.maxelems == 1 {
      var ops := OneElementRun(l);
    } else if l.maxelems >= 3 {
      var ops := IdleRun(l);
    } else {
      CreateInv(l);
      forall ops | LegalRun(Create(l), ops) ensures Returned(Run(Create(l), ops)) {
        SmallRunExact(Create(l), ops);
        RunRefines(Create(l), ops);
        ExactReturned(Run(Create(l), ops));
      }
    }
  }

  lemma ExactReturned(s: Slab)
    requires Inv(s) && Exact(s) && s.layout.maxelems == 2
    ensures Returned(s)
  {
    hide InUse, ExactIn, AllFit;
    ExactInUse(s.layout, Partial, s.partial);
    ExactInUse(s.layout, Full, s.full);
  }

  lemma ExactInUse(l: Layout, role: Role, ps: seq<Page>)
    requires AllFit(l, role, ps) && ExactIn(l, ps) && role != Empty && l.maxelems == 2
    ensures InUse(l, ps)
  {
    hide LivePage, Indices;
    forall k | 0 <= k < |ps| ensures LivePage(l, ps[k]) != {} {
      assert Fits(l, role, ps[k]);
      IndicesSize(l.maxelems);
      SubsetSize(ps[k].free, Indices(l.maxelems));
      SlotInUse(l, ps[k]);
    }
  }

  lemma SlotInUse(l: Layout, page: Page)
    requires Used(page, l.maxelems) > 0
    ensures LivePage(l, page) != {}
  {
    IndicesSize(l.maxelems);
    if Indices(l.maxelems) <= page.free {
      SubsetSize(Indices(l.maxelems), page.free);
    } else {
      var i :| i in Indices(l.maxelems) && i !in page.free;
      assert l.Slot(page.base, i) in LivePage(l, page);
    }
  }

  lemma Prepend(s: Slab, op: Op, ops: seq<Op>)
    requires s.layout.elemsz > 0 && Legal(s, op) && LegalRun(Step(s, op).0, ops)
    ensures LegalRun(s, [op] + ops) && Run(s, [op] + ops) == Run(Step(s, op).0, ops)
  {
    assert ([op] + ops)[1..] == ops;
  }

  // ---- one element ----

  /** Allocate and free: the page is on the partial list with a counter of zero. */
  lemma OneElementRun(l: Layout) returns (ops: seq<Op>)
    requires l.Accepted() && l.maxelems == 1
    ensures LegalRun(Create(l), ops) && !Returned(Run(Create(l), ops))
  {
    var base := l.PageSize();
    PageBaseAligned(l, base);
    var (s, p) := Alloc(Create(l), Some(base));
    CreateInv(l);
    AllocCorrect(Create(l), Some(base));
    OneAlloc(l, base);
    OneFree(s, base);
    Prepend(s, OpFree(p), []);
    ops := [OpAlloc(Some(base))] + ([OpFree(p)] + []);
    Prepend(Create(l), OpAlloc(Some(base)), [OpFree(p)] + []);
  }

  lemma OneAlloc(l: Layout, base: nat)
    requires l.Accepted() && l.maxelems == 1 && l.IsPageBase(base)
    ensures var (s, p) := Alloc(Create(l), Some(base));
            p == base && s.layout == l && s.empty == [] && s.partial == [] && s.full == [Page(base, {}, 1)]
  {
    var unused := Page(base, Indices(1), 0);
    var t := Provide(Create(l), Some(base));
    assert Indices(1) == {0};
    assert t.partial == [unused] && t.empty == [] && t.full == [];
    assert Lowest(l, unused) == 0;
    assert Taken(l, unused) == Page(base, {}, 1);
    assert l.Slot(base, 0) == base && Without(t.partial, 0) == [];
  }

  lemma OneFree(s: Slab, base: nat)
    requires Inv(s) && s.layout.maxelems == 1 && s.layout.IsPageBase(base)
    requires s.empty == [] && s.partial == [] && s.full == [Page(base, {}, 1)]
    ensures !Returned(Free(s, base).0)
  {
    SlotStart(s.layout, base, 0);
    assert base == s.layout.Slot(base, 0);
    GiveBackAtFull(s, 0, 0);
    var t := AfterFull(s, 0, 0);
    assert Indices(1) == {0};
    LivePageEmpty(s.layout, t.partial[0]);
  }

  // ---- three elements and more ----

  /** Allocate twice, then free both. */
  lemma IdleRun(l: Layout) returns (ops: seq<Op>)
    requires l.Accepted() && l.maxelems >= 3
    ensures LegalRun(Create(l), ops) && !Returned(Run(Create(l), ops))
  {
    var base := l.PageSize();
    PageBaseAligned(l, base);
    var s1, s2, p := TwoAllocs(l, base);
    CountsHeld(s2, l.Base(p));
    var frees := FreeAll(s2);
    HeldIdle(s2, l.Base(p), frees);
    Prepend(s1, OpAlloc(None), frees);
    Prepend(Create(l), OpAlloc(Some(base)), [OpAlloc(None)] + frees);
    ops := [OpAlloc(Some(base))] + ([OpAlloc(None)] + frees);
  }

  lemma CountsHeld(s: Slab, base: nat)
    requires Counter(s, base) == 2
    ensures Held(s, base)
  {}

  /** Free every live pointer. */
  lemma {:induction false} FreeAll(s: Slab) returns (ops: seq<Op>)
    requires Inv(s)
    ensures LegalRun(s, ops) && OpReset !in ops && Live(Run(s, ops)) == {}
    decreases |Live(s)|
  {
    ops := [];
    if Live(s) != {} {
      var p :| p in Live(s);
      StepRefines(s, OpFree(p));
      var rest := FreeAll(Step(s, OpFree(p)).0);
      Prepend(s, OpFree(p), rest);
      ops := [OpFree(p)] + rest;
    }
  }

  /** However all pointers are freed: a page that once counted two is not returned. */
  lemma HeldIdle(s: Slab, base: nat, ops: seq<Op>)
    requires Inv(s) && s.layout.maxelems >= 3 && Held(s, base)
    requires LegalRun(s, ops) && OpReset !in ops && Live(Run(s, ops)) == {}
    ensures base in AllBases(Run(s, ops)) && base !in Bases(Run(s, ops).empty) && !Returned(Run(s, ops))
  {
    RunHolds(s, ops, base);
    NothingLive(Run(s, ops), base);
  }

  lemma NothingLive(s: Slab, base: nat)
    requires Held(s, base) && Live(s) == {}
    ensures !Returned(s)
  {
    if Counts2(s.partial, base) {
      LiveWithout(s.layout, s.partial, 0);
    } else {
      LiveWithout(s.layout, s.full, 0);
    }
  }
}
