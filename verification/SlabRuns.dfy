/** Whole runs of the allocator: it refines a plain set of pointers, and how far its page counters
    can be trusted. */
module SlabRuns {
  import opened Wrappers
  import opened SlabLayout
  import opened SlabModel
  import opened SlabInvariant
  import opened SlabSteps

  // ---- the abstract allocator: a set of pointers ----

  function SetStep(live: set<nat>, op: Op, result: nat): set<nat> {
    match op
    case OpAlloc(_) => if result == NULL then live else live + {result}
    case OpFree(ptr) => live - {ptr}
    case OpReset => {}
  }

  function SetRun(live: set<nat>, ops: seq<Op>, results: seq<nat>): set<nat>
    requires |results| == |ops|
    decreases |ops|
  {
    if ops == [] then live else SetRun(SetStep(live, ops[0], results[0]), ops[1..], results[1..])
  }

  /** Every pointer an allocation returns is one nobody holds at that moment. */
  predicate NeverTwice(live: set<nat>, ops: seq<Op>, results: seq<nat>)
    requires |results| == |ops|
    decreases |ops|
  {
    ops == [] ||
    ((ops[0].OpAlloc? && results[0] != NULL ==> results[0] !in live) &&
     NeverTwice(SetStep(live, ops[0], results[0]), ops[1..], results[1..]))
  }

  lemma FreeAny(s: Slab, ptr: nat)
    requires Inv(s) && Legal(s, OpFree(ptr))
    ensures Inv(Free(s, ptr).0) && Live(Free(s, ptr).0) == Live(s) - {ptr}
  {
    if ptr != NULL {
      FreeLive(s, ptr);
    } else if NULL in Live(s) {
      LiveNonNull(s, NULL);
    }
  }

  lemma StepRefines(s: Slab, op: Op)
    requires Inv(s) && Legal(s, op)
    ensures var (t, r) := Step(s, op);
            Inv(t) && Live(t) == SetStep(Live(s), op, r) &&
            (op.OpAlloc? && r != NULL ==> r !in Live(s))
  {
    match op
    case OpAlloc(offer) => AllocCorrect(s, offer);
    case OpFree(ptr) =>
      FreeAny(s, ptr);
    case OpReset => ResetCorrect(s);
  }

  /** Over every run of alloc, free and reset the allocator behaves as a set of pointers, keeps its
      invariant, and never hands out a pointer that is in use. */
  lemma {:induction false} RunRefines(s: Slab, ops: seq<Op>)
    requires Inv(s) && LegalRun(s, ops)
    ensures Inv(Run(s, ops))
    ensures Live(Run(s, ops)) == SetRun(Live(s), ops, Results(s, ops))
    ensures NeverTwice(Live(s), ops, Results(s, ops))
    decreases |ops|
  {
    if ops != [] {
      StepRefines(s, ops[0]);
      RunRefines(Step(s, ops[0]).0, ops[1..]);
    }
  }

  // ---- empty pages ----

  /** No more empty pages than others. */
  predicate Trimmed(s: Slab) {
    |s.empty| <= |s.partial| + |s.full|
  }

  lemma StepTrimmed(s: Slab, op: Op)
    requires Inv(s) && Legal(s, op) && Trimmed(s) && op != OpReset
    ensures Trimmed(Step(s, op).0)
  {
    match op
    case OpAlloc(offer) => AllocCorrect(s, offer);
    case OpFree(ptr) => if ptr != NULL { FreeLive(s, ptr); }
    case OpReset =>
  }

  lemma {:induction false} RunTrimmed(s: Slab, ops: seq<Op>)
    requires Inv(s) && LegalRun(s, ops) && Trimmed(s) && OpReset !in ops
    ensures Trimmed(Run(s, ops))
    decreases |ops|
  {
    if ops != [] {
      StepTrimmed(s, ops[0]);
      StepRefines(s, ops[0]);
      RunTrimmed(Step(s, ops[0]).0, ops[1..]);
    }
  }

  /** slab_reset does not trim: afterwards the bound holds exactly when there is no page at all. */
  lemma ResetTrimmed(s: Slab)
    ensures Trimmed(Reset(s)) <==> s.empty == [] && s.partial == [] && s.full == []
  {}

  // ---- the page counter ----

  predicate ExactIn(l: Layout, ps: seq<Page>) {
    forall k :: 0 <= k < |ps| ==> ps[k].numelems == Used(ps[k], l.maxelems)
  }

  /** Every counter is the number of slots in use on its page. */
  predicate Exact(s: Slab) {
    ExactIn(s.layout, s.empty) && ExactIn(s.layout, s.partial) && ExactIn(s.layout, s.full)
  }

  /** The counter slab_free reads for a page in use. */
  function Counter(s: Slab, base: nat): int {
    var f, p := Find(s.full, base), Find(s.partial, base);
    if f < |s.full| then s.full[f].numelems else if p < |s.partial| then s.partial[p].numelems else 0
  }

  lemma ExactWithout(l: Layout, ps: seq<Page>, k: nat)
    requires k < |ps| && ExactIn(l, ps)
    ensures ExactIn(l, Without(ps, k))
  {
    var qs := Without(ps, k);
    forall j | 0 <= j < |qs| ensures qs[j].numelems == Used(qs[j], l.maxelems) {
      assert qs[j] == ps[if j < k then j else j + 1];
    }
  }

  lemma EmptyExact(s: Slab)
    requires Inv(s)
    ensures ExactIn(s.layout, s.empty)
  {
    IndicesSize(s.layout.maxelems);
  }

  lemma ProvideExact(s: Slab, offer: Option<nat>)
    requires Inv(s) && Exact(s)
    ensures Exact(Provide(s, offer))
  {
    IndicesSize(s.layout.maxelems);
  }

  lemma TakeExact(s: Slab)
    requires Ready(s) && Exact(s)
    ensures Exact(Take(s))
  {
    var l, p' := s.layout, Taken(s.layout, s.partial[0]);
    TakenExact(s);
    ExactWithout(l, s.partial, 0);
    ExactAppend(l, s.full, p');
    ExactUpdate(l, s.partial, p');
  }

  lemma ExactAppend(l: Layout, ps: seq<Page>, p: Page)
    requires ExactIn(l, ps) && p.numelems == Used(p, l.maxelems)
    ensures ExactIn(l, ps + [p])
  {}

  lemma ExactUpdate(l: Layout, ps: seq<Page>, p: Page)
    requires ps != [] && ExactIn(l, ps) && p.numelems == Used(p, l.maxelems)
    ensures ExactIn(l, ps[0 := p])
  {}

  lemma TakenExact(s: Slab)
    requires Ready(s) && Exact(s)
    ensures var p' := Taken(s.layout, s.partial[0]); p'.numelems == Used(p', s.layout.maxelems)
  {
    HeadHasRoom(s);
  }

  lemma AllocExact(s: Slab, offer: Option<nat>)
    requires Inv(s) && Legal(s, OpAlloc(offer)) && Exact(s)
    ensures Exact(Alloc(s, offer).0)
  {
    ProvideKeeps(s, offer);
    ProvideExact(s, offer);
    if Provide(s, offer).partial != [] { TakeExact(Provide(s, offer)); }
  }

  /** Trim changes only the empty list, so it cannot make or break exactness. */
  lemma TrimExact(s: Slab)
    requires Inv(s)
    ensures Exact(Trim(s)) <==> ExactIn(s.layout, s.partial) && ExactIn(s.layout, s.full)
  {
    TrimKeeps(s);
    EmptyExact(Trim(s));
  }

  lemma FullExact(s: Slab, f: nat, i: nat)
    requires Inv(s) && Exact(s) && f < |s.full| && i < s.layout.maxelems && i !in s.full[f].free
    ensures ExactIn(s.layout, AfterFull(s, f, i).partial) && ExactIn(s.layout, AfterFull(s, f, i).full)
  {
    GiveFacts(s.layout, s.full[f], i);
    ExactWithout(s.layout, s.full, f);
  }

  lemma PartialExact(s: Slab, p: nat, i: nat)
    requires Inv(s) && Exact(s) && p < |s.partial| && i < s.layout.maxelems && i !in s.partial[p].free
    ensures ExactIn(s.layout, AfterPartial(s, p, i).full)
    ensures ExactIn(s.layout, AfterPartial(s, p, i).partial) <==> s.partial[p].numelems == 1
  {
    GiveFacts(s.layout, s.partial[p], i);
    ExactWithout(s.layout, s.partial, p);
    if s.partial[p].numelems != 1 {
      assert AfterPartial(s, p, i).partial[p].free == s.partial[p].free + {i};
    }
  }

  /** The counter slab_free leaves alone: freeing a live pointer keeps all counters exact if and only
      if the counter of its page was one or the maximum. */
  lemma FreeExact(s: Slab, ptr: nat)
    requires Inv(s) && Exact(s) && ptr in Live(s)
    ensures var n := Counter(s, s.layout.Base(ptr));
            Exact(Free(s, ptr).0) <==> n == 1 || n == s.layout.maxelems
  {
    var base, i := s.layout.Base(ptr), s.layout.Index(ptr);
    LiveOnPage(s, ptr);
    LiveNonNull(s, ptr);
    GiveBackKeeps(s, base, i);
    GiveBackExact(s, base, i);
    TrimExact(GiveBack(s, base, i).0);
  }

  lemma GiveBackExact(s: Slab, base: nat, i: nat)
    requires Inv(s) && Exact(s) && i < s.layout.maxelems && GiveBack(s, base, i).1 == Done
    ensures var t, n := GiveBack(s, base, i).0, Counter(s, base);
            ExactIn(t.layout, t.partial) && ExactIn(t.layout, t.full) <==> n == 1 || n == s.layout.maxelems
  {
    hide Inv, Exact, ExactIn, AllBack;
    var f, p := Find(s.full, base), Find(s.partial, base);
    if f < |s.full| {
      FullExact(s, f, i);
      CounterFits(s, Full, s.full, f);
    } else {
      PartialExact(s, p, i);
      CounterFits(s, Partial, s.partial, p);
    }
  }

  lemma CounterFits(s: Slab, role: Role, ps: seq<Page>, k: nat)
    requires Inv(s) && k < |ps| && ((role == Full && ps == s.full) || (role == Partial && ps == s.partial))
    ensures if role == Full then ps[k].numelems == s.layout.maxelems else ps[k].numelems < s.layout.maxelems
  {
    assert Fits(s.layout, role, ps[k]);
  }

  lemma ResetExact(s: Slab)
    requires Inv(s)
    ensures Exact(Reset(s))
  {
    ResetCorrect(s);
    EmptyExact(Reset(s));
  }

  lemma SmallStepExact(s: Slab, op: Op)
    requires Inv(s) && Legal(s, op) && Exact(s) && s.layout.maxelems <= 2
    ensures Exact(Step(s, op).0)
  {
    match op
    case OpAlloc(offer) => AllocExact(s, offer);
    case OpFree(ptr) =>
      if ptr != NULL {
        CounterPositive(s, ptr);
        FreeExact(s, ptr);
      }
    case OpReset => ResetExact(s);
  }

  /** The assertion `numelems > 0` of slab_free holds for every live pointer. */
  lemma CounterPositive(s: Slab, ptr: nat)
    requires Inv(s) && ptr in Live(s)
    ensures 0 < Counter(s, s.layout.Base(ptr)) <= s.layout.maxelems
  {
    var base, i := s.layout.Base(ptr), s.layout.Index(ptr);
    MaxElemsFits(s.layout);
    LiveOnPage(s, ptr);
    FindInBases(s.full, base);
    FindInBases(s.partial, base);
    var f, p := Find(s.full, base), Find(s.partial, base);
    if f == |s.full| {
      PartialLive(s, p, i);
      PartialFits(s.layout, s.partial[p], i);
    }
  }

  lemma {:induction false} SmallRunExact(s: Slab, ops: seq<Op>)
    requires Inv(s) && LegalRun(s, ops) && Exact(s) && s.layout.maxelems <= 2
    ensures Exact(Run(s, ops))
    decreases |ops|
  {
    if ops != [] {
      StepRefines(s, ops[0]);
      SmallStepExact(s, ops[0]);
      SmallRunExact(Step(s, ops[0]).0, ops[1..]);
    }
  }

  ghost predicate AlwaysExact(l: Layout)
    requires l.elemsz > 0
  {
    forall ops :: LegalRun(Create(l), ops) ==> Exact(Run(Create(l), ops))
  }

  /** Counters equal occupancy in every reachable state exactly for pages of at most two elements. */
  lemma CountersExactIff(l: Layout)
    requires l.Accepted()
    ensures AlwaysExact(l) <==> l.maxelems <= 2
  {
    if l.maxelems <= 2 {
      CreateInv(l);
      forall ops | LegalRun(Create(l), ops) ensures Exact(Run(Create(l), ops)) {
        SmallRunExact(Create(l), ops);
      }
    } else {
      var ops := InexactRun(l);
    }
  }

  /** Allocate twice, free once: the page says two, and one is in use. */
  lemma InexactRun(l: Layout) returns (ops: seq<Op>)
    requires l.Accepted() && l.maxelems >= 3
    ensures LegalRun(Create(l), ops) && !Exact(Run(Create(l), ops))
  {
    var base := l.PageSize();
    PageBaseAligned(l, base);
    var s1, s2, p := TwoAllocs(l, base);
    FreeExact(s2, p);
    ThreeSteps(Create(l), OpAlloc(Some(base)), OpAlloc(None), OpFree(p));
    ops := [OpAlloc(Some(base)), OpAlloc(None), OpFree(p)];
  }

  lemma TwoAllocs(l: Layout, base: nat) returns (s1: Slab, s2: Slab, p: nat)
    requires l.Accepted() && l.maxelems >= 3 && l.IsPageBase(base)
    ensures Alloc(Create(l), Some(base)) == (s1, p) && s2 == Alloc(s1, None).0
    ensures s2.layout == l && Inv(s2) && Exact(s2) && p in Live(s2) && Counter(s2, l.Base(p)) == 2
  {
    s1, p := Alloc(Create(l), Some(base)).0, Alloc(Create(l), Some(base)).1;
    s2 := Alloc(s1, None).0;
    CreateInv(l);
    FirstAlloc(l, base);
    SecondAlloc(s1, base);
    AllocCorrect(Create(l), Some(base));
    AllocCorrect(s1, None);
    AllocExact(Create(l), Some(base));
    AllocExact(s1, None);
  }

  lemma ThreeSteps(s: Slab, a: Op, b: Op, c: Op)
    requires s.layout.elemsz > 0
    requires Legal(s, a) && Legal(Step(s, a).0, b) && Legal(Step(Step(s, a).0, b).0, c)
    ensures LegalRun(s, [a, b, c])
    ensures Run(s, [a, b, c]) == Step(Step(Step(s, a).0, b).0, c).0
  {
    hide Legal, Step;
    var s1 := Step(s, a).0;
    var s2 := Step(s1, b).0;
    var s3 := Step(s2, c).0;
    assert [a, b, c][1..] == [b, c] && [b, c][1..] == [c] && [c][1..] == [];
    assert LegalRun(s3, []) && Run(s3, []) == s3;
    assert LegalRun(s2, [c]) && Run(s2, [c]) == s3;
    assert LegalRun(s1, [b, c]) && Run(s1, [b, c]) == s3;
  }

  /** One page in use, all else empty. */
  predicate Single(s: Slab, page: Page) {
    s.empty == [] && s.full == [] && s.partial == [page]
  }

  lemma FirstAlloc(l: Layout, base: nat)
    requires l.Accepted() && l.maxelems >= 3 && l.IsPageBase(base)
    ensures var (s1, p) := Alloc(Create(l), Some(base));
            s1.layout == l && l.Base(p) == base &&
            Single(s1, Page(base, Indices(l.maxelems) - {0}, 1))
  {
    var unused := Page(base, Indices(l.maxelems), 0);
    var t := Provide(Create(l), Some(base));
    assert Single(t, unused);
    assert Lowest(l, unused) == 0;
    SlotStart(l, base, 0);
  }

  lemma SecondAlloc(s: Slab, base: nat)
    requires s.layout.maxelems >= 3 && Single(s, Page(base, Indices(s.layout.maxelems) - {0}, 1))
    ensures Counter(Alloc(s, None).0, base) == 2
  {}
}
