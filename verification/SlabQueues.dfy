/** Which pages are kept, returned and served, and in which order. */
module SlabQueues {
  import opened Wrappers
  import opened SlabLayout
  import opened SlabModel
  import opened SlabInvariant
  import opened SlabSteps
  import opened SlabRuns
  import opened SlabCapacity
  import SlabBitmap

  function BasesOf(ps: seq<Page>): (bs: seq<nat>)
    ensures |bs| == |ps|
  {
    seq(|ps|, k requires 0 <= k < |ps| => ps[k].base)
  }

  /** The pages given back to the page allocator, in order. */
  function Returned(trace: seq<Event>): seq<nat> {
    if trace == [] then []
    else
      var last := trace[|trace| - 1];
      Returned(trace[..|trace| - 1]) + if last.PageReturned? then [last.base] else []
  }

  lemma {:induction false} ReturnedConcat(a: seq<Event>, b: seq<Event>)
    ensures Returned(a + b) == Returned(a) + Returned(b)
    decreases |b|
  {
    if b == [] {
      assert a + b == a;
    } else {
      var last := b[|b| - 1];
      assert (a + b)[|a + b| - 1] == last && (a + b)[..|a + b| - 1] == a + b[..|b| - 1];
      ReturnedConcat(a, b[..|b| - 1]);
    }
  }

  lemma NothingReturned()
    ensures Returned([]) == []
  {}

  lemma {:induction false} NoneReturned(l: Layout, base: nat, n: nat)
    ensures Returned(Destructions(l, base, n)) == [] && Returned(Constructions(l, base, n)) == []
  {
    hide Returned, Layout.Slot;
    if n == 0 {
      NothingReturned();
    } else {
      NoneReturned(l, base, n - 1);
      var d, c := Destructed(l.Slot(base, n - 1)), Constructed(l.Slot(base, n - 1));
      ReturnedConcat(Destructions(l, base, n - 1), [d]);
      ReturnedConcat(Constructions(l, base, n - 1), [c]);
      ReturnedOne(d);
      ReturnedOne(c);
    }
  }

  lemma ReturnedOne(e: Event)
    ensures Returned([e]) == if e.PageReturned? then [e.base] else []
  {
    assert [e][..0] == [];
  }

  lemma ReturnedReleased(l: Layout, base: nat)
    ensures Returned(Released(l, base)) == [base]
  {
    NoneReturned(l, base, l.maxelems);
    ReturnedOne(PageReturned(base));
    ReturnedConcat(Destructions(l, base, l.maxelems), [PageReturned(base)]);
  }

  // ---- when trimming stops ----

  function Smaller(a: int, b: int): int {
    if a <= b then a else b
  }

  /** Trimming stops when there are as many empty pages as others: not later, and not before. It returns the
      pages that have been empty longest. */
  lemma {:induction false} TrimExactly(s: Slab)
    ensures var t := Trim(s);
            && |t.empty| == Smaller(|s.empty|, |s.partial| + |s.full|)
            && Returned(t.trace) == Returned(s.trace) + BasesOf(s.empty[..|s.empty| - |t.empty|])
            && (t.empty == s.empty ==> t == s)
    decreases |s.empty|
  {
    hide Returned, Released, BasesOf;
    if |s.empty| > |s.partial| + |s.full| {
      var r := ReleaseFirst(s);
      TrimExactly(r);
      ReturnedReleased(s.layout, s.empty[0].base);
      ReturnedConcat(s.trace, Released(s.layout, s.empty[0].base));
      FirstThenRest(s.empty, |s.empty| - |Trim(r).empty|);
    } else {
      NoBases();
      assert s.empty[..0] == [];
    }
  }

  lemma NoBases()
    ensures BasesOf([]) == []
  {}

  lemma FirstThenRest(ps: seq<Page>, n: nat)
    requires 0 < n <= |ps|
    ensures BasesOf(ps[..n]) == [ps[0].base] + BasesOf(ps[1..][..n - 1])
  {
    assert ps[..n][1..] == ps[1..][..n - 1];
  }

  /** Freeing this pointer empties its page: the counter is one, and pages have room for more than one. */
  predicate Empties(s: Slab, ptr: nat)
    requires s.layout.elemsz > 0
  {
    Counter(s, s.layout.Base(ptr)) == 1 && s.layout.maxelems > 1
  }

  /** The empty pages before trimming. */
  function EmptiesAfter(s: Slab, ptr: nat): nat
    requires s.layout.elemsz > 0
  {
    |s.empty| + if Empties(s, ptr) then 1 else 0
  }

  /** Freeing a live pointer returns just the pages by which the empty ones outnumber the others, and none if
      they do not. */
  lemma FreeReturns(s: Slab, ptr: nat)
    requires Inv(s) && ptr in Live(s)
    ensures var t, e := Free(s, ptr).0, EmptiesAfter(s, ptr);
            && |t.empty| == Smaller(e, PageCount(s) - e)
            && PageCount(t) == PageCount(s) - (e - |t.empty|)
            && |Returned(t.trace)| == |Returned(s.trace)| + (e - |t.empty|)
            && (e <= PageCount(s) - e ==> t.trace == s.trace)
  {
    hide Inv, Live, Returned, Trim, GiveBack, Counter;
    InvSizes(s);
    LiveNonNull(s, ptr);
    FreeLive(s, ptr);
    LiveOnPage(s, ptr);
    var base, i := s.layout.Base(ptr), s.layout.Index(ptr);
    GiveBackCounts(s, base, i);
    TrimExactly(GiveBack(s, base, i).0);
  }

  lemma GiveBackCounts(s: Slab, base: nat, i: nat)
    requires Inv(s) && i < s.layout.maxelems && GiveBack(s, base, i).1 == Done
    ensures var t := GiveBack(s, base, i).0;
            && t.trace == s.trace && PageCount(t) == PageCount(s)
            && |t.empty| == |s.empty| + if Counter(s, base) == 1 && s.layout.maxelems > 1 then 1 else 0
  {
    hide Inv, AllBack;
    var f, p := Find(s.full, base), Find(s.partial, base);
    if f < |s.full| {
      CounterFits(s, Full, s.full, f);
    } else {
      CounterFits(s, Partial, s.partial, p);
    }
  }

  /** Over every run: a free returns no page, and calls nothing, as long as the empty pages, with the one it
      may empty, are no more than the others. */
  lemma RunReturns(l: Layout, ops: seq<Op>, ptr: nat)
    requires l.Accepted() && LegalRun(Create(l), ops) && ptr in Live(Run(Create(l), ops))
    ensures var s := Run(Create(l), ops);
            var t := Run(Create(l), ops + [OpFree(ptr)]);
            LegalRun(Create(l), ops + [OpFree(ptr)]) &&
            (EmptiesAfter(s, ptr) <= PageCount(s) - EmptiesAfter(s, ptr) <==> t.trace == s.trace)
  {
    var s := Run(Create(l), ops);
    CreateInv(l);
    RunRefines(Create(l), ops);
    RunOneMore(Create(l), ops, OpFree(ptr));
    FreeReturns(s, ptr);
  }

  lemma {:induction false} RunOneMore(s: Slab, ops: seq<Op>, op: Op)
    requires s.layout.elemsz > 0 && LegalRun(s, ops) && Legal(Run(s, ops), op)
    ensures LegalRun(s, ops + [op]) && Run(s, ops + [op]) == Step(Run(s, ops), op).0
    decreases |ops|
  {
    hide Legal, Step;
    if ops == [] {
      assert ops + [op] == [op] && [op][1..] == [];
      assert LegalRun(Step(s, op).0, []) && Run(Step(s, op).0, []) == Step(s, op).0;
    } else {
      assert (ops + [op])[1..] == ops[1..] + [op] && (ops + [op])[0] == ops[0];
      RunOneMore(Step(s, ops[0]).0, ops[1..], op);
    }
  }

  // ---- first come, first served ----

  /** A queue after those from i to j left it and, perhaps, one joined it. */
  function Moved(q: seq<nat>, i: nat, j: nat, joined: Option<nat>): seq<nat>
    requires i <= j <= |q|
  {
    q[..i] + q[j..] + if joined.Some? then [joined.value] else []
  }

  /** Pages join a list at its end, and those that stay keep their order. */
  ghost predicate Queued(was: seq<nat>, now: seq<nat>) {
    exists i: nat, j: nat, joined :: i <= j <= |was| && now == Moved(was, i, j, joined)
  }

  lemma StaysQueued(ps: seq<Page>, qs: seq<Page>)
    requires BasesOf(qs) == BasesOf(ps)
    ensures Queued(BasesOf(ps), BasesOf(qs))
  {
    assert BasesOf(qs) == Moved(BasesOf(ps), 0, 0, None);
  }

  lemma JoinQueued(ps: seq<Page>, p: Page)
    ensures Queued(BasesOf(ps), BasesOf(ps + [p]))
  {
    assert BasesOf(ps + [p]) == Moved(BasesOf(ps), 0, 0, Some(p.base));
  }

  lemma LeaveQueued(ps: seq<Page>, k: nat)
    requires k < |ps|
    ensures Queued(BasesOf(ps), BasesOf(Without(ps, k)))
  {
    assert BasesOf(Without(ps, k)) == Moved(BasesOf(ps), k, k + 1, None);
  }

  lemma EndQueued(ps: seq<Page>, n: nat)
    requires n <= |ps|
    ensures Queued(BasesOf(ps), BasesOf(ps[n..]))
  {
    assert BasesOf(ps[n..]) == Moved(BasesOf(ps), 0, n, None);
  }

  lemma JoinEndQueued(ps: seq<Page>, p: Page, n: nat)
    requires n <= |ps| + 1
    ensures Queued(BasesOf(ps), BasesOf((ps + [p])[n..]))
  {
    if n <= |ps| {
      assert (ps + [p])[n..] == ps[n..] + [p];
      assert BasesOf(ps[n..] + [p]) == Moved(BasesOf(ps), 0, n, Some(p.base));
    } else {
      assert (ps + [p])[n..] == [];
      assert BasesOf([]) == Moved(BasesOf(ps), 0, |ps|, None);
    }
  }

  /** All three lists are queues, whatever is allocated and freed. */
  ghost predicate AllQueued(s: Slab, t: Slab) {
    && Queued(BasesOf(s.empty), BasesOf(t.empty))
    && Queued(BasesOf(s.partial), BasesOf(t.partial))
    && Queued(BasesOf(s.full), BasesOf(t.full))
  }

  lemma FreeQueues(s: Slab, ptr: nat)
    requires Inv(s) && ptr in Live(s)
    ensures AllQueued(s, Free(s, ptr).0)
  {
    hide Inv, Live, Trim, BasesOf, Queued, AllBack;
    InvSizes(s);
    LiveNonNull(s, ptr);
    FreeLive(s, ptr);
    var base, i := s.layout.Base(ptr), s.layout.Index(ptr);
    var f, p := Find(s.full, base), Find(s.partial, base);
    var u := GiveBack(s, base, i).0;
    var t, n := Trim(u), |u.empty| - |Trim(u).empty|;
    StaysQueued(s.full, s.full);
    EndQueued(s.empty, if n <= |s.empty| then n else 0);
    if f < |s.full| {
      LeaveQueued(s.full, f);
      JoinQueued(s.partial, u.partial[|s.partial|]);
    } else if s.partial[p].numelems == 1 {
      LeaveQueued(s.partial, p);
      JoinEndQueued(s.empty, u.empty[|s.empty|], n);
    } else {
      SameBases(s.partial, p, u.partial[p]);
      StaysQueued(s.partial, u.partial);
    }
  }

  lemma SameBases(ps: seq<Page>, k: nat, p: Page)
    requires k < |ps| && p.base == ps[k].base
    ensures BasesOf(ps[k := p]) == BasesOf(ps)
  {}

  lemma AllocQueues(s: Slab, offer: Option<nat>)
    ensures AllQueued(s, Alloc(s, offer).0)
  {
    hide BasesOf, Queued, Lowest, Grown;
    var t := Provide(s, offer);
    StaysQueued(s.empty, s.empty);
    StaysQueued(s.partial, s.partial);
    StaysQueued(s.full, s.full);
    if s.partial != [] {
      var p' := Taken(s.layout, s.partial[0]);
      SameBases(s.partial, 0, p');
      StaysQueued(s.partial, s.partial[0 := p']);
      LeaveQueued(s.partial, 0);
      JoinQueued(s.full, p');
    } else if t.partial != [] {
      var p' := Taken(t.layout, t.partial[0]);
      assert Without(t.partial, 0) == [] && t.partial[0 := p'] == s.partial + [p'];
      JoinQueued(s.partial, p');
      JoinQueued(s.full, p');
      if s.empty != [] { EndQueued(s.empty, 1); } else { assert t.empty == s.empty; }
    }
  }

  lemma StepQueues(s: Slab, op: Op)
    requires Inv(s) && Legal(s, op) && op != OpReset
    ensures AllQueued(s, Step(s, op).0)
  {
    hide Queued, BasesOf;
    match op
    case OpAlloc(offer) => AllocQueues(s, offer);
    case OpFree(ptr) =>
      if ptr != NULL {
        FreeQueues(s, ptr);
      } else {
        StaysQueued(s.empty, s.empty);
        StaysQueued(s.partial, s.partial);
        StaysQueued(s.full, s.full);
      }
    case OpReset =>
  }

  /** slab_alloc serves the page that has been partial longest, else the one that has been empty longest, else
      the page it was offered; and of that page the lowest slot that is free. */
  lemma AllocServes(s: Slab, offer: Option<nat>)
    requires Inv(s) && Legal(s, OpAlloc(offer)) && Alloc(s, offer).1 != NULL
    ensures var ptr := Alloc(s, offer).1;
            && (s.partial != [] ==>
                 s.layout.Base(ptr) == s.partial[0].base && s.layout.Index(ptr) in s.partial[0].free &&
                 forall i :: i in s.partial[0].free ==> s.layout.Index(ptr) <= i)
            && (s.partial == [] && s.empty != [] ==> ptr == s.empty[0].base)
            && (s.partial == [] && s.empty == [] ==> offer == Some(ptr))
  {
    hide Inv, Live, Ready, Provide, Take, Lowest;
    AllocCorrect(s, offer);
    ProvideKeeps(s, offer);
    var t := Provide(s, offer);
    SameHead(s, offer);
    HeadServed(t);
    if s.partial == [] {
      UnusedHead(s, offer);
      FirstSlot(t);
    }
  }

  lemma SameHead(s: Slab, offer: Option<nat>)
    ensures Provide(s, offer).layout == s.layout && (s.partial != [] ==> Provide(s, offer) == s)
  {}

  lemma HeadServed(t: Slab)
    requires Ready(t)
    ensures t.partial != [] && t.layout.elemsz > 0
    ensures var p, l := t.partial[0], t.layout;
            var ptr := l.Slot(p.base, Lowest(l, p));
            l.Base(ptr) == p.base && l.Index(ptr) in p.free && forall i :: i in p.free ==> l.Index(ptr) <= i
  {
    hide Ready, Layout.Base, Layout.Index;
    HeadHasRoom(t);
    SlotStart(t.layout, t.partial[0].base, Lowest(t.layout, t.partial[0]));
  }

  lemma FirstSlot(t: Slab)
    requires Ready(t) && t.partial != [] && t.partial[0].free == Indices(t.layout.maxelems)
    ensures t.layout.Slot(t.partial[0].base, Lowest(t.layout, t.partial[0])) == t.partial[0].base
  {
    hide Ready, Layout.Base, Layout.Index;
    HeadHasRoom(t);
    MaxElemsFits(t.layout);
    assert 0 in t.partial[0].free;
  }

  lemma UnusedHead(s: Slab, offer: Option<nat>)
    requires Inv(s) && s.partial == [] && Provide(s, offer).partial != []
    ensures var p := Provide(s, offer).partial[0];
            p.free == Indices(s.layout.maxelems) &&
            (if s.empty != [] then p.base == s.empty[0].base else offer == Some(p.base))
  {
    if s.empty != [] { assert Fits(s.layout, Empty, s.empty[0]); }
  }

  // ---- reset and destroy ----

  /** slab_reset puts the partial pages behind the empty ones, and then the full ones, each list in its order. */
  lemma ResetQueues(s: Slab)
    ensures BasesOf(Reset(s).empty) == BasesOf(s.empty) + BasesOf(s.partial) + BasesOf(s.full)
    ensures Reset(s).partial == [] && Reset(s).full == [] && Reset(s).trace == s.trace
  {}

  lemma {:induction false} ReturnedAll(l: Layout, ps: seq<Page>)
    ensures Returned(ReleasedAll(l, ps)) == BasesOf(ps)
  {
    if ps != [] {
      ReturnedAll(l, ps[1..]);
      ReturnedReleased(l, ps[0].base);
      ReturnedConcat(Released(l, ps[0].base), ReleasedAll(l, ps[1..]));
      assert BasesOf(ps) == [ps[0].base] + BasesOf(ps[1..]);
    }
  }

  /** slab_destroy returns every page: the empty ones, the partial ones, the full ones. */
  lemma DestroyReturns(s: Slab)
    ensures Returned(Destroy(s).trace) ==
            Returned(s.trace) + BasesOf(s.empty) + BasesOf(s.partial) + BasesOf(s.full)
  {
    hide Returned, ReleasedAll;
    var l := s.layout;
    ReturnedAll(l, s.empty);
    ReturnedAll(l, s.partial);
    ReturnedAll(l, s.full);
    ReturnedConcat(s.trace, ReleasedAll(l, s.empty));
    ReturnedConcat(s.trace + ReleasedAll(l, s.empty), ReleasedAll(l, s.partial));
    ReturnedConcat(s.trace + ReleasedAll(l, s.empty) + ReleasedAll(l, s.partial), ReleasedAll(l, s.full));
  }
}
