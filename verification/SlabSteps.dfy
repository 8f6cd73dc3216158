/** What one call does: the page state machine is kept, and the live set changes as promised. */
module SlabSteps {
  import opened Wrappers
  import opened SlabLayout
  import opened SlabModel
  import opened SlabInvariant

  lemma CreateInv(l: Layout)
    requires l.Accepted()
    ensures Inv(Create(l)) && Live(Create(l)) == {}
  {}

  lemma InvSizes(s: Slab)
    requires Inv(s)
    ensures s.layout.Accepted() && s.layout.elemsz > 0
  {}

  lemma ListsOk(s: Slab)
    requires Inv(s)
    ensures AllOk(s.layout, s.empty) && AllOk(s.layout, s.partial) && AllOk(s.layout, s.full)
    ensures LiveIn(s.layout, s.empty) == {}
    ensures Live(s) == LiveIn(s.layout, s.partial) + LiveIn(s.layout, s.full)
  {
    LiveInEmpty(s.layout, s.empty);
  }

  // ---- slab_alloc ----

  lemma GrowBases(s: Slab, base: nat)
    ensures AllBases(Grow(s, base)) == AllBases(s) + {base}
  {
    BasesAppend(s.empty, Page(base, Indices(s.layout.maxelems), 0));
  }

  lemma PromoteBases(s: Slab)
    requires s.empty != []
    ensures AllBases(Promote(s)) == AllBases(s)
  {
    assert s.empty[1..] == Without(s.empty, 0);
    BasesPick(s.empty, 0);
    BasesAppend(s.partial, s.empty[0]);
  }

  lemma GrowKeeps(s: Slab, base: nat)
    requires Inv(s) && s.layout.IsPageBase(base) && base !in AllBases(s)
    ensures Inv(Grow(s, base)) && Live(Grow(s, base)) == Live(s)
    ensures AllBases(Grow(s, base)) == AllBases(s) + {base}
  {
    var p := Page(base, Indices(s.layout.maxelems), 0);
    BasesAppend(s.empty, p);
    AllFitAppend(s.layout, Empty, s.empty, p);
    LiveInEmpty(s.layout, s.empty);
    LiveInEmpty(s.layout, s.empty + [p]);
  }

  /** Between the choice of a page and the allocation of a slot in it, the head of the partial list
      may still be a page without any element. */
  predicate Ready(s: Slab) {
    && s.layout.Accepted()
    && s.partial != []
    && AllFit(s.layout, Empty, s.empty) && AllFit(s.layout, Full, s.full)
    && (Fits(s.layout, Empty, s.partial[0]) || Fits(s.layout, Partial, s.partial[0]))
    && AllFit(s.layout, Partial, Without(s.partial, 0))
    && Apart(s)
  }

  lemma PromoteApart(s: Slab)
    requires Apart(s) && s.partial == [] && s.empty != []
    ensures Apart(Promote(s)) && AllBases(Promote(s)) == AllBases(s)
  {
    assert s.empty[1..] == Without(s.empty, 0);
    assert Promote(s).partial == [s.empty[0]];
    BasesWithout(s.empty, 0);
    BasesOne(s.empty[0]);
  }

  lemma PromoteKeeps(s: Slab)
    requires Inv(s) && s.partial == [] && s.empty != []
    ensures Ready(Promote(s)) && Live(Promote(s)) == Live(s) && AllBases(Promote(s)) == AllBases(s)
  {
    hide Layout.Accepted, LivePage, Apart, AllBases, Bases, Fits;
    var t := Promote(s);
    assert s.empty[1..] == Without(s.empty, 0);
    assert t.partial == [s.empty[0]] && Without(t.partial, 0) == [];
    PromoteApart(s);
    AllFitWithout(s.layout, Empty, s.empty, 0);
    LiveInEmpty(s.layout, s.empty);
    LiveInEmpty(s.layout, t.empty);
    LiveInEmpty(s.layout, t.partial);
  }

  lemma ReadyAlready(s: Slab)
    requires Inv(s) && s.partial != []
    ensures Ready(s)
  {
    AllFitWithout(s.layout, Partial, s.partial, 0);
  }

  lemma ProvideKeeps(s: Slab, offer: Option<nat>)
    requires Inv(s) && Legal(s, OpAlloc(offer))
    ensures var t := Provide(s, offer);
            Live(t) == Live(s) &&
            (if s.partial == [] && s.empty == [] && offer.None? then t == s else Ready(t)) &&
            |t.empty| <= |s.empty| &&
            AllBases(t) == AllBases(s) + (if s.partial == [] && s.empty == [] && offer.Some? then {offer.value} else {})
  {
    if s.partial != [] {
      ReadyAlready(s);
    } else if s.empty == [] && offer.Some? {
      GrowKeeps(s, offer.value);
      PromoteKeeps(Grow(s, offer.value));
    } else if s.empty != [] {
      PromoteKeeps(s);
    }
  }

  /** The assertion in slab_alloc holds, and the word scan finds a slot. */
  lemma HeadHasRoom(s: Slab)
    requires Ready(s)
    ensures s.layout.Accepted() && s.partial != []
    ensures var p, max := s.partial[0], s.layout.maxelems;
            PageOk(s.layout, p) && 0 <= p.numelems < max && Used(p, max) <= p.numelems && |p.free| > 0 &&
            Lowest(s.layout, p) in p.free && Lowest(s.layout, p) < max
  {
    var p := s.partial[0];
    MaxElemsFits(s.layout);
    IndicesSize(s.layout.maxelems);
    SubsetSize(p.free, Indices(s.layout.maxelems));
    SomeFree(p, s.layout.maxelems, s.layout.Bits());
  }

  lemma TakenFits(s: Slab)
    requires Ready(s)
    ensures var p' := Taken(s.layout, s.partial[0]);
            Fits(s.layout, if p'.numelems == s.layout.maxelems then Full else Partial, p')
  {
    HeadHasRoom(s);
  }

  lemma TakeApart(s: Slab)
    requires Apart(s) && s.partial != []
    ensures Apart(Take(s)) && AllBases(Take(s)) == AllBases(s)
  {
    var p' := Taken(s.layout, s.partial[0]);
    if p'.numelems == s.layout.maxelems {
      BasesWithout(s.partial, 0);
      BasesAppend(s.full, p');
    } else {
      BasesUpdate(s.partial, 0, p');
    }
  }

  lemma TakeInv(s: Slab)
    requires Ready(s)
    ensures Inv(Take(s)) && AllBases(Take(s)) == AllBases(s)
  {
    var p' := Taken(s.layout, s.partial[0]);
    TakenFits(s);
    TakeApart(s);
    if p'.numelems == s.layout.maxelems {
      AllFitAppend(s.layout, Full, s.full, p');
    } else {
      AllFitUpdate(s.layout, Partial, s.partial, 0, p');
    }
  }

  /** No slot of the head of the partial list is live on another page. */
  lemma HeadElsewhere(s: Slab, i: nat)
    requires Ready(s) && i < s.layout.maxelems
    ensures var slot := s.layout.Slot(s.partial[0].base, i);
            slot !in LiveIn(s.layout, Without(s.partial, 0)) && slot !in LiveIn(s.layout, s.full) &&
            slot !in LiveIn(s.layout, s.empty)
  {
    BasesWithout(s.partial, 0);
    AllFitOk(s.layout, Partial, Without(s.partial, 0));
    AllFitOk(s.layout, Full, s.full);
    AllFitOk(s.layout, Empty, s.empty);
    Elsewhere(s.layout, Without(s.partial, 0), s.partial[0], i);
    Elsewhere(s.layout, s.full, s.partial[0], i);
    Elsewhere(s.layout, s.empty, s.partial[0], i);
  }

  /** The live set as the other pages, where the slot is not live, and the head of the partial list. */
  lemma TakeSplits(s: Slab, i: nat) returns (rest: set<nat>)
    requires Ready(s) && i < s.layout.maxelems
    ensures s.layout.Slot(s.partial[0].base, i) !in rest
    ensures Live(s) == rest + LivePage(s.layout, s.partial[0])
    ensures Live(Take(s)) == rest + LivePage(s.layout, Taken(s.layout, s.partial[0]))
  {
    var l, p' := s.layout, Taken(s.layout, s.partial[0]);
    rest := LiveIn(l, s.empty) + LiveIn(l, Without(s.partial, 0)) + LiveIn(l, s.full);
    HeadElsewhere(s, i);
    LiveWithout(l, s.partial, 0);
    if p'.numelems == l.maxelems {
      LiveAppend(l, s.full, p');
    } else {
      LiveUpdate(l, s.partial, 0, p');
    }
  }

  lemma TakeLive(s: Slab)
    requires Ready(s)
    ensures var ptr := s.layout.Slot(s.partial[0].base, Lowest(s.layout, s.partial[0]));
            ptr != NULL && ptr !in Live(s) && Live(Take(s)) == Live(s) + {ptr}
  {
    hide Ready, Live, Take, LivePage, PageOk, Used, Layout.Accepted;
    HeadHasRoom(s);
    var l, p := s.layout, s.partial[0];
    LivePageTake(l, p, Lowest(l, p), p.numelems + 1);
    var rest := TakeSplits(s, Lowest(l, p));
  }

  /** slab_alloc: the state machine is kept; NULL comes back exactly when there is neither a partial
      nor an empty page and the page allocator fails, and then nothing changed; otherwise the result
      is a pointer nobody holds, and it is the only change to the live set. */
  lemma AllocCorrect(s: Slab, offer: Option<nat>)
    requires Inv(s) && Legal(s, OpAlloc(offer))
    ensures var (t, ptr) := Alloc(s, offer);
            Inv(t) &&
            (ptr == NULL <==> s.partial == [] && s.empty == [] && offer.None?) &&
            (ptr == NULL ==> t == s) &&
            (ptr != NULL ==> ptr !in Live(s) && Live(t) == Live(s) + {ptr})
    ensures |Alloc(s, offer).0.empty| <= |s.empty|
  {
    ProvideKeeps(s, offer);
    var t := Provide(s, offer);
    if t.partial != [] {
      assert t != s || s.partial != [];
      TakeInv(t);
      TakeLive(t);
    }
  }

  // ---- slab_free ----

  lemma GiveFacts(l: Layout, page: Page, i: nat)
    requires l.Accepted() && PageOk(l, page) && i !in page.free && i < l.maxelems
    ensures page.free + {i} <= Indices(l.maxelems)
    ensures |page.free + {i}| == |page.free| + 1 && |page.free| < l.maxelems
    ensures |page.free| == l.maxelems - 1 ==> page.free + {i} == Indices(l.maxelems)
  {
    IndicesSize(l.maxelems);
    SubsetSize(page.free + {i}, Indices(l.maxelems));
  }

  lemma FullFits(l: Layout, page: Page, i: nat)
    requires l.Accepted() && Fits(l, Full, page) && i !in page.free && i < l.maxelems
    ensures Fits(l, Partial, Page(page.base, page.free + {i}, page.numelems - 1))
  {
    GiveFacts(l, page, i);
  }

  /** The consistency check in slab_free holds: when the counter is one, the slot given back was the
      only one in use. */
  lemma PartialFits(l: Layout, page: Page, i: nat)
    requires l.Accepted() && Fits(l, Partial, page) && i !in page.free && i < l.maxelems
    ensures page.numelems == 1 ==> Fits(l, Empty, Page(page.base, page.free + {i}, 0))
    ensures page.numelems != 1 ==> Fits(l, Partial, Page(page.base, page.free + {i}, page.numelems))
    ensures page.numelems > 0
  {
    GiveFacts(l, page, i);
  }

  lemma FullApart(s: Slab, f: nat, i: nat)
    requires Apart(s) && f < |s.full|
    ensures Apart(AfterFull(s, f, i)) && AllBases(AfterFull(s, f, i)) == AllBases(s)
  {
    var page := s.full[f];
    BasesWithout(s.full, f);
    BasesAppend(s.partial, Page(page.base, page.free + {i}, page.numelems - 1));
  }

  lemma FullInv(s: Slab, f: nat, i: nat)
    requires Inv(s) && f < |s.full| && i !in s.full[f].free && i < s.layout.maxelems
    ensures Inv(AfterFull(s, f, i)) && AllBases(AfterFull(s, f, i)) == AllBases(s)
  {
    var page := s.full[f];
    FullApart(s, f, i);
    FullFits(s.layout, page, i);
    AllFitWithout(s.layout, Full, s.full, f);
    AllFitAppend(s.layout, Partial, s.partial, Page(page.base, page.free + {i}, page.numelems - 1));
  }

  lemma PartialApart(s: Slab, p: nat, i: nat)
    requires Apart(s) && p < |s.partial|
    ensures Apart(AfterPartial(s, p, i)) && AllBases(AfterPartial(s, p, i)) == AllBases(s)
  {
    var page := s.partial[p];
    if page.numelems == 1 {
      BasesWithout(s.partial, p);
      BasesAppend(s.empty, Page(page.base, page.free + {i}, 0));
    } else {
      BasesUpdate(s.partial, p, Page(page.base, page.free + {i}, page.numelems));
    }
  }

  lemma PartialInv(s: Slab, p: nat, i: nat)
    requires Inv(s) && p < |s.partial| && i !in s.partial[p].free && i < s.layout.maxelems
    ensures Inv(AfterPartial(s, p, i)) && AllBases(AfterPartial(s, p, i)) == AllBases(s)
  {
    var page := s.partial[p];
    PartialApart(s, p, i);
    PartialFits(s.layout, page, i);
    AllFitWithout(s.layout, Partial, s.partial, p);
    if page.numelems == 1 {
      AllFitAppend(s.layout, Empty, s.empty, Page(page.base, page.free + {i}, 0));
    } else {
      AllFitUpdate(s.layout, Partial, s.partial, p, Page(page.base, page.free + {i}, page.numelems));
    }
  }

  /** A slot is not live on any page but its own. */
  lemma Elsewhere(l: Layout, ps: seq<Page>, page: Page, i: nat)
    requires l.Accepted() && AllOk(l, ps) && PageOk(l, page) && i < l.maxelems
    requires page.base !in Bases(ps)
    ensures l.Slot(page.base, i) !in LiveIn(l, ps)
  {
    SlotStart(l, page.base, i);
    LiveInMember(l, ps, l.Slot(page.base, i));
  }

  lemma FullElsewhere(s: Slab, f: nat, i: nat)
    requires Inv(s) && f < |s.full| && i < s.layout.maxelems
    ensures var slot := s.layout.Slot(s.full[f].base, i);
            slot !in LiveIn(s.layout, Without(s.full, f)) && slot !in LiveIn(s.layout, s.partial) &&
            slot !in LiveIn(s.layout, s.empty)
  {
    BasesWithout(s.full, f);
    AllFitWithout(s.layout, Full, s.full, f);
    AllFitOk(s.layout, Full, Without(s.full, f));
    ListsOk(s);
    Elsewhere(s.layout, Without(s.full, f), s.full[f], i);
    Elsewhere(s.layout, s.partial, s.full[f], i);
    Elsewhere(s.layout, s.empty, s.full[f], i);
  }

  lemma PartialElsewhere(s: Slab, p: nat, i: nat)
    requires Inv(s) && p < |s.partial| && i < s.layout.maxelems
    ensures var slot := s.layout.Slot(s.partial[p].base, i);
            slot !in LiveIn(s.layout, Without(s.partial, p)) && slot !in LiveIn(s.layout, s.full) &&
            slot !in LiveIn(s.layout, s.empty)
  {
    BasesWithout(s.partial, p);
    AllFitWithout(s.layout, Partial, s.partial, p);
    AllFitOk(s.layout, Partial, Without(s.partial, p));
    ListsOk(s);
    Elsewhere(s.layout, Without(s.partial, p), s.partial[p], i);
    Elsewhere(s.layout, s.full, s.partial[p], i);
    Elsewhere(s.layout, s.empty, s.partial[p], i);
  }

  lemma SlotOnPage(l: Layout, page: Page, i: nat)
    requires l.Accepted() && PageOk(l, page) && i < l.maxelems
    ensures l.Slot(page.base, i) in LivePage(l, page) <==> i !in page.free
  {
    SlotStart(l, page.base, i);
    LivePageMember(l, page, l.Slot(page.base, i));
  }

  /** Giving back a slot whose bit is clear removes it, and nothing else, from the live set. */
  lemma FullLive(s: Slab, f: nat, i: nat)
    requires Inv(s) && f < |s.full| && i < s.layout.maxelems
    ensures s.layout.Slot(s.full[f].base, i) in Live(s) <==> i !in s.full[f].free
    ensures i !in s.full[f].free ==> Live(AfterFull(s, f, i)) == Live(s) - {s.layout.Slot(s.full[f].base, i)}
  {
    var l, page := s.layout, s.full[f];
    FullElsewhere(s, f, i);
    SlotOnPage(l, page, i);
    LiveWithout(l, s.full, f);
    if i !in page.free {
      LivePageGive(l, page, i, page.numelems - 1);
      LiveAppend(l, s.partial, Page(page.base, page.free + {i}, page.numelems - 1));
    }
  }

  lemma PartialLive(s: Slab, p: nat, i: nat)
    requires Inv(s) && p < |s.partial| && i < s.layout.maxelems
    ensures s.layout.Slot(s.partial[p].base, i) in Live(s) <==> i !in s.partial[p].free
  {
    PartialElsewhere(s, p, i);
    SlotOnPage(s.layout, s.partial[p], i);
    LiveWithout(s.layout, s.partial, p);
  }

  lemma PartialSplits(s: Slab, p: nat, i: nat, n: int) returns (rest: set<nat>)
    requires Inv(s) && p < |s.partial| && i < s.layout.maxelems
    requires n == if s.partial[p].numelems == 1 then 0 else s.partial[p].numelems
    ensures s.layout.Slot(s.partial[p].base, i) !in rest
    ensures Live(s) == rest + LivePage(s.layout, s.partial[p])
    ensures Live(AfterPartial(s, p, i)) ==
            rest + LivePage(s.layout, Page(s.partial[p].base, s.partial[p].free + {i}, n))
  {
    var l, page := s.layout, s.partial[p];
    rest := LiveIn(l, s.empty) + LiveIn(l, Without(s.partial, p)) + LiveIn(l, s.full);
    PartialElsewhere(s, p, i);
    LiveWithout(l, s.partial, p);
    if page.numelems == 1 {
      LiveAppend(l, s.empty, Page(page.base, page.free + {i}, 0));
    } else {
      LiveUpdate(l, s.partial, p, Page(page.base, page.free + {i}, page.numelems));
    }
  }

  lemma PartialGiven(s: Slab, p: nat, i: nat)
    requires Inv(s) && p < |s.partial| && i < s.layout.maxelems && i !in s.partial[p].free
    ensures Live(AfterPartial(s, p, i)) == Live(s) - {s.layout.Slot(s.partial[p].base, i)}
  {
    var page := s.partial[p];
    var n := if page.numelems == 1 then 0 else page.numelems;
    var rest := PartialSplits(s, p, i, n);
    LivePageGive(s.layout, page, i, n);
    Shrink(rest, LivePage(s.layout, page), s.layout.Slot(page.base, i));
  }

  lemma Shrink(rest: set<nat>, page: set<nat>, slot: nat)
    requires slot !in rest
    ensures rest + (page - {slot}) == (rest + page) - {slot}
  {}

  lemma {:induction false} EmptyNotLive(s: Slab, e: nat, i: nat)
    requires Inv(s) && e < |s.empty| && i < s.layout.maxelems
    ensures s.layout.Slot(s.empty[e].base, i) !in Live(s)
  {
    BasesWithout(s.empty, e);
    ListsOk(s);
    Elsewhere(s.layout, s.partial, s.empty[e], i);
    Elsewhere(s.layout, s.full, s.empty[e], i);
  }

  lemma GiveBackKeeps(s: Slab, base: nat, i: nat)
    requires Inv(s) && i < s.layout.maxelems
    ensures var (t, outcome) := GiveBack(s, base, i);
            Inv(t) && AllBases(t) == AllBases(s) &&
            (outcome == NotInSlabPage <==> base !in AllBases(s)) &&
            (outcome == Done <==> base in AllBases(s) && s.layout.Slot(base, i) in Live(s)) &&
            outcome != AssertFails && (outcome != Done ==> t == s) &&
            (outcome == Done ==> Live(t) == Live(s) - {s.layout.Slot(base, i)})
  {
    var f, p, e := Find(s.full, base), Find(s.partial, base), Find(s.empty, base);
    FindInBases(s.full, base);
    FindInBases(s.partial, base);
    FindInBases(s.empty, base);
    if f < |s.full| {
      FullLive(s, f, i);
      if i !in s.full[f].free { FullInv(s, f, i); }
    } else if p < |s.partial| {
      PartialLive(s, p, i);
      if i !in s.partial[p].free {
        PartialFits(s.layout, s.partial[p], i);
        PartialInv(s, p, i);
        PartialGiven(s, p, i);
      }
    } else if e < |s.empty| {
      EmptyNotLive(s, e, i);
    }
  }

  /** For any index, the same pages remain, each on one list. */
  lemma GiveBackApart(s: Slab, base: nat, i: nat)
    requires Apart(s)
    ensures var (t, outcome) := GiveBack(s, base, i);
            Apart(t) && AllBases(t) == AllBases(s) && (outcome != Done ==> t == s)
  {
    hide Apart, AllBases, AllBack;
    var f, p := Find(s.full, base), Find(s.partial, base);
    if f < |s.full| { FullApart(s, f, i); }
    if p < |s.partial| { PartialApart(s, p, i); }
  }

  lemma CounterBounds(l: Layout, page: Page)
    requires Fits(l, Partial, page)
    ensures 0 <= page.numelems < l.maxelems
  {
    IndicesSize(l.maxelems);
    SubsetSize(page.free, Indices(l.maxelems));
  }

  lemma ReleaseFirstApart(s: Slab)
    requires Apart(s) && s.empty != []
    ensures Apart(ReleaseFirst(s)) && AllBases(ReleaseFirst(s)) == AllBases(s) - {s.empty[0].base}
  {
    assert s.empty[1..] == Without(s.empty, 0);
    BasesWithout(s.empty, 0);
  }

  lemma ReleaseFirstKeeps(s: Slab)
    requires Inv(s) && s.empty != []
    ensures Inv(ReleaseFirst(s)) && AllBases(ReleaseFirst(s)) == AllBases(s) - {s.empty[0].base}
    ensures Live(ReleaseFirst(s)) == Live(s)
  {
    hide Fits, Bases, Apart, AllBases, LivePage, LiveIn;
    ReleaseFirstApart(s);
    assert s.empty[1..] == Without(s.empty, 0);
    AllFitWithout(s.layout, Empty, s.empty, 0);
    LiveInEmpty(s.layout, s.empty);
    LiveInEmpty(s.layout, s.empty[1..]);
  }

  /** What slab_free does, given where the page stands. */
  lemma GiveBackAtFull(s: Slab, k: nat, i: nat)
    requires Inv(s) && k < |s.full|
    ensures GiveBack(s, s.full[k].base, i) ==
            if i in s.full[k].free then (s, DoubleFree) else (AfterFull(s, k, i), Done)
  {
    FindAt(s.full, k);
  }

  lemma GiveBackAtPartial(s: Slab, k: nat, i: nat)
    requires Inv(s) && k < |s.partial|
    ensures var page := s.partial[k];
            GiveBack(s, page.base, i) ==
              if i in page.free then (s, DoubleFree)
              else if page.numelems <= 0 || (page.numelems == 1 && !AllBack(page, i, s.layout.maxelems)) then
                (s, AssertFails)
              else (AfterPartial(s, k, i), Done)
    ensures i < s.layout.maxelems && i !in s.partial[k].free ==>
              GiveBack(s, s.partial[k].base, i) == (AfterPartial(s, k, i), Done)
  {
    FindAt(s.partial, k);
    BasesMember(s.partial, k);
    FindInBases(s.full, s.partial[k].base);
    if i < s.layout.maxelems && i !in s.partial[k].free { PartialFits(s.layout, s.partial[k], i); }
  }

  lemma GiveBackAtEmpty(s: Slab, k: nat, i: nat)
    requires Inv(s) && k < |s.empty|
    ensures GiveBack(s, s.empty[k].base, i) == (s, if i < s.layout.maxelems then DoubleFree else AssertFails)
    ensures i in s.empty[k].free <==> i < s.layout.maxelems
  {
    FindAt(s.empty, k);
    BasesMember(s.empty, k);
    FindInBases(s.full, s.empty[k].base);
    FindInBases(s.partial, s.empty[k].base);
  }

  lemma TrimKeeps(s: Slab)
    requires Inv(s)
    ensures var t := Trim(s);
            Inv(t) && Live(t) == Live(s) && t.partial == s.partial && t.full == s.full &&
            |t.empty| == (if |s.empty| <= |s.partial| + |s.full| then |s.empty| else |s.partial| + |s.full|) &&
            t.empty == s.empty[|s.empty| - |t.empty|..] && AllBases(t) <= AllBases(s)
  {
    hide Inv, Live, AllBases, Trim;
    TrimEnds(s);
  }

  lemma {:induction false} TrimEnds(s: Slab)
    requires Inv(s)
    ensures var t := Trim(s);
            Inv(t) && Live(t) == Live(s) && |t.empty| <= |s.partial| + |s.full| && AllBases(t) <= AllBases(s)
    decreases |s.empty|
  {
    hide Inv, Live, AllBases;
    if |s.empty| > |s.full| + |s.partial| {
      ReleaseFirstKeeps(s);
      TrimEnds(ReleaseFirst(s));
    }
  }

  /** slab_free of any pointer into a slot of a slab page, or outside every slab page: it is carried
      out exactly when the slot it points into is live, and then removes just that slot and leaves no
      more empty pages than others; the two panics are exactly "not one of my pages" and "already free".
      Pointers behind the last slot of a page are the subject of SlabPanics. */
  lemma FreeCorrect(s: Slab, ptr: nat)
    requires Inv(s) && ptr != NULL
    requires s.layout.Base(ptr) in AllBases(s) ==> s.layout.Index(ptr) < s.layout.maxelems
    ensures var (t, outcome) := Free(s, ptr);
            var slot := s.layout.Slot(s.layout.Base(ptr), s.layout.Index(ptr));
            Inv(t) &&
            (outcome == NotInSlabPage <==> s.layout.Base(ptr) !in AllBases(s)) &&
            (outcome == Done <==> s.layout.Base(ptr) in AllBases(s) && slot in Live(s)) &&
            outcome != AssertFails &&
            (outcome != Done ==> t == s) &&
            (outcome == Done ==> Live(t) == Live(s) - {slot} && |t.empty| <= |t.partial| + |t.full|)
  {
    var i := s.layout.Index(ptr);
    var base := s.layout.Base(ptr);
    if base in AllBases(s) {
      GiveBackKeeps(s, base, i);
    } else {
      FindInBases(s.full, base);
      FindInBases(s.partial, base);
      FindInBases(s.empty, base);
    }
    var (t, outcome) := GiveBack(s, base, i);
    if outcome == Done { TrimKeeps(t); }
  }

  lemma LiveOnPage(s: Slab, ptr: nat)
    requires Inv(s) && ptr in Live(s)
    ensures s.layout.IsSlot(ptr) && (s.layout.Base(ptr) in Bases(s.partial) || s.layout.Base(ptr) in Bases(s.full))
  {
    ListsOk(s);
    LiveInMember(s.layout, s.partial, ptr);
    LiveInMember(s.layout, s.full, ptr);
  }

  /** Freeing a live pointer never panics and removes exactly that pointer. */
  lemma FreeLive(s: Slab, ptr: nat)
    requires Inv(s) && ptr in Live(s)
    ensures Free(s, ptr).1 == Done && Inv(Free(s, ptr).0) && Live(Free(s, ptr).0) == Live(s) - {ptr}
    ensures |Free(s, ptr).0.empty| <= |Free(s, ptr).0.partial| + |Free(s, ptr).0.full|
  {
    LiveOnPage(s, ptr);
    LiveNonNull(s, ptr);
    FreeCorrect(s, ptr);
  }

  lemma {:induction false} BasesPositive(l: Layout, ps: seq<Page>)
    requires AllOk(l, ps)
    ensures NULL !in Bases(ps)
  {
    if ps != [] {
      assert PageOk(l, ps[0]);
      BasesPositive(l, ps[1..]);
    }
  }

  lemma LiveNonNull(s: Slab, ptr: nat)
    requires Inv(s) && ptr in Live(s)
    ensures ptr != NULL
  {
    LiveOnPage(s, ptr);
    ListsOk(s);
    BasesPositive(s.layout, s.partial);
    BasesPositive(s.layout, s.full);
  }

  // ---- slab_reset ----

  lemma {:induction false} ClearedBases(ps: seq<Page>, max: int)
    ensures Bases(Cleared(ps, max)) == Bases(ps)
    ensures Distinct(ps) ==> Distinct(Cleared(ps, max))
  {
    if ps != [] {
      assert Cleared(ps, max)[1..] == Cleared(ps[1..], max);
      ClearedBases(ps[1..], max);
    }
  }

  lemma ClearedEmpty(l: Layout, ps: seq<Page>)
    requires AllOk(l, ps)
    ensures AllFit(l, Empty, Cleared(ps, l.maxelems))
  {
    forall k | 0 <= k < |ps| ensures Fits(l, Empty, Cleared(ps, l.maxelems)[k]) {
      assert PageOk(l, ps[k]);
      assert ps[k].free + Indices(l.maxelems) == Indices(l.maxelems);
    }
  }

  lemma ResetApart(s: Slab)
    requires Apart(s)
    ensures Apart(Reset(s)) && AllBases(Reset(s)) == AllBases(s)
  {
    var a, b := Cleared(s.partial, s.layout.maxelems), Cleared(s.full, s.layout.maxelems);
    ClearedBases(s.partial, s.layout.maxelems);
    ClearedBases(s.full, s.layout.maxelems);
    BasesConcat(s.empty, a);
    BasesConcat(s.empty + a, b);
  }

  /** slab_reset takes back everything and keeps every page. */
  lemma ResetCorrect(s: Slab)
    requires Inv(s)
    ensures Inv(Reset(s)) && Live(Reset(s)) == {} && AllBases(Reset(s)) == AllBases(s)
  {
    ResetApart(s);
    ListsOk(s);
    ClearedEmpty(s.layout, s.partial);
    ClearedEmpty(s.layout, s.full);
    assert AllFit(s.layout, Empty, Reset(s).empty);
    LiveInEmpty(s.layout, Reset(s).empty);
  }
}
