/** A consequence of the counter that free leaves alone: once a page has counted two, nothing short of
    a reset gives it back, even when every element on it has been freed. */
module SlabRetention {
  import opened Wrappers
  import opened SlabLayout
  import opened SlabModel
  import opened SlabSteps
  import opened SlabRuns

  predicate Counts2(ps: seq<Page>, base: nat) {
    exists k :: 0 <= k < |ps| && ps[k].base == base && ps[k].numelems >= 2
  }

  /** The page is in use by its counter, which is at least two. */
  predicate Held(s: Slab, base: nat) {
    Counts2(s.partial, base) || Counts2(s.full, base)
  }

  lemma Counts2Append(ps: seq<Page>, p: Page, base: nat)
    ensures Counts2(ps, base) ==> Counts2(ps + [p], base)
    ensures p.base == base && p.numelems >= 2 ==> Counts2(ps + [p], base)
  {
    if Counts2(ps, base) {
      var k :| 0 <= k < |ps| && ps[k].base == base && ps[k].numelems >= 2;
      assert (ps + [p])[k] == ps[k];
    }
    assert (ps + [p])[|ps|] == p;
  }

  lemma Counts2Without(ps: seq<Page>, k: nat, base: nat)
    requires k < |ps| && Counts2(ps, base) && !(ps[k].base == base && ps[k].numelems >= 2)
    ensures Counts2(Without(ps, k), base)
  {
    var j :| 0 <= j < |ps| && ps[j].base == base && ps[j].numelems >= 2;
    assert Without(ps, k)[if j < k then j else j - 1] == ps[j];
  }

  lemma Counts2Update(ps: seq<Page>, k: nat, p: Page, base: nat)
    requires k < |ps| && Counts2(ps, base) && p.base == ps[k].base && p.numelems >= ps[k].numelems
    ensures Counts2(ps[k := p], base)
  {
    var j :| 0 <= j < |ps| && ps[j].base == base && ps[j].numelems >= 2;
    assert ps[k := p][j].base == base && ps[k := p][j].numelems >= 2;
  }

  lemma TakeHolds(s: Slab, base: nat)
    requires s.partial != [] && Held(s, base) && s.layout.maxelems >= 3
    ensures Held(Take(s), base)
  {
    var p := s.partial[0];
    var p' := Taken(s.layout, p);
    if p'.numelems == s.layout.maxelems {
      Counts2Append(s.full, p', base);
      if Counts2(s.partial, base) && !(p.base == base && p.numelems >= 2) { Counts2Without(s.partial, 0, base); }
    } else if Counts2(s.partial, base) {
      Counts2Update(s.partial, 0, p', base);
    }
  }

  lemma AllocHolds(s: Slab, offer: Option<nat>, base: nat)
    requires Held(s, base) && s.layout.maxelems >= 3
    ensures Held(Alloc(s, offer).0, base)
  {
    var t := Provide(s, offer);
    if s.partial == [] && t.partial != [] {
      assert Held(t, base);
    }
    if t.partial != [] { TakeHolds(t, base); }
  }

  lemma GiveBackHolds(s: Slab, page: nat, i: nat, base: nat)
    requires Inv(s) && Held(s, base) && s.layout.maxelems >= 3
    ensures Held(GiveBack(s, page, i).0, base)
  {
    hide Inv, AllBack, Counts2;
    var f, p := Find(s.full, page), Find(s.partial, page);
    if f < |s.full| {
      CounterFits(s, Full, s.full, f);
      Counts2Append(s.partial, Page(page, s.full[f].free + {i}, s.full[f].numelems - 1), base);
      if Counts2(s.full, base) && page != base { Counts2Without(s.full, f, base); }
    } else if p < |s.partial| && Counts2(s.partial, base) {
      if s.partial[p].numelems == 1 {
        Counts2Without(s.partial, p, base);
      } else {
        Counts2Update(s.partial, p, Page(page, s.partial[p].free + {i}, s.partial[p].numelems), base);
      }
    }
  }

  lemma StepHolds(s: Slab, op: Op, base: nat)
    requires Inv(s) && Legal(s, op) && Held(s, base) && s.layout.maxelems >= 3 && op != OpReset
    ensures Held(Step(s, op).0, base)
  {
    match op
    case OpAlloc(offer) => AllocHolds(s, offer, base);
    case OpFree(ptr) =>
      if ptr != NULL {
        FreeLive(s, ptr);
        GiveBackHolds(s, s.layout.Base(ptr), s.layout.Index(ptr), base);
        LiveOnPage(s, ptr);
        GiveBackKeeps(s, s.layout.Base(ptr), s.layout.Index(ptr));
        TrimKeeps(GiveBack(s, s.layout.Base(ptr), s.layout.Index(ptr)).0);
      }
    case OpReset =>
  }

  /** With room for three elements or more, a page whose counter has reached two stays allocated, and
      off the empty list, through every run without a reset. */
  lemma {:induction false} RunHolds(s: Slab, ops: seq<Op>, base: nat)
    requires Inv(s) && LegalRun(s, ops) && Held(s, base) && s.layout.maxelems >= 3 && OpReset !in ops
    ensures Held(Run(s, ops), base) && base !in Bases(Run(s, ops).empty) && base in AllBases(Run(s, ops))
    decreases |ops|
  {
    if ops == [] {
      HeldBase(s.partial, base);
      HeldBase(s.full, base);
    } else {
      StepHolds(s, ops[0], base);
      StepRefines(s, ops[0]);
      RunHolds(Step(s, ops[0]).0, ops[1..], base);
    }
  }

  lemma {:induction false} HeldBase(ps: seq<Page>, base: nat)
    ensures Counts2(ps, base) ==> base in Bases(ps)
  {
    if ps != [] && ps[0].base != base {
      HeldBase(ps[1..], base);
      if Counts2(ps, base) {
        var k :| 0 <= k < |ps| && ps[k].base == base && ps[k].numelems >= 2;
        assert ps[1..][k - 1] == ps[k];
      }
    }
  }
}
