/** When slab_free panics or aborts, for any pointer into a page of the allocator. */
module SlabPanics {
  import opened SlabLayout
  import opened SlabModel
  import opened SlabInvariant
  import opened SlabSteps

  /** The page with this base, and the list it is on. */
  function Holder(s: Slab, base: nat): (r: (Role, Page))
    requires base in AllBases(s)
    ensures r.1.base == base
    ensures match r.0
            case Full => r.1 in s.full
            case Partial => r.1 in s.partial
            case Empty => r.1 in s.empty
  {
    FindInBases(s.full, base);
    FindInBases(s.partial, base);
    FindInBases(s.empty, base);
    var f, p, e := Find(s.full, base), Find(s.partial, base), Find(s.empty, base);
    if f < |s.full| then (Full, s.full[f]) else if p < |s.partial| then (Partial, s.partial[p]) else (Empty, s.empty[e])
  }

  /** Behind the last slot no bit is ever set. There an assertion stops slab_free exactly if the page's
      counter is zero, or it is one and a slot other than the only one of the page is in use. */
  predicate TailAborts(l: Layout, role: Role, page: Page) {
    page.numelems == 0 || (role == Partial && page.numelems == 1 && Used(page, l.maxelems) > 0)
  }

  /** For every pointer into a page of the allocator: slab_free panics over a double free exactly if the
      pointer is into a slot that is free; an assertion fails exactly for pointers behind the last slot, as
      said above; otherwise it returns. If the pointer is into a slot, or slab_free does not return, the
      allocator is as it should be; otherwise the page now has a free slot that it does not have. */
  lemma FreeInOwnPage(s: Slab, ptr: nat)
    requires Inv(s) && ptr != NULL && s.layout.Base(ptr) in AllBases(s)
    ensures var base, i, max := s.layout.Base(ptr), s.layout.Index(ptr), s.layout.maxelems;
            var (role, page), (t, outcome) := Holder(s, base), Free(s, ptr);
            && outcome != NotInSlabPage
            && (outcome == DoubleFree <==> i in page.free)
            && (i in page.free ==> i < max)
            && (outcome == AssertFails <==> i >= max && TailAborts(s.layout, role, page))
            && (i < max || outcome != Done ==> Inv(t))
            && (i >= max && outcome == Done ==> !Inv(GiveBack(s, base, i).0))
  {
    var base, i := s.layout.Base(ptr), s.layout.Index(ptr);
    FindInBases(s.full, base);
    FindInBases(s.partial, base);
    FindInBases(s.empty, base);
    var f, p, e := Find(s.full, base), Find(s.partial, base), Find(s.empty, base);
    if i < s.layout.maxelems { FreeCorrect(s, ptr); }
    if f < |s.full| {
      FullPanics(s, f, i);
    } else if p < |s.partial| {
      PartialPanics(s, p, i);
    } else {
      GiveBackAtEmpty(s, e, i);
    }
  }

  lemma FullPanics(s: Slab, k: nat, i: nat)
    requires Inv(s) && k < |s.full|
    ensures var page := s.full[k]; var (t, outcome) := GiveBack(s, page.base, i);
            && outcome != AssertFails && outcome != NotInSlabPage && (outcome == DoubleFree <==> i in page.free)
            && (i in page.free ==> i < s.layout.maxelems) && !TailAborts(s.layout, Full, page)
            && (i >= s.layout.maxelems && outcome == Done ==> !Inv(t))
  {
    var page := s.full[k];
    MaxElemsFits(s.layout);
    GiveBackAtFull(s, k, i);
    assert Fits(s.layout, Full, page);
    if i >= s.layout.maxelems {
      var t := AfterFull(s, k, i);
      assert !PageOk(s.layout, t.partial[|s.partial|]);
    }
  }

  lemma PartialPanics(s: Slab, k: nat, i: nat)
    requires Inv(s) && k < |s.partial|
    ensures var page := s.partial[k]; var (t, outcome) := GiveBack(s, page.base, i);
            && outcome != NotInSlabPage && (outcome == DoubleFree <==> i in page.free)
            && (i in page.free ==> i < s.layout.maxelems)
            && (i >= s.layout.maxelems ==> (outcome == AssertFails <==> TailAborts(s.layout, Partial, page)))
            && (i < s.layout.maxelems ==> outcome != AssertFails)
            && (i >= s.layout.maxelems && outcome == Done ==> !Inv(t))
  {
    hide GiveBack, Inv, AfterPartial, AllBack;
    PartialOk(s, k);
    GiveBackAtPartial(s, k, i);
    if i >= s.layout.maxelems {
      BackOutside(s.partial[k], i, s.layout.maxelems);
      PartialTailBreaks(s, k, i);
    }
  }

  lemma PartialOk(s: Slab, k: nat)
    requires Inv(s) && k < |s.partial|
    ensures s.partial[k].free <= Indices(s.layout.maxelems) && 0 <= s.partial[k].numelems && s.layout.maxelems >= 1
    ensures s.partial[k].numelems < s.layout.maxelems
  {
    MaxElemsFits(s.layout);
    assert Fits(s.layout, Partial, s.partial[k]);
    CounterBounds(s.layout, s.partial[k]);
  }

  lemma PartialTailBreaks(s: Slab, k: nat, i: nat)
    requires k < |s.partial| && i >= s.layout.maxelems
    ensures !Inv(AfterPartial(s, k, i))
  {
    var t := AfterPartial(s, k, i);
    if s.partial[k].numelems == 1 {
      assert !PageOk(s.layout, t.empty[|s.empty|]);
    } else {
      assert !PageOk(s.layout, t.partial[k]);
    }
  }

  /** An index behind the last slot adds nothing to the slots that are free. */
  lemma BackOutside(page: Page, i: nat, max: nat)
    requires page.free <= Indices(max) && i >= max
    ensures Used(page, max) >= 0 && (AllBack(page, i, max) <==> Used(page, max) == 0)
  {
    IndicesSize(max);
    SubsetSize(page.free, Indices(max));
    if AllBack(page, i, max) {
      assert page.free == Indices(max);
    } else {
      if |page.free| == max { SubsetFull(page.free, Indices(max)); }
    }
  }

  /** A subset as large as the set is the set. */
  lemma SubsetFull(a: set<nat>, b: set<nat>)
    requires a <= b && |a| == |b|
    ensures a == b
  {
    assert |b - a| == |b| - |a|;
  }
}
