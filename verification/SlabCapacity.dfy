/** After a reset the allocator can hand out every slot of every page it holds, in order, without
    asking for another page. */
module SlabCapacity {
  import opened Arithmetic
  import opened Wrappers
  import opened SlabLayout
  import opened SlabModel
  import opened SlabSteps
  import SlabBitmap

  /** The state once the first q pages of `ps` are handed out whole and the next one up to slot r. */
  function Filled(s: Slab, ps: seq<Page>, q: nat, r: nat): Slab
    requires q <= |ps| && (r > 0 ==> q < |ps|)
  {
    var m := s.layout.maxelems;
    s.(empty := if r > 0 then ps[q + 1..] else ps[q..],
       partial := if r > 0 then [Page(ps[q].base, Indices(m) - Indices(r), r)] else [],
       full := seq(q, k requires 0 <= k < q => Page(ps[k].base, {}, m)))
  }

  function NextPage(m: nat, q: nat, r: nat): nat {
    if r + 1 == m then q + 1 else q
  }

  function NextSlot(m: nat, q: nat, r: nat): nat {
    if r + 1 == m then 0 else r + 1
  }

  lemma LeastOfRest(r: nat, m: nat, n: nat)
    requires r < m <= n
    ensures SlabBitmap.Least(Indices(m) - Indices(r), 0, n) == r
  {
    var s := Indices(m) - Indices(r);
    assert r in s;
  }

  /** The page being filled, as slab_alloc finds it at the head of the partial list. */
  lemma ProvideFilled(s: Slab, ps: seq<Page>, q: nat, r: nat, offer: Option<nat>)
    requires q < |ps| && r < s.layout.maxelems && AllFit(s.layout, Empty, ps)
    ensures var t := Provide(Filled(s, ps, q, r), offer);
            var m := s.layout.maxelems;
            t.partial == [Page(ps[q].base, Indices(m) - Indices(r), r)] &&
            t == Filled(s, ps, q, r).(empty := ps[q + 1..], partial := t.partial)
  {
    assert Fits(s.layout, Empty, ps[q]);
    if r == 0 {
      assert ps[q..][0] == ps[q] && ps[q..][1..] == ps[q + 1..];
      assert Indices(s.layout.maxelems) - Indices(0) == Indices(s.layout.maxelems);
      assert Filled(s, ps, q, 0).partial + [ps[q]] == [ps[q]];
    }
  }

  lemma AllocFilled(s: Slab, ps: seq<Page>, q: nat, r: nat, offer: Option<nat>)
    requires q < |ps| && r < s.layout.maxelems <= s.layout.Bits() && AllFit(s.layout, Empty, ps)
    ensures var m := s.layout.maxelems;
            Alloc(Filled(s, ps, q, r), offer) ==
            (Filled(s, ps, NextPage(m, q, r), NextSlot(m, q, r)), s.layout.Slot(ps[q].base, r))
  {
    var m := s.layout.maxelems;
    var page := Page(ps[q].base, Indices(m) - Indices(r), r);
    var t := Provide(Filled(s, ps, q, r), offer);
    ProvideFilled(s, ps, q, r, offer);
    LeastOfRest(r, m, s.layout.Bits());
    TakeFilled(s, ps, q, r, t);
  }

  lemma TakeFilled(s: Slab, ps: seq<Page>, q: nat, r: nat, t: Slab)
    requires q < |ps| && r < s.layout.maxelems <= s.layout.Bits()
    requires var m := s.layout.maxelems;
             t.partial == [Page(ps[q].base, Indices(m) - Indices(r), r)] &&
             t == Filled(s, ps, q, r).(empty := ps[q + 1..], partial := t.partial)
    ensures Take(t) == Filled(s, ps, NextPage(s.layout.maxelems, q, r), NextSlot(s.layout.maxelems, q, r))
  {
    var m := s.layout.maxelems;
    LeastOfRest(r, m, s.layout.Bits());
    var page' := Taken(t.layout, t.partial[0]);
    assert page'.free == Indices(m) - Indices(r + 1);
    if r + 1 == m {
      assert page' == Page(ps[q].base, {}, m);
      assert Filled(s, ps, q + 1, 0).full == t.full + [page'];
      assert Without(t.partial, 0) == [];
    } else {
      assert t.partial[0 := page'] == [page'];
    }
  }

  /** At least `n` slots are left from slot r of page q on, with `len` pages of `m` slots. */
  predicate Enough(len: nat, q: nat, r: nat, n: nat, m: nat) {
    r < m && n + r <= (len - q) * m
  }

  /** There are just `n`. */
  predicate Remaining(len: nat, q: nat, r: nat, n: nat, m: nat) {
    r < m && n + r == (len - q) * m
  }

  /** The slots from position (q, r) on, `n` of them. */
  function SlotsFrom(l: Layout, ps: seq<Page>, q: nat, r: nat, n: nat): (slots: seq<nat>)
    requires Enough(|ps|, q, r, n, l.maxelems)
    ensures |slots| == n
    decreases n
  {
    if n == 0 then [] else
    EnoughDrops(|ps|, q, r, n, l.maxelems);
    [l.Slot(ps[q].base, r)] + SlotsFrom(l, ps, NextPage(l.maxelems, q, r), NextSlot(l.maxelems, q, r), n - 1)
  }

  lemma EnoughDrops(len: nat, q: nat, r: nat, n: nat, m: nat)
    requires Enough(len, q, r, n, m) && 0 < n
    ensures q < len && Enough(len, NextPage(m, q, r), NextSlot(m, q, r), n - 1, m)
  {
    if q >= len { MulNonPositive(len - q, m); }
    Distribute(m, len - q, 1);
  }

  lemma RemainingDrops(len: nat, q: nat, r: nat, n: nat, m: nat)
    requires Remaining(len, q, r, n, m) && q <= len
    ensures Enough(len, q, r, n, m) && (n == 0 ==> q == len && r == 0)
    ensures var q', r' := NextPage(m, q, r), NextSlot(m, q, r);
            n > 0 ==> q < len && q' <= len && (r' > 0 ==> q' < len) && Remaining(len, q', r', n - 1, m)
  {
    if n > 0 {
      EnoughDrops(len, q, r, n, m);
      Distribute(m, len - q, 1);
    } else if q < len {
      MulGrows(m, len - q);
    }
  }

  function AllocAll(offers: seq<Option<nat>>): seq<Op> {
    seq(|offers|, k requires 0 <= k < |offers| => OpAlloc(offers[k]))
  }

  lemma RunAllocAll(s: Slab, offers: seq<Option<nat>>)
    requires s.layout.elemsz > 0 && offers != []
    ensures var (t, ptr) := Alloc(s, offers[0]);
            t.layout == s.layout &&
            Results(s, AllocAll(offers)) == [ptr] + Results(t, AllocAll(offers[1..])) &&
            Run(s, AllocAll(offers)) == Run(t, AllocAll(offers[1..]))
  {
    var ops := AllocAll(offers);
    assert ops[0] == OpAlloc(offers[0]);
    assert ops[1..] == AllocAll(offers[1..]);
    assert Step(s, ops[0]) == Alloc(s, offers[0]);
  }

  lemma {:induction false} RunFilled(s: Slab, ps: seq<Page>, q: nat, r: nat, offers: seq<Option<nat>>)
    requires s.layout.elemsz > 0 && s.layout.maxelems <= s.layout.Bits() && AllFit(s.layout, Empty, ps)
    requires q <= |ps| && (r > 0 ==> q < |ps|) && Remaining(|ps|, q, r, |offers|, s.layout.maxelems)
    ensures Enough(|ps|, q, r, |offers|, s.layout.maxelems)
    ensures Results(Filled(s, ps, q, r), AllocAll(offers)) == SlotsFrom(s.layout, ps, q, r, |offers|)
    ensures Run(Filled(s, ps, q, r), AllocAll(offers)) == Filled(s, ps, |ps|, 0)
    decreases |offers|
  {
    hide Remaining, AllFit, Alloc;
    var m := s.layout.maxelems;
    RemainingDrops(|ps|, q, r, |offers|, m);
    if offers == [] {
      assert AllocAll(offers) == [];
    } else {
      assert r < m;
      AllocFilled(s, ps, q, r, offers[0]);
      RunAllocAll(Filled(s, ps, q, r), offers);
      RunFilled(s, ps, NextPage(m, q, r), NextSlot(m, q, r), offers[1..]);
    }
  }

  /** In closed form: counting from the start of page q, the slot at distance p * m + i is slot i of
      page q + p. */
  lemma {:induction false} SlotsInOrder(l: Layout, ps: seq<Page>, q: nat, r: nat, n: nat, k: nat, p: nat, i: nat)
    requires Enough(|ps|, q, r, n, l.maxelems) && k < n
    requires r + k == p * l.maxelems + i && i < l.maxelems
    ensures q + p < |ps| && SlotsFrom(l, ps, q, r, n)[k] == l.Slot(ps[q + p].base, i)
    decreases n
  {
    var m := l.maxelems;
    EnoughDrops(|ps|, q, r, n, m);
    if k == 0 {
      QuotientUnique(m, 0, r, p, i);
    } else if r + 1 == m {
      if p > 0 { Distribute(m, p, 1); }
      SlotsInOrder(l, ps, q + 1, 0, n - 1, k - 1, p - 1, i);
    } else {
      SlotsInOrder(l, ps, q, r + 1, n - 1, k - 1, p, i);
    }
  }

  function PageCount(s: Slab): nat {
    |s.empty| + |s.partial| + |s.full|
  }

  /** slab_reset, then as many allocations as the pages have slots: whatever the page allocator would
      say, it is not asked, and all pages end up full. */
  lemma ResetThenFill(s: Slab, offers: seq<Option<nat>>)
    requires Inv(s) && |offers| == PageCount(s) * s.layout.maxelems
    ensures var end := Run(Reset(s), AllocAll(offers));
            end.trace == s.trace && end.empty == [] && end.partial == [] && |end.full| == PageCount(s)
    ensures Enough(PageCount(s), 0, 0, |offers|, s.layout.maxelems) && |Reset(s).empty| == PageCount(s)
    ensures Results(Reset(s), AllocAll(offers)) == SlotsFrom(s.layout, Reset(s).empty, 0, 0, |offers|)
  {
    var t := Reset(s);
    MaxElemsFits(s.layout);
    ResetCorrect(s);
    assert Filled(t, t.empty, 0, 0) == t;
    RunFilled(t, t.empty, 0, 0, offers);
  }

  /** ... and the slots come back page by page in list order, each page in ascending order: the
      allocation number p * maxelems + i returns slot i of page p. */
  lemma CapacityAfterReset(s: Slab, offers: seq<Option<nat>>, p: nat, i: nat)
    requires Inv(s) && |offers| == PageCount(s) * s.layout.maxelems
    requires p < PageCount(s) && i < s.layout.maxelems
    ensures var k := p * s.layout.maxelems + i;
            0 <= k < |offers| && |Reset(s).empty| == PageCount(s) &&
            Results(Reset(s), AllocAll(offers))[k] == s.layout.Slot(Reset(s).empty[p].base, i)
  {
    var m := s.layout.maxelems;
    ProductBelow(p, PageCount(s), m);
    ResetThenFill(s, offers);
    SlotsInOrder(s.layout, Reset(s).empty, 0, 0, |offers|, p * m + i, p, i);
  }
}
