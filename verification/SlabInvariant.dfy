/** Every operation keeps the page state machine, and changes the set of live pointers by exactly
    what it promises. */
module SlabInvariant {
  import opened SlabLayout
  import opened SlabModel
  import SlabBitmap

  // ---- sets of indices ----

  lemma {:induction false} IndicesSize(n: nat)
    ensures |Indices(n)| == n
  {
    if n > 0 { IndicesSize(n - 1); }
  }

  lemma SubsetSize(a: set<nat>, b: set<nat>)
    requires a <= b
    ensures |a| <= |b| && (|a| == |b| ==> a == b)
  {
    assert b == a + (b - a);
  }

  /** A page whose counter is below the maximum has a free slot. */
  lemma SomeFree(p: Page, max: nat, bits: nat)
    requires p.free <= Indices(max) && Used(p, max) < max <= bits
    ensures SlabBitmap.Least(p.free, 0, bits) in p.free
  {
    if p.free == {} { IndicesSize(max); }
    var i :| i in p.free;
    assert i in Indices(max);
  }

  // ---- lists of pages ----

  predicate AllOk(l: Layout, ps: seq<Page>) {
    forall k :: 0 <= k < |ps| ==> PageOk(l, ps[k])
  }

  lemma AllFitOk(l: Layout, role: Role, ps: seq<Page>)
    requires AllFit(l, role, ps)
    ensures AllOk(l, ps)
  {}

  lemma AllFitAppend(l: Layout, role: Role, ps: seq<Page>, p: Page)
    requires AllFit(l, role, ps) && Fits(l, role, p)
    ensures AllFit(l, role, ps + [p])
  {}

  lemma AllFitWithout(l: Layout, role: Role, ps: seq<Page>, k: nat)
    requires k < |ps| && AllFit(l, role, ps)
    ensures AllFit(l, role, Without(ps, k))
  {
    var qs := Without(ps, k);
    forall j | 0 <= j < |qs| ensures Fits(l, role, qs[j]) {
      assert qs[j] == ps[if j < k then j else j + 1];
    }
  }

  lemma AllFitUpdate(l: Layout, role: Role, ps: seq<Page>, k: nat, p: Page)
    requires k < |ps| && AllFit(l, role, Without(ps, k)) && Fits(l, role, p)
    ensures AllFit(l, role, ps[k := p])
  {
    var qs := Without(ps, k);
    forall j | 0 <= j < |ps| && j != k ensures Fits(l, role, ps[j]) {
      assert ps[j] == qs[if j < k then j else j - 1];
    }
  }

  lemma {:induction false} BasesConcat(a: seq<Page>, b: seq<Page>)
    ensures Bases(a + b) == Bases(a) + Bases(b)
    ensures Distinct(a + b) <==> Distinct(a) && Distinct(b) && Bases(a) !! Bases(b)
  {
    if a == [] {
      assert a + b == b;
    } else {
      assert (a + b)[1..] == a[1..] + b;
      BasesConcat(a[1..], b);
    }
  }

  lemma BasesOne(p: Page)
    ensures Bases([p]) == {p.base} && Distinct([p])
  {
    assert [p][1..] == [];
  }

  lemma BasesAppend(ps: seq<Page>, p: Page)
    ensures Bases(ps + [p]) == Bases(ps) + {p.base}
    ensures Distinct(ps) && p.base !in Bases(ps) ==> Distinct(ps + [p])
  {
    BasesConcat(ps, [p]);
    BasesOne(p);
  }

  lemma BasesAround(a: seq<Page>, p: Page, b: seq<Page>)
    ensures Bases(a + ([p] + b)) == Bases(a + b) + {p.base}
    ensures Distinct(a + ([p] + b)) <==> Distinct(a + b) && p.base !in Bases(a + b)
  {
    BasesConcat(a, b);
    BasesConcat(a, [p] + b);
    BasesConcat([p], b);
    BasesOne(p);
  }

  lemma BasesWithout(ps: seq<Page>, k: nat)
    requires k < |ps| && Distinct(ps)
    ensures Distinct(Without(ps, k))
    ensures ps[k].base !in Bases(Without(ps, k))
    ensures Bases(ps) == Bases(Without(ps, k)) + {ps[k].base}
  {
    Around(ps, k);
    BasesAround(ps[..k], ps[k], ps[k + 1..]);
  }

  lemma Around(ps: seq<Page>, k: nat)
    requires k < |ps|
    ensures ps == ps[..k] + ([ps[k]] + ps[k + 1..])
  {}

  lemma BasesPick(ps: seq<Page>, k: nat)
    requires k < |ps|
    ensures Bases(ps) == Bases(Without(ps, k)) + {ps[k].base}
  {
    Around(ps, k);
    BasesAround(ps[..k], ps[k], ps[k + 1..]);
  }

  lemma BasesUpdate(ps: seq<Page>, k: nat, p: Page)
    requires k < |ps| && p.base == ps[k].base
    ensures Bases(ps[k := p]) == Bases(ps)
    ensures Distinct(ps) ==> Distinct(ps[k := p])
  {
    var a, q, b := ps[..k], ps[k], ps[k + 1..];
    assert ps == a + ([q] + b) && ps[k := p] == a + ([p] + b);
    BasesAround(a, q, b);
    BasesAround(a, p, b);
  }

  lemma {:induction false} FindInBases(ps: seq<Page>, base: nat)
    ensures base in Bases(ps) <==> Find(ps, base) < |ps|
  {
    if ps != [] { FindInBases(ps[1..], base); }
  }

  lemma {:induction false} LiveConcat(l: Layout, a: seq<Page>, b: seq<Page>)
    ensures LiveIn(l, a + b) == LiveIn(l, a) + LiveIn(l, b)
  {
    if a == [] {
      assert a + b == b;
    } else {
      assert (a + b)[1..] == a[1..] + b;
      LiveConcat(l, a[1..], b);
    }
  }

  lemma LiveOne(l: Layout, p: Page)
    ensures LiveIn(l, [p]) == LivePage(l, p)
  {
    assert [p][1..] == [];
  }

  lemma LiveAppend(l: Layout, ps: seq<Page>, p: Page)
    ensures LiveIn(l, ps + [p]) == LiveIn(l, ps) + LivePage(l, p)
  {
    LiveConcat(l, ps, [p]);
    LiveOne(l, p);
  }

  lemma LiveUpdate(l: Layout, ps: seq<Page>, k: nat, p: Page)
    requires k < |ps|
    ensures LiveIn(l, ps[k := p]) == LiveIn(l, Without(ps, k)) + LivePage(l, p)
  {
    assert ps[k := p] == ps[..k] + ([p] + ps[k + 1..]);
    LiveConcat(l, ps[..k], [p] + ps[k + 1..]);
    LiveConcat(l, [p], ps[k + 1..]);
    LiveOne(l, p);
    LiveConcat(l, ps[..k], ps[k + 1..]);
  }

  lemma LiveWithout(l: Layout, ps: seq<Page>, k: nat)
    requires k < |ps|
    ensures LiveIn(l, ps) == LiveIn(l, Without(ps, k)) + LivePage(l, ps[k])
  {
    LiveUpdate(l, ps, k, ps[k]);
    assert ps[k := ps[k]] == ps;
  }

  /** A live pointer of a page leads back to that page and to a slot in use. */
  lemma LivePageMember(l: Layout, p: Page, a: nat)
    requires l.Accepted() && PageOk(l, p)
    ensures a in LivePage(l, p) <==>
            l.IsSlot(a) && l.Base(a) == p.base && l.Index(a) !in p.free
  {
    if a in LivePage(l, p) {
      var i :| i in Indices(l.maxelems) && i !in p.free && a == l.Slot(p.base, i);
      SlotStart(l, p.base, i);
    }
    assert l.Index(a) < l.maxelems ==> l.Index(a) in Indices(l.maxelems);
  }

  lemma {:induction false} LiveInMember(l: Layout, ps: seq<Page>, a: nat)
    requires l.Accepted() && AllOk(l, ps)
    ensures a in LiveIn(l, ps) ==> l.IsSlot(a) && l.Base(a) in Bases(ps)
  {
    if ps != [] {
      LivePageMember(l, ps[0], a);
      LiveInMember(l, ps[1..], a);
    }
  }

  lemma LivePageTake(l: Layout, p: Page, i: nat, n: int)
    requires l.Accepted() && PageOk(l, p) && i in p.free
    ensures LivePage(l, Page(p.base, p.free - {i}, n)) == LivePage(l, p) + {l.Slot(p.base, i)}
    ensures l.Slot(p.base, i) !in LivePage(l, p)
    ensures l.Slot(p.base, i) > 0
  {
    var q := Page(p.base, p.free - {i}, n);
    SlotStart(l, p.base, i);
    LivePageMember(l, p, l.Slot(p.base, i));
    forall a ensures a in LivePage(l, q) <==> a in LivePage(l, p) || a == l.Slot(p.base, i) {
      LivePageMember(l, p, a);
      LivePageMember(l, q, a);
    }
    SlotRoundTrip(l, p.base, i, 0);
  }

  lemma LivePageGive(l: Layout, p: Page, i: nat, n: int)
    requires l.Accepted() && PageOk(l, p) && i !in p.free && i < l.maxelems
    ensures LivePage(l, Page(p.base, p.free + {i}, n)) == LivePage(l, p) - {l.Slot(p.base, i)}
  {
    var q := Page(p.base, p.free + {i}, n);
    assert PageOk(l, q);
    LivePageTake(l, q, i, p.numelems);
    assert q.free - {i} == p.free;
    LivePageSame(l, p, Page(p.base, q.free - {i}, p.numelems));
  }

  lemma LivePageSame(l: Layout, p: Page, q: Page)
    requires p.base == q.base && p.free == q.free
    ensures LivePage(l, p) == LivePage(l, q)
  {}

  lemma LivePageEmpty(l: Layout, p: Page)
    requires p.free == Indices(l.maxelems)
    ensures LivePage(l, p) == {}
  {}

  lemma {:induction false} LiveInEmpty(l: Layout, ps: seq<Page>)
    requires AllFit(l, Empty, ps)
    ensures LiveIn(l, ps) == {}
  {
    if ps != [] {
      LivePageEmpty(l, ps[0]);
      LiveInEmpty(l, ps[1..]);
    }
  }

  lemma {:induction false} BasesMember(ps: seq<Page>, k: nat)
    requires k < |ps|
    ensures ps[k].base in Bases(ps)
  {
    if k > 0 { BasesMember(ps[1..], k - 1); }
  }

  lemma {:induction false} FindAt(ps: seq<Page>, k: nat)
    requires k < |ps| && Distinct(ps)
    ensures Find(ps, ps[k].base) == k
  {
    if k > 0 {
      BasesMember(ps[1..], k - 1);
      FindAt(ps[1..], k - 1);
    }
  }
}
