/** The allocator itself: pages linked in place into three lists, bitmaps and counters updated in their
    footers. Every public operation is proved to be the corresponding step of SlabModel. */
module SlabAllocator {
  import opened Words
  import opened Wrappers
  import opened SlabLayout
  import opened SlabBitmap
  import opened SlabList
  import opened M = SlabModel
  import SlabInvariant
  import SlabSteps

  /** Each footer in this piece of memory is one of these, at the page base it is found at. */
  predicate MapOk(l: Layout, memory: map<nat, Footer>, nodes: set<Footer>) {
    forall b :: b in memory ==> l.Base(memory[b].address) == b && memory[b] in nodes
  }

  lemma MapExtend(l: Layout, memory: map<nat, Footer>, nodes: set<Footer>, footer: Footer)
    requires MapOk(l, memory, nodes)
    ensures MapOk(l, memory[l.Base(footer.address) := footer], nodes + {footer})
  {}

  lemma MapShrink(l: Layout, memory: map<nat, Footer>, nodes: set<Footer>, footer: Footer)
    requires MapOk(l, memory, nodes)
    ensures MapOk(l, memory - {l.Base(footer.address)}, nodes - {footer})
  {}

  class Slab {
    const layout: Layout
    const empty: List
    const partial: List
    const full: List
    /** What SLAB_GET_FOOTER finds at a page base. */
    var memory: map<nat, Footer>
    /** The model state, with the trace of calls to the page allocator, constructor and destructor. */
    ghost var state: M.Slab
    ghost var repr: set<object>

    ghost function Nodes(): set<Footer>
      reads empty, partial, full
    {
      Members(empty) + Members(partial) + Members(full)
    }

    /** The lists represent the model state; `repr` covers every object they are made of. */
    ghost predicate Linked()
      reads this, repr
    {
      && this in repr && empty in repr && partial in repr && full in repr
      && empty.head in repr && partial.head in repr && full.head in repr && Nodes() <= repr
      && layout.Accepted() && state.layout == layout
      && Three(empty, partial, full) && empty.layout == partial.layout == full.layout == layout
      && state.empty == empty.pages && state.partial == partial.pages && state.full == full.pages
    }

    /** Memory holds a footer at exactly the bases of the pages on the lists. */
    ghost predicate Mapped()
      reads this, empty, partial, full
    {
      memory.Keys == AllBases(state) && MapOk(layout, memory, Nodes())
    }

    /** What holds even after a pointer behind the last slot of a page was freed. */
    ghost predicate Connected()
      reads this, repr
    {
      Linked() && Mapped() && Apart(state)
    }

    ghost predicate Valid()
      reads this, repr
    {
      Connected() && Inv(state)
    }

    /** slab_create, for a request CreateLayout accepts. */
    constructor (layout: Layout)
      requires layout.Accepted()
      ensures Valid() && fresh(repr)
      ensures state == M.Create(layout)
    {
      hide FreeSet, AvailWords, Layout.Base, Layout.Accepted, Inv, Apart, MapOk, AllBases;
      var e := new List(layout);
      var p := new List(layout);
      var f := new List(layout);
      this.layout, empty, partial, full := layout, e, p, f;
      memory := map[];
      state := M.Create(layout);
      repr := {this, e, e.head, p, p.head, f, f.head};
      new;
      Created();
    }

    lemma Created()
      requires layout.Accepted() && memory == map[] && state == M.Create(layout)
      requires empty.pages == partial.pages == full.pages == [] && empty.nodes == partial.nodes == full.nodes == []
      requires Three(empty, partial, full) && empty.layout == partial.layout == full.layout == layout
      requires repr == {this, empty, empty.head, partial, partial.head, full, full.head}
      ensures Valid()
    {
      hide FreeSet, AvailWords, Layout.Base, Layout.Accepted;
      SlabSteps.CreateInv(layout);
    }

    lemma NothingFree(avail: seq<bv32>)
      requires forall w :: 0 <= w < |avail| ==> avail[w] == 0
      ensures FreeSet(avail) == Indices(0)
    {}

    /** A call to the outside world. */
    ghost method Note(e: Event)
      modifies this`state
      ensures state == old(state).(trace := old(state).trace + [e])
    {
      state := state.(trace := state.trace + [e]);
    }

    /** The footer of a new page: cleared, then signed. */
    method NewFooter(base: nat) returns (footer: Footer)
      requires layout.Accepted() && layout.Base(base) == base
      ensures fresh(footer) && footer.Shows(layout, Page(base, Indices(0), 0)) && footer.home == null
    {
      NodeBase(layout, base);
      footer := new Footer(layout.NodeAddress(base));
      footer.avail := seq(AvailWords(layout.PageSize()), _ => 0);
      footer.signature := SIGNATURE;
      NothingFree(footer.avail);
    }

    /** Construct every slot of a new page and mark it free. */
    method ConstructAll(footer: Footer, base: nat)
      requires layout.Accepted() && footer.Shows(layout, Page(base, Indices(0), 0))
      modifies this`state, footer`avail
      ensures footer.Shows(layout, Page(base, Indices(layout.maxelems), 0))
      ensures state == old(state).(trace := old(state).trace + Constructions(layout, base, layout.maxelems))
    {
      hide FreeSet, AvailWords, Layout.Base, Layout.Accepted, SetBit;
      MaxElemsFits(layout);
      var i := 0;
      while i < layout.maxelems
        invariant 0 <= i <= layout.maxelems
        invariant footer.Shows(layout, Page(base, Indices(i), 0))
        invariant state == old(state).(trace := old(state).trace + Constructions(layout, base, i))
      {
        Note(Constructed(layout.Slot(base, i)));
        SetBitInserts(footer.avail, i);
        footer.avail := SetBit(footer.avail, i);
        i := i + 1;
      }
    }

    method Prepare(base: nat) returns (footer: Footer)
      requires layout.Accepted() && layout.Base(base) == base
      modifies this`state
      ensures fresh(footer) && footer.Shows(layout, Page(base, Indices(layout.maxelems), 0)) && footer.home == null
      ensures state == old(state).(trace := old(state).trace + Grown(layout, base))
    {
      hide FreeSet, AvailWords, Layout.Base, Layout.Accepted, Constructions, Indices;
      Note(PageTaken(base));
      footer := NewFooter(base);
      ConstructAll(footer, base);
      assert state.trace == old(state).trace + Grown(layout, base);
    }

    /** Put a prepared page on the empty list. */
    method Attach(footer: Footer, ghost page: Page)
      requires Linked() && footer.home == null && footer.Shows(layout, page)
      modifies repr, footer
      ensures state == old(state).(empty := old(state).empty + [page])
      ensures Linked() && Nodes() == old(Nodes()) + {footer} && repr == old(repr) + {footer} && memory == old(memory)
    {
      hide FreeSet, AvailWords, Layout.Base, Layout.Accepted;
      state := state.(empty := state.empty + [page]);
      repr := repr + {footer};
      AppendPage(empty, partial, full, footer, page);
    }

    method AddPage(base: nat) returns (footer: Footer)
      requires Linked() && layout.IsPageBase(base)
      modifies repr
      ensures Linked() && fresh(footer) && layout.Base(footer.address) == base
      ensures Nodes() == old(Nodes()) + {footer} && repr == old(repr) + {footer} && memory == old(memory)
      ensures state == M.Grow(old(state), base)
    {
      footer := Prepare(base);
      Attach(footer, Page(base, Indices(layout.maxelems), 0));
    }

    /** slab_grow. `offer` is the page allocator's answer: None for NULL, otherwise the base of a page
        that is not in use. */
    method Grow(offer: Option<nat>) returns (ok: bool)
      requires Linked() && Mapped()
      requires offer.Some? ==> layout.IsPageBase(offer.value)
      modifies repr
      ensures Linked() && Mapped() && fresh(repr - old(repr))
      ensures ok <==> offer.Some?
      ensures state == if ok then M.Grow(old(state), offer.value) else old(state)
    {
      hide AllBases, MapOk;
      if offer.None? {
        return false;
      }
      var base := offer.value;
      SlabSteps.GrowBases(state, base);
      ghost var nodes := Nodes();
      var footer := AddPage(base);
      memory := memory[base := footer];
      MapExtend(layout, old(memory), nodes, footer);
      return true;
    }

    // One change each: a page moves to another list, or its bitmap and counter are stored.

    method EmptyToPartial()
      requires Linked() && state.empty != []
      modifies repr
      ensures Linked() && Nodes() == old(Nodes()) && repr == old(repr) && memory == old(memory)
      ensures state == M.Promote(old(state))
    {
      assert M.Without(state.empty, 0) == state.empty[1..];
      state := M.Promote(state);
      MoveFirst(empty, partial, full);
    }

    method PartialToFull(node: Footer, ghost k: nat)
      requires Linked() && k < |partial.nodes| && partial.nodes[k] == node
      modifies repr
      ensures Linked() && Nodes() == old(Nodes()) && repr == old(repr) && memory == old(memory)
      ensures state == old(state).(partial := M.Without(old(state).partial, k),
                                   full := old(state).full + [old(state).partial[k]])
    {
      state := state.(partial := M.Without(state.partial, k), full := state.full + [state.partial[k]]);
      MovePage(partial, full, empty, node, k);
    }

    method FullToPartial(node: Footer, ghost k: nat)
      requires Linked() && k < |full.nodes| && full.nodes[k] == node
      modifies repr
      ensures Linked() && Nodes() == old(Nodes()) && repr == old(repr) && memory == old(memory)
      ensures state == old(state).(full := M.Without(old(state).full, k),
                                   partial := old(state).partial + [old(state).full[k]])
    {
      state := state.(full := M.Without(state.full, k), partial := state.partial + [state.full[k]]);
      MovePage(full, partial, empty, node, k);
    }

    method PartialToEmpty(node: Footer, ghost k: nat)
      requires Linked() && k < |partial.nodes| && partial.nodes[k] == node
      modifies repr
      ensures Linked() && Nodes() == old(Nodes()) && repr == old(repr) && memory == old(memory)
      ensures state == old(state).(partial := M.Without(old(state).partial, k),
                                   empty := old(state).empty + [old(state).partial[k]])
    {
      state := state.(partial := M.Without(state.partial, k), empty := state.empty + [state.partial[k]]);
      MovePage(partial, empty, full, node, k);
    }

    method StorePartial(node: Footer, avail: seq<bv32>, numelems: int, ghost k: nat, ghost page: Page)
      requires Linked() && k < |partial.nodes| && partial.nodes[k] == node
      requires page.base == state.partial[k].base && page.free == FreeSet(avail) && page.numelems == numelems
      requires |avail| == AvailWords(layout.PageSize())
      modifies repr
      ensures Linked() && Nodes() == old(Nodes()) && repr == old(repr) && memory == old(memory)
      ensures partial.nodes == old(partial.nodes)
      ensures state == old(state).(partial := old(state).partial[k := page])
    {
      state := state.(partial := state.partial[k := page]);
      StorePage(partial, empty, full, node, avail, numelems, k, page);
    }

    method StoreFull(node: Footer, avail: seq<bv32>, numelems: int, ghost k: nat, ghost page: Page)
      requires Linked() && k < |full.nodes| && full.nodes[k] == node
      requires page.base == state.full[k].base && page.free == FreeSet(avail) && page.numelems == numelems
      requires |avail| == AvailWords(layout.PageSize())
      modifies repr
      ensures Linked() && Nodes() == old(Nodes()) && repr == old(repr) && memory == old(memory)
      ensures full.nodes == old(full.nodes)
      ensures state == old(state).(full := old(state).full[k := page])
    {
      state := state.(full := state.full[k := page]);
      StorePage(full, empty, partial, node, avail, numelems, k, page);
    }

    /** The first half of slab_alloc: see that the partial list has a head. */
    method MakeReady(offer: Option<nat>) returns (ok: bool)
      requires Linked() && Mapped()
      requires offer.Some? ==> layout.IsPageBase(offer.value)
      modifies repr
      ensures Linked() && Mapped() && fresh(repr - old(repr))
      ensures state == M.Provide(old(state), offer) && (ok <==> state.partial != [])
    {
      hide AllBases, MapOk;
      ok := true;
      var noPartial := partial.IsEmpty();
      if noPartial {
        ok := MakeEmpty(offer);
        if ok { PromoteFirst(); }
      }
    }

    method MakeEmpty(offer: Option<nat>) returns (ok: bool)
      requires Linked() && Mapped()
      requires offer.Some? ==> layout.IsPageBase(offer.value)
      modifies repr
      ensures Linked() && Mapped() && fresh(repr - old(repr))
      ensures ok <==> state.empty != []
      ensures state == if old(state).empty == [] && offer.Some? then M.Grow(old(state), offer.value) else old(state)
    {
      ok := true;
      var noEmpty := empty.IsEmpty();
      if noEmpty {
        ok := Grow(offer);
      }
    }

    /** empty -> partial */
    method PromoteFirst()
      requires Linked() && Mapped() && state.empty != []
      modifies repr
      ensures Linked() && Mapped() && repr == old(repr)
      ensures state == M.Promote(old(state))
    {
      hide AllBases, MapOk;
      SlabSteps.PromoteBases(state);
      EmptyToPartial();
    }

    /** The word scan finds the lowest free slot. */
    method Pick(node: Footer, ghost page: Page) returns (idx: nat)
      requires node.Shows(layout, page) && Lowest(layout, page) in page.free
      ensures idx == Lowest(layout, page) && idx < WORD_BITS * |node.avail|
    {
      var i := ScanFirstFree(node.avail);
      idx := i;
    }

    method FirstPartial() returns (node: Footer)
      requires Linked() && state.partial != []
      ensures partial.nodes != [] && node == partial.nodes[0] && node.Shows(layout, state.partial[0])
    {
      partial.First();
      node := partial.head.next;
    }

    /** Clear the chosen bit, count it, and move the page on if it is full by its counter. */
    method Claim(node: Footer, idx: nat)
      requires Linked() && partial.nodes != [] && node == partial.nodes[0] && node.Shows(layout, state.partial[0])
      requires idx == Lowest(layout, state.partial[0]) && idx < WORD_BITS * |node.avail|
      modifies repr
      ensures Linked() && Nodes() == old(Nodes()) && repr == old(repr) && memory == old(memory)
      ensures state == M.Take(old(state))
    {
      var numelems := node.numelems + 1;
      ClrBitRemoves(node.avail, idx);
      StorePartial(node, ClrBit(node.avail, idx), numelems, 0, Taken(layout, state.partial[0]));
      if numelems == layout.maxelems {
        PartialToFull(node, 0);
      }
    }

    /** The second half of slab_alloc: take the lowest free slot of the first partial page. The assertion
        on the counter holds. */
    method TakeSlot() returns (ptr: nat)
      requires Linked() && state.partial != []
      requires Lowest(layout, state.partial[0]) in state.partial[0].free && state.partial[0].numelems < layout.maxelems
      modifies repr
      ensures Linked() && Nodes() == old(Nodes()) && repr == old(repr) && memory == old(memory)
      ensures state == M.Take(old(state))
      ensures ptr == layout.Slot(old(state).partial[0].base, Lowest(layout, old(state).partial[0]))
    {
      var node := FirstPartial();
      assert node.numelems < layout.maxelems;
      var idx := Pick(node, state.partial[0]);
      ptr := layout.Slot(layout.Base(node.address), idx);
      Claim(node, idx);
    }

    /** slab_alloc */
    method Alloc(offer: Option<nat>) returns (ptr: nat)
      requires Valid() && Legal(state, OpAlloc(offer))
      modifies repr
      ensures Valid() && fresh(repr - old(repr))
      ensures (state, ptr) == M.Alloc(old(state), offer)
    {
      SlabSteps.ProvideKeeps(state, offer);
      SlabSteps.AllocCorrect(state, offer);
      var ok := MakeReady(offer);
      if !ok {
        return NULL;
      }
      SlabSteps.HeadHasRoom(state);
      SlabSteps.TakeApart(state);
      ptr := TakeSlot();
    }

    // ---- slab_free ----

    /** full -> partial: the slot's bit is set and the counter goes down. */
    method ReturnToFull(node: Footer, idx: nat, ghost k: nat)
      requires Linked() && k < |full.nodes| && full.nodes[k] == node && node.Shows(layout, state.full[k])
      requires idx < WORD_BITS * |node.avail|
      modifies repr
      ensures Linked() && Nodes() == old(Nodes()) && repr == old(repr) && memory == old(memory)
      ensures state == M.AfterFull(old(state), k, idx)
    {
      hide FreeSet, SetBit, AvailWords, Layout.Accepted, M.Without;
      SetBitInserts(node.avail, idx);
      ghost var page := state.full[k];
      M.WithoutUpdated(state.full, k, Page(page.base, page.free + {idx}, page.numelems - 1));
      StoreFull(node, SetBit(node.avail, idx), node.numelems - 1, k,
        Page(page.base, page.free + {idx}, page.numelems - 1));
      FullToPartial(node, k);
    }

    /** The counter is one: the page goes to the empty list, if the consistency check passes. */
    method ReturnLast(node: Footer, idx: nat, ghost k: nat) returns (passes: bool)
      requires Linked() && k < |partial.nodes| && partial.nodes[k] == node && node.Shows(layout, state.partial[k])
      requires idx < WORD_BITS * |node.avail| && layout.maxelems <= WORD_BITS * |node.avail| && node.numelems == 1
      modifies repr
      ensures Linked() && Nodes() == old(Nodes()) && repr == old(repr) && memory == old(memory)
      ensures passes <==> AllBack(old(state).partial[k], idx, layout.maxelems)
      ensures state == if passes then M.AfterPartial(old(state), k, idx) else old(state)
    {
      hide FreeSet, SetBit, AvailWords, Layout.Accepted;
      SetBitInserts(node.avail, idx);
      var avail := SetBit(node.avail, idx);
      passes := ConsistencyCheck(avail);
      if !passes {
        return;
      }
      ghost var page := state.partial[k];
      StorePartial(node, avail, 0, k, Page(page.base, page.free + {idx}, 0));
      PartialToEmpty(node, k);
      assert state.partial == M.Without(old(state).partial, k);
    }

    /** The consistency check: the assertion holds for every slot exactly if all are free. */
    method ConsistencyCheck(avail: seq<bv32>) returns (passes: bool)
      requires layout.maxelems <= WORD_BITS * |avail|
      ensures passes <==> Indices(layout.maxelems) <= FreeSet(avail)
    {
      var i := 0;
      while i < layout.maxelems
        invariant 0 <= i <= layout.maxelems && Indices(i) <= FreeSet(avail)
      {
        if !GetBit(avail, i) {
          assert i in Indices(layout.maxelems);
          return false;
        }
        i := i + 1;
      }
      return true;
    }

    /** Otherwise only the bit is set; the counter stays as it is. */
    method ReturnQuietly(node: Footer, idx: nat, ghost k: nat)
      requires Linked() && k < |partial.nodes| && partial.nodes[k] == node && node.Shows(layout, state.partial[k])
      requires idx < WORD_BITS * |node.avail| && node.numelems != 1
      modifies repr
      ensures Linked() && Nodes() == old(Nodes()) && repr == old(repr) && memory == old(memory)
      ensures state == M.AfterPartial(old(state), k, idx)
    {
      hide FreeSet, SetBit, AvailWords, Layout.Accepted;
      SetBitInserts(node.avail, idx);
      ghost var page := state.partial[k];
      StorePartial(node, SetBit(node.avail, idx), node.numelems, k, Page(page.base, page.free + {idx}, page.numelems));
    }

    /** Where a footer stands. */
    lemma Locate(node: Footer) returns (role: Role, k: nat)
      requires Linked() && node in Nodes()
      ensures role == Full ==> k < |full.nodes| && full.nodes[k] == node && node.Shows(layout, state.full[k])
      ensures role == Partial ==>
        k < |partial.nodes| && partial.nodes[k] == node && node.Shows(layout, state.partial[k])
      ensures role == Empty ==> k < |empty.nodes| && empty.nodes[k] == node && node.Shows(layout, state.empty[k])
    {
      if node in full.nodes {
        role := Full;
        k :| 0 <= k < |full.nodes| && full.nodes[k] == node;
      } else if node in partial.nodes {
        role := Partial;
        k :| 0 <= k < |partial.nodes| && partial.nodes[k] == node;
      } else {
        role := Empty;
        k :| 0 <= k < |empty.nodes| && empty.nodes[k] == node;
      }
    }

    /** What the counter says about where the page stands. */
    lemma CounterTells(node: Footer) returns (k: nat)
      requires Linked() && Inv(state) && node in Nodes()
      ensures node.numelems == layout.maxelems ==>
        k < |full.nodes| && full.nodes[k] == node && node.Shows(layout, state.full[k])
      ensures 0 < node.numelems < layout.maxelems ==>
        k < |partial.nodes| && partial.nodes[k] == node && node.Shows(layout, state.partial[k])
      ensures 0 <= node.numelems <= layout.maxelems
    {
      var role;
      role, k := Locate(node);
      MaxElemsFits(layout);
      match role
      case Full => assert Fits(layout, Full, state.full[k]);
      case Partial => SlabSteps.CounterBounds(layout, state.partial[k]);
      case Empty => assert Fits(layout, Empty, state.empty[k]);
    }

    /** The heart of slab_free, for an index whose bit is clear. */
    method ReturnSlot(node: Footer, idx: nat) returns (outcome: FreeOutcome)
      requires Linked() && Inv(state) && node in Nodes() && idx !in FreeSet(node.avail)
      requires idx < WORD_BITS * |node.avail| && layout.maxelems <= WORD_BITS * |node.avail|
      modifies repr
      ensures Linked() && Nodes() == old(Nodes()) && repr == old(repr) && memory == old(memory)
      ensures (state, outcome) == M.GiveBack(old(state), layout.Base(node.address), idx)
    {
      ghost var k := CounterTells(node);
      if node.numelems <= 0 {
        NoCounter(node, idx);
        return AssertFails;
      }
      outcome := Done;
      if node.numelems == layout.maxelems {
        SlabSteps.GiveBackAtFull(state, k, idx);
        ReturnToFull(node, idx, k);
      } else if node.numelems == 1 {
        SlabSteps.GiveBackAtPartial(state, k, idx);
        var passes := ReturnLast(node, idx, k);
        outcome := if passes then Done else AssertFails;
      } else {
        SlabSteps.GiveBackAtPartial(state, k, idx);
        ReturnQuietly(node, idx, k);
      }
    }

    lemma NoCounter(node: Footer, idx: nat)
      requires Linked() && Inv(state) && node in Nodes() && idx !in FreeSet(node.avail) && node.numelems <= 0
      ensures M.GiveBack(state, layout.Base(node.address), idx) == (state, AssertFails)
    {
      var role, k := Locate(node);
      MaxElemsFits(layout);
      match role
      case Full => assert false;
      case Partial => SlabSteps.GiveBackAtPartial(state, k, idx);
      case Empty => SlabSteps.GiveBackAtEmpty(state, k, idx);
    }

    /** slab_release: take the page off its list, destruct its slots, give the page back. */
    method Release(list: List, ghost b: List, ghost c: List, node: Footer, ghost k: nat)
      requires layout.Accepted() && list.layout == layout
      requires Three(list, b, c) && k < |list.nodes| && list.nodes[k] == node
      modifies this`state, this`memory, list, list.head, list.nodes
      ensures Three(list, b, c)
      ensures list.nodes == M.Without(old(list.nodes), k) && list.pages == M.Without(old(list.pages), k)
      ensures state == old(state).(trace := old(state).trace + Released(layout, old(list.pages)[k].base))
      ensures memory == old(memory) - {old(list.pages)[k].base}
      ensures Members(list) == old(Members(list)) - {node} && node !in Members(b) && node !in Members(c)
      ensures forall n :: n in list.nodes ==> n in old(list.nodes)
      ensures layout.Base(node.address) == old(list.pages)[k].base
    {
      assert node.Shows(layout, list.pages[k]);
      assert node.signature == SIGNATURE;
      RemoveOne(list, b, c, node, k);
      Dispose(list, b, c, node);
    }

    /** The rest of slab_release, for a page that is on no list any more. */
    method Dispose(ghost a: List, ghost b: List, ghost c: List, node: Footer)
      requires Three(a, b, c) && node !in a.nodes && node !in b.nodes && node !in c.nodes
      modifies this`state, this`memory, node`signature
      ensures Three(a, b, c)
      ensures state == old(state).(trace := old(state).trace + Released(layout, layout.Base(node.address)))
      ensures memory == old(memory) - {layout.Base(node.address)}
    {
      var base := layout.Base(node.address);
      DestructAll(base);
      node.signature := "";
      memory := memory - {base};
      a.Unchanged();
      b.Unchanged();
      c.Unchanged();
    }

    method DestructAll(base: nat)
      modifies this`state
      ensures state == old(state).(trace := old(state).trace + Released(layout, base))
    {
      var i := 0;
      while i < layout.maxelems
        invariant 0 <= i <= layout.maxelems
        invariant state == old(state).(trace := old(state).trace + Destructions(layout, base, i))
      {
        Note(Destructed(layout.Slot(base, i)));
        i := i + 1;
      }
      Note(PageReturned(base));
      assert state.trace == old(state).trace + Released(layout, base);
    }

    /** slab_release(slab, &slab->empty, slab->empty.head.next) */
    method ReleaseHead() returns (ghost node: Footer)
      requires Linked() && state.empty != []
      modifies repr
      ensures Linked() && repr == old(repr) && state == M.ReleaseFirst(old(state))
      ensures Nodes() == old(Nodes()) - {node} && layout.Base(node.address) == old(state).empty[0].base
      ensures memory == old(memory) - {old(state).empty[0].base}
    {
      hide FreeSet, AvailWords, Layout.Base, Layout.Accepted, Released, M.Without;
      empty.First();
      node := empty.nodes[0];
      M.WithoutFirst(state.empty);
      Release(empty, partial, full, empty.head.next, 0);
      state := state.(empty := empty.pages);
    }

    /** One round of slab_trim. */
    method ReleaseEmpty()
      requires Connected() && state.empty != []
      modifies repr
      ensures Connected() && repr == old(repr) && state == M.ReleaseFirst(old(state))
    {
      SlabSteps.ReleaseFirstApart(state);
      ghost var mem, nodes := memory, Nodes();
      ghost var node := ReleaseHead();
      MapShrink(layout, mem, nodes, node);
    }

    /** slab_trim */
    method Trim()
      requires Connected()
      modifies repr
      ensures Connected() && repr == old(repr) && state == M.Trim(old(state))
      ensures old(Valid()) ==> Valid()
    {
      ghost var was := state;
      while empty.count > full.count + partial.count
        invariant Connected() && repr == old(repr)
        invariant M.Trim(state) == M.Trim(old(state))
        decreases |state.empty|
      {
        ReleaseEmpty();
      }
      if Inv(was) { SlabSteps.TrimKeeps(was); }
    }

    /** slab_free, for NULL, any pointer into one of the allocator's pages, or a pointer into any other page
        (which is assumed not to hold the signature by accident). A pointer behind the last slot of a page
        may leave the invariant broken. */
    method Free(ptr: nat) returns (outcome: FreeOutcome)
      requires Valid()
      modifies repr
      ensures Connected() && repr == old(repr)
      ensures outcome != Done || ptr == NULL || layout.Index(ptr) < layout.maxelems ==> Valid()
      ensures (state, outcome) == M.Free(old(state), ptr)
    {
      if ptr == NULL {
        return Done;
      }
      var base, idx := layout.Base(ptr), layout.Index(ptr);
      if base !in memory || memory[base].signature != SIGNATURE {
        NotMine(base, idx);
        return NotInSlabPage;
      }
      var node := memory[base];
      IndexInBitmap(layout, ptr);
      BitmapOf(node);
      if GetBit(node.avail, idx) {
        AlreadyFree(node, idx);
        return DoubleFree;
      }
      SlabSteps.GiveBackApart(state, base, idx);
      if idx < layout.maxelems { SlabSteps.GiveBackKeeps(state, base, idx); }
      outcome := ReturnSlot(node, idx);
      if outcome == Done {
        Trim();
      }
    }

    lemma NotMine(base: nat, idx: nat)
      requires Valid() && (base !in memory || memory[base].signature != SIGNATURE)
      ensures M.GiveBack(state, base, idx) == (state, NotInSlabPage)
    {
      if base in memory {
        var role, k := Locate(memory[base]);
      }
      SlabInvariant.FindInBases(state.full, base);
      SlabInvariant.FindInBases(state.partial, base);
      SlabInvariant.FindInBases(state.empty, base);
    }

    lemma BitmapOf(node: Footer)
      requires Linked() && node in Nodes()
      ensures |node.avail| == AvailWords(layout.PageSize()) && layout.maxelems <= WORD_BITS * |node.avail|
    {
      MaxElemsFits(layout);
      var role, k := Locate(node);
    }

    lemma AlreadyFree(node: Footer, idx: nat)
      requires Valid() && node in Nodes() && idx in FreeSet(node.avail)
      ensures M.GiveBack(state, layout.Base(node.address), idx) == (state, DoubleFree)
    {
      var role, k := Locate(node);
      match role
      case Full => SlabSteps.GiveBackAtFull(state, k, idx);
      case Partial => SlabSteps.GiveBackAtPartial(state, k, idx);
      case Empty => SlabSteps.GiveBackAtEmpty(state, k, idx);
    }

    // ---- slab_reset and slab_destroy ----

    /** Set the bit of every slot. */
    method SetAll(avail: seq<bv32>) returns (r: seq<bv32>)
      requires layout.maxelems <= WORD_BITS * |avail|
      ensures |r| == |avail| && FreeSet(r) == FreeSet(avail) + Indices(layout.maxelems)
    {
      r := avail;
      var i := 0;
      while i < layout.maxelems
        invariant 0 <= i <= layout.maxelems
        invariant |r| == |avail| && FreeSet(r) == FreeSet(avail) + Indices(i)
      {
        SetBitInserts(r, i);
        r := SetBit(r, i);
        i := i + 1;
      }
    }

    /** One round of slab_reset_list: the first page is cleared and goes to the empty list.
        `world` bounds what may be written. */
    method ResetFirst(list: List, ghost other: List, node: Footer, ghost world: set<object>) returns (next: Footer)
      requires layout.Accepted() && list.layout == layout && empty.layout == layout
      requires Three(list, empty, other) && list.nodes != [] && list.nodes[0] == node
      requires Objects(list) + Objects(empty) <= world
      modifies world
      ensures Three(list, empty, other)
      ensures list.nodes == M.Without(old(list.nodes), 0) && list.pages == M.Without(old(list.pages), 0)
      ensures empty.pages == old(empty.pages) + [ClearedPage(old(list.pages)[0])]
      ensures next == if list.nodes == [] then list.head else list.nodes[0]
      ensures Members(list) + Members(empty) == old(Members(list)) + old(Members(empty))
    {
      hide FreeSet, AvailWords, Layout.Base, Layout.Accepted, Indices;
      MaxElemsFits(layout);
      list.Second();
      next := node.next;
      assert node.Shows(layout, list.pages[0]);
      var avail := SetAll(node.avail);
      StorePage(list, empty, other, node, avail, 0, 0, ClearedPage(list.pages[0]));
      MovePage(list, empty, other, node, 0);
    }

    ghost function ClearedPage(p: Page): Page {
      Page(p.base, p.free + Indices(layout.maxelems), 0)
    }

    /** slab_reset_list: walks the list while taking it apart, and visits each page once. */
    method ResetList(list: List, ghost other: List, ghost world: set<object>)
      requires layout.Accepted() && list.layout == layout && empty.layout == layout
      requires Three(list, empty, other)
      requires Objects(list) + Objects(empty) <= world
      modifies world
      ensures Three(list, empty, other) && list.pages == []
      ensures empty.pages == old(empty.pages) + Cleared(old(list.pages), layout.maxelems)
      ensures Members(list) + Members(empty) == old(Members(list)) + old(Members(empty))
    {
      list.First();
      var node := list.head.next;
      while node != list.head
        invariant Three(list, empty, other)
        invariant node == if list.nodes == [] then list.head else list.nodes[0]
        invariant empty.pages + Cleared(list.pages, layout.maxelems) ==
                  old(empty.pages) + Cleared(old(list.pages), layout.maxelems)
        invariant Members(list) + Members(empty) == old(Members(list)) + old(Members(empty))
        decreases |list.nodes|
      {
        NextCleared(empty.pages, list.pages);
        node := ResetFirst(list, other, node, world);
      }
    }

    lemma NextCleared(done: seq<Page>, pages: seq<Page>)
      requires pages != []
      ensures done + Cleared(pages, layout.maxelems) ==
              (done + [ClearedPage(pages[0])]) + Cleared(M.Without(pages, 0), layout.maxelems)
    {}

    method ResetPartial()
      requires Linked()
      modifies repr
      ensures Linked() && Nodes() == old(Nodes()) && repr == old(repr) && memory == old(memory)
      ensures state == old(state).(empty := old(state).empty + Cleared(old(state).partial, layout.maxelems),
                                   partial := [])
    {
      hide Three, FreeSet, AvailWords, Layout.Base, Layout.Accepted, Cleared;
      ThreePermutes(empty, partial, full);
      ThreeApart(empty, partial, full);
      state := state.(empty := state.empty + Cleared(state.partial, layout.maxelems), partial := []);
      ResetList(partial, full, Objects(partial) + Objects(empty));
      ThreePermutes(partial, empty, full);
    }

    method ResetFull()
      requires Linked()
      modifies repr
      ensures Linked() && Nodes() == old(Nodes()) && repr == old(repr) && memory == old(memory)
      ensures state == old(state).(empty := old(state).empty + Cleared(old(state).full, layout.maxelems), full := [])
    {
      hide Three, FreeSet, AvailWords, Layout.Base, Layout.Accepted, Cleared;
      ThreePermutes(empty, partial, full);
      ThreeApart(empty, partial, full);
      state := state.(empty := state.empty + Cleared(state.full, layout.maxelems), full := []);
      ResetList(full, partial, Objects(full) + Objects(empty));
      ThreePermutes(full, empty, partial);
    }

    /** slab_reset */
    method Reset()
      requires Valid()
      modifies repr
      ensures Valid() && repr == old(repr) && state == M.Reset(old(state))
    {
      SlabSteps.ResetCorrect(state);
      ResetPartial();
      ResetFull();
    }

    method ReleaseFirstOf(list: List, ghost b: List, ghost c: List, node: Footer) returns (next: Footer)
      requires layout.Accepted() && list.layout == layout
      requires Three(list, b, c) && list.nodes != [] && list.nodes[0] == node
      modifies this`state, this`memory, list, list.head, list.nodes
      ensures Three(list, b, c) && Members(list) <= old(Members(list))
      ensures list.pages == M.Without(old(list.pages), 0)
      ensures state == old(state).(trace := old(state).trace + Released(layout, old(list.pages)[0].base))
      ensures memory == old(memory) - {old(list.pages)[0].base}
      ensures next == if list.nodes == [] then list.head else list.nodes[0]
    {
      list.Second();
      next := node.next;
      Release(list, b, c, node, 0);
    }

    /** slab_release_list: likewise, every page is released once. */
    method ReleaseList(list: List, ghost b: List, ghost c: List, ghost world: set<object>)
      requires layout.Accepted() && list.layout == layout && Three(list, b, c)
      requires Objects(list) <= world && this !in world && world !! Objects(b) + Objects(c)
      modifies this`state, this`memory, world
      ensures Three(list, b, c) && list.pages == [] && Objects(list) <= world
      ensures b.pages == old(b.pages) && Objects(b) == old(Objects(b))
      ensures c.pages == old(c.pages) && Objects(c) == old(Objects(c))
      ensures state == old(state).(trace := old(state).trace + ReleasedAll(layout, old(list.pages)))
    {
      list.First();
      var node := list.head.next;
      while node != list.head
        invariant Three(list, b, c) && Objects(list) <= world
        invariant node == if list.nodes == [] then list.head else list.nodes[0]
        invariant state.(trace := state.trace + ReleasedAll(layout, list.pages)) ==
                  old(state).(trace := old(state).trace + ReleasedAll(layout, old(list.pages)))
        decreases |list.nodes|
      {
        NextReleased(state.trace, list.pages);
        node := ReleaseFirstOf(list, b, c, node);
      }
    }

    lemma NextReleased(trace: seq<Event>, pages: seq<Page>)
      requires pages != []
      ensures trace + ReleasedAll(layout, pages) ==
              (trace + Released(layout, pages[0].base)) + ReleasedAll(layout, M.Without(pages, 0))
    {
      assert pages[1..] == M.Without(pages, 0);
    }

    lemma NotListed()
      requires Linked()
      ensures Objects(empty) + Objects(partial) + Objects(full) <= repr - {this}
    {}

    /** slab_destroy */
    method Destroy()
      requires Linked()
      modifies repr
      ensures state == M.Destroy(old(state))
    {
      hide FreeSet, AvailWords, Layout.Base, Layout.Accepted, Released;
      hide Three, Released, ReleasedAll;
      ghost var e, p, f := Objects(empty), Objects(partial), Objects(full);
      ThreeApart(empty, partial, full);
      NotListed();
      ReleaseList(empty, partial, full, e);
      ThreePermutes(empty, partial, full);
      ReleaseList(partial, empty, full, p);
      ThreePermutes(partial, empty, full);
      ReleaseList(full, empty, partial, f);
      state := state.(empty := [], partial := [], full := []);
    }
  }

  method RemoveOne(list: List, ghost b: List, ghost c: List, node: Footer, ghost k: nat)
    requires Three(list, b, c) && k < |list.nodes| && list.nodes[k] == node
    modifies list, list.head, list.nodes
    ensures Three(list, b, c) && node !in list.nodes && node !in b.nodes && node !in c.nodes
    ensures list.nodes == M.Without(old(list.nodes), k) && list.pages == M.Without(old(list.pages), k)
    ensures Members(list) == old(Members(list)) - {node}
    ensures forall n :: n in list.nodes ==> n in old(list.nodes)
  {
    WithoutFacts(list.nodes, k);
    list.RemovePage(node, k);
    b.Unchanged();
    c.Unchanged();
  }
}
