/** The circular doubly linked lists with a sentinel that hold the pages. */
module SlabList {
  import opened SlabLayout
  import opened SlabBitmap
  import M = SlabModel

  const SIGNATURE := "SlabFoot"

  /** `struct slab_footer` with its embedded list node, at the address of that node. A list head is such
      a node too; only its two links are ever used. */
  class Footer {
    var next: Footer?
    var prev: Footer?
    var signature: string
    var avail: seq<bv32>
    var numelems: int
    const address: nat
    ghost var home: List?  // the list the node is on

    constructor (address: nat)
      ensures this.address == address && home == null
      ensures signature == "" && avail == [] && numelems == 0
    {
      this.address := address;
      next, prev, signature, avail, numelems, home := null, null, "", [], 0, null;
    }

    /** The footer represents this page of the model. */
    ghost predicate Shows(l: Layout, p: M.Page)
      reads this`signature, this`avail, this`numelems
    {
      l.Base(address) == p.base && signature == SIGNATURE &&
      |avail| == AvailWords(l.PageSize()) && FreeSet(avail) == p.free && numelems == p.numelems
    }
  }

  /** slab_link_nodes */
  method Link(n1: Footer, n2: Footer)
    modifies n1`next, n2`prev
    ensures n1.next == n2 && n2.prev == n1
  {
    n1.next := n2;
    n2.prev := n1;
  }

  /** Each node of the sequence links to the one after it, and back. */
  ghost predicate Chained(ring: seq<Footer>)
    reads ring`next, ring`prev
  {
    forall i, j :: 0 <= i && j == i + 1 && j < |ring| ==> ring[i].next == ring[j] && ring[j].prev == ring[i]
  }

  /** A ring whose links around position k bypass it is a ring without it. */
  lemma ChainedWithout(r: seq<Footer>, k: nat)
    requires 0 < k < |r| - 1
    requires r[k - 1].next == r[k + 1] && r[k + 1].prev == r[k - 1]
    requires forall i, j :: 0 <= i && j == i + 1 && j < |r| && i != k && j != k ==>
             r[i].next == r[j] && r[j].prev == r[i]
    ensures Chained(M.Without(r, k))
  {
    var r' := M.Without(r, k);
    forall i, j | 0 <= i && j == i + 1 && j < |r'| ensures r'[i].next == r'[j] && r'[j].prev == r'[i] {
      var i0, j0 := if i < k then i else i + 1, if j < k then j else j + 1;
      assert r'[i] == r[i0] && r'[j] == r[j0];
      if i != k - 1 { assert j0 == i0 + 1; }
    }
  }

  /** A ring whose last link leads through a new node is a ring with it. */
  lemma ChainedAppend(r: seq<Footer>, n: Footer)
    requires |r| >= 2
    requires r[|r| - 2].next == n && n.prev == r[|r| - 2] && n.next == r[|r| - 1] && r[|r| - 1].prev == n
    requires forall i, j :: 0 <= i && j == i + 1 && j < |r| - 1 ==> r[i].next == r[j] && r[j].prev == r[i]
    ensures Chained(r[..|r| - 1] + [n, r[|r| - 1]])
  {
    var r' := r[..|r| - 1] + [n, r[|r| - 1]];
    forall i, j | 0 <= i && j == i + 1 && j < |r'| ensures r'[i].next == r'[j] && r'[j].prev == r'[i] {
      if j < |r| - 1 { assert r'[i] == r[i] && r'[j] == r[j]; }
    }
  }

  ghost predicate NoDuplicates(nodes: seq<Footer>) {
    forall i, j :: 0 <= i < j < |nodes| ==> nodes[i] != nodes[j]
  }

  lemma RingWithout(head: Footer, nodes: seq<Footer>, k: nat)
    requires k < |nodes|
    ensures [head] + M.Without(nodes, k) + [head] == M.Without([head] + nodes + [head], k + 1)
  {}

  lemma WithoutFacts(nodes: seq<Footer>, k: nat)
    requires k < |nodes| && NoDuplicates(nodes)
    ensures |M.Without(nodes, k)| == |nodes| - 1
    ensures NoDuplicates(M.Without(nodes, k))
    ensures forall n :: n in M.Without(nodes, k) <==> n in nodes && n != nodes[k]
  {
    var rest := M.Without(nodes, k);
    forall j | 0 <= j < |nodes| && j != k ensures nodes[j] in rest {
      assert nodes[j] == rest[if j < k then j else j - 1];
    }
    assert forall i :: 0 <= i < |rest| ==> rest[i] == nodes[if i < k then i else i + 1];
  }

  ghost predicate ShowsAll(l: Layout, nodes: seq<Footer>, pages: seq<M.Page>)
    reads nodes`signature, nodes`avail, nodes`numelems
  {
    |nodes| == |pages| && forall k :: 0 <= k < |nodes| ==> nodes[k].Shows(l, pages[k])
  }

  lemma ShowsWithout(l: Layout, nodes: seq<Footer>, pages: seq<M.Page>, k: nat)
    requires k < |nodes| && ShowsAll(l, nodes, pages)
    ensures ShowsAll(l, M.Without(nodes, k), M.Without(pages, k))
  {
    var ns, ps := M.Without(nodes, k), M.Without(pages, k);
    forall j | 0 <= j < |ns| ensures ns[j].Shows(l, ps[j]) {
      assert nodes[if j < k then j else j + 1].Shows(l, pages[if j < k then j else j + 1]);
    }
  }

  lemma ShowsAppend(l: Layout, nodes: seq<Footer>, pages: seq<M.Page>, n: Footer, p: M.Page)
    requires ShowsAll(l, nodes, pages) && n.Shows(l, p)
    ensures ShowsAll(l, nodes + [n], pages + [p])
  {}

  class List {
    const head: Footer
    var count: int
    ghost const layout: Layout
    ghost var nodes: seq<Footer>
    ghost var pages: seq<M.Page>

    ghost function Ring(): seq<Footer>
      reads this`nodes
    {
      [head] + nodes + [head]
    }

    ghost predicate Linked()
      reads this, head`home, head`next, head`prev, nodes`home, nodes`next, nodes`prev
    {
      count == |nodes| && NoDuplicates(nodes) && Chained(Ring()) &&
      head.home == this && head !in nodes && forall n :: n in nodes ==> n.home == this
    }

    ghost predicate Valid()
      reads this, head, nodes
    {
      Linked() && ShowsAll(layout, nodes, pages)
    }

    /** slab_list_create */
    constructor (ghost layout: Layout)
      ensures Valid() && nodes == [] && pages == [] && this.layout == layout && fresh(head)
    {
      var h := new Footer(0);
      head := h;
      count := 0;
      this.layout := layout;
      nodes, pages := [], [];
      new;
      h.next := h;
      h.prev := h;
      h.home := this;
    }

    /** A list nothing of which changed is still well formed. */
    twostate lemma Unchanged()
      requires old(Valid()) && nodes == old(nodes) && pages == old(pages) && count == old(count)
      requires head.next == old(head.next) && head.prev == old(head.prev) && head.home == old(head.home)
      requires forall n :: n in nodes ==>
        n.next == old(n.next) && n.prev == old(n.prev) && n.home == old(n.home) &&
        n.signature == old(n.signature) && n.avail == old(n.avail) && n.numelems == old(n.numelems)
      ensures Valid()
    {
      var r := Ring();
      assert r == old(Ring());
      forall i | 0 <= i < |r| ensures r[i].next == old(r[i].next) && r[i].prev == old(r[i].prev) {
        assert r[i] == head || r[i] in nodes;
      }
      forall k | 0 <= k < |nodes| ensures nodes[k].Shows(layout, pages[k]) {
        assert old(nodes[k].Shows(layout, pages[k]));
      }
    }

    lemma First()
      requires Linked()
      ensures nodes == [] ==> head.next == head && head.prev == head
      ensures nodes != [] ==> head.next == nodes[0] && head.prev == nodes[|nodes| - 1]
    {
      var r := Ring();
      assert r[0].next == r[1] && r[|r| - 1].prev == r[|r| - 2];
    }

    lemma Second()
      requires Linked() && nodes != []
      ensures nodes[0].next == if |nodes| > 1 then nodes[1] else head
    {
      var r := Ring();
      assert r[1].next == r[2];
    }

    /** slab_list_is_empty */
    method IsEmpty() returns (r: bool)
      requires Linked()
      ensures r <==> nodes == []
    {
      First();
      r := head.next == head;
    }

    /** slab_list_push_back: the node becomes the last one. */
    method PushBack(node: Footer)
      requires Linked() && node.home == null
      modifies this`count, this`nodes, head`next, head`prev, nodes`next
      modifies node`next, node`prev, node`home
      ensures Linked() && nodes == old(nodes) + [node]
    {
      First();
      ghost var r := Ring();
      var last := head.prev;
      Link(last, node);
      Link(node, head);
      count := count + 1;
      node.home := this;
      nodes := nodes + [node];
      ChainedAppend(r, node);
      assert Ring() == r[..|r| - 1] + [node, r[|r| - 1]];
    }

    /** slab_list_remove: the node at position k goes, wherever it stands; the consistency check at the
        end never fails. */
    method Remove(node: Footer, ghost k: nat)
      requires Linked() && k < |nodes| && nodes[k] == node
      modifies this`count, this`nodes, head`next, head`prev, nodes`next, nodes`prev, node`home
      ensures Linked() && nodes == M.Without(old(nodes), k)
      ensures node.next == null && node.prev == null && node.home == null
    {
      Unlink(node, k);
      First();
      if count == 0 || head.next == head || head.prev == head {
        assert count == 0;
        assert head.next == head;
        assert head.prev == head;
      }
    }

    method Unlink(node: Footer, ghost k: nat)
      requires Linked() && k < |nodes| && nodes[k] == node
      modifies this`count, this`nodes, head`next, head`prev, nodes`next, nodes`prev, node`home
      ensures Linked() && nodes == M.Without(old(nodes), k)
      ensures node.next == null && node.prev == null && node.home == null
    {
      ghost var r := Ring();
      WithoutFacts(nodes, k);
      RingWithout(head, nodes, k);
      assert r[k + 1] == node && r[k].next == r[k + 1] && r[k + 1].next == r[k + 2];
      assert r[k + 1].prev == r[k];
      Link(node.prev, node.next);
      node.next := null;
      node.prev := null;
      count := count - 1;
      node.home := null;
      nodes := M.Without(nodes, k);
      assert Ring() == M.Without(r, k + 1);
      ChainedWithout(r, k + 1);
    }

    /** slab_list_pop_front */
    method PopFront() returns (node: Footer?)
      requires Linked()
      modifies this`count, this`nodes, head`next, head`prev, nodes`next, nodes`prev, nodes`home
      ensures Linked()
      ensures node == null <==> old(nodes) == []
      ensures node == null ==> nodes == []
      ensures node != null ==> node == old(nodes)[0] && nodes == M.Without(old(nodes), 0) && node.home == null
      ensures forall n :: n in old(nodes) && n != node ==> n.home == old(n.home)
    {
      First();
      node := head.next;
      if node == head {
        return null;
      }
      Remove(node, 0);
    }

    // The same, for lists of pages: what the list represents follows the nodes.

    method PushPage(node: Footer, ghost page: M.Page)
      requires Valid() && node.home == null && node.Shows(layout, page)
      modifies this`count, this`nodes, this`pages, head`next, head`prev, nodes`next
      modifies node`next, node`prev, node`home
      ensures Valid() && nodes == old(nodes) + [node] && pages == old(pages) + [page]
    {
      ShowsAppend(layout, nodes, pages, node, page);
      PushBack(node);
      pages := pages + [page];
    }

    method PopPage() returns (node: Footer)
      requires Valid() && nodes != []
      modifies this`count, this`nodes, this`pages, head`next, head`prev, nodes`next, nodes`prev, nodes`home
      ensures Valid() && nodes == M.Without(old(nodes), 0) && pages == M.Without(old(pages), 0)
      ensures node == old(nodes)[0] && node.home == null
      ensures forall n :: n in old(nodes) && n != node ==> n.home == old(n.home)
    {
      ShowsWithout(layout, nodes, pages, 0);
      var front := PopFront();
      node := front;
      pages := M.Without(pages, 0);
    }

    method RemovePage(node: Footer, ghost k: nat)
      requires Valid() && k < |nodes| && nodes[k] == node
      modifies this`count, this`nodes, this`pages, head`next, head`prev, nodes`next, nodes`prev, node`home
      ensures Valid() && nodes == M.Without(old(nodes), k) && pages == M.Without(old(pages), k)
      ensures node.home == null
    {
      ShowsWithout(layout, nodes, pages, k);
      Remove(node, k);
      pages := M.Without(pages, k);
    }

    /** Store the bitmap and the counter of the page at position k. */
    method Store(node: Footer, avail: seq<bv32>, numelems: int, ghost k: nat, ghost page: M.Page)
      requires Valid() && k < |nodes| && nodes[k] == node
      requires page.base == pages[k].base && page.free == FreeSet(avail) && page.numelems == numelems
      requires |avail| == AvailWords(layout.PageSize())
      modifies this`pages, node`avail, node`numelems
      ensures Valid() && pages == old(pages)[k := page] && node.avail == avail && node.numelems == numelems
    {
      assert node.Shows(layout, pages[k]);
      node.avail := avail;
      node.numelems := numelems;
      ghost var before := pages;
      pages := pages[k := page];
      forall j | 0 <= j < |nodes| ensures nodes[j].Shows(layout, pages[j]) {
        if j != k { assert nodes[j] != node && old(nodes[j].Shows(layout, pages[j])); }
      }
    }
  }

  // ---- operations on one or two of three lists ----

  /** Three well-formed lists; nodes know their home, so they share nothing. */
  ghost predicate Three(a: List, b: List, c: List)
    reads a, a.head, a.nodes, b, b.head, b.nodes, c, c.head, c.nodes
  {
    a != b && a != c && b != c && a.Valid() && b.Valid() && c.Valid()
  }

  lemma ThreePermutes(a: List, b: List, c: List)
    requires Three(a, b, c)
    ensures Three(a, c, b) && Three(b, a, c) && Three(b, c, a) && Three(c, a, b) && Three(c, b, a)
  {}

  ghost function Members(l: List): set<Footer>
    reads l`nodes
  {
    set n | n in l.nodes
  }

  /** What a list is made of. */
  ghost function Objects(l: List): set<object>
    reads l`nodes
  {
    {l, l.head} + Members(l)
  }

  lemma ThreeApart(a: List, b: List, c: List)
    requires Three(a, b, c)
    ensures Objects(a) !! Objects(b) + Objects(c) && Objects(b) !! Objects(c)
  {}

  /** slab_list_remove from one list, slab_list_push_back on another. */
  method MovePage(from: List, to: List, ghost other: List, node: Footer, ghost k: nat)
    requires Three(from, to, other) && from.layout == to.layout && k < |from.nodes| && from.nodes[k] == node
    modifies from, from.head, from.nodes, to, to.head, to.nodes
    ensures Three(from, to, other)
    ensures from.nodes == M.Without(old(from.nodes), k)
    ensures from.pages == M.Without(old(from.pages), k) && to.pages == old(to.pages) + [old(from.pages)[k]]
    ensures Members(from) == old(Members(from)) - {node} && Members(to) == old(Members(to)) + {node}
    ensures node in old(Members(from))
    ensures forall n :: n in from.nodes ==> n in old(from.nodes)
  {
    ghost var page := from.pages[k];
    assert node.Shows(from.layout, page);
    WithoutFacts(from.nodes, k);
    from.RemovePage(node, k);
    to.Unchanged();
    label Removed:
    to.PushPage(node, page);
    from.Unchanged@Removed();
    other.Unchanged();
  }

  /** slab_list_push_back of the node that slab_list_pop_front returns. */
  method MoveFirst(from: List, to: List, ghost other: List)
    requires Three(from, to, other) && from.layout == to.layout && from.nodes != []
    modifies from, from.head, from.nodes, to, to.head, to.nodes
    ensures Three(from, to, other)
    ensures from.pages == M.Without(old(from.pages), 0) && to.pages == old(to.pages) + [old(from.pages)[0]]
    ensures Members(from) + Members(to) == old(Members(from)) + old(Members(to))
  {
    ghost var page := from.pages[0];
    assert from.nodes[0].Shows(from.layout, page);
    WithoutFacts(from.nodes, 0);
    var node := from.PopPage();
    to.Unchanged();
    label Removed:
    to.PushPage(node, page);
    from.Unchanged@Removed();
    other.Unchanged();
  }

  method AppendPage(list: List, ghost b: List, ghost c: List, node: Footer, ghost page: M.Page)
    requires Three(list, b, c) && node.home == null && node.Shows(list.layout, page)
    modifies list, list.head, list.nodes, node
    ensures Three(list, b, c) && list.nodes == old(list.nodes) + [node] && list.pages == old(list.pages) + [page]
  {
    list.PushPage(node, page);
    b.Unchanged();
    c.Unchanged();
  }

  method StorePage(list: List, ghost b: List, ghost c: List, node: Footer, avail: seq<bv32>, numelems: int,
                   ghost k: nat, ghost page: M.Page)
    requires Three(list, b, c) && k < |list.nodes| && list.nodes[k] == node
    requires page.base == list.pages[k].base && page.free == FreeSet(avail) && page.numelems == numelems
    requires |avail| == AvailWords(list.layout.PageSize())
    modifies list, node
    ensures Three(list, b, c) && list.nodes == old(list.nodes)
    ensures list.pages == old(list.pages)[k := page]
  {
    list.Store(node, avail, numelems, k, page);
    b.Unchanged();
    c.Unchanged();
  }
}
