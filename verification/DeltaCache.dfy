/**
  The LRU page cache of the Remus checkpoint compressor (tools/libxc/xc_compression.c): a
  doubly linked list of cache slots and an index from PFN to slot.  A slot without a PFN
  (INVALID_P2M_ENTRY) is free.
 */
module DeltaCache {
  import opened Common
  import opened PageDelta

  // ----- the cache as a value: its slots, most recently used first -----

  datatype Slot = Slot(pfn: Option<nat>, page: Page)

  function MoveToFront(s: seq<Slot>, k: nat): seq<Slot>
    requires k < |s|
  {
    [s[k]] + s[..k] + s[k + 1..]
  }

  function MoveToBack(s: seq<Slot>, k: nat): seq<Slot>
    requires k < |s|
  {
    s[..k] + s[k + 1..] + [s[k]]
  }

  /** The position of a PFN, or |s| if it is not cached. */
  function Find(s: seq<Slot>, pfn: nat): (k: nat)
    ensures k <= |s|
    ensures k < |s| ==> s[k].pfn == Some(pfn)
    ensures forall j | 0 <= j < k :: s[j].pfn != Some(pfn)
  {
    if s == [] then 0 else if s[0].pfn == Some(pfn) then 0 else 1 + Find(s[1..], pfn)
  }

  predicate Cached(s: seq<Slot>, pfn: nat) { Find(s, pfn) < |s| }

  /** get_cache_page: a hit moves to the front; a miss takes the last slot, with its old contents, to the front. */
  function Touch(s: seq<Slot>, pfn: nat): seq<Slot>
    requires s != []
  {
    var n := |s| - 1;
    if Cached(s, pfn) then MoveToFront(s, Find(s, pfn))
    else MoveToFront(s[n := s[n].(pfn := Some(pfn))], n)
  }

  /** invalidate_cache_page: the slot is freed and moves to the back. */
  function Invalidate(s: seq<Slot>, pfn: nat): seq<Slot> {
    if Cached(s, pfn) then
      var k := Find(s, pfn);
      MoveToBack(s[k := s[k].(pfn := None)], k)
    else
      s
  }

  /** Free slots form a suffix and no PFN is cached twice. */
  ghost predicate SlotsOk(s: seq<Slot>) {
    && (forall i, j | 0 <= i < j < |s| && s[i].pfn.None? :: s[j].pfn.None?)
    && (forall i, j | 0 <= i < j < |s| && s[i].pfn.Some? :: s[j].pfn != s[i].pfn)
  }

  lemma FindIs(s: seq<Slot>, pfn: nat, k: nat)
    requires SlotsOk(s) && k < |s| && s[k].pfn == Some(pfn)
    ensures Find(s, pfn) == k
  {
  }

  lemma BackThenFree(s: seq<Slot>, k: nat)
    requires k < |s|
    ensures MoveToBack(s, k)[|s| - 1 := s[k].(pfn := None)] == MoveToBack(s[k := s[k].(pfn := None)], k)
  {
  }

  /** Moving a live slot to the front keeps the others in order. */
  lemma FrontOk(s: seq<Slot>, k: nat)
    requires k < |s| && s[k].pfn.Some?
    requires forall i, j | 0 <= i < j < |s| && i != k && j != k && s[i].pfn.None? :: s[j].pfn.None?
    requires forall i, j | 0 <= i < j < |s| && i != k && j != k && s[i].pfn.Some? :: s[j].pfn != s[i].pfn
    requires forall i | 0 <= i < |s| && i != k :: s[i].pfn != s[k].pfn
    ensures SlotsOk(MoveToFront(s, k))
  {
    var t := MoveToFront(s, k);
    assert forall i | 1 <= i < |t| :: t[i] == s[if i <= k then i - 1 else i];
    forall i, j | 0 <= i < j < |t|
      ensures (t[i].pfn.None? ==> t[j].pfn.None?) && (t[i].pfn.Some? ==> t[j].pfn != t[i].pfn)
    {
      if i > 0 {
        var i', j' := if i <= k then i - 1 else i, if j <= k then j - 1 else j;
        assert i' < j' && t[i] == s[i'] && t[j] == s[j'];
      }
    }
  }

  /** Both operations keep the free slots at the end. */
  lemma TouchOk(s: seq<Slot>, pfn: nat)
    requires s != [] && SlotsOk(s)
    ensures SlotsOk(Touch(s, pfn)) && |Touch(s, pfn)| == |s| && Touch(s, pfn)[0].pfn == Some(pfn)
  {
    var n := |s| - 1;
    if Cached(s, pfn) {
      FrontOk(s, Find(s, pfn));
    } else {
      FrontOk(s[n := s[n].(pfn := Some(pfn))], n);
    }
  }

  lemma InvalidateOk(s: seq<Slot>, pfn: nat)
    requires SlotsOk(s)
    ensures SlotsOk(Invalidate(s, pfn)) && |Invalidate(s, pfn)| == |s|
    ensures forall i | 0 <= i < |s| :: Invalidate(s, pfn)[i].pfn != Some(pfn)
  {
    var k, t := Find(s, pfn), Invalidate(s, pfn);
    if k < |s| {
      assert forall i | 0 <= i < |s| - 1 :: t[i] == s[if i < k then i else i + 1];
      forall i, j | 0 <= i < j < |t|
        ensures (t[i].pfn.None? ==> t[j].pfn.None?) && (t[i].pfn.Some? ==> t[j].pfn != t[i].pfn)
      {
        if j < |t| - 1 {
          var i', j' := if i < k then i else i + 1, if j < k then j else j + 1;
          assert i' < j' && t[i] == s[i'] && t[j] == s[j'];
        }
      }
    }
  }

  // ----- least recently used -----

  /** The cached PFNs, most recently used first. */
  function Recent(s: seq<Slot>): seq<nat> {
    if s == [] || s[0].pfn.None? then [] else [s[0].pfn.value] + Recent(s[1..])
  }

  function Without(r: seq<nat>, pfn: nat): seq<nat> {
    if r == [] then [] else if r[0] == pfn then r[1..] else [r[0]] + Without(r[1..], pfn)
  }

  /** A cache of `capacity` PFNs that replaces the least recently used one. */
  function Lru(r: seq<nat>, capacity: nat, pfn: nat): seq<nat>
    requires capacity > 0
  {
    if pfn in r then [pfn] + Without(r, pfn)
    else if |r| < capacity then [pfn] + r
    else [pfn] + r[..capacity - 1]
  }

  /** r lists the PFNs of the live slots of s. */
  ghost predicate Lists(r: seq<nat>, s: seq<Slot>) {
    && |r| <= |s|
    && (forall i | 0 <= i < |r| :: s[i].pfn == Some(r[i]))
    && (|r| < |s| ==> s[|r|].pfn.None?)
  }

  lemma {:induction false} RecentLists(s: seq<Slot>)
    ensures Lists(Recent(s), s)
  {
    if s != [] && s[0].pfn.Some? {
      RecentLists(s[1..]);
    }
  }

  lemma {:induction false} ListsIsRecent(r: seq<nat>, s: seq<Slot>)
    requires Lists(r, s)
    ensures r == Recent(s)
  {
    if r != [] {
      assert Lists(r[1..], s[1..]);
      ListsIsRecent(r[1..], s[1..]);
    }
  }

  lemma {:induction false} WithoutAt(r: seq<nat>, k: nat)
    requires k < |r| && forall i | 0 <= i < k :: r[i] != r[k]
    ensures Without(r, r[k]) == r[..k] + r[k + 1..]
  {
    if k > 0 {
      WithoutAt(r[1..], k - 1);
    }
  }

  lemma {:induction false} WithoutNone(r: seq<nat>, pfn: nat)
    requires pfn !in r
    ensures Without(r, pfn) == r
  {
    if r != [] {
      WithoutNone(r[1..], pfn);
    }
  }

  lemma CachedIsRecent(s: seq<Slot>, pfn: nat)
    requires SlotsOk(s)
    ensures Cached(s, pfn) <==> pfn in Recent(s)
    ensures Cached(s, pfn) ==> Find(s, pfn) < |Recent(s)| && Recent(s)[Find(s, pfn)] == pfn
  {
    RecentLists(s);
  }

  lemma ListsFront(r: seq<nat>, s: seq<Slot>, k: nat)
    requires Lists(r, s) && k < |r|
    ensures Lists([r[k]] + (r[..k] + r[k + 1..]), MoveToFront(s, k))
  {
    var t, q := MoveToFront(s, k), [r[k]] + (r[..k] + r[k + 1..]);
    forall i | 0 <= i < |q| ensures t[i].pfn == Some(q[i]) {
      var j := if i == 0 then k else if i <= k then i - 1 else i;
      assert t[i] == s[j] && q[i] == r[j];
    }
  }

  lemma ListsMiss(r: seq<nat>, s: seq<Slot>, pfn: nat)
    requires Lists(r, s) && s != [] && pfn !in r
    ensures var n := |s| - 1;
            Lists(Lru(r, |s|, pfn), MoveToFront(s[n := s[n].(pfn := Some(pfn))], n))
  {
    var n := |s| - 1;
    var t, q := MoveToFront(s[n := s[n].(pfn := Some(pfn))], n), Lru(r, |s|, pfn);
    assert forall i | 1 <= i < |t| :: t[i] == s[i - 1];
    assert forall i | 1 <= i < |q| :: q[i] == r[i - 1];
  }

  lemma ListsBack(r: seq<nat>, s: seq<Slot>, k: nat)
    requires Lists(r, s) && k < |r|
    ensures Lists(r[..k] + r[k + 1..], MoveToBack(s[k := s[k].(pfn := None)], k))
  {
    var t, q := MoveToBack(s[k := s[k].(pfn := None)], k), r[..k] + r[k + 1..];
    forall i | 0 <= i < |q| ensures t[i].pfn == Some(q[i]) {
      var j := if i < k then i else i + 1;
      assert t[i] == s[j] && q[i] == r[j];
    }
    if |r| < |s| {
      assert t[|q|] == s[|r|];
    }
  }

  /** get_cache_page replaces the least recently used page, and only when no slot is free. */
  lemma TouchIsLru(s: seq<Slot>, pfn: nat)
    requires s != [] && SlotsOk(s)
    ensures Recent(Touch(s, pfn)) == Lru(Recent(s), |s|, pfn)
  {
    var r, k := Recent(s), Find(s, pfn);
    RecentLists(s);
    CachedIsRecent(s, pfn);
    if Cached(s, pfn) {
      assert forall i | 0 <= i < k :: s[i].pfn == Some(r[i]) && s[i].pfn != Some(pfn);
      WithoutAt(r, k);
      ListsFront(r, s, k);
    } else {
      ListsMiss(r, s, pfn);
    }
    ListsIsRecent(Lru(r, |s|, pfn), Touch(s, pfn));
  }

  /** invalidate_cache_page forgets one page and disturbs no other. */
  lemma InvalidateIsRemoval(s: seq<Slot>, pfn: nat)
    requires SlotsOk(s)
    ensures Recent(Invalidate(s, pfn)) == Without(Recent(s), pfn)
  {
    var r, k := Recent(s), Find(s, pfn);
    RecentLists(s);
    CachedIsRecent(s, pfn);
    if Cached(s, pfn) {
      assert forall i | 0 <= i < k :: s[i].pfn == Some(r[i]) && s[i].pfn != Some(pfn);
      WithoutAt(r, k);
      ListsBack(r, s, k);
      ListsIsRecent(r[..k] + r[k + 1..], Invalidate(s, pfn));
    } else {
      WithoutNone(r, pfn);
    }
  }

  // ----- the linked list -----

  class Node {
    var page: Page
    var pfn: Option<nat>
    var next: Node?
    var prev: Node?

    constructor (page: Page)
      ensures this.page == page && pfn == None && next == null && prev == null
    {
      this.page, pfn, next, prev := page, None, null, null;
    }
  }

  /** The nodes of `order`, in that order, form a doubly linked list. */
  ghost predicate Linked(order: seq<Node>)
    reads order`next, order`prev
  {
    && (forall i, j | 0 <= i < j < |order| :: order[i] != order[j])
    && (forall i {:trigger order[i].prev} | 0 <= i < |order| :: order[i].prev == if i == 0 then null else order[i - 1])
    && (forall i {:trigger order[i].next} | 0 <= i < |order| ::
          order[i].next == if i == |order| - 1 then null else order[i + 1])
  }

  method NewNodes(memory: seq<Page>) returns (ns: seq<Node>)
    ensures |ns| == |memory| && Linked(ns) && forall n | n in ns :: fresh(n)
    ensures forall i | 0 <= i < |ns| :: ns[i].page == memory[i] && ns[i].pfn == None
  {
    ns := [];
    var i := 0;
    while i < |memory|
      invariant 0 <= i <= |memory| && |ns| == i && Linked(ns) && forall n | n in ns :: fresh(n)
      invariant forall j | 0 <= j < i :: ns[j].page == memory[j] && ns[j].pfn == None
    {
      var node := new Node(memory[i]);
      if i > 0 {
        node.prev := ns[i - 1];
        assert ns[i - 1] in ns;
        ns[i - 1].next := node;
      }
      ns := ns + [node];
      i := i + 1;
    }
  }

  /** The slots are what the nodes hold. */
  ghost predicate Tied(slots: seq<Slot>, order: seq<Node>)
    reads order`pfn, order`page
  {
    |slots| == |order| && forall i | 0 <= i < |order| :: order[i].pfn == slots[i].pfn && order[i].page == slots[i].page
  }

  lemma TiedMove(s: seq<Slot>, o: seq<Node>, k: nat)
    requires k < |o| && Tied(s, o)
    ensures Tied(MoveToFront(s, k), [o[k]] + (o[..k] + o[k + 1..]))
    ensures Tied(MoveToBack(s, k), (o[..k] + o[k + 1..]) + [o[k]])
  {
    var f, b := [o[k]] + (o[..k] + o[k + 1..]), (o[..k] + o[k + 1..]) + [o[k]];
    forall i | 0 <= i < |o| ensures f[i].pfn == MoveToFront(s, k)[i].pfn && f[i].page == MoveToFront(s, k)[i].page {
      var j := if i == 0 then k else if i <= k then i - 1 else i;
      assert f[i] == o[j] && MoveToFront(s, k)[i] == s[j];
    }
    forall i | 0 <= i < |o| ensures b[i].pfn == MoveToBack(s, k)[i].pfn && b[i].page == MoveToBack(s, k)[i].page {
      var j := if i == |o| - 1 then k else if i < k then i else i + 1;
      assert b[i] == o[j] && MoveToBack(s, k)[i] == s[j];
    }
  }

  class Cache {
    var head: Node
    var tail: Node
    const pfn2cache: array<Node?>
    ghost var order: seq<Node>
    ghost var slots: seq<Slot>
    ghost const nodes: set<Node>

    ghost predicate ListOk()
      reads this, nodes
    {
      && |order| > 0 && head == order[0] && tail == order[|order| - 1]
      && (set n | n in order) == nodes
      && Linked(order)
    }

    ghost predicate IndexOk()
      reads this, nodes, pfn2cache
    {
      && (forall n | n in nodes && n.pfn.Some? :: n.pfn.value < pfn2cache.Length && pfn2cache[n.pfn.value] == n)
      && (forall p | 0 <= p < pfn2cache.Length && pfn2cache[p] != null ::
            pfn2cache[p] in nodes && pfn2cache[p].pfn == Some(p))
    }

    /** xc_compression_create_context: every slot free, over whatever the cache memory holds. */
    constructor (memory: seq<Page>, p2mSize: nat)
      requires |memory| > 0
      ensures Valid() && fresh(nodes) && fresh(pfn2cache) && pfn2cache.Length == p2mSize
      ensures slots == seq(|memory|, i requires 0 <= i < |memory| => Slot(None, memory[i]))
    {
      var ns := NewNodes(memory);
      head, tail, order, nodes := ns[0], ns[|ns| - 1], ns, set n | n in ns;
      slots := seq(|memory|, i requires 0 <= i < |memory| => Slot(None, memory[i]));
      pfn2cache := new Node?[p2mSize](_ => null);
    }

    /** Takes a node that is not the only one out of the list. */
    method Detach(item: Node, ghost k: nat)
      requires ListOk() && |order| > 1 && k < |order| && order[k] == item
      modifies this`head, this`tail, this`order, nodes`next, nodes`prev
      ensures order == old(order)[..k] + old(order)[k + 1..] && Linked(order) && item !in order
      ensures head == order[0] && tail == order[|order| - 1]
    {
      if item == tail {
        tail := item.prev;
        tail.next := null;
      } else if item == head {
        head := head.next;
        head.prev := null;
      } else {
        item.prev.next := item.next;
        item.next.prev := item.prev;
      }
      order := order[..k] + order[k + 1..];
    }

    /** The list surgery at the end of get_cache_page. */
    method ToHead(item: Node, ghost k: nat)
      requires ListOk() && k < |order| && order[k] == item
      modifies this`head, this`tail, this`order, nodes`next, nodes`prev
      ensures ListOk() && order == [item] + (old(order)[..k] + old(order)[k + 1..])
    {
      if item == head {
        return;
      }
      Detach(item, k);
      AttachHead(item);
    }

    method AttachHead(item: Node)
      requires order != [] && head == order[0] && Linked(order) && item !in order && item in nodes && head in nodes
      modifies this`head, this`order, nodes`next, nodes`prev
      ensures order == [item] + old(order) && Linked(order) && head == item
    {
      item.prev := null;
      item.next := head;
      head.prev := item;
      head := item;
      order := [item] + order;
    }

    /** The list surgery of invalidate_cache_page. */
    method ToTail(item: Node, ghost k: nat)
      requires ListOk() && k < |order| && order[k] == item
      modifies this`head, this`tail, this`order, nodes`next, nodes`prev
      ensures ListOk() && order == (old(order)[..k] + old(order)[k + 1..]) + [item]
    {
      if item == tail {
        return;
      }
      Detach(item, k);
      AttachTail(item);
    }

    method AttachTail(item: Node)
      requires order != [] && tail == order[|order| - 1] && Linked(order) && item !in order && item in nodes
      requires tail in nodes
      modifies this`tail, this`order, nodes`next, nodes`prev
      ensures order == old(order) + [item] && Linked(order) && tail == item
    {
      item.next := null;
      item.prev := tail;
      tail.next := item;
      tail := item;
      order := order + [item];
    }

    ghost predicate Valid()
      reads this, nodes, order, pfn2cache
    {
      ListOk() && IndexOk() && Tied(slots, order) && SlotsOk(slots)
    }

    method Promote(item: Node, ghost k: nat)
      requires ListOk() && IndexOk() && Tied(slots, order) && k < |order| && order[k] == item
      modifies this`head, this`tail, this`order, this`slots, nodes`next, nodes`prev
      ensures ListOk() && IndexOk() && Tied(slots, order) && slots == MoveToFront(old(slots), k) && head == item
    {
      hide Linked, MoveToFront;
      ghost var o := order;
      ToHead(item, k);
      TiedMove(slots, o, k);
      slots := MoveToFront(slots, k);
    }

    method Demote(item: Node, ghost k: nat)
      requires ListOk() && IndexOk() && Tied(slots, order) && k < |order| && order[k] == item
      modifies this`head, this`tail, this`order, this`slots, nodes`next, nodes`prev
      ensures ListOk() && IndexOk() && Tied(slots, order) && slots == MoveToBack(old(slots), k) && tail == item
    {
      hide Linked, MoveToBack;
      ghost var o := order;
      ToTail(item, k);
      TiedMove(slots, o, k);
      slots := MoveToBack(slots, k);
    }

    /** The miss branch of get_cache_page: the last slot changes owner. */
    method Rebind(pfn: nat)
      requires ListOk() && IndexOk() && Tied(slots, order) && pfn < pfn2cache.Length && pfn2cache[pfn] == null
      modifies this`slots, nodes`pfn, pfn2cache
      ensures ListOk() && IndexOk() && Tied(slots, order) && pfn2cache[pfn] == tail
      ensures slots == old(slots)[|order| - 1 := old(slots)[|order| - 1].(pfn := Some(pfn))]
    {
      assert tail in order && forall i | 0 <= i < |order| - 1 :: order[i] != tail;
      hide Linked, IndexOk;
      Reindex(pfn);
      slots := slots[|order| - 1 := slots[|order| - 1].(pfn := Some(pfn))];
    }

    /** The PFN takes the node at the tail from its owner. */
    method Reindex(pfn: nat)
      requires tail in nodes && IndexOk() && pfn < pfn2cache.Length && pfn2cache[pfn] == null
      modifies nodes`pfn, pfn2cache
      ensures IndexOk() && pfn2cache[pfn] == tail
      ensures forall n | n in nodes :: n.pfn == if n == tail then Some(pfn) else old(n.pfn)
    {
      if tail.pfn.Some? {
        pfn2cache[tail.pfn.value] := null;
      }
      tail.pfn := Some(pfn);
      pfn2cache[pfn] := tail;
    }

    /** The end of invalidate_cache_page: the last slot becomes free. */
    method Release(pfn: nat)
      requires ListOk() && IndexOk() && Tied(slots, order) && pfn < pfn2cache.Length && pfn2cache[pfn] == tail
      modifies this`slots, nodes`pfn, pfn2cache
      ensures ListOk() && IndexOk() && Tied(slots, order)
      ensures slots == old(slots)[|order| - 1 := old(slots)[|order| - 1].(pfn := None)]
    {
      assert tail in order;
      pfn2cache[pfn] := null;
      tail.pfn := None;
      slots := slots[|order| - 1 := slots[|order| - 1].(pfn := None)];
    }

    /** get_cache_page; the slot is the one at the head afterwards. */
    method GetCachePage(pfn: nat) returns (miss: bool)
      requires Valid() && pfn < pfn2cache.Length
      modifies this`head, this`tail, this`order, this`slots, nodes`next, nodes`prev, nodes`pfn, pfn2cache
      ensures Valid()
      ensures miss <==> !Cached(old(slots), pfn)
      ensures slots == Touch(old(slots), pfn)
    {
      ghost var k := Position(pfn);
      TouchOk(slots, pfn);
      miss := pfn2cache[pfn] == null;
      if miss {
        Rebind(pfn);
      }
      var item := pfn2cache[pfn];
      Promote(item, k);
    }

    /** invalidate_cache_page */
    method InvalidatePage(pfn: nat)
      requires Valid() && pfn < pfn2cache.Length
      modifies this`head, this`tail, this`order, this`slots, nodes`next, nodes`prev, nodes`pfn, pfn2cache
      ensures Valid()
      ensures slots == Invalidate(old(slots), pfn)
    {
      ghost var s, t := slots, Invalidate(slots, pfn);
      ghost var k := Position(pfn);
      InvalidateOk(s, pfn);
      hide Linked, Tied, SlotsOk;
      var item := pfn2cache[pfn];
      if item != null {
        Demote(item, k);
        Release(pfn);
        assert slots == t by {
          BackThenFree(s, k);
        }
      }
    }

    /** The copy of a page into the slot that get_cache_page returned. */
    method SetPage(page: Page)
      requires Valid()
      modifies this`slots, head`page
      ensures Valid() && slots == old(slots)[0 := old(slots)[0].(page := page)]
    {
      assert head in order;
      head.page := page;
      slots := slots[0 := slots[0].(page := page)];
    }

    /** Where a PFN's node is in the list; the last position if it is not cached. */
    lemma Position(pfn: nat) returns (k: nat)
      requires Valid() && pfn < pfn2cache.Length
      ensures k < |order| && (pfn2cache[pfn] == null <==> !Cached(slots, pfn))
      ensures pfn2cache[pfn] != null ==> order[k] == pfn2cache[pfn] && k == Find(slots, pfn)
      ensures pfn2cache[pfn] == null ==> k == |order| - 1
    {
      k := |order| - 1;
      if pfn2cache[pfn] != null {
        k :| 0 <= k < |order| && order[k] == pfn2cache[pfn];
        FindIs(slots, pfn, k);
      } else {
        assert forall n | n in order :: n in nodes;
      }
    }
  }
}
