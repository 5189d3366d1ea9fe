/**
  The free lists of the Mini-OS page allocator (extras/mini-os/mm.c): one doubly linked list per
  order, threaded through headers at the start of the free pages themselves.
 */
module FreeLists {
  import opened Common

  /** A next pointer: a chunk or the tail of the list of an order. */
  datatype Link = Chunk(page: nat) | Tail(order: nat)

  /** A pprev pointer: the address of the next pointer, or list head, that points here. */
  datatype Ref = HeadOf(order: nat) | NextOf(page: nat)

  /** What the first words of a page hold, if it is taken for a chunk header. */
  datatype Header = Header(next: Link, pprev: Ref, level: int)

  const FREELIST_SIZE: nat := 52

  /** free_head, the pprev fields of free_tail, and the first words of every page. */
  datatype Store = Store(head: seq<Link>, tails: seq<Ref>, pages: seq<Header>)

  predicate Shaped(st: Store) { |st.head| == |st.tails| == FREELIST_SIZE }

  // ----- pointers -----

  predicate LinkIn(st: Store, l: Link) { match l case Chunk(p) => p < |st.pages| case Tail(i) => i < |st.tails| }

  predicate RefIn(st: Store, r: Ref) { match r case HeadOf(i) => i < |st.head| case NextOf(p) => p < |st.pages| }

  /** *ref = link */
  function Assign(st: Store, ref: Ref, link: Link): Store
    requires RefIn(st, ref)
  {
    match ref
    case HeadOf(i) => st.(head := st.head[i := link])
    case NextOf(p) => st.(pages := st.pages[p := st.pages[p].(next := link)])
  }

  /** link->pprev = ref */
  function SetPprev(st: Store, link: Link, ref: Ref): Store
    requires LinkIn(st, link)
  {
    match link
    case Chunk(p) => st.(pages := st.pages[p := st.pages[p].(pprev := ref)])
    case Tail(i) => st.(tails := st.tails[i := ref])
  }

  /** A header for page p of the given order becomes the head of its list. */
  function Pushed(st: Store, p: nat, i: nat): (r: Store)
    requires Shaped(st) && p < |st.pages| && i < FREELIST_SIZE && LinkIn(st, st.head[i])
    ensures |r.pages| == |st.pages|
  {
    var st1 := st.(pages := st.pages[p := Header(st.head[i], HeadOf(i), i)]);
    Assign(SetPprev(st1, st.head[i], NextOf(p)), HeadOf(i), Chunk(p))
  }

  /** The chunk at page p is taken out of its list through its own pointers. */
  function Unlinked(st: Store, p: nat): (r: Store)
    requires p < |st.pages| && RefIn(st, st.pages[p].pprev) && LinkIn(st, st.pages[p].next)
    ensures |r.pages| == |st.pages|
  {
    var h := st.pages[p];
    SetPprev(Assign(st, h.pprev, h.next), h.next, h.pprev)
  }

  // ----- lists -----

  function At(l: seq<nat>, j: nat, i: nat): Link { if j < |l| then Chunk(l[j]) else Tail(i) }

  function Before(l: seq<nat>, j: nat, i: nat): Ref
    requires j <= |l|
  {
    if j == 0 then HeadOf(i) else NextOf(l[j - 1])
  }

  ghost predicate NodeOk(st: Store, i: nat, l: seq<nat>, j: nat)
    requires j < |l|
  {
    l[j] < |st.pages| && st.pages[l[j]].next == At(l, j + 1, i) && st.pages[l[j]].pprev == Before(l, j, i)
  }

  /** The pages of l, in that order, are the list of order i. */
  ghost predicate ListOk(st: Store, i: nat, l: seq<nat>)
    requires i < |st.head| && i < |st.tails|
  {
    && st.head[i] == At(l, 0, i) && st.tails[i] == Before(l, |l|, i)
    && Distinct(l) && forall j | 0 <= j < |l| :: NodeOk(st, i, l, j)
  }

  lemma PushOk(st: Store, p: nat, i: nat, l: seq<nat>)
    requires Shaped(st) && i < FREELIST_SIZE && ListOk(st, i, l) && p !in l && p < |st.pages|
    ensures LinkIn(st, st.head[i]) && ListOk(Pushed(st, p, i), i, [p] + l)
  {
    if l != [] {
      assert NodeOk(st, i, l, 0);
    }
    var st', l' := Pushed(st, p, i), [p] + l;
    forall j | 0 <= j < |l'| ensures NodeOk(st', i, l', j) {
      if j > 0 {
        assert NodeOk(st, i, l, j - 1) && l'[j] == l[j - 1];
      }
    }
  }

  function Removed(l: seq<nat>, j: nat): seq<nat>
    requires j < |l|
  {
    l[..j] + l[j + 1..]
  }

  /** Where the pointers lead once position j has been taken out. */
  lemma UnlinkedAt(st: Store, i: nat, l: seq<nat>, j: nat, m: nat)
    requires Shaped(st) && i < FREELIST_SIZE && ListOk(st, i, l) && j < |l| && m < |l| && m != j
    ensures NodeOk(st, i, l, j) && RefIn(st, st.pages[l[j]].pprev) && LinkIn(st, st.pages[l[j]].next)
    ensures NodeOk(Unlinked(st, l[j]), i, Removed(l, j), if m < j then m else m - 1)
  {
    var p := l[j];
    assert NodeOk(st, i, l, j) && NodeOk(st, i, l, m);
    if j > 0 {
      assert NodeOk(st, i, l, j - 1);
    }
    if j + 1 < |l| {
      assert NodeOk(st, i, l, j + 1);
    }
    assert Removed(l, j)[if m < j then m else m - 1] == l[m];
  }

  lemma UnlinkedEnds(st: Store, i: nat, l: seq<nat>, j: nat)
    requires Shaped(st) && i < FREELIST_SIZE && ListOk(st, i, l) && j < |l|
    ensures NodeOk(st, i, l, j) && RefIn(st, st.pages[l[j]].pprev) && LinkIn(st, st.pages[l[j]].next)
    ensures var st', l' := Unlinked(st, l[j]), Removed(l, j);
            Shaped(st') && st'.head[i] == At(l', 0, i) && st'.tails[i] == Before(l', |l'|, i) && Distinct(l')
  {
    assert NodeOk(st, i, l, j);
    if j > 0 {
      assert NodeOk(st, i, l, j - 1);
    }
    if j + 1 < |l| {
      assert NodeOk(st, i, l, j + 1);
    }
  }

  lemma UnlinkOk(st: Store, i: nat, l: seq<nat>, j: nat)
    requires Shaped(st) && i < FREELIST_SIZE && ListOk(st, i, l) && j < |l|
    ensures NodeOk(st, i, l, j) && RefIn(st, st.pages[l[j]].pprev) && LinkIn(st, st.pages[l[j]].next)
    ensures Shaped(Unlinked(st, l[j])) && ListOk(Unlinked(st, l[j]), i, Removed(l, j))
  {
    UnlinkedEnds(st, i, l, j);
    var st', l' := Unlinked(st, l[j]), Removed(l, j);
    hide Unlinked, Distinct, NodeOk;
    forall k | 0 <= k < |l'| ensures NodeOk(st', i, l', k) {
      UnlinkedAt(st, i, l, j, if k < j then k else k + 1);
    }
  }

  /** A list is not affected by changes to other lists and other pages. */
  lemma ListFrame(st: Store, st': Store, i: nat, l: seq<nat>)
    requires i < |st.head| == |st'.head| && i < |st.tails| == |st'.tails| && ListOk(st, i, l)
    requires st'.head[i] == st.head[i] && st'.tails[i] == st.tails[i] && |st'.pages| == |st.pages|
    requires forall p | p in l && p < |st.pages| :: st'.pages[p] == st.pages[p]
    ensures ListOk(st', i, l)
  {
    forall j | 0 <= j < |l| ensures NodeOk(st', i, l, j) {
      assert NodeOk(st, i, l, j) && l[j] in l;
    }
  }

  // ----- all lists together -----

  /** The lists hold the chunks, by order, and the header of every chunk gives its order. */
  ghost predicate Indexes(st: Store, lists: seq<seq<nat>>, chunks: map<nat, nat>) {
    && Shaped(st) && |lists| == FREELIST_SIZE
    && (forall i | 0 <= i < FREELIST_SIZE :: ListOk(st, i, lists[i]))
    && (forall i, p | 0 <= i < FREELIST_SIZE :: p in lists[i] <==> p in chunks && chunks[p] == i)
    && (forall p | p in chunks :: chunks[p] < FREELIST_SIZE && p < |st.pages| && st.pages[p].level == chunks[p])
  }

  lemma PushIndexes(st: Store, lists: seq<seq<nat>>, chunks: map<nat, nat>, p: nat, i: nat)
    requires Indexes(st, lists, chunks) && p !in chunks && p < |st.pages| && i < FREELIST_SIZE
    ensures LinkIn(st, st.head[i])
    ensures Indexes(Pushed(st, p, i), lists[i := [p] + lists[i]], chunks[p := i])
  {
    PushOk(st, p, i, lists[i]);
    var st', lists' := Pushed(st, p, i), lists[i := [p] + lists[i]];
    assert st.head[i].Chunk? ==> st.head[i].page in lists[i];
    hide ListOk;
    forall k | 0 <= k < FREELIST_SIZE ensures ListOk(st', k, lists'[k]) {
      if k != i {
        ListFrame(st, st', k, lists[k]);
      }
    }
    assert forall q | q in lists'[i] :: q == p || q in lists[i];
  }

  /** The pages whose headers an unlinking changes. */
  lemma UnlinkTouches(st: Store, i: nat, l: seq<nat>, j: nat, q: nat)
    requires Shaped(st) && i < FREELIST_SIZE && ListOk(st, i, l) && j < |l| && q < |st.pages|
    requires NodeOk(st, i, l, j) && RefIn(st, st.pages[l[j]].pprev) && LinkIn(st, st.pages[l[j]].next)
    ensures var st' := Unlinked(st, l[j]);
            && Shaped(st') && |st'.pages| == |st.pages| && st'.pages[q].level == st.pages[q].level
            && (q !in l ==> st'.pages[q] == st.pages[q])
            && forall k | 0 <= k < FREELIST_SIZE && k != i :: st'.head[k] == st.head[k] && st'.tails[k] == st.tails[k]
  {
  }

  lemma UnlinkIndexes(st: Store, lists: seq<seq<nat>>, chunks: map<nat, nat>, p: nat) returns (j: nat)
    requires Indexes(st, lists, chunks) && p in chunks
    ensures RefIn(st, st.pages[p].pprev) && LinkIn(st, st.pages[p].next)
    ensures var i := chunks[p];
            && j < |lists[i]| && lists[i][j] == p
            && Indexes(Unlinked(st, p), lists[i := Removed(lists[i], j)], chunks - {p})
  {
    var i := chunks[p];
    var l := lists[i];
    assert p in l;
    j :| 0 <= j < |l| && l[j] == p;
    UnlinkOk(st, i, l, j);
    var st', lists' := Unlinked(st, p), lists[i := Removed(l, j)];
    forall q: nat | q < |st.pages|
      ensures st'.pages[q].level == st.pages[q].level && (q !in l ==> st'.pages[q] == st.pages[q])
    {
      UnlinkTouches(st, i, l, j, q);
    }
    UnlinkTouches(st, i, l, j, p);
    RemovedIs(l, j);
    hide ListOk, Unlinked, NodeOk, Removed;
    forall k | 0 <= k < FREELIST_SIZE ensures ListOk(st', k, lists'[k]) {
      if k != i {
        ListFrame(st, st', k, lists[k]);
      }
    }
  }

  lemma RemovedIs(l: seq<nat>, j: nat)
    requires Distinct(l) && j < |l|
    ensures forall p :: p in Removed(l, j) <==> p in l && p != l[j]
  {
    var r := Removed(l, j);
    forall p | p in l && p != l[j] ensures p in r {
      var k :| 0 <= k < |l| && l[k] == p;
      assert r[if k < j then k else k - 1] == p;
    }
    forall k | 0 <= k < |r| ensures r[k] in l && r[k] != l[j] {
      assert r[k] == l[if k < j then k else k + 1];
    }
  }

  /** Whatever its owner writes to an allocated page does not matter to the lists. */
  lemma ScribbleIndexes(st: Store, lists: seq<seq<nat>>, chunks: map<nat, nat>, p: nat, h: Header)
    requires Indexes(st, lists, chunks) && p !in chunks && p < |st.pages|
    ensures Indexes(st.(pages := st.pages[p := h]), lists, chunks)
  {
    var st' := st.(pages := st.pages[p := h]);
    forall k | 0 <= k < FREELIST_SIZE ensures ListOk(st', k, lists[k]) {
      ListFrame(st, st', k, lists[k]);
    }
  }
}
