/**
  The Mini-OS page allocator (extras/mini-os/mm.c): the bitmap, the free lists and the headers in
  the pages, changed together by alloc_pages and free_pages.
 */
module PageAllocator {
  import opened Common
  import opened AllocBitmap
  import opened Buddy
  import opened FreeLists

  // ----- the bitmap as flags -----

  ghost function BitsOf(words: seq<Word>): (bits: Bits)
    ensures |bits| == PAGES_PER_MAPWORD * |words|
  {
    seq(PAGES_PER_MAPWORD * |words|, x requires 0 <= x < PAGES_PER_MAPWORD * |words| => Allocated(words, x))
  }

  lemma AllocIsMark(was: seq<Word>, now: seq<Word>, p: nat, k: nat)
    requires Marked(was, now, p, p + Size(k), true) && Starts(p, k)
    ensures BitsOf(now) == Mark(BitsOf(was), p, k)
  {
    hide Allocated;
    forall x: nat | x < |BitsOf(was)| ensures BitsOf(now)[x] == Mark(BitsOf(was), p, k)[x] {
      SameIs(x, p, k);
    }
  }

  lemma FreeIsUnmark(was: seq<Word>, now: seq<Word>, p: nat, k: nat)
    requires Marked(was, now, p, p + Size(k), false) && Starts(p, k)
    requires forall x: nat | Same(x, p, k) :: x < |BitsOf(was)| && Used(BitsOf(was), x)
    ensures BitsOf(was) == Mark(BitsOf(now), p, k) && Free(BitsOf(now), p, k)
  {
    hide Allocated;
    forall x: nat | x < |BitsOf(was)| ensures BitsOf(was)[x] == Mark(BitsOf(now), p, k)[x] {
      SameIs(x, p, k);
    }
    forall x: nat | Same(x, p, k) ensures !Used(BitsOf(now), x) {
      SameIs(x, p, k);
    }
  }

  // ----- steps -----

  /** Everything the lists and headers must satisfy while one block is set aside. */
  ghost predicate Apart(bits: Bits, st: Store, lists: seq<seq<nat>>, chunks: map<nat, nat>, p: nat, k: nat) {
    && Indexes(st, lists, chunks) && Canonical(Mark(bits, p, k), chunks)
    && Starts(p, k) && Free(bits, p, k)
  }

  lemma TakeStep(bits: Bits, st: Store, lists: seq<seq<nat>>, chunks: map<nat, nat>, p: nat) returns (j: nat)
    requires Indexes(st, lists, chunks) && Canonical(bits, chunks) && p in chunks
    ensures RefIn(st, st.pages[p].pprev) && LinkIn(st, st.pages[p].next)
    ensures var k := chunks[p];
            j < |lists[k]| && Apart(bits, Unlinked(st, p), lists[k := Removed(lists[k], j)], chunks - {p}, p, k)
  {
    var k := chunks[p];
    assert IsChunk(bits, p, k);
    j := UnlinkIndexes(st, lists, chunks, p);
    assert Flip(bits, Mark(bits, p, k), p, k, true);
    TakeChunk(bits, Mark(bits, p, k), chunks, p);
  }

  lemma SplitStep(bits: Bits, st: Store, lists: seq<seq<nat>>, chunks: map<nat, nat>, p: nat, k: nat)
    requires Apart(bits, st, lists, chunks, p, k + 1) && k < FREELIST_SIZE && |bits| >= |st.pages|
    requires p + Size(k) < |st.pages|
    ensures var q := p + Size(k);
            && LinkIn(st, st.head[k])
            && Apart(bits, Pushed(st, q, k), lists[k := [q] + lists[k]], chunks[q := k], p, k)
  {
    var q := p + Size(k);
    SplitMark(bits, p, k);
    GiveChunk(Mark(bits, p, k + 1), Mark(bits, p, k), chunks, q, k);
    PushIndexes(st, lists, chunks, q, k);
  }

  lemma MergeStep(bits: Bits, st: Store, lists: seq<seq<nat>>, chunks: map<nat, nat>, f: nat, k: nat, b: nat)
      returns (j: nat)
    requires Apart(bits, st, lists, chunks, f, k) && b in chunks && chunks[b] == k && f != b && Same(b, f, k + 1)
    ensures RefIn(st, st.pages[b].pprev) && LinkIn(st, st.pages[b].next)
    ensures var p := if f < b then f else b;
            j < |lists[k]| && Apart(bits, Unlinked(st, b), lists[k := Removed(lists[k], j)], chunks - {b}, p, k + 1)
  {
    assert IsChunk(Mark(bits, f, k), b, k);
    MergeMark(bits, f, b, k);
    TakeChunk(Mark(bits, f, k), Mark(bits, if f < b then f else b, k + 1), chunks, b);
    j := UnlinkIndexes(st, lists, chunks, b);
  }

  /** The block set aside is linked in when its buddy is not free. */
  lemma PutBack(bits: Bits, st: Store, lists: seq<seq<nat>>, chunks: map<nat, nat>, f: nat, k: nat)
    requires Apart(bits, st, lists, chunks, f, k) && k < FREELIST_SIZE && f < |st.pages| && !Free(bits, f, k + 1)
    ensures LinkIn(st, st.head[k])
    ensures Indexes(Pushed(st, f, k), lists[k := [f] + lists[k]], chunks[f := k]) && Canonical(bits, chunks[f := k])
  {
    assert Flip(Mark(bits, f, k), bits, f, k, false);
    GiveChunk(Mark(bits, f, k), bits, chunks, f, k);
    PushIndexes(st, lists, chunks, f, k);
  }

  lemma UsedIsNoChunk(bits: Bits, chunks: map<nat, nat>, p: nat)
    requires Canonical(bits, chunks) && Used(bits, p)
    ensures p !in chunks
  {
    assert p in chunks ==> IsChunk(bits, p, chunks[p]);
  }

  function BuddyOf(f: nat, k: nat): int {
    if Up(f, k) % 2 == 1 then f - Size(k) else f + Size(k)
  }

  lemma BuddyIs(f: nat, k: nat)
    requires Starts(f, k)
    ensures var b := BuddyOf(f, k);
            b >= 0 && b != f && Starts(b, k) && Same(b, f, k + 1) && !Same(b, f, k)
  {
    Halves(f, k);
    if Up(f, k) % 2 == 1 {
      Halves(f - Size(k), k);
    }
  }

  /** The two tests of free_pages decide whether the buddy is free as a whole. */
  lemma MergeTest(bits: Bits, st: Store, lists: seq<seq<nat>>, chunks: map<nat, nat>, f: nat, k: nat, b: nat)
    requires Apart(bits, st, lists, chunks, f, k) && b == BuddyOf(f, k)
    ensures !Used(bits, b) ==> b in chunks && b < |st.pages|
    ensures !Used(bits, b) && st.pages[b].level == k ==> chunks[b] == k
    ensures Used(bits, b) || st.pages[b].level != k ==> !Free(bits, f, k + 1)
  {
    var marked := Mark(bits, f, k);
    BuddyIs(f, k);
    FreeFits(bits, f, k);
    if !Used(bits, b) {
      HeaderIsCurrent(marked, chunks, f, k, b);
      if Free(bits, f, k + 1) {
        BuddyFree(bits, f, k, b);
      }
    }
  }

  lemma BuddyFree(bits: Bits, f: nat, k: nat, b: nat)
    requires Free(bits, f, k + 1) && Same(b, f, k + 1) && !Same(b, f, k)
    ensures Free(Mark(bits, f, k), b, k)
  {
    forall x: nat | Same(x, b, k) ensures !Used(Mark(bits, f, k), x) {
      SameUp(x, b, k, k + 1);
      assert Same(x, f, k + 1);
    }
  }

  lemma OrderBound(bits: Bits, p: nat, k: nat)
    requires Free(bits, p, k) && |bits| < Size(FREELIST_SIZE)
    ensures k < FREELIST_SIZE
  {
    FreeFits(bits, p, k);
    if k > FREELIST_SIZE {
      SizeGrows(FREELIST_SIZE, k);
    }
  }

  // ----- initialisation -----

  const PAGE_SIZE: nat := 4096

  function RoundUp(x: nat): nat { (x + PAGE_SIZE - 1) / PAGE_SIZE * PAGE_SIZE }

  /** The bytes set aside for the bitmap of a memory that ends with page `end`. */
  function BitmapBytes(end: nat): nat { RoundUp((end * PAGE_SIZE + 1) / (8 * PAGE_SIZE)) }

  /** The bitmap has a bit for every page, and for the one after the last, which free_pages may
      look at, exactly if the pages do not end within eight of a multiple of 32768. */
  lemma BitmapCoversIff(end: nat)
    ensures end < 8 * BitmapBytes(end) <==> end / 8 % PAGE_SIZE != 0
  {
    var q, r := end / 8, end % 8;
    assert (end * 4096 + 1) / 32768 == q;
    var a, b := q / 4096, q % 4096;
    assert (q + 4095) / 4096 == if b == 0 then a else a + 1;
  }

  /** The bitmap with everything from page m on regarded as allocated. */
  function Mask(bits: Bits, m: nat): (r: Bits)
    ensures |r| == |bits|
  {
    seq(|bits|, x requires 0 <= x < |bits| => x >= m || bits[x])
  }

  /** No free block reaches across the beginning of page m. */
  ghost predicate NoStraddle(bits: Bits, m: nat) {
    forall j: nat | Free(bits, m, j) :: Starts(m, j)
  }

  /** The free pages are those from lo up to hi. */
  ghost predicate Range(bits: Bits, lo: nat, hi: nat) {
    hi <= |bits| && forall x: nat :: Used(bits, x) <==> !(lo <= x < hi)
  }

  lemma RangeBegins(bits: Bits, lo: nat, hi: nat)
    requires Range(bits, lo, hi)
    ensures NoStraddle(bits, lo)
  {
    forall j: nat | Free(bits, lo, j) ensures Starts(lo, j) {
      FreeFits(bits, lo, j);
    }
  }

  /** The largest aligned block at m that fits is a chunk. */
  lemma LargestIsChunk(bits: Bits, lo: nat, hi: nat, m: nat, i: nat)
    requires Range(bits, lo, hi) && NoStraddle(bits, m) && lo <= m && Starts(m, i) && m + Size(i) <= hi
    requires !(Starts(m, i + 1) && m + Size(i + 1) <= hi)
    ensures IsChunk(bits, m, i)
  {
    forall x: nat | Same(x, m, i) ensures !Used(bits, x) {
      SameIs(x, m, i);
    }
    if Free(bits, m, i + 1) {
      FreeFits(bits, m, i + 1);
      SameIs(m + Size(i + 1) - 1, m, i + 1);
    }
  }

  lemma NextBegins(bits: Bits, m: nat, i: nat)
    requires NoStraddle(bits, m) && IsChunk(bits, m, i)
    ensures NoStraddle(bits, m + Size(i))
  {
    var m' := m + Size(i);
    forall j: nat | Free(bits, m', j) ensures Starts(m', j) {
      var s := Down(Up(m', j), j);
      FreeFits(bits, m', j);
      if s < m' {
        BlockIs(m' - 1, Up(m', j), j);
        SameIs(m' - 1, m, i);
        if i < j {
          SameUp(m' - 1, m, i, j);
          FreeDown(bits, m', i + 1, m, j);
          assert false;
        }
        DownNext(Up(m, i), i);
        UpDown(Up(m, i) + 1, i);
        StartsDown(m', j, i);
      }
    }
  }

  lemma OddIsNoStart(m: nat, i: nat)
    ensures Up(m, i) % 2 == 1 ==> !Starts(m, i + 1)
  {
    Halves(m, i);
    if Starts(m, i + 1) {
      UpDown(2 * Up(m, i + 1), i);
    }
  }

  lemma {:induction false} SizeSum(a: nat, b: nat)
    ensures Size(a + b) == Size(a) * Size(b)
  {
    if a > 0 {
      SizeSum(a - 1, b);
      assert a - 1 + b == a + b - 1;
    }
  }

  lemma QuarterSize()
    ensures Size(13) == 8192
  {
    assert Size(3) == 8;
    SizeSum(3, 3);
    SizeSum(6, 6);
    assert Size(13) == 2 * Size(12);
  }

  lemma LastSize()
    ensures Size(FREELIST_SIZE) == 0x10_0000_0000_0000
  {
    QuarterSize();
    hide Size;
    SizeSum(13, 13);
    SizeSum(26, 26);
  }

  lemma RoundUpIs(x: nat)
    ensures x <= RoundUp(x) < x + PAGE_SIZE && RoundUp(x) % 8 == 0
  {
    var n := (x + 4095) / 4096;
    assert RoundUp(x) == 4096 * n == 8 * (512 * n);
  }

  lemma BitmapFits(end: nat)
    requires end < 0x8_0000_0000_0000 && end / 8 % PAGE_SIZE != 0
    ensures end < 64 * (BitmapBytes(end) / 8) < Size(FREELIST_SIZE)
  {
    BitmapCoversIff(end);
    LastSize();
    hide Size;
    var q := end / 8;
    assert (end * 4096 + 1) / 32768 == q;
    RoundUpIs(q);
    hide RoundUp;
  }

  lemma MaskAll(bits: Bits, lo: nat, hi: nat)
    requires Range(bits, lo, hi)
    ensures Canonical(Mask(bits, lo), map[]) && Mask(bits, hi) == bits
  {
    forall p: nat, k: nat ensures !IsChunk(Mask(bits, lo), p, k) {
      assert Used(bits, p) <==> !(lo <= p < hi);
      assert Same(p, p, k) && Used(Mask(bits, lo), p);
    }
    forall x | 0 <= x < |bits| ensures Mask(bits, hi)[x] == bits[x] {
      assert Used(bits, x) <==> !(lo <= x < hi);
    }
  }

  lemma MaskStep(bits: Bits, chunks: map<nat, nat>, m: nat, i: nat)
    requires Canonical(Mask(bits, m), chunks) && IsChunk(bits, m, i)
    ensures m !in chunks && Canonical(Mask(bits, m + Size(i)), chunks[m := i])
  {
    var was, now := Mask(bits, m), Mask(bits, m + Size(i));
    assert Flip(was, now, m, i, false) by {
      forall x: nat ensures Same(x, m, i) <==> m <= x < m + Size(i) {
        SameIs(x, m, i);
      }
      assert forall x: nat | Same(x, m, i) :: !Used(bits, x);
    }
    assert !Free(now, m, i + 1) by {
      var y: nat :| Same(y, m, i + 1) && Used(bits, y);
      assert Used(now, y);
    }
    GiveChunk(was, now, chunks, m, i);
  }

  /** p begins a smallest chunk of at least the order. */
  ghost predicate BestFit(chunks: map<nat, nat>, p: nat, order: nat) {
    p in chunks && chunks[p] >= order && forall q | q in chunks && chunks[q] >= order :: chunks[p] <= chunks[q]
  }

  // ----- blocks in use -----

  datatype Block = Block(page: nat, order: nat)

  /** The bitmap with all the blocks allocated. */
  function MarkAll(bits: Bits, bs: seq<Block>): (r: Bits)
    ensures |r| == |bits|
  {
    if bs == [] then bits else Mark(MarkAll(bits, bs[1..]), bs[0].page, bs[0].order)
  }

  /** Managed blocks, free in the bitmap, no two of which meet. */
  ghost predicate Disjoint(bits: Bits, bs: seq<Block>) {
    && (forall i | 0 <= i < |bs| :: Starts(bs[i].page, bs[i].order) && Free(bits, bs[i].page, bs[i].order))
    && (forall i, j, x: nat | 0 <= i < j < |bs| && Same(x, bs[i].page, bs[i].order) ::
          !Same(x, bs[j].page, bs[j].order))
  }

  lemma {:induction false} MarkAllAt(bits: Bits, bs: seq<Block>, x: nat)
    requires x < |bits|
    ensures MarkAll(bits, bs)[x] <==> bits[x] || exists i :: 0 <= i < |bs| && Same(x, bs[i].page, bs[i].order)
  {
    if bs != [] {
      MarkAllAt(bits, bs[1..], x);
      assert forall i | 1 <= i < |bs| :: bs[i] == bs[1..][i - 1];
      if i :| 0 <= i < |bs| && Same(x, bs[i].page, bs[i].order) {
        assert i > 0 ==> Same(x, bs[1..][i - 1].page, bs[1..][i - 1].order);
      }
    }
  }

  /** Giving back the first of the blocks leaves the others allocated. */
  lemma FirstFreed(bits: Bits, bs: seq<Block>, now: Bits)
    requires bs != [] && Disjoint(bits, bs) && Mark(now, bs[0].page, bs[0].order) == MarkAll(bits, bs)
    requires Free(now, bs[0].page, bs[0].order)
    ensures now == MarkAll(bits, bs[1..])
  {
    var rest, p, k := bs[1..], bs[0].page, bs[0].order;
    assert |now| == |bits| by {
      assert |Mark(now, p, k)| == |bits|;
    }
    forall x: nat | x < |bits| ensures now[x] == MarkAll(bits, rest)[x] {
      MarkAllAt(bits, rest, x);
      if Same(x, p, k) {
        assert !Used(bits, x) && !Used(now, x);
        assert forall i | 0 <= i < |rest| :: rest[i] == bs[i + 1];
      } else {
        assert Mark(now, p, k)[x] == now[x];
        assert MarkAll(bits, bs)[x] == MarkAll(bits, rest)[x];
      }
    }
  }

  lemma FirstUsed(bits: Bits, bs: seq<Block>)
    requires bs != [] && Disjoint(bits, bs)
    ensures forall x: nat | Same(x, bs[0].page, bs[0].order) :: Used(MarkAll(bits, bs), x)
  {
  }

  lemma RestApart(bits: Bits, bs: seq<Block>, i: nat)
    requires Disjoint(bits, bs) && i <= |bs|
    ensures Disjoint(bits, bs[i..])
  {
  }

  /** The order in which the blocks are listed does not matter to the bitmap. */
  lemma MarkAllSame(bits: Bits, bs: seq<Block>, cs: seq<Block>)
    requires forall b :: b in bs <==> b in cs
    ensures MarkAll(bits, bs) == MarkAll(bits, cs)
  {
    forall x: nat | x < |bits| ensures MarkAll(bits, bs)[x] == MarkAll(bits, cs)[x] {
      MarkAllAt(bits, bs, x);
      MarkAllAt(bits, cs, x);
      if i :| 0 <= i < |bs| && Same(x, bs[i].page, bs[i].order) {
        assert bs[i] in cs;
      }
      if i :| 0 <= i < |cs| && Same(x, cs[i].page, cs[i].order) {
        assert cs[i] in bs;
      }
    }
  }

  /** A block that is free beside the blocks in use meets none of them. */
  lemma NewIsDisjoint(bits: Bits, bs: seq<Block>, b: Block)
    requires Disjoint(bits, bs) && Starts(b.page, b.order) && Free(MarkAll(bits, bs), b.page, b.order)
    ensures Disjoint(bits, [b] + bs)
  {
    forall x: nat | Same(x, b.page, b.order)
      ensures !Used(bits, x) && forall i | 0 <= i < |bs| :: !Same(x, bs[i].page, bs[i].order)
    {
      assert !Used(MarkAll(bits, bs), x);
      MarkAllAt(bits, bs, x);
    }
    var cs := [b] + bs;
    forall i, j, x: nat | 0 <= i < j < |cs| && Same(x, cs[i].page, cs[i].order)
      ensures !Same(x, cs[j].page, cs[j].order)
    {
      if i > 0 {
        assert cs[i] == bs[i - 1] && cs[j] == bs[j - 1];
      } else {
        assert cs[j] == bs[j - 1];
      }
    }
  }

  function Without(bs: seq<Block>, i: nat): seq<Block>
    requires i < |bs|
  {
    bs[..i] + bs[i + 1..]
  }

  function Place(i: nat, k: nat): nat { if k == 0 then i else if k <= i then k - 1 else k }

  lemma MovedPlaces(bs: seq<Block>, i: nat)
    requires i < |bs|
    ensures var cs := [bs[i]] + Without(bs, i);
            && |cs| == |bs| && (forall k | 0 <= k < |cs| :: cs[k] == bs[Place(i, k)])
            && (forall b | b in bs :: b in cs)
  {
    var cs := [bs[i]] + Without(bs, i);
    forall k | 0 <= k < |bs| ensures bs[k] in cs {
      assert bs[k] == cs[if k < i then k + 1 else if k == i then 0 else k];
    }
  }

  lemma MovedApart(bits: Bits, bs: seq<Block>, i: nat, cs: seq<Block>)
    requires Disjoint(bits, bs) && i < |bs| == |cs| && forall k | 0 <= k < |cs| :: cs[k] == bs[Place(i, k)]
    ensures Disjoint(bits, cs)
  {
    hide Same;
    forall j, k, x: nat | 0 <= j < k < |cs| && Same(x, cs[j].page, cs[j].order)
      ensures !Same(x, cs[k].page, cs[k].order)
    {
      assert cs[j] == bs[Place(i, j)] && cs[k] == bs[Place(i, k)];
    }
  }

  /** The blocks with one of them in front. */
  lemma MovedFirst(bits: Bits, bs: seq<Block>, i: nat)
    requires Disjoint(bits, bs) && i < |bs|
    ensures Disjoint(bits, Without(bs, i)) && Disjoint(bits, [bs[i]] + Without(bs, i))
    ensures MarkAll(bits, [bs[i]] + Without(bs, i)) == MarkAll(bits, bs)
  {
    hide Disjoint, MarkAll;
    var cs := [bs[i]] + Without(bs, i);
    MovedPlaces(bs, i);
    MovedApart(bits, bs, i, cs);
    MarkAllSame(bits, bs, cs);
    assert cs[1..] == Without(bs, i);
    RestApart(bits, cs, 1);
  }

  // ----- histories -----

  datatype Request = Alloc(order: nat) | Release(which: nat)

  /** What a request does to the blocks in use: an allocation fails only if no block is free, and
      gives a block that meets none of them; a release takes one away. */
  ghost predicate Serves(before: Bits, live: seq<Block>, r: Request, live': seq<Block>) {
    match r
    case Alloc(order) =>
      if live' == live then
        order > FREELIST_SIZE || !exists x: nat :: Free(MarkAll(before, live), x, order)
      else
        |live'| == |live| + 1 && live'[0].order == order && live' == [live'[0]] + live
    case Release(i) => live' == if i < |live| then Without(live, i) else live
  }

  /** Lists that hold nothing, around any memory. */
  lemma EmptyIndexes(memory: seq<Header>)
    ensures var st := Store(seq(FREELIST_SIZE, (i: nat) => Tail(i)), seq(FREELIST_SIZE, (i: nat) => HeadOf(i)), memory);
            Indexes(st, seq(FREELIST_SIZE, _ => []), map[])
  {
  }

  class Allocator {
    const bitmap: array<Word>
    const lo: nat
    const hi: nat
    var st: Store
    ghost var bits: Bits
    ghost var lists: seq<seq<nat>>
    ghost var chunks: map<nat, nat>

    /** The managed pages are those from lo up to hi; the bitmap covers them and the page after. */
    ghost predicate Covered()
      reads this, bitmap
    {
      && bits == BitsOf(bitmap[..]) && hi < |bits| < Size(FREELIST_SIZE) && |st.pages| == hi
      && forall x: nat | x < lo || hi <= x :: Used(bits, x)
    }

    ghost predicate Valid()
      reads this, bitmap
    {
      Covered() && Indexes(st, lists, chunks) && Canonical(bits, chunks)
    }

    /** The page numbers up to which init_page_allocator places the bitmap, and which it manages. */
    static function FirstManaged(minAddr: nat, maxAddr: nat): nat {
      (RoundUp(minAddr) + BitmapBytes(maxAddr / PAGE_SIZE)) / PAGE_SIZE
    }

    /** init_page_allocator, over memory with arbitrary contents. */
    constructor (minAddr: nat, maxAddr: nat, memory: seq<Header>)
      requires maxAddr < 0x8000_0000_0000_0000 && |memory| == maxAddr / PAGE_SIZE
      requires FirstManaged(minAddr, maxAddr) <= maxAddr / PAGE_SIZE
      requires maxAddr / PAGE_SIZE / 8 % PAGE_SIZE != 0
      ensures Valid() && fresh(bitmap)
      ensures lo == FirstManaged(minAddr, maxAddr) && hi == maxAddr / PAGE_SIZE && Range(bits, lo, hi)
    {
      var end := maxAddr / PAGE_SIZE;
      hi := end;
      lo := FirstManaged(minAddr, maxAddr);
      var words := BitmapBytes(end) / 8;
      bitmap := new Word[words](_ => ONES);
      st := Store(seq(FREELIST_SIZE, (i: nat) => Tail(i)), seq(FREELIST_SIZE, (i: nat) => HeadOf(i)), memory);
      bits, lists, chunks := [], seq(FREELIST_SIZE, _ => []), map[];
      new;
      EmptyIndexes(memory);
      BitmapFits(end);
      SetUp();
    }

    /** With all pages allocated and nothing listed, the managed pages are freed and listed. */
    method SetUp()
      requires forall w | 0 <= w < bitmap.Length :: bitmap[w] == ONES
      requires lo <= hi < 64 * bitmap.Length < Size(FREELIST_SIZE) && |st.pages| == hi
      requires chunks == map[] && Indexes(st, lists, chunks)
      modifies this`st, this`bits, this`lists, this`chunks, bitmap
      ensures Valid() && Range(bits, lo, hi)
    {
      hide Indexes, Canonical, Size, BitsOf;
      Open();
      Fill();
    }

    /** All pages are allocated, then the managed ones are freed. */
    method Open()
      requires forall w | 0 <= w < bitmap.Length :: bitmap[w] == ONES
      requires lo <= hi < 64 * bitmap.Length
      modifies this`bits, bitmap
      ensures bits == BitsOf(bitmap[..]) && Range(bits, lo, hi)
    {
      forall x: nat | x < 64 * bitmap.Length ensures Allocated(bitmap[..], x) {
        FullWord(0);
      }
      hide Allocated;
      MapFree(bitmap, lo, hi - lo);
      bits := BitsOf(bitmap[..]);
    }

    /** The managed pages are cut into chunks, each as large as its alignment and the end allow. */
    method Fill()
      requires Covered() && Range(bits, lo, hi) && lo <= hi && chunks == map[] && Indexes(st, lists, chunks)
      modifies this`st, this`lists, this`chunks
      ensures Valid()
    {
      hide Free, ListOk, Starts, Mask, Used, BitsOf;
      var m: nat := lo;
      RangeBegins(bits, lo, hi);
      MaskAll(bits, lo, hi);
      while m < hi
        invariant lo <= m <= hi && Covered() && NoStraddle(bits, m)
        invariant Indexes(st, lists, chunks) && Canonical(Mask(bits, m), chunks)
      {
        m := CutOff(m);
      }
    }

    /** One turn of it: the largest block that begins at m becomes a chunk. */
    method CutOff(m: nat) returns (next: nat)
      requires lo <= m < hi && Covered() && Range(bits, lo, hi) && NoStraddle(bits, m)
      requires Indexes(st, lists, chunks) && Canonical(Mask(bits, m), chunks)
      modifies this`st, this`lists, this`chunks
      ensures m < next <= hi && Covered() && NoStraddle(bits, next)
      ensures Indexes(st, lists, chunks) && Canonical(Mask(bits, next), chunks)
    {
      hide Free, ListOk, Starts, Pushed, Mask, Used, BitsOf;
      var i := Largest(m);
      LargestIsChunk(bits, lo, hi, m, i);
      MaskStep(bits, chunks, m, i);
      NextBegins(bits, m, i);
      OrderBound(bits, m, i);
      PushIndexes(st, lists, chunks, m, i);
      Link(m, i);
      next := m + Size(i);
    }

    /** A chunk becomes the head of its list. */
    method Link(f: nat, k: nat)
      requires Shaped(st) && f < |st.pages| && k < FREELIST_SIZE == |lists| && LinkIn(st, st.head[k])
      modifies this`st, this`lists, this`chunks
      ensures st == Pushed(old(st), f, k) && lists == old(lists)[k := [f] + old(lists)[k]]
      ensures chunks == old(chunks)[f := k]
    {
      st := Pushed(st, f, k);
      lists, chunks := lists[k := [f] + lists[k]], chunks[f := k];
    }

    method Largest(m: nat) returns (i: nat)
      requires m < hi
      ensures Starts(m, i) && m + Size(i) <= hi && !(Starts(m, i + 1) && m + Size(i + 1) <= hi)
    {
      i := 0;
      while Size(i + 1) <= hi - m && Up(m, i) % 2 == 0
        invariant Starts(m, i) && m + Size(i) <= hi
        decreases hi - Size(i)
      {
        Halves(m, i);
        i := i + 1;
      }
      OddIsNoStart(m, i);
    }

    /** An owner writes to the start of an allocated page. */
    method Scribble(p: nat, h: Header)
      requires Valid() && p < hi && Used(bits, p)
      modifies this`st
      ensures Valid()
    {
      UsedIsNoChunk(bits, chunks, p);
      ScribbleIndexes(st, lists, chunks, p, h);
      st := st.(pages := st.pages[p := h]);
    }

    lemma Managed(p: nat, k: nat)
      requires Covered() && Starts(p, k) && Free(bits, p, k)
      ensures lo <= p && p + Size(k) <= hi
    {
      SameIs(p, p, k);
      SameIs(p + Size(k) - 1, p, k);
    }

    /** The smallest order from `order` on whose list is not empty. */
    method FindOrder(order: nat) returns (i: nat)
      requires Valid() && order <= FREELIST_SIZE
      ensures order <= i <= FREELIST_SIZE
      ensures i < FREELIST_SIZE ==> st.head[i].Chunk? && st.head[i].page in chunks && chunks[st.head[i].page] == i
      ensures forall p | p in chunks && chunks[p] >= order :: chunks[p] >= i
      ensures i == FREELIST_SIZE ==> forall p | p in chunks :: chunks[p] < order
    {
      i := order;
      while i < FREELIST_SIZE && st.head[i].Tail?
        invariant order <= i <= FREELIST_SIZE
        invariant forall p | p in chunks :: !(order <= chunks[p] < i)
      {
        assert ListOk(st, i, lists[i]) && lists[i] == [];
        i := i + 1;
      }
      if i < FREELIST_SIZE {
        assert ListOk(st, i, lists[i]) && st.head[i].page in lists[i];
      }
    }

    /** The block at p is cut down to the order asked for; the second halves go to their lists. */
    method SplitDown(p: nat, i: nat, order: nat)
      requires Covered() && Apart(bits, st, lists, chunks, p, i) && order <= i < FREELIST_SIZE
      modifies this`st, this`lists, this`chunks
      ensures Covered() && Apart(bits, st, lists, chunks, p, order)
    {
      hide Free, Canonical, ListOk, Starts, Pushed, BitsOf;
      var k := i;
      while k != order
        invariant order <= k < FREELIST_SIZE && Covered() && Apart(bits, st, lists, chunks, p, k)
      {
        k := k - 1;
        Managed(p, k + 1);
        var spare := p + Size(k);
        SplitStep(bits, st, lists, chunks, p, k);
        Link(spare, k);
      }
    }

    /** The block set aside is marked as allocated. */
    method MarkAllocated(p: nat, k: nat)
      requires Covered() && Apart(bits, st, lists, chunks, p, k)
      modifies this`bits, bitmap
      ensures Valid() && bits == Mark(old(bits), p, k)
    {
      hide Canonical, Indexes, Starts;
      Managed(p, k);
      MapAlloc(bitmap, p, Size(k));
      AllocIsMark(old(bitmap[..]), bitmap[..], p, k);
      assert forall x: nat :: Used(bits, x) ==> Used(Mark(bits, p, k), x);
      bits := Mark(bits, p, k);
    }

    /** alloc_pages: a block of 2^order pages, or none if the bitmap has no free block of that order. */
    method AllocPages(order: nat) returns (r: Option<nat>)
      requires Valid() && order <= FREELIST_SIZE
      modifies this`st, this`bits, this`lists, this`chunks, bitmap
      ensures Valid()
      ensures r.None? <==> !exists x: nat :: Free(old(bits), x, order)
      ensures r.None? ==> bits == old(bits) && chunks == old(chunks)
      ensures r.Some? ==> Starts(r.value, order) && lo <= r.value && r.value + Size(order) <= hi
      ensures r.Some? ==> Free(old(bits), r.value, order) && bits == Mark(old(bits), r.value, order)
      ensures r.Some? ==> BestFit(old(chunks), r.value, order)
    {
      hide Free, Canonical, ListOk, Starts, Unlinked, BitsOf, Mark;
      EnoughIff(bits, chunks, order);
      var i := FindOrder(order);
      if i == FREELIST_SIZE {
        return None;
      }
      var p := st.head[i].page;
      ghost var j := TakeStep(bits, st, lists, chunks, p);
      st := Unlinked(st, p);
      lists, chunks := lists[i := Removed(lists[i], j)], chunks - {p};
      SplitDown(p, i, order);
      Managed(p, order);
      MarkAllocated(p, order);
      return Some(p);
    }

    /** One turn of the loop of free_pages: the buddy, if it is free as a whole, joins the block. */
    method Merge(f: nat, k: nat) returns (merged: bool, f': nat)
      requires Covered() && Apart(bits, st, lists, chunks, f, k) && k < FREELIST_SIZE
      modifies this`st, this`lists, this`chunks
      ensures merged ==> Covered() && Apart(bits, st, lists, chunks, f', k + 1)
      ensures !merged ==> !Free(bits, f, k + 1) && f' == f && unchanged(this)
    {
      hide Free, Canonical, ListOk, Starts, Unlinked, BitsOf, Mark;
      Managed(f, k);
      BuddyInMap(f, k);
      var b: nat := BuddyOf(f, k);
      MergeTest(bits, st, lists, chunks, f, k, b);
      if Allocated(bitmap[..], b) || st.pages[b].level != k {
        return false, f;
      }
      ghost var j := MergeStep(bits, st, lists, chunks, f, k, b);
      st := Unlinked(st, b);
      lists, chunks := lists[k := Removed(lists[k], j)], chunks - {b};
      return true, if f < b then f else b;
    }

    /** The block set aside is merged with its buddy as long as that is free as a whole. */
    method Coalesce(p: nat, order: nat)
      requires Covered() && Apart(bits, st, lists, chunks, p, order)
      modifies this`st, this`lists, this`chunks
      ensures Valid()
    {
      hide Free, Canonical, ListOk, Starts, Pushed, BitsOf, Mark;
      var f: nat, k: nat, merged := p, order, true;
      OrderBound(bits, f, k);
      while k < FREELIST_SIZE && merged
        invariant Covered() && Apart(bits, st, lists, chunks, f, k) && k < FREELIST_SIZE
        invariant !merged ==> !Free(bits, f, k + 1)
        decreases FREELIST_SIZE - k, if merged then 1 else 0
      {
        merged, f := Merge(f, k);
        if merged {
          k := k + 1;
          OrderBound(bits, f, k);
        }
      }
      Managed(f, k);
      PutBack(bits, st, lists, chunks, f, k);
      Link(f, k);
    }

    /** The first page of a buddy is in the map. */
    lemma BuddyInMap(f: nat, k: nat)
      requires Covered() && Starts(f, k) && f + Size(k) <= hi
      ensures BuddyOf(f, k) != f && Starts(f, k) && BuddyOf(f, k) >= 0 && Same(BuddyOf(f, k), f, k + 1)
      ensures 0 <= BuddyOf(f, k) < |bits| && (Used(bits, BuddyOf(f, k)) <==> Allocated(bitmap[..], BuddyOf(f, k)))
    {
      BuddyIs(f, k);
    }

    /** free_pages */
    method FreePages(p: nat, order: nat)
      requires Valid() && Starts(p, order) && lo <= p && p + Size(order) <= hi
      requires forall x: nat | Same(x, p, order) :: Used(bits, x)
      modifies this`st, this`bits, this`lists, this`chunks, bitmap
      ensures Valid()
      ensures old(bits) == Mark(bits, p, order) && Free(bits, p, order)
    {
      MarkFree(p, order);
      Coalesce(p, order);
    }

    /** However the memory came to be allocated, freeing all the blocks, in whatever order they are
        listed, restores the bitmap and the very chunks that belong to it. */
    method FreeAll(blocks: seq<Block>, ghost before: Bits, ghost chunks0: map<nat, nat>)
      requires Valid() && bits == MarkAll(before, blocks) && Disjoint(before, blocks) && Canonical(before, chunks0)
      requires forall i | 0 <= i < |blocks| :: lo <= blocks[i].page && blocks[i].page + Size(blocks[i].order) <= hi
      modifies this`st, this`bits, this`lists, this`chunks, bitmap
      ensures Valid() && bits == before && chunks == chunks0
    {
      hide Canonical, Indexes;
      var i := 0;
      assert blocks[0..] == blocks;
      while i < |blocks|
        invariant 0 <= i <= |blocks| && Valid() && bits == MarkAll(before, blocks[i..])
      {
        ghost var rest := blocks[i..];
        RestApart(before, blocks, i);
        FirstUsed(before, rest);
        FreePages(blocks[i].page, blocks[i].order);
        FirstFreed(before, rest, bits);
        assert rest[1..] == blocks[i + 1..];
        i := i + 1;
      }
      assert blocks[i..] == [];
      CanonicalUnique(bits, chunks, chunks0);
    }

    /** The blocks in use, on top of what was allocated before. */
    ghost predicate Holds(before: Bits, live: seq<Block>)
      reads this, bitmap
    {
      && Valid() && bits == MarkAll(before, live) && Disjoint(before, live)
      && forall i | 0 <= i < |live| :: lo <= live[i].page && live[i].page + Size(live[i].order) <= hi
    }

    method ServeAlloc(order: nat, live: seq<Block>, ghost before: Bits) returns (live': seq<Block>)
      requires Holds(before, live)
      modifies this`st, this`bits, this`lists, this`chunks, bitmap
      ensures Holds(before, live') && Serves(before, live, Alloc(order), live')
    {
      hide Canonical, Indexes, Free, Mark;
      if order > FREELIST_SIZE {
        return live;
      }
      var r := AllocPages(order);
      if r.None? {
        return live;
      }
      live' := [Block(r.value, order)] + live;
      NewIsDisjoint(before, live, Block(r.value, order));
      assert live'[1..] == live;
    }

    method ServeRelease(i: nat, live: seq<Block>, ghost before: Bits) returns (live': seq<Block>)
      requires Holds(before, live)
      modifies this`st, this`bits, this`lists, this`chunks, bitmap
      ensures Holds(before, live') && Serves(before, live, Release(i), live')
    {
      if i >= |live| {
        return live;
      }
      live' := live[..i] + live[i + 1..];
      ghost var moved := [live[i]] + live';
      MovedFirst(before, live, i);
      FirstUsed(before, moved);
      FreePages(live[i].page, live[i].order);
      FirstFreed(before, moved, bits);
      assert moved[1..] == live';
    }

    /** Any history of allocations and releases: no two blocks in use ever meet, and an allocation
        fails only if no block of its order is free.  lives[k] are the blocks in use after k requests. */
    method Serve(requests: seq<Request>) returns (live: seq<Block>, ghost lives: seq<seq<Block>>)
      requires Valid()
      modifies this`st, this`bits, this`lists, this`chunks, bitmap
      ensures Holds(old(bits), live) && |lives| == |requests| + 1 && lives[0] == [] && lives[|requests|] == live
      ensures forall k: nat | k < |requests| ::
        Disjoint(old(bits), lives[k]) && Serves(old(bits), lives[k], requests[k], lives[k + 1])
    {
      ghost var before := bits;
      live, lives := [], [[]];
      assert Holds(before, live);
      hide Allocator.Valid, Serves, MarkAll, Disjoint;
      for n := 0 to |requests|
        invariant Holds(before, live) && |lives| == n + 1 && lives[0] == [] && lives[n] == live
        invariant forall k: nat | k < n ::
          Disjoint(before, lives[k]) && Serves(before, lives[k], requests[k], lives[k + 1])
      {
        match requests[n] {
          case Alloc(order) => live := ServeAlloc(order, live, before);
          case Release(i) => live := ServeRelease(i, live, before);
        }
        lives := lives + [live];
      }
    }

    /** After any history, freeing what is still in use restores the bitmap and the very chunks from before. */
    method ServeAndFree(requests: seq<Request>)
      requires Valid()
      modifies this`st, this`bits, this`lists, this`chunks, bitmap
      ensures Valid() && bits == old(bits) && chunks == old(chunks)
    {
      ghost var before, chunks0 := bits, chunks;
      var live;
      ghost var lives;
      live, lives := Serve(requests);
      FreeAll(live, before, chunks0);
    }

    method MarkFree(p: nat, order: nat)
      requires Valid() && Starts(p, order) && lo <= p && p + Size(order) <= hi
      requires forall x: nat | Same(x, p, order) :: Used(bits, x)
      modifies this`bits, bitmap
      ensures Covered() && Apart(bits, st, lists, chunks, p, order)
      ensures old(bits) == Mark(bits, p, order) && Free(bits, p, order)
    {
      hide Canonical, Indexes;
      forall x: nat ensures Same(x, p, order) <==> p <= x < p + Size(order) {
        SameIs(x, p, order);
      }
      MapFree(bitmap, p, Size(order));
      FreeIsUnmark(old(bitmap[..]), bitmap[..], p, order);
      bits := BitsOf(bitmap[..]);
      assert forall x: nat :: Used(Mark(bits, p, order), x) ==> Same(x, p, order) || Used(bits, x);
    }
  }
}
