/**
  Binary buddies (extras/mini-os/mm.c): which chunks are free is determined by the allocation
  bitmap alone.  Pages are numbered; the block of order k around page p is the aligned run of
  2^k pages that contains p.
 */
module Buddy {
  // ----- blocks -----

  /** The number of the block of order k that contains page x. */
  function Up(x: nat, k: nat): nat {
    if k == 0 then x else Up(x, k - 1) / 2
  }

  function Size(k: nat): (n: nat)
    ensures n > 0
  {
    if k == 0 then 1 else 2 * Size(k - 1)
  }

  /** The first page of block b of order k. */
  function Down(b: nat, k: nat): nat
    decreases k
  {
    if k == 0 then b else Down(2 * b, k - 1)
  }

  /** Pages x and p lie in the same block of order k. */
  predicate Same(x: nat, p: nat, k: nat) { Up(x, k) == Up(p, k) }

  /** Page p begins a block of order k. */
  predicate Starts(p: nat, k: nat) { Down(Up(p, k), k) == p }

  lemma {:induction false} SameUp(x: nat, p: nat, j: nat, k: nat)
    requires Same(x, p, j) && j <= k
    ensures Same(x, p, k)
    decreases k
  {
    if j < k {
      SameUp(x, p, j, k - 1);
    }
  }

  lemma {:induction false} UpDown(b: nat, k: nat)
    ensures Up(Down(b, k), k) == b
    decreases k
  {
    if k > 0 {
      UpDown(2 * b, k - 1);
    }
  }

  lemma {:induction false} DownIs(b: nat, k: nat)
    ensures Down(b, k) == b * Size(k)
    decreases k
  {
    if k > 0 {
      DownIs(2 * b, k - 1);
      assert 2 * b * Size(k - 1) == b * (2 * Size(k - 1));
    }
  }

  lemma DownNext(b: nat, k: nat)
    ensures Down(b + 1, k) == Down(b, k) + Size(k)
  {
    DownIs(b, k);
    DownIs(b + 1, k);
    assert (b + 1) * Size(k) == b * Size(k) + Size(k);
  }

  /** A block is a run of pages. */
  lemma {:induction false} BlockIs(x: nat, b: nat, k: nat)
    ensures Up(x, k) == b <==> Down(b, k) <= x < Down(b, k) + Size(k)
    decreases k
  {
    if k > 0 {
      BlockIs(x, 2 * b, k - 1);
      BlockIs(x, 2 * b + 1, k - 1);
      DownNext(2 * b, k - 1);
    }
  }

  lemma SameIs(x: nat, p: nat, k: nat)
    requires Starts(p, k)
    ensures Same(x, p, k) <==> p <= x < p + Size(k)
  {
    BlockIs(x, Up(p, k), k);
  }

  lemma OneStart(p: nat, q: nat, k: nat)
    requires Starts(p, k) && Starts(q, k) && Same(p, q, k)
    ensures p == q
  {
  }

  /** A block begins where its first half begins, and its second half Size(k) later. */
  lemma Halves(p: nat, k: nat)
    ensures Starts(p, k + 1) ==>
      Starts(p, k) && Starts(p + Size(k), k) && Same(p + Size(k), p, k + 1) && !Same(p + Size(k), p, k)
    ensures Starts(p, k) ==> if Up(p, k) % 2 == 0 then Starts(p, k + 1) else p >= Size(k) && Starts(p - Size(k), k + 1)
  {
    var b := Up(p, k);
    UpDown(b, k);
    DownNext(b, k);
    UpDown(b + 1, k);
    if Starts(p, k) && b % 2 == 1 {
      DownNext(b - 1, k);
      UpDown(b - 1, k);
    }
    if Starts(p, k + 1) {
      UpDown(2 * Up(p, k + 1), k);
    }
  }

  /** Every block of order k + 1 is its two halves. */
  lemma InHalf(x: nat, p: nat, k: nat)
    requires Starts(p, k + 1) && Same(x, p, k + 1)
    ensures Same(x, p, k) || Same(x, p + Size(k), k)
  {
    Halves(p, k);
    var b := Up(p, k);
    UpDown(b, k);
    DownNext(b, k);
    UpDown(b + 1, k);
    UpDown(2 * Up(p, k + 1), k);
  }

  lemma {:induction false} SizeGrows(j: nat, k: nat)
    requires j < k
    ensures Size(j) < Size(k) && k < Size(k)
    decreases k
  {
    if j < k - 1 {
      SizeGrows(j, k - 1);
    } else if j > 0 {
      SizeGrows(j - 1, j);
    }
  }

  // ----- free blocks and chunks -----

  /** One flag per page, set if it is allocated; pages beyond the map count as allocated. */
  type Bits = seq<bool>

  predicate Used(bits: Bits, x: nat) { x >= |bits| || bits[x] }

  ghost predicate Free(bits: Bits, p: nat, k: nat) {
    forall x: nat | Same(x, p, k) :: !Used(bits, x)
  }

  /** A chunk is a free block that is not part of a larger one. */
  ghost predicate IsChunk(bits: Bits, p: nat, k: nat) {
    Starts(p, k) && Free(bits, p, k) && !Free(bits, p, k + 1)
  }

  /** The chunks, given by their first page and order, are exactly those of the bitmap. */
  ghost predicate Canonical(bits: Bits, chunks: map<nat, nat>) {
    forall p: nat, k: nat :: (p in chunks && chunks[p] == k) <==> IsChunk(bits, p, k)
  }

  /** The block of order k at p, and nothing else, has changed its state. */
  ghost predicate Flip(was: Bits, now: Bits, p: nat, k: nat, state: bool) {
    && |now| == |was|
    && (forall x: nat | Same(x, p, k) :: x < |was| && now[x] == state && was[x] == !state)
    && (forall x: nat | x < |was| && !Same(x, p, k) :: now[x] == was[x])
  }

  /** Parts of a free block are free. */
  lemma FreeDown(bits: Bits, p: nat, j: nat, x: nat, k: nat)
    requires Free(bits, p, k) && Same(x, p, k) && j <= k
    ensures Free(bits, x, j)
  {
    hide Up, Used;
    forall y: nat | Same(y, x, j) ensures !Used(bits, y) {
      SameUp(y, x, j, k);
    }
  }

  /** A free block that meets a chunk lies inside it. */
  lemma ChunkIsLargest(bits: Bits, p: nat, k: nat, q: nat, j: nat, x: nat)
    requires !Free(bits, p, k + 1) && Free(bits, q, j) && Same(x, p, k) && Same(x, q, j)
    ensures j <= k && Same(q, p, k)
  {
    hide Up, Used, Free;
    if j > k {
      SameUp(x, p, k, j);
      FreeDown(bits, q, k + 1, p, j);
    } else {
      SameUp(x, q, j, k);
    }
  }

  lemma ChunksApart(bits: Bits, p: nat, k: nat, q: nat, j: nat, x: nat)
    requires IsChunk(bits, p, k) && IsChunk(bits, q, j) && Same(x, p, k) && Same(x, q, j)
    ensures p == q && k == j
  {
    ChunkIsLargest(bits, p, k, q, j, x);
    ChunkIsLargest(bits, q, j, p, k, x);
    OneStart(p, q, k);
  }

  /** No two buddies are both chunks, and the chunks are a function of the bitmap. */
  lemma NoBuddies(bits: Bits, chunks: map<nat, nat>, p: nat, q: nat)
    requires Canonical(bits, chunks) && p in chunks && q in chunks && p != q && chunks[p] == chunks[q]
    ensures !Same(p, q, chunks[p] + 1)
  {
    var k := chunks[p];
    assert IsChunk(bits, p, k) && IsChunk(bits, q, k);
    if Same(p, q, k + 1) {
      forall x: nat | Same(x, p, k + 1) ensures !Used(bits, x) {
        BothHalves(x, p, q, k);
      }
    }
  }

  lemma BothHalves(x: nat, p: nat, q: nat, k: nat)
    requires Starts(p, k) && Starts(q, k) && p != q && Same(p, q, k + 1) && Same(x, p, k + 1)
    ensures Same(x, p, k) || Same(x, q, k)
  {
  }

  lemma CanonicalUnique(bits: Bits, c: map<nat, nat>, d: map<nat, nat>)
    requires Canonical(bits, c) && Canonical(bits, d)
    ensures c == d
  {
    forall p | p in c ensures p in d && d[p] == c[p] {
      assert IsChunk(bits, p, c[p]);
    }
    forall p | p in d ensures p in c {
      assert IsChunk(bits, p, d[p]);
    }
  }

  // ----- taking and giving back -----

  /** Marking a block as allocated can only make blocks less free. */
  lemma FlipFree(was: Bits, now: Bits, p: nat, k: nat, state: bool, q: nat, j: nat)
    requires Flip(was, now, p, k, state)
    ensures state && Free(now, q, j) ==> Free(was, q, j)
    ensures !state && Free(was, q, j) ==> Free(now, q, j)
  {
    hide Up;
  }

  /** A block that is free on the side where the flipped block is allocated does not meet it. */
  lemma FlipApart(was: Bits, now: Bits, p: nat, k: nat, state: bool, q: nat, j: nat, x: nat)
    requires Flip(was, now, p, k, state) && Free(if state then now else was, q, j) && Same(x, q, j)
    ensures !Same(x, p, k)
  {
    hide Up;
  }

  /** A chunk that is allocated as a whole leaves the other chunks as they were. */
  lemma TakeChunk(was: Bits, now: Bits, chunks: map<nat, nat>, p: nat)
    requires Canonical(was, chunks) && p in chunks && Flip(was, now, p, chunks[p], true)
    ensures Canonical(now, chunks - {p})
  {
    var k := chunks[p];
    assert IsChunk(was, p, k);
    forall q: nat, j: nat ensures (q in chunks - {p} && chunks[q] == j) <==> IsChunk(now, q, j) {
      if IsChunk(now, q, j) {
        TakeKeeps(was, now, p, k, q, j);
        FlipApart(was, now, p, k, true, q, j, q);
      } else if q in chunks && q != p && chunks[q] == j {
        assert IsChunk(was, q, j);
        TakeLeaves(was, now, p, k, q, j);
      }
    }
  }

  lemma TakeKeeps(was: Bits, now: Bits, p: nat, k: nat, q: nat, j: nat)
    requires IsChunk(was, p, k) && Flip(was, now, p, k, true) && IsChunk(now, q, j)
    ensures IsChunk(was, q, j)
  {
    FlipFree(was, now, p, k, true, q, j);
    if Free(was, q, j + 1) {
      var y: nat :| Same(y, q, j + 1) && Used(now, y);
      assert Same(y, p, k) by {
        hide Up;
      }
      ChunkIsLargest(was, p, k, q, j + 1, y);
      FlipApart(was, now, p, k, true, q, j, q);
      assert false;
    }
  }

  lemma TakeLeaves(was: Bits, now: Bits, p: nat, k: nat, q: nat, j: nat)
    requires IsChunk(was, p, k) && Flip(was, now, p, k, true) && IsChunk(was, q, j) && p != q
    ensures IsChunk(now, q, j)
  {
    forall x: nat | Same(x, q, j) ensures !Used(now, x) {
      if Same(x, p, k) {
        ChunksApart(was, p, k, q, j, x);
      }
    }
    FlipFree(was, now, p, k, true, q, j + 1);
  }

  /** A block given back, whose buddy is not free, becomes a chunk and leaves the others as they were. */
  lemma GiveChunk(was: Bits, now: Bits, chunks: map<nat, nat>, p: nat, k: nat)
    requires Canonical(was, chunks) && Starts(p, k) && Flip(was, now, p, k, false) && !Free(now, p, k + 1)
    ensures p !in chunks && Canonical(now, chunks[p := k])
  {
    assert Free(now, p, k) by {
      hide Up;
    }
    if p in chunks {
      assert IsChunk(was, p, chunks[p]);
      FlipApart(was, now, p, k, false, p, chunks[p], p);
      assert false;
    }
    forall q: nat, j: nat ensures (q in chunks[p := k] && chunks[p := k][q] == j) <==> IsChunk(now, q, j) {
      if q == p {
        if IsChunk(now, p, j) {
          ChunksApart(now, p, k, p, j, p);
        }
      } else if IsChunk(was, q, j) {
        GiveKeeps(was, now, p, k, q, j);
      } else if IsChunk(now, q, j) {
        GiveLeaves(was, now, p, k, q, j);
      }
    }
  }

  lemma GiveKeeps(was: Bits, now: Bits, p: nat, k: nat, q: nat, j: nat)
    requires Starts(p, k) && Flip(was, now, p, k, false) && !Free(now, p, k + 1) && IsChunk(was, q, j)
    ensures IsChunk(now, q, j)
  {
    FlipFree(was, now, p, k, false, q, j);
    if Free(now, q, j + 1) {
      var y: nat :| Same(y, q, j + 1) && Used(was, y);
      assert Same(y, p, k) by {
        hide Up;
      }
      ChunkIsLargest(now, p, k, q, j + 1, y);
      FlipApart(was, now, p, k, false, q, j, q);
      assert false;
    }
  }

  lemma GiveLeaves(was: Bits, now: Bits, p: nat, k: nat, q: nat, j: nat)
    requires Starts(p, k) && Flip(was, now, p, k, false) && !Free(now, p, k + 1) && Free(now, p, k)
    requires IsChunk(now, q, j) && p != q
    ensures IsChunk(was, q, j)
  {
    forall x: nat | Same(x, q, j) ensures !Used(was, x) {
      if Same(x, p, k) {
        ChunksApart(now, p, k, q, j, x);
      }
    }
    FlipFree(was, now, p, k, false, q, j + 1);
  }

  // ----- the chunk around a free page -----

  lemma {:induction false} StartsDown(p: nat, j: nat, k: nat)
    requires Starts(p, k) && j <= k
    ensures Starts(p, j)
    decreases k
  {
    if j < k {
      Halves(p, k - 1);
      StartsDown(p, j, k - 1);
    }
  }

  /** A free block lies inside the map. */
  lemma FreeFits(bits: Bits, p: nat, k: nat)
    requires Free(bits, p, k)
    ensures var s := Down(Up(p, k), k); s <= p < s + Size(k) <= |bits|
    ensures Starts(Down(Up(p, k), k), k) && Same(Down(Up(p, k), k), p, k)
  {
    var s := Down(Up(p, k), k);
    UpDown(Up(p, k), k);
    BlockIs(p, Up(p, k), k);
    BlockIs(s + Size(k) - 1, Up(p, k), k);
    assert !Used(bits, s + Size(k) - 1);
  }

  /** Every free block lies inside a chunk. */
  lemma {:induction false} Owner(bits: Bits, x: nat, j: nat) returns (p: nat, k: nat)
    requires Free(bits, x, j)
    ensures IsChunk(bits, p, k) && Same(x, p, k) && j <= k && p <= x
    decreases |bits| - Size(j)
  {
    FreeFits(bits, x, j);
    if Free(bits, x, j + 1) {
      FreeFits(bits, x, j + 1);
      p, k := Owner(bits, x, j + 1);
    } else {
      p, k := Down(Up(x, j), j), j;
      hide Up, Down, Used;
      assert IsChunk(bits, p, k);
    }
  }

  /** Some chunk has at least this order exactly if the bitmap has a free block of this order. */
  lemma EnoughIff(bits: Bits, chunks: map<nat, nat>, order: nat)
    requires Canonical(bits, chunks)
    ensures (exists p :: p in chunks && chunks[p] >= order) <==> (exists x: nat :: Free(bits, x, order))
  {
    if p :| p in chunks && chunks[p] >= order {
      assert IsChunk(bits, p, chunks[p]);
      FreeDown(bits, p, order, p, chunks[p]);
    }
    if x: nat :| Free(bits, x, order) {
      var p, k := Owner(bits, x, order);
      assert p in chunks && chunks[p] == k;
    }
  }

  /** The chunks cover the free pages, each exactly once. */
  lemma Partition(bits: Bits, chunks: map<nat, nat>, x: nat) returns (p: nat)
    requires Canonical(bits, chunks) && !Used(bits, x)
    ensures p in chunks && Same(x, p, chunks[p])
    ensures forall q | q in chunks && Same(x, q, chunks[q]) :: q == p
  {
    var k;
    p, k := Owner(bits, x, 0);
    assert p in chunks && chunks[p] == k;
    forall q | q in chunks && Same(x, q, chunks[q]) ensures q == p {
      assert IsChunk(bits, q, chunks[q]);
      ChunksApart(bits, p, k, q, chunks[q], x);
    }
  }

  /**
    The first page of the buddy of an allocated block, if it is free, is the head of a chunk, so
    the order in its header is current; the buddy is free as a whole exactly if that order is k.
   */
  lemma HeaderIsCurrent(bits: Bits, chunks: map<nat, nat>, f: nat, k: nat, b: nat)
    requires Canonical(bits, chunks) && Used(bits, f) && Starts(b, k) && Same(b, f, k + 1) && !Used(bits, b)
    ensures b in chunks && chunks[b] <= k && (Free(bits, b, k) <==> chunks[b] == k)
  {
    var p, j := Owner(bits, b, 0);
    if j > k {
      SameUp(b, f, k + 1, j);
      assert false;
    }
    StartsDown(b, j, k);
    OneStart(b, p, j);
    assert IsChunk(bits, b, j);
    if j < k && Free(bits, b, k) {
      FreeDown(bits, b, j + 1, b, k);
    }
  }

  // ----- marking -----

  /** The bitmap with a block regarded as allocated. */
  function Mark(bits: Bits, p: nat, k: nat): (r: Bits)
    ensures |r| == |bits|
  {
    seq(|bits|, x requires 0 <= x < |bits| => Same(x, p, k) || bits[x])
  }

  /** Splitting a block leaves its second half to be given back. */
  lemma SplitMark(bits: Bits, p: nat, k: nat)
    requires Starts(p, k + 1) && Free(bits, p, k + 1)
    ensures var q := p + Size(k);
            && Starts(p, k) && Free(bits, p, k) && Starts(q, k)
            && Flip(Mark(bits, p, k + 1), Mark(bits, p, k), q, k, false)
            && !Free(Mark(bits, p, k), q, k + 1)
  {
    var q := p + Size(k);
    Halves(p, k);
    FreeDown(bits, p, k, p, k + 1);
    FreeFits(bits, p, k);
    assert Used(Mark(bits, p, k), p);
    hide Up, Down, Size;
    forall x: nat | Same(x, q, k) ensures Same(x, p, k + 1) && !Same(x, p, k) {
      SameUp(x, q, k, k + 1);
    }
    forall x: nat | Same(x, p, k + 1) ensures Same(x, p, k) || Same(x, q, k) {
      InHalf(x, p, k);
    }
  }

  /** Merging a block with its free buddy. */
  lemma MergeMark(bits: Bits, f: nat, b: nat, k: nat)
    requires Starts(f, k) && Starts(b, k) && f != b && Same(b, f, k + 1)
    requires Free(bits, f, k) && Free(Mark(bits, f, k), b, k)
    ensures var p := if f < b then f else b;
            && Starts(p, k + 1) && Free(bits, p, k + 1)
            && Flip(Mark(bits, f, k), Mark(bits, p, k + 1), b, k, true)
  {
    var p, q := if f < b then f else b, if f < b then b else f;
    Halves(f, k);
    Halves(b, k);
    forall x: nat | Same(x, f, k + 1) ensures Same(x, f, k) || Same(x, b, k) {
      BothHalves(x, f, b, k);
    }
    forall x: nat | Same(x, b, k) ensures Same(x, f, k + 1) && !Same(x, f, k) {
      if Same(x, f, k) {
        OneStart(f, b, k);
      }
    }
    assert Starts(p, k + 1) by {
      UpDown(Up(p, k), k);
      UpDown(Up(q, k), k);
    }
    hide Up, Down, Size;
    forall x: nat | Same(x, p, k + 1) ensures !Used(bits, x) {
      assert Same(x, f, k + 1);
      if Same(x, b, k) {
        assert !Used(Mark(bits, f, k), x);
      }
    }
    forall x: nat | Same(x, b, k) ensures x < |bits| && !Used(Mark(bits, f, k), x) && Same(x, p, k + 1) {
    }
  }
}
