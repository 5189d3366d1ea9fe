/**
  The allocation bitmap of the Mini-OS page allocator (extras/mini-os/mm.c): one bit per page
  in 64-bit words, set if the page is allocated.
 */
module AllocBitmap {
  type Word = bv64

  const PAGES_PER_MAPWORD: nat := 64

  // ----- single bits -----

  function Shift(x: Word, n: nat): Word
    decreases n
  {
    if n == 0 then x else Shift(x << 1, n - 1)
  }

  /** The word with only bit n set. */
  function One(n: nat): Word { Shift(1, n) }

  /** The bits below n, and the bits from n on. */
  function Below(n: nat): Word { One(n) - 1 }

  function From(n: nat): Word { -One(n) }

  predicate Test(w: Word, x: Word) { w & x != 0 }

  predicate Bit(w: Word, i: nat) { Test(w, One(i)) }

  predicate Single(x: Word) { x != 0 && x & (x - 1) == 0 }

  lemma {:induction false} ShiftLast(x: Word, n: nat)
    ensures Shift(x, n + 1) == Shift(x, n) << 1
    decreases n
  {
    if n > 0 {
      ShiftLast(x << 1, n - 1);
    }
  }

  lemma {:induction false} ShiftSum(x: Word, m: nat, n: nat)
    ensures Shift(Shift(x, m), n) == Shift(x, m + n)
    decreases m
  {
    if m > 0 {
      ShiftSum(x << 1, m - 1, n);
      assert m - 1 + n == m + n - 1;
    }
  }

  lemma {:induction false} ShiftZero(n: nat)
    ensures Shift(0, n) == 0
  {
    if n > 0 {
      ShiftZero(n - 1);
    }
  }

  lemma OneNext(n: nat)
    ensures One(n + 1) == One(n) << 1
  {
    ShiftLast(1, n);
  }

  lemma ShiftFour(x: Word, n: nat)
    ensures Shift(x, n + 4) == Shift(x << 1 << 1 << 1 << 1, n)
  {
    assert Shift(x, n + 4) == Shift(x << 1, n + 3) == Shift(x << 1 << 1, n + 2) == Shift(x << 1 << 1 << 1, n + 1);
  }

  lemma OneTop()
    ensures One(63) == 0x8000_0000_0000_0000 && One(64) == 0
  {
    var x: Word := 0x1000000000000000;
    assert Shift(x, 3) == Shift(x << 1, 2) == Shift(x << 1 << 1, 1) == x << 1 << 1 << 1;
    hide Shift;
    ShiftFour(1, 59);
    ShiftFour(0x10, 55);
    ShiftFour(0x100, 51);
    ShiftFour(0x1000, 47);
    ShiftFour(0x10000, 43);
    ShiftFour(0x100000, 39);
    ShiftFour(0x1000000, 35);
    ShiftFour(0x10000000, 31);
    ShiftFour(0x100000000, 27);
    ShiftFour(0x1000000000, 23);
    ShiftFour(0x10000000000, 19);
    ShiftFour(0x100000000000, 15);
    ShiftFour(0x1000000000000, 11);
    ShiftFour(0x10000000000000, 7);
    ShiftFour(0x100000000000000, 3);
    ShiftLast(1, 63);
  }

  lemma OneNonzero(n: nat)
    requires n < 64
    ensures One(n) != 0
  {
    OneTop();
    ShiftSum(1, n, 63 - n);
    ShiftZero(63 - n);
  }

  lemma {:induction false} OneSingle(n: nat)
    requires n < 64
    ensures Single(One(n))
  {
    OneNonzero(n);
    if n > 0 {
      OneSingle(n - 1);
      OneNext(n - 1);
      hide One;
    }
  }

  lemma OneApart(i: nat, j: nat)
    requires i < j < 64
    ensures One(i) != One(j)
  {
    hide Shift;
    OneTop();
    ShiftSum(1, i, 64 - j);
    ShiftSum(1, j, 64 - j);
    OneNonzero(i + 64 - j);
  }

  lemma OneDistinct(i: nat, j: nat)
    requires i < 64 && j < 64
    ensures Test(One(i), One(j)) <==> i == j
  {
    hide One;
    OneSingle(i);
    OneSingle(j);
    if i < j {
      OneApart(i, j);
      SingleDisjoint(One(i), One(j));
    } else if j < i {
      OneApart(j, i);
      SingleDisjoint(One(i), One(j));
    }
  }

  lemma SingleDisjoint(x: Word, y: Word)
    requires Single(x) && Single(y) && x != y
    ensures x & y == 0
  {
  }

  lemma NextBelow(x: Word)
    requires Single(x)
    ensures (x << 1) - 1 == (x - 1) | x
  {
  }

  lemma NegIsNot(x: Word)
    ensures -x == !(x - 1)
  {
  }

  lemma BitOps(a: Word, b: Word, i: nat)
    requires i < 64
    ensures Bit(a | b, i) <==> Bit(a, i) || Bit(b, i)
    ensures Bit(a & b, i) <==> Bit(a, i) && Bit(b, i)
    ensures Bit(!a, i) <==> !Bit(a, i)
  {
    hide Single, One, Test;
    OneSingle(i);
    TestOr(a, b, One(i));
    TestAnd(a, b, One(i));
    TestNot(a, One(i));
  }

  lemma TestOr(a: Word, b: Word, x: Word)
    ensures Test(a | b, x) <==> Test(a, x) || Test(b, x)
  {
    Distributes(a, b, x);
    OrZero(a & x, b & x);
  }

  lemma Distributes(a: Word, b: Word, x: Word)
    ensures (a | b) & x == (a & x) | (b & x)
  {
  }

  lemma OrZero(p: Word, q: Word)
    ensures p | q == 0 <==> p == 0 && q == 0
  {
  }

  lemma TestAnd(a: Word, b: Word, x: Word)
    requires Single(x)
    ensures Test(a & b, x) <==> Test(a, x) && Test(b, x)
  {
  }

  lemma TestNot(a: Word, x: Word)
    requires Single(x)
    ensures Test(!a, x) <==> !Test(a, x)
  {
  }

  lemma NoBits(i: nat)
    ensures !Bit(0, i) && Below(0) == 0
  {
  }

  lemma OneBit(n: nat, i: nat)
    requires n < 64 && i < 64
    ensures Bit(One(n), i) <==> n == i
  {
    OneDistinct(n, i);
  }

  lemma {:induction false} BelowBit(n: nat, i: nat)
    requires n < 64 && i < 64
    ensures Bit(Below(n), i) <==> i < n
  {
    hide One, Bit;
    NoBits(i);
    if n > 0 {
      BelowBit(n - 1, i);
      OneNext(n - 1);
      OneSingle(n - 1);
      NextBelow(One(n - 1));
      BitOps(Below(n - 1), One(n - 1), i);
      OneBit(n - 1, i);
    }
  }

  lemma FromBit(n: nat, i: nat)
    requires n < 64 && i < 64
    ensures Bit(From(n), i) <==> i >= n
  {
    hide One, Bit;
    NegIsNot(One(n));
    BitOps(Below(n), Below(n), i);
    BelowBit(n, i);
  }

  // ----- words -----

  function Or(a: Word, b: Word): Word { a | b }

  function And(a: Word, b: Word): Word { a & b }

  const ONES: Word := 0xffff_ffff_ffff_ffff

  lemma OpBits(a: Word, b: Word, i: nat)
    requires i < 64
    ensures Bit(Or(a, b), i) <==> Bit(a, i) || Bit(b, i)
    ensures Bit(And(a, b), i) <==> Bit(a, i) && Bit(b, i)
    ensures Bit(ONES, i) && !Bit(0, i)
  {
    hide Bit;
    BitOps(a, b, i);
    BitOps(0, 0, i);
    NoBits(i);
  }

  /** The bits of one word after a range of them has been set. */
  ghost predicate SetIn(was: Word, now: Word, lo: nat, hi: nat) {
    forall i | 0 <= i < 64 :: Bit(now, i) <==> Bit(was, i) || lo <= i < hi
  }

  ghost predicate ClearedIn(was: Word, now: Word, lo: nat, hi: nat) {
    forall i | 0 <= i < 64 :: Bit(now, i) <==> Bit(was, i) && !(lo <= i < hi)
  }

  lemma SetRange(w: Word, s: nat, e: nat)
    requires s < 64 && e < 64
    ensures SetIn(w, Or(w, And(Below(e), From(s))), s, e)
    ensures SetIn(w, Or(w, From(s)), s, 64) && SetIn(w, Or(w, Below(e)), 0, e)
  {
    hide Bit, Below, From, Or, And;
    forall i | 0 <= i < 64
      ensures Bit(Or(w, And(Below(e), From(s))), i) <==> Bit(w, i) || s <= i < e
      ensures Bit(Or(w, From(s)), i) <==> Bit(w, i) || s <= i < 64
      ensures Bit(Or(w, Below(e)), i) <==> Bit(w, i) || 0 <= i < e
    {
      BelowBit(e, i);
      FromBit(s, i);
      OpBits(Below(e), From(s), i);
      OpBits(w, And(Below(e), From(s)), i);
      OpBits(w, From(s), i);
      OpBits(w, Below(e), i);
    }
  }

  lemma ClearRange(w: Word, s: nat, e: nat)
    requires s < 64 && e < 64
    ensures s <= e ==> ClearedIn(w, And(w, Or(From(e), Below(s))), s, e)
    ensures ClearedIn(w, And(w, Below(s)), s, 64) && ClearedIn(w, And(w, From(e)), 0, e)
  {
    hide Bit, Below, From, Or, And;
    forall i | 0 <= i < 64
      ensures s <= e ==> (Bit(And(w, Or(From(e), Below(s))), i) <==> Bit(w, i) && !(s <= i < e))
      ensures Bit(And(w, Below(s)), i) <==> Bit(w, i) && !(s <= i < 64)
      ensures Bit(And(w, From(e)), i) <==> Bit(w, i) && !(0 <= i < e)
    {
      BelowBit(s, i);
      FromBit(e, i);
      OpBits(From(e), Below(s), i);
      OpBits(w, Or(From(e), Below(s)), i);
      OpBits(w, Below(s), i);
      OpBits(w, From(e), i);
    }
  }

  lemma FullWord(w: Word)
    ensures SetIn(w, ONES, 0, 64) && ClearedIn(w, 0, 0, 64)
  {
    hide Bit;
    forall i | 0 <= i < 64 ensures Bit(ONES, i) && !Bit(0, i) {
      OpBits(0, 0, i);
    }
  }

  // ----- the map -----

  /** allocated_in_map */
  predicate Allocated(words: seq<Word>, page: nat)
    requires page < PAGES_PER_MAPWORD * |words|
  {
    Bit(words[page / PAGES_PER_MAPWORD], page % PAGES_PER_MAPWORD)
  }

  /** Exactly the pages from first up to last have the given state, the others their old one. */
  ghost predicate Marked(was: seq<Word>, now: seq<Word>, first: nat, last: nat, state: bool) {
    && |now| == |was|
    && forall p | 0 <= p < PAGES_PER_MAPWORD * |was| ::
         Allocated(now, p) <==> if first <= p < last then state else Allocated(was, p)
  }

  /** Extending a marked range to the end of the next word, or into it. */
  lemma MarkWord(was: seq<Word>, now: seq<Word>, first: nat, last: nat, w: nat, hi: nat, x: Word, state: bool)
    requires Marked(was, now, first, last, state) && w < |was| && hi <= 64
    requires if first < last then last == 64 * w && first <= last else first / 64 == w && first == last
    requires var lo := if first < last then 0 else first % 64;
             lo <= hi && if state then SetIn(now[w], x, lo, hi) else ClearedIn(now[w], x, lo, hi)
    ensures Marked(was, now[w := x], first, 64 * w + hi, state)
  {
    hide Bit;
    var now' := now[w := x];
    forall p | 0 <= p < 64 * |was|
      ensures Allocated(now', p) <==> if first <= p < 64 * w + hi then state else Allocated(was, p)
    {
      var i := p % 64;
      assert p / 64 == w <==> 64 * w <= p < 64 * w + 64;
      assert Allocated(now, p) <==> if first <= p < last then state else Allocated(was, p);
      if p / 64 == w {
        assert p == 64 * w + i;
      }
    }
  }

  /** map_alloc */
  method MapAlloc(bitmap: array<Word>, first: nat, nr: nat)
    requires (first + nr) / PAGES_PER_MAPWORD < bitmap.Length
    modifies bitmap
    ensures Marked(old(bitmap[..]), bitmap[..], first, first + nr, true)
  {
    hide Bit, Below, From, Or, And, SetIn, Allocated;
    var curr, start := first / PAGES_PER_MAPWORD, first % PAGES_PER_MAPWORD;
    var last, end := (first + nr) / PAGES_PER_MAPWORD, (first + nr) % PAGES_PER_MAPWORD;
    ghost var was := bitmap[..];
    assert Marked(was, was, first, first, true);
    SetRange(bitmap[curr], start, end);
    if curr == last {
      MarkWord(was, bitmap[..], first, first, curr, end, Or(bitmap[curr], And(Below(end), From(start))), true);
      bitmap[curr] := Or(bitmap[curr], And(Below(end), From(start)));
      assert bitmap[..] == was[curr := bitmap[curr]];
    } else {
      MarkWord(was, bitmap[..], first, first, curr, 64, Or(bitmap[curr], From(start)), true);
      bitmap[curr] := Or(bitmap[curr], From(start));
      assert bitmap[..] == was[curr := bitmap[curr]];
      curr := curr + 1;
      while curr < last
        invariant first < 64 * curr <= 64 * last
        invariant Marked(was, bitmap[..], first, 64 * curr, true)
      {
        ghost var now := bitmap[..];
        FullWord(bitmap[curr]);
        MarkWord(was, now, first, 64 * curr, curr, 64, ONES, true);
        bitmap[curr] := ONES;
        assert bitmap[..] == now[curr := ONES];
        curr := curr + 1;
      }
      ghost var now := bitmap[..];
      SetRange(bitmap[curr], start, end);
      MarkWord(was, now, first, 64 * curr, curr, end, Or(bitmap[curr], Below(end)), true);
      bitmap[curr] := Or(bitmap[curr], Below(end));
      assert bitmap[..] == now[curr := bitmap[curr]];
    }
  }

  /** map_free */
  method MapFree(bitmap: array<Word>, first: nat, nr: nat)
    requires (first + nr) / PAGES_PER_MAPWORD < bitmap.Length
    modifies bitmap
    ensures Marked(old(bitmap[..]), bitmap[..], first, first + nr, false)
  {
    hide Bit, Below, From, Or, And, ClearedIn, Allocated;
    var curr, start := first / PAGES_PER_MAPWORD, first % PAGES_PER_MAPWORD;
    var last, end := (first + nr) / PAGES_PER_MAPWORD, (first + nr) % PAGES_PER_MAPWORD;
    ghost var was := bitmap[..];
    assert Marked(was, was, first, first, false);
    ClearRange(bitmap[curr], start, end);
    if curr == last {
      MarkWord(was, bitmap[..], first, first, curr, end, And(bitmap[curr], Or(From(end), Below(start))), false);
      bitmap[curr] := And(bitmap[curr], Or(From(end), Below(start)));
      assert bitmap[..] == was[curr := bitmap[curr]];
    } else {
      MarkWord(was, bitmap[..], first, first, curr, 64, And(bitmap[curr], Below(start)), false);
      bitmap[curr] := And(bitmap[curr], Below(start));
      assert bitmap[..] == was[curr := bitmap[curr]];
      curr := curr + 1;
      while curr != last
        invariant first < 64 * curr <= 64 * last
        invariant Marked(was, bitmap[..], first, 64 * curr, false)
      {
        ghost var now := bitmap[..];
        FullWord(bitmap[curr]);
        MarkWord(was, now, first, 64 * curr, curr, 64, 0, false);
        bitmap[curr] := 0;
        assert bitmap[..] == now[curr := 0];
        curr := curr + 1;
      }
      ghost var now := bitmap[..];
      ClearRange(bitmap[curr], start, end);
      MarkWord(was, now, first, 64 * curr, curr, end, And(bitmap[curr], From(end)), false);
      bitmap[curr] := And(bitmap[curr], From(end));
      assert bitmap[..] == now[curr := bitmap[curr]];
    }
  }
}
