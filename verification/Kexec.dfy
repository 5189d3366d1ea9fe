/**
  PV-GRUB's rearrangement of the physical-to-machine map (stubdom/grub/kexec.c).

  `orig` is pfn_to_mfn, the map that Mini-OS itself runs on.  `p2m` is dom->p2m_host, the map
  of the kernel being booted.  A page is `taken` when alloc_page will not return it: it is in
  use by Mini-OS or was returned before.
 */
module Kexec {
  import opened Common

  /** m2p takes every MFN of the map back to its PFN. */
  ghost predicate InverseOf(m2p: map<nat, nat>, p2m: seq<nat>) {
    forall x: nat | x < |p2m| :: p2m[x] in m2p && m2p[p2m[x]] == x
  }

  function Swap(s: seq<nat>, i: nat, j: nat): seq<nat>
    requires i < |s| && j < |s|
  {
    s[i := s[j]][j := s[i]]
  }

  /** Where following `moved` from x leads: the first PFN that is not below i. */
  function Chase(moved: seq<nat>, i: nat, x: nat): nat
    requires i <= |moved|
    decreases if x < i then i - x else 0
  {
    if x >= i then x
    else if moved[x] <= x then x
    else Chase(moved, i, moved[x])
  }

  /** The MFN of every page that is not taken sits where the chase from its PFN ends, at or above i. */
  ghost predicate Located(p2m: seq<nat>, orig: seq<nat>, moved: seq<nat>, i: nat, taken: set<nat>)
    requires |p2m| == |orig| && i <= |moved|
  {
    forall x: nat | x < |orig| && x !in taken :: Sits(p2m, orig, moved, i, x)
  }

  ghost predicate Sits(p2m: seq<nat>, orig: seq<nat>, moved: seq<nat>, i: nat, x: nat)
    requires |p2m| == |orig| && i <= |moved| && x < |orig|
  {
    i <= Chase(moved, i, x) < |p2m| && p2m[Chase(moved, i, x)] == orig[x]
  }

  /** What kexec_allocate keeps after |moved| pages. */
  ghost predicate P2mOk(p2m: seq<nat>, orig: seq<nat>, moved: seq<nat>, taken: set<nat>) {
    |p2m| == |orig| && |moved| <= |orig| && Located(p2m, orig, moved, |moved|, taken)
  }

  /** Recording one more move either leaves a chase where it was or, if it had reached i, takes it on to c. */
  lemma {:induction false} ChaseStep(moved: seq<nat>, x: nat, c: nat)
    requires Chase(moved, |moved|, x) >= |moved| && c >= |moved|
    ensures var i := |moved|;
            var d := Chase(moved, i, x);
            && (d != i ==> Chase(moved + [c], i + 1, x) == d)
            && (d == i < c ==> Chase(moved + [c], i + 1, x) == c)
    decreases if x < |moved| then |moved| - x else 0
  {
    if x < |moved| {
      ChaseStep(moved, moved[x], c);
    } else if x == |moved| < c {
      assert (moved + [c])[x] == c;
    }
  }

  /** The two maps hold the same MFNs, each as often. */
  ghost predicate Permutation(p: seq<nat>, q: seq<nat>) { multiset(p) == multiset(q) }

  lemma SwapIsPermutation(s: seq<nat>, i: nat, j: nat)
    requires i < |s| && j < |s|
    ensures Permutation(Swap(s, i, j), s)
  {
  }

  /** A permutation of an injective map is injective. */
  lemma PermutationIsDistinct(p: seq<nat>, orig: seq<nat>)
    requires Distinct(orig) && Permutation(p, orig)
    ensures Distinct(p)
  {
    forall i, j | 0 <= i < j < |p| ensures p[i] != p[j] {
      if p[i] == p[j] {
        TwiceInMultiset(p, i, j);
        OnceInMultiset(orig, p[i]);
      }
    }
  }

  lemma TwiceInMultiset(s: seq<nat>, i: nat, j: nat)
    requires i < j < |s| && s[i] == s[j]
    ensures multiset(s)[s[i]] >= 2
  {
    assert s == s[..j] + [s[j]] + s[j + 1..];
    assert s[..j][i] == s[i];
  }

  lemma {:induction false} OnceInMultiset(s: seq<nat>, v: nat)
    requires Distinct(s)
    ensures multiset(s)[v] <= 1
  {
    if s != [] {
      var init, last := s[..|s| - 1], s[|s| - 1];
      assert s == init + [last];
      OnceInMultiset(init, v);
      if v in init {
        var k :| 0 <= k < |init| && init[k] == v;
        assert s[k] != s[|s| - 1];
      }
    }
  }

  /** A page other than f is found again after f's page, at c, has been exchanged with the one at PFN |moved|. */
  lemma SitsAfterMove(p2m: seq<nat>, orig: seq<nat>, moved: seq<nat>, f: nat, c: nat, x: nat)
    requires |p2m| == |orig| && |moved| <= c < |orig| && f < |orig| && x < |orig| && orig[x] != orig[f]
    requires p2m[c] == orig[f] && Sits(p2m, orig, moved, |moved|, x)
    ensures Sits(Swap(p2m, |moved|, c), orig, moved + [c], |moved| + 1, x)
  {
    ChaseStep(moved, x, c);
  }

  lemma LocatedAfterMove(p2m: seq<nat>, p2m': seq<nat>, orig: seq<nat>, m2p: map<nat, nat>, moved: seq<nat>,
      moved': seq<nat>,
      taken: set<nat>, f: nat, c: nat)
    requires InverseOf(m2p, orig) && P2mOk(p2m, orig, moved, taken)
    requires |moved| <= c < |orig| && f < |orig| && p2m[c] == orig[f]
    requires p2m' == Swap(p2m, |moved|, c) && moved' == moved + [c]
    ensures P2mOk(p2m', orig, moved', taken + {f})
  {
    forall x: nat | x < |orig| && x !in taken + {f} ensures Sits(p2m', orig, moved', |moved'|, x) {
      assert Sits(p2m, orig, moved, |moved|, x);
      assert m2p[orig[x]] == x && m2p[orig[f]] == f;
      SitsAfterMove(p2m, orig, moved, f, c, x);
    }
  }

  /** One iteration keeps everything: page f moves to PFN i and the page that was there to f's place. */
  lemma MoveKeeps(p2m: seq<nat>, orig: seq<nat>, m2p: map<nat, nat>, moved: seq<nat>, taken: set<nat>, f: nat)
      returns (c: nat)
    requires InverseOf(m2p, orig) && P2mOk(p2m, orig, moved, taken)
    requires |moved| < |orig| && f < |orig| && f !in taken
    ensures c == Chase(moved, |moved|, f) && |moved| <= c < |p2m| && p2m[c] == orig[f]
    ensures P2mOk(Swap(p2m, |moved|, c), orig, moved + [c], taken + {f})
  {
    assert Sits(p2m, orig, moved, |moved|, f);
    c := Chase(moved, |moved|, f);
    LocatedAfterMove(p2m, Swap(p2m, |moved|, c), orig, m2p, moved, moved + [c], taken, f, c);
  }

  /** The map once one iteration has put mfn at PFN i and the page that was there at c. */
  function Placed(p2m: seq<nat>, i: nat, c: nat, mfn: nat): seq<nat>
    requires i < |p2m| && c < |p2m|
  {
    p2m[c := p2m[i]][i := mfn]
  }

  lemma PermutationTrans(p: seq<nat>, q: seq<nat>, r: seq<nat>)
    requires Permutation(q, r)
    ensures Permutation(p, r) <==> Permutation(p, q)
  {
  }

  lemma UpdateCounts(s: seq<nat>, i: nat, v: nat, x: nat)
    requires i < |s|
    ensures multiset(s[i := v])[x] == multiset(s)[x] - (if s[i] == x then 1 else 0) + (if v == x then 1 else 0)
  {
    assert s == s[..i] + [s[i]] + s[i + 1..];
    assert s[i := v] == s[..i] + [v] + s[i + 1..];
    CountParts(s[..i], s[i], s[i + 1..], x);
    CountParts(s[..i], v, s[i + 1..], x);
  }

  lemma CountParts(a: seq<nat>, v: nat, b: seq<nat>, x: nat)
    ensures multiset(a + [v] + b)[x] == multiset(a)[x] + (if v == x then 1 else 0) + multiset(b)[x]
  {
  }

  /** It loses no page exactly if mfn was at c. */
  lemma PlacedKeepsIff(p2m: seq<nat>, i: nat, c: nat, mfn: nat)
    requires i < |p2m| && c < |p2m|
    ensures Permutation(Placed(p2m, i, c, mfn), p2m) <==> p2m[c] == mfn
    ensures p2m[c] == mfn ==> Placed(p2m, i, c, mfn) == Swap(p2m, i, c)
  {
    var q := Placed(p2m, i, c, mfn);
    if p2m[c] == mfn {
      assert q == Swap(p2m, i, c);
      SwapIsPermutation(p2m, i, c);
    } else {
      var w := p2m[c := p2m[i]];
      var before: multiset<nat>, after: multiset<nat> := multiset(p2m), multiset(q);
      UpdateCounts(p2m, c, p2m[i], mfn);
      UpdateCounts(w, i, mfn, mfn);
      assert after[mfn] == before[mfn] + 1;
    }
  }

  /** The pages pfns[..k] have been put at the PFNs from `first` on. */
  ghost predicate Allotted(p2m: seq<nat>, orig: seq<nat>, moved: seq<nat>, taken: set<nat>, mfns: seq<nat>,
      before: seq<nat>, taken0: set<nat>, mfns0: seq<nat>, first: nat, pfns: seq<nat>, k: nat)
  {
    && P2mOk(p2m, orig, moved, taken) && |moved| == first + k && k <= |pfns| && first <= |before|
    && (forall j | 0 <= j < |pfns| :: pfns[j] < |orig|)
    && taken == taken0 + Elements(pfns[..k]) && mfns == mfns0 + Mfns(orig, pfns)[..k]
    && Permutation(p2m, orig)
    && p2m[..first + k] == before[..first] + Mfns(orig, pfns)[..k]
  }

  lemma NextPage(p2m: seq<nat>, orig: seq<nat>, m2p: map<nat, nat>, moved: seq<nat>, taken: set<nat>, mfns: seq<nat>,
      before: seq<nat>, taken0: set<nat>, mfns0: seq<nat>, first: nat, pfns: seq<nat>, k: nat)
    requires Allotted(p2m, orig, moved, taken, mfns, before, taken0, mfns0, first, pfns, k) && k < |pfns|
    requires first + k < |orig|
    requires InverseOf(m2p, orig) && Distinct(pfns) && pfns[k] !in taken0
    ensures var i := first + k;
            var c := Chase(moved, i, pfns[k]);
            && i <= c < |orig| && p2m[c] == orig[pfns[k]]
            && Allotted(Placed(p2m, i, c, orig[pfns[k]]), orig, moved + [c], taken + {pfns[k]}, mfns + [orig[pfns[k]]],
                 before, taken0, mfns0, first, pfns, k + 1)
  {
    hide Permutation, Located;
    PrefixHas(pfns, k);
    var i, added := first + k, Mfns(orig, pfns);
    var c := MoveKeeps(p2m, orig, m2p, moved, taken, pfns[k]);
    PlacedKeepsIff(p2m, i, c, orig[pfns[k]]);
    PermutationTrans(Placed(p2m, i, c, orig[pfns[k]]), p2m, orig);
    SwapKeepsBelow(p2m, i, c);
    assert added[..k + 1] == added[..k] + [added[k]];
  }

  lemma NothingAllotted(p2m: seq<nat>, orig: seq<nat>, moved: seq<nat>, taken: set<nat>, mfns: seq<nat>,
      first: nat, pfns: seq<nat>)
    requires Permutation(p2m, orig)
    requires P2mOk(p2m, orig, moved, taken) && |moved| == first <= |p2m|
    requires forall k | 0 <= k < |pfns| :: pfns[k] < |orig|
    ensures Allotted(p2m, orig, moved, taken, mfns, p2m, taken, mfns, first, pfns, 0)
  {
    assert p2m[..first] + Mfns(orig, pfns)[..0] == p2m[..first];
  }

  lemma AllAllotted(p2m: seq<nat>, orig: seq<nat>, moved: seq<nat>, taken: set<nat>, mfns: seq<nat>,
      before: seq<nat>, taken0: set<nat>, mfns0: seq<nat>, first: nat, pfns: seq<nat>)
    requires Allotted(p2m, orig, moved, taken, mfns, before, taken0, mfns0, first, pfns, |pfns|)
    ensures P2mOk(p2m, orig, moved, taken) && |moved| == first + |pfns| && taken == taken0 + Elements(pfns)
    ensures Permutation(p2m, orig) && mfns == mfns0 + Mfns(orig, pfns)
    ensures p2m[..first] == before[..first] && p2m[first..first + |pfns|] == Mfns(orig, pfns)
  {
    var added := Mfns(orig, pfns);
    assert pfns[..|pfns|] == pfns && added[..|pfns|] == added;
    var end := first + |pfns|;
    assert p2m[..end][..first] == p2m[..first] && p2m[..end][first..] == p2m[first..end];
  }

  class Grub {
    const orig: seq<nat>
    ghost const m2p: map<nat, nat>
    const p2m: array<nat>
    var pagesMfns: seq<nat>
    var moved: seq<nat>
    var allotted: nat
    ghost var taken: set<nat>

    ghost predicate Valid()
      reads this, p2m
    {
      && InverseOf(m2p, orig)
      && Permutation(p2m[..], orig)
      && P2mOk(p2m[..], orig, moved, taken) && |moved| == |pagesMfns| == allotted
    }

    /** The new domain starts with the map Mini-OS runs on. */
    constructor (pfnToMfn: seq<nat>, ghost mfnToPfn: map<nat, nat>, ghost inUse: set<nat>)
      requires InverseOf(mfnToPfn, pfnToMfn)
      ensures Valid() && orig == pfnToMfn && m2p == mfnToPfn && p2m[..] == pfnToMfn && allotted == 0 && taken == inUse
    {
      orig, m2p, pagesMfns, moved, allotted, taken := pfnToMfn, mfnToPfn, [], [], 0, inUse;
      p2m := new nat[|pfnToMfn|](i requires 0 <= i < |pfnToMfn| => pfnToMfn[i]);
      new;
      assert p2m[..] == orig;
    }

    /** The pages_moved2pfns loop: strictly increases and ends where the chase does. */
    method Follow(f: nat, i: nat) returns (pfn: nat)
      requires i <= |moved| && Chase(moved, i, f) >= i
      ensures pfn == Chase(moved, i, f)
    {
      pfn := f;
      while pfn < i
        invariant Chase(moved, i, pfn) == Chase(moved, i, f)
        decreases i - pfn
      {
        pfn := moved[pfn];
      }
    }

    /**
      One iteration of kexec_allocate: put the freshly allocated page f at PFN i and the page
      that was there where the chase from f ends.  The map stays a permutation exactly if the
      page of f is found there.
     */
    method Exchange(i: nat, f: nat)
      requires p2m.Length == |orig| && |moved| == i < |orig| && f < |orig| && i <= Chase(moved, i, f) < |orig|
      modifies this`moved, this`pagesMfns, this`taken, p2m
      ensures moved == old(moved) + [Chase(old(moved), i, f)]
      ensures p2m[..] == Placed(old(p2m[..]), i, Chase(old(moved), i, f), orig[f])
      ensures Permutation(p2m[..], old(p2m[..])) <==> old(p2m[..])[Chase(old(moved), i, f)] == orig[f]
      ensures pagesMfns == old(pagesMfns) + [orig[f]] && taken == old(taken) + {f}
    {
      ghost var before := p2m[..];
      var oldMfn, newMfn := p2m[i], orig[f];
      pagesMfns := pagesMfns + [newMfn];
      var newPfn := Follow(f, i);
      moved := moved + [newPfn];
      p2m[newPfn] := oldMfn;
      p2m[i] := newMfn;
      taken := taken + {f};
      assert p2m[..] == Placed(before, i, newPfn, newMfn);
      PlacedKeepsIff(before, i, newPfn, newMfn);
    }

    /**
      kexec_allocate; `pfns` are those of the pages alloc_page returns.  The map stays a
      permutation, each new PFN holds its fresh page, PFNs below are not touched, and every
      page that can still be allocated remains findable.
     */
    method Allocate(newAllotted: nat, pfns: seq<nat>)
      requires Valid() && allotted <= newAllotted <= |orig|
      requires |pfns| == newAllotted - allotted && Distinct(pfns)
      requires forall k | 0 <= k < |pfns| :: pfns[k] < |orig| && pfns[k] !in taken
      modifies this, p2m
      ensures Valid() && allotted == newAllotted && taken == old(taken) + Elements(pfns)
      ensures p2m[..old(allotted)] == old(p2m[..])[..old(allotted)]
      ensures pagesMfns == old(pagesMfns) + Mfns(orig, pfns)
      ensures p2m[old(allotted)..newAllotted] == Mfns(orig, pfns)
    {
      ghost var before, taken0, mfns0 := p2m[..], taken, pagesMfns;
      NothingAllotted(before, orig, moved, taken0, mfns0, allotted, pfns);
      AllocatePages(pfns, before, taken0, mfns0);
      AllAllotted(p2m[..], orig, moved, taken, pagesMfns, before, taken0, mfns0, allotted, pfns);
      allotted := newAllotted;
    }

    /** Its loop. */
    method AllocatePages(pfns: seq<nat>, ghost before: seq<nat>, ghost taken0: set<nat>, ghost mfns0: seq<nat>)
      requires InverseOf(m2p, orig) && |moved| == allotted <= |orig| == p2m.Length && allotted + |pfns| <= |orig|
      requires Distinct(pfns) && forall k | 0 <= k < |pfns| :: pfns[k] < |orig| && pfns[k] !in taken0
      requires Allotted(p2m[..], orig, moved, taken, pagesMfns, before, taken0, mfns0, allotted, pfns, 0)
      modifies this`moved, this`pagesMfns, this`taken, p2m
      ensures Allotted(p2m[..], orig, moved, taken, pagesMfns, before, taken0, mfns0, allotted, pfns, |pfns|)
    {
      hide Permutation, P2mOk, Allotted, Placed, Chase, Elements, Mfns, Distinct, InverseOf;
      for k := 0 to |pfns|
        invariant |moved| == allotted + k
        invariant Allotted(p2m[..], orig, moved, taken, pagesMfns, before, taken0, mfns0, allotted, pfns, k)
      {
        NextPage(p2m[..], orig, m2p, moved, taken, pagesMfns, before, taken0, mfns0, allotted, pfns, k);
        Exchange(allotted + k, pfns[k]);
      }
    }

    /**
      do_exchange: put a given MFN at a given PFN.  The map stays a permutation; pages stay
      findable exactly if neither exchanged MFN belongs to a page that can still be allocated.
     */
    method DoExchange(targetPfn: nat, sourceMfn: nat) returns (ghost sourcePfn: nat)
      requires Valid() && targetPfn < |orig| && sourceMfn in orig
      modifies p2m
      ensures sourcePfn < |orig| && old(p2m[..])[sourcePfn] == sourceMfn
      ensures p2m[..] == Swap(old(p2m[..]), sourcePfn, targetPfn) && p2m[targetPfn] == sourceMfn
      ensures Permutation(p2m[..], orig)
      ensures Valid() <==>
        targetPfn == sourcePfn || (AllTaken(orig, taken, sourceMfn) && AllTaken(orig, taken, old(p2m[..])[targetPfn]))
    {
      ghost var before := p2m[..];
      assert sourceMfn in multiset(before) && before[0..] == before;
      var pfn := 0;
      while p2m[pfn] != sourceMfn
        invariant 0 <= pfn < p2m.Length && sourceMfn in before[pfn..]
        decreases p2m.Length - pfn
      {
        assert before[pfn..] == [before[pfn]] + before[pfn + 1..];
        pfn := pfn + 1;
      }
      sourcePfn := pfn;
      var targetMfn := p2m[targetPfn];
      p2m[pfn] := targetMfn;
      p2m[targetPfn] := sourceMfn;
      assert p2m[..] == Swap(before, pfn, targetPfn);
      SwapIsPermutation(before, pfn, targetPfn);
      if pfn == targetPfn {
        assert p2m[..] == before;
      } else {
        ExchangeKeepsIff(before, orig, m2p, moved, taken, pfn, targetPfn);
      }
    }

    /** The pages given by xs, all of them in use by Mini-OS, are put at PFNs that have been allotted. */
    method ExchangeAll(xs: seq<Exchanged>)
      requires Valid() && Movable(orig, taken, allotted, xs)
      modifies p2m
      ensures Valid() && Moved(p2m[..], xs) && Untouched(old(p2m[..]), p2m[..], xs)
    {
      hide Located, InverseOf, Permutation, AllTaken;
      for k := 0 to |xs|
        invariant Valid() && Moved(p2m[..], xs[..k]) && Untouched(old(p2m[..]), p2m[..], xs)
      {
        assert xs[k] in xs;
        BelowIsTaken(p2m[..], orig, m2p, moved, taken, xs[k].pfn);
        ghost var before := p2m[..];
        ghost var source := DoExchange(xs[k].pfn, xs[k].mfn);
        MovedNext(before, xs, k, source);
        UntouchedNext(old(p2m[..]), before, xs, k, source);
      }
      assert xs[..|xs|] == xs;
    }

    /**
      What kexec does to the map: allocate the new domain's pages, put the console, xenstore and
      boot pages in place, allocate the rest, and collect the updates.  The map stays a
      permutation, every page is where it was put, and the updates make the machine-to-physical
      map its inverse.
     */
    method Launch(first: nat, pfns: seq<nat>, xs: seq<Exchanged>, second: nat, pfns': seq<nat>)
        returns (ups: array<(nat, nat)>)
      requires Valid() && allotted <= first <= second <= |orig|
      requires |pfns| == first - allotted && |pfns'| == second - first && Distinct(pfns + pfns')
      requires forall k | 0 <= k < |pfns| :: pfns[k] < |orig| && pfns[k] !in taken
      requires forall k | 0 <= k < |pfns'| :: pfns'[k] < |orig| && pfns'[k] !in taken
      requires Movable(orig, taken, first, xs)
      modifies this, p2m
      ensures Valid() && allotted == second && Moved(p2m[..], xs)
      ensures p2m[first..second] == Mfns(orig, pfns')
      ensures forall x | old(allotted) <= x < first && (forall k | 0 <= k < |xs| :: xs[k].pfn != x) ::
        p2m[x] == orig[pfns[x - old(allotted)]]
      ensures InverseOf(Apply(m2p, ups[..]), p2m[..])
    {
      hide Located, InverseOf, Permutation, AllTaken, Distinct, Movable, Moved, Untouched, Apply, Updates;
      ghost var taken0, start := taken, allotted;
      DistinctConcat(pfns, pfns');
      Allocate(first, pfns);
      ghost var fresh1 := p2m[..];
      MovableMore(orig, taken0, Elements(pfns), first, xs);
      ExchangeAll(xs);
      ghost var exchanged := p2m[..];
      Allocate(second, pfns');
      FirstPart(fresh1, exchanged, p2m[..], orig, taken0, start, first, pfns, xs);
      ups := CollectUpdates();
    }

    /** The M2P updates of kexec: counted first, then stored in a buffer of that size. */
    method CollectUpdates() returns (ups: array<(nat, nat)>)
      requires InverseOf(m2p, orig) && p2m.Length == |orig| && Permutation(p2m[..], orig)
      ensures ups[..] == Updates(p2m[..], orig, |orig|)
      ensures InverseOf(Apply(m2p, ups[..]), p2m[..])
    {
      var nr, pfn := 0, 0;
      while pfn < |orig|
        invariant 0 <= pfn <= |orig| && nr == |Updates(p2m[..], orig, pfn)|
      {
        if p2m[pfn] != orig[pfn] {
          nr := nr + 1;
        }
        pfn := pfn + 1;
      }
      ups := new (nat, nat)[nr](_ => (0, 0));
      var i := 0;
      pfn := 0;
      while pfn < |orig|
        invariant 0 <= pfn <= |orig| && i == |Updates(p2m[..], orig, pfn)| <= nr == ups.Length
        invariant ups[..i] == Updates(p2m[..], orig, pfn)
      {
        UpdatesPrefix(p2m[..], orig, pfn + 1, |orig|);
        if p2m[pfn] != orig[pfn] {
          ups[i] := (p2m[pfn], pfn);
          i := i + 1;
        }
        pfn := pfn + 1;
      }
      assert ups[..i] == ups[..];
      UpdatesInvert(m2p, p2m[..], orig);
    }
  }

  datatype Exchanged = Exchanged(pfn: nat, mfn: nat)

  /** The targets are below i, the pages are taken, and nothing occurs twice. */
  ghost predicate Movable(orig: seq<nat>, taken: set<nat>, i: nat, xs: seq<Exchanged>) {
    && (forall x | x in xs :: x.pfn < i && x.mfn in orig && AllTaken(orig, taken, x.mfn))
    && (forall j, k | 0 <= j < k < |xs| :: xs[j].pfn != xs[k].pfn && xs[j].mfn != xs[k].mfn)
  }

  ghost predicate Moved(p2m: seq<nat>, xs: seq<Exchanged>) {
    forall x | x in xs :: x.pfn < |p2m| && p2m[x.pfn] == x.mfn
  }

  /** PFNs that are not targets and do not hold one of the pages keep what they have. */
  ghost predicate Untouched(before: seq<nat>, p2m: seq<nat>, xs: seq<Exchanged>) {
    && |p2m| == |before|
    && forall x: nat | x < |p2m| && (forall e | e in xs :: e.pfn != x && e.mfn != before[x]) :: p2m[x] == before[x]
  }

  lemma UntouchedNext(before: seq<nat>, p2m: seq<nat>, xs: seq<Exchanged>, k: nat, source: nat)
    requires Untouched(before, p2m, xs) && k < |xs| && source < |p2m| && xs[k].pfn < |p2m| && p2m[source] == xs[k].mfn
    ensures Untouched(before, Swap(p2m, source, xs[k].pfn), xs)
  {
    assert xs[k] in xs;
  }

  lemma DistinctConcat(a: seq<nat>, b: seq<nat>)
    requires Distinct(a + b)
    ensures Distinct(a) && Distinct(b) && forall k | 0 <= k < |b| :: b[k] !in Elements(a)
  {
    assert forall k | 0 <= k < |a| :: (a + b)[k] == a[k];
    assert forall k | 0 <= k < |b| :: (a + b)[|a| + k] == b[k];
  }

  /** More pages being taken does not hurt. */
  lemma MovableMore(orig: seq<nat>, taken: set<nat>, more: set<nat>, i: nat, xs: seq<Exchanged>)
    requires Movable(orig, taken, i, xs)
    ensures Movable(orig, taken + more, i, xs)
  {
  }

  /** A fresh page is not one of those that are exchanged. */
  lemma FreshIsNotMoved(orig: seq<nat>, taken: set<nat>, i: nat, xs: seq<Exchanged>, f: nat)
    requires Movable(orig, taken, i, xs) && f < |orig| && f !in taken
    ensures forall e | e in xs :: e.mfn != orig[f]
  {
  }

  /** What the first allocation and the exchanges put below `first` stays there. */
  lemma FirstPart(p: seq<nat>, q: seq<nat>, r: seq<nat>, orig: seq<nat>, taken: set<nat>, start: nat, first: nat,
      pfns: seq<nat>,
      xs: seq<Exchanged>)
    requires start <= first <= |p| && |pfns| == first - start && |q| == |p| && first <= |r|
    requires forall k | 0 <= k < |pfns| :: pfns[k] < |orig| && pfns[k] !in taken
    requires p[start..first] == Mfns(orig, pfns) && Untouched(p, q, xs) && Moved(q, xs) && r[..first] == q[..first]
    requires Movable(orig, taken, first, xs)
    ensures Moved(r, xs)
    ensures forall x | start <= x < first && (forall k | 0 <= k < |xs| :: xs[k].pfn != x) ::
      r[x] == orig[pfns[x - start]]
  {
    forall e | e in xs ensures e.pfn < |r| && r[e.pfn] == e.mfn {
      assert r[e.pfn] == r[..first][e.pfn] == q[e.pfn];
    }
    forall x | start <= x < first && (forall k | 0 <= k < |xs| :: xs[k].pfn != x)
      ensures r[x] == orig[pfns[x - start]]
    {
      assert p[x] == p[start..first][x - start] == orig[pfns[x - start]];
      FreshIsNotMoved(orig, taken, first, xs, pfns[x - start]);
      assert r[x] == r[..first][x] == q[..first][x] == q[x] == p[x];
    }
  }

  /** A later exchange leaves the earlier ones in place. */
  lemma MovedNext(p2m: seq<nat>, xs: seq<Exchanged>, k: nat, source: nat)
    requires k < |xs| && Moved(p2m, xs[..k]) && source < |p2m| && xs[k].pfn < |p2m| && p2m[source] == xs[k].mfn
    requires forall j | 0 <= j < k :: xs[j].pfn != xs[k].pfn && xs[j].mfn != xs[k].mfn
    ensures Moved(Swap(p2m, source, xs[k].pfn), xs[..k + 1])
  {
    forall x | x in xs[..k + 1] ensures x.pfn < |p2m| && Swap(p2m, source, xs[k].pfn)[x.pfn] == x.mfn {
      var j :| 0 <= j <= k && xs[j] == x;
      if j < k {
        assert xs[..k][j] == x && x in xs[..k];
      }
    }
  }

  /** The pages below |moved| are taken. */
  lemma BelowIsTaken(p2m: seq<nat>, orig: seq<nat>, m2p: map<nat, nat>, moved: seq<nat>, taken: set<nat>, t: nat)
    requires InverseOf(m2p, orig) && Permutation(p2m, orig) && P2mOk(p2m, orig, moved, taken) && t < |moved|
    ensures t < |p2m| && AllTaken(orig, taken, p2m[t])
  {
    PermutationIsDistinct(p2m, orig);
    forall x: nat | x < |orig| && x !in taken ensures orig[x] != p2m[t] {
      assert Sits(p2m, orig, moved, |moved|, x);
    }
  }

  /** The page with this MFN, if there is one, is taken. */
  ghost predicate AllTaken(orig: seq<nat>, taken: set<nat>, mfn: nat) {
    forall x: nat | x < |orig| && orig[x] == mfn :: x in taken
  }

  lemma ExchangeKeepsIff(p2m: seq<nat>, orig: seq<nat>, m2p: map<nat, nat>, moved: seq<nat>, taken: set<nat>,
      s: nat, t: nat)
    requires InverseOf(m2p, orig) && Permutation(p2m, orig)
    requires P2mOk(p2m, orig, moved, taken) && s < |p2m| && t < |p2m| && s != t
    ensures P2mOk(Swap(p2m, s, t), orig, moved, taken) <==>
      AllTaken(orig, taken, p2m[s]) && AllTaken(orig, taken, p2m[t])
  {
    var i, p2m' := |moved|, Swap(p2m, s, t);
    if AllTaken(orig, taken, p2m[s]) && AllTaken(orig, taken, p2m[t]) {
      forall x: nat | x < |orig| && x !in taken ensures Sits(p2m', orig, moved, i, x) {
        assert Sits(p2m, orig, moved, i, x);
      }
    } else {
      PermutationIsDistinct(p2m, orig);
      var x: nat :| x < |orig| && x !in taken && (orig[x] == p2m[s] || orig[x] == p2m[t]);
      assert Sits(p2m, orig, moved, i, x);
      assert !Sits(p2m', orig, moved, i, x);
    }
  }

  /** What an exchange does to a later allocation: if kexec_allocate then gets the page f, the map
      stays a permutation exactly if the MFN of f is none of the two that were exchanged. */
  lemma AllocateAfterExchangeIff(p2m: seq<nat>, orig: seq<nat>, moved: seq<nat>, taken: set<nat>, s: nat, t: nat,
      f: nat)
    requires Distinct(orig) && Permutation(p2m, orig) && P2mOk(p2m, orig, moved, taken)
    requires s < |p2m| && t < |p2m| && s != t && |moved| < |orig| && f < |orig| && f !in taken
    ensures var i, c := |moved|, Chase(moved, |moved|, f);
            && i <= c < |orig|
            && (Permutation(Placed(Swap(p2m, s, t), i, c, orig[f]), orig) <==> orig[f] != p2m[s] && orig[f] != p2m[t])
  {
    assert Sits(p2m, orig, moved, |moved|, f);
    PermutationIsDistinct(p2m, orig);
    SwapIsPermutation(p2m, s, t);
    PlacedKeepsIff(Swap(p2m, s, t), |moved|, Chase(moved, |moved|, f), orig[f]);
    PermutationTrans(Placed(Swap(p2m, s, t), |moved|, Chase(moved, |moved|, f), orig[f]), Swap(p2m, s, t), orig);
  }

  // ----- the machine-to-physical map -----

  /** The updates for the first n PFNs: one (MFN, PFN) pair for each PFN whose page changed. */
  function Updates(p2m: seq<nat>, orig: seq<nat>, n: nat): seq<(nat, nat)>
    requires n <= |p2m| == |orig|
  {
    if n == 0 then []
    else Updates(p2m, orig, n - 1) + if p2m[n - 1] != orig[n - 1] then [(p2m[n - 1], n - 1)] else []
  }

  lemma {:induction false} UpdatesPrefix(p2m: seq<nat>, orig: seq<nat>, m: nat, n: nat)
    requires m <= n <= |p2m| == |orig|
    ensures |Updates(p2m, orig, m)| <= |Updates(p2m, orig, n)|
  {
    if m < n {
      UpdatesPrefix(p2m, orig, m, n - 1);
    }
  }

  function Apply(m2p: map<nat, nat>, ups: seq<(nat, nat)>): map<nat, nat> {
    if ups == [] then m2p else Apply(m2p, ups[..|ups| - 1])[ups[|ups| - 1].0 := ups[|ups| - 1].1]
  }

  /** mfn sits at one of the first n PFNs and that PFN's page changed. */
  ghost predicate Changed(p2m: seq<nat>, orig: seq<nat>, n: nat, mfn: nat)
    requires n <= |p2m| == |orig|
  {
    exists x | 0 <= x < n :: p2m[x] == mfn && p2m[x] != orig[x]
  }

  /** The first n updates set exactly the changed MFNs. */
  lemma {:induction false} ApplyUpdates(m2p: map<nat, nat>, p2m: seq<nat>, orig: seq<nat>, n: nat, mfn: nat)
    requires n <= |p2m| == |orig| && Distinct(p2m)
    ensures var m := Apply(m2p, Updates(p2m, orig, n));
            && (!Changed(p2m, orig, n, mfn) ==> (mfn in m <==> mfn in m2p) && (mfn in m ==> m[mfn] == m2p[mfn]))
            && (forall x | 0 <= x < n && p2m[x] == mfn && p2m[x] != orig[x] :: mfn in m && m[mfn] == x)
  {
    if n > 0 {
      ApplyUpdates(m2p, p2m, orig, n - 1, mfn);
      var init := Updates(p2m, orig, n - 1);
      if p2m[n - 1] != orig[n - 1] {
        assert (init + [(p2m[n - 1], n - 1)])[..|init|] == init;
      } else {
        assert init + [] == init;
      }
    }
  }

  /** If the old M2P is the inverse of the old P2M, the updates make it the inverse of the new P2M, and touch
      nothing else. */
  lemma UpdatesInvert(m2p: map<nat, nat>, p2m: seq<nat>, orig: seq<nat>)
    requires |p2m| == |orig| && Permutation(p2m, orig) && InverseOf(m2p, orig)
    ensures var m := Apply(m2p, Updates(p2m, orig, |orig|));
            InverseOf(m, p2m) && forall mfn | mfn in m2p && mfn !in orig :: mfn in m && m[mfn] == m2p[mfn]
  {
    PermutationIsDistinct(p2m, orig);
    var n, m := |orig|, Apply(m2p, Updates(p2m, orig, |orig|));
    forall x: nat | x < n ensures p2m[x] in m && m[p2m[x]] == x {
      ApplyUpdates(m2p, p2m, orig, n, p2m[x]);
    }
    forall x: nat | x < n ensures p2m[x] in orig {
      assert p2m[x] in multiset(p2m);
    }
    forall mfn | mfn in m2p && mfn !in orig ensures mfn in m && m[mfn] == m2p[mfn] {
      ApplyUpdates(m2p, p2m, orig, n, mfn);
    }
  }

  function Elements(s: seq<nat>): set<nat> { set x | x in s }

  function Mfns(orig: seq<nat>, pfns: seq<nat>): seq<nat>
    requires forall k | 0 <= k < |pfns| :: pfns[k] < |orig|
  {
    seq(|pfns|, k requires 0 <= k < |pfns| => orig[pfns[k]])
  }

  lemma PrefixHas(s: seq<nat>, k: nat)
    requires k < |s| && Distinct(s)
    ensures s[k] !in Elements(s[..k]) && Elements(s[..k + 1]) == Elements(s[..k]) + {s[k]}
  {
    assert s[..k + 1] == s[..k] + [s[k]];
  }

  lemma SwapKeepsBelow(s: seq<nat>, i: nat, j: nat)
    requires i <= j < |s|
    ensures Swap(s, i, j)[..i + 1] == s[..i] + [s[j]]
  {
  }
}
