/**
  The on-disk format of the vTPM manager (stubdom/vtpmmgr/disk_format.h) and the shape of
  the hash tree that stores the vTPM pages of a group.

  SHA-256 is ideal: a digest is a term that holds what was hashed, so two digests are equal
  exactly when the hashed data are.  As in the source, the digest of a tree sector covers the
  digests stored in it and not the sector numbers.
 */
module HashTree {
  import opened Common

  const NR_ENTRIES_PER_ITREE: nat := 112
  const NR_ENTRIES_PER_GROUP_BASE: nat := 16
  const NR_ENTRIES_PER_ROOT: nat := 16
  const VTPMS_PER_SECTOR: nat := 48
  const FIRST_DYNAMIC_SECTOR: nat := 4
  const DISK_MAX_SECTOR: nat := 0x200

  datatype Vtpm = Vtpm(uuid: int, secret: int, flags: int)

  /** Everything in a group sector except the vTPM count and the tree below it. */
  datatype GroupMeta = GroupMeta(id: int, sequence: nat, nrSeals: nat)

  datatype Hash =
    | PageHash(data: seq<Vtpm>)
    | TreeHash(children: seq<Hash>)
    | GroupHash(meta: GroupMeta, nrVtpms: nat, top: seq<Hash>)

  /** A sector number and the digest its contents must have. */
  datatype Entry = Entry(loc: nat, hash: Hash)

  /** A sector after decryption; `Unreadable` is one whose MAC or magic does not verify. */
  datatype Block =
    | Unreadable
    | SealList
    | RootSector(sequence: nat, groups: seq<Entry>)
    | GroupSector(meta: GroupMeta, nrVtpms: nat, vtpms: seq<Entry>)
    | ITreeSector(entries: seq<Entry>)
    | VtpmSector(data: seq<Vtpm>)

  type Disk = d: seq<Block> | |d| == DISK_MAX_SECTOR
    witness seq(DISK_MAX_SECTOR, _ => Unreadable)

  function Hashes(es: seq<Entry>): seq<Hash> {
    seq(|es|, i requires 0 <= i < |es| => es[i].hash)
  }

  function Locs(es: seq<Entry>): seq<nat> {
    seq(|es|, i requires 0 <= i < |es| => es[i].loc)
  }

  function LocSet(es: seq<Entry>): set<nat> {
    set i | 0 <= i < |es| :: es[i].loc
  }

  lemma LocSetCons(es: seq<Entry>)
    requires es != []
    ensures LocSet(es) == {es[0].loc} + LocSet(es[1..])
  {
    assert forall i | 1 <= i < |es| :: es[i] == es[1..][i - 1];
  }

  lemma LocSetAppend(es: seq<Entry>, e: Entry)
    ensures LocSet(es + [e]) == LocSet(es) + {e.loc}
  {
    assert forall i | 0 <= i < |es| :: es[i] == (es + [e])[i];
    assert (es + [e])[|es|] == e;
  }

  /** NR_ENTRIES_PER_ITREE to the power k: the pages below one sector of level k. */
  function Pow(k: nat): (p: nat)
    ensures p >= 1
  {
    if k == 0 then 1 else Pow(k - 1) * NR_ENTRIES_PER_ITREE
  }

  /** How many times the sizing loop multiplies: the height of a tree of n pages under h entries. */
  function Level(n: nat, h: nat): nat
    requires h > 0
    decreases n - h
  {
    if n <= h then 0 else 1 + Level(n, h * NR_ENTRIES_PER_ITREE)
  }

  lemma PowMultiple(k: nat)
    requires k > 0
    ensures Pow(k) % NR_ENTRIES_PER_ITREE == 0
  {
  }

  /** Level is the least k for which n pages fit. */
  lemma LevelIsLeast(n: nat, h: nat, k: nat)
    requires h > 0
    ensures n <= Pow(k) * h <==> Level(n, h) <= k
    decreases k
  {
    if k == 0 {
    } else {
      calc {
        Pow(k) * h;
        (Pow(k - 1) * NR_ENTRIES_PER_ITREE) * h;
        Pow(k - 1) * (h * NR_ENTRIES_PER_ITREE);
      }
      LevelIsLeast(n, h * NR_ENTRIES_PER_ITREE, k - 1);
      if n <= h {
        assert 1 * h <= Pow(k) * h;
      }
    }
  }

  /** A child of a sector of level k lies strictly lower, although it may hold as many pages as its parent. */
  lemma ChildIsLower(k: nat, child: nat)
    requires k > 0 && child <= Pow(k)
    ensures Level(child, NR_ENTRIES_PER_ITREE) < k
  {
    LevelIsLeast(child, NR_ENTRIES_PER_ITREE, k - 1);
  }

  predicate PageOk(d: Disk, e: Entry) {
    e.loc < |d| && d[e.loc].VtpmSector? && e.hash == PageHash(d[e.loc].data)
  }

  predicate NodeOk(d: Disk, e: Entry) {
    e.loc < |d| && d[e.loc].ITreeSector? && e.hash == TreeHash(Hashes(d[e.loc].entries))
  }

  /** What a walk over a tree meets: the pages in index order, and every sector of the tree. */
  datatype Visit = Visit(leaves: seq<Entry>, sectors: set<nat>)

  /** The walk of load_verify_vtpm_itree over n pages under the entries es, h of which fit in the
      parent sector; None if any check on the way fails. */
  function Tree(d: Disk, n: nat, es: seq<Entry>, h: nat): (v: Option<Visit>)
    requires h > 0
    ensures v.Some? ==> |v.value.leaves| == n
    decreases Level(n, h), 1, 0
  {
    if n <= h then
      if |es| == n && forall i | 0 <= i < n :: PageOk(d, es[i]) then Some(Visit(es, LocSet(es))) else None
    else
      match Kids(d, Level(n, h), n, es)
      case None => None
      case Some(v) => Some(Visit(v.leaves, LocSet(es) + v.sectors))
  }

  /** The same for the remaining n pages below the sectors es of level k. */
  function Kids(d: Disk, k: nat, n: nat, es: seq<Entry>): (v: Option<Visit>)
    requires k > 0
    ensures v.Some? ==> |v.value.leaves| == n
    decreases k, 0, n
  {
    if n == 0 then
      if es == [] then Some(EMPTY) else None
    else if es == [] || !NodeOk(d, es[0]) then
      None
    else
      var c := Min(Pow(k), n);
      ChildIsLower(k, c);
      Join(Tree(d, c, d[es[0].loc].entries, NR_ENTRIES_PER_ITREE), Kids(d, k, n - c, es[1..]))
  }

  /** Tree, under a name that is not unfolded further. */
  function Walk(d: Disk, n: nat, es: seq<Entry>, h: nat): Option<Visit>
    requires h > 0
  {
    Tree(d, n, es, h)
  }

  const EMPTY := Visit([], {})

  function Join(a: Option<Visit>, b: Option<Visit>): Option<Visit> {
    if a.Some? && b.Some? then
      Some(Visit(a.value.leaves + b.value.leaves, a.value.sectors + b.value.sectors))
    else
      None
  }

  lemma JoinAssoc(a: Option<Visit>, b: Option<Visit>, c: Option<Visit>)
    ensures Join(Join(a, b), c) == Join(a, Join(b, c))
  {
    if a.Some? && b.Some? && c.Some? {
      assert (a.value.leaves + b.value.leaves) + c.value.leaves == a.value.leaves + (b.value.leaves + c.value.leaves);
      var x, y, z := a.value.sectors, b.value.sectors, c.value.sectors;
      assert (x + y) + z == x + (y + z);
    }
  }

  lemma JoinEmpty(a: Option<Visit>)
    ensures Join(Some(EMPTY), a) == a == Join(a, Some(EMPTY))
  {
    if a.Some? {
      assert [] + a.value.leaves == a.value.leaves == a.value.leaves + [];
      assert {} + a.value.sectors == a.value.sectors == a.value.sectors + {};
    }
  }

  ghost predicate Agree(d: Disk, d': Disk, ss: set<nat>) {
    forall s | s in ss :: s < |d| && d[s] == d'[s]
  }

  /** A verified tree depends on its own sectors only. */
  lemma {:induction false} TreeFrame(d: Disk, d': Disk, n: nat, es: seq<Entry>, h: nat)
    requires h > 0 && Tree(d, n, es, h).Some?
    requires Agree(d, d', Tree(d, n, es, h).value.sectors)
    ensures Tree(d', n, es, h) == Tree(d, n, es, h)
    decreases Level(n, h), 1, 0
  {
    if n <= h {
      forall i | 0 <= i < n ensures PageOk(d', es[i]) {
        assert PageOk(d, es[i]);
      }
    } else {
      KidsFrame(d, d', Level(n, h), n, es);
    }
  }

  lemma {:induction false} KidsFrame(d: Disk, d': Disk, k: nat, n: nat, es: seq<Entry>)
    requires k > 0 && Kids(d, k, n, es).Some?
    requires Agree(d, d', LocSet(es) + Kids(d, k, n, es).value.sectors)
    ensures Kids(d', k, n, es) == Kids(d, k, n, es)
    decreases k, 0, n
  {
    hide Tree, Pow, LocSet;
    if n != 0 {
      var c := Min(Pow(k), n);
      ChildIsLower(k, c);
      LocSetCons(es);
      TreeFrame(d, d', c, d[es[0].loc].entries, NR_ENTRIES_PER_ITREE);
      KidsFrame(d, d', k, n - c, es[1..]);
    }
  }

  /** A tree that verifies against given digests holds exactly the pages that were hashed into them. */
  lemma {:induction false} TreeBinding(d: Disk, d': Disk, n: nat, es: seq<Entry>, es': seq<Entry>, h: nat)
    requires h > 0 && Tree(d, n, es, h).Some? && Tree(d', n, es', h).Some?
    requires Hashes(es) == Hashes(es')
    ensures Hashes(Tree(d, n, es, h).value.leaves) == Hashes(Tree(d', n, es', h).value.leaves)
    decreases Level(n, h), 1, 0
  {
    if n > h {
      KidsBinding(d, d', Level(n, h), n, es, es');
    }
  }

  lemma {:induction false} KidsBinding(d: Disk, d': Disk, k: nat, n: nat, es: seq<Entry>, es': seq<Entry>)
    requires k > 0 && Kids(d, k, n, es).Some? && Kids(d', k, n, es').Some?
    requires Hashes(es) == Hashes(es')
    ensures Hashes(Kids(d, k, n, es).value.leaves) == Hashes(Kids(d', k, n, es').value.leaves)
    decreases k, 0, n
  {
    if n != 0 {
      var c := Min(Pow(k), n);
      ChildIsLower(k, c);
      assert Hashes(es)[0] == Hashes(es')[0];
      var sub, sub' := d[es[0].loc].entries, d'[es'[0].loc].entries;
      TreeBinding(d, d', c, sub, sub', NR_ENTRIES_PER_ITREE);
      assert Hashes(es[1..]) == Hashes(es)[1..] && Hashes(es'[1..]) == Hashes(es')[1..];
      KidsBinding(d, d', k, n - c, es[1..], es'[1..]);
      HashesConcat(Tree(d, c, sub, NR_ENTRIES_PER_ITREE).value.leaves, Kids(d, k, n - c, es[1..]).value.leaves);
      HashesConcat(Tree(d', c, sub', NR_ENTRIES_PER_ITREE).value.leaves, Kids(d', k, n - c, es'[1..]).value.leaves);
    }
  }

  lemma HashesConcat(a: seq<Entry>, b: seq<Entry>)
    ensures Hashes(a + b) == Hashes(a) + Hashes(b)
  {
  }

  /** The entries of one level fit the array they are stored in: lsize never exceeds hsize. */
  lemma EntriesFit(d: Disk, n: nat, es: seq<Entry>, h: nat)
    requires h > 0 && Tree(d, n, es, h).Some?
    ensures |es| <= h
  {
    if n > h {
      var k := Level(n, h);
      LevelIsLeast(n, h, k);
      KidsFit(d, k, n, es, h);
    }
  }

  lemma {:induction false} KidsFit(d: Disk, k: nat, n: nat, es: seq<Entry>, h: nat)
    requires k > 0 && Kids(d, k, n, es).Some? && n <= Pow(k) * h
    ensures |es| <= h
    decreases h
  {
    if n > Pow(k) {
      assert Pow(k) * h == Pow(k) * (h - 1) + Pow(k);
      KidsFit(d, k, n - Pow(k), es[1..], h - 1);
    } else if n > 0 {
      assert Kids(d, k, 0, es[1..]).Some?;
    }
  }

  /** The pages below i full sectors. */
  ghost function Times(i: nat, p: nat): nat {
    if i == 0 then 0 else Times(i - 1, p) + p
  }

  /** Adding one more sector of level k after full ones. */
  lemma {:induction false} KidsAppend(d: Disk, k: nat, m: nat, es: seq<Entry>, e: Entry, c: nat)
    requires k > 0 && Kids(d, k, m, es).Some? && m == Times(|es|, Pow(k))
    requires 0 < c <= Pow(k) && NodeOk(d, e)
    requires Tree(d, c, d[e.loc].entries, NR_ENTRIES_PER_ITREE).Some?
    ensures Kids(d, k, m + c, es + [e])
         == Join(Kids(d, k, m, es), Tree(d, c, d[e.loc].entries, NR_ENTRIES_PER_ITREE))
    decreases m
  {
    var t := Tree(d, c, d[e.loc].entries, NR_ENTRIES_PER_ITREE);
    if m == 0 {
      assert es + [e] == [e] && [e][1..] == [];
      JoinEmpty(t);
    } else {
      KidsAppend(d, k, m - Pow(k), es[1..], e, c);
      assert (es + [e])[1..] == es[1..] + [e];
      assert m + c - Pow(k) == m - Pow(k) + c;
      JoinAssoc(Tree(d, Pow(k), d[es[0].loc].entries, NR_ENTRIES_PER_ITREE), Kids(d, k, m - Pow(k), es[1..]), t);
    }
  }

  /** Every page of a tree is one of its sectors. */
  lemma {:induction false} LeavesAreSectors(d: Disk, n: nat, es: seq<Entry>, h: nat)
    requires h > 0 && Tree(d, n, es, h).Some?
    ensures LocSet(Tree(d, n, es, h).value.leaves) <= Tree(d, n, es, h).value.sectors
    decreases Level(n, h), 1, 0
  {
    if n > h {
      KidLeavesAreSectors(d, Level(n, h), n, es);
    }
  }

  lemma {:induction false} KidLeavesAreSectors(d: Disk, k: nat, n: nat, es: seq<Entry>)
    requires k > 0 && Kids(d, k, n, es).Some?
    ensures LocSet(Kids(d, k, n, es).value.leaves) <= Kids(d, k, n, es).value.sectors
    decreases k, 0, n
  {
    if n != 0 {
      var c := Min(Pow(k), n);
      ChildIsLower(k, c);
      var sub := d[es[0].loc].entries;
      LeavesAreSectors(d, c, sub, NR_ENTRIES_PER_ITREE);
      KidLeavesAreSectors(d, k, n - c, es[1..]);
      LocSetConcat(Tree(d, c, sub, NR_ENTRIES_PER_ITREE).value.leaves, Kids(d, k, n - c, es[1..]).value.leaves);
    }
  }

  lemma LocSetConcat(a: seq<Entry>, b: seq<Entry>)
    ensures LocSet(a + b) <= LocSet(a) + LocSet(b)
  {
  }

  /** The digests stored above pages with the digests hs, computed from those alone. */
  function Tops(hs: seq<Hash>, h: nat): seq<Hash>
    requires h > 0
    decreases Level(|hs|, h), 1, 0
  {
    if |hs| <= h then hs else KidTops(hs, Level(|hs|, h))
  }

  function KidTops(hs: seq<Hash>, k: nat): seq<Hash>
    requires k > 0
    decreases k, 0, |hs|
  {
    if hs == [] then
      []
    else
      var c := Min(Pow(k), |hs|);
      ChildIsLower(k, c);
      [TreeHash(Tops(hs[..c], NR_ENTRIES_PER_ITREE))] + KidTops(hs[c..], k)
  }

  /** A tree verifies only if its entries carry the digests of its pages. */
  lemma {:induction false} TreeDigest(d: Disk, n: nat, es: seq<Entry>, h: nat)
    requires h > 0 && Tree(d, n, es, h).Some?
    ensures Hashes(es) == Tops(Hashes(Tree(d, n, es, h).value.leaves), h)
    decreases Level(n, h), 1, 0
  {
    if n > h {
      KidsDigest(d, Level(n, h), n, es);
    }
  }

  lemma {:induction false} KidsDigest(d: Disk, k: nat, n: nat, es: seq<Entry>)
    requires k > 0 && Kids(d, k, n, es).Some?
    ensures Hashes(es) == KidTops(Hashes(Kids(d, k, n, es).value.leaves), k)
    decreases k, 0, n
  {
    if n != 0 {
      var c := Min(Pow(k), n);
      ChildIsLower(k, c);
      var a := Tree(d, c, d[es[0].loc].entries, NR_ENTRIES_PER_ITREE).value.leaves;
      var b := Kids(d, k, n - c, es[1..]).value.leaves;
      TreeDigest(d, c, d[es[0].loc].entries, NR_ENTRIES_PER_ITREE);
      KidsDigest(d, k, n - c, es[1..]);
      HashesConcat(a, b);
      assert Hashes(a + b)[..c] == Hashes(a) && Hashes(a + b)[c..] == Hashes(b);
      assert Hashes(es) == [es[0].hash] + Hashes(es[1..]);
    }
  }
}
