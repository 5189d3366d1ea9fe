/**
  The state that the vTPM manager's writer and reader work on, and what each of their steps
  keeps: the in-use map of disk_io.c, the in-memory groups of vtpm_disk.h, and the
  relation between memory, map and disk.
 */
module DiskStore {
  import opened Common
  import opened HashTree
  import opened DiskRecovery

  /** One entry of sector_inuse_map: one bit per root slot. */
  datatype Use = Use(first: bool, second: bool) {
    predicate Free() { !first && !second }

    predicate Has(r: Slot) { if r == 0 then first else second }

    function With(r: Slot): Use { if r == 0 then Use(true, second) else Use(first, true) }

    function Without(r: Slot): Use { if r == 0 then Use(false, second) else Use(first, false) }
  }

  const UNUSED := Use(false, false)

  type UseMap = u: seq<Use> | |u| == DISK_MAX_SECTOR
    witness seq(DISK_MAX_SECTOR, _ => UNUSED)

  /** struct mem_vtpm_page; loc 0 means the disk copy is not valid. */
  datatype Page = Page(data: seq<Vtpm>, loc: nat, hash: Hash)

  /** struct mem_group */
  datatype OpenGroup = OpenGroup(meta: GroupMeta, nrVtpms: nat, pages: seq<Page>)

  /** struct mem_group_hdr */
  datatype Group = Group(loc: nat, hash: Hash, inuse: seq<nat>, v: Option<OpenGroup>)

  function Elements(ss: seq<nat>): set<nat> { set s | s in ss }

  lemma ElementsConcat(a: seq<nat>, b: seq<nat>)
    ensures Elements(a + b) == Elements(a) + Elements(b)
  {
  }

  lemma ElementsOfLocs(es: seq<Entry>)
    ensures Elements(Locs(es)) == LocSet(es)
  {
    assert forall i | 0 <= i < |es| :: Locs(es)[i] == es[i].loc;
  }

  function EntryOf(p: Page): Entry { Entry(p.loc, p.hash) }

  function Entries(ps: seq<Page>): seq<Entry> {
    seq(|ps|, i requires 0 <= i < |ps| => EntryOf(ps[i]))
  }

  /** What the writer changes: the disk, the in-use map and the list of sector writes so far. */
  datatype Store = Store(disk: Disk, inuse: UseMap, log: seq<Write>)

  /** First fit. */
  ghost predicate FirstFree(u: UseMap, s: nat) {
    && FIRST_DYNAMIC_SECTOR <= s < DISK_MAX_SECTOR && u[s].Free()
    && forall t: nat | FIRST_DYNAMIC_SECTOR <= t < s :: !u[t].Free()
  }

  /** The store after the writes ws, each into the lowest sector that was free, which is then marked
      with slot r. */
  ghost function Extend(a: Store, ws: seq<Write>, r: Slot): Option<Store> {
    if ws == [] then
      Some(a)
    else
      match Extend(a, ws[..|ws| - 1], r)
      case None => None
      case Some(p) =>
        var w := ws[|ws| - 1];
        if FirstFree(p.inuse, w.loc) then
          Some(Store(p.disk[w.loc := w.block], p.inuse[w.loc := UNUSED.With(r)], p.log + [w]))
        else
          None
  }

  /** From a to b the writer has only filled free sectors. */
  ghost predicate Grew(a: Store, b: Store, r: Slot) {
    a.log <= b.log && Extend(a, b.log[|a.log|..], r) == Some(b)
  }

  lemma GrewIs(a: Store, b: Store, r: Slot)
    requires Grew(a, b, r)
    ensures |a.log| <= |b.log| && Extend(a, b.log[|a.log|..], r) == Some(b)
  {
  }

  lemma GrewRefl(a: Store, r: Slot)
    ensures Grew(a, a, r)
  {
    assert a.log[|a.log|..] == [];
  }

  lemma GrewOne(a: Store, w: Write, r: Slot)
    requires FirstFree(a.inuse, w.loc)
    ensures Grew(a, Store(a.disk[w.loc := w.block], a.inuse[w.loc := UNUSED.With(r)], a.log + [w]), r)
  {
    assert (a.log + [w])[|a.log|..] == [w] && [w][..0] == [];
    assert Extend(a, [], r) == Some(a);
  }

  lemma GrewTrans(a: Store, b: Store, c: Store, r: Slot)
    requires Grew(a, b, r) && Grew(b, c, r)
    ensures Grew(a, c, r)
  {
    assert c.log[|a.log|..] == b.log[|a.log|..] + c.log[|b.log|..];
    ExtendConcat(a, b.log[|a.log|..], b, c.log[|b.log|..], r);
  }

  lemma {:induction false} ExtendConcat(a: Store, x: seq<Write>, b: Store, y: seq<Write>, r: Slot)
    requires Extend(a, x, r) == Some(b)
    ensures Extend(a, x + y, r) == Extend(b, y, r)
    decreases |y|
  {
    if y == [] {
      assert x + y == x;
    } else {
      var y' := y[..|y| - 1];
      ExtendConcat(a, x, b, y', r);
      assert (x + y)[..|x + y| - 1] == x + y';
    }
  }

  /** A sector that was in use keeps its contents and its marks, a static sector its contents. */
  ghost predicate Undisturbed(a: Store, b: Store, r: Slot) {
    && (forall s: nat | s < DISK_MAX_SECTOR && !a.inuse[s].Free() :: b.inuse[s] == a.inuse[s] && b.disk[s] == a.disk[s])
    && (forall s: nat | s < FIRST_DYNAMIC_SECTOR :: b.inuse[s] == a.inuse[s] && b.disk[s] == a.disk[s])
    && (forall s: nat | s < DISK_MAX_SECTOR && a.inuse[s].Free() :: b.inuse[s].Free() || b.inuse[s] == UNUSED.With(r))
  }

  lemma {:induction false} GrewUndisturbed(a: Store, b: Store, r: Slot, ws: seq<Write>)
    requires Extend(a, ws, r) == Some(b)
    ensures Undisturbed(a, b, r)
    ensures b.disk == Replay(a.disk, ws)
    ensures forall w | w in ws :: FIRST_DYNAMIC_SECTOR <= w.loc < DISK_MAX_SECTOR && a.inuse[w.loc].Free()
    decreases |ws|
  {
    if ws != [] {
      var p := Extend(a, ws[..|ws| - 1], r).value;
      GrewUndisturbed(a, p, r, ws[..|ws| - 1]);
      var w := ws[|ws| - 1];
      assert a.inuse[w.loc].Free();
      forall v | v in ws ensures FIRST_DYNAMIC_SECTOR <= v.loc < DISK_MAX_SECTOR && a.inuse[v.loc].Free() {
        assert v == w || v in ws[..|ws| - 1];
      }
    }
  }

  /** Every listed sector carries slot r. */
  ghost predicate Marked(u: UseMap, r: Slot, ss: set<nat>) {
    forall s | s in ss :: s < DISK_MAX_SECTOR && u[s].Has(r)
  }

  lemma GrewMarked(a: Store, b: Store, r: Slot, ss: set<nat>)
    requires Grew(a, b, r) && Marked(a.inuse, r, ss)
    ensures Marked(b.inuse, r, ss) && Agree(a.disk, b.disk, ss)
  {
    GrewUndisturbed(a, b, r, b.log[|a.log|..]);
  }

  /** A page whose location is set is on disk there, as hashed. */
  ghost predicate PageOnDisk(d: Disk, p: Page) {
    p.loc != 0 ==> PageOk(d, EntryOf(p)) && p.hash == PageHash(p.data)
  }

  /** In addition it carries slot r. */
  ghost predicate PageMemOk(d: Disk, u: UseMap, r: Slot, p: Page) {
    PageOnDisk(d, p) && (p.loc != 0 ==> u[p.loc].Has(r))
  }

  ghost predicate PagesMemOk(d: Disk, u: UseMap, r: Slot, ps: seq<Page>) {
    forall i | 0 <= i < |ps| :: PageMemOk(d, u, r, ps[i])
  }

  function PageLocs(ps: seq<Page>): set<nat> {
    set i | 0 <= i < |ps| && ps[i].loc != 0 :: ps[i].loc
  }

  /** The same for a group: what it remembers of the disk is there, and disk_inuse lists exactly its sectors. */
  ghost predicate OnDisk(d: Disk, g: Group) {
    && (g.loc == 0 ==> g.v.Some?)
    && (g.loc != 0 ==> GroupOk(d, Entry(g.loc, g.hash)) && Elements(g.inuse) == TreeSectors(d, Entry(g.loc, g.hash)))
    && (g.v.Some? ==>
          && |g.v.value.pages| == PagesFor(g.v.value.nrVtpms)
          && (forall i | 0 <= i < |g.v.value.pages| :: PageOnDisk(d, g.v.value.pages[i]))
          && (g.loc != 0 ==> d[g.loc].meta == g.v.value.meta && PageLocs(g.v.value.pages) <= Elements(g.inuse)))
  }

  ghost predicate AllOnDisk(d: Disk, gs: seq<Group>) {
    forall i | 0 <= i < |gs| :: OnDisk(d, gs[i])
  }

  /** The sectors that disk_populate_used_group marks. */
  function Marks(g: Group): set<nat> {
    if g.loc != 0 then {g.loc} + Elements(g.inuse)
    else if g.v.Some? then PageLocs(g.v.value.pages)
    else {}
  }

  ghost predicate GroupMemOk(d: Disk, u: UseMap, r: Slot, g: Group) {
    OnDisk(d, g) && Marked(u, r, Marks(g))
  }

  ghost predicate MemOk(d: Disk, u: UseMap, r: Slot, gs: seq<Group>) {
    forall i | 0 <= i < |gs| :: GroupMemOk(d, u, r, gs[i])
  }

  lemma GroupPagesOk(d: Disk, u: UseMap, r: Slot, g: Group)
    requires GroupMemOk(d, u, r, g) && g.v.Some?
    ensures PagesMemOk(d, u, r, g.v.value.pages)
  {
    forall i | 0 <= i < |g.v.value.pages| && g.v.value.pages[i].loc != 0 ensures u[g.v.value.pages[i].loc].Has(r) {
      assert g.v.value.pages[i].loc in PageLocs(g.v.value.pages);
    }
  }

  lemma GrewKeepsGroup(a: Store, b: Store, r: Slot, g: Group)
    requires Grew(a, b, r) && GroupMemOk(a.disk, a.inuse, r, g)
    ensures GroupMemOk(b.disk, b.inuse, r, g)
  {
    GrewMarked(a, b, r, Marks(g));
    if g.loc != 0 {
      GroupFrame(a.disk, b.disk, Entry(g.loc, g.hash));
    }
    if g.v.Some? {
      GroupPagesOk(a.disk, a.inuse, r, g);
      GrewKeepsPages(a, b, r, g.v.value.pages);
    }
  }

  lemma GrewKeepsMem(a: Store, b: Store, r: Slot, gs: seq<Group>)
    requires Grew(a, b, r) && MemOk(a.disk, a.inuse, r, gs)
    ensures MemOk(b.disk, b.inuse, r, gs)
  {
    forall i | 0 <= i < |gs| ensures GroupMemOk(b.disk, b.inuse, r, gs[i]) {
      GrewKeepsGroup(a, b, r, gs[i]);
    }
  }

  /** The digest of a group, computed from memory alone. */
  function GroupDigest(v: OpenGroup): Hash {
    var hashes := seq(|v.pages|, i requires 0 <= i < |v.pages| => PageHash(v.pages[i].data));
    GroupHash(v.meta, v.nrVtpms, Tops(hashes, NR_ENTRIES_PER_GROUP_BASE))
  }

  /** g' is g after a sync: an unchanged group is left alone, a changed one is on disk with its digest. */
  ghost predicate Saved(g: Group, g': Group) {
    && g'.loc != 0
    && (g.loc != 0 ==> g' == g)
    && (g.loc == 0 && g.v.Some? ==>
          g'.hash == GroupDigest(g.v.value) && g'.v.Some? && g'.v.value.meta == g.v.value.meta)
  }

  ghost predicate AllSaved(gs: seq<Group>, gs': seq<Group>) {
    |gs'| == |gs| && forall i | 0 <= i < |gs| :: Saved(gs[i], gs'[i])
  }

  function GroupEntries(gs: seq<Group>): seq<Entry> {
    seq(|gs|, i requires 0 <= i < |gs| => Entry(gs[i].loc, gs[i].hash))
  }

  /** The first i of the groups gs0 have been saved; es are their entries. */
  ghost predicate SavedPart(a: Store, gs0: seq<Group>, r: Slot, i: nat, b: Store, gs: seq<Group>, es: seq<Entry>) {
    && i <= |gs| == |gs0| && |es| == i
    && Grew(a, b, r) && MemOk(b.disk, b.inuse, r, gs)
    && (forall j | 0 <= j < i :: Saved(gs0[j], gs[j]) && es[j] == Entry(gs[j].loc, gs[j].hash))
    && (forall j | i <= j < |gs| :: gs[j] == gs0[j])
  }

  lemma SavedNone(a: Store, gs: seq<Group>, r: Slot)
    requires MemOk(a.disk, a.inuse, r, gs)
    ensures SavedPart(a, gs, r, 0, a, gs, [])
  {
    GrewRefl(a, r);
  }

  lemma SavedPartNext(a: Store, gs0: seq<Group>, r: Slot, i: nat, b: Store, gs: seq<Group>, es: seq<Entry>)
    requires SavedPart(a, gs0, r, i, b, gs, es) && i < |gs|
    ensures Grew(a, b, r) && GroupMemOk(b.disk, b.inuse, r, gs[i])
  {
  }

  lemma OversealedOne(a: Store, gs0: seq<Group>, r: Slot, i: nat, b: Store, gs: seq<Group>, es: seq<Entry>)
    requires SavedPart(a, gs0, r, i, b, gs, es) && i < |gs|
    ensures Oversealed([gs[i]]) ==> Oversealed(gs0)
  {
    assert gs[i] == gs0[i];
  }

  lemma SavedAll(a: Store, gs0: seq<Group>, r: Slot, b: Store, gs: seq<Group>, es: seq<Entry>)
    requires SavedPart(a, gs0, r, |gs|, b, gs, es)
    ensures Grew(a, b, r) && MemOk(b.disk, b.inuse, r, gs) && AllSaved(gs0, gs) && es == GroupEntries(gs)
  {
  }

  lemma SavedNext(a: Store, gs0: seq<Group>, r: Slot, i: nat, b: Store, gs: seq<Group>, es: seq<Entry>, c: Store,
      g: Group)
    requires SavedPart(a, gs0, r, i, b, gs, es) && i < |gs|
    requires Grew(b, c, r) && Saved(gs[i], g) && GroupMemOk(c.disk, c.inuse, r, g)
    ensures SavedPart(a, gs0, r, i + 1, c, gs[i := g], es + [Entry(g.loc, g.hash)])
  {
    GrewTrans(a, b, c, r);
    GrewKeepsMem(b, c, r, gs);
    hide Grew, GroupMemOk, Saved;
  }

  /** The digests above freshly stored pages are those of the data in memory. */
  lemma StoredDigest(d: Disk, v: OpenGroup, ps: seq<Page>, es: seq<Entry>)
    requires Stored(v.pages, ps) && (forall i | 0 <= i < |ps| :: PageOnDisk(d, ps[i]))
    requires Walk(d, |ps|, es, NR_ENTRIES_PER_GROUP_BASE).Some?
    requires Walk(d, |ps|, es, NR_ENTRIES_PER_GROUP_BASE).value.leaves == Entries(ps)
    ensures GroupHash(v.meta, v.nrVtpms, Hashes(es)) == GroupDigest(v)
  {
    TreeDigest(d, |ps|, es, NR_ENTRIES_PER_GROUP_BASE);
    forall i | 0 <= i < |ps| ensures Hashes(Entries(ps))[i] == PageHash(v.pages[i].data) {
      assert StoredPage(v.pages[i], ps[i]) && PageOnDisk(d, ps[i]);
    }
    assert Hashes(Entries(ps)) == seq(|v.pages|, i requires 0 <= i < |v.pages| => PageHash(v.pages[i].data));
  }

  lemma StoredLocs(d: Disk, ps: seq<Page>, es: seq<Entry>)
    requires Walk(d, |ps|, es, NR_ENTRIES_PER_GROUP_BASE).Some?
    requires Walk(d, |ps|, es, NR_ENTRIES_PER_GROUP_BASE).value.leaves == Entries(ps)
    ensures PageLocs(ps) <= Walk(d, |ps|, es, NR_ENTRIES_PER_GROUP_BASE).value.sectors
  {
    LeavesAreSectors(d, |ps|, es, NR_ENTRIES_PER_GROUP_BASE);
    forall s | s in PageLocs(ps) ensures s in LocSet(Entries(ps)) {
      var i :| 0 <= i < |ps| && s == ps[i].loc;
      assert Entries(ps)[i].loc == s;
    }
  }

  /** u' is u with slot r added to the sectors ss. */
  ghost predicate Added(u: UseMap, u': UseMap, r: Slot, ss: set<nat>) {
    forall s: nat | s < DISK_MAX_SECTOR :: u'[s] == if s in ss then u[s].With(r) else u[s]
  }

  lemma PageLocsNext(ps: seq<Page>, p: Page)
    ensures PageLocs(ps + [p]) == PageLocs(ps) + (if p.loc != 0 then {p.loc} else {})
  {
    forall s | s in PageLocs(ps) ensures s in PageLocs(ps + [p]) {
      var i :| 0 <= i < |ps| && ps[i].loc != 0 && ps[i].loc == s;
      assert (ps + [p])[i] == ps[i];
    }
    assert (ps + [p])[|ps|] == p;
  }

  function AllMarks(gs: seq<Group>): set<nat> {
    if gs == [] then {} else AllMarks(gs[..|gs| - 1]) + Marks(gs[|gs| - 1])
  }

  lemma {:induction false} AllMarksHas(gs: seq<Group>, i: nat)
    requires i < |gs|
    ensures Marks(gs[i]) <= AllMarks(gs)
  {
    if i < |gs| - 1 {
      AllMarksHas(gs[..|gs| - 1], i);
    }
  }

  /** The sectors a group remembers exist. */
  lemma MarksBounded(d: Disk, g: Group)
    requires Shape(d) && OnDisk(d, g)
    ensures forall s | s in Marks(g) :: FIRST_DYNAMIC_SECTOR <= s < DISK_MAX_SECTOR
  {
    forall s | s in Marks(g) ensures FIRST_DYNAMIC_SECTOR <= s < DISK_MAX_SECTOR {
      if g.loc != 0 {
        GroupIsDynamic(d, Entry(g.loc, g.hash), s);
      } else {
        var i :| 0 <= i < |g.v.value.pages| && g.v.value.pages[i].loc != 0 && s == g.v.value.pages[i].loc;
        assert PageOnDisk(d, g.v.value.pages[i]);
      }
    }
  }

  lemma GrewKeepsKids(a: Store, b: Store, r: Slot, k: nat, n: nat, es: seq<Entry>)
    requires Grew(a, b, r) && k > 0 && Kids(a.disk, k, n, es).Some?
    requires Marked(a.inuse, r, LocSet(es) + Kids(a.disk, k, n, es).value.sectors)
    ensures Kids(b.disk, k, n, es) == Kids(a.disk, k, n, es)
    ensures Marked(b.inuse, r, LocSet(es) + Kids(a.disk, k, n, es).value.sectors)
  {
    GrewMarked(a, b, r, LocSet(es) + Kids(a.disk, k, n, es).value.sectors);
    KidsFrame(a.disk, b.disk, k, n, es);
  }

  lemma GrewKeepsPages(a: Store, b: Store, r: Slot, ps: seq<Page>)
    requires Grew(a, b, r) && PagesMemOk(a.disk, a.inuse, r, ps)
    ensures PagesMemOk(b.disk, b.inuse, r, ps)
  {
    GrewUndisturbed(a, b, r, b.log[|a.log|..]);
    forall i | 0 <= i < |ps| ensures PageMemOk(b.disk, b.inuse, r, ps[i]) {
      assert PageMemOk(a.disk, a.inuse, r, ps[i]);
    }
  }

  /** p' is p after it has been stored: a valid copy is left alone and the data do not change. */
  ghost predicate StoredPage(p: Page, p': Page) {
    p'.data == p.data && p'.loc != 0 && (p.loc != 0 ==> p' == p)
  }

  /** The first |ps'| pages of ps have been stored. */
  ghost predicate StoredPrefix(ps: seq<Page>, ps': seq<Page>) {
    |ps'| <= |ps| && forall i | 0 <= i < |ps'| :: StoredPage(ps[i], ps'[i])
  }

  ghost predicate Stored(ps: seq<Page>, ps': seq<Page>) {
    |ps'| == |ps| && StoredPrefix(ps, ps')
  }

  lemma StoredMore(ps: seq<Page>, n: nat, a: seq<Page>, b: seq<Page>)
    requires |a| <= n <= |ps| && StoredPrefix(ps, a) && Stored(ps[|a|..n], b)
    ensures StoredPrefix(ps, a + b) && |a + b| == n
  {
    forall i | 0 <= i < |a + b| ensures StoredPage(ps[i], (a + b)[i]) {
      if i >= |a| {
        assert StoredPage(ps[|a|..n][i - |a|], b[i - |a|]);
      }
    }
  }

  /** A walk finds exactly these pages; its sectors and `own` carry slot r; `used` lists its sectors. */
  ghost predicate WrittenTree(v: Option<Visit>, st: Store, r: Slot, ps: seq<Page>, own: set<nat>, used: seq<nat>) {
    && v.Some?
    && v.value.leaves == Entries(ps)
    && Marked(st.inuse, r, own + v.value.sectors)
    && Elements(used) == v.value.sectors
    && PagesMemOk(st.disk, st.inuse, r, ps)
  }

  /** Kids, under a name that is not unfolded further. */
  ghost function Below(d: Disk, k: nat, n: nat, es: seq<Entry>): Option<Visit>
    requires k > 0
  {
    Kids(d, k, n, es)
  }

  /** Times, under a name that is not unfolded. */
  ghost function Full(i: nat, p: nat): nat { Times(i, p) }

  lemma FullNext(i: nat, p: nat)
    ensures Full(i + 1, p) == Full(i, p) + p
  {
  }

  lemma EntriesConcat(a: seq<Page>, b: seq<Page>)
    ensures Entries(a + b) == Entries(a) + Entries(b)
  {
  }

  lemma NextKid(a: Store, b: Store, r: Slot, k: nat, n: nat, es: seq<Entry>, ps: seq<Page>, used: seq<nat>,
      e: Entry, child: nat, ps': seq<Page>, used': seq<nat>)
    requires Grew(a, b, r) && k > 0 && WrittenTree(Below(a.disk, k, n, es), a, r, ps, LocSet(es), used)
    requires n == Full(|es|, Pow(k)) && 0 < child <= Pow(k) && NodeOk(b.disk, e)
    requires WrittenTree(Walk(b.disk, child, b.disk[e.loc].entries, NR_ENTRIES_PER_ITREE), b, r, ps', {e.loc}, used')
    ensures WrittenTree(Below(b.disk, k, n + child, es + [e]), b, r, ps + ps', LocSet(es + [e]), used + used')
  {
    GrewKeepsKids(a, b, r, k, n, es);
    GrewKeepsPages(a, b, r, ps);
    KidsAppend(b.disk, k, n, es, e, child);
    LocSetAppend(es, e);
    EntriesConcat(ps, ps');
    ElementsConcat(used, used');
  }

  /** The first |ps'| of the pages ps and the nodes es above them have been written. */
  ghost predicate WrittenPart(a: Store, st: Store, r: Slot, k: nat, ps: seq<Page>, ps': seq<Page>, es: seq<Entry>,
      used: seq<nat>)
  {
    && k > 0 && Grew(a, st, r) && StoredPrefix(ps, ps')
    && (|ps'| < |ps| ==> |ps'| == Full(|es|, Pow(k)))
    && WrittenTree(Below(st.disk, k, |ps'|, es), st, r, ps', LocSet(es), used)
  }

  lemma WrittenNone(a: Store, r: Slot, k: nat, ps: seq<Page>)
    requires k > 0
    ensures WrittenPart(a, a, r, k, ps, [], [], [])
  {
    GrewRefl(a, r);
  }

  lemma WrittenPartGrew(a: Store, st: Store, r: Slot, k: nat, ps: seq<Page>, ps': seq<Page>, es: seq<Entry>,
      used: seq<nat>,
      some: seq<Page>)
    requires WrittenPart(a, st, r, k, ps, ps', es, used) && PagesMemOk(a.disk, a.inuse, r, ps)
    requires forall p | p in some :: p in ps
    ensures Grew(a, st, r) && PagesMemOk(st.disk, st.inuse, r, some)
  {
    GrewKeepsPages(a, st, r, ps);
    forall i | 0 <= i < |some| ensures PageMemOk(st.disk, st.inuse, r, some[i]) {
      assert some[i] in ps;
    }
  }

  lemma WrittenAll(a: Store, st: Store, r: Slot, k: nat, ps: seq<Page>, ps': seq<Page>, es: seq<Entry>, used: seq<nat>)
    requires WrittenPart(a, st, r, k, ps, ps', es, used) && |ps'| == |ps|
    ensures Grew(a, st, r) && Stored(ps, ps') && WrittenTree(Below(st.disk, k, |ps|, es), st, r, ps', LocSet(es), used)
  {
  }

  lemma WrittenNext(a: Store, b: Store, c: Store, r: Slot, k: nat, ps: seq<Page>, ps': seq<Page>, es: seq<Entry>,
      used: seq<nat>,
      e: Entry, more: seq<Page>, below: seq<nat>)
    requires WrittenPart(a, b, r, k, ps, ps', es, used) && Grew(b, c, r) && |ps'| < |ps|
    requires var child := Min(Pow(k), |ps| - |ps'|);
      && Stored(ps[|ps'|..|ps'| + child], more) && NodeOk(c.disk, e)
      && WrittenTree(Walk(c.disk, child, c.disk[e.loc].entries, NR_ENTRIES_PER_ITREE), c, r, more, {e.loc}, below)
    ensures WrittenPart(a, c, r, k, ps, ps' + more, es + [e], used + below)
  {
    var child := Min(Pow(k), |ps| - |ps'|);
    hide WrittenTree, LocSet, Grew, StoredPage, Full, Pow;
    GrewTrans(a, b, c, r);
    NextKid(b, c, r, k, |ps'|, es, ps', used, e, child, more, below);
    StoredMore(ps, |ps'| + child, ps', more);
    FullNext(|es|, Pow(k));
  }

  lemma LeavesStored(st: Store, r: Slot, ps: seq<Page>, ps': seq<Page>)
    requires Stored(ps, ps') && PagesMemOk(st.disk, st.inuse, r, ps')
    ensures forall i | 0 <= i < |ps| :: PageOk(st.disk, Entries(ps')[i])
    ensures Marked(st.inuse, r, LocSet(Entries(ps')))
  {
    forall i | 0 <= i < |ps| ensures PageOk(st.disk, Entries(ps')[i]) && st.inuse[Entries(ps')[i].loc].Has(r) {
      assert PageMemOk(st.disk, st.inuse, r, ps'[i]);
    }
  }

  lemma AllMarksBounded(d: Disk, gs: seq<Group>)
    requires Shape(d) && AllOnDisk(d, gs)
    ensures forall i, s | 0 <= i < |gs| && s in Marks(gs[i]) :: s < DISK_MAX_SECTOR
  {
    forall i, s | 0 <= i < |gs| && s in Marks(gs[i]) ensures s < DISK_MAX_SECTOR {
      MarksBounded(d, gs[i]);
    }
  }

  lemma AllMarked(d: Disk, u: UseMap, r: Slot, gs: seq<Group>)
    requires Shape(d) && AllOnDisk(d, gs)
    requires forall s: nat | s < DISK_MAX_SECTOR && s in AllMarks(gs) :: u[s].Has(r)
    ensures MemOk(d, u, r, gs)
  {
    forall i | 0 <= i < |gs| ensures GroupMemOk(d, u, r, gs[i]) {
      AllMarksHas(gs, i);
      MarksBounded(d, gs[i]);
    }
  }

  lemma MarksAdded(d: Disk, u: UseMap, u': UseMap, r: Slot, gs: seq<Group>)
    requires Shape(d) && AllOnDisk(d, gs) && Added(u, u', r, AllMarks(gs))
    ensures MemOk(d, u', r, gs)
  {
    AllMarked(d, u', r, gs);
  }

  /** Every sector of the tree committed in slot r carries slot r. */
  ghost predicate Protected(d: Disk, u: UseMap, r: Slot)
    requires Loads(d, r)
  {
    forall s: nat | s < DISK_MAX_SECTOR && Reaches(d, d[RootLoc(r)].groups, s) :: u[s].Has(r)
  }

  lemma WritesSpare(d: Disk, u: UseMap, flushed: UseMap, b: Slot, r: Slot, x: Store, y: Store, ws: seq<Write>)
    requires r != b && Loads(d, r) && Protected(d, u, r)
    requires forall s: nat | s < DISK_MAX_SECTOR :: flushed[s] == u[s] || flushed[s] == u[s].Without(b)
    requires forall s: nat | s < DISK_MAX_SECTOR :: x.inuse[s] == flushed[s] || x.inuse[s] == flushed[s].With(b)
    requires Undisturbed(x, y, b)
    requires forall w | w in ws :: FIRST_DYNAMIC_SECTOR <= w.loc < DISK_MAX_SECTOR && x.inuse[w.loc].Free()
    ensures Spares(d, r, ws) && Protected(d, y.inuse, r)
  {
  }

  /** u' is u after disk_flush_slot for slot b. */
  ghost predicate IsFlushed(u: UseMap, b: Slot, u': UseMap) {
    forall s: nat | s < DISK_MAX_SECTOR :: u'[s] == if s < FIRST_DYNAMIC_SECTOR then u[s] else u[s].Without(b)
  }

  /** The tree writes of a sync into slot Other(r): x is the store once the slot is flushed and
      the remembered sectors are marked, y the store after the writes. */
  lemma TreeWrites(a: Store, r: Slot, flushed: UseMap, marks: set<nat>, x: Store, y: Store)
    requires IsFlushed(a.inuse, Other(r), flushed) && Added(flushed, x.inuse, Other(r), marks)
    requires x.disk == a.disk && x.log == a.log && Grew(x, y, Other(r))
    requires Loads(a.disk, r) ==> Protected(a.disk, a.inuse, r)
    ensures |a.log| <= |y.log|
    ensures var tree := y.log[|a.log|..];
            && Dynamic(tree) && y.log == a.log + tree && y.disk == Replay(a.disk, tree)
            && (Loads(a.disk, r) ==> Spares(a.disk, r, tree) && Protected(a.disk, y.inuse, r))
  {
    var tree := y.log[|a.log|..];
    GrewUndisturbed(x, y, Other(r), tree);
    hide Grew, Extend, Replay, Loads;
    if Loads(a.disk, r) {
      WritesSpare(a.disk, a.inuse, flushed, Other(r), r, x, y, tree);
    }
  }

  /** What memory remembers of the disk does not depend on the static sectors. */
  lemma OnDiskFrame(d: Disk, d': Disk, g: Group)
    requires Shape(d) && OnDisk(d, g)
    requires forall s: nat | FIRST_DYNAMIC_SECTOR <= s < DISK_MAX_SECTOR :: d'[s] == d[s]
    ensures OnDisk(d', g)
  {
    if g.loc != 0 {
      var e := Entry(g.loc, g.hash);
      forall s | s in GroupSectors(d, e) ensures s < |d| && d'[s] == d[s] {
        GroupIsDynamic(d, e, s);
      }
      GroupFrame(d, d', e);
    }
    if g.v.Some? {
      forall i | 0 <= i < |g.v.value.pages| ensures PageOnDisk(d', g.v.value.pages[i]) {
        assert PageOnDisk(d, g.v.value.pages[i]);
      }
    }
  }

  // ----- where the first write of a sync goes -----

  /** The map after disk_flush_slot. */
  ghost function Flushed(u: UseMap, b: Slot): UseMap {
    seq(DISK_MAX_SECTOR, s requires 0 <= s < DISK_MAX_SECTOR =>
      if s < FIRST_DYNAMIC_SECTOR then u[s] else u[s].Without(b))
  }

  /** A single group without vTPMs that is not on disk. */
  ghost predicate Bare(gs: seq<Group>) {
    && |gs| == 1 && gs[0].loc == 0 && gs[0].v.Some?
    && gs[0].v.value.pages == [] && gs[0].v.value.meta.nrSeals <= NR_SEALS_PER_GROUP
  }

  ghost function BareSector(gs: seq<Group>): Block
    requires Bare(gs)
  {
    GroupSector(gs[0].v.value.meta, gs[0].v.value.nrVtpms, [])
  }

  /** b is a after one write, into the lowest free sector. */
  ghost predicate WroteFirst(a: Store, block: Block, b: Store, r: Slot) {
    forall s: nat | FirstFree(a.inuse, s) ::
      b == Store(a.disk[s := block], a.inuse[s := UNUSED.With(r)], a.log + [Write(s, block)])
  }

  /** A sync of a bare group into slot b starts by writing it into the lowest sector that is free
      once slot b is flushed, and marks no other sector. */
  ghost predicate BareSync(a: Store, gs: seq<Group>, b: Slot, ok: bool, log: seq<Write>, u: UseMap, gs': seq<Group>) {
    Bare(gs) ==>
      forall s: nat | FirstFree(Flushed(a.inuse, b), s) ::
        && ok && log != [] && log[0] == Write(s, BareSector(gs)) && u == Flushed(a.inuse, b)[s := UNUSED.With(b)]
        && |gs'| == 1 && gs'[0].loc == s
  }

  lemma BareSyncMore(a: Store, gs: seq<Group>, b: Slot, ok: bool, log: seq<Write>, log': seq<Write>, u: UseMap,
      gs': seq<Group>)
    requires BareSync(a, gs, b, ok, log, u, gs') && log <= log'
    ensures BareSync(a, gs, b, ok, log', u, gs')
  {
  }

  /** Writing the bare group gs alone leads from x to y. */
  ghost predicate WroteBare(x: Store, gs: seq<Group>, y: Store, r: Slot, ok: bool, gs': seq<Group>) {
    Bare(gs) ==>
      && WroteFirst(x, BareSector(gs), y, r) && |gs'| == 1
      && forall s: nat | FirstFree(x.inuse, s) :: ok && gs'[0].loc == s
  }

  lemma RefusedBare(x: Store, gs: seq<Group>, y: Store, r: Slot, g: Group)
    requires |gs| == 1 && WroteBare(x, gs, y, r, false, [g])
    ensures WroteBare(x, gs, y, r, false, gs)
  {
  }

  lemma SeveralAreNotBare(x: Store, gs: seq<Group>, y: Store, r: Slot, ok: bool, gs': seq<Group>)
    requires |gs| != 1
    ensures WroteBare(x, gs, y, r, ok, gs')
  {
  }

  lemma BareSyncStarts(a: Store, gs: seq<Group>, b: Slot, flushed: UseMap, x: Store, y: Store, ok: bool,
      gs': seq<Group>)
    requires x.log <= y.log && WroteBare(x, gs, y, b, ok, gs')
    requires IsFlushed(a.inuse, b, flushed)
    requires Added(flushed, x.inuse, b, AllMarks(gs))
    ensures BareSync(a, gs, b, ok, y.log[|x.log|..], y.inuse, gs')
  {
    if Bare(gs) {
      assert AllMarks(gs) == {} by { assert gs == [] + [gs[0]] && AllMarks([]) == {}; }
      assert x.inuse == Flushed(a.inuse, b);
    }
  }

  /** The image is as good as a crash may leave it: see DiskRecovery.OldOrNew.  If nothing was
      committed before, then recovery finds nothing or the new tree. */
  ghost predicate SafeImage(d0: Disk, r: Slot, root: Block, d: Disk) {
    && Shape(d) && RootsFrom(d0, r, root, d)
    && (Loads(d0, r) ==>
          && Loads(d, r) && Intact(d0, r, d) && Recover(d).Some?
          && (First(d0) == Some(r) ==> OldOrNew(d0, r, root, d)))
    && (First(d0).None? ==>
          Recover(d) == First(d) && (Recover(d).Some? ==> Recover(d).value == Other(r) && d[RootLoc(Other(r))] == root))
  }

  ghost predicate CrashSafe(d0: Disk, r: Slot, root: Block, log: seq<Write>) {
    forall d | CrashImage(d0, log, d) :: SafeImage(d0, r, root, d)
  }

  lemma SyncIsSafe(d0: Disk, r: Slot, p: Plan)
    requires Shape(d0) && Dynamic(p.tree) && Complete(d0, p)
    requires Loads(d0, r) ==> Spares(d0, r, p.tree) && p.root.sequence > d0[RootLoc(r)].sequence
    ensures CrashSafe(d0, r, p.root, PlanLog(r, p))
  {
    hide Shape, RootsFrom, Dynamic, Complete, Spares, Loads, Intact, Recover, First, OldOrNew, CrashImage, PlanLog;
    forall d | CrashImage(d0, PlanLog(r, p), d) ensures SafeImage(d0, r, p.root, d) {
      SyncImage(d0, r, p, d);
      if Loads(d0, r) {
        CrashKeepsOld(d0, r, p, d);
        if First(d0) == Some(r) {
          CrashAtomicity(d0, r, p, d);
        }
      }
      if First(d0).None? {
        FirstSyncImage(d0, r, p, d);
      }
    }
  }

  /** If nothing was committed, recovery finds nothing or the new tree. */
  lemma FirstSyncImage(d0: Disk, r: Slot, p: Plan, d: Disk)
    requires Shape(d0) && Dynamic(p.tree) && Complete(d0, p) && First(d0).None?
    requires CrashImage(d0, PlanLog(r, p), d)
    ensures Recover(d) == First(d)
    ensures Recover(d).Some? ==> Recover(d).value == Other(r) && d[RootLoc(Other(r))] == p.root
  {
    hide Shape, Dynamic, Complete, CrashImage, PlanLog, Spares, Intact, Loads, Recover, RootsFrom;
    SyncImage(d0, r, p, d);
    assert !RootPre(d, r);
    if RootPre(d, Other(r)) {
      FirstThatLoads(d, Other(r));
    } else {
      NoneFirst(d);
    }
  }

  lemma AbortIsSafe(d0: Disk, r: Slot, tree: seq<Write>)
    requires Shape(d0) && Dynamic(tree)
    requires Loads(d0, r) ==> Spares(d0, r, tree)
    ensures CrashSafe(d0, r, Unreadable, tree)
  {
    hide Dynamic, Spares, CrashImage;
    forall d | CrashImage(d0, tree, d) ensures SafeImage(d0, r, Unreadable, d) {
      TreePhase(d0, tree, d);
      if Loads(d0, r) {
        IntactLoads(d0, r, d);
      }
    }
  }

  lemma IdleIsSafe(d0: Disk, r: Slot)
    requires Shape(d0)
    ensures CrashSafe(d0, r, Unreadable, [])
  {
    AbortIsSafe(d0, r, []);
  }

  /** What a sync that ran to its end leaves: the new tree is committed under its own slot. */
  lemma SyncCommits(d0: Disk, r: Slot, p: Plan, u: UseMap, sequence: nat, gs0: seq<Group>, gs: seq<Group>)
    requires Shape(d0) && Dynamic(p.tree) && p.root == RootSector(sequence, GroupEntries(gs))
    requires p.seals || d0[SealLoc(Other(r))].SealList?
    requires 0 < |gs| <= NR_ENTRIES_PER_ROOT && MemOk(Replay(d0, p.tree), u, Other(r), gs)
    requires gs0 != [] && Syncable(gs0) && AllSaved(gs0, gs)
    ensures Complete(d0, p)
    ensures var d := Replay(d0, PlanLog(r, p));
            && Shape(d) && Loads(d, Other(r)) && Protected(d, u, Other(r))
            && AllOnDisk(d, gs) && d[RootLoc(Other(r))] == p.root
  {
    hide PlanLog, Replay, Dynamic, MemOk, AllSaved, GroupEntries, Shape, SameTrees, GroupsOk, Protected, AllOnDisk;
    var t, d, b := Replay(d0, p.tree), Replay(d0, PlanLog(r, p)), Other(r);
    PlanImage(d0, r, p);
    SavedGroupsOk(t, u, b, gs0, gs);
    SavedLength(gs0, gs);
    CommitLoads(t, d, u, b, sequence, gs0, gs);
    CommitOnDisk(t, d, u, b, gs);
  }

  lemma SavedLength(gs0: seq<Group>, gs: seq<Group>)
    requires AllSaved(gs0, gs)
    ensures |GroupEntries(gs)| == |gs| == |gs0| && (gs != [] ==> GroupEntries(gs)[0].loc == gs[0].loc)
  {
  }

  /** The image after the last write. */
  lemma PlanImage(d0: Disk, r: Slot, p: Plan)
    requires Shape(d0) && Dynamic(p.tree) && p.root.RootSector? && (p.seals || d0[SealLoc(Other(r))].SealList?)
    ensures var t, d := Replay(d0, p.tree), Replay(d0, PlanLog(r, p));
            && Shape(t) && Shape(d) && SameTrees(t, d)
            && d[SealLoc(Other(r))].SealList? && d[RootLoc(Other(r))] == p.root
  {
    hide PlanLog, Replay, Dynamic;
    DynamicKeeps(d0, p.tree);
    PlanReplay(d0, r, p);
  }

  /** The dynamic sectors are the same. */
  ghost predicate SameTrees(t: Disk, d: Disk) {
    forall s: nat | FIRST_DYNAMIC_SECTOR <= s < DISK_MAX_SECTOR :: d[s] == t[s]
  }

  lemma CommitLoads(t: Disk, d: Disk, u: UseMap, b: Slot, sequence: nat, gs0: seq<Group>, gs: seq<Group>)
    requires Shape(t) && SameTrees(t, d) && d[SealLoc(b)].SealList?
    requires d[RootLoc(b)] == RootSector(sequence, GroupEntries(gs))
    requires 0 < |gs| <= NR_ENTRIES_PER_ROOT && MemOk(t, u, b, gs) && gs0 != [] && Syncable(gs0) && AllSaved(gs0, gs)
    ensures Loads(d, b) && Protected(d, u, b)
  {
    var es := GroupEntries(gs);
    SavedGroupsOk(t, u, b, gs0, gs);
    GroupsFrame(t, d, es);
    hide GroupOk, GroupMemOk, AllSaved, Shape;
    forall s: nat | s < DISK_MAX_SECTOR && Reaches(d, es, s) ensures u[s].Has(b) {
      var i :| 0 <= i < |es| && s in GroupSectors(d, es[i]);
      GroupIsMarked(t, u, b, gs[i], s);
    }
  }

  lemma CommitOnDisk(t: Disk, d: Disk, u: UseMap, b: Slot, gs: seq<Group>)
    requires Shape(t) && SameTrees(t, d) && MemOk(t, u, b, gs)
    ensures AllOnDisk(d, gs)
  {
    hide Shape, GroupMemOk, OnDisk;
    forall i | 0 <= i < |gs| ensures OnDisk(d, gs[i]) {
      MemIsOnDisk(t, u, b, gs[i]);
      OnDiskFrame(t, d, gs[i]);
    }
  }

  lemma MemIsOnDisk(d: Disk, u: UseMap, r: Slot, g: Group)
    requires GroupMemOk(d, u, r, g)
    ensures OnDisk(d, g)
  {
  }

  lemma GroupIsMarked(d: Disk, u: UseMap, r: Slot, g: Group, s: nat)
    requires GroupMemOk(d, u, r, g) && g.loc != 0
    requires GroupOk(d, Entry(g.loc, g.hash)) && s in GroupSectors(d, Entry(g.loc, g.hash)) && s < DISK_MAX_SECTOR
    ensures u[s].Has(r)
  {
  }

  /** Saved groups verify from their entries. */
  lemma SavedGroupsOk(d: Disk, u: UseMap, r: Slot, gs0: seq<Group>, gs: seq<Group>)
    requires MemOk(d, u, r, gs) && gs0 != [] && Syncable(gs0) && AllSaved(gs0, gs)
    ensures GroupsOk(d, GroupEntries(gs)) && d[gs[0].loc].meta.nrSeals > 0
    ensures forall i | 0 <= i < |gs| :: gs[i].loc != 0 && GroupMemOk(d, u, r, gs[i])
  {
    forall i | 0 <= i < |gs| ensures GroupOk(d, GroupEntries(gs)[i]) && gs[i].loc != 0 {
      assert GroupMemOk(d, u, r, gs[i]) && Saved(gs0[i], gs[i]);
    }
    assert Saved(gs0[0], gs[0]) && GroupMemOk(d, u, r, gs[0]);
  }

  lemma PlanReplay(d0: Disk, r: Slot, p: Plan)
    ensures PlanLog(r, p) == p.tree + PlanLog(r, p)[|p.tree|..]
    ensures Replay(d0, PlanLog(r, p))
         == (var d := Replay(d0, p.tree)[RootLoc(Other(r)) := p.root];
             if p.seals then d[SealLoc(Other(r)) := SealList] else d)
  {
    var w := Write(RootLoc(Other(r)), p.root);
    ReplayAppend(d0, p.tree, w);
    if p.seals {
      ReplayAppend(d0, p.tree + [w], Write(SealLoc(Other(r)), SealList));
    } else {
      assert PlanLog(r, p) == p.tree + [w];
    }
  }

  /** What holds between syncs: the active slot is the committed one, or nothing was ever
      committed; every sector of the committed tree carries the active slot; and what
      memory remembers of the disk is there. */
  ghost predicate Consistent(d: Disk, u: UseMap, r: Slot, sequence: nat, gs: seq<Group>, seals: Use) {
    Sound(d, u, r, sequence, gs, seals) && (Loads(d, r) || First(d).None?)
  }

  /** The same if something may have been committed in the other slot. */
  ghost predicate Sound(d: Disk, u: UseMap, r: Slot, sequence: nat, gs: seq<Group>, seals: Use) {
    && Shape(d)
    && AllOnDisk(d, gs)
    && (Loads(d, r) ==> Protected(d, u, r) && d[RootLoc(r)].sequence <= sequence)
    && (forall b: Slot | seals.Has(b) :: d[SealLoc(b)].SealList?)
  }

  /** After the last write the new slot is the committed one.  If the invariant held before,
      recovery prefers it, and going back to the old slot keeps the invariant exactly if that
      slot holds a tree. */
  lemma SyncEnds(d0: Disk, r: Slot, p: Plan, d: Disk, u: UseMap, sequence: nat, gs: seq<Group>, seals: Use)
    requires Shape(d0) && Dynamic(p.tree) && Complete(d0, p) && d == Replay(d0, PlanLog(r, p))
    requires Loads(d0, r) ==> Spares(d0, r, p.tree) && Protected(d0, u, r) && p.root.sequence > d0[RootLoc(r)].sequence
    requires Shape(d) && AllOnDisk(d, gs) && Loads(d, Other(r)) && Protected(d, u, Other(r))
    requires d[RootLoc(Other(r))] == p.root && p.root.sequence == sequence
    requires seals.Has(r) ==> d0[SealLoc(r)].SealList?
    ensures Consistent(d, u, Other(r), sequence, gs, seals)
    ensures Loads(d0, r) || First(d0).None? ==>
      && First(d) == Recover(d) == Some(Other(r))
      && Sound(d, u, r, sequence, gs, seals)
      && (Consistent(d, u, r, sequence, gs, seals) <==> Loads(d0, r))
  {
    OldAfterSync(d0, r, p, d, u);
    hide Shape, Dynamic, Complete, AllOnDisk, Spares, Protected, GroupsOk, Replay, PlanLog, First, Recover;
    assert RootPre(d, Other(r));
    if Loads(d0, r) || First(d0).None? {
      HigherIsFirst(d, Other(r));
      FirstThatLoads(d, Other(r));
    }
  }

  /** The old slot after the last write. */
  lemma OldAfterSync(d0: Disk, r: Slot, p: Plan, d: Disk, u: UseMap)
    requires Shape(d0) && Dynamic(p.tree) && Complete(d0, p) && d == Replay(d0, PlanLog(r, p))
    requires Loads(d0, r) ==> Spares(d0, r, p.tree) && Protected(d0, u, r)
    ensures d[SealLoc(r)] == d0[SealLoc(r)] && d[RootLoc(r)] == d0[RootLoc(r)]
    ensures Loads(d0, r) ==> Loads(d, r) && Protected(d, u, r)
    ensures Loads(d0, r) || First(d0).None? ==> (RootPre(d, r) <==> Loads(d0, r))
  {
    var log := PlanLog(r, p);
    assert log[..|log|] == log;
    assert StopsAt(d0, log, |log|, false, d);
    hide Shape, Dynamic, Complete, PlanLog, Spares, Intact, GroupsOk, RootsFrom, Protected, Replay;
    SyncImage(d0, r, p, d);
    if Loads(d0, r) {
      IntactLoads(d0, r, d);
      IntactProtected(d0, r, d, u);
    }
  }

  lemma IntactProtected(d0: Disk, r: Slot, d: Disk, u: UseMap)
    requires Shape(d0) && Loads(d0, r) && Intact(d0, r, d) && Loads(d, r) && Protected(d0, u, r)
    ensures Protected(d, u, r)
  {
    IntactReaches(d0, r, d);
    hide Reaches, Loads;
  }

  // ----- one sync as a whole -----

  /** The manager and its device. */
  datatype Snapshot = Snapshot(st: Store, sequence: nat, slot: Slot, groups: seq<Group>, seals: Use)

  /** What a sync does: it writes nothing because nothing could be read back, or it stops for want of
      sectors after the writes `tree`, or it writes the trees and then the root of the groups as
      saved. */
  datatype Outcome = Idle | Aborted(tree: seq<Write>) | Ended(tree: seq<Write>, saved: seq<Group>)

  /** Every dynamic sector carries a slot. */
  ghost predicate NoneFree(u: UseMap) {
    forall s: nat | FIRST_DYNAMIC_SECTOR <= s < DISK_MAX_SECTOR :: !u[s].Free()
  }

  /** Some open group has more seals than its sector can hold. */
  ghost predicate Oversealed(gs: seq<Group>) {
    exists i :: 0 <= i < |gs| && gs[i].v.Some? && gs[i].v.value.meta.nrSeals > NR_SEALS_PER_GROUP
  }

  /** The store once slot b is flushed and the remembered sectors of the groups are marked again. */
  ghost function Prepared(st: Store, b: Slot, gs: seq<Group>): Store {
    st.(inuse := seq(DISK_MAX_SECTOR, s requires 0 <= s < DISK_MAX_SECTOR =>
      var u := if s < FIRST_DYNAMIC_SECTOR then st.inuse[s] else st.inuse[s].Without(b);
      if s in AllMarks(gs) then u.With(b) else u))
  }

  /** The store after the tree writes of a sync, if they are possible. */
  ghost function AfterTree(s: Snapshot, tree: seq<Write>): Option<Store> {
    Extend(Prepared(s.st, Other(s.slot), s.groups), tree, Other(s.slot))
  }

  /** y is what a sync does from s.  It stops only for want of a sector or because of a group with
      too many seals; the root it writes holds the digests of memory. */
  ghost predicate Wrote(s: Snapshot, y: Outcome)
    requires s.groups != []
  {
    match y
    case Idle => !Syncable(s.groups)
    case Aborted(tree) =>
      && Syncable(s.groups) && AfterTree(s, tree).Some?
      && (NoneFree(AfterTree(s, tree).value.inuse) || Oversealed(s.groups))
    case Ended(tree, saved) =>
      Syncable(s.groups) && AfterTree(s, tree).Some? && AllSaved(s.groups, saved)
  }

  /** The root it writes, or Unreadable if it does not get that far. */
  ghost function RootOf(s: Snapshot, y: Outcome): Block {
    if y.Ended? then RootSector(s.sequence + 1, GroupEntries(y.saved)) else Unreadable
  }

  /** All its writes. */
  ghost function LogOf(s: Snapshot, reseal: bool, y: Outcome): seq<Write> {
    match y
    case Idle => []
    case Aborted(tree) => tree
    case Ended(tree, _) => PlanLog(s.slot, Plan(tree, RootOf(s, y), reseal || !s.seals.Has(Other(s.slot))))
  }

  /** The manager after a sync that ended. */
  ghost function EndState(s: Snapshot, reseal: bool, counterOk: bool, y: Outcome): Snapshot
    requires y.Ended? && AfterTree(s, y.tree).Some?
  {
    var log := LogOf(s, reseal, y);
    Snapshot(
      Store(Replay(s.st.disk, log), AfterTree(s, y.tree).value.inuse, s.st.log + log),
      s.sequence + 1,
      if counterOk then Other(s.slot) else s.slot,
      y.saved,
      (if reseal then UNUSED else s.seals).With(Other(s.slot)))
  }

  lemma PreparedIs(st: Store, b: Slot, gs: seq<Group>, flushed: UseMap, x: Store)
    requires IsFlushed(st.inuse, b, flushed) && Added(flushed, x.inuse, b, AllMarks(gs))
    requires x.disk == st.disk && x.log == st.log
    ensures x == Prepared(st, b, gs)
  {
    assert x.inuse == Prepared(st, b, gs).inuse;
  }

  // ----- what the reader keeps -----

  /** No sector has lost slot r. */
  ghost predicate MarksKept(u: UseMap, u': UseMap, r: Slot) {
    forall s: nat | s < DISK_MAX_SECTOR && u[s].Has(r) :: u'[s].Has(r)
  }

  lemma MarksKeptSelf(u: UseMap, r: Slot)
    ensures MarksKept(u, u, r)
  {
  }

  lemma MarksKeptTrans(u: UseMap, v: UseMap, w: UseMap, r: Slot)
    requires MarksKept(u, v, r) && MarksKept(v, w, r)
    ensures MarksKept(u, w, r)
  {
  }

  /** The page that the reader finds at an entry. */
  function PageAt(d: Disk, e: Entry): Page
    requires PageOk(d, e)
  {
    Page(d[e.loc].data, e.loc, e.hash)
  }

  function Indexed(base: nat, es: seq<Entry>): seq<(nat, Entry)> {
    seq(|es|, i requires 0 <= i < |es| => (base + i, es[i]))
  }

  /**
    What the reader leaves in slot i of the page array.  Each call of load_verify_vtpm_pages
    covers up to 112 pages and puts all of them into its first slot, where the last one stays.
   */
  function SlotAfterLoad(d: Disk, base: nat, leaves: seq<Entry>, ps: seq<Page>, i: nat): Page
    requires i < |ps| && forall j | 0 <= j < |leaves| :: PageOk(d, leaves[j])
  {
    if base <= i < base + |leaves| && (i - base) % NR_ENTRIES_PER_ITREE == 0 then
      PageAt(d, leaves[Min(i - base + NR_ENTRIES_PER_ITREE, |leaves|) - 1])
    else
      ps[i]
  }

  /** ps is ps0 once the pages `leaves` have been loaded from slot base on. */
  ghost predicate Filled(d: Disk, base: nat, leaves: seq<Entry>, ps0: seq<Page>, ps: seq<Page>) {
    && |ps| == |ps0| && base + |leaves| <= |ps0|
    && (forall j | 0 <= j < |leaves| :: PageOk(d, leaves[j]))
    && forall i | 0 <= i < |ps| :: ps[i] == SlotAfterLoad(d, base, leaves, ps0, i)
  }

  /** One call of load_verify_vtpm_pages. */
  lemma FilledLeaf(d: Disk, base: nat, es: seq<Entry>, ps: seq<Page>)
    requires base + |es| <= |ps| && |es| <= NR_ENTRIES_PER_ITREE && forall j | 0 <= j < |es| :: PageOk(d, es[j])
    ensures Filled(d, base, es, ps, PagesAfterLoad(d, ps, base, es))
  {
    FirstOnly(|es|);
  }

  lemma FirstOnly(n: nat)
    requires n <= NR_ENTRIES_PER_ITREE
    ensures forall k: nat | k < n :: k % NR_ENTRIES_PER_ITREE == 0 <==> k == 0
  {
  }

  /** Full subtrees are filled one after the other. */
  lemma FilledJoin(d: Disk, base: nat, v: seq<Entry>, w: seq<Entry>, ps0: seq<Page>, ps1: seq<Page>, ps2: seq<Page>)
    requires |v| % NR_ENTRIES_PER_ITREE == 0
    requires Filled(d, base, v, ps0, ps1) && Filled(d, base + |v|, w, ps1, ps2)
    ensures Filled(d, base, v + w, ps0, ps2)
  {
    forall i | 0 <= i < |ps2| ensures ps2[i] == SlotAfterLoad(d, base, v + w, ps0, i) {
      assert ps1[i] == SlotAfterLoad(d, base, v, ps0, i) && ps2[i] == SlotAfterLoad(d, base + |v|, w, ps1, i);
      var k := i - base;
      if |v| <= k {
        assert (k - |v|) % 112 == k % 112;
      } else if 0 <= k && k % 112 == 0 {
        assert k + 112 <= |v|;
      }
    }
  }

  /** Every slot is blank or holds a page that is on disk, in a sector of the tree. */
  lemma FilledOnDisk(d: Disk, leaves: seq<Entry>, ps0: seq<Page>, ps: seq<Page>, ss: set<nat>)
    requires Filled(d, 0, leaves, ps0, ps) && LocSet(leaves) <= ss && forall i | 0 <= i < |ps0| :: ps0[i] == BLANK
    ensures forall i | 0 <= i < |ps| :: PageOnDisk(d, ps[i])
    ensures PageLocs(ps) <= ss
  {
    forall i | 0 <= i < |ps| ensures PageOnDisk(d, ps[i]) && (ps[i].loc != 0 ==> ps[i].loc in ss) {
      assert ps[i] == SlotAfterLoad(d, 0, leaves, ps0, i);
    }
  }

  /** The pages of a tree, in order. */
  function PagesOf(d: Disk, leaves: seq<Entry>): seq<Page>
    requires forall j | 0 <= j < |leaves| :: PageOk(d, leaves[j])
  {
    seq(|leaves|, i requires 0 <= i < |leaves| => PageAt(d, leaves[i]))
  }

  /** A reload restores the page array of a group exactly if the group has at most one page. */
  lemma ReloadKeepsPagesIff(d: Disk, e: Entry, v: OpenGroup)
    requires Shape(d) && GroupOk(d, e) && Reloaded(d, e, v)
    ensures |v.pages| == PagesFor(v.nrVtpms)
    ensures v.pages == PagesOf(d, TreePages(d, e)) <==> PagesFor(v.nrVtpms) <= 1
  {
    var leaves := TreePages(d, e);
    var blank := seq(|leaves|, _ => BLANK);
    if |leaves| > 1 {
      assert v.pages[1] == SlotAfterLoad(d, 0, leaves, blank, 1) == BLANK;
      LeavesAreSectors(d, |leaves|, d[e.loc].vtpms, NR_ENTRIES_PER_GROUP_BASE);
      GroupIsDynamic(d, e, leaves[1].loc);
      assert PagesOf(d, leaves)[1].loc != 0;
    } else if |leaves| == 1 {
      assert v.pages[0] == SlotAfterLoad(d, 0, leaves, blank, 0);
    }
  }

  /** v is the group behind e, with the page array as the reader leaves it. */
  ghost predicate Reloaded(d: Disk, e: Entry, v: OpenGroup)
    requires GroupOk(d, e)
  {
    && v.meta == d[e.loc].meta && v.nrVtpms == d[e.loc].nrVtpms
    && Filled(d, 0, TreePages(d, e), seq(|TreePages(d, e)|, _ => BLANK), v.pages)
  }

  /** The reader has gone over the pages and sectors of v, and over `own`. */
  ghost predicate LoadedTree(st: Store, r: Slot, v: Visit, own: set<nat>, base: nat, ps0: seq<Page>, ps: seq<Page>,
      visited: seq<(nat, Entry)>, used: seq<nat>)
  {
    && visited == Indexed(base, v.leaves)
    && Elements(used) == v.sectors
    && Marked(st.inuse, r, own + v.sectors)
    && Filled(st.disk, base, v.leaves, ps0, ps)
  }

  const BLANK := Page([], 0, PageHash([]))

  /** g' is g with some locations forgotten, or a new open group. */
  predicate Derived(g: Group, g': Group) {
    && (g'.loc == 0 ==> g'.v.Some?)
    && (g'.loc != 0 ==>
          && g'.loc == g.loc && g'.hash == g.hash && g'.inuse == g.inuse
          && (g'.v.Some? ==> g.v.Some? && g'.v.value.meta == g.v.value.meta))
    && (g'.v.Some? ==>
          && |g'.v.value.pages| == PagesFor(g'.v.value.nrVtpms)
          && forall i | 0 <= i < |g'.v.value.pages| ::
               g'.v.value.pages[i].loc == 0 || (g.v.Some? && g'.v.value.pages[i] in g.v.value.pages))
  }

  /** The groups gs can become gs': each new group remembers only what some old one does. */
  predicate Possible(gs: seq<Group>, gs': seq<Group>) {
    && 0 < |gs'| <= NR_ENTRIES_PER_ROOT
    && forall i | 0 <= i < |gs'| :: exists j :: 0 <= j < |gs| && Derived(gs[j], gs'[i])
  }

  lemma DerivedOnDisk(d: Disk, g: Group, g': Group)
    requires OnDisk(d, g) && Derived(g, g')
    ensures OnDisk(d, g')
  {
    if g'.v.Some? {
      var ps := g'.v.value.pages;
      forall i | 0 <= i < |ps| && ps[i].loc != 0
        ensures PageOnDisk(d, ps[i]) && ps[i].loc in PageLocs(g.v.value.pages)
      {
        var j :| 0 <= j < |g.v.value.pages| && ps[i] == g.v.value.pages[j];
        assert PageOnDisk(d, g.v.value.pages[j]);
      }
    }
  }

  lemma NextBelow(d: Disk, k: nat, n: nat, es: seq<Entry>, v: Visit)
    requires k > 0 && n > 0 && es != [] && NodeOk(d, es[0])
    ensures var c := Min(Pow(k), n);
            var w := Walk(d, c, d[es[0].loc].entries, NR_ENTRIES_PER_ITREE);
            Join(Some(v), Below(d, k, n, es)) == Join(Join(Some(v), w), Below(d, k, n - c, es[1..]))
  {
    var c := Min(Pow(k), n);
    JoinAssoc(Some(v), Walk(d, c, d[es[0].loc].entries, NR_ENTRIES_PER_ITREE), Below(d, k, n - c, es[1..]));
  }

  lemma LoadedJoin(a: Store, b: Store, r: Slot, v: Visit, w: Visit, own: set<nat>, own': set<nat>, base: nat, at: nat,
      ps0: seq<Page>, ps1: seq<Page>, ps2: seq<Page>, visited: seq<(nat, Entry)>, more: seq<(nat, Entry)>,
      used: seq<nat>, below: seq<nat>)
    requires at == base + |v.leaves| && b.disk == a.disk && MarksKept(a.inuse, b.inuse, r)
    requires |v.leaves| % NR_ENTRIES_PER_ITREE == 0
    requires LoadedTree(a, r, v, own, base, ps0, ps1, visited, used)
    requires LoadedTree(b, r, w, own', at, ps1, ps2, more, below)
    ensures LoadedTree(b, r, Join(Some(v), Some(w)).value, own + own', base, ps0, ps2, visited + more, used + below)
  {
    FilledJoin(a.disk, base, v.leaves, w.leaves, ps0, ps1, ps2);
    ElementsConcat(used, below);
    assert Indexed(base, v.leaves + w.leaves) == Indexed(base, v.leaves) + Indexed(at, w.leaves);
  }

  /** The first i of the entries es have been loaded, with done pages below them. */
  ghost predicate LoadedPart(st: Store, r: Slot, k: nat, n: nat, es: seq<Entry>, i: nat, done: nat, v: Visit,
      base: nat, ps0: seq<Page>, ps: seq<Page>, visited: seq<(nat, Entry)>, used: seq<nat>)
  {
    && k > 0 && i <= |es| && |v.leaves| == done <= n && (done < n ==> done % NR_ENTRIES_PER_ITREE == 0)
    && Below(st.disk, k, n, es) == Join(Some(v), Below(st.disk, k, n - done, es[i..]))
    && LoadedTree(st, r, v, LocSet(es[..i]), base, ps0, ps, visited, used)
  }

  lemma LoadNone(st: Store, r: Slot, k: nat, n: nat, es: seq<Entry>, base: nat, ps: seq<Page>)
    requires k > 0 && base <= |ps| && |st.inuse| == DISK_MAX_SECTOR
    ensures LoadedPart(st, r, k, n, es, 0, 0, EMPTY, base, ps, ps, [], [])
  {
    JoinEmpty(Below(st.disk, k, n, es));
    assert es[0..] == es;
  }

  lemma LoadedLength(st: Store, r: Slot, v: Visit, own: set<nat>, base: nat, ps0: seq<Page>, ps: seq<Page>,
      visited: seq<(nat, Entry)>, used: seq<nat>)
    requires LoadedTree(st, r, v, own, base, ps0, ps, visited, used)
    ensures |ps| == |ps0|
  {
  }

  lemma ChildAligned(k: nat, n: nat, done: nat)
    requires k > 0 && done < n && done % NR_ENTRIES_PER_ITREE == 0
    ensures var next := done + Min(Pow(k), n - done);
            next <= n && (next < n ==> next % NR_ENTRIES_PER_ITREE == 0)
  {
    PowMultiple(k);
    var p := Pow(k);
    assert (done + p) % 112 == (done % 112 + p % 112) % 112;
  }

  lemma LoadNext(a: Store, b: Store, r: Slot, k: nat, n: nat, es: seq<Entry>, i: nat, done: nat, v: Visit, w: Visit,
      base: nat, ps0: seq<Page>, ps1: seq<Page>, ps2: seq<Page>, visited: seq<(nat, Entry)>, more: seq<(nat, Entry)>,
      used: seq<nat>, below: seq<nat>)
    requires LoadedPart(a, r, k, n, es, i, done, v, base, ps0, ps1, visited, used) && done < n && i < |es|
    requires b.disk == a.disk && MarksKept(a.inuse, b.inuse, r) && NodeOk(b.disk, es[i])
    requires Walk(b.disk, Min(Pow(k), n - done), b.disk[es[i].loc].entries, NR_ENTRIES_PER_ITREE) == Some(w)
    requires LoadedTree(b, r, w, {es[i].loc}, base + done, ps1, ps2, more, below)
    ensures LoadedPart(b, r, k, n, es, i + 1, done + Min(Pow(k), n - done), Join(Some(v), Some(w)).value,
        base, ps0, ps2, visited + more, used + below)
    ensures |ps2| == |ps0|
  {
    hide LoadedTree, Below, Kids, Tree, Pow;
    assert es[i..][0] == es[i] && es[i..][1..] == es[i + 1..] && es[..i] + [es[i]] == es[..i + 1];
    NextBelow(b.disk, k, n - done, es[i..], v);
    LocSetAppend(es[..i], es[i]);
    ChildAligned(k, n, done);
    LoadedJoin(a, b, r, v, w, LocSet(es[..i]), {es[i].loc}, base, base + done, ps0, ps1, ps2, visited, more, used,
      below);
    LoadedLength(b, r, Join(Some(v), Some(w)).value, LocSet(es[..i + 1]), base, ps0, ps2, visited + more, used + below);
  }

  /** Without a further entry, or with one that does not verify, the whole node does not. */
  lemma LoadFails(st: Store, r: Slot, k: nat, n: nat, es: seq<Entry>, i: nat, done: nat, v: Visit,
      base: nat, ps0: seq<Page>, ps: seq<Page>, visited: seq<(nat, Entry)>, used: seq<nat>)
    requires LoadedPart(st, r, k, n, es, i, done, v, base, ps0, ps, visited, used) && done < n
    requires i < |es| && NodeOk(st.disk, es[i]) ==>
      Walk(st.disk, Min(Pow(k), n - done), st.disk[es[i].loc].entries, NR_ENTRIES_PER_ITREE).None?
    ensures Below(st.disk, k, n, es).None?
  {
    if i < |es| {
      assert es[i..][0] == es[i];
    }
  }

  lemma LoadDone(st: Store, r: Slot, k: nat, n: nat, es: seq<Entry>, i: nat, v: Visit,
      base: nat, ps0: seq<Page>, ps: seq<Page>, visited: seq<(nat, Entry)>, used: seq<nat>)
    requires LoadedPart(st, r, k, n, es, i, n, v, base, ps0, ps, visited, used)
    ensures Below(st.disk, k, n, es) == if i == |es| then Some(v) else None
    ensures i == |es| ==> LoadedTree(st, r, v, LocSet(es), base, ps0, ps, visited, used)
  {
    JoinEmpty(Some(v));
    assert i == |es| ==> es[i..] == [] && es[..i] == es;
  }

  /** The groups gs have been loaded from the first entries es of a root. */
  ghost predicate LoadedGroups(d: Disk, u: UseMap, r: Slot, es: seq<Entry>, gs: seq<Group>) {
    && |gs| <= |es| && AllOnDisk(d, gs)
    && (forall j | 0 <= j < |gs| :: GroupOk(d, es[j]) && Marked(u, r, GroupSectors(d, es[j])))
    && (forall j | 0 <= j < |gs| :: gs[j].loc == es[j].loc && gs[j].hash == es[j].hash)
    && (gs != [] ==> (gs[0].v.Some? <==> d[es[0].loc].meta.nrSeals > 0))
  }

  lemma LoadedNextGroup(d: Disk, u: UseMap, u': UseMap, r: Slot, es: seq<Entry>, gs: seq<Group>, g: Group)
    requires LoadedGroups(d, u, r, es, gs) && |gs| < |es| && MarksKept(u, u', r)
    requires GroupOk(d, es[|gs|]) && Marked(u', r, GroupSectors(d, es[|gs|])) && OnDisk(d, g)
    requires g.loc == es[|gs|].loc && g.hash == es[|gs|].hash && (g.v.Some? <==> d[g.loc].meta.nrSeals > 0)
    ensures LoadedGroups(d, u', r, es, gs + [g])
  {
    hide OnDisk, GroupOk;
    forall j | 0 <= j < |gs| ensures Marked(u', r, GroupSectors(d, es[j])) {
      assert Marked(u, r, GroupSectors(d, es[j]));
    }
  }

  lemma LoadedAllGroups(d: Disk, u: UseMap, r: Slot, gs: seq<Group>)
    requires RootPre(d, r) && 0 < |gs| == |d[RootLoc(r)].groups| <= NR_ENTRIES_PER_ROOT
    requires LoadedGroups(d, u, r, d[RootLoc(r)].groups, gs)
    ensures Loads(d, r) <==> gs[0].v.Some?
    ensures GroupEntries(gs) == d[RootLoc(r)].groups && AllOnDisk(d, gs)
    ensures Loads(d, r) ==> Protected(d, u, r)
  {
    hide OnDisk, GroupOk;
  }

  /** vtpm_sync_disk writes only if group 0 is open and has a seal. */
  predicate Syncable(gs: seq<Group>)
    requires gs != []
  {
    gs[0].v.Some? && gs[0].v.value.meta.nrSeals > 0
  }

  /** What load_verify_vtpm_pages leaves in the page array: the last page, in the first slot. */
  function PagesAfterLoad(d: Disk, ps: seq<Page>, base: nat, es: seq<Entry>): seq<Page>
    requires base + |es| <= |ps| && forall i | 0 <= i < |es| :: PageOk(d, es[i])
  {
    if es == [] then ps else ps[base := PageAt(d, es[|es| - 1])]
  }
}
