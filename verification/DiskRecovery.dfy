/**
  What vtpm_load_disk makes of a disk image (stubdom/vtpmmgr/disk_read.c), and why an image
  that a crash leaves behind is still good.

  Sectors 0 and 1 hold the two seal lists, sectors 2 and 3 the two roots, all others belong
  to the trees.  A sector write that a crash interrupts leaves an unreadable sector.
  Unsealing succeeds for every group that has a seal.
 */
module DiskRecovery {
  import opened Common
  import opened HashTree

  const NR_SEALS_PER_GROUP: nat := 5

  /** mgr->active_root */
  type Slot = r: nat | r < 2

  function Other(r: Slot): Slot { 1 - r }

  function SealLoc(r: Slot): nat { r }

  function RootLoc(r: Slot): nat { 2 + r }

  function PagesFor(nrVtpms: nat): nat { (nrVtpms + VTPMS_PER_SECTOR - 1) / VTPMS_PER_SECTOR }

  /** load_verify_group succeeds on this entry. */
  predicate GroupOk(d: Disk, e: Entry) {
    && e.loc < |d| && d[e.loc].GroupSector?
    && e.hash == GroupHash(d[e.loc].meta, d[e.loc].nrVtpms, Hashes(d[e.loc].vtpms))
    && d[e.loc].meta.nrSeals <= NR_SEALS_PER_GROUP
    && Walk(d, PagesFor(d[e.loc].nrVtpms), d[e.loc].vtpms, NR_ENTRIES_PER_GROUP_BASE).Some?
  }

  function TreeSectors(d: Disk, e: Entry): set<nat>
    requires GroupOk(d, e)
  {
    Walk(d, PagesFor(d[e.loc].nrVtpms), d[e.loc].vtpms, NR_ENTRIES_PER_GROUP_BASE).value.sectors
  }

  /** Where the vTPM pages of a group are, in page order. */
  function TreePages(d: Disk, e: Entry): seq<Entry>
    requires GroupOk(d, e)
  {
    Walk(d, PagesFor(d[e.loc].nrVtpms), d[e.loc].vtpms, NR_ENTRIES_PER_GROUP_BASE).value.leaves
  }

  function GroupSectors(d: Disk, e: Entry): set<nat>
    requires GroupOk(d, e)
  {
    {e.loc} + TreeSectors(d, e)
  }

  predicate GroupsOk(d: Disk, es: seq<Entry>) {
    forall i | 0 <= i < |es| :: GroupOk(d, es[i])
  }

  /** Sector s belongs to the tree below the group entries es. */
  ghost predicate Reaches(d: Disk, es: seq<Entry>, s: nat)
    requires GroupsOk(d, es)
  {
    exists i | 0 <= i < |es| :: s in GroupSectors(d, es[i])
  }

  /** find_root_key and load_root_pre succeed for this slot. */
  predicate RootPre(d: Disk, r: Slot) {
    d[SealLoc(r)].SealList? && d[RootLoc(r)].RootSector?
  }

  /** load_root_post succeeds as well: every group verifies and group 0 opens. */
  predicate Loads(d: Disk, r: Slot) {
    && RootPre(d, r)
    && var gs := d[RootLoc(r)].groups;
       0 < |gs| <= NR_ENTRIES_PER_ROOT && GroupsOk(d, gs) && d[gs[0].loc].meta.nrSeals > 0
  }

  /** The slot that vtpm_load_disk ends up using. */
  function Recover(d: Disk): Option<Slot> {
    if RootPre(d, 0) && RootPre(d, 1) && d[RootLoc(1)].sequence > d[RootLoc(0)].sequence && Loads(d, 1) then
      Some(1)
    else if Loads(d, 0) then
      Some(0)
    else if Loads(d, 1) then
      Some(1)
    else
      None
  }

  /** The slot that vtpm_load_disk tries first. */
  function First(d: Disk): Option<Slot> {
    if RootPre(d, 1) && (RootPre(d, 0) ==> d[RootLoc(1)].sequence > d[RootLoc(0)].sequence) then
      Some(1)
    else if RootPre(d, 0) then
      Some(0)
    else
      None
  }

  /** The four static sectors never hold anything but seal lists and roots. */
  predicate Shape(d: Disk) {
    && (forall s: nat | s < 2 :: d[s].Unreadable? || d[s].SealList?)
    && (forall s: nat | 2 <= s < 4 :: d[s].Unreadable? || d[s].RootSector?)
  }

  lemma {:induction false} TreeIsDynamic(d: Disk, n: nat, es: seq<Entry>, h: nat, s: nat)
    requires Shape(d) && h > 0 && Tree(d, n, es, h).Some? && s in Tree(d, n, es, h).value.sectors
    ensures FIRST_DYNAMIC_SECTOR <= s < DISK_MAX_SECTOR
    decreases Level(n, h), 1, 0
  {
    if n <= h {
      var i :| 0 <= i < n && s == es[i].loc;
      assert PageOk(d, es[i]);
    } else {
      KidsAreDynamic(d, Level(n, h), n, es, s);
    }
  }

  lemma {:induction false} KidsAreDynamic(d: Disk, k: nat, n: nat, es: seq<Entry>, s: nat)
    requires Shape(d) && k > 0 && Kids(d, k, n, es).Some? && s in LocSet(es) + Kids(d, k, n, es).value.sectors
    ensures FIRST_DYNAMIC_SECTOR <= s < DISK_MAX_SECTOR
    decreases k, 0, n
  {
    if n != 0 {
      var c := Min(Pow(k), n);
      ChildIsLower(k, c);
      var sub := d[es[0].loc].entries;
      LocSetCons(es);
      if s in Tree(d, c, sub, NR_ENTRIES_PER_ITREE).value.sectors {
        TreeIsDynamic(d, c, sub, NR_ENTRIES_PER_ITREE, s);
      } else if s != es[0].loc {
        KidsAreDynamic(d, k, n - c, es[1..], s);
      }
    }
  }

  lemma GroupIsDynamic(d: Disk, e: Entry, s: nat)
    requires Shape(d) && GroupOk(d, e) && s in GroupSectors(d, e)
    ensures FIRST_DYNAMIC_SECTOR <= s < DISK_MAX_SECTOR
  {
    if s != e.loc {
      TreeIsDynamic(d, PagesFor(d[e.loc].nrVtpms), d[e.loc].vtpms, NR_ENTRIES_PER_GROUP_BASE, s);
    }
  }

  lemma GroupFrame(d: Disk, d': Disk, e: Entry)
    requires GroupOk(d, e) && Agree(d, d', GroupSectors(d, e))
    ensures GroupOk(d', e) && TreeSectors(d', e) == TreeSectors(d, e)
    ensures d'[e.loc] == d[e.loc]
  {
    assert e.loc in GroupSectors(d, e);
    assert Agree(d, d', TreeSectors(d, e));
    TreeFrame(d, d', PagesFor(d[e.loc].nrVtpms), d[e.loc].vtpms, NR_ENTRIES_PER_GROUP_BASE);
  }

  // ----- sector writes and the images a crash can leave -----

  datatype Write = Write(loc: nat, block: Block)

  function Put(d: Disk, s: nat, b: Block): Disk {
    if s < |d| then d[s := b] else d
  }

  function Replay(d: Disk, log: seq<Write>): Disk {
    if log == [] then d else Put(Replay(d, log[..|log| - 1]), log[|log| - 1].loc, log[|log| - 1].block)
  }

  lemma ReplayNothing(d: Disk)
    ensures Replay(d, []) == d
  {
  }

  lemma ReplayAppend(d: Disk, log: seq<Write>, w: Write)
    ensures Replay(d, log + [w]) == Put(Replay(d, log), w.loc, w.block)
  {
    assert (log + [w])[..|log|] == log;
  }

  /** d is an image that stopping the writes `log` at some point leaves: a prefix of them has
      taken effect and the next one may have been torn. */
  ghost predicate CrashImage(d0: Disk, log: seq<Write>, d: Disk) {
    exists k, torn :: StopsAt(d0, log, k, torn, d)
  }

  ghost predicate StopsAt(d0: Disk, log: seq<Write>, k: nat, torn: bool, d: Disk) {
    && k <= |log|
    && (torn ==> k < |log|)
    && d == if torn then Put(Replay(d0, log[..k]), log[k].loc, Unreadable) else Replay(d0, log[..k])
  }

  /** The tree committed in slot r of d0 is untouched in d: its seal list, its root and every sector below. */
  ghost predicate Intact(d0: Disk, r: Slot, d: Disk)
    requires Loads(d0, r)
  {
    && d[SealLoc(r)] == d0[SealLoc(r)]
    && d[RootLoc(r)] == d0[RootLoc(r)]
    && forall s: nat | s < |d| && Reaches(d0, d0[RootLoc(r)].groups, s) :: d[s] == d0[s]
  }

  lemma IntactLoads(d0: Disk, r: Slot, d: Disk)
    requires Shape(d0) && Loads(d0, r) && Intact(d0, r, d)
    ensures Loads(d, r) && d[RootLoc(r)] == d0[RootLoc(r)]
  {
    var gs := d0[RootLoc(r)].groups;
    forall i | 0 <= i < |gs|
      ensures GroupOk(d, gs[i]) && GroupSectors(d, gs[i]) == GroupSectors(d0, gs[i]) && d[gs[i].loc] == d0[gs[i].loc]
    {
      forall s | s in GroupSectors(d0, gs[i]) ensures s < |d0| && d[s] == d0[s] {
        GroupIsDynamic(d0, gs[i], s);
        assert Reaches(d0, gs, s);
      }
      GroupFrame(d0, d, gs[i]);
    }
  }

  lemma IntactReaches(d0: Disk, r: Slot, d: Disk)
    requires Shape(d0) && Loads(d0, r) && Intact(d0, r, d) && Loads(d, r)
    ensures forall s: nat :: Reaches(d, d[RootLoc(r)].groups, s) <==> Reaches(d0, d0[RootLoc(r)].groups, s)
  {
    var gs := d0[RootLoc(r)].groups;
    forall i | 0 <= i < |gs| ensures GroupSectors(d, gs[i]) == GroupSectors(d0, gs[i]) {
      forall s | s in GroupSectors(d0, gs[i]) ensures s < |d0| && d[s] == d0[s] {
        GroupIsDynamic(d0, gs[i], s);
        assert Reaches(d0, gs, s);
      }
      GroupFrame(d0, d, gs[i]);
    }
  }

  /** The writes of one sync into slot Other(r): tree sectors first, then the root, then the seal list. */
  datatype Plan = Plan(tree: seq<Write>, root: Block, seals: bool)

  function PlanLog(r: Slot, p: Plan): seq<Write> {
    p.tree + [Write(RootLoc(Other(r)), p.root)] + (if p.seals then [Write(SealLoc(Other(r)), SealList)] else [])
  }

  /** Tree writes avoid the static sectors. */
  ghost predicate Dynamic(log: seq<Write>) {
    forall w | w in log :: FIRST_DYNAMIC_SECTOR <= w.loc < DISK_MAX_SECTOR
  }

  /** They also avoid the tree that slot r holds. */
  ghost predicate Spares(d0: Disk, r: Slot, log: seq<Write>)
    requires Loads(d0, r)
  {
    forall w | w in log :: !Reaches(d0, d0[RootLoc(r)].groups, w.loc)
  }

  /** The tree below the new root is complete once the tree writes are done. */
  ghost predicate Complete(d0: Disk, p: Plan) {
    && p.root.RootSector?
    && var d := Replay(d0, p.tree);
    var gs := p.root.groups;
    0 < |gs| <= NR_ENTRIES_PER_ROOT && GroupsOk(d, gs) && d[gs[0].loc].meta.nrSeals > 0
  }

  lemma {:induction false} DynamicKeeps(d0: Disk, log: seq<Write>)
    requires Dynamic(log)
    ensures forall s: nat | s < FIRST_DYNAMIC_SECTOR :: Replay(d0, log)[s] == d0[s]
  {
    if log != [] {
      DynamicKeeps(d0, log[..|log| - 1]);
      assert log[|log| - 1] in log;
    }
  }

  lemma PutSpares(d0: Disk, r: Slot, d: Disk, w: Write)
    requires Loads(d0, r) && Intact(d0, r, d)
    requires w.loc >= FIRST_DYNAMIC_SECTOR && !Reaches(d0, d0[RootLoc(r)].groups, w.loc)
    ensures Intact(d0, r, Put(d, w.loc, w.block))
  {
    hide Loads, Reaches;
  }

  lemma {:induction false} SparingKeeps(d0: Disk, r: Slot, log: seq<Write>)
    requires Loads(d0, r) && Dynamic(log) && Spares(d0, r, log)
    ensures Intact(d0, r, Replay(d0, log))
  {
    if log != [] {
      var init, w := log[..|log| - 1], log[|log| - 1];
      assert w in log && forall v | v in init :: v in log;
      hide Loads, Reaches, Intact;
      SparingKeeps(d0, r, init);
      PutSpares(d0, r, Replay(d0, init), w);
    }
  }

  /** A torn write is a write of an unreadable sector. */
  lemma ImageIsReplay(d0: Disk, log: seq<Write>, d: Disk) returns (log': seq<Write>)
    requires CrashImage(d0, log, d)
    ensures d == Replay(d0, log')
    ensures forall w | w in log' :: exists v :: v in log && v.loc == w.loc
  {
    var k: nat, torn :| StopsAt(d0, log, k, torn, d);
    log' := log[..k];
    assert forall w | w in log' :: w in log;
    if torn {
      ReplayAppend(d0, log[..k], Write(log[k].loc, Unreadable));
      log' := log' + [Write(log[k].loc, Unreadable)];
      assert log[k] in log;
    }
  }

  /** While only tree sectors are written the static sectors stand still, and so does the tree of slot r. */
  lemma TreePhase(d0: Disk, log: seq<Write>, d: Disk)
    requires Dynamic(log) && CrashImage(d0, log, d)
    ensures forall s: nat | s < FIRST_DYNAMIC_SECTOR :: d[s] == d0[s]
    ensures forall r: Slot :: Loads(d0, r) && Spares(d0, r, log) ==> Intact(d0, r, d)
  {
    var log' := ImageIsReplay(d0, log, d);
    DynamicKeeps(d0, log');
    forall r: Slot | Loads(d0, r) && Spares(d0, r, log) ensures Intact(d0, r, d) {
      SparingKeeps(d0, r, log');
    }
  }

  /** The root sector of slot r is as before; the other is as before, or holds the new root, or is unreadable. */
  ghost predicate RootsFrom(d0: Disk, r: Slot, root: Block, d: Disk) {
    && d[RootLoc(r)] == d0[RootLoc(r)]
    && var b := RootLoc(Other(r));
       d[b] == d0[b] || d[b] == root || d[b].Unreadable?
  }

  /** From the root write on, only the root and the seal list of slot Other(r) differ from the image the tree
      writes left. */
  lemma RootPhaseImage(d0: Disk, r: Slot, p: Plan, k: nat, torn: bool, d: Disk)
    requires StopsAt(d0, PlanLog(r, p), k, torn, d)
    requires k > |p.tree| || (k == |p.tree| && torn)
    ensures var t := Replay(d0, p.tree);
            var b := Other(r);
            && (forall s: nat | s < |d| && s != RootLoc(b) && s != SealLoc(b) :: d[s] == t[s])
            && (d[RootLoc(b)] == p.root || d[RootLoc(b)].Unreadable?)
            && (d[SealLoc(b)] == t[SealLoc(b)] || d[SealLoc(b)].Unreadable? || d[SealLoc(b)].SealList?)
            && (!torn && k == |PlanLog(r, p)| ==>
                  d[RootLoc(b)] == p.root && d[SealLoc(b)] == if p.seals then SealList else t[SealLoc(b)])
  {
    var log := PlanLog(r, p);
    var n := |p.tree|;
    assert log[..n] == p.tree && log[n] == Write(RootLoc(Other(r)), p.root);
    assert log[..n + 1] == p.tree + [log[n]];
    ReplayAppend(d0, p.tree, log[n]);
    if k == n + 2 {
      assert log[..k] == log[..n + 1] + [log[n + 1]];
      ReplayAppend(d0, log[..n + 1], log[n + 1]);
    }
  }

  lemma ReachIsDynamic(d: Disk, gs: seq<Entry>, s: nat)
    requires Shape(d) && GroupsOk(d, gs) && Reaches(d, gs, s)
    ensures FIRST_DYNAMIC_SECTOR <= s < DISK_MAX_SECTOR
  {
    var i :| 0 <= i < |gs| && s in GroupSectors(d, gs[i]);
    GroupIsDynamic(d, gs[i], s);
  }

  /** Trees depend on dynamic sectors only. */
  lemma GroupsFrame(d: Disk, d': Disk, gs: seq<Entry>)
    requires Shape(d) && GroupsOk(d, gs)
    requires forall s: nat | FIRST_DYNAMIC_SECTOR <= s < DISK_MAX_SECTOR :: d'[s] == d[s]
    ensures GroupsOk(d', gs)
    ensures forall i | 0 <= i < |gs| ::
      d'[gs[i].loc] == d[gs[i].loc] && GroupSectors(d', gs[i]) == GroupSectors(d, gs[i])
  {
    forall i | 0 <= i < |gs|
      ensures GroupOk(d', gs[i]) && d'[gs[i].loc] == d[gs[i].loc] && GroupSectors(d', gs[i]) == GroupSectors(d, gs[i])
    {
      forall s | s in GroupSectors(d, gs[i]) ensures s < |d| && d'[s] == d[s] {
        GroupIsDynamic(d, gs[i], s);
      }
      GroupFrame(d, d', gs[i]);
    }
  }

  /** The root and the seal list of the other slot do not matter to the tree of slot r. */
  lemma IntactOver(d0: Disk, r: Slot, t: Disk, d: Disk)
    requires Shape(d0) && Loads(d0, r) && Intact(d0, r, t)
    requires forall s: nat | s < |d| && s != RootLoc(Other(r)) && s != SealLoc(Other(r)) :: d[s] == t[s]
    ensures Intact(d0, r, d)
  {
    forall s: nat | s < |d| && Reaches(d0, d0[RootLoc(r)].groups, s) ensures d[s] == d0[s] {
      ReachIsDynamic(d0, d0[RootLoc(r)].groups, s);
    }
  }

  /** From the root write on, slot r is intact. */
  lemma RootPhaseOld(d0: Disk, r: Slot, p: Plan, k: nat, torn: bool, d: Disk)
    requires Shape(d0) && Dynamic(p.tree) && Complete(d0, p)
    requires StopsAt(d0, PlanLog(r, p), k, torn, d)
    requires k > |p.tree| || (k == |p.tree| && torn)
    ensures Shape(d)
    ensures d[SealLoc(r)] == d0[SealLoc(r)] && d[RootLoc(r)] == d0[RootLoc(r)]
    ensures Loads(d0, r) && Spares(d0, r, p.tree) ==> Intact(d0, r, d)
  {
    hide Dynamic, Loads, Spares, Intact, StopsAt, PlanLog, Replay;
    DynamicKeeps(d0, p.tree);
    RootPhaseImage(d0, r, p, k, torn, d);
    if Loads(d0, r) && Spares(d0, r, p.tree) {
      SparingKeeps(d0, r, p.tree);
      IntactOver(d0, r, Replay(d0, p.tree), d);
    }
  }

  /** And slot Other(r) is unreadable or holds the complete new tree. */
  lemma RootPhaseNew(d0: Disk, r: Slot, p: Plan, k: nat, torn: bool, d: Disk)
    requires Shape(d0) && Dynamic(p.tree) && Complete(d0, p)
    requires StopsAt(d0, PlanLog(r, p), k, torn, d)
    requires k > |p.tree| || (k == |p.tree| && torn)
    ensures |d| == |d0|
    ensures RootPre(d, Other(r)) ==> Loads(d, Other(r)) && d[RootLoc(Other(r))] == p.root
    ensures d[RootLoc(Other(r))] == p.root || d[RootLoc(Other(r))].Unreadable?
  {
    DynamicKeeps(d0, p.tree);
    RootPhaseImage(d0, r, p, k, torn, d);
    GroupsFrame(Replay(d0, p.tree), d, p.root.groups);
  }

  /** What any image a sync may leave looks like: the static sectors of slot r are as before and so
      is the tree below them; slot Other(r) is as before, or unreadable, or holds the new tree. */
  lemma SyncImage(d0: Disk, r: Slot, p: Plan, d: Disk)
    requires Shape(d0) && Dynamic(p.tree) && Complete(d0, p)
    requires CrashImage(d0, PlanLog(r, p), d)
    ensures Shape(d)
    ensures d[SealLoc(r)] == d0[SealLoc(r)] && d[RootLoc(r)] == d0[RootLoc(r)]
    ensures Loads(d0, r) && Spares(d0, r, p.tree) ==> Intact(d0, r, d)
    ensures || !RootPre(d, Other(r))
            || (Loads(d, Other(r)) && d[RootLoc(Other(r))] == p.root)
            || (forall s: nat | s < FIRST_DYNAMIC_SECTOR :: d[s] == d0[s])
    ensures RootsFrom(d0, r, p.root, d)
  {
    var k: nat, torn :| StopsAt(d0, PlanLog(r, p), k, torn, d);
    if k > |p.tree| || (k == |p.tree| && torn) {
      RootPhaseOld(d0, r, p, k, torn, d);
      RootPhaseNew(d0, r, p, k, torn, d);
    } else {
      assert PlanLog(r, p)[..k] == p.tree[..k];
      assert StopsAt(d0, p.tree, k, torn, d);
      TreePhase(d0, p.tree, d);
    }
  }

  /** The image recovers, without falling back, to the whole tree that d0 held in slot r or to the whole tree
      below `root`. */
  ghost predicate OldOrNew(d0: Disk, r: Slot, root: Block, d: Disk)
    requires Loads(d0, r)
  {
    && Recover(d).Some? && Recover(d) == First(d)
    && (|| (Recover(d).value == r && Intact(d0, r, d))
        || (Recover(d).value == Other(r) && d[RootLoc(Other(r))] == root))
  }

  /**
    Crash atomicity of one sync.  If slot r is the one recovery would use before it, then after
    any prefix of the sector writes, torn or not, recovery uses, without falling back, either
    the whole previous tree or the whole new one.
   */
  lemma CrashAtomicity(d0: Disk, r: Slot, p: Plan, d: Disk)
    requires Shape(d0) && Loads(d0, r) && First(d0) == Some(r)
    requires Dynamic(p.tree) && Spares(d0, r, p.tree) && Complete(d0, p)
    requires p.root.sequence > d0[RootLoc(r)].sequence
    requires CrashImage(d0, PlanLog(r, p), d)
    ensures Shape(d) && Loads(d, r) && OldOrNew(d0, r, p.root, d)
  {
    SyncImage(d0, r, p, d);
    IntactLoads(d0, r, d);
    if RootPre(d, Other(r)) && d[RootLoc(Other(r))] == p.root && Loads(d, Other(r)) {
      FirstThatLoads(d, Other(r));
    } else {
      FirstThatLoads(d, r);
    }
  }

  lemma FirstThatLoads(d: Disk, r: Slot)
    requires Loads(d, r) && First(d) == Some(r)
    ensures Recover(d) == Some(r)
  {
  }

  lemma NoneFirst(d: Disk)
    requires First(d).None?
    ensures Recover(d).None?
  {
  }

  /** A slot with a higher sequence number than the other, if that is readable, is tried first. */
  lemma HigherIsFirst(d: Disk, r: Slot)
    requires RootPre(d, r) && (RootPre(d, Other(r)) ==> d[RootLoc(r)].sequence > d[RootLoc(Other(r))].sequence)
    ensures First(d) == Some(r)
  {
  }

  lemma RecoverLoads(d: Disk)
    requires Recover(d).Some?
    ensures Loads(d, Recover(d).value)
  {
  }

  /** Recovery never settles for less than a slot that loads. */
  lemma RecoverIsNewest(d: Disk, r: Slot)
    requires Loads(d, r)
    ensures Recover(d).Some? && Loads(d, Recover(d).value)
    ensures d[RootLoc(Recover(d).value)].sequence >= d[RootLoc(r)].sequence
  {
  }

  /** Whatever recovery would prefer, the tree of slot r survives every prefix, so recovery always succeeds. */
  lemma CrashKeepsOld(d0: Disk, r: Slot, p: Plan, d: Disk)
    requires Shape(d0) && Loads(d0, r)
    requires Dynamic(p.tree) && Spares(d0, r, p.tree) && Complete(d0, p)
    requires CrashImage(d0, PlanLog(r, p), d)
    ensures Loads(d, r) && Intact(d0, r, d) && Recover(d).Some?
  {
    SyncImage(d0, r, p, d);
    hide Intact, GroupsOk, Spares, Dynamic, Complete, CrashImage;
    IntactLoads(d0, r, d);
  }
}
