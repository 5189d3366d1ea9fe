/**
  The writer and the reader of the vTPM manager's disk (stubdom/vtpmmgr/disk_io.c,
  disk_write.c, disk_read.c and the root flip of vtpm_disk.c).

  `Manager` holds the block device together with the in-memory manager that
  works on it.  Where the source aborts because the disk is full, the methods return
  false and only the disk survives.
 */
module VtpmManager {
  import opened Common
  import opened HashTree
  import opened DiskRecovery
  import opened DiskStore

  /** The loop that sizes a tree (disk_write.c:132, disk_read.c:265). */
  method SizeTree(n: nat, h: nat) returns (incr: nat)
    requires h > 0
    ensures incr == Pow(Level(n, h))
    ensures n <= incr * h
    ensures incr == 1 <==> n <= h
  {
    incr := 1;
    ghost var k := 0;
    while n > incr * h
      invariant incr == Pow(k) && k <= Level(n, h)
      decreases Level(n, h) - k
    {
      LevelIsLeast(n, h, k);
      incr := incr * NR_ENTRIES_PER_ITREE;
      k := k + 1;
    }
    LevelIsLeast(n, h, k);
    if n > h {
      assert Pow(k) == Pow(k - 1) * NR_ENTRIES_PER_ITREE;
    }
  }

  class Manager {
    var st: Store

    var sequence: nat
    var activeRoot: Slot
    var groups: seq<Group>
    var sealsValid: Use

    // ----- disk_io.c -----

    method WriteSector(s: nat, b: Block)
      requires s < DISK_MAX_SECTOR
      modifies this`st
      ensures st == old(st).(disk := old(st).disk[s := b], log := old(st).log + [Write(s, b)])
    {
      st := st.(disk := st.disk[s := b], log := st.log + [Write(s, b)]);
    }

    /**
      A sector past the end is reported and ignored, except the first: the test lets it through,
      and the map is then indexed one past its end.
     */
    method SetUsed(s: nat) returns (inBounds: bool)
      modifies this`st
      ensures st == old(st).(inuse := st.inuse)
      ensures st.inuse ==
        if s < DISK_MAX_SECTOR then old(st).inuse[s := old(st).inuse[s].With(activeRoot)] else old(st).inuse
      ensures inBounds <==> s != DISK_MAX_SECTOR
    {
      if s > DISK_MAX_SECTOR {
        return true;
      }
      inBounds := s < |st.inuse|;
      if inBounds {
        st := st.(inuse := st.inuse[s := st.inuse[s].With(activeRoot)]);
      }
    }

    method FlushSlot()
      modifies this`st
      ensures st == old(st).(inuse := st.inuse)
      ensures IsFlushed(old(st).inuse, activeRoot, st.inuse)
    {
      var i := FIRST_DYNAMIC_SECTOR;
      while i < DISK_MAX_SECTOR
        invariant FIRST_DYNAMIC_SECTOR <= i <= DISK_MAX_SECTOR
        invariant st == old(st).(inuse := st.inuse)
        invariant forall s: nat | s < DISK_MAX_SECTOR ::
          st.inuse[s] ==
            if FIRST_DYNAMIC_SECTOR <= s < i then old(st).inuse[s].Without(activeRoot) else old(st).inuse[s]
      {
        st := st.(inuse := st.inuse[i := st.inuse[i].Without(activeRoot)]);
        i := i + 1;
      }
    }

    /** First fit; None where the source aborts because every sector is taken. */
    method FindFree() returns (r: Option<nat>)
      modifies this`st
      ensures r.None? ==> st == old(st)
      ensures r.None? <==> forall s: nat | FIRST_DYNAMIC_SECTOR <= s < DISK_MAX_SECTOR :: !old(st).inuse[s].Free()
      ensures r.Some? ==>
        && FIRST_DYNAMIC_SECTOR <= r.value < DISK_MAX_SECTOR
        && old(st).inuse[r.value].Free()
        && (forall s: nat | FIRST_DYNAMIC_SECTOR <= s < r.value :: !old(st).inuse[s].Free())
        && st == old(st).(inuse := old(st).inuse[r.value := UNUSED.With(activeRoot)])
    {
      var i := FIRST_DYNAMIC_SECTOR;
      while i < DISK_MAX_SECTOR
        invariant FIRST_DYNAMIC_SECTOR <= i <= DISK_MAX_SECTOR
        invariant forall s: nat | FIRST_DYNAMIC_SECTOR <= s < i :: !st.inuse[s].Free()
      {
        if st.inuse[i].Free() {
          st := st.(inuse := st.inuse[i := UNUSED.With(activeRoot)]);
          return Some(i);
        }
        i := i + 1;
      }
      return None;
    }

    // ----- disk_write.c -----

    method WriteCryptSector(b: Block) returns (r: Option<nat>)
      modifies this`st
      ensures Grew(old(st), st, activeRoot)
      ensures r.Some? ==>
        && FIRST_DYNAMIC_SECTOR <= r.value < DISK_MAX_SECTOR
        && old(st).inuse[r.value].Free() && st.inuse[r.value] == UNUSED.With(activeRoot) && st.disk[r.value] == b
      ensures WroteFirst(old(st), b, st, activeRoot)
      ensures forall s: nat | FirstFree(old(st).inuse, s) :: r == Some(s)
      ensures r.None? ==> NoneFree(st.inuse)
    {
      r := FindFree();
      if r.Some? {
        WriteSector(r.value, b);
        GrewOne(old(st), Write(r.value, b), activeRoot);
      } else {
        GrewRefl(st, activeRoot);
      }
    }

    /** Does nothing if the existing copy is valid. */
    method WriteVtpmPage(p: Page) returns (ok: bool, p': Page)
      requires PageMemOk(st.disk, st.inuse, activeRoot, p)
      modifies this`st
      ensures Grew(old(st), st, activeRoot)
      ensures p'.data == p.data
      ensures p.loc != 0 ==> ok && p' == p && st == old(st)
      ensures ok ==> p'.loc != 0 && PageMemOk(st.disk, st.inuse, activeRoot, p')
      ensures !ok ==> NoneFree(st.inuse)
    {
      if p.loc != 0 {
        GrewRefl(st, activeRoot);
        return true, p;
      }
      p' := p.(hash := PageHash(p.data));
      var r := WriteCryptSector(VtpmSector(p.data));
      if r.None? {
        return false, p';
      }
      ok, p' := true, p'.(loc := r.value);
    }

    /**
      Writes the pages ps and the tree above them; `es` are the entries for the parent sector
      and `used` is what is appended to disk_inuse.  On success a reader that walks `es` finds
      every page in its place, and every sector of the tree carries the slot being written.
     */
    method WriteVtpmITree(ps: seq<Page>, h: nat) returns (ok: bool, ps': seq<Page>, es: seq<Entry>, used: seq<nat>)
      requires h > 0 && PagesMemOk(st.disk, st.inuse, activeRoot, ps)
      modifies this`st
      ensures Grew(old(st), st, activeRoot)
      ensures ok ==> Stored(ps, ps') && WrittenTree(Walk(st.disk, |ps|, es, h), st, activeRoot, ps', {}, used)
      ensures ps == [] ==> ok && es == [] && st == old(st)
      ensures !ok ==> NoneFree(st.inuse)
      decreases Level(|ps|, h), 2
    {
      var incr := SizeTree(|ps|, h);
      if |ps| <= h {
        ok, ps', es := WriteLeafPages(ps);
        ElementsOfLocs(es);
        return ok, ps', es, Locs(es);
      }
      ok, ps', es, used := WriteITreeNodes(ps, incr, Level(|ps|, h));
      ElementsOfLocs(es);
      ElementsConcat(used, Locs(es));
      used := used + Locs(es);
    }

    /** The sectors of level k above the pages ps. */
    method WriteITreeNodes(ps: seq<Page>, incr: nat, ghost k: nat)
        returns (ok: bool, ps': seq<Page>, es: seq<Entry>, used: seq<nat>)
      requires k > 0 && incr == Pow(k) && PagesMemOk(st.disk, st.inuse, activeRoot, ps)
      modifies this`st
      ensures Grew(old(st), st, activeRoot)
      ensures ok ==>
        Stored(ps, ps') && WrittenTree(Below(st.disk, k, |ps|, es), st, activeRoot, ps', LocSet(es), used)
      ensures !ok ==> NoneFree(st.inuse)
      decreases k, 1
    {
      ok, ps', es, used := true, [], [], [];
      var done := 0;  // i * incr
      WrittenNone(st, activeRoot, k, ps);
      hide WrittenPart, WrittenTree, Grew, Below, PagesMemOk;
      while done < |ps|
        invariant done == |ps'| <= |ps|
        invariant WrittenPart(old(st), st, activeRoot, k, ps, ps', es, used)
      {
        var child := Min(incr, |ps| - done);
        ghost var before := st;
        WrittenPartGrew(old(st), st, activeRoot, k, ps, ps', es, used, ps[done..done + child]);
        var more, e, below;
        ok, more, e, below := WriteITreeNode(ps[done..done + child], k);
        if !ok {
          GrewTrans(old(st), before, st, activeRoot);
          return;
        }
        WrittenNext(old(st), before, st, activeRoot, k, ps, ps', es, used, e, more, below);
        ps', es, used, done := ps' + more, es + [e], used + below, done + child;
      }
      WrittenAll(old(st), st, activeRoot, k, ps, ps', es, used);
    }

    /** One sector of level k and everything below it. */
    method WriteITreeNode(ps: seq<Page>, ghost k: nat) returns (ok: bool, ps': seq<Page>, e: Entry, used: seq<nat>)
      requires k > 0 && |ps| <= Pow(k) && PagesMemOk(st.disk, st.inuse, activeRoot, ps)
      modifies this`st
      ensures Grew(old(st), st, activeRoot)
      ensures ok ==>
        && Stored(ps, ps') && NodeOk(st.disk, e)
        && WrittenTree(Walk(st.disk, |ps|, st.disk[e.loc].entries, NR_ENTRIES_PER_ITREE), st, activeRoot, ps', {e.loc},
             used)
      ensures !ok ==> NoneFree(st.inuse)
      decreases k, 0
    {
      ChildIsLower(k, |ps|);
      var sub;
      ok, ps', sub, used := WriteVtpmITree(ps, NR_ENTRIES_PER_ITREE);
      ghost var middle := st;
      e := Entry(0, TreeHash(Hashes(sub)));
      if !ok {
        return;
      }
      var r := WriteCryptSector(ITreeSector(sub));
      GrewTrans(old(st), middle, st, activeRoot);
      if r.None? {
        return false, ps', e, used;
      }
      GrewMarked(middle, st, activeRoot, Tree(middle.disk, |ps|, sub, NR_ENTRIES_PER_ITREE).value.sectors);
      GrewKeepsPages(middle, st, activeRoot, ps');
      TreeFrame(middle.disk, st.disk, |ps|, sub, NR_ENTRIES_PER_ITREE);
      e := e.(loc := r.value);
    }

    method WriteLeafPages(ps: seq<Page>) returns (ok: bool, ps': seq<Page>, es: seq<Entry>)
      requires PagesMemOk(st.disk, st.inuse, activeRoot, ps)
      modifies this`st
      ensures Grew(old(st), st, activeRoot)
      ensures ok ==>
        && Stored(ps, ps') && PagesMemOk(st.disk, st.inuse, activeRoot, ps')
        && es == Entries(ps')
        && (forall i | 0 <= i < |ps| :: PageOk(st.disk, es[i]))
        && Marked(st.inuse, activeRoot, LocSet(es))
      ensures ps == [] ==> ok && es == [] && st == old(st)
      ensures !ok ==> NoneFree(st.inuse)
    {
      ok, ps', es := true, [], [];
      GrewRefl(st, activeRoot);
      var i := 0;
      while i < |ps|
        invariant 0 <= i <= |ps|
        invariant Grew(old(st), st, activeRoot)
        invariant |ps'| == i && StoredPrefix(ps, ps') && PagesMemOk(st.disk, st.inuse, activeRoot, ps')
        invariant es == Entries(ps')
        invariant ps == [] ==> ok && st == old(st)
      {
        ghost var before := st;
        GrewKeepsPages(old(st), st, activeRoot, ps);
        var p;
        ok, p := WriteVtpmPage(ps[i]);
        GrewTrans(old(st), before, st, activeRoot);
        if !ok {
          return;
        }
        GrewKeepsPages(before, st, activeRoot, ps');
        StoredMore(ps, i + 1, ps', [p]);
        ps', es := ps' + [p], es + [EntryOf(p)];
        i := i + 1;
      }
      LeavesStored(st, activeRoot, ps, ps');
    }

    /** Does nothing if the group is unchanged; false where the source aborts. */
    method WriteGroupSector(g: Group) returns (ok: bool, g': Group)
      requires GroupMemOk(st.disk, st.inuse, activeRoot, g)
      modifies this`st
      ensures Grew(old(st), st, activeRoot)
      ensures ok ==> Saved(g, g') && GroupMemOk(st.disk, st.inuse, activeRoot, g')
      ensures WroteBare(old(st), [g], st, activeRoot, ok, [g'])
      ensures !ok ==> NoneFree(st.inuse) || Oversealed([g])
    {
      g' := g;
      if g.loc != 0 {
        GrewRefl(st, activeRoot);
        return true, g';
      }
      var v := g.v.value;
      GroupPagesOk(st.disk, st.inuse, activeRoot, g);
      var ps, es, used;
      ok, ps, es, used := WriteVtpmITree(v.pages, NR_ENTRIES_PER_GROUP_BASE);
      if !ok || v.meta.nrSeals > NR_SEALS_PER_GROUP {
        return false, g';
      }
      ghost var middle, w := st, Walk(st.disk, |ps|, es, NR_ENTRIES_PER_GROUP_BASE);
      StoredDigest(st.disk, v, ps, es);
      StoredLocs(st.disk, ps, es);
      var r := WriteCryptSector(GroupSector(v.meta, v.nrVtpms, es));
      GrewTrans(old(st), middle, st, activeRoot);
      if r.None? {
        return false, g';
      }
      GrewMarked(middle, st, activeRoot, w.value.sectors);
      GrewKeepsPages(middle, st, activeRoot, ps);
      TreeFrame(middle.disk, st.disk, |ps|, es, NR_ENTRIES_PER_GROUP_BASE);
      g' := Group(r.value, GroupHash(v.meta, v.nrVtpms, Hashes(es)), used, Some(v.(pages := ps)));
    }

    /** The leaf loop of disk_write_group_itree. */
    method WriteGroups() returns (ok: bool, es: seq<Entry>)
      requires MemOk(st.disk, st.inuse, activeRoot, groups)
      modifies this`st, this`groups
      ensures Grew(old(st), st, activeRoot)
      ensures |groups| == |old(groups)|
      ensures ok ==>
        && MemOk(st.disk, st.inuse, activeRoot, groups)
        && AllSaved(old(groups), groups)
        && es == GroupEntries(groups)
      ensures WroteBare(old(st), old(groups), st, activeRoot, ok, groups)
      ensures !ok ==> NoneFree(st.inuse) || Oversealed(old(groups))
    {
      hide WroteBare, SavedPart, Grew, MemOk, AllSaved, GroupEntries, GroupMemOk, Saved;
      ok, es := true, [];
      SavedNone(st, groups, activeRoot);
      var i := 0;
      while i < |groups|
        invariant i <= |groups| == |old(groups)|
        invariant SavedPart(old(st), old(groups), activeRoot, i, st, groups, es)
        invariant i == 0 ==> st == old(st) && groups == old(groups)
        invariant i > 0 && |groups| == 1 ==> WroteBare(old(st), old(groups), st, activeRoot, ok, groups)
      {
        ghost var before, was := st, groups;
        SavedPartNext(old(st), old(groups), activeRoot, i, st, groups, es);
        var g;
        ok, g := WriteGroupSector(groups[i]);
        assert |was| == 1 ==> was == [was[i]] && was[i := g] == [g];
        if !ok {
          OversealedOne(old(st), old(groups), activeRoot, i, before, was, es);
          GrewTrans(old(st), before, st, activeRoot);
          if |was| != 1 {
            SeveralAreNotBare(old(st), old(groups), st, activeRoot, ok, groups);
          } else {
            RefusedBare(before, was, st, activeRoot, g);
          }
          return;
        }
        SavedNext(old(st), old(groups), activeRoot, i, before, groups, es, st, g);
        groups := groups[i := g];
        es := es + [Entry(g.loc, g.hash)];
        i := i + 1;
      }
      SavedAll(old(st), old(groups), activeRoot, st, groups, es);
      if |groups| != 1 {
        SeveralAreNotBare(old(st), old(groups), st, activeRoot, ok, groups);
      }
    }

    /** The remembered sectors of a group that is unchanged. */
    method SetUsedSectors(ss: seq<nat>)
      requires forall s | s in ss :: s < DISK_MAX_SECTOR
      modifies this`st
      ensures st == old(st).(inuse := st.inuse)
      ensures Added(old(st).inuse, st.inuse, activeRoot, Elements(ss))
    {
      var i := 0;
      while i < |ss|
        invariant 0 <= i <= |ss|
        invariant st == old(st).(inuse := st.inuse)
        invariant Added(old(st).inuse, st.inuse, activeRoot, Elements(ss[..i]))
      {
        assert ss[i] in ss;
        var inBounds := SetUsed(ss[i]);
        assert ss[..i + 1] == ss[..i] + [ss[i]];
        i := i + 1;
      }
      assert ss[..i] == ss;
    }

    /** The pages that are still valid of a group that has changed. */
    method SetUsedPages(ps: seq<Page>)
      requires forall s | s in PageLocs(ps) :: s < DISK_MAX_SECTOR
      modifies this`st
      ensures st == old(st).(inuse := st.inuse)
      ensures Added(old(st).inuse, st.inuse, activeRoot, PageLocs(ps))
    {
      var i := 0;
      while i < |ps|
        invariant 0 <= i <= |ps|
        invariant st == old(st).(inuse := st.inuse)
        invariant Added(old(st).inuse, st.inuse, activeRoot, PageLocs(ps[..i]))
      {
        assert ps[..i + 1] == ps[..i] + [ps[i]];
        PageLocsNext(ps[..i], ps[i]);
        if ps[i].loc != 0 {
          assert ps[i].loc in PageLocs(ps);
          var inBounds := SetUsed(ps[i].loc);
        }
        i := i + 1;
      }
      assert ps[..i] == ps;
    }

    method PopulateUsedGroup(g: Group)
      requires forall s | s in Marks(g) :: s < DISK_MAX_SECTOR
      modifies this`st
      ensures st == old(st).(inuse := st.inuse)
      ensures Added(old(st).inuse, st.inuse, activeRoot, Marks(g))
    {
      if g.loc != 0 {
        assert g.loc in Marks(g);
        assert forall s | s in g.inuse :: s in Elements(g.inuse) && s in Marks(g);
        var inBounds := SetUsed(g.loc);
        SetUsedSectors(g.inuse);
      } else if g.v.Some? {
        assert Marks(g) == PageLocs(g.v.value.pages);
        SetUsedPages(g.v.value.pages);
      }
    }

    method PopulateUsed()
      requires forall i, s | 0 <= i < |groups| && s in Marks(groups[i]) :: s < DISK_MAX_SECTOR
      modifies this`st
      ensures st == old(st).(inuse := st.inuse)
      ensures Added(old(st).inuse, st.inuse, activeRoot, AllMarks(groups))
    {
      var i := 0;
      while i < |groups|
        invariant 0 <= i <= |groups|
        invariant st == old(st).(inuse := st.inuse)
        invariant Added(old(st).inuse, st.inuse, activeRoot, AllMarks(groups[..i]))
      {
        PopulateUsedGroup(groups[i]);
        assert groups[..i + 1][..i] == groups[..i];
        i := i + 1;
      }
      assert groups[..i] == groups;
    }

    // ----- the root flip of vtpm_sync_disk -----

    ghost predicate Valid()
      reads this
    {
      Consistent(st.disk, st.inuse, activeRoot, sequence, groups, sealsValid)
    }

    ghost function Snap(): Snapshot
      reads this
    {
      Snapshot(st, sequence, activeRoot, groups, sealsValid)
    }

    /** What is left of it if the first sync that ever ended was refused by the counter. */
    ghost predicate Sane()
      reads this
    {
      Sound(st.disk, st.inuse, activeRoot, sequence, groups, sealsValid)
    }

    /** vtpm_sync_disk may be called. */
    ghost predicate Ready()
      reads this
    {
      Valid() && 0 < |groups| <= NR_ENTRIES_PER_ROOT
    }

    /** disk_write_all up to and including the root sector. */
    method WriteTrees(ghost r: Slot) returns (ok: bool, ghost tree: seq<Write>)
      requires activeRoot == Other(r) && Shape(st.disk) && AllOnDisk(st.disk, groups)
      requires Loads(st.disk, r) ==> Protected(st.disk, st.inuse, r)
      modifies this`st, this`groups
      ensures Dynamic(tree) && |groups| == |old(groups)|
      ensures Loads(old(st).disk, r) ==> Spares(old(st).disk, r, tree) && Protected(old(st).disk, st.inuse, r)
      ensures !ok ==> st.log == old(st).log + tree && st.disk == Replay(old(st).disk, tree)
      ensures ok ==>
        && st.log == old(st).log + tree + [Write(RootLoc(activeRoot), RootSector(sequence, GroupEntries(groups)))]
        && st.disk == Replay(old(st).disk, tree)[RootLoc(activeRoot) := RootSector(sequence, GroupEntries(groups))]
        && MemOk(Replay(old(st).disk, tree), st.inuse, activeRoot, groups)
        && AllSaved(old(groups), groups)
      ensures BareSync(old(st), old(groups), activeRoot, ok, tree, st.inuse, groups)
      ensures var x := Extend(Prepared(old(st), activeRoot, old(groups)), tree, activeRoot);
        x.Some? && st.inuse == x.value.inuse && (!ok ==> NoneFree(st.inuse) || Oversealed(old(groups)))
    {
      hide NoneFree, Oversealed, Prepared, Extend, BareSync, WroteBare, IsFlushed, Added, Grew, MemOk;
      hide AllSaved, Protected, Spares, Dynamic, Loads, Replay;
      FlushSlot();
      ghost var flushed := st.inuse;
      AllMarksBounded(st.disk, groups);
      PopulateUsed();
      ghost var a := st;
      PreparedIs(old(st), activeRoot, groups, flushed, a);
      MarksAdded(st.disk, flushed, st.inuse, activeRoot, groups);
      hide AllOnDisk, Shape;
      var es;
      ok, es := WriteGroups();
      GrewIs(a, st, activeRoot);
      TreeWrites(old(st), r, flushed, AllMarks(old(groups)), a, st);
      tree := st.log[|a.log|..];
      BareSyncStarts(old(st), old(groups), activeRoot, flushed, a, st, ok, groups);
      if ok {
        WriteSector(RootLoc(activeRoot), RootSector(sequence, es));
      }
    }

    /** Does nothing if the seal list of the slot being written is still valid. */
    method WriteSealList()
      modifies this`st, this`sealsValid
      ensures sealsValid == old(sealsValid).With(activeRoot)
      ensures st.inuse == old(st).inuse
      ensures st.disk ==
        if old(sealsValid).Has(activeRoot) then old(st).disk else old(st).disk[SealLoc(activeRoot) := SealList]
      ensures st.log ==
        old(st).log + if old(sealsValid).Has(activeRoot) then [] else [Write(SealLoc(activeRoot), SealList)]
    {
      if sealsValid.Has(activeRoot) {
        return;
      }
      WriteSector(SealLoc(activeRoot), SealList);
      sealsValid := sealsValid.With(activeRoot);
    }

    /** disk_write_all, with slot r as the one that must survive. */
    method WriteAll(ghost r: Slot) returns (ok: bool, ghost p: Plan)
      requires activeRoot == Other(r)
      requires Shape(st.disk) && AllOnDisk(st.disk, groups)
      requires 0 < |groups| <= NR_ENTRIES_PER_ROOT && Syncable(groups)
      requires Loads(st.disk, r) ==> Protected(st.disk, st.inuse, r)
      requires sealsValid.Has(activeRoot) ==> st.disk[SealLoc(activeRoot)].SealList?
      modifies this`st, this`groups, this`sealsValid
      ensures Dynamic(p.tree)
      ensures Loads(old(st).disk, r) ==> Spares(old(st).disk, r, p.tree) && Protected(old(st).disk, st.inuse, r)
      ensures !ok ==> st.log == old(st).log + p.tree && st.disk == Replay(old(st).disk, p.tree)
      ensures ok ==>
        && p.root == RootSector(sequence, GroupEntries(groups)) && Complete(old(st).disk, p)
        && st.log == old(st).log + PlanLog(r, p) && st.disk == Replay(old(st).disk, PlanLog(r, p))
        && st.disk[RootLoc(activeRoot)] == p.root
        && Shape(st.disk) && Loads(st.disk, activeRoot) && Protected(st.disk, st.inuse, activeRoot)
        && AllOnDisk(st.disk, groups)
        && AllSaved(old(groups), groups)
        && sealsValid == old(sealsValid).With(activeRoot)
      ensures BareSync(old(st), old(groups), activeRoot, ok, st.log[|old(st).log|..], st.inuse, groups)
      ensures ok ==> p.seals == !old(sealsValid).Has(activeRoot)
      ensures var x := Extend(Prepared(old(st), activeRoot, old(groups)), p.tree, activeRoot);
        x.Some? && st.inuse == x.value.inuse && (!ok ==> NoneFree(st.inuse) || Oversealed(old(groups)))
    {
      hide NoneFree, Oversealed, Prepared, Extend, BareSync, AllOnDisk, Protected, Spares, Dynamic, Syncable, Complete;
      hide MemOk, AllSaved, GroupEntries, Loads, Shape, Replay;
      ghost var d0 := st.disk;
      ghost var tree;
      ok, tree := WriteTrees(r);
      p := Plan(tree, Unreadable, false);
      if !ok {
        assert st.log[|old(st).log|..] == tree;
        return;
      }
      p := Plan(tree, RootSector(sequence, GroupEntries(groups)), !sealsValid.Has(activeRoot));
      PlanReplay(d0, r, p);
      WriteSealList();
      assert st.log[|old(st).log|..] == PlanLog(r, p);
      BareSyncMore(old(st), old(groups), activeRoot, ok, tree, PlanLog(r, p), st.inuse, groups);
      SyncCommits(d0, r, p, st.inuse, sequence, old(groups), groups);
    }

    /**
      vtpm_sync_disk.  `reseal` stands for the depths that invalidate the seal lists and
      `counterOk` for the TPM accepting the counter update; y says what the sync did.  Every image
      that stopping its writes leaves is safe, and a sync that ends has committed the digests of
      memory in the other slot.
     */
    method SyncDisk(reseal: bool, counterOk: bool) returns (ok: bool, ghost y: Outcome)
      requires Sane() && 0 < |groups| <= NR_ENTRIES_PER_ROOT
      modifies this
      ensures Wrote(old(Snap()), y) && (ok <==> !y.Aborted?)
      ensures st.log == old(st).log + LogOf(old(Snap()), reseal, y)
      ensures st.disk == Replay(old(st).disk, LogOf(old(Snap()), reseal, y))
      ensures CrashSafe(old(st).disk, old(activeRoot), RootOf(old(Snap()), y), LogOf(old(Snap()), reseal, y))
      ensures y.Idle? ==> Snap() == old(Snap())
      ensures y.Ended? ==>
        && Snap() == EndState(old(Snap()), reseal, counterOk, y)
        && (counterOk ==> Valid())
        && (old(Valid()) ==> Sane() && (Valid() <==> counterOk || Loads(old(st).disk, old(activeRoot))))
        && (Loads(old(st).disk, old(activeRoot)) ==> sequence > old(st).disk[RootLoc(old(activeRoot))].sequence)
        && Loads(st.disk, Other(old(activeRoot))) && st.disk[RootLoc(Other(old(activeRoot)))] == RootOf(old(Snap()), y)
        && (old(Valid()) ==> Recover(st.disk) == First(st.disk) == Some(Other(old(activeRoot))))
      ensures !y.Idle? ==>
        BareSync(old(st), old(groups), Other(old(activeRoot)), ok, LogOf(old(Snap()), reseal, y), st.inuse, groups)
    {
      hide NoneFree, Oversealed, Prepared, Extend, BareSync, AllOnDisk, Protected, Spares, Dynamic, Complete, CrashSafe;
      hide AllSaved, GroupEntries, GroupsOk, First, Recover, PlanLog, Replay;
      ghost var r, d0 := activeRoot, st.disk;
      ReplayNothing(d0);
      if groups[0].v.None? || groups[0].v.value.meta.nrSeals == 0 {
        assert st.log + [] == st.log;
        IdleIsSafe(d0, r);
        return true, Idle;
      }
      var oldActiveRoot := activeRoot;
      sequence := sequence + 1;
      activeRoot := Other(activeRoot);
      if reseal {
        sealsValid := UNUSED;
      }
      ghost var p;
      ok, p := WriteAll(r);
      if !ok {
        y := Aborted(p.tree);
        AbortIsSafe(d0, r, p.tree);
        assert st.log[|old(st).log|..] == p.tree;
        return;
      }
      y := Ended(p.tree, groups);
      assert p == Plan(p.tree, RootOf(old(Snap()), y), reseal || !old(sealsValid).Has(Other(r)));
      assert st.log[|old(st).log|..] == PlanLog(r, p);
      SyncIsSafe(d0, r, p);
      SyncEnds(d0, r, p, st.disk, st.inuse, sequence, groups, sealsValid);
      if !counterOk {
        activeRoot := oldActiveRoot;
      }
    }

    // ----- disk_read.c -----

    /**
      load_verify_vtpm_pages.  The source sets `page` once and never advances it, so all pages
      are loaded into the first slot and the last one stays there.  A read past the end of the
      disk, where the source aborts, counts as a failure.
     */
    method LoadVtpmPages(ps: seq<Page>, base: nat, es: seq<Entry>) returns (ok: bool, ps': seq<Page>)
      requires base + |es| <= |ps|
      modifies this`st
      ensures st == old(st).(inuse := st.inuse) && MarksKept(old(st).inuse, st.inuse, activeRoot)
      ensures ok <==> forall i | 0 <= i < |es| :: PageOk(st.disk, es[i])
      ensures ok ==> Marked(st.inuse, activeRoot, LocSet(es))
      ensures ok ==> ps' == PagesAfterLoad(st.disk, ps, base, es)
    {
      ps' := ps;
      var i := 0;
      while i < |es|
        invariant 0 <= i <= |es|
        invariant st == old(st).(inuse := st.inuse) && MarksKept(old(st).inuse, st.inuse, activeRoot)
        invariant forall j | 0 <= j < i :: PageOk(st.disk, es[j]) && st.inuse[es[j].loc].Has(activeRoot)
        invariant ps' == if i == 0 then ps else ps[base := PageAt(st.disk, es[i - 1])]
      {
        var inBounds := SetUsed(es[i].loc);
        if !PageOk(st.disk, es[i]) {
          return false, ps';
        }
        ps' := ps'[base := PageAt(st.disk, es[i])];
        i := i + 1;
      }
      ok := true;
    }

    /**
      load_verify_vtpm_itree: succeeds exactly if the walk does, calls the page loader once for
      each page index, in order, with the sector and digest the tree holds for it, and records
      exactly the sectors of the tree.
     */
    method LoadVtpmITree(ps: seq<Page>, base: nat, n: nat, es: seq<Entry>, h: nat)
        returns (ok: bool, ps': seq<Page>, visited: seq<(nat, Entry)>, used: seq<nat>)
      requires 0 < h <= NR_ENTRIES_PER_ITREE && base + n <= |ps|
      modifies this`st
      ensures st == old(st).(inuse := st.inuse) && MarksKept(old(st).inuse, st.inuse, activeRoot)
      ensures ok <==> Walk(st.disk, n, es, h).Some?
      ensures ok ==> LoadedTree(st, activeRoot, Walk(st.disk, n, es, h).value, {}, base, ps, ps', visited, used)
      decreases Level(n, h), 2
    {
      ps', visited, used := ps, [], Locs(es);
      ElementsOfLocs(es);
      var incr := SizeTree(n, h);
      if n <= h {
        if |es| != n {
          return false, ps', visited, used;
        }
        ok, ps' := LoadVtpmPages(ps, base, es);
        visited := Indexed(base, es);
        if ok {
          FilledLeaf(st.disk, base, es, ps);
        }
        return;
      }
      var below;
      ok, ps', visited, below := LoadITreeNodes(ps, base, n, es, incr, Level(n, h));
      ElementsConcat(used, below);
      used := used + below;
    }

    method LoadITreeNodes(ps: seq<Page>, base: nat, n: nat, es: seq<Entry>, incr: nat, ghost k: nat)
        returns (ok: bool, ps': seq<Page>, visited: seq<(nat, Entry)>, used: seq<nat>)
      requires k > 0 && incr == Pow(k) && base + n <= |ps|
      modifies this`st
      ensures st == old(st).(inuse := st.inuse) && MarksKept(old(st).inuse, st.inuse, activeRoot)
      ensures ok <==> Below(st.disk, k, n, es).Some?
      ensures ok ==>
        LoadedTree(st, activeRoot, Below(st.disk, k, n, es).value, LocSet(es), base, ps, ps', visited, used)
      decreases k, 1
    {
      hide LoadedPart, LoadedTree, Below, Walk, Pow, MarksKept;
      ps', visited, used := ps, [], [];
      ghost var v := EMPTY;
      MarksKeptSelf(st.inuse, activeRoot);
      var i, done := 0, 0;  // done is i * incr
      LoadNone(st, activeRoot, k, n, es, base, ps);
      while done < n
        invariant i <= |es| && done <= n && |ps'| == |ps|
        invariant st == old(st).(inuse := st.inuse) && MarksKept(old(st).inuse, st.inuse, activeRoot)
        invariant LoadedPart(st, activeRoot, k, n, es, i, done, v, base, ps, ps', visited, used)
      {
        if i == |es| {
          LoadFails(st, activeRoot, k, n, es, i, done, v, base, ps, ps', visited, used);
          return false, ps', visited, used;
        }
        var child := Min(incr, n - done);
        ghost var before, ps0 := st, ps';
        var more, below;
        ok, ps', more, below := LoadITreeNode(ps', base + done, child, es[i], k);
        MarksKeptTrans(old(st).inuse, before.inuse, st.inuse, activeRoot);
        if !ok {
          LoadFails(before, activeRoot, k, n, es, i, done, v, base, ps, ps0, visited, used);
          return false, ps', visited, used;
        }
        ghost var w := Walk(st.disk, child, st.disk[es[i].loc].entries, NR_ENTRIES_PER_ITREE).value;
        LoadNext(before, st, activeRoot, k, n, es, i, done, v, w, base, ps, ps0, ps', visited, more, used, below);
        v := Join(Some(v), Some(w)).value;
        visited, used, i, done := visited + more, used + below, i + 1, done + child;
      }
      ok := i == |es|;
      LoadDone(st, activeRoot, k, n, es, i, v, base, ps, ps', visited, used);
    }

    method LoadITreeNode(ps: seq<Page>, base: nat, child: nat, e: Entry, ghost k: nat)
        returns (ok: bool, ps': seq<Page>, visited: seq<(nat, Entry)>, used: seq<nat>)
      requires k > 0 && child <= Pow(k) && base + child <= |ps|
      modifies this`st
      ensures st == old(st).(inuse := st.inuse) && MarksKept(old(st).inuse, st.inuse, activeRoot)
      ensures ok <==> NodeOk(st.disk, e) && Walk(st.disk, child, st.disk[e.loc].entries, NR_ENTRIES_PER_ITREE).Some?
      ensures ok ==>
        LoadedTree(st, activeRoot, Walk(st.disk, child, st.disk[e.loc].entries, NR_ENTRIES_PER_ITREE).value,
          {e.loc}, base, ps, ps', visited, used)
      decreases k, 0
    {
      var inBounds := SetUsed(e.loc);
      if !NodeOk(st.disk, e) {
        return false, ps, [], [];
      }
      ChildIsLower(k, child);
      ok, ps', visited, used := LoadVtpmITree(ps, base, child, st.disk[e.loc].entries, NR_ENTRIES_PER_ITREE);
    }

    /** load_verify_group: succeeds exactly if the group verifies, and remembers only what is on disk. */
    method LoadGroup(e: Entry) returns (ok: bool, g: Group)
      requires Shape(st.disk)
      modifies this`st
      ensures st == old(st).(inuse := st.inuse) && MarksKept(old(st).inuse, st.inuse, activeRoot)
      ensures ok <==> GroupOk(st.disk, e)
      ensures ok ==>
        && g.loc == e.loc && g.hash == e.hash && OnDisk(st.disk, g)
        && Marked(st.inuse, activeRoot, GroupSectors(st.disk, e))
        && (g.v.Some? <==> st.disk[e.loc].meta.nrSeals > 0)
        && (g.v.Some? ==> Reloaded(st.disk, e, g.v.value))
      ensures ok && g.v.Some? ==>
        (g.v.value.pages == PagesOf(st.disk, TreePages(st.disk, e)) <==> PagesFor(st.disk[e.loc].nrVtpms) <= 1)
    {
      g := Group(e.loc, e.hash, [], None);
      var inBounds := SetUsed(e.loc);
      if e.loc >= |st.disk| {
        return false, g;
      }
      var b := st.disk[e.loc];
      if !b.GroupSector? || e.hash != GroupHash(b.meta, b.nrVtpms, Hashes(b.vtpms)) {
        return false, g;
      }
      if b.meta.nrSeals > NR_SEALS_PER_GROUP {
        return false, g;
      }
      var n := PagesFor(b.nrVtpms);
      var blank := seq(n, _ => BLANK);
      var ps, visited, used;
      ok, ps, visited, used := LoadVtpmITree(blank, 0, n, b.vtpms, NR_ENTRIES_PER_GROUP_BASE);
      g := Group(e.loc, e.hash, used, if b.meta.nrSeals > 0 then Some(OpenGroup(b.meta, b.nrVtpms, ps)) else None);
      if ok {
        GroupIsDynamic(st.disk, e, e.loc);
        LeavesAreSectors(st.disk, n, b.vtpms, NR_ENTRIES_PER_GROUP_BASE);
        FilledOnDisk(st.disk, TreePages(st.disk, e), blank, ps, TreeSectors(st.disk, e));
        assert blank == seq(|TreePages(st.disk, e)|, _ => BLANK);
        ReloadKeepsPagesIff(st.disk, e, OpenGroup(b.meta, b.nrVtpms, ps));
      }
    }

    /** load_root_post for a root whose header has verified. */
    method LoadRootPost(r: Slot) returns (ok: bool)
      requires Shape(st.disk) && RootPre(st.disk, r)
      modifies this
      ensures st == old(st).(inuse := st.inuse)
      ensures ok <==> Loads(st.disk, r)
      ensures ok ==>
        && activeRoot == r && sequence == st.disk[RootLoc(r)].sequence && sealsValid == UNUSED.With(r)
        && GroupEntries(groups) == st.disk[RootLoc(r)].groups
        && AllOnDisk(st.disk, groups) && Protected(st.disk, st.inuse, r)
    {
      activeRoot, sealsValid, sequence, groups := r, UNUSED.With(r), st.disk[RootLoc(r)].sequence, [];
      var es := st.disk[RootLoc(r)].groups;
      if es == [] || |es| > NR_ENTRIES_PER_ROOT {
        return false;
      }
      assert LoadedGroups(st.disk, st.inuse, r, es, groups);
      hide LoadedGroups, GroupOk, OnDisk, AllOnDisk, Protected;
      for i := 0 to |es|
        invariant st == old(st).(inuse := st.inuse) && |groups| == i
        invariant activeRoot == r && sequence == st.disk[RootLoc(r)].sequence && sealsValid == UNUSED.With(r)
        invariant LoadedGroups(st.disk, st.inuse, r, es, groups)
      {
        ghost var before := st.inuse;
        var g;
        ok, g := LoadGroup(es[i]);
        if !ok {
          return false;
        }
        LoadedNextGroup(st.disk, before, st.inuse, r, es, groups, g);
        groups := groups + [g];
      }
      ok := groups[0].v.Some?;
      LoadedAllGroups(st.disk, st.inuse, r, groups);
    }

    /** vtpm_load_disk, in a process that has just started. */
    method LoadDisk() returns (ok: bool)
      requires Shape(st.disk)
      modifies this
      ensures st == old(st).(inuse := st.inuse) && (First(st.disk).None? ==> st == old(st))
      ensures ok <==> Recover(st.disk).Some?
      ensures ok ==>
        && Ready() && activeRoot == Recover(st.disk).value
        && sequence == st.disk[RootLoc(activeRoot)].sequence
        && GroupEntries(groups) == st.disk[RootLoc(activeRoot)].groups
    {
      var pre1, pre2 := RootPre(st.disk, 0), RootPre(st.disk, 1);
      if pre1 && pre2 && st.disk[RootLoc(1)].sequence > st.disk[RootLoc(0)].sequence {
        ok := LoadRootPost(1);
        if ok {
          return;
        }
        pre2 := false;
      }
      if pre1 {
        ok := LoadRootPost(0);
        if ok {
          return;
        }
      }
      if pre2 {
        ok := LoadRootPost(1);
        return;
      }
      ok := false;
    }

    /**
      Everything that happens to the groups between syncs: vTPMs and groups are created,
      deleted and changed.  Whatever is changed forgets its location, so each new group
      remembers of the disk only what some old group remembered.
     */
    method ChangeGroups(gs: seq<Group>)
      requires Sane() && Possible(groups, gs)
      modifies this`groups
      ensures Sane() && groups == gs && (old(Valid()) ==> Ready())
    {
      forall i | 0 <= i < |gs| ensures OnDisk(st.disk, gs[i]) {
        var j :| 0 <= j < |groups| && Derived(groups[j], gs[i]);
        assert OnDisk(st.disk, groups[j]);
        DerivedOnDisk(st.disk, groups[j], gs[i]);
      }
      groups := gs;
    }

    /** vtpm_new_disk, after vtpm_load_disk has failed.  The in-use map keeps the marks of the failed
        attempts. */
    method NewDisk(meta: GroupMeta)
      requires Shape(st.disk)
      modifies this
      ensures Snap() == Snapshot(old(st), 0, 0, [Group(0, PageHash([]), [], Some(OpenGroup(meta, 0, [])))], UNUSED)
      ensures Recover(st.disk).None? ==> (Ready() <==> First(st.disk).None?)
    {
      sequence, activeRoot, sealsValid := 0, 0, UNUSED;
      groups := [Group(0, PageHash([]), [], Some(OpenGroup(meta, 0, [])))];
    }

    /** A process that has just started on a given device. */
    constructor Restart(d: Disk)
      ensures st == Store(d, seq(DISK_MAX_SECTOR, _ => UNUSED), [])
    {
      st := Store(d, seq(DISK_MAX_SECTOR, _ => UNUSED), []);
      sequence, activeRoot, sealsValid, groups := 0, 0, UNUSED, [];
    }
  }
}
