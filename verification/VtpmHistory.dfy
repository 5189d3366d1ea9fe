/**
  Whole runs of the vTPM manager: any sequence of changes to the groups, syncs that end,
  syncs that are aborted for want of sectors, syncs that the TPM counter refuses, and
  syncs that are stopped between or within two sector writes, with the restart
  (stubdom/vtpmmgr/init.c:483-490) that follows the aborted and the stopped ones.
 */
module VtpmHistory {
  import opened Common
  import opened HashTree
  import opened DiskRecovery
  import opened DiskStore
  import opened VtpmManager

  datatype Event =
    | Change(groups: seq<Group>)
    | Sync(reseal: bool, counterOk: bool)
    | Crash(reseal: bool, k: nat, torn: bool)  // a sync stopped after k sector writes

  predicate Refused(e: Event) { e.Sync? && !e.counterOk }

  /** The device after k of the writes, the next one torn or not. */
  function Image(d: Disk, log: seq<Write>, k: nat, torn: bool): (d': Disk)
    ensures CrashImage(d, log, d')
  {
    if k >= |log| then
      assert log[..|log|] == log && StopsAt(d, log, |log|, false, Replay(d, log));
      Replay(d, log)
    else
      var d' := if torn then Put(Replay(d, log[..k]), log[k].loc, Unreadable) else Replay(d, log[..k]);
      assert StopsAt(d, log, k, torn, d');
      d'
  }

  /** Slot r holds a tree and is the one that recovery tries first. */
  predicate Preferred(d: Disk, r: Slot) { Loads(d, r) && First(d) == Some(r) }

  /** The manager satisfies its invariant. */
  ghost predicate Good(s: Snapshot) {
    && Consistent(s.st.disk, s.st.inuse, s.slot, s.sequence, s.groups, s.seals)
    && 0 < |s.groups| <= NR_ENTRIES_PER_ROOT
  }

  function NewGroup(meta: GroupMeta): Group { Group(0, PageHash([]), [], Some(OpenGroup(meta, 0, []))) }

  /** s is a manager that has just started on the device d: it has taken over the tree that recovery
      selects, or is a new one. */
  ghost predicate Booted(d: Disk, meta: GroupMeta, s: Snapshot) {
    && s.st.disk == d && s.st.log == []
    && match Recover(d)
       case Some(r) =>
         && Loads(d, r) && s.slot == r
         && s.sequence == d[RootLoc(r)].sequence && GroupEntries(s.groups) == d[RootLoc(r)].groups
       case None => s.slot == 0 && s.sequence == 0 && s.groups == [NewGroup(meta)]
  }

  /**
    What each event does.  A change sets the groups.  A sync that ends leaves its writes on the
    device and goes on; one that is aborted leaves them and is followed by a restart; one that is
    stopped leaves the first k of them, the next one torn or not, and is followed by a restart.
   */
  ghost predicate Happens(s: Snapshot, e: Event, y: Outcome, s': Snapshot, meta: GroupMeta)
    requires s.groups != []
  {
    match e
    case Change(gs) => y == Idle && s' == if Possible(s.groups, gs) then s.(groups := gs) else s
    case Sync(reseal, counterOk) =>
      && Wrote(s, y)
      && (match y
          case Idle => s' == s
          case Aborted(_) => Booted(Replay(s.st.disk, LogOf(s, reseal, y)), meta, s')
          case Ended(_, _) => s' == EndState(s, reseal, counterOk, y))
    case Crash(reseal, k, torn) =>
      Wrote(s, y) && Booted(Image(s.st.disk, LogOf(s, reseal, y), k, torn), meta, s')
  }

  /**
    What no event breaks.  Something committed stays intact in its slot and the active slot never
    gets older.  If the active slot was the preferred one, it still is, and holds the whole
    previous tree or the whole tree with the digests of memory, y says which.  A sync that
    ends is what recovery finds next.
   */
  ghost predicate SafeStep(s: Snapshot, e: Event, y: Outcome, s': Snapshot) {
    var d, r, d', r', w := s.st.disk, s.slot, s'.st.disk, s'.slot, RootOf(s, y);
    && RootsFrom(d, r, w, d')
    && (e.Sync? && y.Ended? ==> Recover(d') == First(d') == Some(Other(r)) && d'[RootLoc(Other(r))] == w)
    && (Loads(d, r) ==>
          && Loads(d', r) && Intact(d, r, d')
          && Loads(d', r') && d'[RootLoc(r')].sequence >= d[RootLoc(r)].sequence)
    && (Preferred(d, r) && !Refused(e) ==>
          Preferred(d', r') && (r' == r || (y.Ended? && d'[RootLoc(r')] == w)))
    && (First(d).None? && !Refused(e) ==>
          First(d').None? || (Preferred(d', r') && y.Ended? && d'[RootLoc(r')] == w))
  }

  lemma SafeNothing(s: Snapshot, e: Event, s': Snapshot)
    requires (Loads(s.st.disk, s.slot) || First(s.st.disk).None?) && s'.st.disk == s.st.disk && s'.slot == s.slot
    ensures SafeStep(s, e, Idle, s')
  {
  }

  /** A restart on an image that is safe. */
  lemma SafeRestart(s: Snapshot, e: Event, y: Outcome, s': Snapshot, meta: GroupMeta)
    requires (Loads(s.st.disk, s.slot) || First(s.st.disk).None?) && (e.Sync? ==> !y.Ended?)
    requires SafeImage(s.st.disk, s.slot, RootOf(s, y), s'.st.disk) && Booted(s'.st.disk, meta, s')
    ensures SafeStep(s, e, y, s')
    ensures Recover(s'.st.disk).None? ==> First(s'.st.disk).None?
  {
    var d, r, d', r' := s.st.disk, s.slot, s'.st.disk, s'.slot;
    RootIsReadable(s, y, d');
    hide Shape, RootsFrom, GroupsOk, Intact, GroupEntries;
    if Loads(d, r) {
      assert d'[RootLoc(r)] == d[RootLoc(r)] by { IntactRoot(d, r, d'); }
      RecoverIsNewest(d', r);
    } else if Recover(d').Some? {
      RecoverIsNewest(d', r');
    }
  }

  /** A slot that loads holds no root that was never written. */
  lemma RootIsReadable(s: Snapshot, y: Outcome, d: Disk)
    ensures forall r: Slot | Loads(d, r) && d[RootLoc(r)] == RootOf(s, y) :: y.Ended?
  {
  }

  lemma IntactRoot(d: Disk, r: Slot, d': Disk)
    requires Loads(d, r) && Intact(d, r, d')
    ensures d'[RootLoc(r)] == d[RootLoc(r)]
  {
  }

  /** A sync that ran to its end. */
  lemma SafeEnd(s: Snapshot, e: Event, y: Outcome, s': Snapshot)
    requires e.Sync? && y.Ended? && s'.slot == if Refused(e) then s.slot else Other(s.slot)
    requires Loads(s.st.disk, s.slot) || First(s.st.disk).None?
    requires SafeImage(s.st.disk, s.slot, RootOf(s, y), s'.st.disk)
    requires Loads(s'.st.disk, Other(s.slot)) && First(s'.st.disk) == Some(Other(s.slot))
    requires s'.st.disk[RootLoc(Other(s.slot))] == RootOf(s, y)
    requires Loads(s.st.disk, s.slot) ==> s.sequence >= s.st.disk[RootLoc(s.slot)].sequence
    ensures SafeStep(s, e, y, s')
  {
    FirstThatLoads(s'.st.disk, Other(s.slot));
  }

  /** A process that has just started: the tree that recovery finds, or a new manager. */
  method Boot(d: Disk, meta: GroupMeta) returns (m: Manager)
    requires Shape(d)
    ensures fresh(m) && Booted(d, meta, m.Snap())
    ensures m.Ready() <==> Recover(d).Some? || First(d).None?
    ensures First(d).None? ==> m.st.inuse == seq(DISK_MAX_SECTOR, _ => UNUSED)
  {
    m := new Manager.Restart(d);
    var ok := m.LoadDisk();
    if !ok {
      m.NewDisk(meta);
    } else {
      RecoverLoads(d);
    }
  }

  /** One event.  `stop` says that the counter refused the first sync that ever ended, which is
      where the manager's invariant is lost. */
  method Step(m: Manager, e: Event, meta: GroupMeta) returns (m': Manager, stop: bool, ghost y: Outcome)
    requires m.Ready()
    modifies m
    ensures m' == m || fresh(m')
    ensures Happens(old(m.Snap()), e, y, m'.Snap(), meta)
    ensures SafeStep(old(m.Snap()), e, y, m'.Snap())
    ensures m'.Ready() <==> !stop
    ensures stop ==> Refused(e) && First(old(m.st.disk)).None?
  {
    m', stop, y := m, false, Idle;
    match e {
      case Change(gs) =>
        if Possible(m.groups, gs) {
          m.ChangeGroups(gs);
        }
        SafeNothing(old(m.Snap()), e, m.Snap());
      case Sync(reseal, counterOk) =>
        m', stop, y := SyncStep(m, reseal, counterOk, meta);
      case Crash(reseal, k, torn) =>
        m', y := CrashStep(m, reseal, k, torn, meta);
    }
  }

  method CrashStep(m: Manager, reseal: bool, k: nat, torn: bool, meta: GroupMeta)
      returns (m': Manager, ghost y: Outcome)
    requires m.Ready()
    modifies m
    ensures fresh(m') && m'.Ready()
    ensures Happens(old(m.Snap()), Crash(reseal, k, torn), y, m'.Snap(), meta)
    ensures SafeStep(old(m.Snap()), Crash(reseal, k, torn), y, m'.Snap())
  {
    var d, n := m.st.disk, |m.st.log|;
    var ok;
    ok, y := m.SyncDisk(reseal, true);
    ghost var s := old(m.Snap());
    assert m.st.log[n..] == LogOf(s, reseal, y);
    var d' := Image(d, m.st.log[n..], k, torn);
    assert SafeImage(d, s.slot, RootOf(s, y), d');
    m' := Boot(d', meta);
    SafeRestart(s, Crash(reseal, k, torn), y, m'.Snap(), meta);
  }

  method SyncStep(m: Manager, reseal: bool, counterOk: bool, meta: GroupMeta)
      returns (m': Manager, stop: bool, ghost y: Outcome)
    requires m.Ready()
    modifies m
    ensures m' == m || fresh(m')
    ensures Happens(old(m.Snap()), Sync(reseal, counterOk), y, m'.Snap(), meta)
    ensures SafeStep(old(m.Snap()), Sync(reseal, counterOk), y, m'.Snap())
    ensures m'.Ready() <==> !stop
    ensures stop ==> !counterOk && First(old(m.st.disk)).None?
  {
    m', stop := m, false;
    var d, r, writes := m.st.disk, m.activeRoot, Syncable(m.groups);
    var ok;
    ok, y := m.SyncDisk(reseal, counterOk);
    ghost var s, e := old(m.Snap()), Sync(reseal, counterOk);
    ghost var log := LogOf(s, reseal, y);
    assert m.st.disk == Image(d, log, |log|, false);
    assert SafeImage(d, r, RootOf(s, y), m.st.disk);
    if !ok {
      m' := Boot(m.st.disk, meta);
      SafeRestart(s, e, y, m'.Snap(), meta);
    } else if writes {
      SafeEnd(s, e, y, m.Snap());
      stop := !counterOk && !Loads(d, r);
    } else {
      SafeNothing(s, e, m.Snap());
    }
  }

  // ----- whole runs -----

  /** The states ss of a run and what its syncs did: event i takes ss[i] to ss[i + 1]. */
  ghost predicate Trace(es: seq<Event>, ss: seq<Snapshot>, ys: seq<Outcome>, meta: GroupMeta) {
    && |ss| == |ys| + 1 <= |es| + 1
    && forall i: nat | i < |ys| :: TraceStep(ss[i], es[i], ys[i], ss[i + 1], meta)
  }

  ghost predicate TraceStep(s: Snapshot, e: Event, y: Outcome, s': Snapshot, meta: GroupMeta) {
    Good(s) && Happens(s, e, y, s', meta) && SafeStep(s, e, y, s')
  }

  /** The active slot holds a tree. */
  ghost predicate Committed(s: Snapshot) { Loads(s.st.disk, s.slot) }

  /** The sequence number of that tree. */
  ghost function Age(s: Snapshot): nat
    requires Committed(s)
  {
    s.st.disk[RootLoc(s.slot)].sequence
  }

  /** Once a tree is committed, one always is, and never an older one. */
  lemma {:induction false} CommittedForever(es: seq<Event>, ss: seq<Snapshot>, ys: seq<Outcome>, meta: GroupMeta,
      i: nat, j: nat)
    requires Trace(es, ss, ys, meta) && i <= j < |ss| && Committed(ss[i])
    ensures Committed(ss[j]) && Age(ss[j]) >= Age(ss[i])
    decreases j
  {
    hide Happens, Good, GroupsOk, First, Recover;
    if i < j {
      CommittedForever(es, ss, ys, meta, i, j - 1);
      assert TraceStep(ss[j - 1], es[j - 1], ys[j - 1], ss[j], meta);
    }
  }

  /** The root b is unreadable, or was there at the start, or was written by one of the first j events. */
  ghost predicate RootKnown(ss: seq<Snapshot>, ys: seq<Outcome>, j: nat, b: Block)
    requires |ss| == |ys| + 1 && j <= |ys|
  {
    || b.Unreadable?
    || (exists r: Slot :: b == ss[0].st.disk[RootLoc(r)])
    || (exists i: nat :: i < j && ys[i].Ended? && b == RootOf(ss[i], ys[i]))
  }

  lemma RootStep(s: Snapshot, e: Event, y: Outcome, s': Snapshot, r: Slot)
    requires SafeStep(s, e, y, s')
    ensures var b := s'.st.disk[RootLoc(r)];
      b == s.st.disk[RootLoc(r)] || (y.Ended? && b == RootOf(s, y)) || b.Unreadable?
  {
    hide Loads, First, Recover, Intact;
  }

  lemma {:induction false} RootsKnown(es: seq<Event>, ss: seq<Snapshot>, ys: seq<Outcome>, meta: GroupMeta, j: nat,
      r: Slot)
    requires Trace(es, ss, ys, meta) && j < |ss|
    ensures RootKnown(ss, ys, j, ss[j].st.disk[RootLoc(r)])
    decreases j
  {
    hide Happens, Good, SafeStep, RootOf;
    if j > 0 {
      RootsKnown(es, ss, ys, meta, j - 1, r);
      assert TraceStep(ss[j - 1], es[j - 1], ys[j - 1], ss[j], meta);
      RootStep(ss[j - 1], es[j - 1], ys[j - 1], ss[j], r);
    }
  }

  /** While no counter update is refused, recovery needs no second attempt. */
  lemma {:induction false} PreferredForever(es: seq<Event>, ss: seq<Snapshot>, ys: seq<Outcome>, meta: GroupMeta,
      j: nat)
    requires Trace(es, ss, ys, meta) && j < |ss| && FirstIsActive(ss[0])
    requires forall i | 0 <= i < j :: !Refused(es[i])
    ensures FirstIsActive(ss[j])
    decreases j
  {
    hide Happens, Good, Loads, First, Recover, Intact;
    if j > 0 {
      PreferredForever(es, ss, ys, meta, j - 1);
      assert TraceStep(ss[j - 1], es[j - 1], ys[j - 1], ss[j], meta);
    }
  }

  ghost predicate FirstIsActive(s: Snapshot) { Preferred(s.st.disk, s.slot) || First(s.st.disk).None? }

  /** What recovery finds on the device d, or 0 if it finds nothing. */
  ghost function RecoveredSequence(d: Disk): nat {
    if Recover(d).Some? then d[RootLoc(Recover(d).value)].sequence else 0
  }

  /** Recovery succeeds wherever something was committed, and never goes back behind it. */
  ghost predicate NeverOlder(ss: seq<Snapshot>) {
    forall i, j | 0 <= i <= j < |ss| && Committed(ss[i]) ::
      Recover(ss[j].st.disk).Some? && RecoveredSequence(ss[j].st.disk) >= Age(ss[i])
  }

  /** What is recovered was there at the start or was written by one of the syncs before. */
  ghost predicate RootsAreKnown(ss: seq<Snapshot>, ys: seq<Outcome>)
    requires |ss| == |ys| + 1
  {
    forall j | 0 <= j < |ss| && Recover(ss[j].st.disk).Some? ::
      RootKnown(ss, ys, j, ss[j].st.disk[RootLoc(Recover(ss[j].st.disk).value)])
  }

  /** Recovery succeeds at its first attempt, with the active slot, as long as no counter update is refused. */
  ghost predicate FirstAttempt(es: seq<Event>, ss: seq<Snapshot>)
    requires 0 < |ss| <= |es| + 1
  {
    forall j | 0 <= j < |ss| && FirstIsActive(ss[0]) && (forall i | 0 <= i < j :: !Refused(es[i])) ::
      && Recover(ss[j].st.disk) == First(ss[j].st.disk)
      && (Recover(ss[j].st.disk).Some? ==> Recover(ss[j].st.disk).value == ss[j].slot)
  }

  /**
    Every run of the manager.  `n` events take place: all of them, unless the counter refuses
    the first sync that ever ends.  ss[i] is the manager and its device after i events, and each
    event does what `Happens` and `SafeStep` say.
   */
  method Run(m0: Manager, events: seq<Event>, meta: GroupMeta)
      returns (m: Manager, n: nat, stop: bool, ghost ss: seq<Snapshot>, ghost ys: seq<Outcome>)
    requires m0.Ready()
    modifies m0
    ensures n <= |events| && |ss| == n + 1 && |ys| == n && ss[0] == old(m0.Snap()) && ss[n] == m.Snap()
    ensures Trace(events, ss, ys, meta)
    ensures !stop ==> n == |events| && m.Ready()
    ensures stop ==> n > 0 && Refused(events[n - 1]) && First(ss[n - 1].st.disk).None?
    ensures NeverOlder(ss) && RootsAreKnown(ss, ys) && FirstAttempt(events, ss)
  {
    hide Trace, Happens, SafeStep, Good, NeverOlder, RootsAreKnown, FirstAttempt, First, Manager.Valid;
    m, n, stop := m0, 0, false;
    ss, ys := [m.Snap()], [];
    TraceStart(events, ss[0], meta);
    while n < |events| && !stop
      invariant n <= |events| && |ss| == n + 1 && |ys| == n && (m == m0 || fresh(m))
      invariant Trace(events, ss, ys, meta)
      invariant ss[0] == old(m0.Snap()) && ss[n] == m.Snap()
      invariant !stop ==> m.Ready()
      invariant stop ==> n > 0 && Refused(events[n - 1]) && First(ss[n - 1].st.disk).None?
      decreases |events| - n
    {
      ghost var y;
      ReadyIsGood(m);
      m, stop, y := Step(m, events[n], meta);
      TraceNext(events, ss, ys, meta, m.Snap(), y);
      ss, ys := ss + [m.Snap()], ys + [y];
      n := n + 1;
    }
    RunIsSafe(events, ss, ys, meta);
  }

  lemma ReadyIsGood(m: Manager)
    requires m.Ready()
    ensures Good(m.Snap())
  {
  }

  lemma TraceStart(es: seq<Event>, s: Snapshot, meta: GroupMeta)
    ensures Trace(es, [s], [], meta)
  {
    hide TraceStep;
  }

  lemma TraceNext(es: seq<Event>, ss: seq<Snapshot>, ys: seq<Outcome>, meta: GroupMeta, s: Snapshot, y: Outcome)
    requires Trace(es, ss, ys, meta) && |ys| < |es| && Good(ss[|ys|]) && ss[|ys|].groups != []
    requires Happens(ss[|ys|], es[|ys|], y, s, meta) && SafeStep(ss[|ys|], es[|ys|], y, s)
    ensures Trace(es, ss + [s], ys + [y], meta)
  {
    hide TraceStep, Good, Happens, SafeStep;
    TraceStepIs(ss[|ys|], es[|ys|], y, s, meta);
  }

  lemma TraceStepIs(s: Snapshot, e: Event, y: Outcome, s': Snapshot, meta: GroupMeta)
    requires Good(s) && Happens(s, e, y, s', meta) && SafeStep(s, e, y, s')
    ensures TraceStep(s, e, y, s', meta)
  {
    hide Good, Happens, SafeStep;
  }

  lemma RunIsSafe(es: seq<Event>, ss: seq<Snapshot>, ys: seq<Outcome>, meta: GroupMeta)
    requires Trace(es, ss, ys, meta)
    ensures NeverOlder(ss) && RootsAreKnown(ss, ys) && FirstAttempt(es, ss)
  {
    assert |ss| == |ys| + 1 <= |es| + 1;
    hide Recover, First, RootKnown, GroupsOk, Trace;
    forall i, j | 0 <= i <= j < |ss| && Committed(ss[i])
      ensures Recover(ss[j].st.disk).Some? && RecoveredSequence(ss[j].st.disk) >= Age(ss[i])
    {
      CommittedForever(es, ss, ys, meta, i, j);
      RecoverIsNewest(ss[j].st.disk, ss[j].slot);
    }
    forall j | 0 <= j < |ss| && Recover(ss[j].st.disk).Some?
      ensures RootKnown(ss, ys, j, ss[j].st.disk[RootLoc(Recover(ss[j].st.disk).value)])
    {
      RootsKnown(es, ss, ys, meta, j, Recover(ss[j].st.disk).value);
    }
    forall j | 0 <= j < |ss| && FirstIsActive(ss[0]) && (forall i | 0 <= i < j :: !Refused(es[i]))
      ensures Recover(ss[j].st.disk) == First(ss[j].st.disk)
      ensures Recover(ss[j].st.disk).Some? ==> Recover(ss[j].st.disk).value == ss[j].slot
    {
      PreferredForever(es, ss, ys, meta, j);
      if First(ss[j].st.disk).None? {
        NoneFirst(ss[j].st.disk);
      } else {
        FirstThatLoads(ss[j].st.disk, ss[j].slot);
      }
    }
  }

  // ----- what a refused first sync may lead to -----

  /** The sector that holds the first group of the only root becomes unreadable. */
  lemma LostGroup(d: Disk, s: nat)
    requires Shape(d) && FIRST_DYNAMIC_SECTOR <= s < DISK_MAX_SECTOR
    requires d[RootLoc(0)].Unreadable? && d[RootLoc(1)].RootSector?
    requires d[RootLoc(1)].groups != [] && d[RootLoc(1)].groups[0].loc == s
    ensures Recover(d[s := Unreadable]).None?
  {
    assert !GroupOk(d[s := Unreadable], d[RootLoc(1)].groups[0]);
  }

  const BLANK_DISK: Disk := seq(DISK_MAX_SECTOR, _ => Unreadable)

  /** A manager on an empty device whose first sync the counter refuses: a tree is committed in
      slot 1, but the manager goes on as if slot 0 held one. */
  method RefusedFirstSync(meta: GroupMeta) returns (m: Manager, ghost s: Snapshot, ghost y: Outcome)
    requires 0 < meta.nrSeals <= NR_SEALS_PER_GROUP
    ensures fresh(m) && Booted(BLANK_DISK, meta, s) && Happens(s, Sync(false, false), y, m.Snap(), meta) && y.Ended?
    ensures m.Sane() && m.activeRoot == 0 && |m.groups| == 1
    ensures Shape(m.st.disk) && Recover(m.st.disk) == Some(1)
    ensures m.st.disk[RootLoc(0)].Unreadable? && m.st.disk[RootLoc(1)].RootSector?
    ensures var es := m.st.disk[RootLoc(1)].groups;
            && |es| == 1 && es[0].loc == FIRST_DYNAMIC_SECTOR
            && FirstFree(Flushed(m.st.inuse, 1), FIRST_DYNAMIC_SECTOR)
  {
    m := Boot(BLANK_DISK, meta);
    s := m.Snap();
    assert FirstFree(Flushed(m.st.inuse, 1), FIRST_DYNAMIC_SECTOR);
    var ok;
    ok, y := m.SyncDisk(false, false);
    ghost var log := LogOf(s, false, y);
    assert m.st.disk == Image(BLANK_DISK, log, |log|, false) && SafeImage(BLANK_DISK, 0, RootOf(s, y), m.st.disk);
  }

  /** A sync refused by the counter, a change of the group, and a sync whose first write is torn. */
  function LosingRun(meta: GroupMeta): seq<Event> {
    [Sync(false, false), Change([NewGroup(meta)]), Crash(false, 0, true)]
  }

  /** The last sync of this run flushes slot 1 and writes over the committed tree; as the first
      write is torn nothing is left. */
  method RefusedCounterLosesTree(meta: GroupMeta, meta': GroupMeta)
      returns (ghost ss: seq<Snapshot>, ghost ys: seq<Outcome>)
    requires 0 < meta.nrSeals <= NR_SEALS_PER_GROUP && 0 < meta'.nrSeals <= NR_SEALS_PER_GROUP
    ensures |ss| == 4 && |ys| == 3 && Booted(BLANK_DISK, meta, ss[0])
    ensures forall i: nat | i < 3 :: ss[i].groups != [] && Happens(ss[i], LosingRun(meta')[i], ys[i], ss[i + 1], meta)
    ensures ys[0].Ended? && Recover(ss[2].st.disk) == Some(1)
    ensures Recover(ss[3].st.disk).None?
  {
    hide Recover, Loads, Sound, Happens, Booted, FirstFree;
    var m;
    ghost var s0, s1, s2, s3, y0, y2;
    m, s0, y0 := RefusedFirstSync(meta);
    s1 := m.Snap();
    m, s2, y2 := TornSync(m, meta, meta');
    s3 := m.Snap();
    ss, ys := [s0, s1, s2, s3], [y0, Idle, y2];
    assert s0.groups != [] by { BootedGroups(BLANK_DISK, meta, s0); }
    forall i: nat | i < 3
      ensures ss[i].groups != [] && Happens(ss[i], LosingRun(meta')[i], ys[i], ss[i + 1], meta)
    {
      assert i == 0 || i == 1 || i == 2;
    }
  }

  lemma BootedGroups(d: Disk, meta: GroupMeta, s: Snapshot)
    requires Booted(d, meta, s)
    ensures s.groups != []
  {
    if Recover(d).Some? {
      assert |GroupEntries(s.groups)| == |s.groups|;
    }
  }

  /** The change and the torn sync. */
  method TornSync(m: Manager, meta: GroupMeta, meta': GroupMeta)
      returns (m': Manager, ghost s: Snapshot, ghost y: Outcome)
    requires 0 < meta'.nrSeals <= NR_SEALS_PER_GROUP
    requires m.Sane() && m.activeRoot == 0 && |m.groups| == 1
    requires Shape(m.st.disk) && m.st.disk[RootLoc(0)].Unreadable? && m.st.disk[RootLoc(1)].RootSector?
    requires var es := m.st.disk[RootLoc(1)].groups;
      && |es| == 1 && es[0].loc == FIRST_DYNAMIC_SECTOR
      && FirstFree(Flushed(m.st.inuse, 1), FIRST_DYNAMIC_SECTOR)
    modifies m
    ensures Happens(old(m.Snap()), Change([NewGroup(meta')]), Idle, s, meta) && s.st == old(m.st) && s.groups != []
    ensures Happens(s, Crash(false, 0, true), y, m'.Snap(), meta)
    ensures Recover(m'.st.disk).None?
  {
    hide Recover, Loads, Sound, Happens, Booted, FirstFree, CrashSafe, EndState, Wrote;
    var d, n := m.st.disk, |m.st.log|;
    ghost var s0 := m.Snap();
    assert Derived(m.groups[0], NewGroup(meta'));
    m.ChangeGroups([NewGroup(meta')]);
    s := m.Snap();
    ChangeHappens(s0, NewGroup(meta'), meta);
    var ok;
    ok, y := m.SyncDisk(false, true);
    ghost var log := LogOf(s, false, y);
    assert m.st.log[n..] == log;
    NotIdle(s, y);
    TornFirst(s.st, s.groups, ok, log, m.st.inuse, m.groups);
    LostGroup(d, FIRST_DYNAMIC_SECTOR);
    LostShape(d);
    m' := Boot(Image(d, m.st.log[n..], 0, true), meta);
    BootedOn(Image(d, log, 0, true), meta, m'.Snap());
    CrashHappens(s, y, m'.Snap(), meta);
  }

  lemma NotIdle(s: Snapshot, y: Outcome)
    requires s.groups != [] && Wrote(s, y) && Syncable(s.groups)
    ensures !y.Idle?
  {
  }

  lemma BootedOn(d: Disk, meta: GroupMeta, s: Snapshot)
    requires Booted(d, meta, s)
    ensures s.st.disk == d
  {
  }

  lemma LostShape(d: Disk)
    requires Shape(d)
    ensures Shape(d[FIRST_DYNAMIC_SECTOR := Unreadable])
  {
  }

  lemma TornFirst(st: Store, gs: seq<Group>, ok: bool, log: seq<Write>, u: UseMap, gs': seq<Group>)
    requires BareSync(st, gs, 1, ok, log, u, gs') && Bare(gs) && FirstFree(Flushed(st.inuse, 1), FIRST_DYNAMIC_SECTOR)
    ensures Image(st.disk, log, 0, true) == st.disk[FIRST_DYNAMIC_SECTOR := Unreadable]
  {
    LostImage(st.disk, log);
  }

  lemma LostImage(d: Disk, log: seq<Write>)
    requires log != [] && log[0].loc == FIRST_DYNAMIC_SECTOR
    ensures Image(d, log, 0, true) == d[FIRST_DYNAMIC_SECTOR := Unreadable]
  {
    assert log[..0] == [];
  }

  lemma ChangeHappens(s: Snapshot, g: Group, meta: GroupMeta)
    requires s.groups != [] && Derived(s.groups[0], g)
    ensures Happens(s, Change([g]), Idle, s.(groups := [g]), meta)
  {
  }

  lemma CrashHappens(s: Snapshot, y: Outcome, s': Snapshot, meta: GroupMeta)
    requires s.groups != [] && Wrote(s, y) && Booted(Image(s.st.disk, LogOf(s, false, y), 0, true), meta, s')
    ensures Happens(s, Crash(false, 0, true), y, s', meta)
  {
  }
}
