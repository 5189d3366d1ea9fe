/**
  The two ends of a libvchan channel (tools/libvchan/io.c) as interleaved atomic steps.  Each
  end runs one operation at a time; the memory barriers of the source give program order.
 */
module Vchan {
  import opened Common
  import opened VchanRing

  /** An operation in progress; of a write only the data still to be accepted is kept. */
  datatype Op =
    | Send(data: seq<Byte>, blocking: bool)
    | Write(data: seq<Byte>, blocking: bool)
    | Recv(size: nat, blocking: bool)
    | Read(size: nat, blocking: bool)
    | SpacePoll
    | DataPoll

  /** Operations on the ring this end writes; the others are on the ring it reads. */
  predicate Writes(op: Op) { op.Send? || op.Write? || op.SpacePoll? }

  /** libxenvchan_buffer_space and libxenvchan_data_ready, after which the caller may wait or not. */
  predicate Polls(op: Op) { op.SpacePoll? || op.DataPoll? }

  /** Where an end is.  `seen` is the peer's index as last read, `armed` whether a notification
      was requested before that read. */
  datatype Pc =
    | Idle
    | Check(op: Op)
    | Request(op: Op)
    | Reread(op: Op)
    | Decide(op: Op, avail: nat, seen: nat, armed: bool)
    | Copy(op: Op, n: nat, done: seq<Byte>, seen: nat, armed: bool)
    | Notify(op: Op, n: nat, seen: nat, armed: bool)
    | Wait(op: Op, seen: nat, armed: bool)

  /** An end: its two request bits, which the peer tests and clears, and its event channel. */
  datatype End = End(pc: Pc, wantsRead: bool, wantsWrite: bool, pending: bool)

  /** A ring with the bytes its writer has published and those its reader has taken, ever. */
  datatype Flow = Flow(buf: seq<Byte>, prod: nat, cons: nat, sent: seq<Byte>, got: seq<Byte>)

  /** The channel as seen from one end: `out` is the ring it writes. */
  datatype View = View(me: End, peer: End, out: Flow, inn: Flow)

  function Swap(v: View): View { View(v.peer, v.me, v.inn, v.out) }

  // ----- steps -----

  /** The index of the peer that an operation depends on. */
  function PeerIndex(v: View, op: Op): nat { if Writes(op) then v.out.cons else v.inn.prod }

  /** The space or data there is, by the peer's index `seen`. */
  function Avail(v: View, op: Op, seen: nat): nat {
    if Writes(op) then BufferSpace(v.out.prod, seen, |v.out.buf|) else DataReady(seen, v.inn.cons, |v.inn.buf|)
  }

  /** The amount an operation asks for. */
  function Asked(op: Op): nat {
    match op
    case Send(data, _) => |data|
    case Write(data, _) => |data|
    case Recv(size, _) => size
    case Read(size, _) => size
    case SpacePoll => 0
    case DataPoll => 0
  }

  function Limit(v: View, op: Op): nat { if Writes(op) then |v.out.buf| else |v.inn.buf| }

  function At(v: View, pc: Pc): View { v.(me := v.me.(pc := pc)) }

  /** request_notify sets a bit of this end. */
  function Requested(e: End, op: Op): End {
    if Writes(op) then e.(wantsRead := true) else e.(wantsWrite := true)
  }

  predicate Wants(e: End, op: Op) { if Writes(op) then e.wantsRead else e.wantsWrite }

  /** send_notify at the peer of `e`: the bit is fetched and cleared, and an event sent if it was set. */
  function Notified(e: End, op: Op): End {
    if Writes(op) then e.(wantsWrite := false, pending := e.pending || e.wantsWrite)
    else e.(wantsRead := false, pending := e.pending || e.wantsRead)
  }

  /** What an operation does once it knows what is available. */
  function Decided(v: View, op: Op, avail: nat, seen: nat, armed: bool): Pc {
    match op
    case Send(data, blocking) =>
      if |data| <= avail then Copy(op, |data|, [], seen, armed)
      else if !blocking || |data| > Limit(v, op) then Idle
      else Wait(op, seen, armed)
    case Write(data, blocking) =>
      var n := Min(avail, |data|);
      if n > 0 then Copy(op, n, [], seen, armed)
      else if data == [] || !blocking then Idle
      else Wait(op, seen, armed)
    case Recv(size, blocking) =>
      if size <= avail then Copy(op, size, [], seen, armed)
      else if !blocking || size > Limit(v, op) then Idle
      else Wait(op, seen, armed)
    case Read(size, blocking) =>
      if avail > 0 then Copy(op, Min(size, avail), [], seen, armed)
      else if !blocking then Idle
      else Wait(op, seen, armed)
    case SpacePoll => Wait(op, seen, armed)
    case DataPoll => Wait(op, seen, armed)
  }

  /** One byte of the copies of do_send and do_recv. */
  function Copied(v: View): View
    requires v.me.pc.Copy? && |v.me.pc.done| < v.me.pc.n && v.out.buf != [] && v.inn.buf != []
    requires Writes(v.me.pc.op) ==> !v.me.pc.op.SpacePoll? && v.me.pc.n <= |v.me.pc.op.data|
  {
    var pc := v.me.pc;
    var k := |pc.done|;
    if Writes(pc.op) then
      var buf := v.out.buf[Wrap(v.out.prod + k, |v.out.buf|) := pc.op.data[k]];
      At(v.(out := v.out.(buf := buf)), pc.(done := pc.done + [pc.op.data[k]]))
    else
      At(v, pc.(done := pc.done + [v.inn.buf[Wrap(v.inn.cons + k, |v.inn.buf|)]]))
  }

  /** The index is moved over the bytes copied. */
  function Published(v: View): View
    requires v.me.pc.Copy?
  {
    var Copy(op, n, done, seen, armed) := v.me.pc;
    var f := if Writes(op) then v.out else v.inn;
    var v' := At(v, Notify(op, n, seen, armed));
    if Writes(op) then v'.(out := f.(prod := (f.prod + n) % U32, sent := f.sent + done))
    else v'.(inn := f.(cons := (f.cons + n) % U32, got := f.got + done))
  }

  /** A blocking write goes on with the rest; everything else is finished. */
  function Finished(pc: Pc): Pc
    requires pc.Notify?
  {
    if pc.op.Write? && pc.op.blocking && pc.n < |pc.op.data| then
      Wait(Write(pc.op.data[pc.n..], true), pc.seen, pc.armed)
    else
      Idle
  }

  /** The next step of an end that is neither idle nor blocked. */
  function Advance(v: View): View
    requires StepOk(v) && !v.me.pc.Idle? && (v.me.pc.Wait? ==> v.me.pending)
  {
    match v.me.pc
    case Check(op) =>
      var seen := PeerIndex(v, op);
      var avail := Avail(v, op, seen);
      if avail >= Asked(op) then At(v, Decide(op, avail, seen, false)) else At(v, Request(op))
    case Request(op) => At(v.(me := Requested(v.me, op)), Reread(op))
    case Reread(op) => var seen := PeerIndex(v, op); At(v, Decide(op, Avail(v, op, seen), seen, true))
    case Decide(op, avail, seen, armed) => At(v, Decided(v, op, avail, seen, armed))
    case Copy(op, n, done, _, _) => if |done| < n then Copied(v) else Published(v)
    case Notify(op, _, _, _) => At(v.(peer := Notified(v.peer, op)), Finished(v.me.pc))
    case Wait(op, _, _) =>
      At(v.(me := v.me.(pending := false)), if Polls(op) then Idle else Check(op))
  }

  /** Copies are within bounds: needed for a step to be defined, and part of the invariant. */
  predicate StepOk(v: View) {
    && v.out.buf != [] && v.inn.buf != []
    && (v.me.pc.Copy? ==>
          && |v.me.pc.done| <= v.me.pc.n
          && (Writes(v.me.pc.op) ==> !v.me.pc.op.SpacePoll? && v.me.pc.n <= |v.me.pc.op.data|))
  }

  /** An end may start any operation when idle; a poll may return without waiting. */
  ghost predicate Step(v: View, v': View) {
    && StepOk(v)
    && (|| (v.me.pc.Idle? && exists op :: v' == Started(v, op))
        || (v.me.pc.Wait? && Polls(v.me.pc.op) && v' == At(v, Idle))
        || (!v.me.pc.Idle? && (v.me.pc.Wait? ==> v.me.pending) && v' == Advance(v)))
  }

  function Started(v: View, op: Op): View {
    At(v, if Polls(op) then Request(op) else Check(op))
  }

  ghost predicate Next(v: View, v': View) { Step(v, v') || Step(Swap(v), Swap(v')) }

  /** Two idle ends over empty rings; request bits and events may be left over. */
  ghost predicate Init(v: View) {
    && v.me.pc == Idle && v.peer.pc == Idle
    && EmptyFlow(v.out) && EmptyFlow(v.inn)
  }

  ghost predicate EmptyFlow(f: Flow) {
    RingSize(|f.buf|) && f.sent == [] && f.got == [] && f.prod == 0 && f.cons == 0
  }

  // ----- the invariant -----

  /** The bytes taken are a prefix of those published and the rest is the window of the ring. */
  ghost predicate FlowOk(f: Flow) {
    && RingSize(|f.buf|)
    && |f.got| <= |f.sent| <= |f.got| + |f.buf|
    && f.got == f.sent[..|f.got|]
    && f.prod == |f.sent| % U32 && f.cons == |f.got| % U32
    && Window(f, f.sent)
  }

  /** The slots of the ring hold the bytes of `sent` that have not been taken. */
  ghost predicate Window(f: Flow, sent: seq<Byte>)
    requires f.buf != []
  {
    forall i | |f.got| <= i < |sent| :: f.buf[Wrap(i, |f.buf|)] == sent[i]
  }

  /** A transfer in progress stays inside the free part of the ring, or inside the full part. */
  ghost predicate WriterOk(f: Flow, pc: Pc)
    requires f.buf != []
  {
    && (pc.Decide? && Writes(pc.op) ==> |f.sent| + pc.avail <= |f.got| + |f.buf|)
    && (pc.Copy? && Writes(pc.op) ==>
          && !pc.op.SpacePoll? && |pc.done| <= pc.n <= |pc.op.data| && pc.done == pc.op.data[..|pc.done|]
          && |f.sent| + pc.n <= |f.got| + |f.buf| && Window(f, f.sent + pc.done))
  }

  ghost predicate ReaderOk(f: Flow, pc: Pc) {
    && (pc.Decide? && !Writes(pc.op) ==> |f.got| + pc.avail <= |f.sent|)
    && (pc.Copy? && !Writes(pc.op) ==>
          && !pc.op.DataPoll? && |pc.done| <= pc.n && |f.got| + pc.n <= |f.sent|
          && pc.done == f.sent[|f.got|..|f.got| + |pc.done|])
  }

  /** Why an end waits, by the index it has seen. */
  ghost predicate Starved(v: View, op: Op, seen: nat) {
    match op
    case Send(data, _) => Avail(v, op, seen) < |data| <= Limit(v, op)
    case Write(data, _) => Avail(v, op, seen) == 0 && data != []
    case Recv(size, _) => Avail(v, op, seen) < size <= Limit(v, op)
    case Read(_, _) => Avail(v, op, seen) == 0
    case SpacePoll => true
    case DataPoll => true
  }

  /** A blocking write that could not place all its data. */
  predicate Partial(op: Op, n: nat) { op.Write? && op.blocking && n < |op.data| }

  ghost predicate PcOk(v: View) {
    match v.me.pc
    case Check(op) => !Polls(op)
    case Decide(op, avail, seen, armed) => avail == Avail(v, op, seen) && (!armed ==> avail >= Asked(op) && !Polls(op))
    case Copy(op, n, _, seen, armed) => Partial(op, n) ==> armed && Avail(v, op, seen) == n
    case Notify(op, n, seen, armed) => Partial(op, n) ==> armed && Avail(v, op, seen) == 0
    case Wait(op, seen, armed) => Starved(v, op, seen) && (armed || op == Read(0, true))
    case _ => true
  }

  /** The pc rests on an index read after a notification was requested. */
  predicate Armed(pc: Pc) { (pc.Decide? || pc.Copy? || pc.Notify? || pc.Wait?) && pc.armed }

  /** The peer has moved the index that `op` depends on and not yet sent the notification. */
  predicate AboutToNotify(peer: End, op: Op) { peer.pc.Notify? && Writes(peer.pc.op) != Writes(op) }

  ghost predicate WakeOk(v: View) {
    && (v.me.pc.Reread? ==> v.me.pending || Wants(v.me, v.me.pc.op))
    && (Armed(v.me.pc) ==> v.me.pending || StillAsking(v, v.me.pc.op, v.me.pc.seen))
  }

  ghost predicate StillAsking(v: View, op: Op, seen: nat) {
    Wants(v.me, op) && (PeerIndex(v, op) == seen || AboutToNotify(v.peer, op))
  }

  ghost predicate EndOk(v: View) {
    StepOk(v) && WriterOk(v.out, v.me.pc) && ReaderOk(v.inn, v.me.pc) && PcOk(v) && WakeOk(v)
  }

  ghost predicate Inv(v: View) {
    FlowOk(v.out) && FlowOk(v.inn) && EndOk(v) && EndOk(Swap(v))
  }

  // ----- every step keeps it -----

  /** The peer is not affected by steps that publish nothing and send no notification. */
  lemma QuietFrame(v: View, v': View)
    requires EndOk(Swap(v)) && v'.out == v.out.(buf := v'.out.buf) && v'.inn == v.inn && v'.peer == v.peer
    requires |v'.out.buf| == |v.out.buf| > 0 && v.inn.buf != [] && !v.me.pc.Notify? && !v'.me.pc.Notify?
    ensures EndOk(Swap(v'))
  {
    hide Window;
  }

  /** What an end computes from the indices is exact. */
  lemma AvailIs(v: View, op: Op)
    requires FlowOk(v.out) && FlowOk(v.inn)
    ensures Avail(v, op, PeerIndex(v, op)) ==
              if Writes(op) then |v.out.got| + |v.out.buf| - |v.out.sent| else |v.inn.sent| - |v.inn.got|
  {
    IndicesCount(|v.out.sent|, |v.out.got|, |v.out.buf|);
    IndicesCount(|v.inn.sent|, |v.inn.got|, |v.inn.buf|);
  }

  lemma ReadKeeps(v: View)
    requires Inv(v) && (v.me.pc.Check? || v.me.pc.Request? || v.me.pc.Reread?)
    ensures Inv(Advance(v))
  {
    QuietFrame(v, Advance(v));
    AvailIs(v, v.me.pc.op);
    hide FlowOk, Window, DataReady, BufferSpace, Wrap;
  }

  lemma DecideKeeps(v: View)
    requires Inv(v) && v.me.pc.Decide?
    ensures Inv(Advance(v))
  {
    QuietFrame(v, Advance(v));
    DecideEnd(v);
    hide FlowOk, EndOk;
  }

  lemma DecideEnd(v: View)
    requires EndOk(v) && v.me.pc.Decide? && Window(v.out, v.out.sent)
    ensures EndOk(Advance(v))
  {
    hide Window, DataReady, BufferSpace, Wrap;
    var Decide(op, avail, seen, armed) := v.me.pc;
    var v' := Advance(v);
    if v'.me.pc.Copy? {
      assert v.out.sent + [] == v.out.sent;
    }
  }

  lemma WakeKeeps(v: View)
    requires Inv(v) && v.me.pc.Wait? && v.me.pending
    ensures Inv(Advance(v))
  {
    QuietFrame(v, Advance(v));
  }

  lemma NotifyOwn(v: View)
    requires EndOk(v) && v.me.pc.Notify?
    ensures EndOk(Advance(v))
  {
    hide Window, DataReady, BufferSpace, Wrap;
  }

  /** A peer that rests on an index read before now has a notification pending. */
  lemma NotifyPeer(v: View)
    requires EndOk(Swap(v)) && v.me.pc.Notify?
    ensures EndOk(Swap(Advance(v)))
  {
    hide Window, DataReady, BufferSpace, Wrap;
  }

  lemma NotifyKeeps(v: View)
    requires Inv(v) && v.me.pc.Notify?
    ensures Inv(Advance(v))
  {
    NotifyOwn(v);
    NotifyPeer(v);
    hide FlowOk, EndOk;
  }

  lemma StartKeeps(v: View, op: Op)
    requires Inv(v) && v.me.pc.Idle?
    ensures Inv(Started(v, op))
  {
    QuietFrame(v, Started(v, op));
  }

  // ----- copies -----

  /** A byte stored in the free part of the ring extends the window and leaves the rest of it alone. */
  lemma StoreByte(f: Flow, done: seq<Byte>, b: Byte)
    requires FlowOk(f) && Window(f, f.sent + done) && |f.sent| + |done| < |f.got| + |f.buf|
    ensures var f' := f.(buf := f.buf[Wrap(f.prod + |done|, |f.buf|) := b]);
            FlowOk(f') && Window(f', f.sent + (done + [b]))
  {
    var n, at, all := |f.buf|, |f.sent| + |done|, f.sent + (done + [b]);
    WrapMove(|f.sent|, |done|, n);
    var buf := f.buf[Wrap(at, n) := b];
    assert all[..at] == f.sent + done;
    forall i | |f.got| <= i <= at ensures buf[Wrap(i, n)] == all[i] {
      if i < at {
        if Wrap(i, n) == Wrap(at, n) {
          WrapInjective(i, at, n);
        }
        assert all[i] == all[..at][i];
      }
    }
    hide Wrap;
    forall i | |f.got| <= i < |f.sent| ensures buf[Wrap(i, n)] == f.sent[i] {
      assert all[i] == f.sent[i];
    }
  }

  lemma CopyOutKeeps(v: View)
    requires Inv(v) && v.me.pc.Copy? && |v.me.pc.done| < v.me.pc.n && Writes(v.me.pc.op)
    ensures Inv(Advance(v))
  {
    var pc := v.me.pc;
    StoreByte(v.out, pc.done, pc.op.data[|pc.done|]);
    QuietFrame(v, Advance(v));
    hide FlowOk, Window, Wrap, DataReady, BufferSpace;
  }

  lemma CopyInKeeps(v: View)
    requires Inv(v) && v.me.pc.Copy? && |v.me.pc.done| < v.me.pc.n && !Writes(v.me.pc.op)
    ensures Inv(Advance(v))
  {
    var pc, f := v.me.pc, v.inn;
    assert f.buf[Wrap(f.cons + |pc.done|, |f.buf|)] == f.sent[|f.got| + |pc.done|] by {
      WrapMove(|f.got|, |pc.done|, |f.buf|);
    }
    QuietFrame(v, Advance(v));
    hide FlowOk, Window, Wrap, DataReady, BufferSpace;
  }

  /** Publishing what has been stored. */
  lemma PublishFlow(f: Flow, pc: Pc)
    requires FlowOk(f) && WriterOk(f, pc) && pc.Copy? && Writes(pc.op) && |pc.done| == pc.n
    ensures FlowOk(f.(prod := (f.prod + pc.n) % U32, sent := f.sent + pc.done))
  {
    IndexMove(|f.sent|, pc.n);
    hide Wrap, RingSize;
    assert (f.sent + pc.done)[..|f.got|] == f.sent[..|f.got|];
  }

  lemma PublishOutPeer(v: View)
    requires Inv(v) && v.me.pc.Copy? && |v.me.pc.done| == v.me.pc.n && Writes(v.me.pc.op)
    ensures EndOk(Swap(Advance(v)))
  {
    var pc, f := v.me.pc, v.out;
    if v.peer.pc.Copy? && !Writes(v.peer.pc.op) {
      var to := |f.got| + |v.peer.pc.done|;
      assert (f.sent + pc.done)[|f.got|..to] == f.sent[|f.got|..to];
    }
    hide FlowOk, Window, DataReady, BufferSpace, Wrap;
  }

  lemma PublishOutKeeps(v: View)
    requires Inv(v) && v.me.pc.Copy? && |v.me.pc.done| == v.me.pc.n && Writes(v.me.pc.op)
    ensures Inv(Advance(v))
  {
    var pc, f := v.me.pc, v.out;
    PublishFlow(f, pc);
    PublishOutPeer(v);
    if Partial(pc.op, pc.n) {
      FilledUp(f.prod, pc.seen, |f.buf|, pc.n);
    }
    hide FlowOk, Window, DataReady, BufferSpace, Wrap;
  }

  /** Taking what has been copied. */
  lemma TakeFlow(f: Flow, pc: Pc)
    requires FlowOk(f) && ReaderOk(f, pc) && pc.Copy? && !Writes(pc.op) && |pc.done| == pc.n
    ensures FlowOk(f.(cons := (f.cons + pc.n) % U32, got := f.got + pc.done))
  {
    IndexMove(|f.got|, pc.n);
    hide Wrap, RingSize;
    assert f.sent[..|f.got|] + f.sent[|f.got|..|f.got| + pc.n] == f.sent[..|f.got| + pc.n];
  }

  lemma PublishInKeeps(v: View)
    requires Inv(v) && v.me.pc.Copy? && |v.me.pc.done| == v.me.pc.n && !Writes(v.me.pc.op)
    ensures Inv(Advance(v))
  {
    var pc, f := v.me.pc, v.inn;
    TakeFlow(f, pc);
    hide FlowOk, DataReady, BufferSpace, Wrap;
  }

  // ----- every run -----

  lemma StepKeeps(v: View, v': View)
    requires Inv(v) && Step(v, v')
    ensures Inv(v')
  {
    hide Inv;
    if v.me.pc.Idle? {
      var op :| v' == Started(v, op);
      StartKeeps(v, op);
    } else if v.me.pc.Wait? && v' == At(v, Idle) {
      PollReturns(v);
    } else if v.me.pc.Copy? {
      if |v.me.pc.done| < v.me.pc.n {
        if Writes(v.me.pc.op) { CopyOutKeeps(v); } else { CopyInKeeps(v); }
      } else {
        CopyDone(v);
        if Writes(v.me.pc.op) { PublishOutKeeps(v); } else { PublishInKeeps(v); }
      }
    } else if v.me.pc.Notify? {
      NotifyKeeps(v);
    } else if v.me.pc.Decide? {
      DecideKeeps(v);
    } else if v.me.pc.Wait? {
      WakeKeeps(v);
    } else {
      ReadKeeps(v);
    }
  }

  lemma CopyDone(v: View)
    requires Inv(v) && v.me.pc.Copy? && |v.me.pc.done| >= v.me.pc.n
    ensures |v.me.pc.done| == v.me.pc.n
  {
  }

  lemma PollReturns(v: View)
    requires Inv(v) && v.me.pc.Wait?
    ensures Inv(At(v, Idle))
  {
    QuietFrame(v, At(v, Idle));
  }

  /** A run of the channel: any interleaving of the steps of the two ends. */
  ghost predicate Run(t: seq<View>) {
    t != [] && Init(t[0]) && forall i | 0 < i < |t| :: Next(t[i - 1], t[i])
  }

  lemma {:induction false} RunKeeps(t: seq<View>, k: nat)
    requires Run(t) && k < |t|
    ensures Inv(t[k])
  {
    if k > 0 {
      RunKeeps(t, k - 1);
      var v, v' := t[k - 1], t[k];
      hide FlowOk, EndOk, Init, Step;
      assert Next(v, v');
      if Step(v, v') {
        StepKeeps(v, v');
      } else {
        assert Inv(Swap(v));
        StepKeeps(Swap(v), Swap(v'));
      }
    }
  }

  // ----- what a run guarantees -----

  /** What is published is the data of the operation, in order. */
  lemma PublishesData(v: View)
    requires Inv(v) && v.me.pc.Copy? && |v.me.pc.done| == v.me.pc.n && Writes(v.me.pc.op)
    ensures Advance(v).out.sent == v.out.sent + v.me.pc.op.data[..v.me.pc.n]
  {
  }

  /** The bytes in flight, as they stand in the ring from the reader's index on. */
  function InFlight(f: Flow): seq<Byte>
    requires f.buf != [] && |f.got| <= |f.sent|
  {
    Take(f.buf, f.cons, |f.sent| - |f.got|)
  }

  lemma FlowIsFifo(f: Flow)
    requires FlowOk(f)
    ensures f.sent == f.got + InFlight(f) && |InFlight(f)| <= |f.buf|
  {
    forall j | 0 <= j < |f.sent| - |f.got| ensures InFlight(f)[j] == f.sent[|f.got| + j] {
      WrapMove(|f.got|, j, |f.buf|);
    }
  }

  /**
    The channel is a pair of bounded queues.  In every run the bytes delivered are a prefix of
    those accepted, and the rest is exactly the window of the ring, never longer than the ring.
   */
  lemma Fifo(t: seq<View>, k: nat, f: Flow)
    requires Run(t) && k < |t| && (f == t[k].out || f == t[k].inn)
    ensures f.buf != [] && |f.got| <= |f.sent| && f.sent == f.got + InFlight(f) && |InFlight(f)| <= |f.buf|
  {
    RunKeeps(t, k);
    FlowIsFifo(f);
  }

  /** Nothing that has been accepted or delivered is ever taken back. */
  lemma {:induction false} HistoryGrows(t: seq<View>, j: nat, k: nat)
    requires Run(t) && j <= k < |t|
    ensures t[j].out.sent <= t[k].out.sent && t[j].out.got <= t[k].out.got
    ensures t[j].inn.sent <= t[k].inn.sent && t[j].inn.got <= t[k].inn.got
    decreases k
  {
    if j < k {
      HistoryGrows(t, j, k - 1);
      assert Next(t[k - 1], t[k]);
    }
  }

  /** The channel as one of its two ends sees it at some point of a run. */
  ghost predicate Occurs(t: seq<View>, k: nat, v: View) {
    Run(t) && k < |t| && (v == t[k] || v == Swap(t[k]))
  }

  lemma OccursKeeps(t: seq<View>, k: nat, v: View)
    requires Occurs(t, k, v)
    ensures Inv(v)
  {
    RunKeeps(t, k);
  }

  /** An end blocked in `op` with no event pending has its request standing, and the index it
      last read is current unless the peer is just about to notify it. */
  ghost predicate WakeupKept(v: View, op: Op) {
    v.me.pc.Wait? && v.me.pc.op == op && !v.me.pending ==> StillAsking(v, op, v.me.pc.seen)
  }

  lemma NoLostWakeup(t: seq<View>, k: nat, v: View, op: Op)
    requires Occurs(t, k, v) && op != Read(0, true)
    ensures WakeupKept(v, op)
  {
    OccursKeeps(t, k, v);
  }

  /** An end that is blocked, with no event pending or about to be sent, really lacks what it waits for. */
  lemma BlockedForCause(t: seq<View>, k: nat, v: View)
    requires Occurs(t, k, v) && v.me.pc.Wait? && v.me.pc.op != Read(0, true)
    requires !v.me.pending && !AboutToNotify(v.peer, v.me.pc.op)
    ensures match v.me.pc.op
            case Send(data, _) => |v.out.got| + |v.out.buf| - |v.out.sent| < |data| <= |v.out.buf|
            case Write(data, _) => |v.out.sent| == |v.out.got| + |v.out.buf| && data != []
            case Recv(size, _) => |v.inn.sent| - |v.inn.got| < size <= |v.inn.buf|
            case Read(_, _) => v.inn.sent == v.inn.got
            case SpacePoll => true
            case DataPoll => true
  {
    OccursKeeps(t, k, v);
    AvailIs(v, v.me.pc.op);
    FlowIsFifo(v.inn);
    hide DataReady, BufferSpace, Wrap;
  }

  /** A stream never deadlocks: its writer and its reader are never both blocked with no event pending. */
  lemma StreamProgress(t: seq<View>, k: nat, v: View)
    requires Occurs(t, k, v) && v.me.pc.Wait? && v.peer.pc.Wait?
    requires v.me.pc.op.Write? && v.peer.pc.op.Read? && v.peer.pc.op.size > 0
    ensures v.me.pending || v.peer.pending
  {
    if !v.me.pending && !v.peer.pending {
      BlockedForCause(t, k, v);
      BlockedForCause(t, k, Swap(v));
      OccursKeeps(t, k, v);
    }
  }

  // ----- the exception -----

  lemma Extend(t: seq<View>, v: View) returns (t': seq<View>)
    requires Run(t) && Next(t[|t| - 1], v)
    ensures t' == t + [v] && Run(t')
  {
    t' := t + [v];
    forall i | 0 < i < |t'| ensures Next(t'[i - 1], t'[i]) {
      if i < |t| {
        assert t'[i - 1] == t[i - 1] && t'[i] == t[i];
      }
    }
  }

  /** One end takes its next step. */
  lemma Proceed(t: seq<View>, v: View) returns (t': seq<View>, v': View)
    requires Run(t) && (v == t[|t| - 1] || v == Swap(t[|t| - 1])) && StepOk(v)
    requires !v.me.pc.Idle? && (v.me.pc.Wait? ==> v.me.pending)
    ensures Run(t') && v' == Advance(v) && t <= t' && |t'| == |t| + 1 && (t'[|t|] == v' || t'[|t|] == Swap(v'))
  {
    v' := Advance(v);
    assert Step(v, v');
    if v == t[|t| - 1] {
      t' := Extend(t, v');
    } else {
      t' := Extend(t, Swap(v'));
    }
  }

  lemma Begin(t: seq<View>, v: View, op: Op) returns (t': seq<View>, v': View)
    requires Run(t) && (v == t[|t| - 1] || v == Swap(t[|t| - 1])) && StepOk(v) && v.me.pc.Idle?
    ensures Run(t') && v' == Started(v, op) && t <= t' && |t'| == |t| + 1 && (t'[|t|] == v' || t'[|t|] == Swap(v'))
  {
    v' := Started(v, op);
    assert Step(v, v');
    if v == t[|t| - 1] {
      t' := Extend(t, v');
    } else {
      t' := Extend(t, Swap(v'));
    }
  }

  /** A channel with rings of these sizes, contents aside, on which nothing has happened. */
  ghost predicate Opened(v: View, m: nat, n: nat) { Init(v) && |v.out.buf| == m && |v.inn.buf| == n }

  /** A blocking read of no bytes on an empty ring, of whatever size, waits without having asked to
      be notified: a byte sent to it afterwards raises no event. */
  lemma ZeroReadStalls(m: nat, n: nat) returns (t: seq<View>, v: View)
    requires RingSize(m) && RingSize(n)
    ensures t != [] && Opened(t[0], m, n) && Occurs(t, |t| - 1, v)
    ensures v.me.pc == Wait(Read(0, true), 0, false) && v.peer.pc.Idle?
    ensures !v.me.pending && !v.me.wantsWrite && v.inn.sent != v.inn.got
  {
    var e := End(Idle, false, false, false);
    v := View(e, e, Flow(seq(m, _ => 0), 0, 0, [], []), Flow(seq(n, _ => 0), 0, 0, [], []));
    t := [v];
    assert Run(t);
    hide Run, Wrap, RingSize;
    EmptyRing(n);
    t, v := Begin(t, v, Read(0, true));
    t, v := Proceed(t, v);
    assert v.me.pc == Decide(Read(0, true), 0, 0, false);
    t, v := Proceed(t, v);
    v := Swap(v);
    t, v := SendByte(t, v, 1);
    v := Swap(v);
  }

  lemma EmptyRing(n: nat)
    requires RingSize(n)
    ensures n > 0 && DataReady(0, 0, n) == 0 && BufferSpace(0, 0, n) == n && Wrap(0, n) == 0
  {
  }

  /** A byte is sent to a peer that has requested nothing. */
  lemma SendByte(t: seq<View>, v: View, b: Byte) returns (t': seq<View>, v': View)
    requires Run(t) && (v == t[|t| - 1] || v == Swap(t[|t| - 1])) && v.me.pc.Idle?
    requires RingSize(|v.out.buf|) && v.out == Flow(v.out.buf, 0, 0, [], [])
    requires v.inn.buf != [] && !v.peer.wantsWrite && !v.peer.pending
    ensures Run(t') && t <= t' && (v' == t'[|t'| - 1] || v' == Swap(t'[|t'| - 1]))
    ensures v'.me.pc.Idle? && v'.peer == v.peer && v'.out.sent == [b] && v'.out.got == []
  {
    hide Run, DataReady, BufferSpace, Wrap, RingSize;
    EmptyRing(|v.out.buf|);
    t', v' := Begin(t, v, Send([b], true));
    t', v' := Proceed(t', v');
    assert v'.me.pc == Decide(Send([b], true), |v.out.buf|, 0, false);
    t', v' := Proceed(t', v');
    t', v' := CopyByte(t', v', b);
  }

  /** The same from where the space has been seen. */
  lemma CopyByte(t: seq<View>, v: View, b: Byte) returns (t': seq<View>, v': View)
    requires Run(t) && (v == t[|t| - 1] || v == Swap(t[|t| - 1])) && v.me.pc == Copy(Send([b], true), 1, [], 0, false)
    requires RingSize(|v.out.buf|) && v.out == Flow(v.out.buf, 0, 0, [], [])
    requires v.inn.buf != [] && !v.peer.wantsWrite && !v.peer.pending
    ensures Run(t') && t <= t' && (v' == t'[|t'| - 1] || v' == Swap(t'[|t'| - 1]))
    ensures v'.me.pc.Idle? && v'.peer == v.peer && v'.out.sent == [b] && v'.out.got == []
  {
    hide Run, DataReady, BufferSpace, Wrap, RingSize;
    EmptyRing(|v.out.buf|);
    t', v' := Proceed(t, v);
    assert v'.me.pc == Copy(Send([b], true), 1, [b], 0, false);
    t', v' := Proceed(t', v');
    t', v' := Proceed(t', v');
  }

  /** Whatever the sizes of the rings, an operation never loses a wakeup, in any run, exactly if it
      is not a blocking read of no bytes. */
  lemma NoLostWakeupIff(op: Op, m: nat, n: nat)
    requires RingSize(m) && RingSize(n)
    ensures (forall t, k: nat, v | Occurs(t, k, v) && Opened(t[0], m, n) :: WakeupKept(v, op)) <==> op != Read(0, true)
  {
    if op == Read(0, true) {
      var t, v := ZeroReadStalls(m, n);
      assert Occurs(t, |t| - 1, v) && !WakeupKept(v, op);
    } else {
      forall t, k: nat, v | Occurs(t, k, v) ensures WakeupKept(v, op) {
        NoLostWakeup(t, k, v, op);
      }
    }
  }

  // ----- the copies of the step machine and those of the ring -----

  /** All the remaining copy steps of one end, with nothing in between. */
  function CopyAll(v: View): View
    requires StepOk(v) && v.me.pc.Copy?
    decreases v.me.pc.n - |v.me.pc.done|
  {
    if |v.me.pc.done| < v.me.pc.n then CopyAll(Copied(v)) else v
  }

  /** Byte by byte or in two pieces, do_send stores the same. */
  lemma {:induction false} CopyAllIsPut(v: View)
    requires StepOk(v) && v.me.pc.Copy? && Writes(v.me.pc.op)
    ensures var pc := v.me.pc;
            CopyAll(v).out == v.out.(buf := Put(v.out.buf, v.out.prod + |pc.done|, pc.op.data[|pc.done|..pc.n]))
    decreases v.me.pc.n - |v.me.pc.done|
  {
    var pc := v.me.pc;
    hide Wrap;
    if |pc.done| < pc.n {
      assert pc.op.data[|pc.done|..pc.n][1..] == pc.op.data[|pc.done| + 1..pc.n];
      CopyAllIsPut(Copied(v));
    }
  }

  /** And do_recv reads the same. */
  lemma {:induction false} CopyAllIsTake(v: View)
    requires StepOk(v) && v.me.pc.Copy? && !Writes(v.me.pc.op)
    ensures CopyAll(v).me.pc.Copy?
    ensures var pc := v.me.pc;
            CopyAll(v).me.pc.done == pc.done + Take(v.inn.buf, v.inn.cons + |pc.done|, pc.n - |pc.done|)
    decreases v.me.pc.n - |v.me.pc.done|
  {
    var pc := v.me.pc;
    hide Wrap;
    if |pc.done| < pc.n {
      CopyAllIsTake(Copied(v));
      var at := v.inn.cons + |pc.done|;
      var rest := Take(v.inn.buf, at + 1, pc.n - |pc.done| - 1);
      assert Take(v.inn.buf, at, pc.n - |pc.done|) == [v.inn.buf[Wrap(at, |v.inn.buf|)]] + rest;
    }
  }
}
