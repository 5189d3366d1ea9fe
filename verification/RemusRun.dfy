/**
  The two ends of a Remus checkpoint stream put together: the sender that buffers the dirty
  pages and flushes them (tools/libxc/xc_domain_save.c), the receiver that collects the
  compressed chunks and decodes each page over its copy (tools/libxc/xc_domain_restore.c).
 */
module RemusRun {
  import opened Common
  import opened PageDelta
  import opened DeltaCache
  import opened Remus

  // ----- what a stream carries -----

  /** Wherever the codes stand in a buffer, the receiver with memory mem decodes the pages es from them. */
  ghost predicate Carries(codes: seq<seq<Byte>>, mem: Memory, es: seq<Send>) {
    && InRange(es, |mem|)
    && forall buf: seq<Byte>, pos: nat | StandsAt(buf, pos, codes) :: CarriesAt(buf, pos, codes, mem, es)
  }

  ghost predicate CarriesAt(buf: seq<Byte>, pos: nat, codes: seq<seq<Byte>>, mem: Memory, es: seq<Send>)
    requires InRange(es, |mem|)
  {
    Decodes(buf, pos, mem, es, pos + |Concat(codes)|, Deliver(mem, es))
  }

  /** The receiver decodes the pages es from pos to next and then has the memory mem'. */
  ghost predicate Decodes(buf: seq<Byte>, pos: nat, mem: Memory, es: seq<Send>, next: nat, mem': Memory) {
    InRange(es, |mem|) && Receive(buf, pos, mem, es) == Some(Received(next, mem'))
  }

  /** For every receiver that mirrors the cache s the codes carry the pages es, and the receiver then mirrors t. */
  ghost predicate Transfers(s: seq<Slot>, es: seq<Send>, codes: seq<seq<Byte>>, t: seq<Slot>, size: nat) {
    forall mem: Memory | |mem| == size && Mirrors(s, mem) :: Carries(codes, mem, es) && Mirrors(t, Deliver(mem, es))
  }

  lemma {:induction false} ConcatConcat(a: seq<seq<Byte>>, b: seq<seq<Byte>>)
    ensures Concat(a + b) == Concat(a) + Concat(b)
  {
    if a == [] {
      assert a + b == b;
    } else {
      assert (a + b)[1..] == a[1..] + b;
      ConcatConcat(a[1..], b);
    }
  }

  lemma ConcatLength(a: seq<seq<Byte>>, b: seq<seq<Byte>>)
    ensures |Concat(a + b)| == |Concat(a)| + |Concat(b)|
  {
    ConcatConcat(a, b);
  }

  lemma StandsSplit(buf: seq<Byte>, pos: nat, a: seq<seq<Byte>>, b: seq<seq<Byte>>)
    requires StandsAt(buf, pos, a + b)
    ensures StandsAt(buf, pos, a) && StandsAt(buf, pos + |Concat(a)|, b)
  {
    ConcatConcat(a, b);
    hide Concat;
    var x, y := Concat(a), Concat(b);
    SubSlice(buf, pos, x + y, 0, |x|);
    SubSlice(buf, pos, x + y, |x|, |x + y|);
    assert (x + y)[0..|x|] == x && (x + y)[|x|..|x + y|] == y;
  }

  lemma {:induction false} DeliverConcat(mem: Memory, a: seq<Send>, b: seq<Send>)
    requires InRange(a, |mem|) && InRange(b, |mem|)
    ensures InRange(a + b, |mem|) && Deliver(mem, a + b) == Deliver(Deliver(mem, a), b)
    decreases |a|
  {
    if a == [] {
      assert a + b == b;
    } else {
      assert (a + b)[1..] == a[1..] + b;
      DeliverConcat(mem[a[0].pfn := a[0].page], a[1..], b);
    }
  }

  lemma {:induction false} DecodeConcat(buf: seq<Byte>, pos: nat, mem: Memory, p: seq<nat>, q: seq<nat>)
    requires (forall i | 0 <= i < |p| :: p[i] < |mem|) && (forall i | 0 <= i < |q| :: q[i] < |mem|)
    requires DecodeAll(buf, pos, mem, p).Some?
    ensures var r := DecodeAll(buf, pos, mem, p).value;
            |r.mem| == |mem| && DecodeAll(buf, pos, mem, p + q) == DecodeAll(buf, r.pos, r.mem, q)
    decreases |p|
  {
    if p == [] {
      assert p + q == q;
    } else {
      assert (p + q)[1..] == p[1..] + q && (p + q)[0] == p[0];
      var d := DecodePage(buf, pos, mem[p[0]]).value;
      DecodeConcat(buf, d.pos, mem[p[0] := d.page], p[1..], q);
    }
  }

  lemma DecodesJoin(buf: seq<Byte>, pos: nat, mem: Memory, a: seq<Send>, mid: nat, mem1: Memory, b: seq<Send>,
      end: nat, mem2: Memory)
    requires Decodes(buf, pos, mem, a, mid, mem1) && Decodes(buf, mid, mem1, b, end, mem2) && InRange(b, |mem|)
    ensures Decodes(buf, pos, mem, a + b, end, mem2)
  {
    assert Pfns(a + b) == Pfns(a) + Pfns(b);
    DecodeConcat(buf, pos, mem, Pfns(a), Pfns(b));
  }

  lemma CarriesJoinAt(buf: seq<Byte>, pos: nat, c: seq<seq<Byte>>, d: seq<seq<Byte>>, mem: Memory, a: seq<Send>,
      b: seq<Send>)
    requires InRange(a, |mem|) && InRange(b, |mem|)
    requires CarriesAt(buf, pos, c, mem, a) && CarriesAt(buf, pos + |Concat(c)|, d, Deliver(mem, a), b)
    ensures InRange(a + b, |mem|) && CarriesAt(buf, pos, c + d, mem, a + b)
  {
    hide Deliver, Concat, Decodes, InRange;
    var mem1 := Deliver(mem, a);
    var mid := pos + |Concat(c)|;
    var end := mid + |Concat(d)|;
    DecodesJoin(buf, pos, mem, a, mid, mem1, b, end, Deliver(mem1, b));
    DeliverConcat(mem, a, b);
    ConcatLength(c, d);
  }

  lemma CarriesJoin(c: seq<seq<Byte>>, d: seq<seq<Byte>>, mem: Memory, a: seq<Send>, b: seq<Send>)
    requires Carries(c, mem, a) && Carries(d, Deliver(mem, a), b)
    ensures Carries(c + d, mem, a + b)
  {
    DeliverConcat(mem, a, b);
    hide StandsAt, CarriesAt, Deliver, Concat, InRange;
    forall buf: seq<Byte>, pos: nat | StandsAt(buf, pos, c + d) ensures CarriesAt(buf, pos, c + d, mem, a + b) {
      StandsSplit(buf, pos, c, d);
      CarriesJoinAt(buf, pos, c, d, mem, a, b);
    }
  }

  lemma TransfersJoin(s: seq<Slot>, a: seq<Send>, c: seq<seq<Byte>>, t: seq<Slot>, b: seq<Send>, d: seq<seq<Byte>>,
      u: seq<Slot>,
      size: nat)
    requires Transfers(s, a, c, t, size) && Transfers(t, b, d, u, size)
    ensures Transfers(s, a + b, c + d, u, size)
  {
    forall mem: Memory | |mem| == size && Mirrors(s, mem)
      ensures Carries(c + d, mem, a + b) && Mirrors(u, Deliver(mem, a + b))
    {
      assert Carries(c, mem, a) && Mirrors(t, Deliver(mem, a));
      CarriesJoin(c, d, mem, a, b);
      DeliverConcat(mem, a, b);
    }
  }

  lemma BatchCarriesAt(t: seq<Slot>, mem: Memory, es: seq<Send>, codes: seq<seq<Byte>>, buf: seq<Byte>, pos: nat)
    requires t != [] && Mirrors(t, mem) && RawInvalid(t, es) && InRange(es, |mem|)
    requires CodesOk(t, es, codes) && StandsAt(buf, pos, codes)
    ensures CarriesAt(buf, pos, codes, mem, es)
  {
    hide Mirrors, RawInvalid, InRange, CodesOk, StandsAt, Concat, Deliver, Arrives, Receive, AfterAll;
    CodesLength(t, es, codes);
    BatchArrives(t, mem, es, codes, buf, pos);
    ArrivesIsReceived(buf, pos, mem, es, codes);
  }

  lemma BatchCarries(t: seq<Slot>, mem: Memory, es: seq<Send>, codes: seq<seq<Byte>>)
    requires t != [] && Mirrors(t, mem) && RawInvalid(t, es) && InRange(es, |mem|) && CodesOk(t, es, codes)
    ensures Carries(codes, mem, es)
  {
    hide Mirrors, RawInvalid, InRange, CodesOk, StandsAt, CarriesAt;
    forall buf: seq<Byte>, pos: nat | StandsAt(buf, pos, codes) ensures CarriesAt(buf, pos, codes, mem, es) {
      BatchCarriesAt(t, mem, es, codes, buf, pos);
    }
  }

  /** One buffer full of pages, encoded against the cache that adding them left. */
  lemma BatchTransfers(s: seq<Slot>, es: seq<Send>, codes: seq<seq<Byte>>, size: nat)
    requires Orderly(es) && InRange(es, size) && AfterAdd(s, es) != [] && CodesOk(AfterAdd(s, es), es, codes)
    ensures Transfers(s, es, codes, AfterBatch(s, es), size)
  {
    hide Orderly, InRange, CodesOk, AfterAdd, AfterAll, SlotsOk, Agree, Carries, Deliver;
    var t := AfterAdd(s, es);
    forall mem: Memory | |mem| == size && Mirrors(s, mem)
      ensures Carries(codes, mem, es) && Mirrors(AfterBatch(s, es), Deliver(mem, es))
    {
      AddKeepsAgreement(s, mem, es);
      OrderlyIsRawInvalid(t, es);
      BatchDecodes(t, mem, es, codes);
      BatchCarries(t, mem, es, codes);
    }
  }

  // ----- whole runs -----

  /** A buffer full of pages, the cache before they were added, the calls that emit them and the
      space that each call was given. */
  datatype Batch = Batch(before: seq<Slot>, sends: seq<Send>, calls: seq<Call>, room: nat -> nat)

  ghost predicate BatchOk(b: Batch, t: seq<Slot>) {
    && |b.sends| <= NR_BUFFER_PAGES && AfterAdd(b.before, b.sends) != []
    && Chain(AfterAdd(b.before, b.sends), b.sends, b.calls, |b.sends|, t)
    && Spaced(b.sends, b.calls, b.room)
  }

  /** Call i was given room(i) bytes and refused a page only for want of space. */
  ghost predicate Spaced(es: seq<Send>, cs: seq<Call>, room: nat -> nat) {
    forall i: nat | i < |cs| :: CallOk(es, cs[i]) && SpacedCall(es, cs[i], room(i))
  }

  ghost predicate SpacedCall(es: seq<Send>, c: Call, space: nat)
    requires CallOk(es, c)
  {
    && |Concat(c.codes)| <= space
    && (c.to < |es| ==> |Concat(c.codes)| + Needed(Reached(es, c), es[c.to]) > space)
  }

  /** The batches bs take the cache from s to t. */
  ghost predicate Flushes(s: seq<Slot>, bs: seq<Batch>, t: seq<Slot>)
    decreases |bs|
  {
    if bs == [] then t == s
    else BatchOk(bs[|bs| - 1], t) && Flushes(s, bs[..|bs| - 1], bs[|bs| - 1].before)
  }

  ghost function Pages(bs: seq<Batch>): seq<Send> {
    if bs == [] then [] else Pages(bs[..|bs| - 1]) + bs[|bs| - 1].sends
  }

  ghost function Codes(bs: seq<Batch>): seq<seq<Byte>> {
    if bs == [] then [] else Codes(bs[..|bs| - 1]) + AllCodes(bs[|bs| - 1].calls)
  }

  lemma {:induction false} FlushesConcat(s: seq<Slot>, a: seq<Batch>, u: seq<Slot>, b: seq<Batch>, t: seq<Slot>)
    requires Flushes(s, a, u) && Flushes(u, b, t)
    ensures Flushes(s, a + b, t)
    decreases |b|
  {
    hide BatchOk;
    if b == [] {
      assert a + b == a;
    } else {
      var init, last := b[..|b| - 1], b[|b| - 1];
      assert (a + b)[..|a + b| - 1] == a + init && (a + b)[|a + b| - 1] == last;
      FlushesConcat(s, a, u, init, last.before);
    }
  }

  lemma {:induction false} PagesConcat(a: seq<Batch>, b: seq<Batch>)
    ensures Pages(a + b) == Pages(a) + Pages(b)
    decreases |b|
  {
    if b == [] {
      assert a + b == a;
    } else {
      var init, last := b[..|b| - 1], b[|b| - 1];
      assert (a + b)[..|a + b| - 1] == a + init && (a + b)[|a + b| - 1] == last;
      PagesConcat(a, init);
      assert Pages(a) + (Pages(init) + last.sends) == (Pages(a) + Pages(init)) + last.sends;
    }
  }

  /** Every batch was given one of these spaces. */
  ghost predicate InRooms(bs: seq<Batch>, rooms: iset<nat -> nat>) {
    forall i | 0 <= i < |bs| :: bs[i].room in rooms
  }

  lemma InRoomsNext(bs: seq<Batch>, b: Batch, rooms: iset<nat -> nat>)
    requires InRooms(bs, rooms) && b.room in rooms
    ensures InRooms(bs + [b], rooms)
  {
  }

  /** Every call has room for a whole buffer. */
  ghost predicate Ample(room: nat -> nat) { forall i :: room(i) >= NR_BUFFER_PAGES * WORST_COMP_PAGE_SIZE }

  ghost predicate AllAmple(rooms: iset<nat -> nat>) { forall room | room in rooms :: Ample(room) }

  lemma {:induction false} CodesBound(s: seq<Slot>, es: seq<Send>, codes: seq<seq<Byte>>)
    requires s != [] && CodesOk(s, es, codes)
    ensures |Concat(codes)| <= |es| * WORST_COMP_PAGE_SIZE
    decreases |es|
  {
    if es != [] {
      CodesBound(AfterSend(s, es[0]), es[1..], codes[1..]);
    }
  }

  /** A call with room for a whole buffer emits everything. */
  lemma AmpleCall(es: seq<Send>, c: Call, space: nat)
    requires |es| <= NR_BUFFER_PAGES && CallOk(es, c) && SpacedCall(es, c, space)
    requires space >= NR_BUFFER_PAGES * WORST_COMP_PAGE_SIZE
    ensures c.to == |es|
  {
    CodesBound(c.before, es[c.from..c.to], c.codes);
    hide Concat, CodesOk;
    assert |es[c.from..c.to]| <= c.to;
  }

  /** If every call has room for a whole buffer, no miss is ever refused. */
  lemma {:induction false} AmpleRoom(s: seq<Slot>, bs: seq<Batch>, t: seq<Slot>, rooms: iset<nat -> nat>)
    requires Flushes(s, bs, t) && InRooms(bs, rooms) && AllAmple(rooms)
    ensures NoMisses(bs)
    decreases |bs|
  {
    if bs != [] {
      var init, b := bs[..|bs| - 1], bs[|bs| - 1];
      AmpleRoom(s, init, b.before, rooms);
      AmpleBatch(b, t);
      hide NoMissRefused, Flushes;
      assert forall i | 0 <= i < |bs| - 1 :: bs[i] == init[i];
    }
  }

  lemma AmpleBatch(b: Batch, t: seq<Slot>)
    requires BatchOk(b, t) && Ample(b.room)
    ensures NoMissRefused(b.sends, b.calls)
  {
    hide CallOk, Chain, SpacedCall;
    forall i | 0 <= i < |b.calls| ensures CallOk(b.sends, b.calls[i]) && !RefusesMiss(b.sends, b.calls[i]) {
      AmpleCall(b.sends, b.calls[i], b.room(i));
    }
  }

  /** No call has refused a page that was neither raw nor cached. */
  ghost predicate NoMisses(bs: seq<Batch>) {
    forall i | 0 <= i < |bs| :: NoMissRefused(bs[i].sends, bs[i].calls)
  }

  /** In no batch is a page raw after having been ordinary. */
  ghost predicate AllOrderly(bs: seq<Batch>) {
    forall i | 0 <= i < |bs| :: Orderly(bs[i].sends)
  }

  lemma OrderlyConcat(a: seq<Send>, b: seq<Send>)
    requires Orderly(a + b)
    ensures Orderly(a) && Orderly(b)
  {
    forall i, j | 0 <= i < j < |a| && !a[i].raw && a[j].raw ensures a[i].pfn != a[j].pfn {
      assert (a + b)[i] == a[i] && (a + b)[j] == a[j];
    }
    forall i, j | 0 <= i < j < |b| && !b[i].raw && b[j].raw ensures b[i].pfn != b[j].pfn {
      assert (a + b)[|a| + i] == b[i] && (a + b)[|a| + j] == b[j];
    }
  }

  lemma {:induction false} PagesOrderly(bs: seq<Batch>)
    requires Orderly(Pages(bs))
    ensures AllOrderly(bs)
    decreases |bs|
  {
    if bs != [] {
      OrderlyConcat(Pages(bs[..|bs| - 1]), bs[|bs| - 1].sends);
      PagesOrderly(bs[..|bs| - 1]);
    }
  }

  lemma OneBatch(b: Batch, t: seq<Slot>, size: nat)
    requires BatchOk(b, t) && Orderly(b.sends) && InRange(b.sends, size) && NoMissRefused(b.sends, b.calls)
    ensures Transfers(b.before, b.sends, AllCodes(b.calls), t, size)
  {
    hide Orderly, InRange, Chain, Spaced, NoMissRefused, AfterAdd, AfterAll, CodesOk, Carries, Deliver;
    forall mem: Memory | |mem| == size && Mirrors(b.before, mem)
      ensures Carries(AllCodes(b.calls), mem, b.sends) && Mirrors(t, Deliver(mem, b.sends))
    {
      var s := AfterAdd(b.before, b.sends);
      AddKeepsAgreement(b.before, mem, b.sends);
      ChainIsCodes(s, b.sends, b.calls, |b.sends|, t);
      assert b.sends[..|b.sends|] == b.sends;
      BatchTransfers(b.before, b.sends, AllCodes(b.calls), size);
    }
  }

  /**
    Agreement over whole runs.  However many batches are flushed, in however many calls, with
    whatever hits, misses, evictions, raw pages and refusals of raw or cached pages, every receiver
    that starts with a copy of each cached page decodes exactly the pages that were sent, from
    exactly the bytes that were emitted, and ends with a copy of each cached page.
   */
  lemma {:induction false} RunAgreement(s: seq<Slot>, bs: seq<Batch>, t: seq<Slot>, size: nat)
    requires Flushes(s, bs, t) && AllOrderly(bs) && NoMisses(bs) && InRange(Pages(bs), size)
    ensures Transfers(s, Pages(bs), Codes(bs), t, size)
    decreases |bs|
  {
    hide Orderly, Chain, NoMissRefused, Transfers, BatchOk;
    if bs == [] {
      NothingTransfers(s, size);
    } else {
      var init, b := bs[..|bs| - 1], bs[|bs| - 1];
      InRangeConcat(Pages(init), b.sends, size);
      RunAgreement(s, init, b.before, size);
      OneBatch(b, t, size);
      TransfersJoin(s, Pages(init), Codes(init), b.before, b.sends, AllCodes(b.calls), t, size);
    }
  }

  lemma InRangeConcat(a: seq<Send>, b: seq<Send>, size: nat)
    requires InRange(a + b, size)
    ensures InRange(a, size) && InRange(b, size)
  {
    assert forall i | 0 <= i < |a| :: (a + b)[i] == a[i];
    assert forall i | 0 <= i < |b| :: (a + b)[|a| + i] == b[i];
  }

  lemma NothingTransfers(s: seq<Slot>, size: nat)
    ensures Transfers(s, [], [], s, size)
  {
  }

  // ----- the sender -----

  /** Before each call the output buffer has room for two pages. */
  ghost predicate Roomy(room: nat -> nat) { forall i :: room(i) >= 2 * XC_PAGE_SIZE }

  /** A call with room for any page emits at least one. */
  lemma CallAdvances(es: seq<Send>, c: Call, space: nat)
    requires CallOk(es, c) && SpacedCall(es, c, space) && space >= 2 * XC_PAGE_SIZE && c.from < |es|
    ensures c.from < c.to
  {
  }

  lemma AllCodesNext(cs: seq<Call>, c: Call)
    ensures Concat(AllCodes(cs + [c])) == Concat(AllCodes(cs)) + Concat(c.codes)
  {
    assert (cs + [c])[..|cs|] == cs;
    hide Concat;
    ConcatConcat(AllCodes(cs), c.codes);
  }

  lemma ChainNext(s: seq<Slot>, es: seq<Send>, cs: seq<Call>, c: Call, room: nat -> nat)
    requires Chain(s, es, cs, c.from, c.before) && CallOk(es, c) && Spaced(es, cs, room)
    requires SpacedCall(es, c, room(|cs|))
    ensures Chain(s, es, cs + [c], c.to, CallEnd(es, c)) && Spaced(es, cs + [c], room)
  {
    hide CallOk, SpacedCall, CallEnd, Spaced;
    var next := cs + [c];
    assert next[..|cs|] == cs && next[|cs|] == c;
    SpacedNext(es, cs, c, room);
  }

  lemma SpacedNext(es: seq<Send>, cs: seq<Call>, c: Call, room: nat -> nat)
    requires CallOk(es, c) && Spaced(es, cs, room) && SpacedCall(es, c, room(|cs|))
    ensures Spaced(es, cs + [c], room)
  {
    hide CallOk, SpacedCall;
  }

  /** One call of xc_compression_compress_pages with pages left in the buffer. */
  method OneCall(c: Compressor, space: nat) returns (out: seq<Byte>, ghost call: Call)
    requires c.Valid() && c.index < |c.sends|
    modifies c, c.cache, c.cache.nodes, c.cache.pfn2cache
    ensures c.Valid() && c.sends == old(c.sends)
    ensures CallOk(c.sends, call) && SpacedCall(c.sends, call, space) && out == Concat(call.codes)
    ensures call.before == old(c.cache.slots) && call.from == old(c.index) && call.to == c.index
    ensures c.cache.slots == CallEnd(c.sends, call)
  {
    var rc;
    ghost var codes;
    rc, out, codes := c.CompressPages(space);
    call := Call(old(c.cache.slots), old(c.index), c.index, codes);
    CallMade(c, call, out, space);
  }

  /** One round of write_compressed. */
  method NextChunk(c: Compressor, room: nat -> nat, ghost s: seq<Slot>, ghost es: seq<Send>,
      ghost calls: seq<Call>, i: nat)
      returns (rc: int, chunk: seq<Byte>, ghost calls': seq<Call>)
    requires c.Valid() && c.sends == es && i == |calls| && room(i) >= 2 * XC_PAGE_SIZE
    requires Chain(s, es, calls, c.index, c.cache.slots) && Spaced(es, calls, room)
    modifies c, c.cache, c.cache.nodes, c.cache.pfn2cache
    ensures c.Valid() && (rc == 0 <==> old(c.index) == |es|)
    ensures rc == 0 ==> c.sends == [] && c.index == 0 && c.cache.slots == old(c.cache.slots) && calls' == calls
    ensures rc != 0 ==> c.sends == es && old(c.index) < c.index <= |es| && |calls'| == |calls| + 1
    ensures rc != 0 ==> Chain(s, es, calls', c.index, c.cache.slots) && Spaced(es, calls', room)
    ensures rc != 0 ==> Concat(AllCodes(calls')) == Concat(AllCodes(calls)) + chunk
  {
    hide Cache.Valid, CallOk, SpacedCall, Chain, Spaced, Concat, AllCodes, CodesOk;
    calls' := calls;
    ghost var codes;
    rc, chunk, codes := c.CompressPages(room(i));
    if rc != 0 {
      ghost var call := Call(old(c.cache.slots), old(c.index), c.index, codes);
      CallMade(c, call, chunk, room(i));
      CallAdvances(es, call, room(i));
      ChainNext(s, es, calls, call, room);
      AllCodesNext(calls, call);
      calls' := calls + [call];
    }
  }

  /**
    write_compressed: compress what is buffered into chunks until nothing is left.  Before call
    i the output buffer has been flushed if need be, so that room(i) is at least two pages.
   */
  method WriteCompressed(c: Compressor, room: nat -> nat) returns (out: seq<Byte>, ghost calls: seq<Call>)
    requires c.Valid() && c.index == 0 && Roomy(room)
    modifies c, c.cache, c.cache.nodes, c.cache.pfn2cache
    ensures c.Valid() && c.sends == [] && c.index == 0
    ensures Chain(old(c.cache.slots), old(c.sends), calls, |old(c.sends)|, c.cache.slots)
    ensures Spaced(old(c.sends), calls, room)
    ensures out == Concat(AllCodes(calls))
  {
    out, calls := [], [];
    ghost var es, s := c.sends, c.cache.slots;
    var rc, i := 1, 0;
    ChainStart(s, es, room);
    hide Compressor.Valid, CallOk, SpacedCall, Chain, Spaced, Concat, AllCodes;
    while rc != 0
      invariant c.Valid() && i == |calls| && out == Concat(AllCodes(calls))
      invariant rc != 0 ==> c.sends == es && c.index <= |es|
      invariant rc == 0 ==> c.sends == [] && c.index == 0
      invariant Chain(s, es, calls, if rc == 0 then |es| else c.index, c.cache.slots) && Spaced(es, calls, room)
      decreases if rc == 0 then 0 else 1 + |es| - c.index
    {
      var chunk;
      rc, chunk, calls := NextChunk(c, room, s, es, calls, i);
      if rc != 0 {
        out, i := out + chunk, i + 1;
      }
    }
  }

  lemma ChainStart(s: seq<Slot>, es: seq<Send>, room: nat -> nat)
    ensures Chain(s, es, [], 0, s) && Spaced(es, [], room) && Concat(AllCodes([])) == []
  {
  }

  /** What CompressPages promises, as a call. */
  lemma CallMade(c: Compressor, call: Call, chunk: seq<Byte>, space: nat)
    requires call.to == c.index && c.Emitted(call.before, call.from, call.codes, chunk, space)
    requires c.index < |c.sends| ==>
      |chunk| + Needed(AfterAll(call.before, c.sends[call.from..c.index]), c.sends[c.index]) > space
    ensures CallOk(c.sends, call) && SpacedCall(c.sends, call, space) && chunk == Concat(call.codes)
  {
  }

  lemma FlushNext(s: seq<Slot>, bs: seq<Batch>, b: Batch, t: seq<Slot>)
    requires Flushes(s, bs, b.before) && BatchOk(b, t)
    ensures Flushes(s, bs + [b], t) && Pages(bs + [b]) == Pages(bs) + b.sends
    ensures Concat(Codes(bs + [b])) == Concat(Codes(bs)) + Concat(AllCodes(b.calls))
  {
    assert (bs + [b])[..|bs|] == bs;
    hide BatchOk, Concat, AllCodes;
    ConcatConcat(Codes(bs), AllCodes(b.calls));
  }

  /** After the first j pages of es: the first f of them have been flushed, with cache u at the
      end, and the others are in the buffer. */
  ghost predicate Sent(s: seq<Slot>, bs: seq<Batch>, u: seq<Slot>, es: seq<Send>, f: nat, j: nat,
      sends: seq<Send>, slots: seq<Slot>, out: seq<Byte>)
  {
    && f <= j <= |es| && sends == es[f..j] && slots == AfterAdd(u, sends)
    && Flushes(s, bs, u) && Pages(bs) == es[..f] && out == Concat(Codes(bs))
  }

  lemma SentParts(s: seq<Slot>, bs: seq<Batch>, u: seq<Slot>, es: seq<Send>, f: nat, j: nat,
      sends: seq<Send>, slots: seq<Slot>, out: seq<Byte>)
    requires Sent(s, bs, u, es, f, j, sends, slots, out)
    ensures Flushes(s, bs, u) && slots == AfterAdd(u, sends)
  {
  }

  lemma SentNothing(s: seq<Slot>, es: seq<Send>)
    ensures Sent(s, [], s, es, 0, 0, [], s, [])
  {
  }

  lemma SentAll(s: seq<Slot>, bs: seq<Batch>, u: seq<Slot>, es: seq<Send>, out: seq<Byte>)
    requires Sent(s, bs, u, es, |es|, |es|, [], u, out)
    ensures Flushes(s, bs, u) && Pages(bs) == es && out == Concat(Codes(bs))
  {
    assert es[..|es|] == es;
  }

  lemma SentAdd(s: seq<Slot>, bs: seq<Batch>, u: seq<Slot>, es: seq<Send>, f: nat, j: nat,
      sends: seq<Send>, slots: seq<Slot>, out: seq<Byte>)
    requires Sent(s, bs, u, es, f, j, sends, slots, out) && j < |es|
    ensures var slots' := if es[j].raw then Invalidate(slots, es[j].pfn) else slots;
            Sent(s, bs, u, es, f, j + 1, sends + [es[j]], slots', out)
  {
    hide Flushes, Pages, Codes, Concat, Invalidate;
    assert es[f..j + 1] == es[f..j] + [es[j]] && (sends + [es[j]])[..|sends|] == sends;
  }

  lemma SentFlush(s: seq<Slot>, bs: seq<Batch>, u: seq<Slot>, es: seq<Send>, f: nat, j: nat,
      sends: seq<Send>, slots: seq<Slot>, out: seq<Byte>, bs': seq<Batch>, t: seq<Slot>, more: seq<Byte>)
    requires Sent(s, bs, u, es, f, j, sends, slots, out)
    requires Flushes(s, bs', t) && Pages(bs') == Pages(bs) + sends && Concat(Codes(bs')) == Concat(Codes(bs)) + more
    ensures Sent(s, bs', t, es, j, j, [], t, out + more)
  {
    hide Flushes, Pages, Codes, Concat;
    assert es[..j] == es[..f] + es[f..j];
  }

  /** The buffered pages are flushed. */
  method Flush(c: Compressor, room: nat -> nat, ghost s: seq<Slot>, ghost bs: seq<Batch>, ghost u: seq<Slot>)
      returns (out: seq<Byte>, ghost bs': seq<Batch>)
    requires c.Valid() && c.index == 0 && |c.sends| <= NR_BUFFER_PAGES && Roomy(room)
    requires Flushes(s, bs, u) && c.cache.slots == AfterAdd(u, c.sends)
    modifies c, c.cache, c.cache.nodes, c.cache.pfn2cache
    ensures c.Valid() && c.sends == [] && c.index == 0
    ensures Flushes(s, bs', c.cache.slots) && Pages(bs') == Pages(bs) + old(c.sends)
    ensures Concat(Codes(bs')) == Concat(Codes(bs)) + out
    ensures forall rooms: iset<nat -> nat> | room in rooms && InRooms(bs, rooms) :: InRooms(bs', rooms)
  {
    assert c.cache.slots != [] by {
      SlotsBelow(c.cache);
    }
    hide Compressor.Valid, Flushes, Chain, Spaced, AfterAdd, Concat, AllCodes, Codes, Pages;
    ghost var calls;
    ghost var b := Batch(u, c.sends, [], room);
    out, calls := WriteCompressed(c, room);
    b := b.(calls := calls);
    FlushNext(s, bs, b, c.cache.slots);
    bs' := bs + [b];
    forall rooms: iset<nat -> nat> | room in rooms && InRooms(bs, rooms) ensures InRooms(bs', rooms) {
      InRoomsNext(bs, b, rooms);
    }
  }

  /** One page of a checkpoint: if it fills the buffer, the buffer is flushed. */
  method SendPage(c: Compressor, e: Send, room: nat -> nat, ghost s: seq<Slot>, ghost bs: seq<Batch>,
      ghost u: seq<Slot>,
      ghost es: seq<Send>, ghost f: nat, ghost j: nat, out: seq<Byte>)
      returns (out': seq<Byte>, ghost bs': seq<Batch>, ghost u': seq<Slot>, ghost f': nat)
    requires c.Valid() && c.index == 0 && |c.sends| < NR_BUFFER_PAGES && e.pfn < c.cache.pfn2cache.Length
    requires Roomy(room)
    requires j < |es| && e == es[j] && Sent(s, bs, u, es, f, j, c.sends, c.cache.slots, out)
    modifies c, c.cache, c.cache.nodes, c.cache.pfn2cache
    ensures c.Valid() && c.index == 0 && |c.sends| < NR_BUFFER_PAGES
    ensures Sent(s, bs', u', es, f', j + 1, c.sends, c.cache.slots, out')
    ensures forall rooms: iset<nat -> nat> | room in rooms && InRooms(bs, rooms) :: InRooms(bs', rooms)
  {
    hide Compressor.Valid, Sent, Flushes, Pages, Codes, Concat, Invalidate, AfterAdd;
    out', bs', u', f' := out, bs, u, f;
    SentAdd(s, bs, u, es, f, j, c.sends, c.cache.slots, out);
    var rc := c.AddPage(e.page, e.pfn, e.raw);
    ghost var sends, slots := c.sends, c.cache.slots;
    assert Sent(s, bs, u, es, f, j + 1, sends, slots, out);
    if rc == -1 {
      SentParts(s, bs, u, es, f, j + 1, sends, slots, out);
      var more;
      more, bs' := Flush(c, room, s, bs, u);
      SentFlush(s, bs, u, es, f, j + 1, sends, slots, out, bs', c.cache.slots, more);
      out', u', f' := out + more, c.cache.slots, j + 1;
    }
  }

  ghost function Rooms(room: nat -> nat -> nat): iset<nat -> nat> { iset j: nat :: room(j) }

  /** The page loop of a checkpoint; room(j) is what a flush after page j may use. */
  method AddPages(c: Compressor, es: seq<Send>, room: nat -> nat -> nat)
      returns (out: seq<Byte>, ghost bs: seq<Batch>, ghost u: seq<Slot>, ghost f: nat)
    requires c.Valid() && c.sends == [] && c.index == 0 && InRange(es, c.cache.pfn2cache.Length)
    requires forall j :: Roomy(room(j))
    modifies c, c.cache, c.cache.nodes, c.cache.pfn2cache
    ensures c.Valid() && c.index == 0
    ensures |c.sends| <= NR_BUFFER_PAGES && InRooms(bs, Rooms(room))
    ensures Sent(old(c.cache.slots), bs, u, es, f, |es|, c.sends, c.cache.slots, out)
  {
    out, bs, u, f := [], [], c.cache.slots, 0;
    ghost var s := c.cache.slots;
    hide Compressor.Valid, Sent, Roomy;
    SentNothing(s, es);
    for j := 0 to |es|
      invariant c.Valid() && c.index == 0 && |c.sends| < NR_BUFFER_PAGES && InRooms(bs, Rooms(room))
      invariant Sent(s, bs, u, es, f, j, c.sends, c.cache.slots, out)
    {
      out, bs, u, f := SendPage(c, es[j], room(j), s, bs, u, es, f, j, out);
    }
  }

  /** A checkpoint: every page is added to the buffer, which is flushed whenever it is full and
      once more at the end. */
  method SendPages(c: Compressor, es: seq<Send>, room: nat -> nat -> nat) returns (out: seq<Byte>, ghost bs: seq<Batch>)
    requires c.Valid() && c.sends == [] && c.index == 0 && InRange(es, c.cache.pfn2cache.Length)
    requires forall j :: Roomy(room(j))
    modifies c, c.cache, c.cache.nodes, c.cache.pfn2cache
    ensures c.Valid() && c.sends == [] && c.index == 0
    ensures Flushes(old(c.cache.slots), bs, c.cache.slots) && Pages(bs) == es && out == Concat(Codes(bs))
    ensures InRooms(bs, Rooms(room))
  {
    hide Compressor.Valid, Sent, Flushes, Pages, Codes, Concat, AfterAdd, Roomy, InRange;
    ghost var s, u, f, bs0 := c.cache.slots, [], 0, [];
    out, bs0, u, f := AddPages(c, es, room);
    ghost var last, slots := c.sends, c.cache.slots;
    SentParts(s, bs0, u, es, f, |es|, last, slots, out);
    var more;
    more, bs := Flush(c, room(|es|), s, bs0, u);
    SentFlush(s, bs0, u, es, f, |es|, last, slots, out, bs, c.cache.slots, more);
    out := out + more;
    SentAll(s, bs, c.cache.slots, es, out);
  }

  // ----- the receiver -----

  /** The pages of the receiver's domain. */
  ghost predicate Separate(mem: seq<array<Byte>>) {
    && (forall i | 0 <= i < |mem| :: mem[i].Length == XC_PAGE_SIZE)
    && (forall i, j | 0 <= i < j < |mem| :: mem[i] != mem[j])
  }

  ghost function Contents(mem: seq<array<Byte>>): (m: Memory)
    requires Separate(mem)
    reads mem
    ensures |m| == |mem|
  {
    seq(|mem|, i requires 0 <= i < |mem| reads mem => mem[i][..])
  }

  /** The page loop of apply_batch: each page is decoded in place, from where the one before ended. */
  method ApplyBatch(buf: seq<Byte>, pfns: seq<nat>, mem: seq<array<Byte>>) returns (ok: bool, pos: nat)
    requires Separate(mem) && forall i | 0 <= i < |pfns| :: pfns[i] < |mem|
    modifies mem
    ensures ok <==> DecodeAll(buf, 0, old(Contents(mem)), pfns).Some?
    ensures ok ==> DecodeAll(buf, 0, old(Contents(mem)), pfns) == Some(Received(pos, Contents(mem)))
  {
    ok, pos := true, 0;
    ghost var result := DecodeAll(buf, 0, Contents(mem), pfns);
    assert pfns[0..] == pfns;
    for i := 0 to |pfns|
      invariant result == DecodeAll(buf, pos, Contents(mem), pfns[i..])
    {
      ghost var before := Contents(mem);
      ok, pos := UncompressPage(buf, pos, mem[pfns[i]]);
      if !ok {
        return;
      }
      assert Contents(mem) == before[pfns[i] := mem[pfns[i]][..]];
      assert pfns[i..][1..] == pfns[i + 1..];
    }
    ok := true;
  }

  // ----- both ends -----

  /** What every receiver that mirrors the cache gets from the stream of a run. */
  lemma StreamArrives(s: seq<Slot>, bs: seq<Batch>, t: seq<Slot>, mem: Memory)
    requires Flushes(s, bs, t) && Orderly(Pages(bs)) && NoMisses(bs) && InRange(Pages(bs), |mem|) && Mirrors(s, mem)
    ensures var out := Concat(Codes(bs));
            Receive(out, 0, mem, Pages(bs)) == Some(Received(|out|, Deliver(mem, Pages(bs))))
    ensures Mirrors(t, Deliver(mem, Pages(bs)))
  {
    hide Flushes, Orderly, NoMisses, InRange, Mirrors, Deliver, Pages, Codes, Receive, Concat;
    PagesOrderly(bs);
    RunAgreement(s, bs, t, |mem|);
    Whole(Codes(bs));
    assert CarriesAt(Concat(Codes(bs)), 0, Codes(bs), mem, Pages(bs));
  }

  /** One checkpoint from end to end. */
  method Checkpoint(c: Compressor, es: seq<Send>, room: nat -> nat -> nat, mem: seq<array<Byte>>)
      returns (ok: bool, ghost bs: seq<Batch>)
    requires c.Valid() && c.sends == [] && c.index == 0 && InRange(es, |mem|) && |mem| == c.cache.pfn2cache.Length
    requires Separate(mem) && forall j :: Roomy(room(j))
    modifies c, c.cache, c.cache.nodes, c.cache.pfn2cache, mem
    ensures c.Valid() && c.sends == [] && c.index == 0
    ensures Flushes(old(c.cache.slots), bs, c.cache.slots) && Pages(bs) == es && InRooms(bs, Rooms(room))
    ensures old(Mirrors(c.cache.slots, Contents(mem))) && Orderly(es) && NoMisses(bs) ==>
      ok && Contents(mem) == Deliver(old(Contents(mem)), es) && Mirrors(c.cache.slots, Contents(mem))
  {
    hide Compressor.Valid, Flushes, Orderly, NoMisses, Mirrors, Deliver, Pages, Codes, Concat;
    ghost var s, m := c.cache.slots, Contents(mem);
    var out;
    out, bs := SendPages(c, es, room);
    assert Contents(mem) == m;
    if Mirrors(s, m) && Orderly(es) && NoMisses(bs) {
      StreamArrives(s, bs, c.cache.slots, m);
    }
    var pos;
    ok, pos := ApplyBatch(out, Pfns(es), mem);
    ok := ok && pos == |out|;
  }

  ghost predicate InRanges(cs: seq<seq<Send>>, size: nat) {
    forall k | 0 <= k < |cs| :: InRange(cs[k], size)
  }

  /** The memory after all checkpoints. */
  ghost function DeliverAll(mem: Memory, cs: seq<seq<Send>>): (m: Memory)
    requires InRanges(cs, |mem|)
    ensures |m| == |mem|
  {
    if cs == [] then mem else Deliver(DeliverAll(mem, cs[..|cs| - 1]), cs[|cs| - 1])
  }

  /**
    Replication from end to end, over any number of checkpoints.  If no page is sent raw after it
    was sent as an ordinary page of the same checkpoint, then as long as no miss is refused the
    receiver decodes every checkpoint to exactly the pages that were sent, and every page that
    the sender has cached equals the receiver's copy.  No miss is refused if every call is given
    room for a whole buffer of pages.
   */
  method Replicate(c: Compressor, cs: seq<seq<Send>>, room: nat -> nat -> nat -> nat, mem: seq<array<Byte>>)
      returns (ok: bool, n: nat, ghost bs: seq<Batch>)
    requires c.Valid() && c.sends == [] && c.index == 0 && InRanges(cs, |mem|) && |mem| == c.cache.pfn2cache.Length
    requires Separate(mem) && Mirrors(c.cache.slots, Contents(mem))
    requires forall k, j :: Roomy(room(k)(j))
    requires forall k | 0 <= k < |cs| :: Orderly(cs[k])
    modifies c, c.cache, c.cache.nodes, c.cache.pfn2cache, mem
    ensures n <= |cs| && (ok ==> n == |cs|)
    ensures Flushes(old(c.cache.slots), bs, c.cache.slots) && Pages(bs) == AllPages(cs[..n])
    ensures InRooms(bs, AllRooms(room))
    ensures NoMisses(bs) || AllAmple(AllRooms(room)) ==>
      ok && Contents(mem) == DeliverAll(old(Contents(mem)), cs) && Mirrors(c.cache.slots, Contents(mem))
  {
    ok, n, bs := true, 0, [];
    ghost var s, m := c.cache.slots, Contents(mem);
    hide Compressor.Valid, Flushes, Orderly, Mirrors, Deliver, Pages, InRange, NoMisses, Replicated, Roomy;
    hide InRooms, AllAmple, Rooms, AllRooms;
    NothingReplicated(s, m, cs);
    while n < |cs| && ok
      invariant n <= |cs| && c.Valid() && c.sends == [] && c.index == 0
      invariant Replicated(s, m, cs, n, bs, ok, Contents(mem), c.cache.slots) && InRooms(bs, AllRooms(room))
    {
      ghost var before, slots := Contents(mem), c.cache.slots;
      ghost var more;
      ok, more := Checkpoint(c, cs[n], room(n), mem);
      ReplicatedNext(s, m, cs, n, bs, before, slots, more, ok, Contents(mem), c.cache.slots);
      InRoomsConcat(bs, more, room, n);
      bs, n := bs + more, n + 1;
    }
    ReplicatedEnd(s, m, cs, n, bs, ok, Contents(mem), c.cache.slots);
    if AllAmple(AllRooms(room)) {
      AmpleRoom(s, bs, c.cache.slots, AllRooms(room));
    }
  }

  ghost function AllRooms(room: nat -> nat -> nat -> nat): iset<nat -> nat> { iset k: nat, j: nat :: room(k)(j) }

  lemma InRoomsConcat(a: seq<Batch>, b: seq<Batch>, room: nat -> nat -> nat -> nat, k: nat)
    requires InRooms(a, AllRooms(room)) && InRooms(b, Rooms(room(k)))
    ensures InRooms(a + b, AllRooms(room))
  {
  }

  ghost function AllPages(cs: seq<seq<Send>>): seq<Send> {
    if cs == [] then [] else AllPages(cs[..|cs| - 1]) + cs[|cs| - 1]
  }

  /** The state after n checkpoints, of which all but the last, if !ok, have been decoded. */
  ghost predicate Replicated(s: seq<Slot>, m: Memory, cs: seq<seq<Send>>, n: nat, bs: seq<Batch>, ok: bool,
      mem: Memory, slots: seq<Slot>)
    requires InRanges(cs, |m|) && n <= |cs|
  {
    && Flushes(s, bs, slots) && Pages(bs) == AllPages(cs[..n])
    && (NoMisses(bs) ==> ok && mem == DeliverAll(m, cs[..n]) && Mirrors(slots, mem))
  }

  lemma NothingReplicated(s: seq<Slot>, m: Memory, cs: seq<seq<Send>>)
    requires InRanges(cs, |m|) && Mirrors(s, m)
    ensures Replicated(s, m, cs, 0, [], true, m, s) && forall rooms: iset<nat -> nat> :: InRooms([], rooms)
  {
  }

  lemma ReplicatedNext(s: seq<Slot>, m: Memory, cs: seq<seq<Send>>, n: nat, bs: seq<Batch>, mem: Memory,
      slots: seq<Slot>,
      more: seq<Batch>, ok: bool, mem': Memory, slots': seq<Slot>)
    requires InRanges(cs, |m|) && n < |cs| && Replicated(s, m, cs, n, bs, true, mem, slots) && |mem| == |m|
    requires Flushes(slots, more, slots') && Pages(more) == cs[n]
    requires Mirrors(slots, mem) && NoMisses(more) ==> ok && mem' == Deliver(mem, cs[n]) && Mirrors(slots', mem')
    ensures Replicated(s, m, cs, n + 1, bs + more, ok, mem', slots')
  {
    hide Mirrors, Pages, Deliver, InRange, NoMissRefused, Flushes;
    FlushesConcat(s, bs, slots, more, slots');
    PagesConcat(bs, more);
    assert cs[..n + 1][..n] == cs[..n];
    if NoMisses(bs + more) {
      assert NoMisses(bs) by {
        assert forall i | 0 <= i < |bs| :: (bs + more)[i] == bs[i];
      }
      assert NoMisses(more) by {
        assert forall i | 0 <= i < |more| :: (bs + more)[|bs| + i] == more[i];
      }
    }
  }

  lemma ReplicatedEnd(s: seq<Slot>, m: Memory, cs: seq<seq<Send>>, n: nat, bs: seq<Batch>, ok: bool, mem: Memory,
      slots: seq<Slot>)
    requires InRanges(cs, |m|) && n <= |cs| && Replicated(s, m, cs, n, bs, ok, mem, slots) && (ok ==> n == |cs|)
    ensures Flushes(s, bs, slots) && Pages(bs) == AllPages(cs[..n])
    ensures NoMisses(bs) ==> ok && mem == DeliverAll(m, cs) && Mirrors(slots, mem)
  {
    assert ok ==> cs[..n] == cs;
  }
}
