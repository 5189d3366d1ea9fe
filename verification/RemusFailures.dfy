/**
  Two things that break the agreement between sender and receiver: refusing a page that is not
  cached, and sending a page raw after it was sent as an ordinary page of the same batch.  Each is
  a run of the sender from any state, for any receiver that agreed with it before.
 */
module RemusFailures {
  import opened Common
  import opened PageDelta
  import opened DeltaCache
  import opened Remus
  import opened RemusRun

  // ----- the cache after one page -----

  lemma NotCachedIs(s: seq<Slot>, pfn: nat)
    ensures Cached(s, pfn) <==> exists i :: 0 <= i < |s| && s[i].pfn == Some(pfn)
  {
  }

  /** A page that is not cached takes the last slot, with its contents, to the front. */
  lemma TouchMiss(s: seq<Slot>, pfn: nat)
    requires s != [] && !Cached(s, pfn)
    ensures Touch(s, pfn) == [s[|s| - 1].(pfn := Some(pfn))] + s[..|s| - 1]
  {
    var n := |s| - 1;
    var t := s[n := s[n].(pfn := Some(pfn))];
    assert t[..n] == s[..n] && t[n + 1..] == [];
  }

  /** The cache after sending a page that is not cached. */
  lemma SentMiss(s: seq<Slot>, pfn: nat, page: Page)
    requires s != [] && !Cached(s, pfn)
    ensures AfterSend(s, Send(pfn, page, false)) == [Slot(Some(pfn), page)] + s[..|s| - 1]
  {
    TouchMiss(s, pfn);
  }

  /** What a second page would find in its slot if both are not cached. */
  function Stale(s: seq<Slot>, page: Page): Page
    requires s != []
  {
    if |s| == 1 then page else s[|s| - 2].page
  }

  /** The cache after a second page has been refused. */
  lemma StaleSlot(s: seq<Slot>, p: nat, q: nat, page: Page)
    requires s != [] && p != q && !Cached(s, p) && !Cached(s, q)
    ensures var t := AfterSend(s, Send(p, page, false));
            && t != [] && !Cached(t, q)
            && Touch(t, q) != [] && Touch(t, q)[0] == Slot(Some(q), Stale(s, page))
  {
    SentMiss(s, p, page);
    var t := [Slot(Some(p), page)] + s[..|s| - 1];
    NotCachedIs(s, q);
    NotCachedIs(t, q);
    TouchMiss(t, q);
  }

  // ----- what the calls emit -----

  /** A page that is cached, in front, with the contents that are sent. */
  lemma SameAgain(s: seq<Slot>, pfn: nat, page: Page, codes: seq<seq<Byte>>)
    requires s != [] && s[0] == Slot(Some(pfn), page) && CodesOk(s, [Send(pfn, page, false)], codes)
    ensures Concat(codes) == [EMPTY_PAGE]
  {
    assert Find(s, pfn) == 0;
    OneCode(codes);
  }

  lemma OneCode(codes: seq<seq<Byte>>)
    requires |codes| == 1
    ensures Concat(codes) == codes[0]
  {
    assert codes[1..] == [] && codes[0] + [] == codes[0];
  }

  lemma TwoCodes(codes: seq<seq<Byte>>)
    requires |codes| == 2
    ensures Concat(codes) == codes[0] + codes[1]
  {
    OneCode(codes[1..]);
  }

  /** The codes of two pages. */
  lemma CodesOfTwo(s: seq<Slot>, d: Send, e: Send, codes: seq<seq<Byte>>)
    requires s != [] && CodesOk(s, [d, e], codes)
    ensures |codes| == 2 && CodeOk(s, d, codes[0]) && CodeOk(AfterSend(s, d), e, codes[1])
    ensures AfterAll(s, [d, e]) == AfterSend(AfterSend(s, d), e)
  {
    assert [d, e][1..] == [e] && [e][1..] == [] && CodesOk(AfterSend(s, d), [e], codes[1..]);
    assert AfterAll(AfterSend(s, d), [e]) == AfterSend(AfterSend(s, d), e);
  }

  lemma CodesOfOne(s: seq<Slot>, e: Send, codes: seq<seq<Byte>>)
    requires s != [] && CodesOk(s, [e], codes)
    ensures |codes| == 1 && CodeOk(s, e, codes[0]) && AfterAll(s, [e]) == AfterSend(s, e)
  {
    assert [e][1..] == [];
  }

  /** Two new pages do not fit into two pages of output: the second is refused. */
  lemma SecondRefused(es: seq<Send>, c: Call)
    requires |es| == 2 && !es[0].raw && !es[1].raw && es[0].pfn != es[1].pfn
    requires CallOk(es, c) && SpacedCall(es, c, 2 * XC_PAGE_SIZE) && c.from == 0
    requires !Cached(c.before, es[0].pfn) && !Cached(c.before, es[1].pfn)
    ensures c.to == 1 && Concat(c.codes) == FullCode(es[0].page)
    ensures var u := CallEnd(es, c);
            u != [] && u[0] == Slot(Some(es[1].pfn), Stale(c.before, es[0].page))
  {
    StaleSlot(c.before, es[0].pfn, es[1].pfn, es[0].page);
    CallAdvances(es, c, 2 * XC_PAGE_SIZE);
    if c.to == 2 {
      assert es[0..2] == [es[0], es[1]];
      CodesOfTwo(c.before, es[0], es[1], c.codes);
      TwoCodes(c.codes);
      assert false;
    }
    assert es[0..1] == [es[0]];
    CodesOfOne(c.before, es[0], c.codes);
    OneCode(c.codes);
  }

  /** An ordinary page and then a raw one for the same PFN both go out in full, and the cache keeps the first. */
  lemma BothFull(es: seq<Send>, c: Call)
    requires |es| == 2 && !es[0].raw && es[1].raw
    requires CallOk(es, c) && SpacedCall(es, c, 3 * XC_PAGE_SIZE) && c.from == 0 && !Cached(c.before, es[0].pfn)
    ensures c.to == 2 && Concat(c.codes) == FullCode(es[0].page) + FullCode(es[1].page)
    ensures var u := CallEnd(es, c); u != [] && u[0] == Slot(Some(es[0].pfn), es[0].page)
  {
    SentMiss(c.before, es[0].pfn, es[0].page);
    CallAdvances(es, c, 3 * XC_PAGE_SIZE);
    if c.to == 1 {
      assert es[0..1] == [es[0]];
      CodesOfOne(c.before, es[0], c.codes);
      OneCode(c.codes);
      assert false;
    }
    assert es[0..2] == [es[0], es[1]];
    CodesOfTwo(c.before, es[0], es[1], c.codes);
    TwoCodes(c.codes);
  }

  /** The last page of a batch, cached with the contents that are sent. */
  lemma LastAgain(es: seq<Send>, c: Call)
    requires es != [] && CallOk(es, c) && c.from == |es| - 1 && c.to == |es| && !es[|es| - 1].raw
    requires c.before[0] == Slot(Some(es[|es| - 1].pfn), es[|es| - 1].page)
    ensures Concat(c.codes) == [EMPTY_PAGE]
  {
    assert es[c.from..c.to] == [es[|es| - 1]];
    SameAgain(c.before, es[|es| - 1].pfn, es[|es| - 1].page, c.codes);
  }

  // ----- what the receiver makes of it -----

  /** A full page followed by an empty one. */
  lemma FullThenEmpty(mem: Memory, p: nat, q: nat, page: Page)
    requires p < |mem| && q < |mem|
    ensures var buf := FullCode(page) + [EMPTY_PAGE];
            DecodeAll(buf, 0, mem, [p, q]) == Some(Received(|buf|, mem[p := page]))
  {
    var buf: seq<Byte> := FullCode(page) + [EMPTY_PAGE];
    assert buf[1..FULL_PAGE_SIZE] == page;
    var mem1 := mem[p := page];
    assert DecodePage(buf, 0, mem[p]) == Some(Decoded(FULL_PAGE_SIZE, page));
    EmptyAt(buf, FULL_PAGE_SIZE, mem1, q);
    assert [p, q][1..] == [q];
  }

  lemma EmptyAt(buf: seq<Byte>, pos: nat, mem: Memory, p: nat)
    requires pos < |buf| && buf[pos] == EMPTY_PAGE && p < |mem|
    ensures DecodeAll(buf, pos, mem, [p]) == Some(Received(pos + 1, mem))
  {
    assert DecodePage(buf, pos, mem[p]) == Some(Decoded(pos + 1, mem[p]));
    assert [p][1..] == [] && mem[p := mem[p]] == mem;
  }

  /** Two full pages and an empty one, all for the same PFN. */
  lemma FullTwiceThenEmpty(mem: Memory, p: nat, a: Page, b: Page)
    requires p < |mem|
    ensures var buf := FullCode(a) + FullCode(b) + [EMPTY_PAGE];
            DecodeAll(buf, 0, mem, [p, p, p]) == Some(Received(|buf|, mem[p := b]))
  {
    var buf: seq<Byte> := FullCode(a) + FullCode(b) + [EMPTY_PAGE];
    assert buf[1..FULL_PAGE_SIZE] == a && buf[FULL_PAGE_SIZE + 1..2 * FULL_PAGE_SIZE] == b;
    var mem1, mem2 := mem[p := a], mem[p := b];
    assert DecodePage(buf, 0, mem[p]) == Some(Decoded(FULL_PAGE_SIZE, a));
    assert DecodePage(buf, FULL_PAGE_SIZE, mem1[p]) == Some(Decoded(2 * FULL_PAGE_SIZE, b));
    assert mem1[p := b] == mem2;
    EmptyAt(buf, 2 * FULL_PAGE_SIZE, mem2, p);
    assert [p, p, p][1..] == [p, p] && [p, p][1..] == [p];
    assert DecodeAll(buf, FULL_PAGE_SIZE, mem1, [p, p]) == Some(Received(|buf|, mem2));
  }

  // ----- the runs -----

  /** One call, or two, that emit a whole batch. */
  lemma OneCallBatch(b: Batch, c: Call, space: nat)
    requires |b.sends| <= NR_BUFFER_PAGES && b.before != [] && AfterAdd(b.before, b.sends) == c.before
    requires CallOk(b.sends, c) && c.from == 0 && c.to == |b.sends| && SpacedCall(b.sends, c, space)
    requires b.calls == [c] && b.room(0) == space
    ensures BatchOk(b, CallEnd(b.sends, c)) && Concat(AllCodes(b.calls)) == Concat(c.codes)
  {
    hide CallOk, SpacedCall, CallEnd, Concat, AfterAdd;
    ChainStart(c.before, b.sends, b.room);
    ChainNext(c.before, b.sends, [], c, b.room);
    AllCodesNext([], c);
    assert [] + [c] == [c];
    CallStarts(b.sends, c);
  }

  lemma CallStarts(es: seq<Send>, c: Call)
    requires CallOk(es, c)
    ensures c.before != [] && c.from <= c.to <= |es|
  {
  }

  lemma TwoCallBatch(b: Batch, c: Call, d: Call, space: nat)
    requires |b.sends| <= NR_BUFFER_PAGES && b.before != [] && AfterAdd(b.before, b.sends) == c.before
    requires CallOk(b.sends, c) && c.from == 0 && SpacedCall(b.sends, c, space)
    requires CallOk(b.sends, d) && d.from == c.to && d.before == CallEnd(b.sends, c) && d.to == |b.sends|
    requires SpacedCall(b.sends, d, space)
    requires b.calls == [c, d] && b.room(0) == b.room(1) == space
    ensures BatchOk(b, CallEnd(b.sends, d)) && Concat(AllCodes(b.calls)) == Concat(c.codes) + Concat(d.codes)
  {
    hide CallOk, SpacedCall, CallEnd, Concat, AfterAdd;
    ChainStart(c.before, b.sends, b.room);
    ChainNext(c.before, b.sends, [], c, b.room);
    AllCodesNext([], c);
    assert [] + [c] == [c] && [c] + [d] == [c, d];
    ChainNext(c.before, b.sends, [c], d, b.room);
    AllCodesNext([c], d);
    CallStarts(b.sends, c);
  }

  lemma OneFlush(b: Batch, t: seq<Slot>)
    requires BatchOk(b, t)
    ensures Flushes(b.before, [b], t) && Pages([b]) == b.sends && Concat(Codes([b])) == Concat(AllCodes(b.calls))
  {
    hide BatchOk, Concat, AllCodes;
    FlushNext(b.before, [], b, t);
    assert [] + [b] == [b] && [] + b.sends == b.sends;
    NoCodes();
  }

  lemma NoCodes()
    ensures Concat(Codes([])) == [] && Pages([]) == []
  {
  }

  /** Two pages are put into the empty buffer. */
  method BufferTwo(c: Compressor, d: Send, e: Send)
    requires c.Valid() && c.sends == [] && c.index == 0
    requires d.pfn < c.cache.pfn2cache.Length && e.pfn < c.cache.pfn2cache.Length
    modifies c, c.cache, c.cache.nodes, c.cache.pfn2cache
    ensures c.Valid() && c.index == 0 && c.sends == [d, e] && c.cache.slots == AfterAdd(old(c.cache.slots), [d, e])
  {
    hide Compressor.Valid, Invalidate;
    ghost var s := c.cache.slots;
    var rc := c.AddPage(d.page, d.pfn, d.raw);
    rc := c.AddPage(e.page, e.pfn, e.raw);
    AddTwo(s, d, e);
  }

  lemma AddTwo(s: seq<Slot>, d: Send, e: Send)
    ensures AfterAdd(s, [d]) == if d.raw then Invalidate(s, d.pfn) else s
    ensures AfterAdd(s, [d, e]) == if e.raw then Invalidate(AfterAdd(s, [d]), e.pfn) else AfterAdd(s, [d])
  {
    hide Invalidate;
    assert [d, e][..1] == [d] && [d][..0] == [];
  }

  /**
    A refused miss.  Two pages that are not cached are flushed with room for two pages of output.
    The second is refused, which leaves its slot bound to its PFN with the contents of another page.
    If it is just these contents that it holds, it looks unchanged when it is taken up again, and
    the receiver keeps what it had.
   */
  method RefusedMissCorrupts(c: Compressor, p: nat, q: nat, a: Page, b: Page, ghost mem: Memory)
      returns (stream: seq<Byte>, ghost batch: Batch)
    requires c.Valid() && c.sends == [] && c.index == 0 && |mem| == c.cache.pfn2cache.Length
    requires Mirrors(c.cache.slots, mem) && p < |mem| && q < |mem| && p != q
    requires !Cached(c.cache.slots, p) && !Cached(c.cache.slots, q)
    requires b == Stale(c.cache.slots, a) != mem[q]
    modifies c, c.cache, c.cache.nodes, c.cache.pfn2cache
    ensures batch.before == old(c.cache.slots) && batch.sends == [Send(p, a, false), Send(q, b, false)]
    ensures forall i :: batch.room(i) == 2 * XC_PAGE_SIZE
    ensures Flushes(old(c.cache.slots), [batch], c.cache.slots) && stream == Concat(Codes([batch]))
    ensures AllOrderly([batch])
    ensures Receive(stream, 0, mem, batch.sends) == Some(Received(|stream|, mem[p := a]))
    ensures Deliver(mem, batch.sends) == mem[p := a][q := b] != mem[p := a]
  {
    hide Compressor.Valid, CallOk, SpacedCall, CallEnd, Concat, Receive, Deliver, BatchOk, Flushes, Codes;
    hide AfterAdd, FullCode, Cached, Stale, AllOrderly;
    ghost var s, es := c.cache.slots, [Send(p, a, false), Send(q, b, false)];
    BufferTwo(c, Send(p, a, false), Send(q, b, false));
    AddTwo(s, es[0], es[1]);
    ghost var first, second;
    var more;
    stream, first := OneCall(c, 2 * XC_PAGE_SIZE);
    SecondRefused(es, first);
    more, second := OneCall(c, 2 * XC_PAGE_SIZE);
    CallAdvances(es, second, 2 * XC_PAGE_SIZE);
    CallStarts(es, second);
    LastAgain(es, second);
    stream := stream + more;
    batch := Batch(s, es, [first, second], _ => 2 * XC_PAGE_SIZE);
    TwoCallBatch(batch, first, second, 2 * XC_PAGE_SIZE);
    OneFlush(batch, c.cache.slots);
    PlainIsOrderly(batch);
    KeptOld(mem, p, q, a, b);
  }

  lemma PlainIsOrderly(b: Batch)
    requires |b.sends| == 2 && !b.sends[1].raw
    ensures AllOrderly([b])
  {
  }

  lemma AddOne(s: seq<Slot>, e: Send)
    requires !e.raw
    ensures AfterAdd(s, [e]) == s
  {
    AddTwo(s, e, e);
  }

  /** A page added raw is not cached, whatever was there before. */
  lemma NotCachedNow(s: seq<Slot>, p: nat, a: Page, b: Page)
    requires SlotsOk(s)
    ensures !Cached(AfterAdd(s, [Send(p, a, false), Send(p, b, true)]), p)
  {
    AddTwo(s, Send(p, a, false), Send(p, b, true));
    InvalidateOk(s, p);
  }

  lemma TwoFlushes(a: Batch, b: Batch, t: seq<Slot>)
    requires BatchOk(a, b.before) && BatchOk(b, t)
    ensures Flushes(a.before, [a, b], t) && Pages([a, b]) == a.sends + b.sends
    ensures Concat(Codes([a, b])) == Concat(AllCodes(a.calls)) + Concat(AllCodes(b.calls))
  {
    hide BatchOk, Concat, AllCodes;
    OneFlush(a, b.before);
    FlushNext(a.before, [a], b, t);
    assert [a] + [b] == [a, b];
  }

  /** A call that emits everything refuses nothing. */
  lemma EndsAll(es: seq<Send>, c: Call)
    requires CallOk(es, c) && c.to == |es|
    ensures NoMissRefused(es, [c])
  {
  }

  lemma KeptRaw(mem: Memory, p: nat, a: Page, b: Page)
    requires p < |mem| && a != b
    ensures var es := [Send(p, a, false), Send(p, b, true)] + [Send(p, a, false)];
            var stream := FullCode(a) + FullCode(b) + [EMPTY_PAGE];
            && InRange(es, |mem|)
            && Receive(stream, 0, mem, es) == Some(Received(|stream|, mem[p := b]))
            && Deliver(mem, es) == mem[p := a] != mem[p := b]
  {
    hide Deliver, FullCode, DecodeAll, Pfns;
    ThreePfns(p, a, b);
    FullTwiceThenEmpty(mem, p, a, b);
    LastWins(mem, p, a, b);
  }

  lemma ThreePfns(p: nat, a: Page, b: Page)
    ensures Pfns([Send(p, a, false), Send(p, b, true)] + [Send(p, a, false)]) == [p, p, p]
  {
  }

  lemma LastWins(mem: Memory, p: nat, a: Page, b: Page)
    requires p < |mem| && a != b
    ensures var es := [Send(p, a, false), Send(p, b, true)] + [Send(p, a, false)];
            InRange(es, |mem|) && Deliver(mem, es) == mem[p := a] != mem[p := b]
  {
    var m1: Memory, m2: Memory := mem[p := a], mem[p := b];
    assert m1[p] != m2[p] && m1[p := b] == m2 && m2[p := a] == m1;
    DeliverOne(mem, Send(p, a, false));
    DeliverOne(m1, Send(p, b, true));
    DeliverOne(m2, Send(p, a, false));
    var d, e := [Send(p, a, false)], [Send(p, b, true)];
    DeliverConcat(mem, d, e);
    DeliverConcat(mem, d + e, d);
    assert d + e == [Send(p, a, false), Send(p, b, true)];
  }

  lemma DeliverOne(mem: Memory, e: Send)
    requires e.pfn < |mem|
    ensures Deliver(mem, [e]) == mem[e.pfn := e.page]
  {
    assert [e][1..] == [];
  }

  lemma KeptOld(mem: Memory, p: nat, q: nat, a: Page, b: Page)
    requires p < |mem| && q < |mem| && p != q && mem[q] != b
    ensures var es, stream := [Send(p, a, false), Send(q, b, false)], FullCode(a) + [EMPTY_PAGE];
            && Receive(stream, 0, mem, es) == Some(Received(|stream|, mem[p := a]))
            && Deliver(mem, es) == mem[p := a][q := b] != mem[p := a]
  {
    var es := [Send(p, a, false), Send(q, b, false)];
    FullThenEmpty(mem, p, q, a);
    assert Pfns(es) == [p, q] && es[1..] == [es[1]] && [es[1]][1..] == [];
    assert Deliver(mem[p := a], [es[1]]) == mem[p := a][q := b];
    var old1: Memory, new1: Memory := mem[p := a], mem[p := a][q := b];
    assert new1[q] == b && old1[q] == mem[q];
  }

  /** A call that finds nothing left empties the buffer; then the next batch begins. */
  method BufferNext(c: Compressor, e: Send)
    requires c.Valid() && c.index == |c.sends| && e.pfn < c.cache.pfn2cache.Length && !e.raw
    modifies c, c.cache, c.cache.nodes, c.cache.pfn2cache
    ensures c.Valid() && c.index == 0 && c.sends == [e] && c.cache.slots == old(c.cache.slots)
  {
    hide Compressor.Valid;
    var rc, out;
    ghost var codes;
    rc, out, codes := c.CompressPages(0);
    rc := c.AddPage(e.page, e.pfn, e.raw);
  }

  /**
    A page that is added raw after it was added as an ordinary page of the same batch.  The cache
    keeps the ordinary contents, so when these are sent again they look unchanged, and the
    receiver keeps the raw ones.
   */
  method RawAfterOrdinaryCorrupts(c: Compressor, p: nat, a: Page, b: Page, ghost mem: Memory)
      returns (stream: seq<Byte>, ghost bs: seq<Batch>)
    requires c.Valid() && c.sends == [] && c.index == 0 && |mem| == c.cache.pfn2cache.Length
    requires Mirrors(c.cache.slots, mem) && p < |mem| && a != b
    modifies c, c.cache, c.cache.nodes, c.cache.pfn2cache
    ensures |bs| == 2 && bs[0].sends == [Send(p, a, false), Send(p, b, true)] && bs[1].sends == [Send(p, a, false)]
    ensures Flushes(old(c.cache.slots), bs, c.cache.slots) && stream == Concat(Codes(bs)) && NoMisses(bs)
    ensures Pages(bs) == bs[0].sends + bs[1].sends && InRange(Pages(bs), |mem|)
    ensures Receive(stream, 0, mem, Pages(bs)) == Some(Received(|stream|, mem[p := b]))
    ensures Deliver(mem, Pages(bs)) == mem[p := a] != mem[p := b]
  {
    hide Compressor.Valid, CallOk, SpacedCall, CallEnd, Concat, Receive, Deliver, BatchOk, Flushes, Codes, Pages;
    hide NoMissRefused, AfterAdd;
    ghost var s, es, es1 := c.cache.slots, [Send(p, a, false), Send(p, b, true)], [Send(p, a, false)];
    BufferTwo(c, Send(p, a, false), Send(p, b, true));
    NotCachedNow(s, p, a, b);
    ghost var first, second;
    var more;
    stream, first := OneCall(c, 3 * XC_PAGE_SIZE);
    BothFull(es, first);
    ghost var mid := c.cache.slots;
    ghost var b0 := Batch(s, es, [first], _ => 3 * XC_PAGE_SIZE);
    OneCallBatch(b0, first, 3 * XC_PAGE_SIZE);
    BufferNext(c, Send(p, a, false));
    more, second := OneCall(c, 3 * XC_PAGE_SIZE);
    CallAdvances(es1, second, 3 * XC_PAGE_SIZE);
    CallStarts(es1, second);
    LastAgain(es1, second);
    stream := stream + more;
    ghost var b1 := Batch(mid, es1, [second], _ => 3 * XC_PAGE_SIZE);
    AddOne(mid, es1[0]);
    OneCallBatch(b1, second, 3 * XC_PAGE_SIZE);
    bs := [b0, b1];
    TwoFlushes(b0, b1, c.cache.slots);
    EndsAll(es, first);
    EndsAll(es1, second);
    KeptRaw(mem, p, a, b);
  }
}
