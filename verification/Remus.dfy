/**
  The sender and the receiver of Remus checkpoints (tools/libxc/xc_compression.c): a batch of
  pages is buffered, compressed against the sender's cache and decoded over the receiver's
  memory.
 */
module Remus {
  import opened Common
  import opened PageDelta
  import opened DeltaCache

  const NR_BUFFER_PAGES: nat := 8192

  /** A page given to xc_compression_add_page; pagetable pages are raw. */
  datatype Send = Send(pfn: nat, page: Page, raw: bool)

  function FullCode(page: Page): seq<Byte> { [FULL_PAGE] + page }

  /** The cache after a page has been compressed. */
  function AfterSend(s: seq<Slot>, e: Send): (t: seq<Slot>)
    requires s != []
    ensures |t| == |s|
  {
    if e.raw then s else var t := Touch(s, e.pfn); t[0 := t[0].(page := e.page)]
  }

  /** What the sender may emit for a page. */
  ghost predicate CodeOk(s: seq<Slot>, e: Send, code: seq<Byte>) {
    if e.raw || !Cached(s, e.pfn) then code == FullCode(e.page)
    else
      && Encodes(code, s[Find(s, e.pfn)].page, e.page) && |code| <= WORST_COMP_PAGE_SIZE
      && (e.page == s[Find(s, e.pfn)].page ==> code == [EMPTY_PAGE])
  }

  function AfterAll(s: seq<Slot>, es: seq<Send>): (t: seq<Slot>)
    requires s != []
    ensures |t| == |s|
    decreases |es|
  {
    if es == [] then s else AfterAll(AfterSend(s, es[0]), es[1..])
  }

  ghost predicate CodesOk(s: seq<Slot>, es: seq<Send>, codes: seq<seq<Byte>>)
    requires s != []
    decreases |es|
  {
    |codes| == |es| && (es != [] ==> CodeOk(s, es[0], codes[0]) && CodesOk(AfterSend(s, es[0]), es[1..], codes[1..]))
  }

  /** Adding raw pages to the buffer invalidates them at once. */
  function AfterAdd(s: seq<Slot>, es: seq<Send>): seq<Slot>
    decreases |es|
  {
    if es == [] then s
    else var t := AfterAdd(s, es[..|es| - 1]);
         if es[|es| - 1].raw then Invalidate(t, es[|es| - 1].pfn) else t
  }

  function Concat(codes: seq<seq<Byte>>): seq<Byte> {
    if codes == [] then [] else codes[0] + Concat(codes[1..])
  }

  // ----- the receiver -----

  type Memory = seq<Page>

  datatype Received = Received(pos: nat, mem: Memory)

  /** The receiver decodes one page after the other, each over its own copy. */
  function DecodeAll(buf: seq<Byte>, pos: nat, mem: Memory, pfns: seq<nat>): Option<Received>
    requires forall i | 0 <= i < |pfns| :: pfns[i] < |mem|
    decreases |pfns|
  {
    if pfns == [] then
      Some(Received(pos, mem))
    else
      match DecodePage(buf, pos, mem[pfns[0]])
      case None => None
      case Some(d) => DecodeAll(buf, d.pos, mem[pfns[0] := d.page], pfns[1..])
  }

  predicate InRange(es: seq<Send>, size: nat) {
    forall i | 0 <= i < |es| :: es[i].pfn < size
  }

  /** The sender's view: the memory after all pages have arrived. */
  function Deliver(mem: Memory, es: seq<Send>): (m: Memory)
    requires InRange(es, |mem|)
    ensures |m| == |mem|
    decreases |es|
  {
    if es == [] then mem else Deliver(mem[es[0].pfn := es[0].page], es[1..])
  }

  function Pfns(es: seq<Send>): seq<nat> {
    seq(|es|, i requires 0 <= i < |es| => es[i].pfn)
  }

  // ----- agreement -----

  /** Every cached page is the receiver's copy of its PFN. */
  ghost predicate Agree(s: seq<Slot>, mem: Memory) {
    forall i | 0 <= i < |s| && s[i].pfn.Some? :: s[i].pfn.value < |mem| && s[i].page == mem[s[i].pfn.value]
  }

  lemma TouchAt(s: seq<Slot>, pfn: nat, i: nat) returns (j: nat)
    requires s != [] && 0 < i < |s|
    ensures j < |s| && Touch(s, pfn)[i] == s[j]
    ensures SlotsOk(s) ==> s[j].pfn != Some(pfn)
  {
    var k := if Cached(s, pfn) then Find(s, pfn) else |s| - 1;
    j := if i <= k then i - 1 else i;
  }

  /** One page decodes to what was sent, and agreement continues.  A raw page must not be cached. */
  lemma AgreeStep(s: seq<Slot>, mem: Memory, e: Send, code: seq<Byte>, buf: seq<Byte>, pos: nat)
    requires s != [] && SlotsOk(s) && Agree(s, mem) && e.pfn < |mem|
    requires CodeOk(s, e, code) && (e.raw ==> !Cached(s, e.pfn))
    requires pos + |code| <= |buf| && buf[pos..pos + |code|] == code
    ensures DecodePage(buf, pos, mem[e.pfn]) == Some(Decoded(pos + |code|, e.page))
    ensures SlotsOk(AfterSend(s, e)) && Agree(AfterSend(s, e), mem[e.pfn := e.page])
  {
    FullEncodes(mem[e.pfn], e.page);
    assert DecodePage(buf, pos, mem[e.pfn]) == Some(Decoded(pos + |code|, e.page));
    hide DecodePage, Encodes;
    TouchOk(s, e.pfn);
    var t, mem' := AfterSend(s, e), mem[e.pfn := e.page];
    forall i | 0 <= i < |t| && t[i].pfn.Some? ensures t[i].pfn.value < |mem'| && t[i].page == mem'[t[i].pfn.value] {
      if !e.raw && i > 0 {
        var j := TouchAt(s, e.pfn, i);
      }
    }
  }

  /** A memory that agrees with the cache and holds `other` everywhere else. */
  ghost function Reference(s: seq<Slot>, size: nat, other: Page): (mem: Memory)
    ensures |mem| == size && forall i | 0 <= i < size :: mem[i] == if Cached(s, i) then s[Find(s, i)].page else other
  {
    seq(size, i requires 0 <= i < size => if Cached(s, i) then s[Find(s, i)].page else other)
  }

  ghost predicate PfnsBelow(s: seq<Slot>, size: nat) {
    forall i | 0 <= i < |s| && s[i].pfn.Some? :: s[i].pfn.value < size
  }

  lemma ReferenceAgrees(s: seq<Slot>, size: nat, other: Page)
    requires SlotsOk(s) && PfnsBelow(s, size)
    ensures Agree(s, Reference(s, size, other))
  {
    forall i | 0 <= i < |s| && s[i].pfn.Some? ensures s[i].page == Reference(s, size, other)[s[i].pfn.value] {
      FindIs(s, s[i].pfn.value, i);
    }
  }

  function Differing(page: Page): (other: Page)
    ensures other != page
  {
    var b: Byte := if page[0] == 0 then 1 else 0;
    assert page[0 := b][0] != page[0];
    page[0 := b]
  }

  /** Every receiver that agrees with the cache s agrees with the cache t. */
  ghost predicate KeepsAgreement(s: seq<Slot>, t: seq<Slot>, size: nat) {
    forall mem: Memory | |mem| == size && Agree(s, mem) :: Agree(t, mem)
  }

  lemma KeepsItself(s: seq<Slot>, size: nat)
    ensures KeepsAgreement(s, s, size)
  {
  }

  /** A page may be sent raw, whatever it holds and whoever receives it, exactly if it is not cached. */
  lemma RawKeepsAgreementIff(s: seq<Slot>, size: nat, pfn: nat)
    requires s != [] && SlotsOk(s) && PfnsBelow(s, size) && pfn < size
    ensures (forall mem: Memory, page: Page | |mem| == size && Agree(s, mem) ::
               Agree(AfterSend(s, Send(pfn, page, true)), mem[pfn := page]))
       <==> !Cached(s, pfn)
  {
    if Cached(s, pfn) {
      var page := s[Find(s, pfn)].page;
      ReferenceAgrees(s, size, page);
      var mem, other := Reference(s, size, page), Differing(page);
      assert !Agree(AfterSend(s, Send(pfn, other, true)), mem[pfn := other]);
    }
  }

  /** A page that is refused for lack of space leaves every receiver in agreement exactly if it is cached. */
  lemma RefusedKeepsAgreementIff(s: seq<Slot>, size: nat, pfn: nat)
    requires s != [] && SlotsOk(s) && PfnsBelow(s, size) && pfn < size
    ensures KeepsAgreement(s, Touch(s, pfn), size) <==> Cached(s, pfn)
  {
    if Cached(s, pfn) {
      forall mem: Memory | |mem| == size && Agree(s, mem) ensures Agree(Touch(s, pfn), mem) {
        RefusedHitKeepsAgreement(s, mem, pfn);
      }
    } else {
      var stale := s[|s| - 1].page;
      var mem := Reference(s, size, Differing(stale));
      ReferenceAgrees(s, size, Differing(stale));
      assert Touch(s, pfn)[0].pfn == Some(pfn) && Touch(s, pfn)[0].page == stale != mem[pfn];
      assert !Agree(Touch(s, pfn), mem);
    }
  }

  /** A refused page that is cached only moves to the front. */
  lemma RefusedHitKeepsAgreement(s: seq<Slot>, mem: Memory, pfn: nat)
    requires SlotsOk(s) && Agree(s, mem) && Cached(s, pfn)
    ensures Agree(Touch(s, pfn), mem) && SlotsOk(Touch(s, pfn)) && Cached(Touch(s, pfn), pfn)
    ensures Touch(Touch(s, pfn), pfn) == Touch(s, pfn)
  {
    TouchOk(s, pfn);
    var t := Touch(s, pfn);
    forall i | 0 <= i < |t| && t[i].pfn.Some? ensures t[i].pfn.value < |mem| && t[i].page == mem[t[i].pfn.value] {
      if i > 0 {
        var j := TouchAt(s, pfn, i);
      }
    }
    FindIs(t, pfn, 0);
  }

  /** No PFN is added raw after it has been added as an ordinary page of the same batch. */
  ghost predicate Orderly(es: seq<Send>) {
    forall i, j | 0 <= i < j < |es| && !es[i].raw && es[j].raw :: es[i].pfn != es[j].pfn
  }

  /** The raw pages still to be sent are not cached. */
  ghost predicate RawUncached(s: seq<Slot>, es: seq<Send>) {
    forall i, j | 0 <= i < |es| && es[i].raw && 0 <= j < |s| :: s[j].pfn != Some(es[i].pfn)
  }

  lemma RawUncachedStep(s: seq<Slot>, es: seq<Send>)
    requires s != [] && SlotsOk(s) && es != [] && Orderly(es) && RawUncached(s, es)
    ensures RawUncached(AfterSend(s, es[0]), es[1..])
  {
    var e, t := es[0], AfterSend(s, es[0]);
    forall i, j | 0 <= i < |es[1..]| && es[1..][i].raw && 0 <= j < |t| ensures t[j].pfn != Some(es[1..][i].pfn) {
      assert es[1..][i] == es[i + 1];
      if !e.raw {
        if j == 0 {
          TouchOk(s, e.pfn);
        } else {
          var k := TouchAt(s, e.pfn, j);
        }
      }
    }
  }

  /** Each raw page is uncached when its turn comes. */
  ghost predicate RawInvalid(s: seq<Slot>, es: seq<Send>)
    requires s != []
    decreases |es|
  {
    es != [] ==> (es[0].raw ==> !Cached(s, es[0].pfn)) && RawInvalid(AfterSend(s, es[0]), es[1..])
  }

  lemma {:induction false} OrderlyIsRawInvalid(s: seq<Slot>, es: seq<Send>)
    requires s != [] && SlotsOk(s) && Orderly(es) && RawUncached(s, es)
    ensures RawInvalid(s, es)
    decreases |es|
  {
    if es != [] {
      RawUncachedStep(s, es);
      TouchOk(s, es[0].pfn);
      OrderlyIsRawInvalid(AfterSend(s, es[0]), es[1..]);
    }
  }

  /** The pages of a batch decode, one after the other, each to what was sent. */
  ghost predicate Arrives(buf: seq<Byte>, pos: nat, mem: Memory, es: seq<Send>, codes: seq<seq<Byte>>)
    requires InRange(es, |mem|) && |codes| == |es|
    decreases |es|
  {
    es != [] ==>
      && DecodePage(buf, pos, mem[es[0].pfn]) == Some(Decoded(pos + |codes[0]|, es[0].page))
      && Arrives(buf, pos + |codes[0]|, mem[es[0].pfn := es[0].page], es[1..], codes[1..])
  }

  /** The first page of a batch decodes to what was sent. */
  lemma {:induction false} FirstPage(s: seq<Slot>, mem: Memory, es: seq<Send>, codes: seq<seq<Byte>>,
      buf: seq<Byte>, pos: nat)
    requires es != [] && Mirrors(s, mem) && RawInvalid(s, es) && InRange(es, |mem|)
    requires CodesOk(s, es, codes) && StandsAt(buf, pos, codes)
    ensures DecodePage(buf, pos, mem[es[0].pfn]) == Some(Decoded(pos + |codes[0]|, es[0].page))
    ensures Mirrors(AfterSend(s, es[0]), mem[es[0].pfn := es[0].page])
    ensures StandsAt(buf, pos + |codes[0]|, codes[1..])
  {
    hide SlotsOk, AfterSend;
    ConcatAt(buf, pos, codes);
    AgreeStep(s, mem, es[0], codes[0], buf, pos);
  }

  lemma {:induction false} BatchArrives(s: seq<Slot>, mem: Memory, es: seq<Send>, codes: seq<seq<Byte>>,
      buf: seq<Byte>, pos: nat)
    requires Mirrors(s, mem) && RawInvalid(s, es) && InRange(es, |mem|)
    requires CodesOk(s, es, codes) && StandsAt(buf, pos, codes)
    ensures Arrives(buf, pos, mem, es, codes)
    ensures Mirrors(AfterAll(s, es), Deliver(mem, es))
    decreases |es|
  {
    hide SlotsOk, AfterSend;
    if es != [] {
      FirstPage(s, mem, es, codes, buf, pos);
      BatchArrives(AfterSend(s, es[0]), mem[es[0].pfn := es[0].page], es[1..], codes[1..], buf, pos + |codes[0]|);
    }
  }

  lemma {:induction false} ArrivesIsReceived(buf: seq<Byte>, pos: nat, mem: Memory, es: seq<Send>,
      codes: seq<seq<Byte>>)
    requires InRange(es, |mem|) && |codes| == |es| && Arrives(buf, pos, mem, es, codes)
    ensures Receive(buf, pos, mem, es) == Some(Received(pos + |Concat(codes)|, Deliver(mem, es)))
    decreases |es|
  {
    if es != [] {
      ReceiveStep(buf, pos, mem, es, pos + |codes[0]|);
      ArrivesIsReceived(buf, pos + |codes[0]|, mem[es[0].pfn := es[0].page], es[1..], codes[1..]);
    }
  }

  lemma CodesLength(s: seq<Slot>, es: seq<Send>, codes: seq<seq<Byte>>)
    requires s != [] && CodesOk(s, es, codes)
    ensures |codes| == |es|
  {
  }

  lemma Whole(codes: seq<seq<Byte>>)
    ensures StandsAt(Concat(codes), 0, codes)
  {
    assert Concat(codes)[0..|Concat(codes)|] == Concat(codes);
  }

  /** The stream of a batch decodes, at the receiver, to exactly the pages that were sent. */
  lemma BatchDecodes(s: seq<Slot>, mem: Memory, es: seq<Send>, codes: seq<seq<Byte>>)
    requires s != [] && Mirrors(s, mem) && RawInvalid(s, es) && InRange(es, |mem|) && CodesOk(s, es, codes)
    ensures Receive(Concat(codes), 0, mem, es) == Some(Received(|Concat(codes)|, Deliver(mem, es)))
    ensures Mirrors(AfterAll(s, es), Deliver(mem, es))
  {
    hide SlotsOk, AfterSend, AfterAll, CodesOk, RawInvalid, Arrives, Receive, Concat, Mirrors, InRange, Deliver;
    var stream := Concat(codes);
    CodesLength(s, es, codes);
    Whole(codes);
    BatchArrives(s, mem, es, codes, stream, 0);
    ArrivesIsReceived(stream, 0, mem, es, codes);
  }

  ghost predicate Mirrors(s: seq<Slot>, mem: Memory) {
    s != [] && SlotsOk(s) && Agree(s, mem)
  }

  /** The codes stand in the buffer at pos, one after the other. */
  ghost predicate StandsAt(buf: seq<Byte>, pos: nat, codes: seq<seq<Byte>>) {
    pos + |Concat(codes)| <= |buf| && buf[pos..pos + |Concat(codes)|] == Concat(codes)
  }

  /** The receiver takes the PFNs of a batch, in order, from the page list that precedes the stream. */
  ghost function Receive(buf: seq<Byte>, pos: nat, mem: Memory, es: seq<Send>): Option<Received>
    requires InRange(es, |mem|)
  {
    DecodeAll(buf, pos, mem, Pfns(es))
  }

  lemma ReceiveStep(buf: seq<Byte>, pos: nat, mem: Memory, es: seq<Send>, next: nat)
    requires es != [] && InRange(es, |mem|)
    requires DecodePage(buf, pos, mem[es[0].pfn]) == Some(Decoded(next, es[0].page))
    ensures Receive(buf, pos, mem, es) == Receive(buf, next, mem[es[0].pfn := es[0].page], es[1..])
  {
    assert Pfns(es)[1..] == Pfns(es[1..]);
  }

  lemma ConcatAt(buf: seq<Byte>, pos: nat, codes: seq<seq<Byte>>)
    requires codes != [] && StandsAt(buf, pos, codes)
    ensures pos + |codes[0]| <= |buf| && buf[pos..pos + |codes[0]|] == codes[0]
    ensures StandsAt(buf, pos + |codes[0]|, codes[1..])
  {
    var code, rest := codes[0], Concat(codes[1..]);
    SubSlice(buf, pos, code + rest, 0, |code|);
    SubSlice(buf, pos, code + rest, |code|, |code + rest|);
    assert (code + rest)[0..|code|] == code && (code + rest)[|code|..|code + rest|] == rest;
  }

  /** Buffering a batch keeps agreement and frees the slots of its raw pages. */
  lemma {:induction false} AddKeepsAgreement(s: seq<Slot>, mem: Memory, es: seq<Send>)
    requires SlotsOk(s) && Agree(s, mem)
    ensures var t := AfterAdd(s, es);
            |t| == |s| && SlotsOk(t) && Agree(t, mem) && RawUncached(t, es)
    decreases |es|
  {
    if es != [] {
      var init, e := es[..|es| - 1], es[|es| - 1];
      AddKeepsAgreement(s, mem, init);
      var t := AfterAdd(s, init);
      if e.raw {
        InvalidateOk(t, e.pfn);
        InvalidateKeepsAgreement(t, mem, e.pfn);
      }
      var t' := AfterAdd(s, es);
      forall i, j | 0 <= i < |es| && es[i].raw && 0 <= j < |t'| ensures t'[j].pfn != Some(es[i].pfn) {
        if i < |es| - 1 {
          assert init[i] == es[i];
          if e.raw {
            var k := InvalidateAt(t, e.pfn, j);
          }
        }
      }
    }
  }

  lemma InvalidateAt(s: seq<Slot>, pfn: nat, i: nat) returns (j: nat)
    requires i < |s| && |Invalidate(s, pfn)| == |s|
    ensures j < |s| && (Invalidate(s, pfn)[i] == s[j] || Invalidate(s, pfn)[i].pfn.None?)
  {
    var k := Find(s, pfn);
    j := if k == |s| || i < k then i else if i < |s| - 1 then i + 1 else k;
  }

  lemma InvalidateKeepsAgreement(s: seq<Slot>, mem: Memory, pfn: nat)
    requires SlotsOk(s) && Agree(s, mem)
    ensures Agree(Invalidate(s, pfn), mem)
  {
    InvalidateOk(s, pfn);
    var t := Invalidate(s, pfn);
    forall i | 0 <= i < |t| && t[i].pfn.Some? ensures t[i].pfn.value < |mem| && t[i].page == mem[t[i].pfn.value] {
      var j := InvalidateAt(s, pfn, i);
    }
  }

  /** A PFN ends up with the last page that was sent for it. */
  lemma {:induction false} DeliverLast(mem: Memory, es: seq<Send>, i: nat)
    requires InRange(es, |mem|) && i < |es| && forall j | i < j < |es| :: es[j].pfn != es[i].pfn
    ensures Deliver(mem, es)[es[i].pfn] == es[i].page
    decreases |es|
  {
    var mem' := mem[es[0].pfn := es[0].page];
    if i > 0 {
      DeliverLast(mem', es[1..], i - 1);
    } else {
      DeliverOthers(mem', es[1..], es[0].pfn);
    }
  }

  lemma {:induction false} DeliverOthers(mem: Memory, es: seq<Send>, pfn: nat)
    requires InRange(es, |mem|) && pfn < |mem| && forall j | 0 <= j < |es| :: es[j].pfn != pfn
    ensures Deliver(mem, es)[pfn] == mem[pfn]
    decreases |es|
  {
    if es != [] {
      DeliverOthers(mem[es[0].pfn := es[0].page], es[1..], pfn);
    }
  }

  // ----- the compression context -----

  /** The space the sender insists on before it emits a page. */
  function Needed(s: seq<Slot>, e: Send): nat {
    if e.raw || !Cached(s, e.pfn) then FULL_PAGE_SIZE else WORST_COMP_PAGE_SIZE
  }

  /** The cache after a page has been refused for lack of space. */
  function AfterRefusal(s: seq<Slot>, e: Send): seq<Slot>
    requires s != []
  {
    if e.raw then s else Touch(s, e.pfn)
  }

  /** A refused page that was cached, or is raw, can be taken up again as if it had never been refused. */
  lemma ResumeAfterHit(s: seq<Slot>, es: seq<Send>, codes: seq<seq<Byte>>)
    requires s != [] && SlotsOk(s) && es != [] && (es[0].raw || Cached(s, es[0].pfn))
    ensures var t := AfterRefusal(s, es[0]);
            |t| == |s| && (CodesOk(t, es, codes) <==> CodesOk(s, es, codes)) && AfterAll(t, es) == AfterAll(s, es)
  {
    var e := es[0];
    if !e.raw {
      TouchOk(s, e.pfn);
      var t := Touch(s, e.pfn);
      FindIs(t, e.pfn, 0);
      assert Touch(t, e.pfn) == t && t[0] == s[Find(s, e.pfn)];
    }
  }

  // ----- whole runs -----

  /** One call of xc_compression_compress_pages: the cache before it and the codes it emits for the
      pages from..to of a batch. */
  datatype Call = Call(before: seq<Slot>, from: nat, to: nat, codes: seq<seq<Byte>>)

  ghost predicate CallOk(es: seq<Send>, c: Call) {
    c.before != [] && c.from <= c.to <= |es| && CodesOk(c.before, es[c.from..c.to], c.codes)
  }

  /** The cache once the pages of the call have been emitted. */
  ghost function Reached(es: seq<Send>, c: Call): (t: seq<Slot>)
    requires CallOk(es, c)
    ensures |t| == |c.before|
  {
    AfterAll(c.before, es[c.from..c.to])
  }

  /** The cache when the call returns: it has refused the next page, if there is one. */
  ghost function CallEnd(es: seq<Send>, c: Call): seq<Slot>
    requires CallOk(es, c)
  {
    if c.to == |es| then Reached(es, c) else AfterRefusal(Reached(es, c), es[c.to])
  }

  /** The call ends by refusing a page that is neither raw nor cached. */
  ghost predicate RefusesMiss(es: seq<Send>, c: Call)
    requires CallOk(es, c)
  {
    c.to < |es| && !es[c.to].raw && !Cached(Reached(es, c), es[c.to].pfn)
  }

  /** The calls cs, one after the other, take the cache from s to t and emit the first n pages. */
  ghost predicate Chain(s: seq<Slot>, es: seq<Send>, cs: seq<Call>, n: nat, t: seq<Slot>)
    decreases |cs|
  {
    if cs == [] then
      n == 0 && t == s
    else
      var c := cs[|cs| - 1];
      CallOk(es, c) && Chain(s, es, cs[..|cs| - 1], c.from, c.before) && n == c.to && t == CallEnd(es, c)
  }

  ghost predicate NoMissRefused(es: seq<Send>, cs: seq<Call>) {
    forall i | 0 <= i < |cs| :: CallOk(es, cs[i]) && !RefusesMiss(es, cs[i])
  }

  ghost function AllCodes(cs: seq<Call>): seq<seq<Byte>> {
    if cs == [] then [] else AllCodes(cs[..|cs| - 1]) + cs[|cs| - 1].codes
  }

  /** The cache u is a, or what is left of it once page n has been refused. */
  ghost predicate RefusedFrom(a: seq<Slot>, es: seq<Send>, n: nat, u: seq<Slot>)
    requires a != []
  {
    u == a || (n < |es| && (es[n].raw || Cached(a, es[n].pfn)) && u == AfterRefusal(a, es[n]))
  }

  ghost predicate UpToRefusal(s: seq<Slot>, es: seq<Send>, n: nat, u: seq<Slot>)
    requires s != [] && n <= |es|
  {
    RefusedFrom(AfterAll(s, es[..n]), es, n, u)
  }

  lemma {:induction false} AfterAllConcat(s: seq<Slot>, a: seq<Send>, b: seq<Send>)
    requires s != []
    ensures AfterAll(s, a + b) == AfterAll(AfterAll(s, a), b)
    decreases |a|
  {
    hide AfterSend;
    if a == [] {
      assert a + b == b;
    } else {
      assert (a + b)[1..] == a[1..] + b;
      AfterAllConcat(AfterSend(s, a[0]), a[1..], b);
    }
  }

  lemma {:induction false} CodesConcat(s: seq<Slot>, a: seq<Send>, c: seq<seq<Byte>>, b: seq<Send>, d: seq<seq<Byte>>)
    requires s != [] && CodesOk(s, a, c) && CodesOk(AfterAll(s, a), b, d)
    ensures CodesOk(s, a + b, c + d)
    decreases |a|
  {
    hide AfterSend, CodeOk;
    if a == [] {
      assert a + b == b && c + d == d;
    } else {
      assert (a + b)[1..] == a[1..] + b && (c + d)[1..] == c[1..] + d;
      CodesConcat(AfterSend(s, a[0]), a[1..], c[1..], b, d);
    }
  }

  /** A call that starts where a page was refused goes on as if it had not been. */
  lemma ResumeCall(s: seq<Slot>, es: seq<Send>, codes: seq<seq<Byte>>, c: Call)
    requires s != [] && SlotsOk(s) && CallOk(es, c) && !RefusesMiss(es, c)
    requires CodesOk(s, es[..c.from], codes) && UpToRefusal(s, es, c.from, c.before)
    ensures CodesOk(s, es[..c.to], codes + c.codes) && UpToRefusal(s, es, c.to, CallEnd(es, c))
  {
    hide AfterSend, CodeOk, SlotsOk, Cached, AfterRefusal;
    var a, b := AfterAll(s, es[..c.from]), es[c.from..c.to];
    AfterAllOk(s, es[..c.from]);
    assert es[..c.to] == es[..c.from] + b;
    AfterAllConcat(s, es[..c.from], b);
    if b == [] {
      assert codes + c.codes == codes && es[..c.to] == es[..c.from];
      RefusedAgain(a, es, c);
    } else {
      assert b[0] == es[c.from];
      if c.before != a {
        ResumeAfterHit(a, b, c.codes);
      }
      CodesConcat(s, es[..c.from], codes, b, c.codes);
    }
  }

  /** Refusing the same page again changes nothing. */
  lemma RefusedAgain(a: seq<Slot>, es: seq<Send>, c: Call)
    requires a != [] && SlotsOk(a) && CallOk(es, c) && !RefusesMiss(es, c) && c.from == c.to
    requires RefusedFrom(a, es, c.from, c.before)
    ensures RefusedFrom(a, es, c.to, CallEnd(es, c))
  {
    assert Reached(es, c) == c.before;
    if c.to < |es| && !es[c.to].raw && Cached(a, es[c.to].pfn) {
      TouchTwice(a, es[c.to].pfn);
    }
  }

  lemma TouchTwice(s: seq<Slot>, pfn: nat)
    requires SlotsOk(s) && Cached(s, pfn)
    ensures Touch(s, pfn) != [] && Touch(Touch(s, pfn), pfn) == Touch(s, pfn)
  {
    TouchOk(s, pfn);
    FindIs(Touch(s, pfn), pfn, 0);
  }

  /** Agreement does not depend on how the pages are divided among the calls. */
  lemma {:induction false} ChainIsCodes(s: seq<Slot>, es: seq<Send>, cs: seq<Call>, n: nat, t: seq<Slot>)
    requires s != [] && SlotsOk(s) && Chain(s, es, cs, n, t) && NoMissRefused(es, cs)
    ensures n <= |es| && CodesOk(s, es[..n], AllCodes(cs)) && UpToRefusal(s, es, n, t)
    decreases |cs|
  {
    hide AfterSend, CodeOk, SlotsOk;
    if cs != [] {
      var c := cs[|cs| - 1];
      ChainIsCodes(s, es, cs[..|cs| - 1], c.from, c.before);
      ResumeCall(s, es, AllCodes(cs[..|cs| - 1]), c);
    }
  }

  lemma {:induction false} AfterAllOk(s: seq<Slot>, es: seq<Send>)
    requires s != [] && SlotsOk(s)
    ensures SlotsOk(AfterAll(s, es))
    decreases |es|
  {
    if es != [] {
      AfterSendOk(s, es[0]);
      hide SlotsOk, AfterSend;
      AfterAllOk(AfterSend(s, es[0]), es[1..]);
    }
  }

  lemma AfterSendOk(s: seq<Slot>, e: Send)
    requires s != [] && SlotsOk(s)
    ensures SlotsOk(AfterSend(s, e))
  {
    TouchOk(s, e.pfn);
  }

  /** The sender's cache after a batch. */
  ghost function AfterBatch(s: seq<Slot>, es: seq<Send>): seq<Slot>
    requires AfterAdd(s, es) != []
  {
    AfterAll(AfterAdd(s, es), es)
  }

  lemma {:induction false} AfterAllAppend(s: seq<Slot>, es: seq<Send>, e: Send)
    requires s != []
    ensures AfterAll(s, es + [e]) == AfterSend(AfterAll(s, es), e)
    decreases |es|
  {
    hide AfterSend;
    if es == [] {
      assert (es + [e])[1..] == [];
    } else {
      assert (es + [e])[1..] == es[1..] + [e];
      AfterAllAppend(AfterSend(s, es[0]), es[1..], e);
    }
  }

  lemma {:induction false} CodesAppend(s: seq<Slot>, es: seq<Send>, codes: seq<seq<Byte>>, e: Send, code: seq<Byte>)
    requires s != [] && CodesOk(s, es, codes) && CodeOk(AfterAll(s, es), e, code)
    ensures CodesOk(s, es + [e], codes + [code])
    decreases |es|
  {
    hide AfterSend, CodeOk;
    if es == [] {
      assert (es + [e])[1..] == [] && (codes + [code])[1..] == [];
    } else {
      assert (es + [e])[1..] == es[1..] + [e] && (codes + [code])[1..] == codes[1..] + [code];
      CodesAppend(AfterSend(s, es[0]), es[1..], codes[1..], e, code);
    }
  }

  lemma {:induction false} ConcatAppend(codes: seq<seq<Byte>>, code: seq<Byte>)
    ensures Concat(codes + [code]) == Concat(codes) + code
  {
    if codes == [] {
      assert (codes + [code])[1..] == [];
    } else {
      assert (codes + [code])[1..] == codes[1..] + [code];
      ConcatAppend(codes[1..], code);
    }
  }

  lemma TouchIs(cache: Cache, pfn: nat)
    requires cache.Valid()
    ensures cache.slots != [] && cache.head.page == cache.slots[0].page
    ensures var s := cache.slots; |Touch(s, pfn)| == |s| && (Cached(s, pfn) ==> Touch(s, pfn)[0] == s[Find(s, pfn)])
  {
  }

  lemma SlotsBelow(cache: Cache)
    requires cache.Valid()
    ensures cache.slots != [] && SlotsOk(cache.slots) && PfnsBelow(cache.slots, cache.pfn2cache.Length)
  {
    forall i | 0 <= i < |cache.slots| && cache.slots[i].pfn.Some?
      ensures cache.slots[i].pfn.value < cache.pfn2cache.Length
    {
      assert cache.order[i] in cache.order;
    }
  }

  /** When refusing the page e leaves every receiver in agreement. */
  lemma RefusalIff(s: seq<Slot>, size: nat, e: Send)
    requires s != [] && SlotsOk(s) && PfnsBelow(s, size) && e.pfn < size
    ensures KeepsAgreement(s, AfterRefusal(s, e), size) <==> e.raw || Cached(s, e.pfn)
  {
    if !e.raw {
      RefusedKeepsAgreementIff(s, size, e.pfn);
    }
  }

  class Compressor {
    const cache: Cache
    var sendbuf: seq<Option<nat>>
    var inputbuf: seq<Page>
    var index: nat
    ghost var sends: seq<Send>

    ghost predicate Buffered()
      reads this
    {
      && |sends| == |sendbuf| == |inputbuf| <= NR_BUFFER_PAGES && index <= |sends|
      && (forall i | 0 <= i < |sends| ::
            inputbuf[i] == sends[i].page && sendbuf[i] == if sends[i].raw then None else Some(sends[i].pfn))
      && InRange(sends, cache.pfn2cache.Length)
    }

    ghost predicate Valid()
      reads this, cache, cache.nodes, cache.order, cache.pfn2cache
    {
      Buffered() && cache.Valid()
    }

    constructor (memory: seq<Page>, p2mSize: nat)
      requires |memory| > 0
      ensures Valid() && fresh(cache) && fresh(cache.nodes) && fresh(cache.pfn2cache)
      ensures sends == [] && index == 0 && cache.pfn2cache.Length == p2mSize
      ensures cache.slots == seq(|memory|, i requires 0 <= i < |memory| => Slot(None, memory[i]))
    {
      cache := new Cache(memory, p2mSize);
      sendbuf, inputbuf, index, sends := [], [], 0, [];
    }

    method Enqueue(page: Page, pfn: nat, raw: bool)
      requires Buffered() && |sends| < NR_BUFFER_PAGES && pfn < cache.pfn2cache.Length
      modifies this`sendbuf, this`inputbuf, this`sends
      ensures Buffered() && sends == old(sends) + [Send(pfn, page, raw)]
    {
      sendbuf := sendbuf + [if raw then None else Some(pfn)];
      inputbuf := inputbuf + [page];
      sends := sends + [Send(pfn, page, raw)];
    }

    /** xc_compression_add_page */
    method AddPage(page: Page, pfn: nat, raw: bool) returns (rc: int)
      requires Valid() && |sends| < NR_BUFFER_PAGES && pfn != cache.pfn2cache.Length
      modifies this`sendbuf, this`inputbuf, this`sends
      modifies cache`head, cache`tail, cache`order, cache`slots
      modifies cache.nodes`next, cache.nodes`prev, cache.nodes`pfn, cache.pfn2cache
      ensures Valid()
      ensures rc == if pfn > cache.pfn2cache.Length then -2 else if |sends| == NR_BUFFER_PAGES then -1 else 0
      ensures rc == -2 ==> sends == old(sends) && cache.slots == old(cache.slots)
      ensures rc != -2 ==> sends == old(sends) + [Send(pfn, page, raw)]
      ensures rc != -2 ==> cache.slots == if raw then Invalidate(old(cache.slots), pfn) else old(cache.slots)
    {
      if pfn > cache.pfn2cache.Length {
        return -2;
      }
      hide Linked, Tied, SlotsOk, Invalidate, InRange;
      if raw {
        cache.InvalidatePage(pfn);
      }
      Enqueue(page, pfn, raw);
      return if |sendbuf| == NR_BUFFER_PAGES then -1 else 0;
    }

    /** The body of the loop of xc_compression_compress_pages. */
    method CompressNext(space: nat) returns (code: Option<seq<Byte>>)
      requires Valid() && index < |sends|
      modifies cache`head, cache`tail, cache`order, cache`slots, cache.nodes, cache.pfn2cache
      ensures Valid() && cache.slots != []
      ensures old(cache.slots) != []
      ensures code.None? <==> space < Needed(old(cache.slots), sends[index])
      ensures code.None? ==> cache.slots == AfterRefusal(old(cache.slots), sends[index])
      ensures code.Some? ==> |code.value| <= space && CodeOk(old(cache.slots), sends[index], code.value)
      ensures code.Some? ==> cache.slots == AfterSend(old(cache.slots), sends[index])
    {
      hide Linked, Tied, SlotsOk, MoveToFront;
      ghost var s, e := cache.slots, sends[index];
      assert s != [] && |Touch(s, e.pfn)| == |s| && (Cached(s, e.pfn) ==> Touch(s, e.pfn)[0] == s[Find(s, e.pfn)]) by {
        TouchIs(cache, e.pfn);
      }
      var page, full := inputbuf[index], true;
      if sendbuf[index].Some? {
        full := cache.GetCachePage(sendbuf[index].value);
      }
      if full {
        if FULL_PAGE_SIZE > space {
          return None;
        }
        if sendbuf[index].Some? {
          cache.SetPage(page);
        }
        return Some(FullCode(page));
      }
      assert cache.head.page == cache.slots[0].page by {
        TouchIs(cache, e.pfn);
      }
      var copy;
      code, copy := CompressPage(page, cache.head.page, space);
      assert code.None? ==> cache.slots[0 := cache.slots[0].(page := copy)] == cache.slots;
      cache.SetPage(copy);
    }

    /** What a call of xc_compression_compress_pages has done so far. */
    ghost predicate Emitted(s: seq<Slot>, from: nat, codes: seq<seq<Byte>>, out: seq<Byte>, space: nat)
      reads this, cache
    {
      && from <= index <= |sends| && s != []
      && CodesOk(s, sends[from..index], codes)
      && out == Concat(codes) && |out| <= space
    }

    lemma EmittedNext(s: seq<Slot>, from: nat, codes: seq<seq<Byte>>, out: seq<Byte>, space: nat, code: seq<Byte>)
      requires Emitted(s, from, codes, out, space) && index < |sends|
      requires CodeOk(AfterAll(s, sends[from..index]), sends[index], code) && |out| + |code| <= space
      ensures CodesOk(s, sends[from..index + 1], codes + [code]) && out + code == Concat(codes + [code])
      ensures AfterAll(s, sends[from..index + 1]) == AfterSend(AfterAll(s, sends[from..index]), sends[index])
    {
      hide AfterSend, CodeOk;
      assert sends[from..index + 1] == sends[from..index] + [sends[index]];
      AfterAllAppend(s, sends[from..index], sends[index]);
      CodesAppend(s, sends[from..index], codes, sends[index], code);
      ConcatAppend(codes, code);
    }

    method Advance()
      requires Valid() && index < |sends|
      modifies this`index
      ensures Valid() && index == old(index) + 1
    {
      hide Cache.Valid, InRange;
      index := index + 1;
    }

    /** xc_compression_reset_pagebuf */
    method Reset()
      requires Valid()
      modifies this`sendbuf, this`inputbuf, this`index, this`sends
      ensures Valid() && sends == [] && index == 0
    {
      sendbuf, inputbuf, index, sends := [], [], 0, [];
    }

    lemma Refusal(i: nat)
      requires Valid() && i < |sends|
      ensures cache.slots != []
      ensures KeepsAgreement(cache.slots, AfterRefusal(cache.slots, sends[i]), cache.pfn2cache.Length) <==>
        sends[i].raw || Cached(cache.slots, sends[i].pfn)
    {
      SlotsBelow(cache);
      RefusalIff(cache.slots, cache.pfn2cache.Length, sends[i]);
    }

    /**
      xc_compression_compress_pages.  It emits the buffered pages in order until none is left
      (1) or the next one is refused (-1); called with nothing left it empties the buffer (0).
     */
    method CompressPages(space: nat) returns (rc: int, out: seq<Byte>, ghost codes: seq<seq<Byte>>)
      requires Valid()
      modifies this`sendbuf, this`inputbuf, this`index, this`sends
      modifies cache`head, cache`tail, cache`order, cache`slots, cache.nodes, cache.pfn2cache
      ensures Valid()
      ensures rc == 0 <==> old(index) == old(|sends|)
      ensures rc == 0 ==> sends == [] && index == 0 && out == [] && cache.slots == old(cache.slots)
      ensures rc != 0 ==> sends == old(sends) && Emitted(old(cache.slots), old(index), codes, out, space)
      ensures rc != 0 ==>
        var reached := AfterAll(old(cache.slots), sends[old(index)..index]);
        if index == |sends| then
          rc == 1 && cache.slots == reached
        else
          && rc == -1 && |out| + Needed(reached, sends[index]) > space
          && cache.slots == AfterRefusal(reached, sends[index])
      ensures rc != 0 ==>
        var reached := AfterAll(old(cache.slots), sends[old(index)..index]);
        KeepsAgreement(reached, cache.slots, cache.pfn2cache.Length) <==>
          index == |sends| || sends[index].raw || Cached(reached, sends[index].pfn)
    {
      hide Linked, Tied, SlotsOk, AfterSend, CodeOk, AfterRefusal, Needed, KeepsAgreement;
      rc, out, codes := 1, [], [];
      if index == |sendbuf| {
        Reset();
        return 0, [], [];
      }
      ghost var s, from := cache.slots, index;
      assert sends[from..index] == [];
      assert s != [] by {
        TouchIs(cache, 0);
      }
      while index < |sendbuf|
        invariant Valid() && sends == old(sends) && s == old(cache.slots) && from == old(index)
        invariant Emitted(s, from, codes, out, space) && cache.slots == AfterAll(s, sends[from..index])
      {
        ghost var reached, size := cache.slots, cache.pfn2cache.Length;
        assert KeepsAgreement(reached, AfterRefusal(reached, sends[index]), size) <==>
            sends[index].raw || Cached(reached, sends[index].pfn) by {
          Refusal(index);
        }
        var code := CompressNext(space - |out|);
        if code.None? {
          return -1, out, codes;
        }
        EmittedNext(s, from, codes, out, space, code.value);
        out, codes := out + code.value, codes + [code.value];
        Advance();
      }
      KeepsItself(cache.slots, cache.pfn2cache.Length);
    }
  }
}
