/**
  The page codec of the Remus checkpoint compressor (tools/libxc/xc_compression.c).

  A page is 4096 bytes, compared in words of four bytes.  A compressed page is one marker
  byte, or a list of runs: a header byte whose top bit says skip or copy and whose low seven
  bits count words, followed, for a copy, by the bytes.
 */
module PageDelta {
  import opened Common

  const XC_PAGE_SIZE: nat := 4096
  const WORD: nat := 4
  const MAX_DELTAS: nat := 1024
  const LENMASK: nat := 127
  const SKIPFLAG: nat := 128
  const EMPTY_PAGE: nat := 0
  const FULL_PAGE: nat := 128
  const FULL_PAGE_SIZE: nat := XC_PAGE_SIZE + 1
  const WORST_COMP_PAGE_SIZE: nat := XC_PAGE_SIZE + 9

  type Byte = b: nat | b < 256

  type Page = p: seq<Byte> | |p| == XC_PAGE_SIZE
    witness seq(XC_PAGE_SIZE, _ => 0)

  /** The decoder's position in the buffer and the page it has produced so far. */
  datatype Decoded = Decoded(pos: nat, page: Page)

  /** The page with the bytes `run` copied in at `at`. */
  function Patch(page: Page, at: nat, run: seq<Byte>): Page
    requires at + |run| <= XC_PAGE_SIZE
  {
    page[..at] + run + page[at + |run|..]
  }

  // ----- xc_compression_uncompress_page as a function -----

  /** The run loop, with the checks of the source in their order. */
  function DecodeRuns(buf: seq<Byte>, pos: nat, page: Page, at: nat): Option<Decoded>
    requires pos < |buf|
    decreases |buf| - pos, 0
  {
    var len := buf[pos] % SKIPFLAG * WORD;
    if len == 0 then
      None
    else if buf[pos] < SKIPFLAG then
      if pos + 1 + len > |buf| || at + len > XC_PAGE_SIZE then
        None
      else
        AfterRun(buf, pos + 1 + len, Patch(page, at, buf[pos + 1..pos + 1 + len]), at + len)
    else
      AfterRun(buf, pos + 1, page, at + len)
  }

  function AfterRun(buf: seq<Byte>, pos: nat, page: Page, at: nat): Option<Decoded>
    requires pos <= |buf|
    decreases |buf| - pos, 1
  {
    if at < XC_PAGE_SIZE && pos < |buf| then DecodeRuns(buf, pos, page, at)
    else if at == XC_PAGE_SIZE then Some(Decoded(pos, page))
    else None
  }

  function DecodePage(buf: seq<Byte>, pos: nat, page: Page): Option<Decoded> {
    if pos >= |buf| then
      None
    else if buf[pos] == EMPTY_PAGE then
      Some(Decoded(pos + 1, page))
    else if buf[pos] == FULL_PAGE then
      if pos + FULL_PAGE_SIZE > |buf| then None
      else Some(Decoded(pos + FULL_PAGE_SIZE, buf[pos + 1..pos + FULL_PAGE_SIZE]))
    else
      DecodeRuns(buf, pos, page, 0)
  }

  /** Wherever `code` stands in a buffer, decoding it over `old` yields `new` and consumes exactly `code`. */
  ghost predicate Encodes(code: seq<Byte>, before: Page, after: Page) {
    forall buf: seq<Byte>, pos: nat | pos + |code| <= |buf| && buf[pos..pos + |code|] == code ::
      DecodePage(buf, pos, before) == Some(Decoded(pos + |code|, after))
  }

  // ----- lists of runs -----

  datatype Progress = Progress(page: Page, at: nat)

  /** The words that a run header counts, in bytes. */
  function RunBytes(header: Byte): nat { header % SKIPFLAG * WORD }

  /** The length of a run in the code: a skip is its header only. */
  function RunSize(header: Byte): nat {
    if header >= SKIPFLAG then 1 else 1 + RunBytes(header)
  }

  /** Executes the first run of a code. */
  function Step(code: seq<Byte>, p: Progress): Option<Progress>
    requires code != []
  {
    var len := RunBytes(code[0]);
    if len == 0 || p.at + len > XC_PAGE_SIZE || RunSize(code[0]) > |code| then None
    else if code[0] >= SKIPFLAG then Some(Progress(p.page, p.at + len))
    else Some(Progress(Patch(p.page, p.at, code[1..1 + len]), p.at + len))
  }

  /** Executes a list of runs that fills `code` exactly. */
  function Execute(code: seq<Byte>, p: Progress): Option<Progress>
    decreases |code|
  {
    if code == [] then
      Some(p)
    else
      match Step(code, p)
      case None => None
      case Some(q) => Execute(code[RunSize(code[0])..], q)
  }

  /** The header and, for a copy, the bytes of one run. */
  function RunCode(copying: bool, bytes: seq<Byte>): seq<Byte>
    requires |bytes| % WORD == 0 && 0 < |bytes| / WORD <= LENMASK
  {
    if copying then [|bytes| / WORD] + bytes else [|bytes| / WORD + SKIPFLAG]
  }

  lemma StepAppend(code: seq<Byte>, p: Progress, run: seq<Byte>)
    requires code != [] && Step(code, p).Some?
    ensures Step(code + run, p) == Step(code, p)
    ensures (code + run)[RunSize(code[0])..] == code[RunSize(code[0])..] + run
  {
    if code[0] < SKIPFLAG {
      assert (code + run)[1..RunSize(code[0])] == code[1..RunSize(code[0])];
    }
  }

  lemma {:induction false} ExecuteAppend(code: seq<Byte>, p: Progress, run: seq<Byte>)
    requires Execute(code, p).Some?
    ensures Execute(code + run, p) == Execute(run, Execute(code, p).value)
    decreases |code|
  {
    if code == [] {
      assert code + run == run;
    } else {
      StepAppend(code, p, run);
      ExecuteAppend(code[RunSize(code[0])..], Step(code, p).value, run);
    }
  }

  lemma ExecuteRun(copying: bool, bytes: seq<Byte>, p: Progress)
    requires |bytes| % WORD == 0 && 0 < |bytes| / WORD <= LENMASK && p.at + |bytes| <= XC_PAGE_SIZE
    ensures Execute(RunCode(copying, bytes), p)
         == Some(Progress(if copying then Patch(p.page, p.at, bytes) else p.page, p.at + |bytes|))
  {
    var code := RunCode(copying, bytes);
    assert RunBytes(code[0]) == |bytes| && RunSize(code[0]) == |code|;
    if copying {
      assert code[1..1 + |bytes|] == bytes;
    }
    var q := Step(code, p).value;
    assert code[RunSize(code[0])..] == [];
    assert Execute([], q) == Some(q);
  }

  lemma SubSlice(buf: seq<Byte>, pos: nat, code: seq<Byte>, lo: nat, hi: nat)
    requires pos + |code| <= |buf| && buf[pos..pos + |code|] == code && lo <= hi <= |code|
    ensures buf[pos + lo..pos + hi] == code[lo..hi]
  {
    forall i | 0 <= i < hi - lo ensures buf[pos + lo..pos + hi][i] == code[lo..hi][i] {
      assert buf[pos..pos + |code|][lo + i] == code[lo + i];
    }
  }

  /** The decoder executes one run, wherever it stands. */
  lemma DecodeStep(buf: seq<Byte>, pos: nat, code: seq<Byte>, p: Progress)
    requires code != [] && pos + |code| <= |buf| && buf[pos..pos + |code|] == code && Step(code, p).Some?
    ensures 0 < RunSize(code[0]) <= |code|
    ensures var q := Step(code, p).value;
            DecodeRuns(buf, pos, p.page, p.at) == AfterRun(buf, pos + RunSize(code[0]), q.page, q.at)
  {
    assert buf[pos] == code[0];
    if code[0] < SKIPFLAG {
      var len := RunBytes(code[0]);
      SubSlice(buf, pos, code, 1, 1 + len);
    }
  }

  /** The decoder executes a list of runs that fills a page, wherever it stands. */
  lemma {:induction false} DecodeExecutes(buf: seq<Byte>, pos: nat, code: seq<Byte>, p: Progress)
    requires code != [] && pos + |code| <= |buf| && buf[pos..pos + |code|] == code
    requires Execute(code, p).Some? && Execute(code, p).value.at == XC_PAGE_SIZE
    ensures DecodeRuns(buf, pos, p.page, p.at) == Some(Decoded(pos + |code|, Execute(code, p).value.page))
    decreases |code|
  {
    hide Step, RunSize, DecodeRuns;
    DecodeStep(buf, pos, code, p);
    var n := RunSize(code[0]);
    var q, rest := Step(code, p).value, code[n..];
    if rest == [] {
      assert Execute(rest, q) == Some(q);
    } else {
      ExecuteAdvances(rest, q);
      SubSlice(buf, pos, code, n, |code|);
      DecodeExecutes(buf, pos + n, rest, q);
    }
  }

  lemma {:induction false} ExecuteAdvances(code: seq<Byte>, p: Progress)
    requires Execute(code, p).Some?
    ensures Execute(code, p).value.at >= p.at
    ensures code != [] ==> Execute(code, p).value.at > p.at
    decreases |code|
  {
    if code != [] {
      ExecuteAdvances(code[RunSize(code[0])..], Step(code, p).value);
    }
  }

  /** A list of runs that turns old into new encodes it. */
  lemma RunsEncode(code: seq<Byte>, before: Page, after: Page)
    requires code != [] && Execute(code, Progress(before, 0)) == Some(Progress(after, XC_PAGE_SIZE))
    ensures Encodes(code, before, after)
  {
    forall buf: seq<Byte>, pos: nat | pos + |code| <= |buf| && buf[pos..pos + |code|] == code
      ensures DecodePage(buf, pos, before) == Some(Decoded(pos + |code|, after))
    {
      assert buf[pos] == code[0];
      DecodeExecutes(buf, pos, code, Progress(before, 0));
    }
  }

  lemma EmptyEncodes(page: Page)
    ensures Encodes([EMPTY_PAGE], page, page)
  {
    forall buf: seq<Byte>, pos: nat | pos + 1 <= |buf| && buf[pos..pos + 1] == [EMPTY_PAGE]
      ensures DecodePage(buf, pos, page) == Some(Decoded(pos + 1, page))
    {
      assert buf[pos] == buf[pos..pos + 1][0];
    }
  }

  lemma FullEncodes(before: Page, page: Page)
    ensures Encodes([FULL_PAGE] + page, before, page)
  {
    var code: seq<Byte> := [FULL_PAGE] + page;
    forall buf: seq<Byte>, pos: nat | pos + |code| <= |buf| && buf[pos..pos + |code|] == code
      ensures DecodePage(buf, pos, before) == Some(Decoded(pos + |code|, page))
    {
      assert buf[pos] == code[0];
      assert buf[pos + 1..pos + FULL_PAGE_SIZE] == code[1..] == page;
    }
  }

  // ----- the encoder -----

  /** Word w of a page. */
  function WordAt(p: Page, w: nat): seq<Byte>
    requires w < MAX_DELTAS
  {
    p[WORD * w..WORD * w + WORD]
  }

  /** The first w words come from `after`, the rest from `before`. */
  function Mixed(before: Page, after: Page, w: nat): Page
    requires w <= MAX_DELTAS
  {
    after[..WORD * w] + before[WORD * w..]
  }

  /** Words lo .. hi all differ, or all agree. */
  ghost predicate Uniform(before: Page, after: Page, lo: nat, hi: nat, copying: bool)
    requires hi <= MAX_DELTAS
  {
    forall w: nat | lo <= w < hi :: (WordAt(before, w) != WordAt(after, w)) == copying
  }

  lemma {:induction false} SameWords(before: Page, after: Page, lo: nat, hi: nat)
    requires lo <= hi <= MAX_DELTAS && Uniform(before, after, lo, hi, false)
    ensures before[WORD * lo..WORD * hi] == after[WORD * lo..WORD * hi]
    decreases hi
  {
    if lo < hi {
      SameWords(before, after, lo, hi - 1);
      assert WordAt(before, hi - 1) == WordAt(after, hi - 1);
      assert before[WORD * lo..WORD * hi] == before[WORD * lo..WORD * (hi - 1)] + WordAt(before, hi - 1);
      assert after[WORD * lo..WORD * hi] == after[WORD * lo..WORD * (hi - 1)] + WordAt(after, hi - 1);
    }
  }

  /** Finishing a run advances the mixed page. */
  lemma MixedAdvance(before: Page, after: Page, lo: nat, hi: nat, copying: bool)
    requires lo <= hi <= MAX_DELTAS && Uniform(before, after, lo, hi, copying)
    ensures Mixed(before, after, hi)
         == if copying then Patch(Mixed(before, after, lo), WORD * lo, after[WORD * lo..WORD * hi])
            else Mixed(before, after, lo)
  {
    if !copying {
      SameWords(before, after, lo, hi);
      assert after[..WORD * hi] == after[..WORD * lo] + after[WORD * lo..WORD * hi];
      assert before[WORD * lo..] == before[WORD * lo..WORD * hi] + before[WORD * hi..];
    }
  }

  /** What the encoder has produced when it has finished the runs up to word w. */
  ghost predicate Encoding(before: Page, after: Page, w: nat, code: seq<Byte>, skipped: nat, partial: bool) {
    && w <= MAX_DELTAS
    && Execute(code, Progress(before, 0)) == Some(Progress(Mixed(before, after, w), WORD * w))
    && |code| <= WORD * w + w / LENMASK + (if partial then 1 else 0)
    && skipped <= WORD * w
    && (skipped == WORD * w <==> Uniform(before, after, 0, w, false))
    && (w > 0 ==> code != [])
  }

  /** One more run keeps it. */
  lemma EncodingRun(before: Page, after: Page, lo: nat, hi: nat, copying: bool, code: seq<Byte>, skipped: nat,
      partial: bool)
    requires lo < hi <= MAX_DELTAS && hi - lo <= LENMASK && Uniform(before, after, lo, hi, copying)
    requires Encoding(before, after, lo, code, skipped, partial) && (partial ==> !copying)
    ensures var bytes := after[WORD * lo..WORD * hi];
            Encoding(before, after, hi, code + RunCode(copying, bytes),
              if copying then skipped else skipped + WORD * (hi - lo), copying && hi - lo < LENMASK)
  {
    hide Execute, Mixed, Patch;
    var bytes := after[WORD * lo..WORD * hi];
    ExecuteAppend(code, Progress(before, 0), RunCode(copying, bytes));
    ExecuteRun(copying, bytes, Progress(Mixed(before, after, lo), WORD * lo));
    MixedAdvance(before, after, lo, hi, copying);
    if copying {
      assert WordAt(before, lo) != WordAt(after, lo);
    }
  }

  lemma MixedEnds(before: Page, after: Page)
    ensures Mixed(before, after, 0) == before && Mixed(before, after, MAX_DELTAS) == after
    ensures Encoding(before, after, 0, [], 0, false)
  {
  }

  lemma MixedWord(before: Page, after: Page, lo: nat, w: nat)
    requires lo <= w < MAX_DELTAS
    ensures WordAt(Mixed(before, after, lo), w) == WordAt(before, w)
  {
  }

  lemma UniformNext(before: Page, after: Page, lo: nat, off: nat, copying: bool)
    requires lo <= off < MAX_DELTAS && Uniform(before, after, lo, off, copying)
    requires (WordAt(before, off) != WordAt(after, off)) == copying
    ensures Uniform(before, after, lo, off + 1, copying)
  {
  }

  /** The end of the page: an unchanged page becomes the one-byte marker. */
  lemma EncodingEnds(before: Page, after: Page, code: seq<Byte>, skipped: nat, partial: bool)
    requires Encoding(before, after, MAX_DELTAS, code, skipped, partial)
    ensures skipped == XC_PAGE_SIZE <==> before == after
    ensures 0 < |code| <= WORST_COMP_PAGE_SIZE && Encodes(code, before, after)
    ensures before == after ==> Encodes([EMPTY_PAGE], before, after)
  {
    MixedEnds(before, after);
    RunsEncode(code, before, after);
    if skipped == XC_PAGE_SIZE {
      SameWords(before, after, 0, MAX_DELTAS);
      assert before == before[WORD * 0..WORD * MAX_DELTAS] && after == after[WORD * 0..WORD * MAX_DELTAS];
    }
    if before == after {
      EmptyEncodes(after);
    }
  }

  /** The body of the run switch: header, bytes, and the copy into the cache page. */
  method EmitRun(ghost before: Page, src: Page, cached: Page, lo: nat, hi: nat, copying: bool, dest: seq<Byte>,
      skipped: nat, ghost partial: bool) returns (dest': seq<Byte>, cached': Page, skipped': nat)
    requires lo < hi <= MAX_DELTAS && hi - lo <= LENMASK && Uniform(before, src, lo, hi, copying)
    requires Encoding(before, src, lo, dest, skipped, partial) && (partial ==> !copying)
    requires cached == Mixed(before, src, lo)
    ensures Encoding(before, src, hi, dest', skipped', copying && hi - lo < LENMASK)
    ensures cached' == Mixed(before, src, hi)
  {
    hide Encoding, Uniform, Mixed;
    var runlen := hi - lo;
    var pageoff, pageend := lo * WORD, lo * WORD + runlen * WORD;
    var bytes := src[pageoff..pageend];
    assert |bytes| == runlen * WORD && |bytes| / WORD == runlen;
    EncodingRun(before, src, lo, hi, copying, dest, skipped, partial);
    MixedAdvance(before, src, lo, hi, copying);
    if copying {
      cached', dest', skipped' := cached[..pageoff] + bytes + cached[pageend..], dest + ([runlen] + bytes), skipped;
    } else {
      cached', dest', skipped' := cached, dest + [runlen + SKIPFLAG], skipped + runlen * WORD;
    }
    assert dest' == dest + RunCode(copying, bytes);
  }

  /**
    compress_page.  `space` is what is left of the output buffer.  The single check up front is
    enough: the code never exceeds WORST_COMP_PAGE_SIZE.  On success the code turns the cached
    page into the source page at any receiver, and the cache holds the source page.
   */
  method CompressPage(src: Page, cached: Page, space: nat) returns (r: Option<seq<Byte>>, cached': Page)
    ensures r.None? <==> space < WORST_COMP_PAGE_SIZE
    ensures r.None? ==> cached' == cached
    ensures r.Some? ==> cached' == src && 0 < |r.value| <= WORST_COMP_PAGE_SIZE && Encodes(r.value, cached, src)
    ensures r.Some? && src == cached ==> r.value == [EMPTY_PAGE]
  {
    cached' := cached;
    if WORST_COMP_PAGE_SIZE > space {
      return None, cached';
    }
    var dest: seq<Byte> := [];
    var runptr: nat, runlen: nat, skipped: nat, off: nat := 0, 0, 0, 0;
    var wascopying, copying := false, false;
    ghost var partial := false;
    MixedEnds(cached, src);
    while off <= MAX_DELTAS
      invariant off <= MAX_DELTAS + 1
      invariant off <= MAX_DELTAS ==> off == runptr + runlen && runlen <= LENMASK && (off > 0 ==> runlen > 0)
      invariant (off == 0 ==> !partial) && (off == MAX_DELTAS + 1 ==> runptr == MAX_DELTAS)
      invariant Encoding(cached, src, runptr, dest, skipped, partial)
      invariant cached' == Mixed(cached, src, runptr)
      invariant off <= MAX_DELTAS ==> Uniform(cached, src, runptr, off, wascopying) && (partial ==> !wascopying)
    {
      assert off < MAX_DELTAS ==> WordAt(cached', off) == WordAt(cached, off) by {
        if off < MAX_DELTAS {
          MixedWord(cached, src, runptr, off);
        }
      }
      copying := if off < MAX_DELTAS then WordAt(cached', off) != WordAt(src, off) else !wascopying;
      if runlen > 0 && (wascopying != copying || runlen == LENMASK) {
        dest, cached', skipped := EmitRun(cached, src, cached', runptr, off, wascopying, dest, skipped, partial);
        partial := wascopying && runlen < LENMASK;
        runlen := 0;
        runptr := off;
      }
      if off < MAX_DELTAS {
        UniformNext(cached, src, runptr, off, copying);
      }
      runlen := runlen + 1;
      wascopying := copying;
      off := off + 1;
    }
    EncodingEnds(cached, src, dest, skipped, partial);
    if skipped == XC_PAGE_SIZE {
      dest := [EMPTY_PAGE];
    }
    r := Some(dest);
  }

  /**
    xc_compression_uncompress_page, in place on the receiver's page.  The position moves only
    on success; on failure the page may be half written.
   */
  method UncompressPage(buf: seq<Byte>, start: nat, dest: array<Byte>) returns (ok: bool, end: nat)
    requires dest.Length == XC_PAGE_SIZE
    modifies dest
    ensures ok <==> DecodePage(buf, start, old(dest[..])).Some?
    ensures ok ==> DecodePage(buf, start, old(dest[..])) == Some(Decoded(end, dest[..]))
    ensures !ok ==> end == start
  {
    end := start;
    if start >= |buf| {
      return false, end;
    }
    if buf[start] == EMPTY_PAGE {
      return true, start + 1;
    }
    if buf[start] == FULL_PAGE {
      if start + FULL_PAGE_SIZE > |buf| {
        return false, end;
      }
      var bytes: Page := buf[start + 1..start + FULL_PAGE_SIZE];
      assert Patch(dest[..], 0, bytes) == bytes;
      Copy(dest, 0, bytes);
      return true, start + FULL_PAGE_SIZE;
    }
    ghost var result := DecodePage(buf, start, dest[..]);
    var pos, pagepos := start, 0;
    while true
      invariant start <= pos < |buf| && 0 <= pagepos < XC_PAGE_SIZE
      invariant result == DecodeRuns(buf, pos, dest[..], pagepos)
      decreases |buf| - pos
    {
      var len := buf[pos] % SKIPFLAG * WORD;
      if len == 0 {
        return false, end;
      }
      var copy := buf[pos] < SKIPFLAG;
      pos := pos + 1;
      if copy {
        if pos + len > |buf| || pagepos + len > XC_PAGE_SIZE {
          return false, end;
        }
        Copy(dest, pagepos, buf[pos..pos + len]);
        pos := pos + len;
      }
      pagepos := pagepos + len;
      assert result == AfterRun(buf, pos, dest[..], pagepos);
      if !(pagepos < XC_PAGE_SIZE && pos < |buf|) {
        if pagepos != XC_PAGE_SIZE {
          return false, end;
        }
        return true, pos;
      }
    }
  }

  /** memcpy into the page */
  method Copy(dest: array<Byte>, at: nat, bytes: seq<Byte>)
    requires dest.Length == XC_PAGE_SIZE && at + |bytes| <= XC_PAGE_SIZE
    modifies dest
    ensures dest[..] == Patch(old(dest[..]), at, bytes)
  {
    forall i | 0 <= i < |bytes| {
      dest[at + i] := bytes[i];
    }
  }
}
