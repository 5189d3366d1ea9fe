/**
  Byte I/O over a block device (extras/mini-os/blkfront.c): requests of up to eleven segments
  in blkfront_aio, and the read-modify-write loop of blkfront_posix_rwop above them.
 */
module Blkfront {
  import opened Common
  import opened Remainders

  type Byte = bv8

  const PAGE_SIZE: nat := 4096
  const MAX_SEGMENTS: nat := 11
  const U32: nat := 0x1_0000_0000

  // ----- multiples -----

  predicate Multiple(x: int, b: nat) { b > 0 && x % b == 0 }

  lemma MultipleSum(x: int, y: int, b: nat)
    requires Multiple(x, b)
    ensures Multiple(y, b) <==> Multiple(x + y, b)
    ensures Multiple(y, b) <==> Multiple(x - y, b)
    ensures (x + y) % b == y % b
  {
    var p, q, r := x / b, y / b, y % b;
    assert b * p == x && b * q + r == y;
    assert b * (p + q) == b * p + b * q;
    ModUnique(x + y, b, p + q, r);
    if r == 0 {
      assert b * (p - q) == b * p - b * q;
      ModUnique(x - y, b, p - q, 0);
    } else {
      assert b * (p - q - 1) == b * p - b * q - b;
      ModUnique(x - y, b, p - q - 1, b - r);
    }
  }

  lemma MultipleProduct(b: nat, k: int)
    requires b > 0
    ensures Multiple(b * k, b)
  {
    ModUnique(b * k, b, k, 0);
  }

  lemma MultipleOf(x: int, b: nat, c: nat)
    requires Multiple(x, b) && Multiple(b, c)
    ensures Multiple(x, c)
  {
    assert x == b * (x / b) && b == c * (b / c);
    assert b * (x / b) == c * (b / c * (x / b));
    ModUnique(x, c, b / c * (x / b), 0);
  }

  // ----- copies -----

  /** `now` is `was` with n bytes of `src`, from `from` on, copied in at `at`. */
  ghost predicate Copied(was: seq<Byte>, now: seq<Byte>, at: int, src: seq<Byte>, from: int, n: int) {
    && 0 <= at && 0 <= from && 0 <= n && at + n <= |was| && from + n <= |src| && |now| == |was|
    && forall i | 0 <= i < |was| :: now[i] == if at <= i < at + n then src[from + (i - at)] else was[i]
  }

  function CopyInto(dst: seq<Byte>, at: nat, src: seq<Byte>, from: nat, n: nat): (r: seq<Byte>)
    requires at + n <= |dst| && from + n <= |src|
    ensures Copied(dst, r, at, src, from, n)
  {
    dst[..at] + src[from..from + n] + dst[at + n..]
  }

  /** Two adjacent copies are one. */
  lemma CopyOn(a: seq<Byte>, b: seq<Byte>, c: seq<Byte>, at: int, src: seq<Byte>, from: int, m: int, n: int)
    requires Copied(a, b, at, src, from, m) && Copied(b, c, at + m, src, from + m, n)
    ensures Copied(a, c, at, src, from, m + n)
  {
  }

  // ----- requests -----

  /** A segment: a page of memory and the first and last 512-byte sector of it. */
  datatype Segment = Segment(page: nat, first: nat, last: nat)

  function SegmentCount(addr: nat, n: nat): nat {
    (addr + n + PAGE_SIZE - 1) / PAGE_SIZE - addr / PAGE_SIZE
  }

  /** Segment j of a request for n bytes at addr. */
  function SegmentAt(addr: nat, n: nat, j: nat): Segment
    requires n > 0
  {
    Segment(addr / PAGE_SIZE + j,
            if j == 0 then addr % PAGE_SIZE / 512 else 0,
            if j == SegmentCount(addr, n) - 1 then (addr + n - 1) % PAGE_SIZE / 512 else PAGE_SIZE / 512 - 1)
  }

  function From(s: Segment): nat { PAGE_SIZE * s.page + 512 * s.first }

  function To(s: Segment): nat { PAGE_SIZE * s.page + 512 * (s.last + 1) }

  /** Sector a, from its first byte to its last, in pages. */
  lemma SectorAt(a: nat, k: nat)
    requires k < 512
    ensures (512 * a + k) / PAGE_SIZE == a / 8 && (512 * a + k) % PAGE_SIZE / 512 == a % 8
  {
    ModUnique(512 * a + k, 4096, a / 8, 512 * (a % 8) + k);
    ModUnique(512 * (a % 8) + k, 512, a % 8, k);
  }

  /** The first and the last 512-byte sector of a request, as page and position in the page. */
  lemma Edges(addr: nat, n: nat) returns (p: nat, r: nat, q: nat, s: nat)
    requires n > 0 && addr % 512 == 0 && n % 512 == 0
    ensures addr == PAGE_SIZE * p + 512 * r && r < 8 && addr + n == PAGE_SIZE * q + 512 * (s + 1) && s < 8 && p <= q
    ensures addr / PAGE_SIZE == p && addr % PAGE_SIZE / 512 == r && (addr + n - 1) % PAGE_SIZE / 512 == s
    ensures SegmentCount(addr, n) == q - p + 1
  {
    var a, m := addr / 512, n / 512;
    var b := a + m - 1;
    p, r, q, s := a / 8, a % 8, b / 8, b % 8;
    assert addr == 512 * a && addr + n - 1 == 512 * b + 511;
    SectorAt(a, 0);
    SectorAt(b, 511);
    SectorAt(b + 8, 511);
    assert (b + 8) / 8 == q + 1 && addr + n + PAGE_SIZE - 1 == 512 * (b + 8) + 511;
  }

  /** The segments of a request tile its bytes: each begins where the one before ends. */
  lemma SegmentsTile(addr: nat, n: nat, j: nat)
    requires n > 0 && addr % 512 == 0 && n % 512 == 0 && j < SegmentCount(addr, n)
    ensures From(SegmentAt(addr, n, 0)) == addr && To(SegmentAt(addr, n, SegmentCount(addr, n) - 1)) == addr + n
    ensures j + 1 < SegmentCount(addr, n) ==> To(SegmentAt(addr, n, j)) == From(SegmentAt(addr, n, j + 1))
    ensures From(SegmentAt(addr, n, j)) < To(SegmentAt(addr, n, j)) <= addr + n
  {
    var p, r, q, s := Edges(addr, n);
    hide SegmentCount, From, To;
    forall k: nat
      ensures SegmentAt(addr, n, k) == Segment(p + k, if k == 0 then r else 0, if k == q - p then s else 7)
    {
    }
    hide SegmentAt;
    Tile(p, r, q, s, j);
  }

  lemma FirstSegment(addr: nat, n: nat)
    requires n > 0 && addr % 512 == 0 && n % 512 == 0
    ensures SegmentCount(addr, n) > 0 && From(SegmentAt(addr, n, 0)) == addr
  {
    var p, r, q, s := Edges(addr, n);
  }

  lemma Tile(p: nat, r: nat, q: nat, s: nat, j: nat)
    requires p <= q && j <= q - p && r < 8 && s < 8 && PAGE_SIZE * p + 512 * r < PAGE_SIZE * q + 512 * (s + 1)
    ensures From(Segment(p, r, if q == p then s else 7)) == PAGE_SIZE * p + 512 * r
    ensures To(Segment(q, if q == p then r else 0, s)) == PAGE_SIZE * q + 512 * (s + 1)
    ensures var a := Segment(p + j, if j == 0 then r else 0, if j == q - p then s else 7);
            && From(a) < To(a) <= PAGE_SIZE * q + 512 * (s + 1)
            && (j < q - p ==> To(a) == From(Segment(p + j + 1, 0, if j + 1 == q - p then s else 7)))
  {
  }

  // ----- the device -----

  /** Sector sizes: powers of two from 512 up to the page size. */
  predicate SectorSize(b: nat) { Multiple(b, 512) && Multiple(PAGE_SIZE, b) }

  /** The first t of the n bytes at addr have been read from the disk; memory around them is untouched. */
  ghost predicate Landed(was: seq<Byte>, now: seq<Byte>, addr: nat, n: nat, t: nat, disk: seq<Byte>, off: nat) {
    && |now| == |was| && addr + n <= |was| && t <= n && off + n <= |disk|
    && forall i | 0 <= i < |was| ::
         (i < addr || addr + n <= i ==> now[i] == was[i]) && (addr <= i < addr + t ==> now[i] == disk[off + (i - addr)])
  }

  /** The effect of moving n bytes between the disk at loc and the buffer; the copy buffer is not preserved. */
  ghost predicate Moved(write: bool, disk0: seq<Byte>, disk1: seq<Byte>, mem0: seq<Byte>, mem1: seq<Byte>,
      loc: nat, buf: nat, n: nat, scratch: nat, blocksize: nat)
  {
    && |mem1| == |mem0| && |disk1| == |disk0| && loc + n <= |disk0| && buf + n <= |mem0|
    && (write ==> Copied(disk0, disk1, loc, mem0, buf, n))
    && (!write ==> disk1 == disk0)
    && forall x | 0 <= x < |mem0| && !(scratch <= x < scratch + blocksize) ::
         mem1[x] == if !write && buf <= x < buf + n then disk0[loc + (x - buf)] else mem0[x]
  }

  lemma MovedLengths(write: bool, disk0: seq<Byte>, disk1: seq<Byte>, mem0: seq<Byte>, mem1: seq<Byte>,
      loc: nat, buf: nat, n: nat, scratch: nat, blocksize: nat)
    requires Moved(write, disk0, disk1, mem0, mem1, loc, buf, n, scratch, blocksize)
    ensures |disk1| == |disk0| && |mem1| == |mem0|
  {
  }

  lemma MoveOn(write: bool, disk0: seq<Byte>, disk1: seq<Byte>, disk2: seq<Byte>, mem0: seq<Byte>, mem1: seq<Byte>,
      mem2: seq<Byte>, loc: nat, buf: nat, m: nat, n: nat, scratch: nat, blocksize: nat)
    requires Moved(write, disk0, disk1, mem0, mem1, loc, buf, m, scratch, blocksize)
    requires Moved(write, disk1, disk2, mem1, mem2, loc + m, buf + m, n, scratch, blocksize)
    requires scratch + blocksize <= buf || buf + m + n <= scratch
    ensures Moved(write, disk0, disk2, mem0, mem2, loc, buf, m + n, scratch, blocksize)
  {
  }

  /** Reading a block into the copy buffer and part of it on into the caller's. */
  lemma BlockRead(disk: seq<Byte>, mem0: seq<Byte>, mem1: seq<Byte>, mem2: seq<Byte>,
      at: nat, blkoff: nat, buf: nat, bytes: nat, scratch: nat, blocksize: nat)
    requires blkoff + bytes <= blocksize && (scratch + blocksize <= buf || buf + bytes <= scratch)
    requires Copied(mem0, mem1, scratch, disk, at, blocksize) && Copied(mem1, mem2, buf, mem1, scratch + blkoff, bytes)
    ensures Moved(false, disk, disk, mem0, mem2, at + blkoff, buf, bytes, scratch, blocksize)
  {
  }

  /** Writing a block from the copy buffer, which holds the old block or is overwritten as a whole. */
  lemma BlockWritten(disk0: seq<Byte>, disk1: seq<Byte>, mem0: seq<Byte>, mem1: seq<Byte>, mem2: seq<Byte>,
      at: nat, blkoff: nat, buf: nat, bytes: nat, scratch: nat, blocksize: nat)
    requires blkoff + bytes <= blocksize && (scratch + blocksize <= buf || buf + bytes <= scratch)
    requires Copied(mem0, mem1, scratch, disk0, at, blocksize) || (mem1 == mem0 && bytes == blocksize)
    requires Copied(mem1, mem2, scratch + blkoff, mem1, buf, bytes)
    requires Copied(disk0, disk1, at, mem2, scratch, blocksize)
    ensures Moved(true, disk0, disk1, mem0, mem2, at + blkoff, buf, bytes, scratch, blocksize)
  {
  }

  lemma MovedNone(write: bool, disk: seq<Byte>, mem: seq<Byte>, loc: nat, buf: nat, scratch: nat, blocksize: nat)
    requires loc <= |disk| && buf <= |mem|
    ensures Moved(write, disk, disk, mem, mem, loc, buf, 0, scratch, blocksize)
  {
  }

  // ----- where and how much -----

  /** The first request's disk offset: the block number is kept in 32 bits and multiplied in 32 bits. */
  function AioStart(offset: nat, blocksize: nat): nat
    requires blocksize > 0
  {
    offset / blocksize % U32 * blocksize % U32
  }

  /** Where on the disk an operation at a file offset begins. */
  function Location(offset: nat, blocksize: nat): nat
    requires blocksize > 0
  {
    AioStart(offset, blocksize) + offset % blocksize
  }

  /** What is lost of the offset of a block is a multiple of 4 GiB. */
  lemma StartIs(offset: nat, blocksize: nat) returns (k: nat)
    requires blocksize > 0
    ensures offset == U32 * k + AioStart(offset, blocksize) + offset % blocksize && AioStart(offset, blocksize) < U32
  {
    k := Wrapped(offset / blocksize, blocksize);
    assert offset == blocksize * (offset / blocksize) + offset % blocksize;
  }

  /** A product of which one factor and then the result are cut to 32 bits. */
  lemma Wrapped(q: nat, b: nat) returns (k: nat)
    ensures b * q == U32 * k + q % U32 * b % U32
  {
    var m, r := q / U32, q % U32;
    var p := r * b;
    k := b * m + p / U32;
    Carry(b, U32, m, r, p / U32, p % U32);
  }

  lemma Carry(b: int, u: int, m: int, r: int, h: int, t: int)
    requires r * b == u * h + t
    ensures b * (u * m + r) == u * (b * m + h) + t
  {
    assert b * (u * m + r) == b * (u * m) + b * r;
    assert u * (b * m + h) == u * (b * m) + u * h;
    assert b * (u * m) == u * (b * m);
  }

  /** The operation begins where it should exactly if the offset is below 4 GiB. */
  lemma LocationIff(offset: nat, blocksize: nat)
    requires SectorSize(blocksize)
    ensures Location(offset, blocksize) == offset <==> offset < U32
    ensures Location(offset, blocksize) <= offset && Multiple(AioStart(offset, blocksize), blocksize)
  {
    var k := StartIs(offset, blocksize);
    var b, t, r := blocksize, AioStart(offset, blocksize), offset % blocksize;
    assert offset - r == b * (offset / b);
    hide AioStart, Multiple, SectorSize;
    assert Multiple(t, b) by {
      MultipleProduct(b, offset / b);
      MultipleProduct(U32, k);
      PageBlocks(b);
      MultipleOf(U32 * k, U32, b);
      MultipleSum(U32 * k, t, b);
    }
    BlockBelow(t, r, b);
  }

  lemma PageBlocks(b: nat)
    requires SectorSize(b)
    ensures Multiple(U32, b)
  {
    MultipleOf(U32, PAGE_SIZE, b);
  }

  /** A block that begins below 4 GiB ends there. */
  lemma BlockBelow(t: nat, r: nat, b: nat)
    requires SectorSize(b) && Multiple(t, b) && t < U32 && r < b
    ensures t + r < U32
  {
    MultipleOf(U32, PAGE_SIZE, b);
    MultipleSum(U32, t, b);
    MultipleGap(U32 - t, b);
  }

  lemma MultipleGap(x: int, b: nat)
    requires b > 0
    ensures x > 0 && Multiple(x, b) ==> x >= b
  {
    if x > 0 && Multiple(x, b) && x < b {
      ModUnique(x, b, 0, x);
    }
  }

  lemma MultipleShift(x: nat, r: nat, b: nat)
    requires r < b
    ensures (x + (b - r)) % b == 0 <==> Multiple(x - r, b)
  {
    MultipleProduct(b, 1);
    MultipleSum(b, x - r, b);
  }

  /** The length of a transfer to or from an aligned buffer. */
  function DirectBytes(buf: nat, count: nat, blocksize: nat): nat
    requires blocksize > 0
  {
    var limit := (MAX_SEGMENTS - if buf % PAGE_SIZE != 0 then 1 else 0) * PAGE_SIZE;
    if count > limit then limit else count / blocksize * blocksize
  }

  /** A direct transfer is whole blocks and fits the segments of one request. */
  lemma DirectOk(buf: nat, count: nat, blocksize: nat)
    requires SectorSize(blocksize) && count >= blocksize
    ensures var bytes := DirectBytes(buf, count, blocksize);
            blocksize <= bytes <= count && Multiple(bytes, blocksize) && SegmentCount(buf, bytes) <= MAX_SEGMENTS
  {
    var b, bytes := blocksize, DirectBytes(buf, count, blocksize);
    var q := count / b;
    assert count == b * q + count % b && q * b == b * q;
    MultipleProduct(b, q);
    MultipleOf(11 * PAGE_SIZE, PAGE_SIZE, b);
    MultipleOf(10 * PAGE_SIZE, PAGE_SIZE, b);
    assert q >= 1 by {
      MulBound(b, 1 - q);
    }
    MulBound(b, q);
    MultipleSum(PAGE_SIZE, 0, b);
    MultipleGap(PAGE_SIZE, b);
    FewSegments(buf, bytes);
  }

  lemma FewSegments(buf: nat, n: nat)
    requires n <= (MAX_SEGMENTS - if buf % PAGE_SIZE != 0 then 1 else 0) * PAGE_SIZE
    ensures SegmentCount(buf, n) <= MAX_SEGMENTS
  {
  }

  /** Among the powers of two from 512 on, direct transfers are whole blocks, for all requests, exactly
      for those up to the page size: eleven pages are no multiple of a larger one. */
  lemma SectorSizeIff(blocksize: nat)
    requires blocksize > 0 && Multiple(blocksize, 512) && Multiple(U32, blocksize)
    ensures (forall buf: nat, count: nat | count >= blocksize ::
               Multiple(DirectBytes(buf, count, blocksize), blocksize))
       <==> blocksize <= PAGE_SIZE
  {
    if blocksize <= PAGE_SIZE {
      SmallSizes(blocksize);
      forall buf: nat, count: nat | count >= blocksize ensures Multiple(DirectBytes(buf, count, blocksize), blocksize) {
        DirectOk(buf, count, blocksize);
      }
    } else {
      LargeSize(blocksize);
      assert !Multiple(DirectBytes(0, 16 * blocksize, blocksize), blocksize);
    }
  }

  lemma SmallSizes(b: nat)
    requires 0 < b <= PAGE_SIZE && Multiple(b, 512) && Multiple(U32, b)
    ensures SectorSize(b)
  {
    assert U32 % 1536 != 0 && U32 % 2560 != 0 && U32 % 3072 != 0 && U32 % 3584 != 0;
    assert b in {512, 1024, 1536, 2048, 2560, 3072, 3584, 4096};
  }

  lemma LargeSize(b: nat)
    requires b > PAGE_SIZE && Multiple(U32, b)
    ensures DirectBytes(0, 16 * b, b) == MAX_SEGMENTS * PAGE_SIZE && !Multiple(MAX_SEGMENTS * PAGE_SIZE, b)
  {
  }

  datatype Errno = NoError | EFAULT | EACCES | ENOSPC

  /** The bytes a request may move, and the error it is refused with. */
  function Admitted(size: nat, offset: nat, buf: nat, count: nat, write: bool, writable: bool): (nat, Errno) {
    if count == 0 then (0, NoError)
    else if buf == 0 then (0, EFAULT)
    else if write then
      if !writable then (0, EACCES) else if offset + count > size then (0, ENOSPC) else (count, NoError)
    else if offset >= size then (0, NoError)
    else (if offset + count > size then size - offset else count, NoError)
  }

  /** Conversion to a 32-bit int. */
  function Int32(n: nat): int {
    var m := n % U32;
    if m < 0x8000_0000 then m else m - U32
  }

  /** The result tells the number of bytes moved exactly if it is below 2 GiB. */
  lemma Int32Iff(n: nat)
    ensures Int32(n) == n <==> n < 0x8000_0000
  {
  }

  class File {
    const blocksize: nat
    const writable: bool
    var disk: seq<Byte>
    var mem: seq<Byte>
    var offset: int

    ghost predicate Valid()
      reads this
    {
      SectorSize(blocksize) && Multiple(|disk|, blocksize)
    }

    constructor (blocksize: nat, writable: bool, disk: seq<Byte>, mem: seq<Byte>)
      requires SectorSize(blocksize) && Multiple(|disk|, blocksize)
      ensures Valid() && this.blocksize == blocksize && this.writable == writable
      ensures this.disk == disk && this.mem == mem && offset == 0
    {
      this.blocksize, this.writable, this.disk, this.mem, this.offset := blocksize, writable, disk, mem, 0;
    }

    /** What the assertions of blkfront_aio demand, and that the request is inside disk and memory. */
    ghost predicate Request(addr: nat, off: nat, n: nat)
      reads this
    {
      && Multiple(off, blocksize) && Multiple(n, blocksize) && Multiple(addr, blocksize)
      && n > 0 && SegmentCount(addr, n) <= MAX_SEGMENTS
      && off + n <= |disk| && addr + n <= |mem|
    }

    lemma InSectors(addr: nat, off: nat, n: nat)
      requires Valid() && Request(addr, off, n)
      ensures addr % 512 == 0 && n % 512 == 0 && off % 512 == 0
    {
      MultipleOf(addr, blocksize, 512);
      MultipleOf(n, blocksize, 512);
      MultipleOf(off, blocksize, 512);
    }

    /** A write request: the device takes the segments in order. */
    method AioWrite(addr: nat, off: nat, n: nat)
      requires Valid() && Request(addr, off, n)
      modifies this`disk
      ensures Copied(old(disk), disk, off, mem, addr, n)
    {
      InSectors(addr, off, n);
      FirstSegment(addr, n);
      hide SegmentCount, SegmentAt, From, To, Multiple, CopyInto;
      var t: nat := 0;
      for j := 0 to SegmentCount(addr, n)
        invariant Copied(old(disk), disk, off, mem, addr, t)
        invariant t <= n && addr + t == if j < SegmentCount(addr, n) then From(SegmentAt(addr, n, j)) else addr + n
      {
        SegmentsTile(addr, n, j);
        var s := SegmentAt(addr, n, j);
        ghost var was := disk;
        disk := CopyInto(disk, off + t, mem, From(s), To(s) - From(s));
        CopyOn(old(disk), was, disk, off, mem, addr, t, To(s) - From(s));
        t := t + (To(s) - From(s));
      }
    }

    /** A read request: each segment is first touched with a zero byte, then filled by the device. */
    method AioRead(addr: nat, off: nat, n: nat)
      requires Valid() && Request(addr, off, n)
      modifies this`mem
      ensures Copied(old(mem), mem, addr, disk, off, n)
    {
      InSectors(addr, off, n);
      FirstSegment(addr, n);
      hide SegmentCount, SegmentAt, From, To, Multiple, CopyInto;
      for j := 0 to SegmentCount(addr, n)
        invariant Landed(old(mem), mem, addr, n, 0, disk, off)
      {
        TileInside(addr, n, j);
        mem := mem[From(SegmentAt(addr, n, j)) := 0];
      }
      var t: nat := 0;
      for j := 0 to SegmentCount(addr, n)
        invariant Landed(old(mem), mem, addr, n, t, disk, off)
        invariant t <= n && addr + t == if j < SegmentCount(addr, n) then From(SegmentAt(addr, n, j)) else addr + n
      {
        SegmentsTile(addr, n, j);
        var s := SegmentAt(addr, n, j);
        mem := CopyInto(mem, From(s), disk, off + t, To(s) - From(s));
        t := t + (To(s) - From(s));
      }
    }

    /** The path over the copy buffer: part of one block, or all of it if the buffer is unaligned. */
    method CopyBlock(buf: nat, at: nat, blkoff: nat, bytes: nat, write: bool, scratch: nat)
      requires Valid() && Multiple(at, blocksize) && at + blocksize <= |disk| && blkoff + bytes <= blocksize
      requires Multiple(scratch, blocksize) && scratch + blocksize <= |mem| && buf + bytes <= |mem|
      requires scratch + blocksize <= buf || buf + bytes <= scratch
      modifies this`disk, this`mem
      ensures Moved(write, old(disk), disk, old(mem), mem, at + blkoff, buf, bytes, scratch, blocksize)
    {
      BlockRequest(scratch, at);
      hide SegmentCount, Multiple, CopyInto, Moved;
      if !write {
        AioRead(scratch, at, blocksize);
        ghost var filled := mem;
        mem := CopyInto(mem, buf, mem, scratch + blkoff, bytes);
        BlockRead(disk, old(mem), filled, mem, at, blkoff, buf, bytes, scratch, blocksize);
      } else {
        if blkoff != 0 || bytes < blocksize {
          AioRead(scratch, at, blocksize);
        }
        ghost var filled := mem;
        mem := CopyInto(mem, scratch + blkoff, mem, buf, bytes);
        AioWrite(scratch, at, blocksize);
        BlockWritten(old(disk), disk, old(mem), filled, mem, at, blkoff, buf, bytes, scratch, blocksize);
      }
    }

    /** A block at an aligned address is one segment. */
    lemma BlockRequest(addr: nat, off: nat)
      requires Valid() && Multiple(addr, blocksize) && Multiple(off, blocksize)
      requires off + blocksize <= |disk| && addr + blocksize <= |mem|
      ensures Request(addr, off, blocksize)
    {
      MultipleProduct(blocksize, 1);
    }

    /** The block that holds byte x, which is on the disk, is on the disk as a whole. */
    lemma BlockOnDisk(at: nat, x: nat)
      requires Valid() && Multiple(at, blocksize) && at <= x < |disk|
      ensures at + blocksize <= |disk|
    {
      MultipleSum(|disk|, at, blocksize);
      MultipleGap(|disk| - at, blocksize);
    }

    /** The path that needs no copy. */
    method Direct(buf: nat, at: nat, bytes: nat, write: bool, ghost scratch: nat)
      requires Valid() && Request(buf, at, bytes)
      modifies this`disk, this`mem
      ensures Moved(write, old(disk), disk, old(mem), mem, at, buf, bytes, scratch, blocksize)
    {
      hide SegmentCount, Multiple;
      if write {
        AioWrite(buf, at, bytes);
      } else {
        AioRead(buf, at, bytes);
      }
    }

    /** What holds at the beginning of each turn of the loop of blkfront_posix_rwop. */
    ghost predicate Position(buf: nat, at: nat, blkoff: nat, count: nat, aligned: bool, copybuf: Option<nat>)
      reads this
    {
      && Multiple(at, blocksize) && blkoff < blocksize
      && (aligned ==> Multiple(buf - blkoff, blocksize))
      && (copybuf.None? ==> aligned && blkoff == 0 && Multiple(count, blocksize))
    }

    /** How many bytes the next turn moves. */
    method Chunk(buf: nat, at: nat, blkoff: nat, count: nat, aligned: bool, ghost copybuf: Option<nat>)
        returns (bytes: nat)
      requires Valid() && Position(buf, at, blkoff, count, aligned, copybuf) && count > 0
      ensures 0 < bytes <= count && (bytes >= blocksize ==> blkoff == 0)
      ensures aligned && bytes >= blocksize ==> Multiple(bytes, blocksize) && SegmentCount(buf, bytes) <= MAX_SEGMENTS
      ensures !(aligned && bytes >= blocksize) ==> copybuf.Some? && blkoff + bytes <= blocksize
      ensures bytes < count ==> Position(buf + bytes, Advanced(at, bytes), 0, count - bytes, aligned, copybuf)
      ensures bytes < count ==> Advanced(at, bytes) == at + blkoff + bytes
    {
      MultipleProduct(blocksize, 1);
      MultipleGap(count, blocksize);
      if !aligned || blkoff != 0 || count < blocksize {
        bytes := if count < blocksize - blkoff then count else blocksize - blkoff;
      } else {
        DirectOk(buf, count, blocksize);
        bytes := DirectBytes(buf, count, blocksize);
      }
      if bytes < count {
        MultipleSum(at, blocksize, blocksize);
        MultipleSum(at, bytes, blocksize);
        if aligned {
          MultipleSum(buf - blkoff, blkoff + bytes, blocksize);
        }
        if copybuf.None? {
          MultipleSum(count, bytes, blocksize);
        }
      }
    }

    function Advanced(at: nat, bytes: nat): nat
      reads this
    {
      if bytes < blocksize then at + blocksize else at + bytes
    }

    /** One turn of the loop of blkfront_posix_rwop. */
    method Turn(buf: nat, at: nat, blkoff: nat, bytes: nat, write: bool, aligned: bool, copybuf: Option<nat>,
        ghost scratch: nat)
      requires Valid() && Multiple(at, blocksize) && at + blkoff + bytes <= |disk| && buf + bytes <= |mem| && bytes > 0
      requires Multiple(scratch, blocksize) && scratch + blocksize <= |mem|
      requires scratch + blocksize <= buf || buf + bytes <= scratch
      requires if aligned && bytes >= blocksize
               then
                 && blkoff == 0 && Multiple(buf, blocksize) && Multiple(bytes, blocksize)
                 && SegmentCount(buf, bytes) <= MAX_SEGMENTS
               else copybuf == Some(scratch) && blkoff + bytes <= blocksize
      modifies this`disk, this`mem
      ensures Moved(write, old(disk), disk, old(mem), mem, at + blkoff, buf, bytes, scratch, blocksize)
    {
      hide SegmentCount, Multiple, Moved;
      if aligned && bytes >= blocksize {
        Direct(buf, at, bytes, write, scratch);
      } else {
        BlockOnDisk(at, at + blkoff + bytes - 1);
        CopyBlock(buf, at, blkoff, bytes, write, copybuf.value);
      }
    }

    /** The loop of blkfront_posix_rwop. */
    method Loop(buf0: nat, n: nat, at0: nat, blkoff0: nat, write: bool, aligned: bool, copybuf: Option<nat>,
        ghost scratch: nat)
      requires Valid() && n > 0 && at0 + blkoff0 + n <= |disk| && buf0 + n <= |mem|
      requires Position(buf0, at0, blkoff0, n, aligned, copybuf) && (copybuf == None || copybuf == Some(scratch))
      requires Multiple(scratch, blocksize) && scratch + blocksize <= |mem|
      requires scratch + blocksize <= buf0 || buf0 + n <= scratch
      modifies this`disk, this`mem
      ensures Moved(write, old(disk), disk, old(mem), mem, at0 + blkoff0, buf0, n, scratch, blocksize)
    {
      hide Multiple, SegmentCount, SectorSize, Copied, Moved;
      var count: nat, buf: nat, at: nat, blkoff: nat := n, buf0, at0, blkoff0;
      MovedNone(write, disk, mem, at0 + blkoff0, buf0, scratch, blocksize);
      while count > 0
        invariant count <= n && buf == buf0 + (n - count) && Valid()
        invariant count > 0 ==> Position(buf, at, blkoff, count, aligned, copybuf)
        invariant count > 0 ==> at + blkoff == at0 + blkoff0 + (n - count)
        invariant Moved(write, old(disk), disk, old(mem), mem, at0 + blkoff0, buf0, n - count, scratch, blocksize)
        invariant |disk| == |old(disk)| && |mem| == |old(mem)|
      {
        ghost var disk1, mem1 := disk, mem;
        var bytes := Chunk(buf, at, blkoff, count, aligned, copybuf);
        Turn(buf, at, blkoff, bytes, write, aligned, copybuf, scratch);
        MoveOn(write, old(disk), disk1, disk, old(mem), mem1, mem, at0 + blkoff0, buf0, n - count, bytes, scratch,
          blocksize);
        MovedLengths(write, disk1, disk, mem1, mem, at + blkoff, buf, bytes, scratch, blocksize);
        at := Advanced(at, bytes);
        count, buf, blkoff := count - bytes, buf + bytes, 0;
      }
    }

    /** The transfer, once its length is known; the copy buffer is allocated only if some turn needs it. */
    method Transfer(buf: nat, n: nat, write: bool, scratch: nat)
      requires Valid() && n > 0 && 0 <= offset && offset + n <= |disk| && buf + n <= |mem|
      requires Multiple(scratch, blocksize) && scratch + blocksize <= |mem|
      requires scratch + blocksize <= buf || buf + n <= scratch
      modifies this`disk, this`mem
      ensures Moved(write, old(disk), disk, old(mem), mem, Location(offset, blocksize), buf, n, scratch, blocksize)
    {
      var blkoff: nat := offset % blocksize;
      var aligned := (buf + (blocksize - blkoff)) % blocksize == 0;
      var at := AioStart(offset, blocksize);
      var copybuf := if !aligned || blkoff != 0 || n % blocksize != 0 then Some(scratch) else None;
      LocationIff(offset, blocksize);
      MultipleShift(buf, blkoff, blocksize);
      Loop(buf, n, at, blkoff, write, aligned, copybuf, scratch);
    }

    /** blkfront_posix_rwop; a null buffer has address 0 and the copy buffer, if needed, comes from _xmalloc. */
    method RwOp(buf: nat, count: nat, write: bool, scratch: nat) returns (rc: int, err: Errno)
      requires Valid() && 0 <= offset
      requires Multiple(scratch, blocksize) && scratch + blocksize <= |mem|
      requires buf + count <= |mem| && (scratch + blocksize <= buf || buf + count <= scratch)
      modifies this`disk, this`mem, this`offset
      ensures Valid()
      ensures var (n, e) := Admitted(old(|disk|), old(offset), buf, count, write, writable);
              && err == e
              && rc == (if e == NoError then Int32(n) else -1)
              && offset == old(offset) + (if e == NoError then rc else 0)
              && n <= count
              && (n == 0 ==> disk == old(disk) && mem == old(mem))
              && (n > 0 ==> Moved(write, old(disk), disk, old(mem), mem,
                                  Location(old(offset), blocksize), buf, n, scratch, blocksize))
    {
      hide Multiple, SegmentCount, SectorSize, Moved, Location;
      if count == 0 {
        return 0, NoError;
      }
      if buf == 0 {
        return -1, EFAULT;
      }
      var n := count;
      if write {
        if !writable {
          return -1, EACCES;
        }
        if offset + count > |disk| {
          return -1, ENOSPC;
        }
      } else {
        if offset >= |disk| {
          return 0, NoError;
        }
        if offset + count > |disk| {
          n := |disk| - offset;
        }
      }
      Transfer(buf, n, write, scratch);
      rc, err := Int32(n), NoError;
      offset := offset + rc;
    }
  }

  lemma {:induction false} TileInside(addr: nat, n: nat, j: nat)
    requires n > 0 && addr % 512 == 0 && n % 512 == 0 && j < SegmentCount(addr, n)
    ensures addr <= From(SegmentAt(addr, n, j)) < addr + n
  {
    SegmentsTile(addr, n, j);
    if j > 0 {
      TileInside(addr, n, j - 1);
      SegmentsTile(addr, n, j - 1);
    }
  }

  /** What pwrite and pread do on a file of bytes. */
  ghost predicate ByteFile(write: bool, file: seq<Byte>, file': seq<Byte>, mem: seq<Byte>, mem': seq<Byte>,
      offset: nat, buf: nat, n: nat)
  {
    && offset + n <= |file| && buf + n <= |mem| == |mem'|
    && if write then file' == file[..offset] + mem[buf..buf + n] + file[offset + n..]
       else file' == file && mem'[buf..buf + n] == file[offset..offset + n]
  }

  lemma MovedIsByteFile(write: bool, disk0: seq<Byte>, disk1: seq<Byte>, mem0: seq<Byte>, mem1: seq<Byte>,
      offset: nat, buf: nat, n: nat, scratch: nat, blocksize: nat)
    requires Moved(write, disk0, disk1, mem0, mem1, offset, buf, n, scratch, blocksize)
    requires scratch + blocksize <= buf || buf + n <= scratch
    ensures ByteFile(write, disk0, disk1, mem0, mem1, offset, buf, n)
  {
  }

  /** Transfers of n bytes at an offset act as on a byte file, for all contents, exactly if the
      offset is below 4 GiB. */
  lemma ByteFileIff(write: bool, size: nat, memory: nat, offset: nat, buf: nat, n: nat, scratch: nat, blocksize: nat)
    requires SectorSize(blocksize) && n > 0 && offset + n <= size && buf + n <= memory
    requires scratch + blocksize <= buf || buf + n <= scratch
    ensures (forall disk0: seq<Byte>, disk1, mem0: seq<Byte>, mem1 |
               |disk0| == size && |mem0| == memory &&
               Moved(write, disk0, disk1, mem0, mem1, Location(offset, blocksize), buf, n, scratch, blocksize) ::
               ByteFile(write, disk0, disk1, mem0, mem1, offset, buf, n))
       <==> offset < U32
  {
    LocationIff(offset, blocksize);
    hide Location;
    if offset < U32 {
      forall disk0: seq<Byte>, disk1, mem0: seq<Byte>, mem1 |
        Moved(write, disk0, disk1, mem0, mem1, Location(offset, blocksize), buf, n, scratch, blocksize)
        ensures ByteFile(write, disk0, disk1, mem0, mem1, offset, buf, n)
      {
        MovedIsByteFile(write, disk0, disk1, mem0, mem1, offset, buf, n, scratch, blocksize);
      }
    } else {
      var loc := Location(offset, blocksize);
      var disk0, mem0 := seq(size, i => if i < offset then 0 as Byte else 1), seq(memory, _ => 1 as Byte);
      if write {
        var disk1 := CopyInto(disk0, loc, mem0, buf, n);
        assert Moved(write, disk0, disk1, mem0, mem0, loc, buf, n, scratch, blocksize);
        assert disk1[loc] != disk0[loc] == (disk0[..offset] + mem0[buf..buf + n] + disk0[offset + n..])[loc];
        assert !ByteFile(write, disk0, disk1, mem0, mem0, offset, buf, n);
      } else {
        var mem1 := CopyInto(mem0, buf, disk0, loc, n);
        assert Moved(write, disk0, disk0, mem0, mem1, loc, buf, n, scratch, blocksize);
        assert mem1[buf..buf + n][0] == disk0[loc] != disk0[offset] == disk0[offset..offset + n][0];
        assert !ByteFile(write, disk0, disk0, mem0, mem1, offset, buf, n);
      }
    }
  }
}
