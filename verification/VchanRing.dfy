/**
  One ring of a libvchan channel (tools/libvchan/io.c): 32-bit indices that wrap, and copies
  that may roll over the end of the buffer.
 */
module VchanRing {
  import opened Remainders

  type Byte = bv8

  /** The indices are 32 bits wide. */
  const U32: nat := 0x1_0000_0000

  /** The slot of an index: masking with size - 1 is the remainder, the size being a power of two. */
  function Wrap(i: nat, n: nat): (r: nat)
    requires n > 0
    ensures r < n
  {
    i % n
  }

  /** A ring has 1 << order slots: the sizes are the divisors of 2^32. */
  predicate RingSize(n: nat) { 0 < n < U32 && U32 % n == 0 }

  // ----- remainders -----

  /** Reducing an index to 32 bits does not change its slot. */
  lemma WrapIndex(i: nat, n: nat)
    requires RingSize(n)
    ensures Wrap(i % U32, n) == Wrap(i, n)
  {
    var m, q, r := U32 / n, i / U32, i % U32;
    assert i == U32 * q + r && U32 == n * m;
    assert U32 * q == n * (m * q);
    var q' := r / n;
    assert n * (m * q) + n * q' == n * (m * q + q');
    ModUnique(i, n, m * q + q', r % n);
  }

  /** Within one lap no two indices share a slot. */
  lemma WrapInjective(i: nat, j: nat, n: nat)
    requires n > 0 && i <= j < i + n && Wrap(i, n) == Wrap(j, n)
    ensures i == j
  {
    var d := j / n - i / n;
    assert n * d == j - i by {
      assert j == n * (j / n) + j % n && i == n * (i / n) + i % n;
      assert n * (j / n) == n * (i / n) + n * d;
    }
    MulBound(n, d);
  }

  /** Adding to a 32-bit index is adding to the true one. */
  lemma IndexMove(i: nat, k: nat)
    ensures (i % U32 + k) % U32 == (i + k) % U32
  {
    var q, q' := i / U32, (i % U32 + k) / U32;
    assert i + k == U32 * (q + q') + (i % U32 + k) % U32;
    ModUnique(i + k, U32, q + q', (i % U32 + k) % U32);
  }

  lemma WrapMove(i: nat, k: nat, n: nat)
    requires RingSize(n)
    ensures Wrap(i % U32 + k, n) == Wrap(i + k, n)
  {
    WrapIndex(i % U32 + k, n);
    WrapIndex(i + k, n);
    IndexMove(i, k);
  }

  lemma WrapNear(i: nat, k: nat, n: nat)
    requires n > 0 && k <= n
    ensures Wrap(i + k, n) == if Wrap(i, n) + k < n then Wrap(i, n) + k else Wrap(i, n) + k - n
  {
    var q, r := i / n, i % n;
    if r + k < n {
      ModUnique(i + k, n, q, r + k);
    } else if r + k - n < n {
      assert n * (q + 1) == n * q + n;
      ModUnique(i + k, n, q + 1, r + k - n);
    }
  }

  // ----- space and data -----

  /** raw_get_data_ready */
  function DataReady(prod: nat, cons: nat, n: nat): nat {
    var ready := (prod - cons) % U32;
    if ready > n then 0 else ready
  }

  /** raw_get_buffer_space */
  function BufferSpace(prod: nat, cons: nat, n: nat): nat {
    var ready := (n - (prod - cons) % U32) % U32;
    if ready > n then 0 else ready
  }

  /** Seen from the true totals, both are exact, however often the indices have wrapped. */
  lemma IndicesCount(total: nat, taken: nat, n: nat)
    requires RingSize(n) && taken <= total <= taken + n
    ensures DataReady(total % U32, taken % U32, n) == total - taken
    ensures BufferSpace(total % U32, taken % U32, n) == taken + n - total
  {
    var d := total - taken;
    var p, c := total % U32, taken % U32;
    var q := total / U32 - taken / U32;
    assert p - c == U32 * -q + d;
    ModUnique(p - c, U32, -q, d);
    ModUnique(n - d, U32, 0, n - d);
  }

  /** Filling exactly the space there was leaves none. */
  lemma FilledUp(prod: nat, cons: nat, n: nat, k: nat)
    requires RingSize(n) && BufferSpace(prod, cons, n) == k
    ensures BufferSpace((prod + k) % U32, cons, n) == 0
  {
    var d, q := (prod - cons) % U32, (prod - cons) / U32;
    if k == 0 {
      ModUnique(prod % U32 - cons, U32, q - prod / U32, d);
    } else {
      assert d == n - k by {
        if d > n {
          ModUnique(n - d, U32, -1, n - d + U32);
        } else {
          ModUnique(n - d, U32, 0, n - d);
        }
      }
      ModUnique((prod + k) % U32 - cons, U32, q - (prod + k) / U32, n);
    }
  }

  // ----- copies -----

  /** The buffer after the bytes have been stored, one after the other, from index `at` on. */
  function Put(buf: seq<Byte>, at: nat, data: seq<Byte>): (r: seq<Byte>)
    requires buf != []
    ensures |r| == |buf|
    decreases |data|
  {
    if data == [] then buf else Put(buf[Wrap(at, |buf|) := data[0]], at + 1, data[1..])
  }

  /** The bytes at the indices from `at` on. */
  function Take(buf: seq<Byte>, at: nat, size: nat): seq<Byte>
    requires buf != []
  {
    seq(size, j requires 0 <= j < size => buf[Wrap(at + j, |buf|)])
  }

  /** How far a slot is from the slot where a copy starts. */
  function Distance(start: nat, slot: nat, n: nat): (d: nat)
    requires start < n && slot < n
    ensures d < n
  {
    if slot >= start then slot - start else slot + n - start
  }

  lemma {:induction false} PutAt(buf: seq<Byte>, at: nat, data: seq<Byte>, w: nat)
    requires w < |buf| && |data| <= |buf|
    ensures var d := Distance(Wrap(at, |buf|), w, |buf|);
            Put(buf, at, data)[w] == if d < |data| then data[d] else buf[w]
    decreases |data|
  {
    if data != [] {
      var buf', d := buf[Wrap(at, |buf|) := data[0]], Distance(Wrap(at, |buf|), w, |buf|);
      WrapNear(at, 1, |buf|);
      PutAt(buf', at + 1, data[1..], w);
    }
  }

  /** What was stored is what is read back. */
  lemma PutTake(buf: seq<Byte>, at: nat, data: seq<Byte>)
    requires buf != [] && |data| <= |buf|
    ensures Take(Put(buf, at, data), at, |data|) == data
  {
    forall j | 0 <= j < |data| ensures Put(buf, at, data)[Wrap(at + j, |buf|)] == data[j] {
      WrapNear(at, j, |buf|);
      PutAt(buf, at, data, Wrap(at + j, |buf|));
    }
  }

  /** A ring as one of the two ends sees it. */
  class Ring {
    const buffer: array<Byte>
    var prod: nat
    var cons: nat

    ghost predicate Valid()
      reads this
    {
      RingSize(buffer.Length) && prod < U32 && cons < U32
    }

    constructor (size: nat)
      requires RingSize(size)
      ensures Valid() && fresh(buffer) && buffer.Length == size && prod == 0 && cons == 0
    {
      buffer := new Byte[size](_ => 0);
      prod, cons := 0, 0;
    }

    method CopyIn(at: nat, data: seq<Byte>)
      requires at + |data| <= buffer.Length
      modifies buffer
      ensures forall w | 0 <= w < buffer.Length ::
                buffer[w] == if at <= w < at + |data| then data[w - at] else old(buffer[w])
    {
      for i := 0 to |data|
        invariant forall w | 0 <= w < buffer.Length ::
                    buffer[w] == if at <= w < at + i then data[w - at] else old(buffer[w])
      {
        buffer[at + i] := data[i];
      }
    }

    /** do_send without the notification; the caller has checked the space. */
    method DoSend(data: seq<Byte>)
      requires Valid() && |data| <= buffer.Length
      modifies this`prod, buffer
      ensures Valid() && prod == (old(prod) + |data|) % U32
      ensures buffer[..] == Put(old(buffer[..]), old(prod), data)
    {
      var start := Wrap(prod, buffer.Length);
      var contig := buffer.Length - start;
      if contig > |data| {
        contig := |data|;
      }
      CopyIn(start, data[..contig]);
      if contig < |data| {
        CopyIn(0, data[contig..]);
      }
      ghost var was := old(buffer[..]);
      forall w | 0 <= w < buffer.Length ensures buffer[w] == Put(was, prod, data)[w] {
        PutAt(was, prod, data, w);
      }
      prod := (prod + |data|) % U32;
    }

    /** do_recv without the notification; the caller has checked that the data is there. */
    method DoRecv(size: nat) returns (data: seq<Byte>)
      requires Valid() && size <= buffer.Length
      modifies this`cons
      ensures Valid() && cons == (old(cons) + size) % U32
      ensures data == Take(buffer[..], old(cons), size)
    {
      var start := Wrap(cons, buffer.Length);
      var contig := buffer.Length - start;
      if contig > size {
        contig := size;
      }
      data := buffer[start..start + contig];
      if contig < size {
        data := data + buffer[..size - contig];
      }
      forall j | 0 <= j < size ensures data[j] == buffer[Wrap(cons + j, buffer.Length)] {
        WrapNear(cons, j, buffer.Length);
      }
      cons := (cons + size) % U32;
    }
  }
}
