/**
  Encryption and authentication of disk sectors (stubdom/vtpmmgr/disk_crypto.c): AES in counter
  mode, also in place, and CMAC.  The block cipher itself is a parameter.
 */
module DiskCrypto {
  type Byte = bv8

  const BLOCK: nat := 16

  type Block = s: seq<Byte> | |s| == 16 witness seq(16, _ => 0)

  function Xor(x: Byte, y: Byte): Byte { x ^ y }

  // ----- counter mode -----

  /** A little-endian number plus one, at its own width. */
  function Increment(s: seq<Byte>): (r: seq<Byte>)
    ensures |r| == |s|
  {
    if s == [] then [] else if s[0] == 0xff then [0] + Increment(s[1..]) else [s[0] + 1] + s[1..]
  }

  /** The second 64-bit half of the counter block counts. */
  function NextCtr(c: Block): Block { c[..8] + Increment(c[8..]) }

  function CtrAt(c: Block, k: nat): Block {
    if k == 0 then c else NextCtr(CtrAt(c, k - 1))
  }

  lemma CtrNext(c: Block, k: nat)
    requires k % BLOCK == 0
    ensures (k + BLOCK) % BLOCK == 0 && CtrAt(c, (k + BLOCK) / BLOCK) == NextCtr(CtrAt(c, k / BLOCK))
  {
    assert (k + BLOCK) / BLOCK == k / BLOCK + 1;
  }

  /** Byte i of the key stream. */
  function KeyByte(aes: Block -> Block, iv: Block, i: nat): Byte { aes(CtrAt(iv, i / BLOCK))[i % BLOCK] }

  lemma KeyAt(aes: Block -> Block, iv: Block, k: nat, j: nat)
    requires k % BLOCK == 0 && j < BLOCK
    ensures KeyByte(aes, iv, k + j) == aes(CtrAt(iv, k / BLOCK))[j]
  {
    assert (k + j) / BLOCK == k / BLOCK && (k + j) % BLOCK == j;
  }

  /** The counter block and then the text, padded with zeros to `size` bytes, xored with the key stream. */
  function Encrypted(aes: Block -> Block, iv: Block, text: seq<Byte>, size: nat): (r: seq<Byte>)
    ensures |r| == BLOCK + size
  {
    iv + seq(size, i requires 0 <= i < size => Xor(KeyByte(aes, iv, i), if i < |text| then text[i] else 0))
  }

  function Decrypted(aes: Block -> Block, cipher: seq<Byte>, n: nat): (r: seq<Byte>)
    requires BLOCK + n <= |cipher|
    ensures |r| == n
  {
    seq(n, i requires 0 <= i < n => Xor(KeyByte(aes, cipher[..BLOCK], i), cipher[BLOCK + i]))
  }

  lemma XorTwice(x: Byte, y: Byte)
    ensures Xor(x, Xor(x, y)) == y
  {
  }

  /** Decryption recovers what was encrypted, whatever the padding. */
  lemma CtrRoundTrip(aes: Block -> Block, iv: Block, text: seq<Byte>, size: nat)
    requires |text| <= size
    ensures Decrypted(aes, Encrypted(aes, iv, text, size), |text|) == text
  {
    var c := Encrypted(aes, iv, text, size);
    assert c[..BLOCK] == iv;
    forall i | 0 <= i < |text| ensures Decrypted(aes, c, |text|)[i] == text[i] {
      XorTwice(KeyByte(aes, iv, i), text[i]);
    }
  }

  /** The sizes aes_encrypt_ctr accepts: the target holds the text, and whatever follows the block
      in which the text ends is whole blocks. */
  predicate Accepted(target: nat, text: nat) {
    && BLOCK + text <= target
    && (target % BLOCK == 0 || (text % BLOCK != 0 && target - BLOCK < text - text % BLOCK + BLOCK))
  }

  lemma AcceptedCases(size: nat, text: nat, k: nat)
    requires k % BLOCK == 0 && k <= text < k + BLOCK && text <= size
    ensures k < text && size - k < BLOCK ==> Accepted(BLOCK + size, text)
    ensures !(k < text && size - k < BLOCK) ==> (Accepted(BLOCK + size, text) <==> size % BLOCK == 0)
  {
    assert text % BLOCK == text - k;
    assert (BLOCK + size) % BLOCK == size % BLOCK;
  }

  /** Byte i of memory once n bytes at `at` are key stream xor source; only `text` of them have a source. */
  function XorByte(aes: Block -> Block, iv: Block, was: seq<Byte>, at: nat, from: nat, text: nat, n: nat, i: nat): Byte
    requires i < |was| && from + text <= |was|
  {
    if at <= i < at + n then Xor(KeyByte(aes, iv, i - at), if i - at < text then was[from + (i - at)] else 0)
    else was[i]
  }

  ghost predicate Xored(aes: Block -> Block, iv: Block, was: seq<Byte>, now: seq<Byte>, at: nat, from: nat,
      text: nat, n: nat)
  {
    && |now| == |was| && at + n <= |was| && from + text <= |was|
    && forall i {:trigger now[i]} | 0 <= i < |was| :: now[i] == XorByte(aes, iv, was, at, from, text, n, i)
  }

  /** The source of a copy is read in place or does not meet the target. */
  predicate InPlaceOrApart(at: nat, n: nat, from: nat, m: nat) { at == from || at + n <= from || from + m <= at }

  /** What XorBlock does to memory. */
  ghost predicate BlockXored(tmp: Block, was: seq<Byte>, now: seq<Byte>, at: nat, from: nat, text: nat, n: nat) {
    && |now| == |was| && at + n <= |was| && from + text <= |was| && text <= n <= BLOCK
    && forall i {:trigger now[i]} | 0 <= i < |was| ::
         now[i] ==
           if at <= i < at + n then Xor(tmp[i - at], if i - at < text then was[from + (i - at)] else 0) else was[i]
  }

  /** One more block, or the part of one at the end. */
  lemma XoredNext(aes: Block -> Block, iv: Block, was: seq<Byte>, mid: seq<Byte>, now: seq<Byte>,
      at: nat, from: nat, text: nat, k: nat, f: nat, t: nat, n: nat)
    requires Xored(aes, iv, was, mid, at, from, text, k) && k % BLOCK == 0
    requires BlockXored(aes(CtrAt(iv, k / BLOCK)), mid, now, at + k, f, t, n) && (t > 0 ==> f == from + k)
    requires InPlaceOrApart(at, k + n, from, text)
    requires if k + n <= text then t == n else k + t == text || (t == 0 && text <= k)
    ensures Xored(aes, iv, was, now, at, from, text, k + n)
  {
    hide KeyByte, CtrAt, Xor;
    forall i | 0 <= i < |was| ensures now[i] == XorByte(aes, iv, was, at, from, text, k + n, i) {
      if at + k <= i < at + k + n {
        KeyAt(aes, iv, k, i - at - k);
      }
    }
  }

  ghost predicate IvWritten(iv: Block, was: seq<Byte>, now: seq<Byte>, target: nat) {
    && |now| == |was| && target + BLOCK <= |was|
    && forall i | 0 <= i < |was| :: now[i] == if target <= i < target + BLOCK then iv[i - target] else was[i]
  }

  lemma XoredNone(aes: Block -> Block, iv: Block, was: seq<Byte>, at: nat, from: nat, text: nat)
    requires at <= |was| && from + text <= |was|
    ensures Xored(aes, iv, was, was, at, from, text, 0)
  {
  }

  lemma EncryptDone(aes: Block -> Block, iv: Block, was0: seq<Byte>, was: seq<Byte>, now: seq<Byte>,
      target: nat, targetSize: nat, src: nat, text: nat)
    requires IvWritten(iv, was0, was, target) && BLOCK <= targetSize && src + text <= |was0|
    requires Xored(aes, iv, was, now, target + BLOCK, src, text, targetSize - BLOCK) && text <= targetSize - BLOCK
    requires src == target + BLOCK || target + targetSize <= src || src + text <= target
    ensures now[target..target + targetSize] == Encrypted(aes, iv, was0[src..src + text], targetSize - BLOCK)
    ensures forall i | 0 <= i < |now| && !(target <= i < target + targetSize) :: now[i] == was0[i]
  {
    hide KeyByte, Xor;
    var e := Encrypted(aes, iv, was0[src..src + text], targetSize - BLOCK);
    forall j | 0 <= j < targetSize ensures now[target + j] == e[j] {
      if j >= BLOCK {
        assert target + j - (target + BLOCK) == j - BLOCK;
      }
    }
  }

  lemma DecryptDone(aes: Block -> Block, was: seq<Byte>, now: seq<Byte>, target: nat, text: nat, src: nat, srcSize: nat)
    requires src + srcSize <= |was| && BLOCK + text <= srcSize
    requires Xored(aes, was[src..src + BLOCK], was, now, target, src + BLOCK, text, text)
    ensures now[target..target + text] == Decrypted(aes, was[src..src + srcSize], text)
    ensures forall i | 0 <= i < |now| && !(target <= i < target + text) :: now[i] == was[i]
  {
    hide KeyByte, Xor;
    var c := was[src..src + srcSize];
    assert c[..BLOCK] == was[src..src + BLOCK];
    var d := Decrypted(aes, c, text);
    forall j | 0 <= j < text ensures now[target + j] == d[j] {
      assert target + j - target == j && c[BLOCK + j] == was[src + BLOCK + j];
    }
  }

  class Memory {
    const bytes: array<Byte>

    constructor (bytes: array<Byte>)
      ensures this.bytes == bytes
    {
      this.bytes := bytes;
    }

    /** One block, or the first n bytes of one: key stream xor source; `text` of the bytes have a source. */
    method XorBlock(tmp: Block, at: nat, from: nat, text: nat, n: nat)
      requires text <= n <= BLOCK && at + n <= bytes.Length && from + text <= bytes.Length
      requires InPlaceOrApart(at, n, from, text)
      modifies bytes
      ensures BlockXored(tmp, old(bytes[..]), bytes[..], at, from, text, n)
    {
      hide Xor;
      for j := 0 to n
        invariant forall i | 0 <= i < bytes.Length ::
                    bytes[i] == if at <= i < at + j
                                then Xor(tmp[i - at], if i - at < text then old(bytes[from + (i - at)]) else 0)
                                else old(bytes[i])
      {
        bytes[at + j] := Xor(tmp[j], if j < text then bytes[from + j] else 0);
      }
    }

    /** The counter block goes in front. */
    method WriteIv(iv: Block, target: nat)
      requires target + BLOCK <= bytes.Length
      modifies bytes
      ensures IvWritten(iv, old(bytes[..]), bytes[..], target)
    {
      for j := 0 to BLOCK
        invariant forall i | 0 <= i < bytes.Length ::
          bytes[i] == if target <= i < target + j then iv[i - target] else old(bytes[i])
      {
        bytes[target + j] := iv[j];
      }
    }

    /** The key stream itself fills the blocks after the text. */
    method Pad(aes: Block -> Block, iv: Block, ctr0: Block, at: nat, ghost from: nat, ghost text: nat, k0: nat,
        size: nat, ghost was: seq<Byte>)
      returns (ok: bool)
      requires Xored(aes, iv, was, bytes[..], at, from, text, k0) && k0 % BLOCK == 0 && text <= k0 <= size
      requires ctr0 == CtrAt(iv, k0 / BLOCK) && at + size <= bytes.Length && InPlaceOrApart(at, size, from, text)
      modifies bytes
      ensures ok <==> size % BLOCK == 0
      ensures ok ==> Xored(aes, iv, was, bytes[..], at, from, text, size)
    {
      hide Xored, KeyByte, NextCtr, CtrAt, BlockXored;
      var k, ctr := k0, ctr0;
      while size - k >= BLOCK
        invariant k % BLOCK == 0 && text <= k <= size && ctr == CtrAt(iv, k / BLOCK)
        invariant Xored(aes, iv, was, bytes[..], at, from, text, k)
      {
        ghost var mid := bytes[..];
        XorBlock(aes(ctr), at + k, at + k, 0, BLOCK);
        XoredNext(aes, iv, was, mid, bytes[..], at, from, text, k, at + k, 0, BLOCK);
        CtrNext(iv, k);
        ctr := NextCtr(ctr);
        k := k + BLOCK;
      }
      return k == size;
    }

    /** The rest of the text, zero padded to n bytes. */
    method LastBlock(aes: Block -> Block, ghost iv: Block, ctr: Block, at: nat, from: nat, text: nat, k: nat,
        n: nat, ghost was: seq<Byte>)
      requires Xored(aes, iv, was, bytes[..], at, from, text, k) && k % BLOCK == 0 && ctr == CtrAt(iv, k / BLOCK)
      requires k < text <= k + n && n <= BLOCK && at + k + n <= bytes.Length && InPlaceOrApart(at, k + n, from, text)
      requires from + text <= bytes.Length
      modifies bytes
      ensures Xored(aes, iv, was, bytes[..], at, from, text, k + n)
    {
      hide Xored, KeyByte, BlockXored;
      ghost var mid := bytes[..];
      XorBlock(aes(ctr), at + k, from + k, text - k, n);
      XoredNext(aes, iv, was, mid, bytes[..], at, from, text, k, from + k, text - k, n);
    }

    /** aes_encrypt_ctr behind the counter block: whole blocks, the rest of the text, padding. */
    method CtrBody(aes: Block -> Block, iv: Block, at: nat, size: nat, src: nat, text: nat) returns (ok: bool)
      requires text <= size && at + size <= bytes.Length && src + text <= bytes.Length
      requires InPlaceOrApart(at, size, src, text)
      modifies bytes
      ensures ok == Accepted(BLOCK + size, text)
      ensures ok ==> Xored(aes, iv, old(bytes[..]), bytes[..], at, src, text, size)
    {
      hide Xored, KeyByte, NextCtr, CtrAt, BlockXored, Accepted;
      var k, ctr := FullBlocks(aes, iv, at, src, text, size);
      AcceptedCases(size, text, k);
      if k < text {
        var n := if size - k < BLOCK then size - k else BLOCK;
        LastBlock(aes, iv, ctr, at, src, text, k, n, old(bytes[..]));
        if n < BLOCK {
          return true;
        }
        CtrNext(iv, k);
        ctr := NextCtr(ctr);
        k := k + n;
      }
      ok := Pad(aes, iv, ctr, at, src, text, k, size, old(bytes[..]));
    }

    /** aes_encrypt_ctr; the counter block is drawn at random and an abort is a false result. */
    method EncryptCtr(aes: Block -> Block, iv: Block, target: nat, targetSize: nat, src: nat, textSize: nat)
        returns (ok: bool)
      requires BLOCK <= targetSize && target + targetSize <= bytes.Length && src + textSize <= bytes.Length
      requires src == target + BLOCK || target + targetSize <= src || src + textSize <= target
      modifies bytes
      ensures ok == Accepted(targetSize, textSize)
      ensures ok ==>
        bytes[target..target + targetSize] == Encrypted(aes, iv, old(bytes[src..src + textSize]), targetSize - BLOCK)
      ensures ok ==> forall i | 0 <= i < bytes.Length && !(target <= i < target + targetSize) ::
        bytes[i] == old(bytes[i])
    {
      hide Xored, KeyByte, IvWritten, Encrypted;
      ghost var was0 := bytes[..];
      WriteIv(iv, target);
      ghost var was := bytes[..];
      if textSize > targetSize - BLOCK {
        return false;
      }
      ok := CtrBody(aes, iv, target + BLOCK, targetSize - BLOCK, src, textSize);
      if ok {
        EncryptDone(aes, iv, was0, was, bytes[..], target, targetSize, src, textSize);
        assert was0[src..src + textSize] == old(bytes[src..src + textSize]);
      }
    }

    /** aes_decrypt_ctr; an abort is a false result. */
    method DecryptCtr(aes: Block -> Block, target: nat, textSize: nat, src: nat, srcSize: nat) returns (ok: bool)
      requires BLOCK <= srcSize && src + srcSize <= bytes.Length && target + textSize <= bytes.Length
      requires target == src + BLOCK || target + textSize <= src || src + srcSize <= target
      modifies bytes
      ensures ok == (BLOCK + textSize <= srcSize)
      ensures ok ==> bytes[target..target + textSize] == Decrypted(aes, old(bytes[src..src + srcSize]), textSize)
      ensures forall i | 0 <= i < bytes.Length && !(target <= i < target + textSize) :: bytes[i] == old(bytes[i])
    {
      hide Xored, KeyByte, Decrypted, BlockXored;
      if textSize > srcSize - BLOCK {
        return false;
      }
      ghost var was := bytes[..];
      var iv: Block, from := bytes[src..src + BLOCK], src + BLOCK;
      var k, ctr := FullBlocks(aes, iv, target, from, textSize, textSize);
      if k < textSize {
        LastBlock(aes, iv, ctr, target, from, textSize, k, textSize - k, was);
      }
      DecryptDone(aes, was, bytes[..], target, textSize, src, srcSize);
      assert was[src..src + srcSize] == old(bytes[src..src + srcSize]);
      return true;
    }

    /** The loop over the whole blocks of the text, the same in both directions. */
    method FullBlocks(aes: Block -> Block, iv: Block, at: nat, from: nat, text: nat, ghost size: nat)
        returns (k: nat, ctr: Block)
      requires text <= size && at + size <= bytes.Length && from + text <= bytes.Length
      requires InPlaceOrApart(at, size, from, text)
      modifies bytes
      ensures k % BLOCK == 0 && k <= text < k + BLOCK && ctr == CtrAt(iv, k / BLOCK)
      ensures Xored(aes, iv, old(bytes[..]), bytes[..], at, from, text, k)
    {
      k, ctr := 0, iv;
      assert ctr == CtrAt(iv, 0);
      XoredNone(aes, iv, bytes[..], at, from, text);
      hide Xored, KeyByte, NextCtr, CtrAt, BlockXored;
      while text - k >= BLOCK
        invariant k % BLOCK == 0 && k <= text && ctr == CtrAt(iv, k / BLOCK)
        invariant Xored(aes, iv, old(bytes[..]), bytes[..], at, from, text, k)
      {
        ghost var mid := bytes[..];
        XorBlock(aes(ctr), at + k, from + k, BLOCK, BLOCK);
        XoredNext(aes, iv, old(bytes[..]), mid, bytes[..], at, from, text, k, from + k, BLOCK, BLOCK);
        CtrNext(iv, k);
        ctr := NextCtr(ctr);
        k := k + BLOCK;
      }
    }

    /** A vTPM sector is encrypted in place, behind its counter block, and decrypted in place again. */
    method InPlace(aes: Block -> Block, iv: Block, at: nat, n: nat)
      requires at + BLOCK + n <= bytes.Length && n % BLOCK == 0
      modifies bytes
      ensures forall i | 0 <= i < bytes.Length && !(at <= i < at + BLOCK) :: bytes[i] == old(bytes[i])
    {
      hide Encrypted, Decrypted;
      var data, size := at + BLOCK, BLOCK + n;
      ghost var text := bytes[data..data + n];
      var ok := EncryptCtr(aes, iv, at, size, data, n);
      CtrRoundTrip(aes, iv, text, n);
      ok := DecryptCtr(aes, data, n, at, size);
      assert bytes[data..data + n] == text;
      forall i | data <= i < data + n ensures bytes[i] == old(bytes[i]) {
        assert bytes[i] == text[i - data];
      }
    }
  }

  // ----- CMAC -----

  function XorBlocks(a: Block, b: Block): Block { seq(16, i requires 0 <= i < 16 => Xor(a[i], b[i])) }

  const ZERO: Block := seq(16, _ => 0)

  /** Bit j of a byte, the most significant first. */
  predicate BitOf(x: Byte, j: nat)
    requires j < 8
  {
    var mask: Byte := match j
      case 0 => 0x80
      case 1 => 0x40
      case 2 => 0x20
      case 3 => 0x10
      case 4 => 0x08
      case 5 => 0x04
      case 6 => 0x02
      case _ => 0x01;
    x & mask != 0
  }

  /** A block as the string of its 128 bits. */
  function BitString(b: Block): (s: seq<bool>)
    ensures |s| == 128
  {
    seq(128, i requires 0 <= i < 128 => BitOf(b[i / 8], i % 8))
  }

  /** The constant of section 2.3 of RFC 4493. */
  function Rb(): seq<bool> { seq(120, _ => false) + [true, false, false, false, false, true, true, true] }

  lemma RbAt(i: nat)
    requires i < 128
    ensures |Rb()| == 128 && (Rb()[i] <==> i in {120, 125, 126, 127})
  {
    if i >= 120 {
      assert Rb()[i] == [true, false, false, false, false, true, true, true][i - 120];
    }
  }

  /** Subkey generation, section 2.3 of RFC 4493: shift left by one bit, and xor with the constant
      if the bit shifted out was set. */
  function DoubledBits(s: seq<bool>): seq<bool>
    requires |s| == 128
  {
    var shifted := s[1..] + [false];
    RbAt(0);
    if s[0] then seq(128, i requires 0 <= i < 128 => shifted[i] != Rb()[i]) else shifted
  }

  /** One byte of shl_128_mod_hex87, from a byte and the one after it. */
  function ShiftByte(x: Byte, next: Byte): Byte { (x << 1) | (next >> 7) }

  function LastByte(x: Byte, carry: bool): Byte { (x << 1) ^ (if carry then 0x87 else 0) }

  lemma ShiftByteBits(x: Byte, next: Byte, j: nat)
    requires j < 8
    ensures BitOf(ShiftByte(x, next), j) <==> if j < 7 then BitOf(x, j + 1) else BitOf(next, 0)
  {
  }

  lemma LastByteBits(x: Byte, carry: bool, j: nat)
    requires j < 8
    ensures BitOf(LastByte(x, carry), j) <==> (j < 7 && BitOf(x, j + 1)) != (carry && j in {0, 5, 6, 7})
  {
  }

  /** A subkey from the one before. */
  function Doubled(b: Block): Block {
    seq(16, i requires 0 <= i < 16 => if i < 15 then ShiftByte(b[i], b[i + 1]) else LastByte(b[15], BitOf(b[0], 0)))
  }

  /** shl_128_mod_hex87 */
  method ShlMod(src: Block) returns (dst: Block)
    ensures dst == Doubled(src) && BitString(dst) == DoubledBits(BitString(src))
  {
    hide ShiftByte, LastByte, BitOf, BitString, DoubledBits;
    var carry := BitOf(src[0], 0);
    dst := ZERO;
    for i := 0 to 15
      invariant forall k | 0 <= k < i :: dst[k] == ShiftByte(src[k], src[k + 1])
    {
      dst := dst[i := ShiftByte(src[i], src[i + 1])];
    }
    dst := dst[15 := LastByte(src[15], carry)];
    ShlModBits(src, dst);
  }

  lemma ShlModBits(src: Block, dst: Block)
    requires forall k | 0 <= k < 15 :: dst[k] == ShiftByte(src[k], src[k + 1])
    requires dst[15] == LastByte(src[15], BitOf(src[0], 0))
    ensures BitString(dst) == DoubledBits(BitString(src))
  {
    hide ShiftByte, LastByte, BitOf, Rb;
    var s, d := BitString(src), DoubledBits(BitString(src));
    forall i | 0 <= i < 128 ensures BitString(dst)[i] == d[i] {
      var k, j := i / 8, i % 8;
      RbAt(i);
      assert s[0] == BitOf(src[0], 0);
      if k < 15 {
        ShiftByteBits(src[k], src[k + 1], j);
        if j < 7 {
          assert s[i + 1] == BitOf(src[k], j + 1);
        } else {
          assert s[i + 1] == BitOf(src[k + 1], 0);
        }
      } else {
        LastByteBits(src[15], s[0], j);
        assert i == 120 + j && (j in {0, 5, 6, 7} <==> i in {120, 125, 126, 127});
        if j < 7 {
          assert s[i + 1] == BitOf(src[15], j + 1);
        }
      }
    }
  }

  function BlockAt(m: seq<Byte>, i: nat): Block
    requires 16 * i + 16 <= |m|
  {
    m[16 * i..16 * i + 16]
  }

  /** The chaining value after i blocks. */
  function Chain(aes: Block -> Block, m: seq<Byte>, i: nat): Block
    requires 16 * i <= |m|
  {
    if i == 0 then ZERO else aes(XorBlocks(Chain(aes, m, i - 1), BlockAt(m, i - 1)))
  }

  /** The end of a message, completed to a block with the given bytes. */
  function Completed(r: seq<Byte>, first: Byte): Block
    requires |r| < 16
  {
    r + [first] + seq(15 - |r|, _ => 0)
  }

  /** The MAC of section 2.4 of RFC 4493. */
  function RfcMac(aes: Block -> Block, m: seq<Byte>): Block {
    var k1 := Doubled(aes(ZERO));
    if m != [] && |m| % 16 == 0 then
      var n := |m| / 16;
      aes(XorBlocks(XorBlocks(BlockAt(m, n - 1), k1), Chain(aes, m, n - 1)))
    else
      var n := |m| / 16;
      aes(XorBlocks(XorBlocks(Completed(m[16 * n..], 0x80), Doubled(k1)), Chain(aes, m, n)))
  }

  ghost predicate Injective(aes: Block -> Block) {
    forall a, b :: aes(a) == aes(b) ==> a == b
  }

  lemma XorLaws(a: Byte, b: Byte, c: Byte)
    ensures Xor(Xor(a, b), c) == Xor(Xor(c, b), a)
  {
  }

  lemma XorDiffers(a: Byte, b: Byte)
    ensures Xor(Xor(a, b), 0) != Xor(Xor(0x80, b), a)
  {
  }

  lemma XorBlocksLaws(a: Block, b: Block, c: Block)
    ensures XorBlocks(XorBlocks(a, b), c) == XorBlocks(XorBlocks(c, b), a)
  {
    hide Xor;
    forall i | 0 <= i < 16 ensures XorBlocks(XorBlocks(a, b), c)[i] == XorBlocks(XorBlocks(c, b), a)[i] {
      XorLaws(a[i], b[i], c[i]);
    }
  }

  /** Without the one bit of the padding the last block is another. */
  lemma PaddingMatters(x: Block, k: Block, r: seq<Byte>)
    requires |r| < 16
    ensures XorBlocks(XorBlocks(x, k), Completed(r, 0)) != XorBlocks(XorBlocks(Completed(r, 0x80), k), x)
  {
    hide Xor;
    var i := |r|;
    XorDiffers(x[i], k[i]);
    assert Completed(r, 0)[i] == 0 && Completed(r, 0x80)[i] == 0x80;
    assert XorBlocks(XorBlocks(x, k), Completed(r, 0))[i] == Xor(Xor(x[i], k[i]), 0);
    assert XorBlocks(XorBlocks(Completed(r, 0x80), k), x)[i] == Xor(Xor(0x80, k[i]), x[i]);
  }

  /** The block that goes into the last encryption, by the length of the message. */
  function LastInput(aes: Block -> Block, m: seq<Byte>): Block
    requires m != []
  {
    var k1, n := Doubled(aes(ZERO)), (|m| - 1) / 16;
    var x := Chain(aes, m, n);
    if |m| % 16 != 0 then XorBlocks(XorBlocks(x, Doubled(k1)), Completed(m[16 * n..], 0))
    else XorBlocks(XorBlocks(x, k1), BlockAt(m, n))
  }

  lemma WholeBlocks(aes: Block -> Block, m: seq<Byte>)
    requires m != [] && |m| % 16 == 0
    ensures aes(LastInput(aes, m)) == RfcMac(aes, m)
  {
    hide XorBlocks, Doubled, Chain;
    var n := (|m| - 1) / 16;
    assert n == |m| / 16 - 1;
    XorBlocksLaws(Chain(aes, m, n), Doubled(aes(ZERO)), BlockAt(m, n));
  }

  lemma PartialBlock(aes: Block -> Block, m: seq<Byte>)
    requires |m| % 16 != 0 && Injective(aes)
    ensures aes(LastInput(aes, m)) != RfcMac(aes, m)
  {
    hide XorBlocks, Doubled, Chain, Completed;
    var n := (|m| - 1) / 16;
    assert n == |m| / 16;
    PaddingMatters(Chain(aes, m, n), Doubled(Doubled(aes(ZERO))), m[16 * n..]);
  }

  /** aes_cmac: the MAC of RFC 4493 for messages of whole blocks, and, the cipher being injective, for no others. */
  method AesCmac(aes: Block -> Block, m: seq<Byte>) returns (mac: Block)
    requires m != []
    ensures |m| % 16 == 0 ==> mac == RfcMac(aes, m)
    ensures Injective(aes) ==> (mac == RfcMac(aes, m) <==> |m| % 16 == 0)
  {
    hide XorBlocks, Doubled, Completed, BitString, DoubledBits, RfcMac, Injective;
    var bsize := (|m| - 1) / 16;
    var x := ZERO;
    var k1 := ShlMod(aes(x));
    var k2 := ShlMod(k1);
    for i := 0 to bsize
      invariant x == Chain(aes, m, i)
    {
      x := aes(XorBlocks(x, BlockAt(m, i)));
    }
    if |m| % 16 != 0 {
      x := XorBlocks(XorBlocks(x, k2), Completed(m[16 * bsize..], 0));
      if Injective(aes) {
        PartialBlock(aes, m);
      }
    } else {
      x := XorBlocks(XorBlocks(x, k1), BlockAt(m, bsize));
      WholeBlocks(aes, m);
    }
    mac := aes(x);
  }
}
