/** Cipher block chaining over an abstract block cipher, restarted from the same
    IV for every 1024-byte chunk. */
module Cbc {
  import opened Bytes
  import opened Arithmetic

  const MAX_LEN: nat := 1024

  /** A block cipher given by its two directions; the first argument is the key. */
  datatype BlockCipher = BlockCipher(
    enc: (seq<byte>, seq<byte>) -> seq<byte>,
    dec: (seq<byte>, seq<byte>) -> seq<byte>)
  {
    ghost predicate Valid(block: nat) {
      forall key: seq<byte>, b: seq<byte> | |b| == block ::
        |enc(key, b)| == block && |dec(key, b)| == block && dec(key, enc(key, b)) == b
    }
  }

  /** The block sizes the chunk loops work for. */
  predicate BlockSize(block: nat): (b: bool)
    ensures b ==> 0 < block < 256
  {
    0 < block < 256 && MAX_LEN % block == 0
  }

  // ---------------------------------------------------------------- exclusive or

  function XorBits(a: nat, b: nat, bits: nat): nat {
    if bits == 0 then 0 else 2 * XorBits(a / 2, b / 2, bits - 1) + (if a % 2 == b % 2 then 0 else 1)
  }

  function Pow2(n: nat): nat {
    if n == 0 then 1 else 2 * Pow2(n - 1)
  }

  lemma {:induction false} XorBitsBound(a: nat, b: nat, bits: nat)
    ensures XorBits(a, b, bits) < Pow2(bits)
  {
    if bits > 0 {
      XorBitsBound(a / 2, b / 2, bits - 1);
    }
  }

  lemma {:induction false} XorBitsCancel(a: nat, b: nat, bits: nat)
    requires a < Pow2(bits)
    ensures XorBits(XorBits(a, b, bits), b, bits) == a
  {
    if bits > 0 {
      XorBitsCancel(a / 2, b / 2, bits - 1);
      assert XorBits(a, b, bits) / 2 == XorBits(a / 2, b / 2, bits - 1);
    }
  }

  lemma Pow2Of8()
    ensures Pow2(8) == 256
  {
    assert Pow2(4) == 16;
    assert Pow2(6) == 64;
  }

  /** Bit `i` of a number, the lowest being bit 0. */
  function Bit(n: nat, i: nat): (b: nat)
    ensures b < 2
  {
    if i == 0 then n % 2 else Bit(n / 2, i - 1)
  }

  /** Each bit is set when exactly one of the two bits is. */
  lemma {:induction false} XorBitsAt(a: nat, b: nat, bits: nat, i: nat)
    requires i < bits
    ensures Bit(XorBits(a, b, bits), i) == (Bit(a, i) + Bit(b, i)) % 2
  {
    var x, low := XorBits(a / 2, b / 2, bits - 1), if a % 2 == b % 2 then 0 else 1;
    assert XorBits(a, b, bits) == 2 * x + low;
    assert (2 * x + low) % 2 == low && (2 * x + low) / 2 == x;
    if i > 0 {
      XorBitsAt(a / 2, b / 2, bits - 1, i - 1);
    }
  }

  function XorByte(a: byte, b: byte): byte {
    XorBitsBound(a, b, 8);
    Pow2Of8();
    XorBits(a, b, 8)
  }

  function Xor(a: seq<byte>, b: seq<byte>): (r: seq<byte>)
    requires |a| == |b|
    ensures |r| == |a|
  {
    seq(|a|, i requires 0 <= i < |a| => XorByte(a[i], b[i]))
  }

  /** Bitwise exclusive or of bytes, bit by bit. */
  lemma XorIsBitwise(a: seq<byte>, b: seq<byte>, k: nat, i: nat)
    requires |a| == |b| && k < |a| && i < 8
    ensures Bit(Xor(a, b)[k], i) == (Bit(a[k], i) + Bit(b[k], i)) % 2
  {
    XorBitsAt(a[k], b[k], 8, i);
  }

  lemma XorCancel(a: seq<byte>, b: seq<byte>)
    requires |a| == |b|
    ensures Xor(Xor(a, b), b) == a
  {
    forall i | 0 <= i < |a| ensures Xor(Xor(a, b), b)[i] == a[i] {
      Pow2Of8();
      XorBitsCancel(a[i], b[i], 8);
    }
  }

  // ---------------------------------------------------------------- one chunk

  /** CBC of the whole blocks of `s` (NIST SP 800-38A section 6.2); bytes after the last whole block are dropped. */
  function CbcEncrypt(c: BlockCipher, key: seq<byte>, prev: seq<byte>, s: seq<byte>, block: nat): (r: seq<byte>)
    requires block > 0 && |prev| == block && c.Valid(block)
    ensures |r| == |s| - |s| % block
    decreases |s|
  {
    if |s| < block then []
    else
      var e := c.enc(key, Xor(s[..block], prev));
      ModSelf(block);
      ModAddMultiple(block, |s|, block);
      e + CbcEncrypt(c, key, e, s[block..], block)
  }

  function CbcDecrypt(c: BlockCipher, key: seq<byte>, prev: seq<byte>, s: seq<byte>, block: nat): (r: seq<byte>)
    requires block > 0 && |prev| == block && c.Valid(block)
    ensures |r| == |s| - |s| % block
    decreases |s|
  {
    if |s| < block then []
    else
      ModSelf(block);
      ModAddMultiple(block, |s|, block);
      Xor(c.dec(key, s[..block]), prev) + CbcDecrypt(c, key, s[..block], s[block..], block)
  }

  lemma {:induction false} CbcRoundTrip(c: BlockCipher, key: seq<byte>, prev: seq<byte>, s: seq<byte>, block: nat)
    requires block > 0 && |prev| == block && c.Valid(block)
    requires |s| % block == 0
    ensures CbcDecrypt(c, key, prev, CbcEncrypt(c, key, prev, s, block), block) == s
    decreases |s|
  {
    hide Xor;
    if |s| >= block {
      ModSelf(block);
      ModAddMultiple(block, |s|, block);
      var x := Xor(s[..block], prev);
      var e := c.enc(key, x);
      var rest := CbcEncrypt(c, key, e, s[block..], block);
      CbcRoundTrip(c, key, e, s[block..], block);
      XorCancel(s[..block], prev);
      assert (e + rest)[..block] == e && (e + rest)[block..] == rest;
      assert s == s[..block] + s[block..];
    }
  }

  /** Block number `j` of `s`. */
  function BlockAt(s: seq<byte>, j: nat, block: nat): seq<byte>
    requires block > 0
  {
    if |s| < block then [] else if j == 0 then s[..block] else BlockAt(s[block..], j - 1, block)
  }

  /** The defining equations of section 6.2 of NIST SP 800-38A: each ciphertext block is the
      encryption of its plaintext block combined with the ciphertext block before it, the IV before
      the first. */
  lemma {:induction false} CbcEquations(c: BlockCipher, key: seq<byte>, iv: seq<byte>, s: seq<byte>, block: nat, j: nat)
    requires block > 0 && |iv| == block && c.Valid(block)
    requires |BlockAt(s, j, block)| == block
    ensures var e := CbcEncrypt(c, key, iv, s, block);
            var before := if j == 0 then iv else BlockAt(e, j - 1, block);
            |before| == block && BlockAt(e, j, block) == c.enc(key, Xor(BlockAt(s, j, block), before))
    decreases j
  {
    hide Xor;
    var e0 := c.enc(key, Xor(s[..block], iv));
    var rest := CbcEncrypt(c, key, e0, s[block..], block);
    assert CbcEncrypt(c, key, iv, s, block) == e0 + rest;
    assert (e0 + rest)[..block] == e0 && (e0 + rest)[block..] == rest;
    if j > 0 {
      CbcEquations(c, key, e0, s[block..], block, j - 1);
    }
  }

  // ---------------------------------------------------------------- chunks of 1024

  function EncryptChunks(c: BlockCipher, key: seq<byte>, iv: seq<byte>, s: seq<byte>, block: nat): seq<byte>
    requires block > 0 && |iv| == block && c.Valid(block)
  {
    if s == [] then []
    else
      var n := Min(MAX_LEN, |s|);
      CbcEncrypt(c, key, iv, s[..n], block) + EncryptChunks(c, key, iv, s[n..], block)
  }

  function DecryptChunks(c: BlockCipher, key: seq<byte>, iv: seq<byte>, s: seq<byte>, block: nat): seq<byte>
    requires block > 0 && |iv| == block && c.Valid(block)
  {
    if s == [] then []
    else
      var n := Min(MAX_LEN, |s|);
      CbcDecrypt(c, key, iv, s[..n], block) + DecryptChunks(c, key, iv, s[n..], block)
  }

  lemma {:induction false} EncryptChunksAppend(c: BlockCipher, key: seq<byte>, iv: seq<byte>, a: seq<byte>,
                                               b: seq<byte>, block: nat)
    requires block > 0 && |iv| == block && c.Valid(block)
    requires |a| % MAX_LEN == 0
    ensures EncryptChunks(c, key, iv, a + b, block) ==
            EncryptChunks(c, key, iv, a, block) + EncryptChunks(c, key, iv, b, block)
  {
    hide CbcEncrypt, CbcDecrypt;
    if a == [] {
      assert a + b == b;
    } else {
      assert |a| >= MAX_LEN;
      EncryptChunksAppend(c, key, iv, a[MAX_LEN..], b, block);
      assert (a + b)[..MAX_LEN] == a[..MAX_LEN] && (a + b)[MAX_LEN..] == a[MAX_LEN..] + b;
    }
  }

  lemma {:induction false} DecryptChunksAppend(c: BlockCipher, key: seq<byte>, iv: seq<byte>, a: seq<byte>,
                                               b: seq<byte>, block: nat)
    requires block > 0 && |iv| == block && c.Valid(block)
    requires |a| % MAX_LEN == 0
    ensures DecryptChunks(c, key, iv, a + b, block) ==
            DecryptChunks(c, key, iv, a, block) + DecryptChunks(c, key, iv, b, block)
  {
    hide CbcEncrypt, CbcDecrypt;
    if a == [] {
      assert a + b == b;
    } else {
      assert |a| >= MAX_LEN;
      DecryptChunksAppend(c, key, iv, a[MAX_LEN..], b, block);
      assert (a + b)[..MAX_LEN] == a[..MAX_LEN] && (a + b)[MAX_LEN..] == a[MAX_LEN..] + b;
    }
  }

  /** Decrypting chunk by chunk undoes encrypting chunk by chunk: the chunk boundaries line up. */
  lemma {:induction false} ChunksRoundTrip(c: BlockCipher, key: seq<byte>, iv: seq<byte>, s: seq<byte>, block: nat)
    requires BlockSize(block) && |iv| == block && c.Valid(block)
    requires |s| % block == 0
    ensures |EncryptChunks(c, key, iv, s, block)| == |s|
    ensures DecryptChunks(c, key, iv, EncryptChunks(c, key, iv, s, block), block) == s
    decreases |s|
  {
    hide CbcEncrypt, CbcDecrypt;
    if s != [] {
      var n := Min(MAX_LEN, |s|);
      ModAddMultiple(n, |s|, block);
      var e, rest := CbcEncrypt(c, key, iv, s[..n], block), EncryptChunks(c, key, iv, s[n..], block);
      CbcRoundTrip(c, key, iv, s[..n], block);
      ChunksRoundTrip(c, key, iv, s[n..], block);
      assert |s[n..]| > 0 ==> n == MAX_LEN;
      assert (e + rest)[..n] == e && (e + rest)[n..] == rest;
      assert s == s[..n] + s[n..];
    }
  }

  /** Where a part of two joined pieces comes from. */
  lemma PartOf(a: seq<byte>, b: seq<byte>, lo: nat, hi: nat)
    requires lo <= hi <= |a| + |b|
    ensures hi <= |a| ==> (a + b)[lo..hi] == a[lo..hi]
    ensures lo >= |a| ==> (a + b)[lo..hi] == b[lo - |a|..hi - |a|]
  {
  }

  /** A block that starts inside aligned bytes ends inside them. */
  lemma AlignedFits(off: nat, n: nat, block: nat)
    requires block > 0 && off % block == 0 && n % block == 0 && off < n
    ensures (n - off) % block == 0 && off + block <= n && (off > 0 ==> off >= block)
  {
    ModAddMultiple(off, n, block);
  }

  /** The block of ciphertext `e` at an offset is what the plaintext `s` and the block before make it. */
  ghost predicate ChainedAt(c: BlockCipher, key: seq<byte>, before: seq<byte>, s: seq<byte>, e: seq<byte>, block: nat,
                            off: nat)
  {
    && |e| == |s| && off + block <= |s| && |before| == block
    && e[off..off + block] == c.enc(key, Xor(s[off..off + block], before))
  }

  /** The same block counted from an earlier start. */
  lemma ChainedLater(c: BlockCipher, key: seq<byte>, before: seq<byte>, s0: seq<byte>, s1: seq<byte>, e0: seq<byte>,
                     e1: seq<byte>, block: nat, off: nat)
    requires |s0| == |e0| && ChainedAt(c, key, before, s1, e1, block, off)
    ensures ChainedAt(c, key, before, s0 + s1, e0 + e1, block, |s0| + off)
  {
    hide Xor;
    PartOf(s0, s1, |s0| + off, |s0| + off + block);
    PartOf(e0, e1, |s0| + off, |s0| + off + block);
  }

  lemma ChainedEarly(c: BlockCipher, key: seq<byte>, before: seq<byte>, s0: seq<byte>, s1: seq<byte>, e0: seq<byte>,
                     e1: seq<byte>, block: nat, off: nat)
    requires |s1| == |e1| && ChainedAt(c, key, before, s0, e0, block, off)
    ensures ChainedAt(c, key, before, s0 + s1, e0 + e1, block, off)
  {
    hide Xor;
    PartOf(s0, s1, off, off + block);
    PartOf(e0, e1, off, off + block);
  }

  /** The equations of one chunk by offset. */
  lemma {:induction false} BlockEquation(c: BlockCipher, key: seq<byte>, iv: seq<byte>, s: seq<byte>, block: nat,
                                         off: nat)
    requires block > 0 && |iv| == block && c.Valid(block)
    requires |s| % block == 0 && off % block == 0 && off < |s|
    ensures var e := CbcEncrypt(c, key, iv, s, block);
            && |e| == |s| && off <= |s| && (off > 0 ==> off >= block)
            && ChainedAt(c, key, if off == 0 then iv else e[off - block..off], s, e, block, off)
    decreases |s|
  {
    hide Xor, ChainedAt;
    AlignedFits(off, |s|, block);
    AlignedFits(0, |s|, block);
    var s0, s1 := s[..block], s[block..];
    var e0 := c.enc(key, Xor(s0, iv));
    var e1 := CbcEncrypt(c, key, e0, s1, block);
    assert s == s0 + s1 && CbcEncrypt(c, key, iv, s, block) == e0 + e1;
    ModSelf(block);
    ModAddMultiple(block, |s|, block);
    if off == 0 {
      FirstBlock(c, key, iv, s0, block);
      hide CbcEncrypt;
      ChainedEarly(c, key, iv, s0, s1, e0, e1, block, 0);
    } else {
      ModAddMultiple(block, off, block);
      BlockEquation(c, key, e0, s1, block, off - block);
      hide CbcEncrypt;
      var before := if off == block then e0 else e1[off - 2 * block..off - block];
      ChainedLater(c, key, before, s0, s1, e0, e1, block, off - block);
      PartOf(e0, e1, off - block, off);
      assert e0[..block] == e0;
    }
  }

  lemma FirstBlock(c: BlockCipher, key: seq<byte>, iv: seq<byte>, s0: seq<byte>, block: nat)
    requires block > 0 && |iv| == block && c.Valid(block) && |s0| == block
    ensures ChainedAt(c, key, iv, s0, c.enc(key, Xor(s0, iv)), block, 0)
  {
    hide Xor;
    var e0 := c.enc(key, Xor(s0, iv));
    assert s0[0..block] == s0 && e0[0..block] == e0;
  }

  /** The ciphertext block at any offset: the encryption of the plaintext block there combined with the
      ciphertext block before it, or with the IV at the start of every 1024 bytes. */
  lemma {:induction false} ChunkEquations(c: BlockCipher, key: seq<byte>, iv: seq<byte>, s: seq<byte>, block: nat,
                                          off: nat)
    requires BlockSize(block) && |iv| == block && c.Valid(block)
    requires |s| % block == 0 && off % block == 0 && off < |s|
    ensures var e := EncryptChunks(c, key, iv, s, block);
            && |e| == |s| && (off % 1024 != 0 ==> off >= block)
            && ChainedAt(c, key, if off % 1024 == 0 then iv else e[off - block..off], s, e, block, off)
    decreases |s|
  {
    hide CbcEncrypt, Xor, ChainedAt, BlockSize;
    var n := Min(MAX_LEN, |s|);
    ChunkAligned(|s|, block);
    var s0, s1 := s[..n], s[n..];
    ModAddMultiple(n, |s|, block);
    var e0, e1 := CbcEncrypt(c, key, iv, s0, block), EncryptChunks(c, key, iv, s1, block);
    assert s == s0 + s1 && EncryptChunks(c, key, iv, s, block) == e0 + e1;
    ChunksRoundTrip(c, key, iv, s1, block);
    hide EncryptChunks;
    if off < n {
      BlockEquation(c, key, iv, s0, block, off);
      EarlyBlock(c, key, iv, s0, s1, e0, e1, block, off);
    } else {
      ModAddMultiple(n, off, block);
      ChunkEquations(c, key, iv, s1, block, off - n);
      LateBlock(c, key, iv, s0, s1, e0, e1, block, off - n);
    }
  }

  lemma EarlyBlock(c: BlockCipher, key: seq<byte>, iv: seq<byte>, s0: seq<byte>, s1: seq<byte>, e0: seq<byte>,
                   e1: seq<byte>, block: nat, off: nat)
    requires |s0| == |e0| <= 1024 && |s1| == |e1| && off < |s0| && (off > 0 ==> off >= block)
    requires ChainedAt(c, key, if off == 0 then iv else e0[off - block..off], s0, e0, block, off)
    ensures off % 1024 != 0 ==> off >= block
    ensures ChainedAt(c, key, if off % 1024 == 0 then iv else (e0 + e1)[off - block..off], s0 + s1, e0 + e1, block, off)
  {
    hide Xor, ChainedAt;
    ChainedEarly(c, key, if off == 0 then iv else e0[off - block..off], s0, s1, e0, e1, block, off);
    if off > 0 {
      PartOf(e0, e1, off - block, off);
    }
  }

  lemma LateBlock(c: BlockCipher, key: seq<byte>, iv: seq<byte>, s0: seq<byte>, s1: seq<byte>, e0: seq<byte>,
                  e1: seq<byte>, block: nat, off: nat)
    requires |s0| == |e0| == 1024 && |s1| == |e1| && off < |s1| && (off % 1024 != 0 ==> off >= block)
    requires ChainedAt(c, key, if off % 1024 == 0 then iv else e1[off - block..off], s1, e1, block, off)
    ensures (1024 + off) % 1024 != 0 ==> off >= block
    ensures ChainedAt(c, key, if (1024 + off) % 1024 == 0 then iv else (e0 + e1)[1024 + off - block..1024 + off],
                      s0 + s1, e0 + e1, block, 1024 + off)
  {
    hide Xor, ChainedAt;
    ChainedLater(c, key, if off % 1024 == 0 then iv else e1[off - block..off], s0, s1, e0, e1, block, off);
    if off % 1024 != 0 {
      PartOf(e0, e1, 1024 + off - block, 1024 + off);
    }
  }

  lemma ChunkAligned(n: nat, block: nat)
    requires BlockSize(block) && n % block == 0
    ensures Min(MAX_LEN, n) % block == 0
  {
  }

  /** The assumption on the cipher can be met. */
  lemma CipherExists(block: nat)
    ensures exists c: BlockCipher :: c.Valid(block)
  {
    var c := BlockCipher((key, b) => b, (key, b) => b);
    assert c.Valid(block);
  }
}
