/** The file format of the legacy encrypt and decrypt commands: eight salt bytes, one
    IV block, then the padded plaintext encrypted in 1024-byte chunks. */
module LegacyFormat {
  import opened Bytes
  import opened Arithmetic
  import opened Cbc

  const SALT_SIZE: nat := 8

  const CLU_4K_TYPE: nat := 4096

  /** PBKDF2 with SHA-256: password, salt, iterations and output size to key. */
  type Kdf = (seq<byte>, seq<byte>, nat, nat) -> seq<byte>

  ghost predicate KdfLaw(kdf: Kdf) {
    forall p: seq<byte>, s: seq<byte>, i: nat, n: nat :: |kdf(p, s, i, n)| == n
  }

  datatype Status =
    | Success
    | MemoryError
    | FreadError
    | FwriteError
    | DecryptError
    | EncryptError
    | FatalError
    | BadLength
    | LibraryError

  /** How many bytes bring `n` up to a whole number of blocks: none when it already is one. */
  function PadCount(n: int, block: nat): (k: nat)
    requires block > 0
    ensures k < block && (k == 0 <==> n % block == 0)
  {
    if n % block == 0 then 0 else block - n % block
  }

  function Padded(plain: seq<byte>, block: nat): (s: seq<byte>)
    requires 0 < block < 256
    ensures |s| == |plain| + PadCount(|plain|, block)
  {
    var k := PadCount(|plain|, block);
    plain + seq(k, i => k)
  }

  /** The cipher key: `size` is in bits, and the buffers hold `size` bytes. */
  function CipherKey(key: seq<byte>, size: nat): seq<byte>
    requires size <= |key|
  {
    key[..size / 8]
  }

  function EncryptedFile(c: BlockCipher, key: seq<byte>, salt: seq<byte>, iv: seq<byte>, plain: seq<byte>,
                         block: nat): seq<byte>
    requires BlockSize(block) && |iv| == block && c.Valid(block)
  {
    salt + iv + EncryptChunks(c, key, iv, Padded(plain, block), block)
  }

  /** The lengths encryption may work with: that of the file, or one that came out far smaller, or
      none, when the size does not fit an int. */
  predicate LengthInUse(plain: seq<byte>, length: int) {
    length <= 0 || length == |plain| || length + 2 * MAX_LEN <= |plain|
  }

  /** What encryption encrypts when it takes the length of the file for `length`: nothing when that is
      not positive, the padded plaintext when it is right, and otherwise whole chunks of the front. */
  function EncryptedText(plain: seq<byte>, length: int, block: nat): (p: seq<byte>)
    requires BlockSize(block) && LengthInUse(plain, length)
  {
    if length <= 0 then []
    else if length == |plain| then Padded(plain, block)
    else plain[..RoundUp(length + PadCount(length, block))]
  }

  /** The next multiple of the chunk size. */
  function RoundUp(n: nat): (m: nat)
    ensures n <= m < n + MAX_LEN && m % MAX_LEN == 0
  {
    (n + MAX_LEN - 1) / MAX_LEN * MAX_LEN
  }

  lemma TextAligned(plain: seq<byte>, length: int, block: nat)
    requires BlockSize(block) && LengthInUse(plain, length)
    ensures |EncryptedText(plain, length, block)| % block == 0
  {
    if 0 < length != |plain| {
      ChunkMultiple(RoundUp(length + PadCount(length, block)), block);
    } else if length > 0 {
      PaddedAligned(plain, block);
    }
  }

  lemma IntLengthInUse(plain: seq<byte>)
    ensures LengthInUse(plain, Int32(|plain|))
    ensures |plain| < 0x8000_0000 ==> Int32(|plain|) == |plain|
  {
  }

  /** From 2^31 bytes on the text that is encrypted is not the plaintext: it is shorter, and up to 2^32
      bytes it is empty. */
  lemma LargeFileLost(plain: seq<byte>, block: nat)
    requires BlockSize(block) && |plain| >= 0x8000_0000
    requires Int32(|plain|) <= 0x8000_0000 - block
    ensures LengthInUse(plain, Int32(|plain|))
    ensures |EncryptedText(plain, Int32(|plain|), block)| < |plain|
    ensures |EncryptedText(plain, Int32(|plain|), block)| < 0x8000_0000 + 2 * MAX_LEN
    ensures |plain| <= 0x1_0000_0000 ==> EncryptedText(plain, Int32(|plain|), block) == []
  {
    hide BlockSize, PadCount;
    IntLengthInUse(plain);
  }

  /** As many padding bytes as the last block lacks, each telling their number. */
  lemma PaddingBytes(plain: seq<byte>, block: nat)
    requires 0 < block < 256
    ensures var p := Padded(plain, block);
            && plain <= p && |p| % block == 0 && |p| < |plain| + block
            && forall i :: |plain| <= i < |p| ==> p[i] == |p| - |plain|
  {
    PaddedAligned(plain, block);
  }

  /** The cipher gets the first `size` bits of the key. */
  lemma CipherKeyBits(key: seq<byte>, size: nat)
    requires size <= |key| && size % 8 == 0
    ensures CipherKey(key, size) <= key && 8 * |CipherKey(key, size)| == size
  {
  }

  lemma PaddedAligned(plain: seq<byte>, block: nat)
    requires 0 < block < 256
    ensures |Padded(plain, block)| % block == 0
  {
    var n, k := |plain|, PadCount(|plain|, block);
    if k > 0 {
      NextMultiple(n, block, k);
    }
  }

  lemma ChunkMultiple(d: nat, block: nat)
    requires BlockSize(block) && d % MAX_LEN == 0
    ensures d % block == 0
  {
    var q, s := d / MAX_LEN, MAX_LEN / block;
    assert d == q * MAX_LEN && MAX_LEN == s * block;
    assert q * (s * block) == (q * s) * block;
    DivModUnique(d, block, q * s, 0);
  }

  /** The padding never spills over the chunk that holds the end of the plaintext. */
  lemma PadFits(n: nat, got: nat, block: nat)
    requires BlockSize(block) && got <= n && (n - got) % MAX_LEN == 0 && got < MAX_LEN
    ensures got + PadCount(n, block) <= MAX_LEN
  {
    var k := PadCount(n, block);
    if got + k > MAX_LEN {
      ChunkMultiple(n - got + MAX_LEN, block);
      NextMultiple(n, block, MAX_LEN - got);
    }
  }

  // ---------------------------------------------------------------- reading the format

  /** Chunks before the last one, and the last chunk, of a payload. */
  function FrontLength(n: nat): (k: nat)
    ensures n > 0 ==> k < n <= k + MAX_LEN
    ensures k % MAX_LEN == 0
  {
    if n == 0 then 0 else (n - 1) / MAX_LEN * MAX_LEN
  }

  /** What follows the chunk loop: `front` is already written, `tail` is the output buffer of the
      last chunk, of which `left` bytes count. A non-zero marker means the last byte counts the
      padding. */
  function Finish(front: seq<byte>, tail: seq<byte>, left: nat, marker: byte): (Status, seq<byte>)
    requires tail != [] && left <= |tail|
  {
    if marker == 0 then (Success, front + tail)
    else
      var pad := tail[|tail| - 1];
      if pad > left then (BadLength, front) else (Success, front + tail[..left - pad])
  }

  /** What the last chunk may leave in the output buffer: its whole blocks decrypted, and after them,
      where no block operation reaches, what the chunk before it left there. Only when there was none
      are these bytes open. */
  ghost predicate LastChunkOutput(c: BlockCipher, key: seq<byte>, iv: seq<byte>, front: seq<byte>, last: seq<byte>,
                                  tail: seq<byte>, block: nat)
    requires block > 0 && |iv| == block && c.Valid(block) && |last| <= MAX_LEN
  {
    var t := CbcDecrypt(c, key, iv, last, block);
    && |tail| == |last| && t <= tail
    && (|front| >= MAX_LEN ==> tail[|t|..] == front[|front| - MAX_LEN + |t|..|front| - MAX_LEN + |last|])
  }

  /** The chunk of the payload that holds byte number `n`, as far as the file goes. */
  function LastChunkOf(payload: seq<byte>, n: nat): seq<byte>
    requires 0 < n <= |payload|
  {
    payload[FrontLength(n)..Min(FrontLength(n) + MAX_LEN, |payload|)]
  }

  /** `n` is the payload length the program works with: that of the payload, unless it wrapped. */
  ghost predicate DecryptsPayload(c: BlockCipher, key: seq<byte>, iv: seq<byte>, payload: seq<byte>, n: nat,
                                  marker: byte, block: nat, ret: Status, out: seq<byte>)
    requires block > 0 && |iv| == block && c.Valid(block) && 0 < n <= |payload|
  {
    var front := DecryptChunks(c, key, iv, payload[..FrontLength(n)], block);
    exists tail: seq<byte> ::
      && LastChunkOutput(c, key, iv, front, LastChunkOf(payload, n), tail, block)
      && (ret, out) == Finish(front, tail, n - FrontLength(n), marker)
  }

  /** The outcomes decryption of a whole file allows, when the program takes its length for `length`. */
  ghost predicate Decrypts(c: BlockCipher, key: seq<byte>, file: seq<byte>, length: nat, block: nat, ret: Status,
                           out: seq<byte>)
    requires BlockSize(block) && c.Valid(block) && SALT_SIZE + block < length <= |file|
  {
    DecryptsPayload(c, key, file[SALT_SIZE..SALT_SIZE + block], file[SALT_SIZE + block..], length - SALT_SIZE - block,
                    file[0], block, ret, out)
  }

  /** What the program makes of a payload: the chunks decrypted, and for the bytes after the last whole
      block the decrypted ones a chunk earlier, which the output buffer still holds. */
  function DecryptedText(c: BlockCipher, key: seq<byte>, iv: seq<byte>, payload: seq<byte>, block: nat): seq<byte>
    requires BlockSize(block) && |iv| == block && c.Valid(block)
  {
    var d := DecryptChunks(c, key, iv, payload, block);
    if |d| < MAX_LEN then d else d + d[|d| - MAX_LEN..|d| - MAX_LEN + |payload| % block]
  }

  /** An arbitrary payload taken apart as the program does: what the chunks before the last give, what
      the last leaves in the buffer, and how far the two agree with the decryption of the whole. */
  lemma TakeApart(c: BlockCipher, key: seq<byte>, iv: seq<byte>, payload: seq<byte>, marker: byte, block: nat,
                  ret: Status, out: seq<byte>)
    returns (front: seq<byte>, tail: seq<byte>)
    requires BlockSize(block) && |iv| == block && c.Valid(block) && payload != []
    requires DecryptsPayload(c, key, iv, payload, |payload|, marker, block, ret, out)
    ensures tail != [] && |tail| <= MAX_LEN && (ret, out) == Finish(front, tail, |tail|, marker)
    ensures |front| == FrontLength(|payload|) && |front| + |tail| == |payload|
    ensures |DecryptChunks(c, key, iv, payload, block)| == |payload| - |payload| % block
    ensures DecryptChunks(c, key, iv, payload, block) <= front + tail
    ensures |payload| % block == 0 || |payload| > MAX_LEN ==> DecryptedText(c, key, iv, payload, block) == front + tail
  {
    hide CbcDecrypt, DecryptChunks, FrontLength, LastChunkOutput, LastChunkOf, Finish;
    var n := |payload|;
    var k := FrontLength(n);
    LastIsRest(payload);
    front := DecryptChunks(c, key, iv, payload[..k], block);
    TailSize(c, key, iv, front, payload[k..], block);
    tail :| LastChunkOutput(c, key, iv, front, LastChunkOf(payload, n), tail, block)
            && (ret, out) == Finish(front, tail, n - k, marker);
    FrontThenLast(c, key, iv, payload, block);
    WholeBlocks(c, key, iv, front, payload[k..], tail, block);
    if n > MAX_LEN || n % block == 0 {
      StaleTail(front, CbcDecrypt(c, key, iv, payload[k..], block), tail);
    }
  }

  /** The decryption of the whole is that of the front and that of the last chunk. */
  lemma FrontThenLast(c: BlockCipher, key: seq<byte>, iv: seq<byte>, payload: seq<byte>, block: nat)
    requires BlockSize(block) && |iv| == block && c.Valid(block) && payload != []
    ensures var k := FrontLength(|payload|);
            && |DecryptChunks(c, key, iv, payload[..k], block)| == k
            && |payload[k..]| % block == |payload| % block
            && DecryptChunks(c, key, iv, payload, block) ==
               DecryptChunks(c, key, iv, payload[..k], block) + CbcDecrypt(c, key, iv, payload[k..], block)
  {
    hide CbcDecrypt, DecryptChunks, FrontLength, BlockSize;
    var k := FrontLength(|payload|);
    ChunkMultiple(k, block);
    ModAddMultiple(k, |payload|, block);
    var last := payload[k..];
    assert payload == payload[..k] + last;
    DecryptChunksAppend(c, key, iv, payload[..k], last, block);
    OneChunk(c, key, iv, last, block);
    DecryptChunksLength(c, key, iv, payload[..k], block);
  }

  lemma LastIsRest(payload: seq<byte>)
    requires payload != []
    ensures LastChunkOf(payload, |payload|) == payload[FrontLength(|payload|)..]
    ensures FrontLength(|payload|) == 0 || FrontLength(|payload|) >= MAX_LEN
    ensures FrontLength(|payload|) > 0 <==> |payload| > MAX_LEN
  {
  }

  lemma TailSize(c: BlockCipher, key: seq<byte>, iv: seq<byte>, front: seq<byte>, last: seq<byte>, block: nat)
    requires block > 0 && |iv| == block && c.Valid(block) && |last| <= MAX_LEN
    ensures forall tail: seq<byte> :: LastChunkOutput(c, key, iv, front, last, tail, block) ==> |tail| == |last|
  {
  }

  lemma WholeBlocks(c: BlockCipher, key: seq<byte>, iv: seq<byte>, front: seq<byte>, last: seq<byte>, tail: seq<byte>,
                    block: nat)
    requires block > 0 && |iv| == block && c.Valid(block) && |last| <= MAX_LEN
    requires LastChunkOutput(c, key, iv, front, last, tail, block)
    ensures var t := CbcDecrypt(c, key, iv, last, block);
            && |t| == |last| - |last| % block && |tail| == |last| && t <= tail
            && (|front| >= MAX_LEN ==> tail[|t|..] == front[|front| - MAX_LEN + |t|..|front| - MAX_LEN + |tail|])
  {
    hide CbcDecrypt;
  }

  lemma StaleTail(front: seq<byte>, t: seq<byte>, tail: seq<byte>)
    requires t <= tail && |tail| <= MAX_LEN
    requires |front| >= MAX_LEN ==> tail[|t|..] == front[|front| - MAX_LEN + |t|..|front| - MAX_LEN + |tail|]
    requires |front| >= MAX_LEN || t == tail
    ensures var d := front + t;
            var r := |tail| - |t|;
            && (|d| >= MAX_LEN ==> |d| - MAX_LEN + r <= |d| && d + d[|d| - MAX_LEN..|d| - MAX_LEN + r] == front + tail)
            && (|d| < MAX_LEN ==> d == front + tail)
  {
    var d, r := front + t, |tail| - |t|;
    assert tail == t + tail[|t|..];
    if |front| >= MAX_LEN {
      assert d[|d| - MAX_LEN..|d| - MAX_LEN + r] == front[|d| - MAX_LEN..|d| - MAX_LEN + r];
    }
  }

  /** For an arbitrary file, with the right key or not: what the program makes of the payload, less the
      number of bytes that the last one counts when the marker is set. A count beyond the last chunk is
      refused, and then only the chunks before it are written. A single chunk with bytes after its last
      whole block is the one case left out: those bytes are then whatever the buffer held. */
  lemma DecryptExact(c: BlockCipher, key: seq<byte>, file: seq<byte>, block: nat, ret: Status, out: seq<byte>)
    requires BlockSize(block) && c.Valid(block) && |file| > 8 + block
    requires Decrypts(c, key, file, |file|, block, ret, out)
    requires var n := |file| - 8 - block;
             n % block == 0 || n > 1024
    ensures var n := |file| - 8 - block;
            var w := DecryptedText(c, key, file[8..8 + block], file[8 + block..], block);
            && |w| == n
            && (ret, out) == if file[0] == 0 then (Success, w)
                             else if w[n - 1] <= n - FrontLength(n) then (Success, w[..n - w[n - 1]])
                             else (BadLength, w[..FrontLength(n)])
  {
    hide CbcDecrypt, DecryptChunks, FrontLength, DecryptsPayload, DecryptedText;
    var iv, payload := file[SALT_SIZE..SALT_SIZE + block], file[SALT_SIZE + block..];
    var n, w := |payload|, DecryptedText(c, key, iv, payload, block);
    var front, tail := TakeApart(c, key, iv, payload, file[0], block, ret, out);
    assert w == front + tail;
    assert w[n - 1] == tail[|tail| - 1];
    assert forall m :: 0 <= m <= |tail| ==> w[..|front| + m] == front + tail[..m];
    assert front + tail[..0] == front;
  }

  /** For any file at all: the marker alone decides whether padding is removed, the write after the
      loop is at most one chunk, the total is the payload less a pad of at most 255, and every byte
      that a block operation covers is the decrypted one. */
  lemma DecryptSizes(c: BlockCipher, key: seq<byte>, file: seq<byte>, block: nat, ret: Status, out: seq<byte>)
    requires BlockSize(block) && c.Valid(block) && |file| > SALT_SIZE + block
    requires Decrypts(c, key, file, |file|, block, ret, out)
    ensures var n := |file| - SALT_SIZE - block;
            && (file[0] == 0 ==> ret == Success && |out| == n)
            && (ret == Success ==> n - 255 <= |out| <= n && FrontLength(n) <= |out|)
            && (ret != Success ==> ret == BadLength && |out| == FrontLength(n) && n - FrontLength(n) < 255)
    ensures var d := DecryptChunks(c, key, file[SALT_SIZE..SALT_SIZE + block], file[SALT_SIZE + block..], block);
            out <= d || d <= out
  {
    hide CbcDecrypt, DecryptChunks, FrontLength, DecryptsPayload;
    var iv, payload := file[SALT_SIZE..SALT_SIZE + block], file[SALT_SIZE + block..];
    var front, tail := TakeApart(c, key, iv, payload, file[0], block, ret, out);
    assert out <= front + tail;
  }

  /** A file whose length the program takes for less than it is by more than a chunk loses its end:
      success is reported with output that stops short of the payload. */
  lemma WrappedLoses(c: BlockCipher, key: seq<byte>, file: seq<byte>, length: nat, block: nat, ret: Status,
                     out: seq<byte>)
    requires BlockSize(block) && c.Valid(block) && SALT_SIZE + block < length && length + MAX_LEN <= |file|
    requires Decrypts(c, key, file, length, block, ret, out)
    ensures |out| < |file| - SALT_SIZE - block
    ensures file[0] == 0 ==> ret == Success
  {
    hide CbcDecrypt, DecryptChunks, FrontLength;
    var iv, payload := file[SALT_SIZE..SALT_SIZE + block], file[SALT_SIZE + block..];
    DecryptChunksLength(c, key, iv, payload[..FrontLength(length - SALT_SIZE - block)], block);
  }

  lemma {:induction false} DecryptChunksLength(c: BlockCipher, key: seq<byte>, iv: seq<byte>, s: seq<byte>, block: nat)
    requires BlockSize(block) && |iv| == block && c.Valid(block) && |s| % MAX_LEN == 0
    ensures |DecryptChunks(c, key, iv, s, block)| == |s|
  {
    if s != [] {
      assert |s| >= MAX_LEN;
      DecryptChunksLength(c, key, iv, s[MAX_LEN..], block);
    }
  }

  /** Decrypting what encryption wrote under the same key: with the marker set exactly when there
      is padding the plaintext comes back; with a zero marker the padding stays on. */
  lemma FileRoundTrip(c: BlockCipher, key: seq<byte>, salt: seq<byte>, iv: seq<byte>, plain: seq<byte>, block: nat,
                      ret: Status, out: seq<byte>)
    requires BlockSize(block) && c.Valid(block) && |salt| == SALT_SIZE && |iv| == block && plain != []
    requires |EncryptedFile(c, key, salt, iv, plain, block)| > SALT_SIZE + block
    requires var file := EncryptedFile(c, key, salt, iv, plain, block);
             Decrypts(c, key, file, |file|, block, ret, out)
    requires salt[0] != 0 ==> |plain| % block != 0
    ensures ret == Success
    ensures out == if salt[0] != 0 then plain else Padded(plain, block)
  {
    hide CbcDecrypt, DecryptChunks, EncryptChunks, DecryptsPayload;
    var file := EncryptedFile(c, key, salt, iv, plain, block);
    var payload := EncryptChunks(c, key, iv, Padded(plain, block), block);
    assert file[SALT_SIZE..SALT_SIZE + block] == iv && file[SALT_SIZE + block..] == payload && file[0] == salt[0];
    PayloadRoundTrip(c, key, iv, plain, salt[0], block, ret, out);
  }

  lemma PayloadRoundTrip(c: BlockCipher, key: seq<byte>, iv: seq<byte>, plain: seq<byte>, marker: byte, block: nat,
                         ret: Status, out: seq<byte>)
    requires BlockSize(block) && c.Valid(block) && |iv| == block && plain != []
    requires EncryptChunks(c, key, iv, Padded(plain, block), block) != []
    requires var payload := EncryptChunks(c, key, iv, Padded(plain, block), block);
             DecryptsPayload(c, key, iv, payload, |payload|, marker, block, ret, out)
    requires marker != 0 ==> |plain| % block != 0
    ensures ret == Success && out == if marker != 0 then plain else Padded(plain, block)
  {
    hide CbcDecrypt, DecryptChunks, EncryptChunks, Finish, Padded, FrontLength, DecryptsPayload;
    var p := Padded(plain, block);
    var payload := EncryptChunks(c, key, iv, p, block);
    PaddedAligned(plain, block);
    ChunksRoundTrip(c, key, iv, p, block);
    var front, tail := TakeApart(c, key, iv, payload, marker, block, ret, out);
    assert front + tail == p;
    TailHoldsPad(|payload|, block);
    FinishPadded(plain, p, front, tail, marker, block);
  }

  /** The last chunk of whole blocks holds at least one. */
  lemma TailHoldsPad(n: nat, block: nat)
    requires BlockSize(block) && n > 0 && n % block == 0
    ensures n - FrontLength(n) >= block
  {
    var k := FrontLength(n);
    ChunkMultiple(k, block);
    ModAddMultiple(k, n, block);
  }

  lemma OneChunk(c: BlockCipher, key: seq<byte>, iv: seq<byte>, t: seq<byte>, block: nat)
    requires block > 0 && |iv| == block && c.Valid(block)
    requires 0 < |t| <= MAX_LEN
    ensures DecryptChunks(c, key, iv, t, block) == CbcDecrypt(c, key, iv, t, block)
  {
    hide CbcDecrypt;
    assert t[..|t|] == t && t[|t|..] == [];
    assert DecryptChunks(c, key, iv, [], block) == [];
  }

  lemma FinishPadded(plain: seq<byte>, p: seq<byte>, front: seq<byte>, tail: seq<byte>, marker: byte, block: nat)
    requires 0 < block < 256 && plain != [] && p == Padded(plain, block)
    requires front + tail == p && |tail| >= block
    requires marker != 0 ==> |plain| % block != 0
    ensures Finish(front, tail, |tail|, marker) == (Success, if marker != 0 then plain else p)
  {
    var k := PadCount(|plain|, block);
    if marker != 0 {
      assert tail[|tail| - 1] == p[|p| - 1] == k;
      assert front + tail[..|tail| - k] == p[..|p| - k] == plain;
    }
  }
}
