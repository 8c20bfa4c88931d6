/** wolfCLU_encrypt of src/crypto/clu_encrypt.c and the key stretching it uses. */
module LegacyEncrypt {
  import opened Bytes
  import opened Arithmetic
  import opened Environment
  import opened Files
  import opened Cbc
  import opened LegacyFormat

  const ZERO_SALT: seq<byte> := [0, 0, 0, 0, 0, 0, 0, 0]

  /** wolfCLU_genKey_PWDBASED: seven random salt bytes, the first forced to tell whether there is
      padding, then the password buffer overwritten by the stretched key. */
  method GenKeyPwdBased(env: Env, kdf: Kdf, pwdKey: array<byte>, size: nat, salt: array<byte>,
                        pad: nat)
    returns (ret: Status)
    requires KdfLaw(kdf) && salt != pwdKey
    requires 0 in pwdKey[..] && size <= pwdKey.Length && salt.Length == SALT_SIZE
    modifies env, pwdKey, salt
    ensures env.live == old(env.live) && env.Since(old(env.faults))
    ensures ret == Success <==> env.faults == old(env.faults)
    ensures ret == Success ==>
              && salt[7] == old(salt[7])
              && (salt[0] == 0 <==> pad == 0)
              && pwdKey[..] == kdf(CStr(old(pwdKey[..])), salt[..], 4096, size) + old(pwdKey[size..])
  {
    var ok := GenerateBlock(env, salt, SALT_SIZE - 1);
    if !ok {
      return LibraryError;
    }
    assert salt[7] == salt[SALT_SIZE - 1..][0];
    if pad == 0 {
      salt[0] := 0;
    } else if salt[0] == 0 {
      salt[0] := 1;
    }
    var stretched := kdf(CStr(pwdKey[..]), salt[..], CLU_4K_TYPE, size);
    var failed := env.Fails();
    if failed {
      return LibraryError;
    }
    CopyInto(pwdKey, 0, stretched);
    ret := Success;
  }

  /** One CBC call of the library: the whole blocks of `input[..sz]`, chained from `iv`. */
  method CamelliaCbcEncrypt(c: BlockCipher, key: seq<byte>, iv: seq<byte>, output: array<byte>, input: array<byte>,
                            sz: nat, block: nat)
    requires block > 0 && |iv| == block && c.Valid(block)
    requires sz <= input.Length && sz <= output.Length
    modifies output
    ensures var bs := CbcEncrypt(c, key, iv, old(input[..sz]), block);
            output[..|bs|] == bs && output[|bs|..] == old(output[|bs|..])
  {
    hide CbcEncrypt;
    CopyInto(output, 0, CbcEncrypt(c, key, iv, input[..sz], block));
  }

  /** The file behind a loop that has `left` bytes of the text `p` to go. */
  ghost predicate Progress(c: BlockCipher, key: seq<byte>, iv: seq<byte>, head: seq<byte>, p: seq<byte>, block: nat,
                           left: nat, written: seq<byte>)
    requires block > 0 && |iv| == block && c.Valid(block)
  {
    left <= |p| && written == head + EncryptChunks(c, key, iv, p[..|p| - left], block)
  }

  lemma StartProgress(c: BlockCipher, key: seq<byte>, iv: seq<byte>, head: seq<byte>, p: seq<byte>, block: nat)
    requires block > 0 && |iv| == block && c.Valid(block)
    ensures Progress(c, key, iv, head, p, block, |p|, head)
  {
    assert p[..0] == [] && EncryptChunks(c, key, iv, [], block) == [];
  }

  lemma EndProgress(c: BlockCipher, key: seq<byte>, iv: seq<byte>, head: seq<byte>, p: seq<byte>, block: nat,
                    written: seq<byte>)
    requires block > 0 && |iv| == block && c.Valid(block)
    requires Progress(c, key, iv, head, p, block, 0, written)
    ensures written == head + EncryptChunks(c, key, iv, p, block)
  {
    assert p[..|p|] == p;
  }

  /** A round always covers whole blocks. */
  lemma RoundAligned(n: nat, block: nat, left: nat)
    requires BlockSize(block) && n % block == 0
    requires 0 < left <= n && (n - left) % MAX_LEN == 0
    ensures Min(MAX_LEN, left) % block == 0
  {
    ChunkMultiple(n - left, block);
    ModAddMultiple(n - left, n, block);
  }

  /** The effect of one round on the abstract state. */
  lemma Round(c: BlockCipher, key: seq<byte>, iv: seq<byte>, head: seq<byte>, p: seq<byte>, block: nat,
              left: nat, written: seq<byte>, n: nat)
    requires BlockSize(block) && |iv| == block && c.Valid(block)
    requires Progress(c, key, iv, head, p, block, left, written)
    requires 0 < left && n == Min(MAX_LEN, left) && (|p| - left) % MAX_LEN == 0
    ensures var done := |p| - left;
            Progress(c, key, iv, head, p, block, left - n,
                     written + CbcEncrypt(c, key, iv, p[done..done + n], block))
  {
    hide CbcEncrypt, EncryptChunks, BlockSize;
    var done := |p| - left;
    var chunk := p[done..done + n];
    EncryptChunksAppend(c, key, iv, p[..done], chunk, block);
    assert p[..done] + chunk == p[..done + n];
    EncryptOneChunk(c, key, iv, chunk, block);
  }

  lemma EncryptOneChunk(c: BlockCipher, key: seq<byte>, iv: seq<byte>, t: seq<byte>, block: nat)
    requires block > 0 && |iv| == block && c.Valid(block)
    requires 0 < |t| <= MAX_LEN
    ensures EncryptChunks(c, key, iv, t, block) == CbcEncrypt(c, key, iv, t, block)
  {
    hide CbcEncrypt;
    assert t[..|t|] == t && t[|t|..] == [];
    assert EncryptChunks(c, key, iv, [], block) == [];
  }

  /** The two texts the loop may be at work on: the padded plaintext, or whole chunks of its front. */
  predicate TextFor(plain: seq<byte>, p: seq<byte>, padCounter: nat, block: nat)
    requires 0 < block < 256
  {
    (p == Padded(plain, block) && padCounter == PadCount(|plain|, block)) || (|p| % MAX_LEN == 0 && p <= plain)
  }

  /** Reads the next chunk and pads it when it is the last: the input buffer then holds the next
      chunk of the text. */
  method ReadChunk(env: Env, inFile: InFile, input: array<byte>, padCounter: nat, block: nat, ghost p: seq<byte>,
                   ghost left: nat)
    returns (ok: bool, tempMax: nat)
    requires BlockSize(block) && input.Length == MAX_LEN
    requires TextFor(inFile.data, p, padCounter, block)
    requires 0 < left <= |p| && (|p| - left) % MAX_LEN == 0
    requires inFile.pos == Min(|p| - left, |inFile.data|)
    requires !inFile.atEof
    modifies env, inFile, input
    ensures env.live == old(env.live) && env.Since(old(env.faults))
    ensures ok <==> env.faults == old(env.faults)
    ensures ok ==>
              var done := |p| - left;
              && tempMax == Min(MAX_LEN, left)
              && input[..tempMax] == p[done..done + tempMax]
              && inFile.pos == Min(done + tempMax, |inFile.data|)
              && (left > tempMax ==> !inFile.atEof)
  {
    hide BlockSize, PadCount, Padded, Splice;
    ghost var n := |inFile.data|;
    ghost var done := |p| - left;
    tempMax := MAX_LEN;
    TextAhead(inFile.data, p, padCounter, block, done);
    var got := 0;
    if !inFile.atEof {
      got := inFile.Fread(env, input, MAX_LEN);
    }
    if got != MAX_LEN {
      if inFile.atEof {
        PadFits(n, got, block);
        SpliceHead(old(input[..]), inFile.data[done..done + got]);
        assert inFile.data[done..done + got] == inFile.data[done..];
        for i := got to got + padCounter
          invariant input[..got] == inFile.data[done..]
          invariant forall k :: got <= k < i ==> input[k] == padCounter
          modifies input
        {
          input[i] := padCounter;
        }
        tempMax := got + padCounter;
        LastOfPadded(inFile.data, block, done, input[..tempMax]);
      } else {
        return false, tempMax;
      }
    } else {
      SpliceHead(old(input[..]), inFile.data[done..done + got]);
    }
    ok := true;
  }

  /** While text is left, plaintext is left, and a whole chunk of it is a chunk of the text. */
  lemma TextAhead(plain: seq<byte>, p: seq<byte>, padCounter: nat, block: nat, done: nat)
    requires BlockSize(block) && TextFor(plain, p, padCounter, block)
    requires done < |p| && done % MAX_LEN == 0
    ensures done < |plain|
    ensures done + MAX_LEN <= |plain| ==>
              done + MAX_LEN <= |p| && p[done..done + MAX_LEN] == plain[done..done + MAX_LEN]
    ensures done + MAX_LEN > |plain| ==> p == Padded(plain, block) && padCounter == PadCount(|plain|, block)
  {
    hide PadCount, BlockSize;
    if p == Padded(plain, block) && padCounter == PadCount(|plain|, block) {
      NotPastEnd(|plain|, done, block);
    }
  }

  lemma LastOfPadded(plain: seq<byte>, block: nat, done: nat, chunk: seq<byte>)
    requires 0 < block < 256 && done <= |plain|
    requires var k := PadCount(|plain|, block);
             && |chunk| == |plain| - done + k
             && chunk[..|plain| - done] == plain[done..]
             && forall i :: |plain| - done <= i < |chunk| ==> chunk[i] == k
    ensures Padded(plain, block)[done..] == chunk
  {
    hide PadCount;
    assert chunk == chunk[..|plain| - done] + chunk[|plain| - done..];
  }

  /** While padded text is left, plaintext is left. */
  lemma NotPastEnd(n: nat, done: nat, block: nat)
    requires BlockSize(block) && done % MAX_LEN == 0 && done < n + PadCount(n, block)
    ensures done < n
  {
    if done >= n {
      ChunkMultiple(done, block);
      if done > n {
        NextMultiple(n, block, done - n);
      }
    }
  }

  /** `left` of `n` bytes are to go, a whole number of chunks done, and the length runs `slack` behind. */
  ghost predicate Position(n: nat, left: nat, slack: nat) {
    && left <= n && (left == 0 || (n - left) % MAX_LEN == 0)
    && (slack == 0 || left == 0 || (left % MAX_LEN == 0 && slack < MAX_LEN))
  }

  lemma PositionNext(n: nat, left: nat, slack: nat)
    requires Position(n, left, slack) && slack < left
    ensures (n - left) % MAX_LEN == 0
    ensures Position(n, left - Min(MAX_LEN, left), slack)
  {
  }

  /** The length is used up exactly when the text is. */
  lemma PositionEnd(n: nat, left: nat, slack: nat)
    requires Position(n, left, slack) && left <= slack
    ensures left == 0
  {
  }

  /** What the loop starts from: the text, and by how much it is longer than the length. */
  lemma StartText(plain: seq<byte>, inputLength: int, block: nat)
    requires BlockSize(block) && LengthInUse(plain, inputLength)
    ensures var p := EncryptedText(plain, inputLength, block);
            var slack := |p| - inputLength - PadCount(inputLength, block);
            && TextFor(plain, p, PadCount(inputLength, block), block) && |p| % block == 0
            && slack >= 0 && Position(|p|, |p|, slack)
    ensures inputLength > 0 <==> inputLength + PadCount(inputLength, block) > 0
  {
    hide BlockSize, Padded;
    TextAligned(plain, inputLength, block);
    if inputLength < 0 {
      hide PadCount;
      PadToZero(inputLength, block);
    }
  }

  /** A negative length is padded to zero at most. */
  lemma PadToZero(n: int, block: nat)
    requires block > 0 && n < 0
    ensures n + PadCount(n, block) <= 0
  {
    var k := PadCount(n, block);
    if n + k > 0 {
      NextMultiple(n, block, -n);
    }
  }

  /** One round of the chunk loop: the next chunk of the text, encrypted and appended. */
  method EncryptRound(env: Env, c: BlockCipher, cbcMode: bool, key: array<byte>, size: nat, iv: array<byte>, block: nat,
                      inFile: InFile, out: OutFile, input: array<byte>, output: array<byte>, padCounter: nat,
                      ghost p: seq<byte>, ghost left: nat)
    returns (ret: Status, tempMax: nat)
    requires BlockSize(block) && c.Valid(block) && iv.Length == block && size <= key.Length
    requires input.Length == output.Length == MAX_LEN
    requires input != output && key != input && key != output && iv != input && iv != output
    requires TextFor(inFile.data, p, padCounter, block) && |p| % block == 0
    requires 0 < left <= |p| && (|p| - left) % MAX_LEN == 0
    requires inFile.pos == Min(|p| - left, |inFile.data|) && !inFile.atEof
    modifies env, inFile, out, input, output
    ensures env.live == old(env.live) && env.Since(old(env.faults)) && out.lost >= old(out.lost)
    ensures env.faults == old(env.faults) ==>
              out.lost == old(out.lost) && ret == if cbcMode then Success else FatalError
    ensures ret == Success ==>
              && cbcMode && tempMax == Min(MAX_LEN, left)
              && inFile.pos == Min(|p| - left + tempMax, |inFile.data|) && (left > tempMax ==> !inFile.atEof)
    ensures ret == Success && out.lost == old(out.lost) ==>
              var done := |p| - left;
              && env.faults == old(env.faults)
              && out.data == old(out.data) + CbcEncrypt(c, CipherKey(key[..], size), iv[..],
                                                        p[done..done + tempMax], block)
  {
    hide CbcEncrypt, CipherKey, TextFor, BlockSize;
    RoundAligned(|p|, block, left);
    var ok;
    ok, tempMax := ReadChunk(env, inFile, input, padCounter, block, p, left);
    if !ok {
      return FreadError, tempMax;
    }
    var failed := env.Fails();
    if failed {
      return LibraryError, tempMax;
    }
    if !cbcMode {
      return FatalError, tempMax;
    }
    CamelliaCbcEncrypt(c, CipherKey(key[..], size), iv[..], output, input, tempMax, block);
    failed := env.Fails();
    if failed {
      return FwriteError, tempMax;
    }
    var from := |out.data|;
    var put := out.Fwrite(env, output, tempMax);
    if out.inError || put > MAX_LEN {
      return FwriteError, tempMax;
    }
    out.Fclose(env, from);
    ret := Success;
  }

  /** The chunk loop. Every failure inside it is reported, except when closing the output file loses
      bytes. */
  method EncryptLoop(env: Env, c: BlockCipher, cbcMode: bool, key: array<byte>, size: nat, iv: array<byte>, block: nat,
                     inFile: InFile, out: OutFile, input: array<byte>, output: array<byte>, inputLength: int,
                     padCounter: nat)
    returns (ret: Status)
    requires BlockSize(block) && c.Valid(block) && iv.Length == block && size <= key.Length
    requires input.Length == output.Length == MAX_LEN
    requires input != output && key != input && key != output && iv != input && iv != output
    requires inFile.pos == 0 && !inFile.atEof
    requires LengthInUse(inFile.data, inputLength) && padCounter == PadCount(inputLength, block)
    modifies env, inFile, out, input, output
    ensures env.live == old(env.live) && env.Since(old(env.faults)) && out.lost >= old(out.lost)
    ensures ret == Success ==> cbcMode || inputLength <= 0
    ensures ret == Success && out.lost == old(out.lost) ==>
              env.faults == old(env.faults) &&
              out.data == old(out.data) + EncryptChunks(c, CipherKey(key[..], size), iv[..],
                                                        EncryptedText(inFile.data, inputLength, block), block)
    ensures env.faults == old(env.faults) ==>
              out.lost == old(out.lost) && ret == if cbcMode || inputLength <= 0 then Success else FatalError
  {
    hide CbcEncrypt, EncryptChunks, EncryptedText, Progress, CipherKey, Splice, TextFor, PadCount, BlockSize, Position;
    ghost var head := out.data;
    ghost var p := EncryptedText(inFile.data, inputLength, block);
    ghost var k := CipherKey(key[..], size);
    ghost var v := iv[..];
    var length := inputLength + padCounter;
    StartText(inFile.data, inputLength, block);
    ghost var left: nat, slack: nat := |p|, |p| - length;
    StartProgress(c, k, v, head, p, block);
    while length > 0
      invariant env.live == old(env.live) && env.Since(old(env.faults)) && out.lost >= old(out.lost)
      invariant env.faults == old(env.faults) <==> out.lost == old(out.lost)
      invariant k == CipherKey(key[..], size) && v == iv[..]
      invariant left <= |p| && length == left - slack && Position(|p|, left, slack)
      invariant inFile.pos == Min(|p| - left, |inFile.data|)
      invariant left > 0 ==> !inFile.atEof
      invariant out.lost == old(out.lost) ==> Progress(c, k, v, head, p, block, left, out.data)
      invariant !cbcMode ==> env.faults == old(env.faults)
      invariant !cbcMode && inputLength > 0 ==> length > 0
      modifies env, inFile, out, input, output
    {
      PositionNext(|p|, left, slack);
      if out.lost == old(out.lost) {
        Round(c, k, v, head, p, block, left, out.data, Min(MAX_LEN, left));
      }
      var tempMax;
      ret, tempMax := EncryptRound(env, c, cbcMode, key, size, iv, block, inFile, out, input, output, padCounter, p,
                                   left);
      if ret != Success {
        return;
      }
      length := length - tempMax;
      left := left - tempMax;
    }
    ret := Success;
    PositionEnd(|p|, left, slack);
    if out.lost == old(out.lost) {
      EndProgress(c, k, v, head, p, block, out.data);
    }
  }

  /** When nothing fails around it, the output file is the salt, the IV and the encrypted chunks of
      the padded plaintext, or of what a wrapped length leaves of it. The salt starts with a zero byte
      exactly when there is no padding, except with an explicit IV, when the salt is all zero either
      way. Success is also reported when the length could not be told, in which case it is taken for
      -1, and when writing the header or closing the file lost bytes; every other failure is. */
  method Encrypt(env: Env, c: BlockCipher, kdf: Kdf, cbcMode: bool, pwdKey: array<byte>, key: array<byte>, size: nat,
                 plain: seq<byte>, out: OutFile, iv: array<byte>, block: nat, ivCheck: bool)
    returns (ret: Status, ghost salt0: seq<byte>, ghost iv0: seq<byte>, ghost length: int)
    requires BlockSize(block) && c.Valid(block) && KdfLaw(kdf)
    requires 0 in pwdKey[..] && size <= pwdKey.Length && size <= key.Length && iv.Length == block
    requires pwdKey != key && pwdKey != iv && key != iv
    requires Int32(|plain|) <= 0x8000_0000 - block
    modifies env, pwdKey, key, out, iv
    ensures env.live == old(env.live) && env.Since(old(env.faults))
    ensures |iv0| == block && out.lost >= old(out.lost)
    ensures length == Int32(|plain|) || (length == -1 && env.faults > old(env.faults))
    ensures LengthInUse(plain, length)
    ensures ret == Success ==> cbcMode || length <= 0
    ensures ret == Success && out.lost == old(out.lost) ==>
              && |salt0| == 8
              && (ivCheck ==> salt0 == ZERO_SALT && iv0 == old(iv[..]))
              && (!ivCheck ==> (salt0[0] == 0 <==> length % block == 0))
              && var k := if ivCheck then old(key[..size]) else kdf(CStr(old(pwdKey[..])), salt0, 4096, size);
              out.data == salt0 + iv0 + EncryptChunks(c, k[..size / 8], iv0, EncryptedText(plain, length, block), block)
    ensures ret == Success && out.lost == old(out.lost) && length != -1 ==> env.faults == old(env.faults)
    ensures env.faults == old(env.faults) ==>
              && out.lost == old(out.lost)
              && ret == if cbcMode || length <= 0 then Success else FatalError
  {
    hide CbcEncrypt, EncryptChunks, EncryptedText, PadCount, CStr;
    ret, salt0, iv0, length := FatalError, [], iv[..], Int32(|plain|);
    IntLengthInUse(plain);
    var failed := env.Fails();
    if failed {
      return;
    }
    var inFile := new InFile(plain);
    var inputLength := inFile.Tell(env);
    length := inputLength;
    failed := env.Fails();
    if failed {
      ret := LibraryError;
      return;
    }
    var padCounter := CountPadding(inputLength, block);
    assert padCounter == 0 <==> length % block == 0;
    var salt := new byte[SALT_SIZE](i => 0);
    if !ivCheck {
      ret := MakeKeyAndIv(env, kdf, pwdKey, key, size, salt, iv, padCounter);
      if ret != Success {
        return;
      }
    }
    var created := WriteHeader(env, out, salt, iv);
    if !created {
      ret := FatalError;
      return;
    }
    salt0, iv0 := salt[..], iv[..];
    assert CipherKey(key[..], size) == CipherKey(key[..size], size);
    ret := EncryptBody(env, c, cbcMode, key, size, iv, block, inFile, out, inputLength, padCounter);
  }

  /** Creates the output file with the salt and the IV. Neither write nor the close is checked. */
  method WriteHeader(env: Env, out: OutFile, salt: array<byte>, iv: array<byte>) returns (created: bool)
    modifies env, out
    ensures env.live == old(env.live) && env.Since(old(env.faults)) && out.lost >= old(out.lost)
    ensures !created ==> env.faults > old(env.faults)
    ensures created && out.lost == old(out.lost) ==> env.faults == old(env.faults) && out.data == salt[..] + iv[..]
    ensures env.faults == old(env.faults) ==> out.lost == old(out.lost)
  {
    var failed := env.Fails();
    if failed {
      return false;
    }
    out.data, out.inError := [], false;
    var put := out.Fwrite(env, salt, salt.Length);
    put := out.Fwrite(env, iv, iv.Length);
    out.Fclose(env, 0);
    created := true;
  }

  /** The branch without an explicit IV. */
  method MakeKeyAndIv(env: Env, kdf: Kdf, pwdKey: array<byte>, key: array<byte>, size: nat, salt: array<byte>,
                      iv: array<byte>, padCounter: nat) returns (ret: Status)
    requires KdfLaw(kdf) && salt.Length == SALT_SIZE
    requires 0 in pwdKey[..] && size <= pwdKey.Length && size <= key.Length
    requires pwdKey != key && pwdKey != iv && pwdKey != salt && key != iv && key != salt && iv != salt
    modifies env, pwdKey, key, salt, iv
    ensures env.live == old(env.live) && env.Since(old(env.faults))
    ensures ret == Success <==> env.faults == old(env.faults)
    ensures ret == Success ==>
              && (salt[0] == 0 <==> padCounter == 0)
              && key[..size] == kdf(CStr(old(pwdKey[..])), salt[..], 4096, size)
  {
    hide CStr;
    var ok := GenerateBlock(env, iv, iv.Length);
    if !ok {
      return LibraryError;
    }
    ret := GenKeyPwdBased(env, kdf, pwdKey, size, salt, padCounter);
    if ret != Success {
      return ret;
    }
    CopyInto(key, 0, pwdKey[..size]);
  }

  /** Buffers, the chunk loop, and the cleanup after it. */
  method EncryptBody(env: Env, c: BlockCipher, cbcMode: bool, key: array<byte>, size: nat, iv: array<byte>, block: nat,
                     inFile: InFile, out: OutFile, inputLength: int, padCounter: nat) returns (ret: Status)
    requires BlockSize(block) && c.Valid(block) && iv.Length == block && size <= key.Length && key != iv
    requires inFile.pos == 0 && !inFile.atEof
    requires LengthInUse(inFile.data, inputLength) && padCounter == PadCount(inputLength, block)
    modifies env, inFile, out, key, iv
    ensures env.live == old(env.live) && env.Since(old(env.faults)) && out.lost >= old(out.lost)
    ensures ret == Success ==> cbcMode || inputLength <= 0
    ensures ret == Success && out.lost == old(out.lost) ==>
              env.faults == old(env.faults) &&
              out.data == old(out.data) + EncryptChunks(c, CipherKey(old(key[..]), size), old(iv[..]),
                                                        EncryptedText(inFile.data, inputLength, block), block)
    ensures env.faults == old(env.faults) ==>
              out.lost == old(out.lost) && ret == if cbcMode || inputLength <= 0 then Success else FatalError
  {
    hide CbcEncrypt, EncryptChunks, EncryptedText, CipherKey, PadCount;
    var input := env.Malloc(MAX_LEN);
    if input == null {
      return MemoryError;
    }
    var output := env.Malloc(MAX_LEN);
    if output == null {
      FreeBins(env, input, null, null, null, null);
      return MemoryError;
    }
    ret := EncryptLoop(env, c, cbcMode, key, size, iv, block, inFile, out, input, output, inputLength, padCounter);
    FreeBins(env, input, output, null, null, null);
    if ret == Success {
      Clear(key, size);
      Clear(iv, block);
    }
  }

  /** The padding loop. A remainder is only compared with zero, so its sign does not matter. */
  method CountPadding(inputLength: int, block: nat) returns (padCounter: nat)
    requires block > 0
    ensures padCounter == PadCount(inputLength, block)
  {
    var length := inputLength;
    padCounter := 0;
    while length % block != 0
      invariant length == inputLength + padCounter
      invariant padCounter <= PadCount(inputLength, block)
      decreases PadCount(inputLength, block) - padCounter
    {
      if padCounter > 0 {
        NextMultiple(inputLength, block, padCounter);
      }
      length := length + 1;
      padCounter := padCounter + 1;
    }
    if padCounter > 0 {
      NextMultiple(inputLength, block, padCounter);
    }
  }
}
