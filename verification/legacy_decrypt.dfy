/** wolfCLU_decrypt of src/crypto/clu_decrypt.c. */
module LegacyDecrypt {
  import opened Bytes
  import opened Environment
  import opened Files
  import opened Cbc
  import opened LegacyFormat

  datatype KeyType = NoKey | Password | User

  /** One CBC call of the library; bytes after the last whole block keep what the buffer held. */
  method CamelliaCbcDecrypt(c: BlockCipher, key: seq<byte>, iv: seq<byte>, output: array<byte>, input: array<byte>,
                            sz: nat, block: nat)
    requires block > 0 && |iv| == block && c.Valid(block)
    requires sz <= input.Length && sz <= output.Length
    modifies output
    ensures var bs := CbcDecrypt(c, key, iv, old(input[..sz]), block);
            output[..|bs|] == bs && output[|bs|..] == old(output[|bs|..])
  {
    hide CbcDecrypt;
    CopyInto(output, 0, CbcDecrypt(c, key, iv, input[..sz], block));
  }

  /** The chunk the loop works on, counted from 1. */
  function LoopCount(n: nat): nat {
    if n % MAX_LEN > 0 then n / MAX_LEN + 1 else n / MAX_LEN
  }

  /** The loop stops on the chunk that holds the last payload byte. */
  lemma LoopCountFront(n: nat)
    requires n > 0
    ensures LoopCount(n) > 0 && MAX_LEN * (LoopCount(n) - 1) == FrontLength(n)
  {
  }

  /** Reads the next chunk of the payload. */
  method ReadPayload(env: Env, inFile: InFile, input: array<byte>) returns (ret: Status, tempMax: nat)
    requires input.Length == MAX_LEN && inFile.pos <= |inFile.data|
    modifies env, inFile, input
    ensures env.live == old(env.live) && env.Since(old(env.faults))
    ensures inFile.pos <= |inFile.data| && tempMax <= MAX_LEN
    ensures ret == Success ==> 0 < tempMax && !old(inFile.inError)
    ensures ret != Success ==> ret == FreadError
    ensures !inFile.inError && !old(inFile.atEof) && old(inFile.pos) < |inFile.data| ==>
              && ret == Success
              && tempMax == Min(MAX_LEN, |inFile.data| - old(inFile.pos))
              && inFile.pos == old(inFile.pos) + tempMax
              && input[..tempMax] == inFile.data[old(inFile.pos)..inFile.pos]
              && inFile.atEof == (tempMax < MAX_LEN)
    ensures env.faults == old(env.faults) ==> inFile.inError == old(inFile.inError)
  {
    ret, tempMax := Success, MAX_LEN;
    if inFile.atEof || inFile.inError {
      ret := FreadError;
    } else {
      var got := inFile.Fread(env, input, MAX_LEN);
      if got > 0 {
        tempMax := got;
      } else {
        ret := FreadError;
      }
    }
  }

  /** One round up to the decryption: the next chunk read and decrypted over what the buffer held. */
  method DecryptRound(env: Env, c: BlockCipher, key: array<byte>, size: nat, iv: array<byte>, block: nat,
                      inFile: InFile, input: array<byte>, output: array<byte>)
    returns (ret: Status, tempMax: nat)
    requires block > 0 && c.Valid(block) && iv.Length == block && size <= key.Length
    requires input.Length == output.Length == MAX_LEN && inFile.pos <= |inFile.data|
    requires input != output && key != input && key != output && iv != input && iv != output
    modifies env, inFile, input, output
    ensures env.live == old(env.live) && env.Since(old(env.faults))
    ensures inFile.pos <= |inFile.data| && tempMax <= MAX_LEN
    ensures ret == Success ==> 0 < tempMax && !old(inFile.inError)
    ensures ret == Success && !inFile.inError && !old(inFile.atEof) && old(inFile.pos) < |inFile.data| ==>
              && tempMax == Min(MAX_LEN, |inFile.data| - old(inFile.pos))
              && inFile.pos == old(inFile.pos) + tempMax
              && inFile.atEof == (tempMax < MAX_LEN)
    ensures env.faults == old(env.faults) && !old(inFile.inError) && !old(inFile.atEof) &&
            old(inFile.pos) < |inFile.data| ==>
              && ret == Success && !inFile.inError
              && var chunk := inFile.data[old(inFile.pos)..inFile.pos];
              var t := CbcDecrypt(c, CipherKey(key[..], size), iv[..], chunk, block);
              t <= output[..] && |t| <= tempMax && output[|t|..] == old(output[|t|..])
  {
    hide CbcDecrypt, CipherKey;
    ret, tempMax := ReadPayload(env, inFile, input);
    if ret == Success {
      var failed := env.Fails();
      if failed {
        ret := LibraryError;
      } else {
        CamelliaCbcDecrypt(c, CipherKey(key[..], size), iv[..], output, input, tempMax, block);
      }
    }
  }

  /** The chunk loop: everything before the last chunk is written, the last chunk stays in `output`. */
  method DecryptLoop(env: Env, c: BlockCipher, key: array<byte>, size: nat, iv: array<byte>, block: nat, header: nat,
                     inFile: InFile, out: OutFile, input: array<byte>, output: array<byte>, fileLength: int,
                     lastLoopFlag: nat)
    returns (ret: Status, length: int, tempMax: nat)
    requires BlockSize(block) && c.Valid(block) && iv.Length == block && size <= key.Length
    requires input.Length == output.Length == MAX_LEN
    requires input != output && key != input && key != output && iv != input && iv != output
    requires inFile.pos == header && !inFile.atEof && !inFile.inError
    requires header < fileLength <= |inFile.data| && lastLoopFlag == LoopCount(fileLength - header)
    modifies env, inFile, out, input, output
    ensures env.live == old(env.live) && env.Since(old(env.faults))
    ensures ret == Success ==> 0 < tempMax <= MAX_LEN && length <= header + MAX_LEN
    ensures env.faults == old(env.faults) ==>
              var payload := inFile.data[header..];
              var n := fileLength - header;
              && ret == Success
              && tempMax == |LastChunkOf(payload, n)|
              && length == fileLength - FrontLength(n)
              && var front := DecryptChunks(c, CipherKey(key[..], size), iv[..], payload[..FrontLength(n)], block);
              && out.data == old(out.data) + front
              && LastChunkOutput(c, CipherKey(key[..], size), iv[..], front, LastChunkOf(payload, n),
                                 output[..tempMax], block)
  {
    hide CbcDecrypt, DecryptChunks, CipherKey, FrontLength, LoopCount, BlockSize, LastChunkOutput, FrontDone;
    ghost var payload := inFile.data[header..];
    ghost var k, v, was := CipherKey(key[..], size), iv[..], out.data;
    LoopCountFront(fileLength - header);
    var currLoopFlag := 1;
    ret, length, tempMax := Success, fileLength, MAX_LEN;
    ghost var front: seq<byte> := [];
    FrontStart(c, k, v, payload, block, output[..]);
    while length > 0 && ret == Success
      invariant 0 < currLoopFlag <= lastLoopFlag
      invariant env.live == old(env.live) && env.Since(old(env.faults))
      invariant k == CipherKey(key[..], size) && v == iv[..]
      invariant 0 < tempMax <= MAX_LEN && inFile.pos <= |inFile.data|
      invariant ret == Success && !inFile.inError ==>
                  && inFile.pos == header + MAX_LEN * (currLoopFlag - 1)
                  && length == fileLength - MAX_LEN * (currLoopFlag - 1)
                  && !inFile.atEof
      invariant env.faults == old(env.faults) ==>
                  && ret == Success && !inFile.inError
                  && out.data == was + front
                  && FrontDone(c, k, v, payload, block, MAX_LEN * (currLoopFlag - 1), front, output[..])
      decreases if ret == Success then length else 0
      modifies env, inFile, out, input, output
    {
      ghost var done := MAX_LEN * (currLoopFlag - 1);
      ghost var wasOutput := output[..];
      var got;
      ret, got := DecryptRound(env, c, key, size, iv, block, inFile, input, output);
      if ret == Success {
        tempMax := got;
      }
      if env.faults == old(env.faults) {
        assert inFile.data[header + done..inFile.pos] == payload[done..done + tempMax];
      }
      if ret == Success && currLoopFlag == lastLoopFlag {
        if env.faults == old(env.faults) {
          assert payload[done..done + tempMax] == LastChunkOf(payload, fileLength - header);
          FrontLast(c, k, v, payload, block, done, front, tempMax, wasOutput, output[..]);
        }
        break;
      }
      if ret == Success {
        if env.faults == old(env.faults) {
          FrontNext(c, k, v, payload, block, done, front, wasOutput, output[..]);
          front := front + output[..];
        }
        var put := out.Fwrite(env, output, tempMax);
        currLoopFlag := currLoopFlag + 1;
        length := length - tempMax;
      }
    }
  }

  /** The first `done` bytes of the payload are decrypted to `front`, and the buffer holds the last chunk
      of that. */
  ghost predicate FrontDone(c: BlockCipher, key: seq<byte>, iv: seq<byte>, payload: seq<byte>, block: nat, done: nat,
                            front: seq<byte>, buffer: seq<byte>)
    requires block > 0 && |iv| == block && c.Valid(block)
  {
    && done <= |payload| && done % MAX_LEN == 0
    && front == DecryptChunks(c, key, iv, payload[..done], block)
    && (|front| >= MAX_LEN ==> buffer == front[|front| - MAX_LEN..])
  }

  lemma FrontStart(c: BlockCipher, key: seq<byte>, iv: seq<byte>, payload: seq<byte>, block: nat, buffer: seq<byte>)
    requires block > 0 && |iv| == block && c.Valid(block)
    ensures FrontDone(c, key, iv, payload, block, 0, [], buffer)
  {
  }

  /** A whole chunk decrypted over the buffer is the next piece. */
  lemma FrontNext(c: BlockCipher, key: seq<byte>, iv: seq<byte>, payload: seq<byte>, block: nat, done: nat,
                  front: seq<byte>, before: seq<byte>, buffer: seq<byte>)
    requires BlockSize(block) && |iv| == block && c.Valid(block)
    requires FrontDone(c, key, iv, payload, block, done, front, before)
    requires done + MAX_LEN <= |payload| && |buffer| == MAX_LEN
    requires CbcDecrypt(c, key, iv, payload[done..done + MAX_LEN], block) <= buffer
    ensures FrontDone(c, key, iv, payload, block, done + MAX_LEN, front + buffer, buffer)
  {
    hide CbcDecrypt, DecryptChunks, BlockSize;
    NextChunk(c, key, iv, payload, block, done);
    assert CbcDecrypt(c, key, iv, payload[done..done + MAX_LEN], block) == buffer;
  }

  /** The last chunk leaves the buffer as the format says. */
  lemma FrontLast(c: BlockCipher, key: seq<byte>, iv: seq<byte>, payload: seq<byte>, block: nat, done: nat,
                  front: seq<byte>, n: nat, before: seq<byte>, buffer: seq<byte>)
    requires block > 0 && |iv| == block && c.Valid(block)
    requires FrontDone(c, key, iv, payload, block, done, front, before)
    requires done + n <= |payload| && n <= |buffer| == |before| == MAX_LEN
    requires var t := CbcDecrypt(c, key, iv, payload[done..done + n], block);
             t <= buffer && |t| <= n && buffer[|t|..] == before[|t|..]
    ensures front == DecryptChunks(c, key, iv, payload[..done], block)
    ensures LastChunkOutput(c, key, iv, front, payload[done..done + n], buffer[..n], block)
  {
    hide CbcDecrypt, DecryptChunks, LastChunkOutput;
    TailInBuffer(c, key, iv, front, payload[done..done + n], before, buffer, block);
  }

  lemma NextChunk(c: BlockCipher, key: seq<byte>, iv: seq<byte>, payload: seq<byte>, block: nat, done: nat)
    requires BlockSize(block) && |iv| == block && c.Valid(block)
    requires done % MAX_LEN == 0 && done + MAX_LEN <= |payload|
    ensures DecryptChunks(c, key, iv, payload[..done + MAX_LEN], block) ==
            DecryptChunks(c, key, iv, payload[..done], block) +
            CbcDecrypt(c, key, iv, payload[done..done + MAX_LEN], block)
    ensures |CbcDecrypt(c, key, iv, payload[done..done + MAX_LEN], block)| == MAX_LEN
  {
    hide CbcDecrypt, DecryptChunks;
    var chunk := payload[done..done + MAX_LEN];
    DecryptChunksAppend(c, key, iv, payload[..done], chunk, block);
    assert payload[..done] + chunk == payload[..done + MAX_LEN];
    OneChunk(c, key, iv, chunk, block);
  }

  lemma TailInBuffer(c: BlockCipher, key: seq<byte>, iv: seq<byte>, front: seq<byte>, last: seq<byte>,
                     before: seq<byte>, buffer: seq<byte>, block: nat)
    requires block > 0 && |iv| == block && c.Valid(block) && |last| <= |buffer| == |before| == MAX_LEN
    requires var t := CbcDecrypt(c, key, iv, last, block);
             t <= buffer && |t| <= |last| && buffer[|t|..] == before[|t|..]
    requires |front| >= MAX_LEN ==> before == front[|front| - MAX_LEN..]
    ensures LastChunkOutput(c, key, iv, front, last, buffer[..|last|], block)
  {
    hide CbcDecrypt;
    var t := CbcDecrypt(c, key, iv, last, block);
    assert buffer[..|last|][|t|..] == buffer[|t|..][..|last| - |t|];
  }

  /** Pad removal after the loop. */
  method FinishDecrypt(env: Env, out: OutFile, output: array<byte>, tempMax: nat, length: int, header: nat,
                       marker: byte)
    returns (ret: Status)
    requires 0 < tempMax <= output.Length && length <= header + output.Length
    modifies env, out
    ensures env.live == old(env.live) && env.Since(old(env.faults))
    ensures env.faults == old(env.faults) && header < length <= header + tempMax ==>
              (ret, out.data) == Finish(old(out.data), output[..tempMax], length - header, marker)
  {
    ret := Success;
    if marker != 0 {
      var pad := output[tempMax - 1];
      var left := length - (pad + header);
      if left < 0 {
        ret := BadLength;
      } else {
        var put := out.Fwrite(env, output, left);
        assert env.faults == old(env.faults) && length <= header + tempMax ==>
            output[..left] == output[..tempMax][..length - header - pad];
      }
    } else {
      var put := out.Fwrite(env, output, tempMax);
    }
  }

  /** The key the cipher is given. */
  function KeyInUse(kdf: Kdf, keyType: KeyType, password: seq<byte>, key: seq<byte>, salt: seq<byte>,
                    size: nat): seq<byte>
    requires size <= |key|
  {
    if keyType == Password then kdf(CStr(password), salt, CLU_4K_TYPE, size) else key[..size]
  }

  predicate AllZero(s: seq<byte>) {
    forall i :: 0 <= i < |s| ==> s[i] == 0
  }

  /** A user key must have a non-zero byte; a password is stretched into the key buffer. */
  method SetUpKey(env: Env, kdf: Kdf, pwdKey: array<byte>, key: array<byte>, size: nat, salt: seq<byte>,
                  keyType: KeyType)
    returns (ret: Status)
    requires KdfLaw(kdf) && size <= key.Length && pwdKey != key
    requires keyType == Password ==> 0 in pwdKey[..]
    modifies env, key
    ensures env.live == old(env.live) && env.Since(old(env.faults))
    ensures env.faults == old(env.faults) ==>
              && ret == (if keyType == User && AllZero(old(key[..size])) then EncryptError else Success)
              && (ret == Success ==> key[..size] == KeyInUse(kdf, keyType, pwdKey[..], old(key[..]), salt, size))
    ensures env.faults > old(env.faults) ==> ret != Success
  {
    ret := Success;
    if keyType == Password {
      var stretched := kdf(CStr(pwdKey[..]), salt, CLU_4K_TYPE, size);
      var failed := env.Fails();
      if failed {
        return EncryptError;
      }
      CopyInto(key, 0, stretched);
    } else if keyType == User {
      var keyVerify := 0;
      for i := 0 to size
        invariant keyVerify >= 0
        invariant keyVerify == 0 <==> forall j :: 0 <= j < i ==> key[j] == 0
      {
        if key[i] != 0 {
          keyVerify := keyVerify + 1;
        }
      }
      if keyVerify == 0 {
        ret := EncryptError;
      }
    }
  }

  /** The loop and the pad removal. */
  method DecryptPayload(env: Env, c: BlockCipher, key: array<byte>, size: nat, iv: array<byte>, block: nat,
                        inFile: InFile, out: OutFile, input: array<byte>, output: array<byte>, fileLength: int,
                        marker: byte)
    returns (ret: Status)
    requires BlockSize(block) && c.Valid(block) && iv.Length == block && size <= key.Length
    requires input.Length == output.Length == MAX_LEN
    requires input != output && key != input && key != output && iv != input && iv != output
    requires SALT_SIZE + block < fileLength <= |inFile.data|
    requires inFile.pos == SALT_SIZE + block && !inFile.atEof && !inFile.inError
    requires out.data == []
    modifies env, inFile, out, input, output
    ensures env.live == old(env.live) && env.Since(old(env.faults))
    ensures env.faults == old(env.faults) ==>
              DecryptsPayload(c, CipherKey(key[..], size), iv[..], inFile.data[SALT_SIZE + block..],
                              fileLength - SALT_SIZE - block, marker, block, ret, out.data)
  {
    hide CbcDecrypt, DecryptChunks, LoopCount, LastChunkOutput, Finish, BlockSize, CipherKey, FrontLength;
    var header := SALT_SIZE + block;
    var length, tempMax;
    ret, length, tempMax := DecryptLoop(env, c, key, size, iv, block, header, inFile, out, input, output,
                                        fileLength, LoopCount(fileLength - header));
    ghost var front := out.data;
    if ret == Success {
      ret := FinishDecrypt(env, out, output, tempMax, length, header, marker);
    }
    if env.faults == old(env.faults) {
      ghost var tail := output[..tempMax];
      assert front == DecryptChunks(c, CipherKey(key[..], size), iv[..],
                                    inFile.data[header..][..FrontLength(fileLength - header)], block);
      assert LastChunkOutput(c, CipherKey(key[..], size), iv[..], front,
                             LastChunkOf(inFile.data[header..], fileLength - header), tail, block);
    }
  }

  /** Allocation, decryption and cleanup of a file that is long enough. */
  method DecryptBody(env: Env, c: BlockCipher, kdf: Kdf, pwdKey: array<byte>, key: array<byte>, size: nat,
                     inFile: InFile, fileLength: int, out: OutFile, iv: array<byte>, block: nat, keyType: KeyType)
    returns (ret: Status)
    requires BlockSize(block) && c.Valid(block) && KdfLaw(kdf) && iv.Length == block && size <= key.Length
    requires pwdKey != key && pwdKey != iv && key != iv
    requires keyType == Password ==> 0 in pwdKey[..]
    requires SALT_SIZE + block < fileLength <= |inFile.data| && inFile.pos == 0 && !inFile.atEof && !inFile.inError
    requires out.data == []
    modifies env, inFile, out, key, iv
    ensures env.live == old(env.live) && env.Since(old(env.faults))
    ensures env.faults == old(env.faults) ==>
              if keyType == User && AllZero(old(key[..size])) then
                ret == EncryptError && out.data == []
              else
                var k := KeyInUse(kdf, keyType, pwdKey[..], old(key[..]), inFile.data[..SALT_SIZE], size);
                Decrypts(c, CipherKey(k, size), inFile.data, fileLength, block, ret, out.data)
  {
    hide BlockSize, CStr, AllZero, KeyInUse, Decrypts, CipherKey;
    var input := env.Malloc(MAX_LEN);
    if input == null {
      return MemoryError;
    }
    var output := env.Malloc(MAX_LEN);
    if output == null {
      FreeBins(env, input, null, null, null, null);
      return MemoryError;
    }
    ret := DecryptBuffered(env, c, kdf, pwdKey, key, size, inFile, fileLength, out, iv, block, keyType, input, output);
    FreeBins(env, input, output, null, null, null);
    Clear(key, size);
  }

  /** Header, key, loop and pad removal. */
  method DecryptBuffered(env: Env, c: BlockCipher, kdf: Kdf, pwdKey: array<byte>, key: array<byte>, size: nat,
                         inFile: InFile, fileLength: int, out: OutFile, iv: array<byte>, block: nat, keyType: KeyType,
                         input: array<byte>, output: array<byte>)
    returns (ret: Status)
    requires BlockSize(block) && c.Valid(block) && KdfLaw(kdf) && iv.Length == block && size <= key.Length
    requires pwdKey != key && pwdKey != iv && key != iv
    requires keyType == Password ==> 0 in pwdKey[..]
    requires SALT_SIZE + block < fileLength <= |inFile.data| && inFile.pos == 0 && !inFile.atEof && !inFile.inError
    requires out.data == [] && input.Length == output.Length == MAX_LEN && input != output
    requires input !in [pwdKey, key, iv] && output !in [pwdKey, key, iv]
    modifies env, inFile, out, key, iv, input, output
    ensures env.live == old(env.live) && env.Since(old(env.faults))
    ensures env.faults == old(env.faults) ==>
              if keyType == User && AllZero(old(key[..size])) then
                ret == EncryptError && out.data == []
              else
                var k := KeyInUse(kdf, keyType, pwdKey[..], old(key[..]), inFile.data[..SALT_SIZE], size);
                Decrypts(c, CipherKey(k, size), inFile.data, fileLength, block, ret, out.data)
  {
    hide CbcDecrypt, DecryptsPayload, LoopCount, BlockSize, Splice, CStr, AllZero, KeyInUse;
    var failed := env.Fails();
    ret := if failed then LibraryError else Success;
    var salt := new byte[SALT_SIZE](i => 0);
    if ret == Success {
      ret := ReadHeader(env, inFile, salt, iv);
    }
    if ret == Success {
      ret := SetUpKey(env, kdf, pwdKey, key, size, salt[..], keyType);
    }
    if ret == Success {
      assert CipherKey(key[..], size) == CipherKey(key[..size], size);
      ret := DecryptPayload(env, c, key, size, iv, block, inFile, out, input, output, fileLength, salt[0]);
    }
  }

  /** Salt and IV from the front of the file. */
  method ReadHeader(env: Env, inFile: InFile, salt: array<byte>, iv: array<byte>) returns (ret: Status)
    requires salt != iv && salt.Length == SALT_SIZE && iv.Length > 0
    requires inFile.pos == 0 && !inFile.atEof && !inFile.inError && SALT_SIZE + iv.Length < |inFile.data|
    modifies env, inFile, salt, iv
    ensures env.live == old(env.live) && env.Since(old(env.faults))
    ensures ret == Success ==>
              && env.faults == old(env.faults)
              && salt[..] == inFile.data[..SALT_SIZE] && iv[..] == inFile.data[SALT_SIZE..SALT_SIZE + iv.Length]
              && inFile.pos == SALT_SIZE + iv.Length && !inFile.atEof && !inFile.inError
    ensures env.faults == old(env.faults) ==> ret == Success
  {
    var got := inFile.Fread(env, salt, SALT_SIZE);
    if got != SALT_SIZE {
      return FreadError;
    }
    got := inFile.Fread(env, iv, iv.Length);
    if got != iv.Length {
      return FreadError;
    }
    ret := Success;
  }

  /** When nothing fails around it: a file without payload, by its length as an int, is refused and
      nothing is written; an all-zero user key is refused; anything else ends as Decrypts says. */
  method Decrypt(env: Env, c: BlockCipher, kdf: Kdf, pwdKey: array<byte>, key: array<byte>, size: nat,
                 file: seq<byte>, out: OutFile, iv: array<byte>, block: nat, keyType: KeyType)
    returns (ret: Status)
    requires BlockSize(block) && c.Valid(block) && KdfLaw(kdf) && iv.Length == block && size <= key.Length
    requires pwdKey != key && pwdKey != iv && key != iv
    requires keyType == Password ==> 0 in pwdKey[..]
    modifies env, out, key, iv
    ensures env.live == old(env.live) && env.Since(old(env.faults))
    ensures env.faults == old(env.faults) ==>
              if Int32(|file|) <= 8 + block then
                ret == DecryptError && out.data == []
              else if keyType == User && forall i :: 0 <= i < size ==> old(key[i]) == 0 then
                ret == EncryptError && out.data == []
              else
                var k := if keyType == Password then kdf(CStr(pwdKey[..]), file[..8], 4096, size)
                         else old(key[..size]);
                Decrypts(c, k[..size / 8], file, Int32(|file|), block, ret, out.data)
  {
    assert AllZero(key[..size]) <==> forall i :: 0 <= i < size ==> key[i] == 0;
    hide BlockSize, CStr, AllZero, DecryptsPayload;
    var failed := env.Fails();
    if failed {
      return DecryptError;
    }
    var inFile := new InFile(file);
    failed := env.Fails();
    if failed {
      return DecryptError;
    }
    out.data, out.inError := [], false;
    var length := inFile.Tell(env);
    if length <= SALT_SIZE + block {
      return DecryptError;
    }
    ret := DecryptBody(env, c, kdf, pwdKey, key, size, inFile, length, out, iv, block, keyType);
    out.Fclose(env, 0);
  }
}
