/** Encrypting a file with the legacy commands and decrypting the result. */
module LegacyRoundTrip {
  import opened Bytes
  import opened Environment
  import opened Files
  import opened Cbc
  import opened LegacyFormat
  import opened LegacyEncrypt
  import opened LegacyDecrypt

  /** The file with its header and padding still has a size an int can hold. */
  predicate FileFitsInt(plain: seq<byte>, block: nat)
    requires 0 < block < 256
  {
    SALT_SIZE + block + |Padded(plain, block)| < 0x8000_0000
  }

  /** The sizes decryption branches on. */
  lemma FileSize(c: BlockCipher, key: seq<byte>, salt: seq<byte>, iv: seq<byte>, plain: seq<byte>, block: nat)
    requires BlockSize(block) && c.Valid(block) && |salt| == SALT_SIZE && |iv| == block
    ensures |EncryptedFile(c, key, salt, iv, plain, block)| == SALT_SIZE + block + |Padded(plain, block)|
    ensures EncryptedFile(c, key, salt, iv, plain, block)[..SALT_SIZE] == salt
    ensures EncryptedFile(c, key, salt, iv, plain, block)[SALT_SIZE..SALT_SIZE + block] == iv
    ensures plain == [] <==> Padded(plain, block) == []
  {
    PaddedAligned(plain, block);
    ChunksRoundTrip(c, key, iv, Padded(plain, block), block);
    hide EncryptChunks, CbcEncrypt;
  }

  /** The file encryption leaves when nothing fails. */
  ghost predicate Written(c: BlockCipher, k: seq<byte>, salt: seq<byte>, iv: seq<byte>, plain: seq<byte>, block: nat,
                          file: seq<byte>)
    requires BlockSize(block) && c.Valid(block)
  {
    && |salt| == SALT_SIZE && |iv| == block && LengthInUse(plain, Int32(|plain|))
    && file == salt + iv + EncryptChunks(c, k, iv, EncryptedText(plain, Int32(|plain|), block), block)
  }

  /** What comes of decrypting a file, when nothing fails. */
  ghost predicate Decrypted(c: BlockCipher, k: seq<byte>, file: seq<byte>, block: nat, ret: Status, out: seq<byte>)
    requires BlockSize(block) && c.Valid(block)
  {
    if Int32(|file|) <= SALT_SIZE + block then ret == DecryptError
    else Decrypts(c, k, file, Int32(|file|), block, ret, out)
  }

  lemma WrittenSize(c: BlockCipher, k: seq<byte>, salt: seq<byte>, iv: seq<byte>, plain: seq<byte>, block: nat,
                    file: seq<byte>)
    requires BlockSize(block) && c.Valid(block) && Written(c, k, salt, iv, plain, block, file)
    ensures |file| == SALT_SIZE + block + |EncryptedText(plain, Int32(|plain|), block)|
    ensures file[..SALT_SIZE] == salt && file[SALT_SIZE..SALT_SIZE + block] == iv
  {
    TextAligned(plain, Int32(|plain|), block);
    ChunksRoundTrip(c, k, iv, EncryptedText(plain, Int32(|plain|), block), block);
    hide EncryptChunks, EncryptedText;
  }

  lemma SmallWritten(c: BlockCipher, k: seq<byte>, salt: seq<byte>, iv: seq<byte>, plain: seq<byte>, block: nat,
                     file: seq<byte>)
    requires BlockSize(block) && c.Valid(block) && |plain| < 0x8000_0000
    requires Written(c, k, salt, iv, plain, block, file)
    ensures file == EncryptedFile(c, k, salt, iv, plain, block)
  {
    hide CbcEncrypt, EncryptChunks, BlockSize, PadCount;
    assert plain == [] ==> Padded(plain, block) == [] by { PaddedWhole(plain, block); }
  }

  /** A plaintext whose size fits an int comes back if its file's does too and it is not empty, with the
      padding off exactly when the marker is set. */
  lemma SmallOutcome(c: BlockCipher, k: seq<byte>, salt: seq<byte>, iv: seq<byte>, plain: seq<byte>, block: nat,
                     file: seq<byte>, ret: Status, out: seq<byte>)
    requires BlockSize(block) && c.Valid(block) && |plain| < 0x8000_0000
    requires Written(c, k, salt, iv, plain, block, file) && Decrypted(c, k, file, block, ret, out)
    requires salt[0] != 0 ==> |plain| % block != 0
    ensures if plain != [] && FileFitsInt(plain, block)
            then ret == Success && out == if salt[0] != 0 then plain else Padded(plain, block)
            else ret == DecryptError
  {
    hide CbcEncrypt, CbcDecrypt, EncryptChunks, DecryptsPayload, BlockSize, Padded, Decrypts, EncryptedText,
      EncryptedFile;
    SmallWritten(c, k, salt, iv, plain, block, file);
    FileSize(c, k, salt, iv, plain, block);
    hide Written;
    if plain != [] && FileFitsInt(plain, block) {
      FileRoundTrip(c, k, salt, iv, plain, block, ret, out);
    }
  }

  /** A larger one never does; up to 2^32 bytes its file has no payload and is refused. */
  lemma LargeOutcome(c: BlockCipher, k: seq<byte>, salt: seq<byte>, iv: seq<byte>, plain: seq<byte>, block: nat,
                     file: seq<byte>, ret: Status, out: seq<byte>)
    requires BlockSize(block) && c.Valid(block)
    requires |plain| >= 0x8000_0000 && Int32(|plain|) <= 0x8000_0000 - block
    requires Written(c, k, salt, iv, plain, block, file) && Decrypted(c, k, file, block, ret, out)
    ensures !FileFitsInt(plain, block) && !(ret == Success && out == plain)
    ensures |plain| <= 0x1_0000_0000 ==> ret == DecryptError
  {
    hide CbcEncrypt, CbcDecrypt, EncryptChunks, DecryptsPayload, BlockSize, Decrypts, EncryptedText, PadCount;
    WrittenSize(c, k, salt, iv, plain, block, file);
    LargeFileLost(plain, block);
    if Int32(|file|) > SALT_SIZE + block {
      DecryptSizes(c, k, file, block, ret, out);
    }
  }

  /** Both together. */
  lemma Outcome(c: BlockCipher, k: seq<byte>, salt: seq<byte>, iv: seq<byte>, plain: seq<byte>, block: nat,
                file: seq<byte>, ret: Status, out: seq<byte>)
    requires BlockSize(block) && c.Valid(block) && Int32(|plain|) <= 0x8000_0000 - block
    requires Written(c, k, salt, iv, plain, block, file) && Decrypted(c, k, file, block, ret, out)
    requires salt[0] != 0 ==> Int32(|plain|) % block != 0
    ensures if plain != [] && FileFitsInt(plain, block)
            then ret == Success && out == if salt[0] != 0 then plain else Padded(plain, block)
            else !(ret == Success && out == plain)
    ensures 0x8000_0000 <= |plain| <= 0x1_0000_0000 ==> ret == DecryptError
  {
    hide Decrypted, BlockSize, Padded, FileFitsInt;
    if |plain| < 0x8000_0000 {
      SmallOutcome(c, k, salt, iv, plain, block, file, ret, out);
    } else {
      LargeOutcome(c, k, salt, iv, plain, block, file, ret, out);
    }
  }

  lemma PaddedWhole(plain: seq<byte>, block: nat)
    requires 0 < block < 256
    ensures Padded(plain, block) == plain <==> |plain| % block == 0
  {
  }

  /** `-encrypt` with a password. */
  method RunEncrypt(env: Env, c: BlockCipher, kdf: Kdf, password: seq<byte>, size: nat, plain: seq<byte>, block: nat)
    returns (ret: Status, file: seq<byte>)
    requires BlockSize(block) && c.Valid(block) && KdfLaw(kdf) && 0 !in password
    requires Int32(|plain|) <= 0x8000_0000 - block
    modifies env
    ensures env.Since(old(env.faults)) && env.live == old(env.live)
    ensures env.faults == old(env.faults) ==>
              && ret == Success
              && |file| >= SALT_SIZE + block
              && (file[0] == 0 <==> Int32(|plain|) % block == 0)
              && var salt, iv := file[..SALT_SIZE], file[SALT_SIZE..SALT_SIZE + block];
              Written(c, CipherKey(kdf(password, salt, CLU_4K_TYPE, size), size), salt, iv, plain, block, file)
  {
    hide CbcEncrypt, EncryptChunks, BlockSize, EncryptedText, CStr;
    var pwdKey := PasswordBuffer(password, size);
    var key, iv := new byte[size](i => 0), new byte[block](i => 0);
    var out := new OutFile();
    ghost var salt0, iv0, length;
    ret, salt0, iv0, length := Encrypt(env, c, kdf, true, pwdKey, key, size, plain, out, iv, block, false);
    file := out.data;
    if env.faults == old(env.faults) {
      ghost var k := CipherKey(kdf(password, salt0, CLU_4K_TYPE, size), size);
      assert Written(c, k, salt0, iv0, plain, block, file);
      hide Written;
      WrittenSize(c, k, salt0, iv0, plain, block, file);
    }
  }

  /** `-decrypt` with a password. */
  method RunDecrypt(env: Env, c: BlockCipher, kdf: Kdf, password: seq<byte>, size: nat, file: seq<byte>, block: nat)
    returns (ret: Status, plain: seq<byte>)
    requires BlockSize(block) && c.Valid(block) && KdfLaw(kdf) && 0 !in password
    modifies env
    ensures env.Since(old(env.faults)) && env.live == old(env.live)
    ensures env.faults == old(env.faults) ==>
              var k := if |file| < SALT_SIZE then []
                       else CipherKey(kdf(password, file[..SALT_SIZE], CLU_4K_TYPE, size), size);
              Decrypted(c, k, file, block, ret, plain)
  {
    hide CbcDecrypt, DecryptsPayload, BlockSize, CStr, Decrypts, AllZero;
    var pwdKey := PasswordBuffer(password, size);
    var key, iv := new byte[size](i => 0), new byte[block](i => 0);
    var out := new OutFile();
    ret := Decrypt(env, c, kdf, pwdKey, key, size, file, out, iv, block, Password);
    plain := out.data;
  }

  /** With a password: `-decrypt` returns the plaintext of `-encrypt` for every plaintext that is not
      empty and fits, whatever its length modulo the block and the chunk; and only for those. One of
      2^31 up to 2^32 bytes is reported as encrypted but is not in the file, which is refused. */
  method PasswordRoundTrip(env: Env, c: BlockCipher, kdf: Kdf, password: seq<byte>, size: nat, plain: seq<byte>,
                           block: nat)
    returns (encrypted: Status, decrypted: Status, result: seq<byte>)
    requires BlockSize(block) && c.Valid(block) && KdfLaw(kdf) && 0 !in password
    requires Int32(|plain|) <= 0x8000_0000 - block
    modifies env
    ensures env.Since(old(env.faults)) && env.live == old(env.live)
    ensures env.faults == old(env.faults) ==>
              && encrypted == Success
              && (decrypted == Success && result == plain <==> plain != [] && FileFitsInt(plain, block))
              && (0x8000_0000 <= |plain| <= 0x1_0000_0000 ==> decrypted == DecryptError)
  {
    hide Written, Decrypted, BlockSize, Padded, FileFitsInt, CipherKey;
    var file;
    decrypted, result := DecryptError, [];
    encrypted, file := RunEncrypt(env, c, kdf, password, size, plain, block);
    if encrypted == Success {
      decrypted, result := RunDecrypt(env, c, kdf, password, size, file, block);
    }
    if env.faults == old(env.faults) {
      ghost var salt, iv := file[..SALT_SIZE], file[SALT_SIZE..SALT_SIZE + block];
      ghost var k := CipherKey(kdf(password, salt, CLU_4K_TYPE, size), size);
      Outcome(c, k, salt, iv, plain, block, file, decrypted, result);
      PaddedWhole(plain, block);
      FitsIsSmall(plain, block);
    }
  }

  lemma FitsIsSmall(plain: seq<byte>, block: nat)
    requires 0 < block < 256
    ensures FileFitsInt(plain, block) ==> Int32(|plain|) == |plain|
  {
  }

  /** With an explicit key and IV the salt is all zero and so never signals padding: the plaintext
      comes back exactly when it is a whole number of blocks. The all-zero key encrypts but is
      refused for decryption. */
  method KeyRoundTrip(env: Env, c: BlockCipher, kdf: Kdf, userKey: seq<byte>, userIv: seq<byte>, size: nat,
                      plain: seq<byte>, block: nat)
    returns (encrypted: Status, decrypted: Status, result: seq<byte>)
    requires BlockSize(block) && c.Valid(block) && KdfLaw(kdf) && |userKey| == size && |userIv| == block
    requires Int32(|plain|) <= 0x8000_0000 - block
    modifies env
    ensures env.Since(old(env.faults)) && env.live == old(env.live)
    ensures env.faults == old(env.faults) ==>
              && encrypted == Success
              && (decrypted == Success && result == plain <==>
                  plain != [] && FileFitsInt(plain, block) && |plain| % block == 0 && !AllZero(userKey))
              && (plain != [] && FileFitsInt(plain, block) && !AllZero(userKey) ==>
                    decrypted == Success && result == Padded(plain, block))
              && (0x8000_0000 <= |plain| <= 0x1_0000_0000 ==> decrypted != Success)
  {
    hide Written, Decrypted, BlockSize, Padded, FileFitsInt, AllZero;
    var file;
    encrypted, file := KeyEncrypt(env, c, kdf, userKey, userIv, size, plain, block);
    if encrypted != Success {
      return encrypted, DecryptError, [];
    }
    decrypted, result := KeyDecrypt(env, c, kdf, userKey, userIv, size, file, block);
    if env.faults == old(env.faults) {
      PaddedWhole(plain, block);
      if !AllZero(userKey) {
        Outcome(c, CipherKey(userKey, size), ZERO_SALT, userIv, plain, block, file, decrypted, result);
      }
    }
  }

  /** `-encrypt` with a key and an IV. */
  method KeyEncrypt(env: Env, c: BlockCipher, kdf: Kdf, userKey: seq<byte>, userIv: seq<byte>, size: nat,
                    plain: seq<byte>, block: nat)
    returns (ret: Status, file: seq<byte>)
    requires BlockSize(block) && c.Valid(block) && KdfLaw(kdf) && |userKey| == size && |userIv| == block
    requires Int32(|plain|) <= 0x8000_0000 - block
    modifies env
    ensures env.Since(old(env.faults)) && env.live == old(env.live)
    ensures env.faults == old(env.faults) ==>
              && ret == Success
              && Written(c, CipherKey(userKey, size), ZERO_SALT, userIv, plain, block, file)
  {
    hide CbcEncrypt, EncryptChunks, BlockSize, EncryptedText, CStr;
    var pwdKey := PasswordBuffer([], size);
    var key := FilledBuffer(userKey);
    var iv := FilledBuffer(userIv);
    var out := new OutFile();
    ghost var salt0, iv0, length;
    assert key[..size] == userKey;
    ret, salt0, iv0, length := Encrypt(env, c, kdf, true, pwdKey, key, size, plain, out, iv, block, true);
    file := out.data;
  }

  /** `-decrypt` with a key. */
  method KeyDecrypt(env: Env, c: BlockCipher, kdf: Kdf, userKey: seq<byte>, userIv: seq<byte>, size: nat,
                    file: seq<byte>, block: nat)
    returns (ret: Status, plain: seq<byte>)
    requires BlockSize(block) && c.Valid(block) && KdfLaw(kdf) && |userKey| == size && |userIv| == block
    modifies env
    ensures env.Since(old(env.faults)) && env.live == old(env.live)
    ensures env.faults == old(env.faults) ==>
              if AllZero(userKey) then ret == if Int32(|file|) <= SALT_SIZE + block then DecryptError else EncryptError
              else Decrypted(c, CipherKey(userKey, size), file, block, ret, plain)
  {
    hide CbcDecrypt, DecryptsPayload, BlockSize, CStr, Decrypts;
    var pwdKey := PasswordBuffer([], size);
    var key := FilledBuffer(userKey);
    var iv := FilledBuffer(userIv);
    var out := new OutFile();
    assert key[..size] == userKey;
    assert AllZero(userKey) <==> forall i :: 0 <= i < size ==> key[i] == 0;
    hide AllZero;
    ret := Decrypt(env, c, kdf, pwdKey, key, size, file, out, iv, block, User);
    plain := out.data;
  }
}
