/** wolfCLU_evp_crypto of src/crypto/clu_evp_crypto.c, for input from a file. */
module EvpCrypto {
  import opened Bytes
  import opened Environment
  import opened Files
  import opened EvpFormat

  /** A BIO open for reading. At its end a file reads as 0, a memory buffer as an error with
      nothing left in it. */
  class Bio {
    const data: seq<byte>
    const inMemory: bool
    var pos: nat

    constructor (data: seq<byte>, inMemory: bool)
      ensures this.data == data && this.inMemory == inMemory && pos == 0
    {
      this.data, this.inMemory, pos := data, inMemory, 0;
    }

    /** wolfSSL_BIO_get_len: what is left of a memory buffer, the size of a file, as an int. */
    function GetLen(): int
      requires pos <= |data|
      reads this
    {
      Int32(if inMemory then |data| - pos else |data|)
    }

    method Read(env: Env, buf: array<byte>, n: nat) returns (got: int)
      requires 0 < n <= buf.Length && pos <= |data|
      modifies this, buf, env
      ensures env.live == old(env.live) && env.Since(old(env.faults))
      ensures got <= n && pos <= |data| && pos == old(pos) + (if got > 0 then got else 0)
      ensures buf[..] == Splice(old(buf[..]), 0, data[old(pos)..pos])
      ensures env.faults == old(env.faults) ==>
                && (old(pos) < |data| ==> got == Min(n, |data| - old(pos)))
                && (old(pos) == |data| ==> got == 0 || (got < 0 && inMemory))
    {
      var failed := env.Fails();
      if failed {
        got := -1;
      } else if pos == |data| {
        got := if inMemory then -1 else 0;
      } else {
        got := Min(n, |data| - pos);
        CopyInto(buf, 0, data[pos..pos + got]);
        pos := pos + got;
      }
    }
  }

  /** Opens the input; Base64 is taken off before anything else is read. */
  method OpenInput(env: Env, b: Base64, o: Options, enc: bool, file: seq<byte>) returns (ret: int, input: Bio?)
    modifies env
    ensures env.live == old(env.live) && env.Since(old(env.faults))
    ensures ret == SUCCESS || ret == FATAL_ERROR
    ensures ret == SUCCESS ==> input != null && fresh(input) && input.pos == 0
    ensures env.faults == old(env.faults) ==>
              var raw := if enc then Some(file) else Unwrapped(b, o, file);
              (ret == SUCCESS <==> raw.Some?) && (ret == SUCCESS ==> input.data == raw.value)
  {
    ret, input := SUCCESS, null;
    var failed := env.Fails();
    if failed {
      return FATAL_ERROR, null;
    }
    input := new Bio(file, false);
    if !enc && o.isBase64 {
      var bioSz := input.GetLen();
      if bioSz <= 0 {
        ret := FATAL_ERROR;
      } else {
        var decodedBase64 := env.Malloc(bioSz);
        if decodedBase64 == null {
          ret := FATAL_ERROR;
        } else {
          var got := input.Read(env, decodedBase64, bioSz);
          if got != bioSz {
            ret := FATAL_ERROR;
          }
          if ret == SUCCESS {
            assert decodedBase64[..] == Clip(file);
            match b.decode(decodedBase64[..]) {
              case None => ret := FATAL_ERROR;
              case Some(raw) => input := new Bio(raw, true);
            }
          }
          env.Free(decodedBase64);
        }
      }
    }
  }

  /** Salt for this run: random when encrypting, read back after "Salted__" when decrypting. */
  method PrepareSalt(env: Env, o: Options, enc: bool, input: Bio, salt: array<byte>) returns (ret: int)
    requires salt.Length == SALT_SIZE && input.pos == 0
    modifies env, input, salt
    ensures env.live == old(env.live) && env.Since(old(env.faults))
    ensures ret == SUCCESS || ret == FATAL_ERROR
    ensures input.pos <= |input.data|
    ensures env.faults == old(env.faults) && enc ==> ret == SUCCESS && input.pos == 0
    ensures env.faults == old(env.faults) && !enc ==>
              && (ret == SUCCESS <==> SplitHeader(o, input.data).Some?)
              && (ret == SUCCESS ==>
                    && input.data[input.pos..] == SplitHeader(o, input.data).value.1
                    && (!o.Headerless() ==> salt[..] == SplitHeader(o, input.data).value.0))
    ensures env.faults == old(env.faults) && !enc ==>
              if o.noSalt || o.userKey then
                ret == SUCCESS && input.pos == 0
              else
                && (ret == SUCCESS <==> |input.data| >= 16 && input.data[..8] == Ascii("Salted__"))
                && (ret == SUCCESS ==> input.pos == 16 && salt[..] == input.data[8..16])
  {
    SaltedText();
    ret := SUCCESS;
    if enc {
      var ok := GenerateBlock(env, salt, SALT_SIZE);
      if !ok {
        ret := FATAL_ERROR;
      }
    } else if !o.Headerless() {
      var s := new byte[SALT_SIZE + 1];
      var got := input.Read(env, s, SALT_SIZE);
      if got <= 0 {
        ret := FATAL_ERROR;
      }
      s[SALT_SIZE] := 0;
      if s[..SALT_SIZE] != SALTED {
        ret := FATAL_ERROR;
      }
      if ret == SUCCESS {
        ghost var at := input.pos;
        var got2 := input.Read(env, salt, SALT_SIZE);
        if got2 != SALT_SIZE {
          ret := FATAL_ERROR;
        }
        assert env.faults == old(env.faults) && ret == SUCCESS ==> salt[..] == input.data[at..at + SALT_SIZE];
      }
    }
  }

  /** PBKDF2 over the password buffer, which then holds the key and, after it, the IV. */
  method Pbkdf2Key(d: Derivation, md: nat, pwdKey: array<byte>, key: array<byte>, iv: array<byte>, password: seq<byte>,
                   salt: seq<byte>)
    requires DerivationLaw(d, key.Length, iv.Length)
    requires pwdKey != key && pwdKey != iv && key != iv && key.Length + iv.Length <= pwdKey.Length
    modifies pwdKey, key, iv
    ensures var both := d.pbkdf2(password, salt, md, 10000, key.Length + iv.Length);
            key[..] == both[..key.Length] && iv[..] == both[key.Length..]
  {
    var keySz, ivSz := key.Length, iv.Length;
    var both := d.pbkdf2(password, salt, md, PBKDF2_ITERATIONS, keySz + ivSz);
    CopyInto(pwdKey, 0, both);
    assert pwdKey[..keySz] == both[..keySz] && pwdKey[keySz..keySz + ivSz] == both[keySz..];
    CopyInto(key, 0, pwdKey[..keySz]);
    CopyInto(iv, 0, pwdKey[keySz..keySz + ivSz]);
    assert key[..] == both[..keySz] && iv[..] == both[keySz..];
  }

  /** Fills the key and IV buffers from the password. Skipped for an explicit key. */
  method DeriveKey(env: Env, d: Derivation, o: Options, pwdKey: array<byte>, key: array<byte>, iv: array<byte>,
                   salt: seq<byte>)
    returns (ret: int)
    requires DerivationLaw(d, key.Length, iv.Length)
    requires pwdKey != key && pwdKey != iv && key != iv
    requires !o.userKey ==> 0 in pwdKey[..] && key.Length + iv.Length <= pwdKey.Length
    modifies env, pwdKey, key, iv
    ensures env.live == old(env.live) && env.Since(old(env.faults))
    ensures ret == SUCCESS || ret == FATAL_ERROR
    ensures env.faults == old(env.faults) ==>
              && ret == SUCCESS
              && (key[..], iv[..]) == KeyAndIv(o, d, CStr(old(pwdKey[..])), salt, old(key[..]), old(iv[..]))
    ensures env.faults == old(env.faults) ==>
              var password := CStr(old(pwdKey[..]));
              if o.userKey then
                key[..] == old(key[..]) && iv[..] == old(iv[..])
              else if o.pbkdf2 then
                key[..] + iv[..] ==
                d.pbkdf2(password, if o.noSalt then [] else salt, o.md, 10000, key.Length + iv.Length)
              else
                (key[..], iv[..]) == d.bytesToKey(password, if o.noSalt then None else Some(salt), o.md, 1)
  {
    hide CStr;
    ret := SUCCESS;
    KeyAndIvCases(o, d, CStr(pwdKey[..]), salt, key[..], iv[..]);
    if !o.userKey {
      var password := CStr(pwdKey[..]);
      var failed := env.Fails();
      if failed {
        return FATAL_ERROR;
      }
      if o.pbkdf2 {
        Pbkdf2Key(d, o.md, pwdKey, key, iv, password, if o.Headerless() then [] else salt);
      } else {
        var (k, v) := d.bytesToKey(password, if o.Headerless() then None else Some(salt), o.md,
                                   BYTES_TO_KEY_ITERATIONS);
        CopyInto(key, 0, k);
        CopyInto(iv, 0, v);
        assert key[..] == k && iv[..] == v;
      }
    }
  }

  /** The read, update, write loop. When nothing fails it has fed exactly the rest of the input. */
  method StreamLoop<S(!new)>(env: Env, c: Cipher<S>, start: S, input: Bio, out: OutFile, buf: array<byte>)
    returns (ret: int, s: S, ghost chunks: seq<seq<byte>>)
    requires buf.Length == MAX_BUFFER && input.pos <= |input.data|
    modifies env, input, out, buf
    ensures env.live == old(env.live) && env.Since(old(env.faults))
    ensures ret == SUCCESS || ret == FATAL_ERROR
    ensures env.faults == old(env.faults) ==>
              && ret == SUCCESS
              && Flatten(chunks) == input.data[old(input.pos)..]
              && s == Feed(c, start, chunks).0 && out.data == old(out.data) + Feed(c, start, chunks).1
  {
    hide Splice, Feed, Flatten;
    ret, s, chunks := SUCCESS, start, [];
    FeedNothing(c, start);
    ghost var from, was := input.pos, out.data;
    assert was + [] == was;
    while ret == SUCCESS
      invariant env.live == old(env.live) && env.Since(old(env.faults))
      invariant from <= input.pos <= |input.data| && (ret == SUCCESS || ret == FATAL_ERROR)
      invariant env.faults == old(env.faults) ==>
                  && ret == SUCCESS
                  && Flatten(chunks) == input.data[from..input.pos]
                  && s == Feed(c, start, chunks).0 && out.data == was + Feed(c, start, chunks).1
      decreases |input.data| - input.pos, if ret == SUCCESS then 1 else 0
      modifies env, input, out, buf
    {
      ghost var at, was0 := input.pos, buf[..];
      var err := input.Read(env, buf, MAX_BUFFER);
      if err < 0 {
        if input.GetLen() != 0 {
          ret := FATAL_ERROR;
        }
        break;
      }
      if err == 0 {
        break;
      }
      ghost var piece := buf[..err];
      SpliceHead(was0, input.data[at..input.pos]);
      assert piece == input.data[at..input.pos];
      FeedOne(c, start, chunks, piece);
      assert input.data[from..at] + piece == input.data[from..input.pos];
      ghost var before := Feed(c, start, chunks).1;
      chunks := chunks + [piece];
      var (t, o) := c.update(s, buf[..err]);
      s := t;
      var failed := env.Fails();
      if failed {
        ret := FATAL_ERROR;
        break;
      }
      failed := WriteBytes(env, out, o);
      if failed {
        ret := FATAL_ERROR;
        break;
      }
      assert was + before + o == was + (before + o);
    }
  }

  lemma FeedNothing<S>(c: Cipher<S>, s: S)
    ensures Feed(c, s, []) == (s, []) && Flatten([]) == []
  {
  }

  lemma FeedOne<S>(c: Cipher<S>, s: S, chunks: seq<seq<byte>>, piece: seq<byte>)
    ensures Flatten(chunks + [piece]) == Flatten(chunks) + piece
    ensures var (t, o) := Feed(c, s, chunks);
            var (u, p) := c.update(t, piece);
            Feed(c, s, chunks + [piece]) == (u, o + p)
  {
    var all := chunks + [piece];
    assert all[..|all| - 1] == chunks;
  }

  /** wolfSSL_BIO_write. */
  method WriteBytes(env: Env, out: OutFile, bytes: seq<byte>) returns (failed: bool)
    modifies env, out
    ensures env.live == old(env.live) && env.Since(old(env.faults))
    ensures failed <==> env.faults > old(env.faults)
    ensures !failed ==> out.data == old(out.data) + bytes
  {
    failed := env.Fails();
    if !failed {
      out.data := out.data + bytes;
    }
  }

  /** Cipher context, the two buffers, the loop, and the final block. */
  method RunCipher<S(!new)>(env: Env, c: Cipher<S>, key: seq<byte>, iv: seq<byte>, enc: bool, input: Bio,
                            out: OutFile)
    returns (ret: int)
    requires ChunkingLaw(c) && input.pos <= |input.data|
    modifies env, input, out
    ensures env.live == old(env.live) && env.Since(old(env.faults))
    ensures env.faults == old(env.faults) ==>
              match Whole(c, key, iv, enc, old(input.data[input.pos..]))
              case None => ret == FATAL_ERROR
              case Some(all) => ret == SUCCESS && out.data == old(out.data) + all
  {
    hide Feed, Flatten;
    var failed := env.Fails();
    if failed {
      return MEMORY_E;
    }
    var start := c.init(key, iv, enc);
    var buf := env.Malloc(MAX_BUFFER);
    if buf == null {
      return MEMORY_E;
    }
    var outBuf := env.Malloc(MAX_BUFFER + 16);
    if outBuf == null {
      FreeBins(env, buf, null, null, null, null);
      return MEMORY_E;
    }
    ghost var was := out.data;
    var s;
    ghost var chunks;
    ret, s, chunks := StreamLoop(env, c, start, input, out, buf);
    assert Run(c, start, chunks) == Run(c, start, [Flatten(chunks)]);
    if ret == SUCCESS {
      ghost var fed := out.data;
      failed := env.Fails();
      match c.final(s) {
        case None => ret := FATAL_ERROR;
        case Some(last) =>
          if failed {
            ret := FATAL_ERROR;
          } else {
            failed := WriteBytes(env, out, last);
            assert was + Feed(c, start, chunks).1 + last == was + (Feed(c, start, chunks).1 + last);
          }
      }
    }
    FreeBins(env, buf, outBuf, null, null, null);
  }

  /** Opens the output and, when encrypting with a salt, writes "Salted__" and the salt. */
  method StartOutput(env: Env, o: Options, enc: bool, out: OutFile, salt: seq<byte>) returns (ret: int)
    modifies env, out
    ensures env.live == old(env.live) && env.Since(old(env.faults))
    ensures ret == SUCCESS || ret == FATAL_ERROR
    ensures env.faults == old(env.faults) ==> ret == SUCCESS && out.data == if enc then Header(o, salt) else []
    ensures env.faults == old(env.faults) && enc ==>
              out.data == if o.noSalt || o.userKey then [] else Ascii("Salted__") + salt
  {
    SaltedText();
    ret := SUCCESS;
    var failed := env.Fails();
    if failed {
      return FATAL_ERROR;
    }
    out.data, out.inError := [], false;
    if enc && !o.Headerless() {
      failed := WriteBytes(env, out, SALTED);
      if failed {
        return FATAL_ERROR;
      }
      failed := WriteBytes(env, out, salt);
      if failed {
        return FATAL_ERROR;
      }
    }
  }

  /** The stored-up output passed through the Base64 BIO, as far as its length as an int reaches. */
  method EncodeOutput(env: Env, b: Base64, mem: seq<byte>, out: OutFile) returns (ret: int)
    modifies env, out
    ensures env.live == old(env.live) && env.Since(old(env.faults))
    ensures env.faults == old(env.faults) ==> ret == SUCCESS && out.data == old(out.data) + b.encode(Clip(mem))
  {
    ret := SUCCESS;
    var failed := env.Fails();
    if failed {
      return FATAL_ERROR;
    }
    var length := Int32(|mem|);
    failed := WriteBytes(env, out, b.encode(if length <= 0 then [] else mem[..length]));
  }

  /** Header, cipher run, and Base64 when it is asked for. */
  method Produce<S(!new)>(env: Env, c: Cipher<S>, b: Base64, o: Options, key: seq<byte>, iv: seq<byte>, enc: bool,
                          salt: seq<byte>, input: Bio, out: OutFile) returns (ret: int)
    requires ChunkingLaw(c) && input.pos <= |input.data|
    modifies env, input, out
    ensures env.live == old(env.live) && env.Since(old(env.faults))
    ensures env.faults == old(env.faults) ==>
              match Whole(c, key, iv, enc, old(input.data[input.pos..]))
              case None => ret == FATAL_ERROR
              case Some(all) =>
                && ret == SUCCESS
                && out.data == if !enc then all
                               else if o.isBase64 then b.encode(Clip(Header(o, salt) + all))
                               else Header(o, salt) + all
  {
    hide Whole, ChunkingLaw, Header;
    var stream := out;
    if enc && o.isBase64 {
      stream := new OutFile();
    }
    ret := StartOutput(env, o, enc, stream, salt);
    if ret == SUCCESS {
      ret := RunCipher(env, c, key, iv, enc, input, stream);
    }
    if ret == SUCCESS && stream != out {
      out.data := [];
      ret := EncodeOutput(env, b, stream.data, out);
    }
  }

  /** What the pieces of an encryption make up. */
  lemma EncryptionPieces<S>(c: Cipher<S>, b: Base64, o: Options, d: Derivation, password: seq<byte>, salt: seq<byte>,
                            key: seq<byte>, iv: seq<byte>, k: seq<byte>, v: seq<byte>, data: seq<byte>)
    requires InverseLaw(c) && DerivationLaw(d, |key|, |iv|)
    requires (k, v) == KeyAndIv(o, d, password, salt, key, iv)
    ensures Whole(c, k, v, true, data).Some?
    ensures var raw := Header(o, salt) + Whole(c, k, v, true, data).value;
            EncryptedStream(c, b, o, d, password, salt, key, iv, data) ==
            if o.isBase64 then b.encode(Clip(raw)) else raw
  {
    hide Whole, KeyAndIv, Header;
  }

  /** What the pieces of a decryption make up. */
  lemma DecryptionPieces<S>(c: Cipher<S>, b: Base64, o: Options, d: Derivation, password: seq<byte>, salt: seq<byte>,
                            key: seq<byte>, iv: seq<byte>, k: seq<byte>, v: seq<byte>, file: seq<byte>)
    requires DerivationLaw(d, |key|, |iv|)
    requires Unwrapped(b, o, file).Some? && SplitHeader(o, Unwrapped(b, o, file).value).Some?
    requires o.Headerless() || salt == SplitHeader(o, Unwrapped(b, o, file).value).value.0
    requires (k, v) == KeyAndIv(o, d, password, salt, key, iv)
    ensures DecryptedStream(c, b, o, d, password, key, iv, file) ==
            Whole(c, k, v, false, SplitHeader(o, Unwrapped(b, o, file).value).value.1)
  {
    hide Whole, SplitHeader, Unwrapped;
  }

  /** One run of the command. When nothing fails around it, encryption always succeeds and writes
      EncryptedStream, and decryption succeeds exactly when DecryptedStream is defined, with it as
      the output. `salt` is the random salt of an encryption. */
  method Crypt<S(!new)>(env: Env, c: Cipher<S>, b: Base64, d: Derivation, o: Options, pwdKey: array<byte>,
                        key: array<byte>, iv: array<byte>, file: seq<byte>, out: OutFile, enc: bool)
    returns (ret: int, ghost salt: seq<byte>)
    requires ChunkingLaw(c) && InverseLaw(c) && DerivationLaw(d, key.Length, iv.Length)
    requires pwdKey != key && pwdKey != iv && key != iv
    requires !o.userKey ==> 0 in pwdKey[..] && key.Length + iv.Length <= pwdKey.Length
    modifies env, pwdKey, key, iv, out
    ensures env.live == old(env.live) && env.Since(old(env.faults))
    ensures |salt| == SALT_SIZE
    ensures env.faults == old(env.faults) && enc ==>
              ret == SUCCESS &&
              out.data == EncryptedStream(c, b, o, d, CStr(old(pwdKey[..])), salt, old(key[..]), old(iv[..]), file)
    ensures env.faults == old(env.faults) && !enc ==>
              match DecryptedStream(c, b, o, d, CStr(old(pwdKey[..])), old(key[..]), old(iv[..]), file)
              case None => ret != SUCCESS
              case Some(plain) => ret == SUCCESS && out.data == plain
  {
    hide CStr, Whole, ChunkingLaw, InverseLaw, Unwrapped, KeyAndIv, SplitHeader, EncryptedStream, Header;
    ghost var password, key0, iv0 := CStr(pwdKey[..]), key[..], iv[..];
    var saltBuf := new byte[SALT_SIZE](i => 0);
    salt := saltBuf[..];
    var input;
    ret, input := OpenInput(env, b, o, enc, file);
    if ret == SUCCESS {
      var failed := env.Fails();
      if failed {
        ret := MEMORY_E;
      }
    }
    if ret == SUCCESS {
      ret := PrepareSalt(env, o, enc, input, saltBuf);
      salt := saltBuf[..];
    }
    if ret == SUCCESS {
      ret := DeriveKey(env, d, o, pwdKey, key, iv, saltBuf[..]);
    }
    if ret == SUCCESS {
      if env.faults == old(env.faults) {
        if enc {
          assert input.data[input.pos..] == file;
          EncryptionPieces(c, b, o, d, password, salt, key0, iv0, key[..], iv[..], file);
        } else {
          DecryptionPieces(c, b, o, d, password, salt, key0, iv0, key[..], iv[..], file);
        }
      }
      ret := Produce(env, c, b, o, key[..], iv[..], enc, saltBuf[..], input, out);
    }
    Clear(key, key.Length);
    Clear(iv, iv.Length);
  }

  /** Encrypting with a password or an explicit key and IV, then decrypting the written file the same
      way: the data comes back unless Base64 is asked for and does not fit. */
  method EncryptThenDecrypt<S(!new)>(env: Env, c: Cipher<S>, b: Base64, d: Derivation, o: Options,
                                     password: seq<byte>, key: seq<byte>, iv: seq<byte>, data: seq<byte>)
    returns (encrypted: int, decrypted: int, result: seq<byte>)
    requires ChunkingLaw(c) && InverseLaw(c) && LengthLaw(c) && DerivationLaw(d, |key|, |iv|) && Base64Law(b)
    requires 0 !in password
    modifies env
    ensures env.live == old(env.live) && env.Since(old(env.faults))
    ensures env.faults == old(env.faults) ==>
              && encrypted == SUCCESS
              && (decrypted == SUCCESS && result == data <==> !o.isBase64 || Base64Fits(c, b, o, |data|))
              && (decrypted == SUCCESS ==> result == data || |result| < |data|)
  {
    hide CStr, Whole, ChunkingLaw, InverseLaw, LengthLaw, DecryptedStream, EncryptedStream, RawStream, Base64Fits;
    ghost var salt;
    var out := new OutFile();
    var pwdKey := PasswordBuffer(password, |key| + |iv|);
    var keyBuf := FilledBuffer(key);
    var ivBuf := FilledBuffer(iv);
    encrypted, salt := Crypt(env, c, b, d, o, pwdKey, keyBuf, ivBuf, data, out, true);
    if encrypted != SUCCESS {
      return encrypted, encrypted, [];
    }
    var back := new OutFile();
    pwdKey := PasswordBuffer(password, |key| + |iv|);
    keyBuf := FilledBuffer(key);
    ivBuf := FilledBuffer(iv);
    ghost var unused;
    decrypted, unused := Crypt(env, c, b, d, o, pwdKey, keyBuf, ivBuf, out.data, back, false);
    result := back.data;
    if env.faults == old(env.faults) {
      StreamRoundTrip(c, b, o, d, password, salt, key, iv, data);
    }
  }
}
