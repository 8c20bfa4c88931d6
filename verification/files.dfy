/** Byte files as the legacy cipher commands use them. */
module Files {
  import opened Bytes
  import opened Environment

  /** A file open for reading: fread comes back short only at the end of the file or on a fault. */
  class InFile {
    const data: seq<byte>
    var pos: nat
    var atEof: bool
    var inError: bool

    constructor (data: seq<byte>)
      ensures this.data == data && pos == 0 && !atEof && !inError
    {
      this.data := data;
      pos, atEof, inError := 0, false, false;
    }

    /** The size as an `int`, from XFSEEK and XFTELL, which fail on a file that has no position. */
    method Tell(env: Env) returns (length: int)
      modifies env
      ensures env.live == old(env.live) && env.Since(old(env.faults))
      ensures length == if env.faults == old(env.faults) then Int32(|data|) else -1
    {
      var failed := env.Fails();
      length := if failed then -1 else Int32(|data|);
    }

    method Fread(env: Env, buf: array<byte>, n: nat) returns (got: nat)
      requires n <= buf.Length && pos <= |data|
      modifies this, buf, env
      ensures env.live == old(env.live) && env.Since(old(env.faults))
      ensures got <= n && pos == old(pos) + got && pos <= |data|
      ensures buf[..] == Splice(old(buf[..]), 0, data[old(pos)..pos])
      ensures env.faults == old(env.faults) ==>
                got == Min(n, |data| - old(pos)) && inError == old(inError) && atEof == (old(atEof) || got < n)
      ensures env.faults > old(env.faults) ==> inError && atEof == old(atEof) && (n > 0 ==> got < n)
    {
      var avail := Min(n, |data| - pos);
      var failed := env.Fails();
      if failed {
        var g: int := *;
        got := if 0 <= g < avail then g else 0;
        inError := true;
      } else {
        got := avail;
        atEof := atEof || got < n;
      }
      CopyInto(buf, 0, data[pos..pos + got]);
      pos := pos + got;
    }
  }

  /** A file open for writing. A faulty write or close leaves only part of the bytes; `lost` counts
      these. */
  class OutFile {
    var data: seq<byte>
    var inError: bool
    ghost var lost: nat

    constructor ()
      ensures data == [] && !inError && lost == 0
    {
      data, inError, lost := [], false, 0;
    }

    method Fwrite(env: Env, buf: array<byte>, n: nat) returns (put: nat)
      requires n <= buf.Length
      modifies this, env
      ensures env.live == old(env.live) && env.Since(old(env.faults)) && lost >= old(lost)
      ensures put <= n && data == old(data) + buf[..put]
      ensures lost == old(lost) ==> put == n
      ensures lost == old(lost) <==> env.faults == old(env.faults)
      ensures inError <==> env.faults > old(env.faults)
    {
      var failed := env.Fails();
      inError := failed;
      put := n;
      if failed {
        var p: int := *;
        put := if 0 <= p <= n then p else 0;
        lost := lost + 1;
      }
      data := data + buf[..put];
    }

    /** XFCLOSE, which writes out what is still buffered of the bytes from `from` on. */
    method Fclose(env: Env, from: nat)
      requires from <= |data|
      modifies this, env
      ensures env.live == old(env.live) && env.Since(old(env.faults)) && lost >= old(lost)
      ensures from <= |data| && data <= old(data)
      ensures lost == old(lost) ==> data == old(data)
      ensures lost == old(lost) <==> env.faults == old(env.faults)
    {
      var failed := env.Fails();
      if failed {
        var p: int := *;
        data := data[..if from <= p <= |data| then p else from];
        lost := lost + 1;
      }
    }
  }

  /** Fills a buffer with random bytes. */
  method GenerateBlock(env: Env, buf: array<byte>, n: nat) returns (ok: bool)
    requires n <= buf.Length
    modifies env, buf
    ensures env.live == old(env.live) && env.Since(old(env.faults))
    ensures ok <==> env.faults == old(env.faults)
    ensures buf[n..] == old(buf[n..])
  {
    var failed := env.Fails();
    for i := 0 to n
      invariant buf[n..] == old(buf[n..])
      modifies buf
    {
      var b: byte := *;
      buf[i] := b;
    }
    ok := !failed;
  }

  /** XMEMSET to zero. */
  method Clear(buf: array<byte>, n: nat)
    requires n <= buf.Length
    modifies buf
    ensures forall i :: 0 <= i < n ==> buf[i] == 0
    ensures buf[n..] == old(buf[n..])
  {
    for i := 0 to n
      invariant forall k :: 0 <= k < i ==> buf[k] == 0
      invariant buf[n..] == old(buf[n..])
    {
      buf[i] := 0;
    }
  }

  /** The zeroed password buffer with the password copied in. */
  method PasswordBuffer(password: seq<byte>, size: nat) returns (buf: array<byte>)
    requires 0 !in password
    ensures fresh(buf) && buf.Length >= size
    ensures 0 in buf[..] && CStr(buf[..]) == password
  {
    buf := new byte[size + |password| + 1](i => 0);
    CopyInto(buf, 0, password);
    assert buf[|password|] == 0;
    CStrOfPrefix(buf[..], password);
  }

  lemma {:induction false} CStrOfPrefix(s: seq<byte>, p: seq<byte>)
    requires 0 !in p && p <= s && |p| < |s| && s[|p|] == 0
    ensures CStr(s) == p
  {
    if p != [] {
      CStrOfPrefix(s[1..], p[1..]);
    }
  }

  /** A buffer holding the given bytes. */
  method FilledBuffer(bytes: seq<byte>) returns (buf: array<byte>)
    ensures fresh(buf) && buf[..] == bytes
  {
    buf := new byte[|bytes|](i requires 0 <= i < |bytes| => bytes[i]);
  }
}
