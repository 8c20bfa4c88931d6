/** The -genkey block of src/dh/clu_dh.c: sizing the buffer for a generated key. */
module DhGenKey {
  import opened Bytes
  import opened Der
  import opened DhDer
  import opened Environment

  /** Capacity given to the private key: twice the parameters plus 64 bits. */
  function KeyBufferSize(p: nat, g: nat): nat {
    |ParamsTlv(p, g)| + |ParamsTlv(p, g)| + 64 / 8
  }

  /** Encodes the generated key `x`. When nothing fails around it, it succeeds exactly when the
      encoding fits the buffer, and then the first `outBufSz` bytes are the encoding. */
  method EncodeGeneratedKey(env: Env, dh: DhKey, priv: seq<byte>)
    returns (ret: int, outBuf: array?<byte>, outBufSz: nat)
    requires |PrivKeyTlv(dh.p, dh.g, ToNat(priv))| < INT_LIMIT
    modifies env
    ensures env.Since(old(env.faults))
    ensures env.faults == old(env.faults) ==>
              (ret == SUCCESS <==> |PrivKeyTlv(dh.p, dh.g, ToNat(priv))| <= KeyBufferSize(dh.p, dh.g))
    ensures env.faults > old(env.faults) ==> ret == FATAL_ERROR
    ensures ret == SUCCESS ==>
              outBuf != null && outBufSz <= outBuf.Length && outBuf[..outBufSz] == PrivKeyTlv(dh.p, dh.g, ToNat(priv))
    ensures env.live == if outBuf == null then old(env.live) else old(env.live) + {outBuf}
  {
    hide LengthOctets, IntegerTlv, PrivKeyTlv, ParamsTlv, ToNat;
    ParamsInside(dh.p, dh.g, ToNat(priv));
    outBuf, outBufSz := null, 0;
    var failed := env.Fails();
    if failed {
      return FATAL_ERROR, outBuf, outBufSz;
    }
    var size := new SizeCell(0);
    ret := DhParamsToDer(Some(dh), null, 0, size);
    assert ret == LENGTH_ONLY_E;
    size.size := size.size + size.size + 64 / 8;
    outBuf := env.Malloc(size.size);
    if outBuf == null {
      return FATAL_ERROR, outBuf, outBufSz;
    }
    ret := DhPrivKeyToDer(env, Some(dh), priv, outBuf, size);
    if ret <= 0 {
      ret := FATAL_ERROR;
    } else {
      outBufSz := ret;
      ret := SUCCESS;
    }
  }

  lemma ParamsInside(p: nat, g: nat, x: nat)
    ensures |ParamsTlv(p, g)| < |PrivKeyTlv(p, g, x)|
  {
    hide LengthOctets, IntegerTlv, ParamsTlv;
    PrivKeyPieces(p, g, x);
  }

  lemma LengthOctetsSize(n: nat)
    ensures |LengthOctets(n)| == if n < 128 then 1 else if n < 256 then 2 else if n < 0x1_0000 then 3 else 4
  {
  }

  /** Total sizes in terms of the three INTEGERs. */
  lemma Sizes(p: nat, g: nat, x: nat)
    ensures var pg := |IntegerTlv(p)| + |IntegerTlv(g)|;
            var params := 1 + |LengthOctets(pg)| + pg;
            var alg := 11 + params;
            var octets := |IntegerTlv(x)|;
            var body := 3 + (1 + |LengthOctets(alg)| + alg) + (1 + |LengthOctets(octets)| + octets);
            && |ParamsTlv(p, g)| == params
            && |AlgorithmContent(p, g)| == alg
            && |PrivKeyContent(p, g, x)| == body
            && |PrivKeyTlv(p, g, x)| == 1 + |LengthOctets(body)| + body
  {
    PrivKeyPieces(p, g, x);
    hide LengthOctets, IntegerTlv, PrivKeyTlv, PrivKeyHead, AlgorithmContent, PrivKeyContent;
  }

  /** An INTEGER of a 4096-bit number is at most 517 bytes, and of a positive one at least 3. */
  lemma IntegerSize(n: nat)
    requires 0 < n < Pow256(512)
    ensures 3 <= |IntegerTlv(n)| <= 517
  {
    FromNatSize(n, 512);
    hide Pow256, FromNat;
    LengthOctetsSize(|IntegerContent(n)|);
  }

  /** For moduli up to 4096 bits the buffer suffices whenever the private INTEGER is at least
      13 bytes shorter than the modulus INTEGER. */
  lemma KeyBufferSuffices(p: nat, g: nat, x: nat)
    requires 0 < g < p < Pow256(512)
    requires |IntegerTlv(x)| + 13 <= |IntegerTlv(p)|
    ensures |PrivKeyTlv(p, g, x)| <= KeyBufferSize(p, g)
  {
    Sizes(p, g, x);
    IntegerSize(p);
    IntegerSize(g);
    hide IntegerTlv, ParamsTlv, PrivKeyTlv, LengthOctets;
    LengthOctetsSize(|IntegerTlv(p)| + |IntegerTlv(g)|);
    LengthOctetsSize(|IntegerTlv(x)|);
    LengthOctetsSize(|AlgorithmContent(p, g)|);
    LengthOctetsSize(|PrivKeyContent(p, g, x)|);
  }

  /** Exactly when the buffer suffices, in terms of the three INTEGERs. `alg` and `body` are the
      lengths of the AlgorithmIdentifier's content and of the whole content. */
  lemma KeyBufferExact(p: nat, g: nat, x: nat)
    ensures var pg := |IntegerTlv(p)| + |IntegerTlv(g)|;
            var octets := |IntegerTlv(x)|;
            var alg := 12 + |LengthOctets(pg)| + pg;
            var body := 5 + |LengthOctets(alg)| + alg + |LengthOctets(octets)| + octets;
            |PrivKeyTlv(p, g, x)| <= KeyBufferSize(p, g) <==>
            octets + |LengthOctets(octets)| + |LengthOctets(alg)| + |LengthOctets(body)| + 8 <= pg + |LengthOctets(pg)|
  {
    Sizes(p, g, x);
    hide IntegerTlv, ParamsTlv, PrivKeyTlv, LengthOctets;
  }

  /** So a private value as long as the modulus never fits with a small generator. */
  lemma KeyBufferTooSmall(p: nat, g: nat, x: nat)
    requires |IntegerTlv(x)| >= |IntegerTlv(p)|
    requires |IntegerTlv(g)| <= if |IntegerTlv(x)| < 128 then 9 else 11
    ensures |PrivKeyTlv(p, g, x)| > KeyBufferSize(p, g)
  {
    KeyBufferExact(p, g, x);
    hide IntegerTlv, ParamsTlv, PrivKeyTlv, LengthOctets, KeyBufferSize;
    var pg, octets := |IntegerTlv(p)| + |IntegerTlv(g)|, |IntegerTlv(x)|;
    LengthOctetsSize(pg);
    LengthOctetsSize(octets);
    var alg := 12 + |LengthOctets(pg)| + pg;
    LengthOctetsSize(alg);
    LengthOctetsSize(5 + |LengthOctets(alg)| + alg + |LengthOctets(octets)| + octets);
  }

  /** There is such a value for every modulus: p is odd, and p - 1 is as long as p. With the
      generators in use, 2 and 5 among them, its encoding does not fit. */
  lemma LargestKeyTooSmall(p: nat, g: nat)
    requires p > 1 && p % 2 == 1
    requires |IntegerTlv(g)| <= 9
    ensures |PrivKeyTlv(p, g, p - 1)| > KeyBufferSize(p, g)
  {
    SameSize(p);
    hide IntegerTlv, PrivKeyTlv, KeyBufferSize;
    KeyBufferTooSmall(p, g, p - 1);
  }

  lemma SameSize(p: nat)
    requires p > 1 && p % 2 == 1
    ensures |IntegerTlv(p - 1)| == |IntegerTlv(p)|
  {
    assert (p - 1) / 256 == p / 256;
    assert FromNat(p) == FromNat(p / 256) + [p % 256];
    assert FromNat(p - 1) == FromNat(p / 256) + [(p - 1) % 256];
    if p / 256 == 0 {
      assert FromNat(p / 256) == [];
      assert p >= 128 ==> p - 1 >= 128;
    }
    assert |FromNat(p - 1)| == |FromNat(p)| && LeadingBit(p - 1) == LeadingBit(p);
  }

  /** The smallest case written out: p = 23, g = 5, x = 22. */
  lemma TooSmallExample()
    ensures |PrivKeyTlv(23, 5, 22)| > KeyBufferSize(23, 5)
  {
    assert |FromNat(5)| == 1;
    LargestKeyTooSmall(23, 5);
  }
}
