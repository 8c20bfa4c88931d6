/** The DER writers of src/dh/clu_dh.c: one cursor over an output array, and the
    same code run with a null output to learn the size. */
module DhDer {
  import opened Bytes
  import opened Der
  import opened Environment

  const LENGTH_ONLY_E := -202
  const BUFFER_E := -132
  const BAD_FUNC_ARG := -173

  /** Values a word32 can hold, and values an int can hold. */
  const WORD32_LIMIT: nat := 0x1_0000_0000
  const INT_LIMIT: nat := 0x8000_0000

  /** The big numbers the writers read from a wolfSSL DhKey. */
  datatype DhKey = DhKey(p: nat, g: nat)

  /** The `word32*` through which sizes travel in and out. */
  class SizeCell {
    var size: nat

    constructor (n: nat)
      ensures size == n
    {
      size := n;
    }
  }

  method BytePrecisionCopy(value: nat) returns (i: nat)
    requires value < WORD32_LIMIT
    ensures i == BytePrecision(value)
  {
    PowValues();
    i := 3;
    while i > 0
      invariant i <= 3
      invariant i < 3 ==> value < Pow256(i)
    {
      if value / Pow256(i - 1) != 0 {
        break;
      }
      i := i - 1;
    }
  }

  /** Stores one byte at the cursor. */
  method Put(output: array<byte>, at: nat, b: byte)
    requires at < output.Length
    modifies output
    ensures output[..] == Splice(old(output[..]), at, [b])
  {
    output[at] := b;
  }

  /** Appends one more piece to what has been written from `off` on. */
  lemma Wrote(was: seq<byte>, off: nat, done: seq<byte>, now: seq<byte>, piece: seq<byte>, after: seq<byte>)
    requires off + |done| + |piece| <= |was|
    requires now == Splice(was, off, done)
    requires after == Splice(now, off + |done|, piece)
    ensures after == Splice(was, off, done + piece)
  {
    SpliceAppend(was, off, done, piece);
  }

  method SetLengthCopy(length: nat, output: array?<byte>, off: nat) returns (i: nat)
    requires length < WORD32_LIMIT
    requires output != null ==> off + |LengthOctets(length)| <= output.Length
    modifies output
    ensures i == |LengthOctets(length)|
    ensures output != null ==> output[..] == Splice(old(output[..]), off, LengthOctets(length))
  {
    hide Splice, FixedBigEndian, BytePrecision;
    i := 0;
    if length < ASN_LONG_LENGTH {
      if output != null {
        Put(output, off, length);
      }
      i := i + 1;
    } else {
      var j := BytePrecisionCopy(length);
      if output != null {
        Put(output, off, ASN_LONG_LENGTH + j);
      }
      i := i + 1;
      ghost var now := if output != null then output[..] else [];
      var n := SetLengthBytes(length, j, output, off + i);
      if output != null {
        Wrote(old(output[..]), off, [ASN_LONG_LENGTH + j], now, FixedBigEndian(length, j), output[..]);
      }
      i := i + n;
    }
  }

  /** The loop of SetLengthCopy: the next most-significant byte first. */
  method SetLengthBytes(length: nat, count: nat, output: array?<byte>, off: nat) returns (i: nat)
    requires count <= 3
    requires output != null ==> off + count <= output.Length
    modifies output
    ensures i == count
    ensures output != null ==> output[..] == Splice(old(output[..]), off, FixedBigEndian(length, count))
  {
    ghost var digits := FixedBigEndian(length, count);
    i := 0;
    var j := count;
    while j > 0
      invariant i == count - j
      invariant digits[i..] == FixedBigEndian(length, j)
      invariant output != null ==>
                  forall k :: 0 <= k < output.Length ==>
                                output[k] == if off <= k < off + i then digits[k - off] else old(output[k])
    {
      FixedBigEndianHead(length, j);
      assert digits[i..][0] == digits[i];
      if output != null {
        output[off + i] := length / Pow256(j - 1) % 256;
      }
      assert digits[i..][1..] == digits[i + 1..];
      i := i + 1;
      j := j - 1;
    }
  }

  function VersionBytes(version: nat, header: bool): (s: seq<byte>)
    ensures |s| == if header then 5 else 3
  {
    if header then [0xA0, 3, ASN_INTEGER, 1, version % 256] else [ASN_INTEGER, 1, version % 256]
  }

  /** `header` is always 0 at the call in this file; both forms are written. */
  method SetMyVersionCopy(version: nat, output: array?<byte>, off: nat, header: bool) returns (i: int)
    requires output != null ==> off + (if header then 5 else 3) <= output.Length
    modifies output
    ensures output == null ==> i == BAD_FUNC_ARG
    ensures output != null ==>
              var bytes := VersionBytes(version, header);
              i == |bytes| && output[..] == Splice(old(output[..]), off, bytes)
    ensures output != null ==> output[off..off + i] == (if header then [0xA0, 3] else []) + [0x02, 1, version % 256]
  {
    if output == null {
      return BAD_FUNC_ARG;
    }
    i := 0;
    if header {
      output[off] := 0xA0;
      output[off + 1] := 3;
      i := 2;
    }
    output[off + i] := ASN_INTEGER;
    output[off + i + 1] := 1;
    output[off + i + 2] := version % 256;
    i := i + 3;
  }

  function Header(tag: byte, len: nat): (s: seq<byte>)
    ensures |s| == 1 + |LengthOctets(len)|
  {
    [tag] + LengthOctets(len)
  }

  /** Tag and length; the caller writes the content. SetSequenceCopy, SetOctetStringCopy and
      SetObjectIdCopy are this with their own tag. */
  method SetHeader(tag: byte, len: nat, output: array?<byte>, off: nat) returns (idx: nat)
    requires len < WORD32_LIMIT
    requires output != null ==> off + 1 + |LengthOctets(len)| <= output.Length
    modifies output
    ensures idx == 1 + |LengthOctets(len)|
    ensures output != null ==> output[..] == Splice(old(output[..]), off, Header(tag, len))
  {
    if output != null {
      Put(output, off, tag);
      SpliceAppend(old(output[..]), off, [tag], LengthOctets(len));
    }
    idx := SetLengthCopy(len, output, off + 1);
    idx := idx + 1;
  }

  method SetSequenceCopy(len: nat, output: array?<byte>, off: nat) returns (idx: nat)
    requires len < WORD32_LIMIT
    requires output != null ==> off + 1 + |LengthOctets(len)| <= output.Length
    modifies output
    ensures idx == 1 + |LengthOctets(len)|
    ensures output != null ==>
              output[..] == Splice(old(output[..]), off, Header(ASN_SEQUENCE_CONSTRUCTED, len))
  {
    idx := SetHeader(ASN_SEQUENCE_CONSTRUCTED, len, output, off);
  }

  method SetOctetStringCopy(len: nat, output: array?<byte>, off: nat) returns (idx: nat)
    requires len < WORD32_LIMIT
    requires output != null ==> off + 1 + |LengthOctets(len)| <= output.Length
    modifies output
    ensures idx == 1 + |LengthOctets(len)|
    ensures output != null ==>
              output[..] == Splice(old(output[..]), off, Header(ASN_OCTET_STRING, len))
  {
    idx := SetHeader(ASN_OCTET_STRING, len, output, off);
  }

  method SetObjectIdCopy(len: nat, output: array?<byte>, off: nat) returns (idx: nat)
    requires len < WORD32_LIMIT
    requires output != null ==> off + 1 + |LengthOctets(len)| <= output.Length
    modifies output
    ensures idx == 1 + |LengthOctets(len)|
    ensures output != null ==>
              output[..] == Splice(old(output[..]), off, Header(ASN_OBJECT_ID, len))
  {
    idx := SetHeader(ASN_OBJECT_ID, len, output, off);
  }

  /** The INTEGER header of `len` content bytes whose first byte is `firstByte`. */
  function IntegerHeader(len: nat, firstByte: byte): seq<byte> {
    if firstByte >= 0x80 then Header(ASN_INTEGER, len + 1) + [0] else Header(ASN_INTEGER, len)
  }

  method SetASNIntCopy(len: nat, firstByte: byte, output: array?<byte>, off: nat) returns (idx: nat)
    requires len + 1 < WORD32_LIMIT
    requires output != null ==> off + |IntegerHeader(len, firstByte)| <= output.Length
    modifies output
    ensures idx == |IntegerHeader(len, firstByte)|
    ensures output != null ==> output[..] == Splice(old(output[..]), off, IntegerHeader(len, firstByte))
  {
    hide Splice, LengthOctets;
    var total := if firstByte >= 0x80 then len + 1 else len;
    idx := SetHeader(ASN_INTEGER, total, output, off);
    if firstByte >= 0x80 {
      if output != null {
        ghost var now := output[..];
        Put(output, off + idx, 0);
        Wrote(old(output[..]), off, Header(ASN_INTEGER, total), now, [0], output[..]);
      }
      idx := idx + 1;
    }
  }

  lemma IntegerTlvSplit(n: nat)
    ensures IntegerTlv(n) == IntegerHeader(|FromNat(n)|, if LeadingBit(n) then 0x80 else 0) + FromNat(n)
    ensures |IntegerTlv(n)| >= 1 + |IntegerContent(n)|
  {
    var len := |IntegerContent(n)|;
    if LeadingBit(n) {
      assert Header(ASN_INTEGER, len) + ([0] + FromNat(n)) == Header(ASN_INTEGER, len) + [0] + FromNat(n);
    }
  }

  /** A negative `maxSz` means no limit. */
  method SetASNIntMPCopy(n: nat, maxSz: int, output: array?<byte>, off: nat) returns (idx: int)
    requires |IntegerTlv(n)| < INT_LIMIT
    requires output != null ==> off + |IntegerTlv(n)| <= output.Length
    modifies output
    ensures idx == if 0 <= maxSz < |IntegerTlv(n)| then BUFFER_E else |IntegerTlv(n)|
    ensures idx >= 0 && output != null ==> output[..] == Splice(old(output[..]), off, IntegerTlv(n))
  {
    hide Splice, FromNat, LengthOctets, IntegerTlv;
    IntegerTlvSplit(n);
    var leadingBit := LeadingBit(n);
    var bin := FromNat(n);
    var length := |bin|;
    if maxSz >= 0 && 1 + length + (if leadingBit then 1 else 0) > maxSz {
      return BUFFER_E;
    }
    idx := SetASNIntCopy(length, if leadingBit then 0x80 else 0, output, off);
    if maxSz >= 0 && idx + length > maxSz {
      return BUFFER_E;
    }
    if output != null {
      ghost var now := output[..];
      CopyInto(output, off + idx, bin);
      Wrote(old(output[..]), off, IntegerHeader(length, if leadingBit then 0x80 else 0), now, bin, output[..]);
    }
    idx := idx + length;
  }

  /** Size pass when `output` is null, write pass otherwise; the two always agree. */
  method DhParamsToDer(key: Option<DhKey>, output: array?<byte>, off: nat, outSz: SizeCell?) returns (ret: int)
    requires key.Some? ==> |ParamsTlv(key.value.p, key.value.g)| < INT_LIMIT
    requires output != null && outSz != null ==> off + outSz.size <= output.Length
    modifies output, outSz
    ensures key.None? || outSz == null ==> ret == BAD_FUNC_ARG
    ensures key.Some? && outSz != null && output == null ==>
              ret == LENGTH_ONLY_E && outSz.size == |ParamsTlv(key.value.p, key.value.g)|
    ensures key.Some? && outSz != null && output != null ==>
              var der := ParamsTlv(key.value.p, key.value.g);
              if |der| > old(outSz.size) then
                ret == BUFFER_E && outSz.size == old(outSz.size) && output[..] == old(output[..])
              else
                ret == |der| && outSz.size == |der| && output[..] == Splice(old(output[..]), off, der)
    ensures ret == BAD_FUNC_ARG && output != null ==> output[..] == old(output[..])
  {
    hide Splice, LengthOctets, IntegerTlv;
    if key.None? || outSz == null {
      return BAD_FUNC_ARG;
    }
    var p, g := key.value.p, key.value.g;
    var idx := SetASNIntMPCopy(g, -1, null, 0);
    var pSize := SetASNIntMPCopy(p, -1, null, 0);
    idx := idx + pSize;
    var total := idx;
    var header := SetSequenceCopy(idx, null, 0);
    idx := idx + header;

    if output == null {
      outSz.size := idx;
      return LENGTH_ONLY_E;
    }
    if idx > outSz.size {
      return BUFFER_E;
    }

    idx := WriteParams(p, g, total, output, off);
    outSz.size := idx;
    ret := idx;
  }

  lemma ParamsPieces(p: nat, g: nat, head: seq<byte>)
    requires head == Header(ASN_SEQUENCE_CONSTRUCTED, |IntegerTlv(p)| + |IntegerTlv(g)|)
    ensures ParamsTlv(p, g) == head + IntegerTlv(p) + IntegerTlv(g)
  {
    hide IntegerTlv, LengthOctets;
  }

  /** The write pass of the parameters. */
  method WriteParams(p: nat, g: nat, total: nat, output: array<byte>, off: nat) returns (idx: nat)
    requires total == |IntegerTlv(p)| + |IntegerTlv(g)|
    requires |ParamsTlv(p, g)| < INT_LIMIT
    requires off + |ParamsTlv(p, g)| <= output.Length
    modifies output
    ensures idx == |ParamsTlv(p, g)|
    ensures output[..] == Splice(old(output[..]), off, ParamsTlv(p, g))
  {
    hide Splice, IntegerTlv, LengthOctets, ParamsTlv;
    ghost var was := output[..];
    ghost var head := Header(ASN_SEQUENCE_CONSTRUCTED, total);
    ParamsPieces(p, g, head);
    idx := SetSequenceCopy(total, output, off);
    ghost var now := output[..];
    var n := SetASNIntMPCopy(p, -1, output, off + idx);
    Wrote(was, off, head, now, IntegerTlv(p), output[..]);
    now, idx := output[..], idx + n;
    n := SetASNIntMPCopy(g, -1, output, off + idx);
    Wrote(was, off, head + IntegerTlv(p), now, IntegerTlv(g), output[..]);
    idx := idx + n;
  }

  lemma Flatten(a: seq<byte>, b: seq<byte>, c: seq<byte>, d: seq<byte>, e: seq<byte>, f: seq<byte>, g: seq<byte>,
                h: seq<byte>)
    ensures a + (b + (c + (d + e + f)) + (g + h)) == a + b + c + d + e + f + g + h
  {
    var inner := d + e + f;
    assert c + inner == c + d + e + f;
    assert b + (c + d + e + f) == b + c + d + e + f;
    var left := b + c + d + e + f;
    assert left + (g + h) == left + g + h;
    assert a + (left + g + h) == a + left + g + h;
    assert a + left == a + b + c + d + e + f;
  }

  /** What the pieces of the private key add up to, in writing order. */
  lemma PrivKeyPieces(p: nat, g: nat, x: nat)
    ensures var len := |AlgorithmContent(p, g)|;
            var body := |PrivKeyContent(p, g, x)|;
            && PrivKeyTlv(p, g, x) ==
               PrivKeyHead(body, len) + ParamsTlv(p, g) + Header(ASN_OCTET_STRING, |IntegerTlv(x)|) + IntegerTlv(x)
            && |PrivKeyTlv(p, g, x)| == 1 + |LengthOctets(body)| + body
            && len == 11 + |ParamsTlv(p, g)|
            && body == 3 + (1 + |LengthOctets(len)| + len) + (1 + |LengthOctets(|IntegerTlv(x)|)| + |IntegerTlv(x)|)
  {
    Flatten(Header(ASN_SEQUENCE_CONSTRUCTED, |PrivKeyContent(p, g, x)|), [ASN_INTEGER, 1, 0],
            Header(ASN_SEQUENCE_CONSTRUCTED, |AlgorithmContent(p, g)|), Header(ASN_OBJECT_ID, 9),
            KEY_DH_OID, ParamsTlv(p, g), Header(ASN_OCTET_STRING, |IntegerTlv(x)|), IntegerTlv(x));
  }

  /** `prv` holds the private value big-endian; reading it may fail. On success exactly the first `ret`
      bytes of the output are written and they are the whole encoding; on an error nothing is. */
  method DhPrivKeyToDer(env: Env, key: Option<DhKey>, prv: seq<byte>, output: array?<byte>, outSz: SizeCell?)
    returns (ret: int)
    requires key.Some? ==> |PrivKeyTlv(key.value.p, key.value.g, ToNat(prv))| < INT_LIMIT
    requires output != null && outSz != null ==> outSz.size <= output.Length
    modifies env, output, outSz
    ensures env.live == old(env.live) && env.Since(old(env.faults))
    ensures ret == BAD_FUNC_ARG <==> key.None? || outSz == null || env.faults > old(env.faults)
    ensures ret != BAD_FUNC_ARG && output == null ==>
              ret == LENGTH_ONLY_E && outSz.size == |PrivKeyTlv(key.value.p, key.value.g, ToNat(prv))|
    ensures ret != BAD_FUNC_ARG && output != null ==>
              var der := PrivKeyTlv(key.value.p, key.value.g, ToNat(prv));
              if |der| > old(outSz.size) then
                ret == BUFFER_E && outSz.size == old(outSz.size) && output[..] == old(output[..])
              else
                ret == |der| && outSz.size == |der| && output[..] == Splice(old(output[..]), 0, der)
    ensures ret > 0 && key.value.p > 0 && key.value.g > 0 && ToNat(prv) > 0 &&
            |PrivKeyContent(key.value.p, key.value.g, ToNat(prv))| < LENGTH_LIMIT ==>
              && output != null && ret <= output.Length
              && DecodePrivKey(output[..ret]).Some?
              && DecodeOid(DecodePrivKey(output[..ret]).value.oid) == Some([1, 2, 840, 113549, 1, 3, 1])
    ensures ret == BAD_FUNC_ARG ==>
              && (output != null ==> output[..] == old(output[..]))
              && (outSz != null ==> outSz.size == old(outSz.size))
  {
    hide Splice, LengthOctets, IntegerTlv, ParamsTlv, PrivKeyHead, AlgorithmContent, PrivKeyContent, ToNat,
      DecodePrivKey, DecodeOid;
    if key.None? || outSz == null {
      return BAD_FUNC_ARG;
    }
    var p, g := key.value.p, key.value.g;
    var failed := env.Fails();
    if failed {
      return BAD_FUNC_ARG;
    }
    var x := ToNat(prv);
    PrivKeyPieces(p, g, x);
    ShortLength(|KEY_DH_OID|);

    var privSz := SetASNIntMPCopy(x, -1, null, 0);
    var n: int := SetLengthCopy(privSz, null, 0);
    var idx: int := 1 + n + privSz;
    var keySz := idx;

    var params := new SizeCell(0);
    ret := DhParamsToDer(key, null, 0, params);
    assert ret == LENGTH_ONLY_E;
    idx := idx + params.size;
    n := SetObjectIdCopy(|KEY_DH_OID|, null, 0);
    idx := idx + n + |KEY_DH_OID|;
    var len: nat := idx - keySz;
    n := SetSequenceCopy(len, null, 0);
    idx := idx + n + 3;
    n := SetSequenceCopy(idx, null, 0);
    var total: nat := idx + n;

    if output == null {
      outSz.size := total;
      return LENGTH_ONLY_E;
    }
    if total > outSz.size {
      return BUFFER_E;
    }
    ret, idx := WritePrivKey(p, g, x, privSz, len, idx, output, outSz.size);
    assert ret >= 0;
    SpliceHead(old(output[..]), PrivKeyTlv(p, g, x));
    if p > 0 && g > 0 && x > 0 && |PrivKeyContent(p, g, x)| < LENGTH_LIMIT {
      PrivKeyDeclared(p, g, x);
    }
    outSz.size := idx;
    ret := idx;
  }

  /** Everything the write pass puts before the DH parameters. */
  function PrivKeyHead(body: nat, len: nat): (s: seq<byte>)
    ensures |s| == 16 + |LengthOctets(body)| + |LengthOctets(len)|
  {
    Header(ASN_SEQUENCE_CONSTRUCTED, body) + [ASN_INTEGER, 1, 0] + Header(ASN_SEQUENCE_CONSTRUCTED, len) +
    Header(ASN_OBJECT_ID, 9) + KEY_DH_OID
  }

  method WritePrivKeyHead(body: nat, len: nat, output: array<byte>) returns (idx: nat)
    requires body < WORD32_LIMIT && len < WORD32_LIMIT
    requires |PrivKeyHead(body, len)| <= output.Length
    modifies output
    ensures idx == |PrivKeyHead(body, len)|
    ensures output[..] == Splice(old(output[..]), 0, PrivKeyHead(body, len))
  {
    hide Splice, LengthOctets;
    ghost var was := output[..];
    ghost var done := Header(ASN_SEQUENCE_CONSTRUCTED, body);
    idx := SetSequenceCopy(body, output, 0);
    ghost var now := output[..];
    var m := SetMyVersionCopy(0, output, idx, false);
    Wrote(was, 0, done, now, [ASN_INTEGER, 1, 0], output[..]);
    done, now, idx := done + [ASN_INTEGER, 1, 0], output[..], idx + m;
    var n := SetSequenceCopy(len, output, idx);
    Wrote(was, 0, done, now, Header(ASN_SEQUENCE_CONSTRUCTED, len), output[..]);
    done, now, idx := done + Header(ASN_SEQUENCE_CONSTRUCTED, len), output[..], idx + n;
    n := SetObjectIdCopy(9, output, idx);
    Wrote(was, 0, done, now, Header(ASN_OBJECT_ID, 9), output[..]);
    done, now, idx := done + Header(ASN_OBJECT_ID, 9), output[..], idx + n;
    CopyInto(output, idx, KEY_DH_OID);
    Wrote(was, 0, done, now, KEY_DH_OID, output[..]);
    idx := idx + 9;
  }

  /** The write pass of the private key. The room left for the inner parameters always suffices. */
  method WritePrivKey(p: nat, g: nat, x: nat, privSz: nat, len: nat, body: nat, output: array<byte>, capacity: nat)
    returns (ret: int, idx: nat)
    requires privSz == |IntegerTlv(x)| && len == |AlgorithmContent(p, g)| && body == |PrivKeyContent(p, g, x)|
    requires |PrivKeyTlv(p, g, x)| < INT_LIMIT
    requires |PrivKeyTlv(p, g, x)| <= capacity <= output.Length
    modifies output
    ensures ret >= 0 && idx == |PrivKeyTlv(p, g, x)|
    ensures output[..] == Splice(old(output[..]), 0, PrivKeyTlv(p, g, x))
  {
    hide Splice, LengthOctets, IntegerTlv, ParamsTlv, PrivKeyTlv, PrivKeyHead, AlgorithmContent, PrivKeyContent;
    PrivKeyPieces(p, g, x);
    ghost var was := output[..];
    ghost var head := PrivKeyHead(body, len);
    idx := WritePrivKeyHead(body, len, output);
    ghost var now := output[..];

    var total := new SizeCell(capacity - idx);
    ret := DhParamsToDer(Some(DhKey(p, g)), output, idx, total);
    Wrote(was, 0, head, now, ParamsTlv(p, g), output[..]);
    now, idx := output[..], idx + total.size;

    var n := SetOctetStringCopy(privSz, output, idx);
    Wrote(was, 0, head + ParamsTlv(p, g), now, Header(ASN_OCTET_STRING, privSz), output[..]);
    now, idx := output[..], idx + n;
    var m := SetASNIntMPCopy(x, -1, output, idx);
    Wrote(was, 0, head + ParamsTlv(p, g) + Header(ASN_OCTET_STRING, privSz), now, IntegerTlv(x), output[..]);
    idx := idx + m;
  }
}
