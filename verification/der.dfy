/** The encoding the DH writers must produce, and an independent strict DER
    reader (ITU-T X.690) for it. */
module Der {
  import opened Bytes

  const ASN_LONG_LENGTH: nat := 0x80
  const ASN_INTEGER: byte := 0x02
  const ASN_OCTET_STRING: byte := 0x04
  const ASN_OBJECT_ID: byte := 0x06
  const ASN_SEQUENCE_CONSTRUCTED: byte := 0x30

  /** dhKeyAgreement, 1.2.840.113549.1.3.1. */
  const KEY_DH_OID: seq<byte> := [42, 134, 72, 134, 247, 13, 1, 3, 1]

  /** Longest content whose length the three length octets can carry. */
  const LENGTH_LIMIT: nat := 0x100_0000

  // ---------------------------------------------------------------- encoding

  /** The `j` low-order bytes of `v`, most significant first. */
  function FixedBigEndian(v: nat, j: nat): (s: seq<byte>)
    ensures |s| == j
  {
    if j == 0 then [] else FixedBigEndian(v / 256, j - 1) + [v % 256]
  }

  /** Number of length octets the writer uses: never more than three. */
  function BytePrecision(v: nat): (k: nat)
    ensures k <= 3
    ensures v < LENGTH_LIMIT ==> v < Pow256(k) && (k > 0 ==> Pow256(k - 1) <= v)
    ensures v >= LENGTH_LIMIT ==> k == 3
  {
    assert Pow256(0) == 1 && Pow256(1) == 256 && Pow256(2) == 0x1_0000 && Pow256(3) == 0x100_0000;
    if v >= 0x1_0000 then 3 else if v >= 0x100 then 2 else if v >= 1 then 1 else 0
  }

  function LengthOctets(n: nat): (s: seq<byte>)
    ensures 1 <= |s| <= 4
    ensures s[0] != ASN_LONG_LENGTH && (s[0] < ASN_LONG_LENGTH <==> n < ASN_LONG_LENGTH)
  {
    if n < ASN_LONG_LENGTH then [n] else [ASN_LONG_LENGTH + BytePrecision(n)] + FixedBigEndian(n, BytePrecision(n))
  }

  function Tlv(tag: byte, content: seq<byte>): (s: seq<byte>)
    ensures |s| == 1 + |LengthOctets(|content|)| + |content|
  {
    [tag] + LengthOctets(|content|) + content
  }

  predicate LeadingBit(n: nat) {
    FromNat(n) != [] && FromNat(n)[0] >= 0x80
  }

  /** Content octets of an INTEGER: a zero octet keeps a number with the top bit set positive. */
  function IntegerContent(n: nat): seq<byte> {
    if LeadingBit(n) then [0] + FromNat(n) else FromNat(n)
  }

  function IntegerTlv(n: nat): seq<byte> {
    Tlv(ASN_INTEGER, IntegerContent(n))
  }

  /** DHParameter of PKCS #3 section 9: SEQUENCE { prime, base }. */
  function ParamsTlv(p: nat, g: nat): seq<byte> {
    Tlv(ASN_SEQUENCE_CONSTRUCTED, IntegerTlv(p) + IntegerTlv(g))
  }

  function AlgorithmContent(p: nat, g: nat): seq<byte> {
    Tlv(ASN_OBJECT_ID, KEY_DH_OID) + ParamsTlv(p, g)
  }

  function PrivKeyContent(p: nat, g: nat, x: nat): seq<byte> {
    [ASN_INTEGER, 1, 0] + Tlv(ASN_SEQUENCE_CONSTRUCTED, AlgorithmContent(p, g)) + Tlv(ASN_OCTET_STRING, IntegerTlv(x))
  }

  /** PrivateKeyInfo of RFC 5208 section 5 for a DH key. */
  function PrivKeyTlv(p: nat, g: nat, x: nat): seq<byte> {
    Tlv(ASN_SEQUENCE_CONSTRUCTED, PrivKeyContent(p, g, x))
  }

  // ---------------------------------------------------------------- reference reader

  /** X.690 section 8.1.3 definite form: the length and what follows it. */
  function ReadLength(s: seq<byte>): Option<(nat, seq<byte>)> {
    if s == [] then None
    else if s[0] < 0x80 then Some((s[0], s[1..]))
    else
      var k := s[0] - 0x80;
      if k == 0 || k == 127 || |s| < 1 + k then None
      else Some((ToNat(s[1..1 + k]), s[1 + k..]))
  }

  /** X.690 section 10.1: the length must also be in the fewest octets. */
  function DecodeLength(s: seq<byte>): Option<(nat, seq<byte>)> {
    var r := ReadLength(s);
    if r.None? then None
    else if s[0] > 0x80 && (r.value.0 < 0x80 || s[1] == 0) then None
    else r
  }

  /** The content of an element with the given tag, and the bytes after it. */
  function DecodeTlv(tag: byte, s: seq<byte>): Option<(seq<byte>, seq<byte>)> {
    if s == [] || s[0] != tag then None
    else
      var r := DecodeLength(s[1..]);
      if r.None? || |r.value.1| < r.value.0 then None
      else Some((r.value.1[..r.value.0], r.value.1[r.value.0..]))
  }

  /** X.690 section 8.3: at least one octet, the fewest possible, and here non-negative. */
  function DecodeInteger(s: seq<byte>): Option<(nat, seq<byte>)> {
    var r := DecodeTlv(ASN_INTEGER, s);
    if r.None? then None
    else
      var c := r.value.0;
      if c == [] || c[0] >= 0x80 || (|c| > 1 && c[0] == 0 && c[1] < 0x80) then None
      else Some((ToNat(c), r.value.1))
  }

  /** A SEQUENCE of two INTEGERs and nothing else. */
  function DecodeParams(s: seq<byte>): Option<((nat, nat), seq<byte>)> {
    var q := DecodeTlv(ASN_SEQUENCE_CONSTRUCTED, s);
    if q.None? then None
    else
      var p := DecodeInteger(q.value.0);
      if p.None? then None
      else
        var g := DecodeInteger(p.value.1);
        if g.None? || g.value.1 != [] then None
        else Some(((p.value.0, g.value.0), q.value.1))
  }

  datatype PrivateKeyInfo = PrivateKeyInfo(version: nat, oid: seq<byte>, p: nat, g: nat, x: nat)

  function DecodeAlgorithm(s: seq<byte>): Option<(seq<byte>, (nat, nat))> {
    var oid := DecodeTlv(ASN_OBJECT_ID, s);
    if oid.None? then None
    else
      var params := DecodeParams(oid.value.1);
      if params.None? || params.value.1 != [] then None
      else Some((oid.value.0, params.value.0))
  }

  /** The privateKey OCTET STRING: one INTEGER and nothing after it, inside or outside. */
  function DecodeKeyOctets(s: seq<byte>): Option<nat> {
    var key := DecodeTlv(ASN_OCTET_STRING, s);
    if key.None? || key.value.1 != [] then None
    else
      var x := DecodeInteger(key.value.0);
      if x.None? || x.value.1 != [] then None else Some(x.value.0)
  }

  /** Every nested length must frame its content exactly, with nothing left over at any level. */
  function DecodePrivKeyContent(s: seq<byte>): Option<PrivateKeyInfo> {
    var version := DecodeInteger(s);
    if version.None? then None
    else
      var alg := DecodeTlv(ASN_SEQUENCE_CONSTRUCTED, version.value.1);
      if alg.None? then None
      else
        match (DecodeAlgorithm(alg.value.0), DecodeKeyOctets(alg.value.1))
        case (Some((oid, (p, g))), Some(x)) => Some(PrivateKeyInfo(version.value.0, oid, p, g, x))
        case _ => None
  }

  function DecodePrivKey(s: seq<byte>): Option<PrivateKeyInfo> {
    var r := DecodeTlv(ASN_SEQUENCE_CONSTRUCTED, s);
    if r.None? || r.value.1 != [] then None else DecodePrivKeyContent(r.value.0)
  }

  // ---------------------------------------------------------------- lengths

  lemma {:induction false} FixedBigEndianValue(v: nat, j: nat)
    requires j <= 3
    ensures ToNat(FixedBigEndian(v, j)) == v % Pow256(j)
  {
    PowValues();
    if j > 0 {
      FixedBigEndianValue(v / 256, j - 1);
      var s := FixedBigEndian(v, j);
      assert s[..|s| - 1] == FixedBigEndian(v / 256, j - 1);
      assert ToNat(s) == ToNat(FixedBigEndian(v / 256, j - 1)) * 256 + v % 256;
      hide ToNat, FixedBigEndian, Pow256;
      LowBytes(v);
      assert j == 1 || j == 2 || j == 3;
    }
  }

  lemma PowValues()
    ensures Pow256(0) == 1 && Pow256(1) == 256 && Pow256(2) == 0x1_0000 && Pow256(3) == LENGTH_LIMIT
  {
  }

  lemma LowBytes(v: nat)
    ensures v / 256 % 256 * 256 + v % 256 == v % 0x1_0000
    ensures v / 256 % 0x1_0000 * 256 + v % 256 == v % 0x100_0000
  {
    LowTwo(v, v / 256, v % 256, v / 256 / 256, v / 256 % 256);
    LowThree(v, v / 256, v % 256, v / 256 / 0x1_0000, v / 256 % 0x1_0000);
  }

  lemma LowTwo(v: int, q: int, r: int, a: int, b: int)
    requires v == q * 256 + r && 0 <= r < 256 && q == a * 256 + b && 0 <= b < 256
    ensures v % 0x1_0000 == b * 256 + r
  {
    assert v == a * 0x1_0000 + (b * 256 + r);
  }

  lemma LowThree(v: int, q: int, r: int, a: int, b: int)
    requires v == q * 256 + r && 0 <= r < 256 && q == a * 0x1_0000 + b && 0 <= b < 0x1_0000
    ensures v % 0x100_0000 == b * 256 + r
  {
    assert v == a * 0x100_0000 + (b * 256 + r);
  }

  /** The most significant of the bytes comes first. */
  lemma {:induction false} FixedBigEndianHead(v: nat, j: nat)
    requires 0 < j <= 3
    ensures FixedBigEndian(v, j) == [v / Pow256(j - 1) % 256] + FixedBigEndian(v, j - 1)
  {
    PowValues();
    if j > 1 {
      FixedBigEndianHead(v / 256, j - 1);
    } else {
      assert FixedBigEndian(v / 256, 0) == [];
    }
  }

  lemma ReadLong(k: nat, digits: seq<byte>, suffix: seq<byte>)
    requires 0 < k < 127 && |digits| == k
    ensures ReadLength([0x80 + k] + digits + suffix) == Some((ToNat(digits), suffix))
  {
    hide ToNat;
    var s := [0x80 + k] + digits + suffix;
    assert s[0] == 0x80 + k;
    assert s[1..1 + k] == digits && s[1 + k..] == suffix;
  }

  /** What any reader recovers from the length octets: the length modulo 2^24. */
  lemma LengthReadsModulo(n: nat, suffix: seq<byte>)
    ensures ReadLength(LengthOctets(n) + suffix) == Some((n % LENGTH_LIMIT, suffix))
  {
    hide BytePrecision, FixedBigEndian, ToNat, Pow256;
    if n < ASN_LONG_LENGTH {
      hide LengthOctets;
      ShortLength(n);
      assert ([n] + suffix)[1..] == suffix;
    } else {
      hide ReadLength;
      var k := BytePrecision(n);
      PowValues();
      ReadLong(k, FixedBigEndian(n, k), suffix);
      FixedBigEndianValue(n, k);
    }
  }

  lemma ShortLength(n: nat)
    requires n < ASN_LONG_LENGTH
    ensures LengthOctets(n) == [n]
  {
  }

  /** The first of the length octets after the count is not zero. */
  lemma LengthOctetsMinimal(n: nat)
    requires ASN_LONG_LENGTH <= n < LENGTH_LIMIT
    ensures |LengthOctets(n)| > 1 && LengthOctets(n)[1] != 0
  {
    var k := BytePrecision(n);
    PowValues();
    FixedBigEndianHead(n, k);
  }

  /** A strict reader recovers the length exactly when it is below 2^24. */
  lemma LengthRoundTrip(n: nat, suffix: seq<byte>)
    ensures DecodeLength(LengthOctets(n) + suffix) == Some((n, suffix)) <==> n < LENGTH_LIMIT
  {
    hide LengthOctets, ToNat;
    LengthReadsModulo(n, suffix);
    var s := LengthOctets(n) + suffix;
    assert s[0] == LengthOctets(n)[0];
    if ASN_LONG_LENGTH <= n < LENGTH_LIMIT {
      LengthOctetsMinimal(n);
      assert s[1] == LengthOctets(n)[1];
    }
  }

  lemma LongFormOf(t: seq<byte>)
    requires t != [] && t[0] != 0 && ASN_LONG_LENGTH <= ToNat(t) < LENGTH_LIMIT
    ensures |t| < 127 && LengthOctets(ToNat(t)) == [ASN_LONG_LENGTH + |t|] + t
  {
    hide ToNat, FixedBigEndian, BytePrecision, Pow256, LengthOctets;
    PrecisionOfValue(t);
    FixedBigEndianToNat(t);
    LongLength(ToNat(t));
  }

  lemma LongLength(n: nat)
    requires n >= ASN_LONG_LENGTH
    ensures LengthOctets(n) == [ASN_LONG_LENGTH + BytePrecision(n)] + FixedBigEndian(n, BytePrecision(n))
  {
    hide FixedBigEndian, BytePrecision;
  }

  /** The form is unique: whatever a strict reader accepts as a length below 2^24 is what is written. */
  lemma LengthCanonical(s: seq<byte>)
    requires DecodeLength(s).Some?
    requires DecodeLength(s).value.0 < LENGTH_LIMIT
    ensures s == LengthOctets(DecodeLength(s).value.0) + DecodeLength(s).value.1
  {
    hide ToNat, LengthOctets;
    var n, after := DecodeLength(s).value.0, DecodeLength(s).value.1;
    if s[0] >= 0x80 {
      var k := s[0] - 0x80;
      var t := s[1..1 + k];
      assert t[0] == s[1];
      LongFormOf(t);
      assert s == [s[0]] + t + after;
    } else {
      ShortLength(n);
      assert s == [n] + after;
    }
  }

  lemma PrecisionOfValue(t: seq<byte>)
    requires t != [] && t[0] != 0 && ToNat(t) < LENGTH_LIMIT
    ensures |t| == BytePrecision(ToNat(t))
  {
    ToNatBounds(t);
    PowValues();
    if |t| > 4 { PowMonotone(3, |t| - 1); }
  }

  lemma {:induction false} PowMonotone(a: nat, b: nat)
    requires a <= b
    ensures Pow256(a) <= Pow256(b)
  {
    if a < b { PowMonotone(a, b - 1); }
  }

  lemma {:induction false} FixedBigEndianToNat(t: seq<byte>)
    ensures FixedBigEndian(ToNat(t), |t|) == t
  {
    if t != [] {
      var init, low := t[..|t| - 1], t[|t| - 1];
      FixedBigEndianToNat(init);
      assert ToNat(t) == ToNat(init) * 256 + low;
      hide ToNat;
      assert ToNat(t) / 256 == ToNat(init) && ToNat(t) % 256 == low;
      assert t == init + [low];
    }
  }

  // ---------------------------------------------------------------- elements

  lemma TlvRoundTrip(tag: byte, content: seq<byte>, rest: seq<byte>)
    requires |content| < LENGTH_LIMIT
    ensures DecodeTlv(tag, Tlv(tag, content) + rest) == Some((content, rest))
  {
    hide DecodeLength, LengthOctets;
    var s := Tlv(tag, content) + rest;
    LengthRoundTrip(|content|, content + rest);
    assert s[1..] == LengthOctets(|content|) + (content + rest);
  }

  /** From 2^24 content bytes on, an element no longer frames its content: a reader stops short. */
  lemma TlvTooLong(tag: byte, content: seq<byte>, rest: seq<byte>)
    requires |content| >= LENGTH_LIMIT
    ensures var r := DecodeTlv(tag, Tlv(tag, content) + rest);
            r.Some? ==> |r.value.1| > |rest|
  {
    hide LengthOctets, ReadLength, ToNat;
    var s := Tlv(tag, content) + rest;
    LengthReadsModulo(|content|, content + rest);
    assert s[1..] == LengthOctets(|content|) + (content + rest);
  }

  /** The INTEGER written for a number reads back as that number, followed by the same bytes, exactly
      when the number is positive (zero has empty content) and its content stays below 2^24 bytes. */
  lemma IntegerExact(n: nat, rest: seq<byte>)
    ensures DecodeInteger(IntegerTlv(n) + rest) == Some((n, rest)) <==>
            n > 0 && |IntegerContent(n)| < LENGTH_LIMIT
  {
    hide DecodeTlv, Tlv, IntegerContent;
    if |IntegerContent(n)| < LENGTH_LIMIT {
      IntegerRoundTrip(n, rest);
    } else {
      TlvTooLong(ASN_INTEGER, IntegerContent(n), rest);
    }
  }

  /** The INTEGER writer round-trips exactly the positive numbers: zero has empty content. */
  lemma IntegerRoundTrip(n: nat, rest: seq<byte>)
    requires |IntegerContent(n)| < LENGTH_LIMIT
    ensures DecodeInteger(IntegerTlv(n) + rest) == if n > 0 then Some((n, rest)) else None
  {
    TlvRoundTrip(ASN_INTEGER, IntegerContent(n), rest);
    ToNatFromNat(n);
    ToNatLeadingZero(FromNat(n));
  }

  /** Any element a strict reader accepts with content below 2^24 bytes is what is written for it. */
  lemma TlvCanonical(tag: byte, s: seq<byte>)
    requires DecodeTlv(tag, s).Some?
    requires |DecodeTlv(tag, s).value.0| < LENGTH_LIMIT
    ensures s == Tlv(tag, DecodeTlv(tag, s).value.0) + DecodeTlv(tag, s).value.1
  {
    hide DecodeLength, LengthOctets;
    var t := s[1..];
    LengthCanonical(t);
    var n, after := DecodeLength(t).value.0, DecodeLength(t).value.1;
    assert s == [tag] + (LengthOctets(n) + after);
    assert after == after[..n] + after[n..];
  }

  /** The INTEGER form is unique too: every positive INTEGER a strict reader accepts is what is written. */
  lemma IntegerCanonical(s: seq<byte>)
    requires DecodeInteger(s).Some?
    requires DecodeInteger(s).value.0 > 0 && |DecodeTlv(ASN_INTEGER, s).value.0| < LENGTH_LIMIT
    ensures s == IntegerTlv(DecodeInteger(s).value.0) + DecodeInteger(s).value.1
  {
    IntegerContentCanonical(DecodeTlv(ASN_INTEGER, s).value.0);
    TlvCanonical(ASN_INTEGER, s);
  }

  lemma IntegerContentCanonical(c: seq<byte>)
    requires c != [] && c[0] < 0x80 && !(|c| > 1 && c[0] == 0 && c[1] < 0x80) && ToNat(c) > 0
    ensures IntegerContent(ToNat(c)) == c
  {
    hide FromNat;
    if c[0] == 0 {
      var t := c[1..];
      assert c == [0] + t;
      ToNatLeadingZero(t);
      assert ToNat([]) == 0;
      hide ToNat;
      FromNatToNat(t);
    } else {
      hide ToNat;
      FromNatToNat(c);
    }
  }

  // ---------------------------------------------------------------- DH structures

  lemma ParamsRoundTrip(p: nat, g: nat, rest: seq<byte>)
    requires |IntegerTlv(p)| + |IntegerTlv(g)| < LENGTH_LIMIT
    ensures DecodeParams(ParamsTlv(p, g) + rest) == if p > 0 && g > 0 then Some(((p, g), rest)) else None
  {
    TlvRoundTrip(ASN_SEQUENCE_CONSTRUCTED, IntegerTlv(p) + IntegerTlv(g), rest);
    IntegerRoundTrip(p, IntegerTlv(g));
    IntegerRoundTrip(g, []);
    assert IntegerTlv(g) + [] == IntegerTlv(g);
  }

  lemma AlgorithmRoundTrip(p: nat, g: nat)
    requires |AlgorithmContent(p, g)| < LENGTH_LIMIT
    ensures DecodeAlgorithm(AlgorithmContent(p, g)) == if p > 0 && g > 0 then Some((KEY_DH_OID, (p, g))) else None
  {
    TlvRoundTrip(ASN_OBJECT_ID, KEY_DH_OID, ParamsTlv(p, g));
    ParamsRoundTrip(p, g, []);
    assert ParamsTlv(p, g) + [] == ParamsTlv(p, g);
  }

  lemma VersionRoundTrip(rest: seq<byte>)
    ensures DecodeInteger([ASN_INTEGER, 1, 0] + rest) == Some((0, rest))
  {
    var s := [ASN_INTEGER, 1, 0] + rest;
    assert s[1..][1..] == [0] + rest;
    assert ToNat([0]) == 0 by { assert [0] == [0] + []; ToNatLeadingZero([]); }
    assert ([0] + rest)[..1] == [0] && ([0] + rest)[1..] == rest;
  }

  lemma KeyOctetsRoundTrip(x: nat)
    requires |IntegerTlv(x)| < LENGTH_LIMIT
    ensures DecodeKeyOctets(Tlv(ASN_OCTET_STRING, IntegerTlv(x))) == if x > 0 then Some(x) else None
  {
    var key := Tlv(ASN_OCTET_STRING, IntegerTlv(x));
    TlvRoundTrip(ASN_OCTET_STRING, IntegerTlv(x), []);
    assert key + [] == key && IntegerTlv(x) + [] == IntegerTlv(x);
    IntegerRoundTrip(x, []);
  }

  lemma ContentReads(algorithm: seq<byte>, key: seq<byte>, content: seq<byte>)
    requires |algorithm| < LENGTH_LIMIT
    requires content == [ASN_INTEGER, 1, 0] + Tlv(ASN_SEQUENCE_CONSTRUCTED, algorithm) + key
    ensures DecodeInteger(content) == Some((0, Tlv(ASN_SEQUENCE_CONSTRUCTED, algorithm) + key))
    ensures DecodeTlv(ASN_SEQUENCE_CONSTRUCTED, Tlv(ASN_SEQUENCE_CONSTRUCTED, algorithm) + key) ==
            Some((algorithm, key))
  {
    var alg := Tlv(ASN_SEQUENCE_CONSTRUCTED, algorithm);
    assert content == [ASN_INTEGER, 1, 0] + (alg + key);
    VersionRoundTrip(alg + key);
    TlvRoundTrip(ASN_SEQUENCE_CONSTRUCTED, algorithm, key);
  }

  /** What a strict reader sees in the content of the private key. */
  lemma PrivKeyContentDecodes(p: nat, g: nat, x: nat)
    requires |PrivKeyContent(p, g, x)| < LENGTH_LIMIT
    ensures DecodePrivKeyContent(PrivKeyContent(p, g, x)) ==
            if p > 0 && g > 0 && x > 0 then Some(PrivateKeyInfo(0, KEY_DH_OID, p, g, x)) else None
  {
    ContentReads(AlgorithmContent(p, g), Tlv(ASN_OCTET_STRING, IntegerTlv(x)), PrivKeyContent(p, g, x));
    AlgorithmRoundTrip(p, g);
    KeyOctetsRoundTrip(x);
  }

  /** The written private key reads back as version 0, dhKeyAgreement, p, g and x, with every
      nested length framing its content and no byte left over, exactly when all three numbers
      are positive and the outermost content stays below 2^24 bytes. */
  lemma PrivKeyRoundTrip(p: nat, g: nat, x: nat)
    ensures DecodePrivKey(PrivKeyTlv(p, g, x)) == Some(PrivateKeyInfo(0, KEY_DH_OID, p, g, x)) <==>
            p > 0 && g > 0 && x > 0 && |PrivKeyContent(p, g, x)| < LENGTH_LIMIT
  {
    var s := PrivKeyTlv(p, g, x);
    if |PrivKeyContent(p, g, x)| < LENGTH_LIMIT {
      TlvRoundTrip(ASN_SEQUENCE_CONSTRUCTED, PrivKeyContent(p, g, x), []);
      assert s + [] == s;
      PrivKeyContentDecodes(p, g, x);
    } else {
      TlvTooLong(ASN_SEQUENCE_CONSTRUCTED, PrivKeyContent(p, g, x), []);
      assert s + [] == s;
    }
  }

  /** The same for the parameters alone. */
  lemma ParamsExact(p: nat, g: nat)
    ensures DecodeParams(ParamsTlv(p, g)) == Some(((p, g), [])) <==>
            p > 0 && g > 0 && |IntegerTlv(p)| + |IntegerTlv(g)| < LENGTH_LIMIT
  {
    if |IntegerTlv(p)| + |IntegerTlv(g)| < LENGTH_LIMIT {
      ParamsRoundTrip(p, g, []);
      assert ParamsTlv(p, g) + [] == ParamsTlv(p, g);
    } else {
      TlvTooLong(ASN_SEQUENCE_CONSTRUCTED, IntegerTlv(p) + IntegerTlv(g), []);
      assert ParamsTlv(p, g) + [] == ParamsTlv(p, g);
    }
  }

  // ---------------------------------------------------------------- uniqueness

  lemma TlvShorter(tag: byte, s: seq<byte>)
    requires DecodeTlv(tag, s).Some?
    ensures |DecodeTlv(tag, s).value.0| + |DecodeTlv(tag, s).value.1| < |s|
  {
    hide ToNat;
  }

  /** A strict INTEGER zero is a single zero octet. */
  lemma ZeroCanonical(s: seq<byte>)
    requires |s| < LENGTH_LIMIT && DecodeInteger(s).Some? && DecodeInteger(s).value.0 == 0
    ensures s == [ASN_INTEGER, 1, 0] + DecodeInteger(s).value.1
  {
    TlvShorter(ASN_INTEGER, s);
    TlvCanonical(ASN_INTEGER, s);
    hide DecodeTlv;
    var c := DecodeTlv(ASN_INTEGER, s).value.0;
    ZeroContent(c);
    ShortLength(1);
  }

  lemma ZeroContent(c: seq<byte>)
    requires c != [] && !(|c| > 1 && c[0] == 0 && c[1] < 0x80) && ToNat(c) == 0
    ensures c == [0]
  {
    ToNatBounds(c);
    assert c[0] == 0;
    var t := c[1..];
    assert c == [0] + t;
    ToNatLeadingZero(t);
    ToNatBounds(t);
  }

  lemma ParamsCanonical(s: seq<byte>)
    requires |s| < LENGTH_LIMIT && DecodeParams(s).Some?
    requires DecodeParams(s).value.0.0 > 0 && DecodeParams(s).value.0.1 > 0
    ensures s == ParamsTlv(DecodeParams(s).value.0.0, DecodeParams(s).value.0.1) + DecodeParams(s).value.1
  {
    TlvShorter(ASN_SEQUENCE_CONSTRUCTED, s);
    TlvCanonical(ASN_SEQUENCE_CONSTRUCTED, s);
    var c := DecodeTlv(ASN_SEQUENCE_CONSTRUCTED, s).value.0;
    hide Tlv;
    PositiveCanonical(c);
    var rest := DecodeInteger(c).value.1;
    PositiveCanonical(rest);
    hide DecodeInteger, DecodeTlv, IntegerTlv;
    assert rest == IntegerTlv(DecodeInteger(rest).value.0);
  }

  lemma PositiveCanonical(s: seq<byte>)
    requires |s| < LENGTH_LIMIT && DecodeInteger(s).Some? && DecodeInteger(s).value.0 > 0
    ensures s == IntegerTlv(DecodeInteger(s).value.0) + DecodeInteger(s).value.1
    ensures |DecodeInteger(s).value.1| < |s|
  {
    TlvShorter(ASN_INTEGER, s);
    hide DecodeTlv;
    IntegerCanonical(s);
  }

  lemma AlgorithmCanonical(s: seq<byte>)
    requires |s| < LENGTH_LIMIT && DecodeAlgorithm(s).Some?
    requires var a := DecodeAlgorithm(s).value; a.0 == KEY_DH_OID && a.1.0 > 0 && a.1.1 > 0
    ensures s == AlgorithmContent(DecodeAlgorithm(s).value.1.0, DecodeAlgorithm(s).value.1.1)
  {
    TlvShorter(ASN_OBJECT_ID, s);
    TlvCanonical(ASN_OBJECT_ID, s);
    var rest := DecodeTlv(ASN_OBJECT_ID, s).value.1;
    hide DecodeTlv, Tlv, DecodeParams, ParamsTlv;
    ParamsCanonical(rest);
    var g := DecodeParams(rest).value.0;
    assert ParamsTlv(g.0, g.1) + [] == ParamsTlv(g.0, g.1);
  }

  lemma KeyOctetsCanonical(s: seq<byte>)
    requires |s| < LENGTH_LIMIT && DecodeKeyOctets(s).Some? && DecodeKeyOctets(s).value > 0
    ensures s == Tlv(ASN_OCTET_STRING, IntegerTlv(DecodeKeyOctets(s).value))
  {
    TlvShorter(ASN_OCTET_STRING, s);
    TlvCanonical(ASN_OCTET_STRING, s);
    var key := DecodeTlv(ASN_OCTET_STRING, s).value.0;
    hide DecodeTlv, Tlv, IntegerTlv;
    PositiveCanonical(key);
    hide DecodeInteger;
    var x := DecodeKeyOctets(s).value;
    assert IntegerTlv(x) + [] == IntegerTlv(x) && key == IntegerTlv(x);
    assert Tlv(ASN_OCTET_STRING, key) + [] == Tlv(ASN_OCTET_STRING, key);
  }

  lemma PrivKeyContentCanonical(s: seq<byte>, info: PrivateKeyInfo)
    requires |s| < LENGTH_LIMIT && DecodePrivKeyContent(s) == Some(info)
    requires info.version == 0 && info.oid == KEY_DH_OID && info.p > 0 && info.g > 0 && info.x > 0
    ensures s == PrivKeyContent(info.p, info.g, info.x)
  {
    hide DecodeInteger, DecodeTlv, Tlv, DecodeAlgorithm, DecodeKeyOctets, AlgorithmContent, IntegerTlv;
    ZeroCanonical(s);
    var r := DecodeInteger(s).value.1;
    TlvShorter(ASN_SEQUENCE_CONSTRUCTED, r);
    TlvCanonical(ASN_SEQUENCE_CONSTRUCTED, r);
    var (alg, key) := DecodeTlv(ASN_SEQUENCE_CONSTRUCTED, r).value;
    AlgorithmCanonical(alg);
    KeyOctetsCanonical(key);
    assert [ASN_INTEGER, 1, 0] + (Tlv(ASN_SEQUENCE_CONSTRUCTED, alg) + key) ==
           [ASN_INTEGER, 1, 0] + Tlv(ASN_SEQUENCE_CONSTRUCTED, alg) + key;
  }

  /** Of the byte strings a strict reader takes for a private key, the written ones are exactly those
      of version 0 and dhKeyAgreement with three positive numbers and content below 2^24 bytes: for
      such a key no other encoding is accepted. */
  lemma PrivKeyUnique(s: seq<byte>, info: PrivateKeyInfo)
    requires DecodePrivKey(s) == Some(info)
    ensures s == PrivKeyTlv(info.p, info.g, info.x) <==>
            && info == PrivateKeyInfo(0, KEY_DH_OID, info.p, info.g, info.x)
            && info.p > 0 && info.g > 0 && info.x > 0
            && |DecodeTlv(ASN_SEQUENCE_CONSTRUCTED, s).value.0| < LENGTH_LIMIT
  {
    hide DecodePrivKeyContent, PrivKeyContent, DecodeTlv, Tlv;
    var c := DecodeTlv(ASN_SEQUENCE_CONSTRUCTED, s).value.0;
    if s == PrivKeyTlv(info.p, info.g, info.x) {
      PrivKeyReads(s, info);
    }
    if |c| < LENGTH_LIMIT && info == PrivateKeyInfo(0, KEY_DH_OID, info.p, info.g, info.x) &&
       info.p > 0 && info.g > 0 && info.x > 0
    {
      TlvCanonical(ASN_SEQUENCE_CONSTRUCTED, s);
      PrivKeyContentCanonical(c, info);
      assert Tlv(ASN_SEQUENCE_CONSTRUCTED, c) + [] == Tlv(ASN_SEQUENCE_CONSTRUCTED, c);
    }
  }

  /** A written private key that reads back at all has its content below 2^24 bytes, and reads back as
      what was written. */
  lemma PrivKeyReads(s: seq<byte>, info: PrivateKeyInfo)
    requires DecodePrivKey(s) == Some(info) && s == PrivKeyTlv(info.p, info.g, info.x)
    ensures info == PrivateKeyInfo(0, KEY_DH_OID, info.p, info.g, info.x)
    ensures info.p > 0 && info.g > 0 && info.x > 0
    ensures |DecodeTlv(ASN_SEQUENCE_CONSTRUCTED, s).value.0| < LENGTH_LIMIT
  {
    hide DecodePrivKeyContent, PrivKeyContent, DecodeTlv, Tlv;
    var content := PrivKeyContent(info.p, info.g, info.x);
    assert s + [] == s;
    if |content| < LENGTH_LIMIT {
      TlvRoundTrip(ASN_SEQUENCE_CONSTRUCTED, content, []);
      PrivKeyContentDecodes(info.p, info.g, info.x);
    } else {
      TlvTooLong(ASN_SEQUENCE_CONSTRUCTED, content, []);
    }
  }

  // ---------------------------------------------------------------- object identifiers and examples

  /** X.690 section 8.19.2: one subidentifier, seven bits an octet, the last octet below 128 and the
      first not 0x80. */
  function ReadArc(s: seq<byte>, high: nat): Option<(nat, seq<byte>)> {
    if s == [] || (high == 0 && s[0] == 0x80) then None
    else if s[0] < 0x80 then Some((high * 128 + s[0], s[1..]))
    else ReadArc(s[1..], high * 128 + s[0] - 0x80)
  }

  function ReadArcs(s: seq<byte>): Option<seq<nat>>
    decreases |s|
  {
    if s == [] then Some([])
    else
      match ReadArc(s, 0)
      case None => None
      case Some((arc, rest)) =>
        if |rest| >= |s| then None
        else
          match ReadArcs(rest)
          case None => None
          case Some(arcs) => Some([arc] + arcs)
  }

  /** X.690 section 8.19.4: the first subidentifier holds two arcs. */
  function DecodeOid(s: seq<byte>): Option<seq<nat>> {
    match ReadArcs(s)
    case None => None
    case Some(arcs) =>
      if arcs == [] then None
      else
        var a := Min(arcs[0] / 40, 2);
        Some([a, arcs[0] - 40 * a] + arcs[1..])
  }

  lemma ArcsNext(s: seq<byte>, arc: nat, rest: seq<byte>, arcs: seq<nat>)
    requires s != [] && ReadArc(s, 0) == Some((arc, rest)) && |rest| < |s| && ReadArcs(rest) == Some(arcs)
    ensures ReadArcs(s) == Some([arc] + arcs)
  {
  }

  lemma LowArcs()
    ensures ReadArcs([1, 3, 1]) == Some([1, 3, 1])
  {
    hide ReadArcs;
    NoArcs();
    var s1: seq<byte>, s2: seq<byte>, s3: seq<byte> := [1], [3, 1], [1, 3, 1];
    assert s1[1..] == [] && s2[1..] == s1 && s3[1..] == s2;
    ArcsNext(s1, 1, [], []);
    assert [1] + [] == [1];
    ArcsNext(s2, 3, s1, [1]);
    assert [3] + [1] == [3, 1];
    ArcsNext(s3, 1, s2, [3, 1]);
    assert [1] + [3, 1] == [1, 3, 1];
  }

  lemma RsadsiArcs(low: seq<byte>, arcs: seq<nat>)
    requires ReadArcs(low) == Some(arcs)
    ensures ReadArcs([134, 247, 13] + low) == Some([113549] + arcs)
  {
    hide ReadArcs;
    var s := [134, 247, 13] + low;
    assert s[1..][1..][1..] == low;
    assert ReadArc(s[1..][1..], 6 * 128 + 119) == Some((113549, low));
    assert ReadArc(s[1..], 6) == Some((113549, low));
    ArcsNext(s, 113549, low, arcs);
  }

  lemma UsArcs(low: seq<byte>, arcs: seq<nat>)
    requires ReadArcs(low) == Some(arcs)
    ensures ReadArcs([42, 134, 72] + low) == Some([42, 840] + arcs)
  {
    hide ReadArcs;
    var s, t := [42, 134, 72] + low, [134, 72] + low;
    assert s[1..] == t && t[1..][1..] == low;
    assert ReadArc(t[1..], 6) == Some((840, low));
    ArcsNext(t, 840, low, arcs);
    ArcsNext(s, 42, t, [840] + arcs);
    assert [42] + ([840] + arcs) == [42, 840] + arcs;
  }

  /** The identifier written is dhKeyAgreement of PKCS #3 section 10. */
  lemma DhOid()
    ensures DecodeOid(KEY_DH_OID) == Some([1, 2, 840, 113549, 1, 3, 1])
  {
    hide ReadArcs, ReadArc;
    LowArcs();
    RsadsiArcs([1, 3, 1], [1, 3, 1]);
    UsArcs([134, 247, 13] + [1, 3, 1], [113549] + [1, 3, 1]);
    assert KEY_DH_OID == [42, 134, 72] + ([134, 247, 13] + [1, 3, 1]);
    var arcs := [42, 840] + ([113549] + [1, 3, 1]);
    assert arcs[1..] == [840, 113549, 1, 3, 1];
    assert [1, 2] + arcs[1..] == [1, 2, 840, 113549, 1, 3, 1];
  }

  lemma NoArcs()
    ensures ReadArcs([]) == Some([])
  {
  }

  /** So a key that reads back is declared a Diffie-Hellman key. */
  lemma PrivKeyDeclared(p: nat, g: nat, x: nat)
    requires p > 0 && g > 0 && x > 0 && |PrivKeyContent(p, g, x)| < LENGTH_LIMIT
    ensures DecodePrivKey(PrivKeyTlv(p, g, x)).Some?
    ensures DecodeOid(DecodePrivKey(PrivKeyTlv(p, g, x)).value.oid) == Some([1, 2, 840, 113549, 1, 3, 1])
  {
    hide DecodePrivKey, PrivKeyTlv, PrivKeyContent, DecodeOid;
    PrivKeyRoundTrip(p, g, x);
    DhOid();
  }

  lemma ShortInteger(n: byte)
    requires 0 < n < 128
    ensures IntegerTlv(n) == [0x02, 1, n]
  {
    assert FromNat(0) == [];
    assert FromNat(n) == [n];
    ShortLength(1);
  }

  /** Some encodings byte by byte: a long length, a number that needs the zero octet, one that does not,
      and the key p = 23, g = 5, x = 6. */
  lemma Examples()
    ensures LengthOctets(300) == [0x82, 0x01, 0x2C]
    ensures IntegerTlv(0x80) == [0x02, 0x02, 0x00, 0x80]
    ensures IntegerTlv(0x1234) == [0x02, 0x02, 0x12, 0x34]
    ensures PrivKeyTlv(23, 5, 6) ==
            [0x30, 0x1D] +
            ([0x02, 0x01, 0x00, 0x30, 0x13] +
             [0x06, 0x09, 0x2A, 0x86, 0x48, 0x86, 0xF7, 0x0D, 0x01, 0x03, 0x01,
              0x30, 0x06, 0x02, 0x01, 0x17, 0x02, 0x01, 0x05] +
             [0x04, 0x03, 0x02, 0x01, 0x06])
  {
    LongExample();
    IntegerExamples();
    KeyExample();
  }

  lemma LongExample()
    ensures LengthOctets(300) == [0x82, 0x01, 0x2C]
  {
    assert BytePrecision(300) == 2;
    assert FixedBigEndian(1, 1) == [1];
    assert FixedBigEndian(300, 2) == [1, 0x2C];
  }

  lemma IntegerExamples()
    ensures IntegerTlv(0x80) == [0x02, 0x02, 0x00, 0x80]
    ensures IntegerTlv(0x1234) == [0x02, 0x02, 0x12, 0x34]
  {
    assert FromNat(0) == [];
    assert FromNat(0x80) == [0x80];
    assert FromNat(0x12) == [0x12];
    assert FromNat(0x1234) == [0x12, 0x34];
    ShortLength(2);
  }

  lemma ParamsExample()
    ensures ParamsTlv(23, 5) == [0x30, 0x06, 0x02, 0x01, 0x17, 0x02, 0x01, 0x05]
  {
    ShortInteger(23);
    ShortInteger(5);
    hide IntegerTlv, Tlv;
    ShortTlv(0x30, [0x02, 0x01, 0x17, 0x02, 0x01, 0x05]);
  }

  lemma AlgorithmExample()
    ensures AlgorithmContent(23, 5) ==
            [0x06, 0x09, 0x2A, 0x86, 0x48, 0x86, 0xF7, 0x0D, 0x01, 0x03, 0x01,
             0x30, 0x06, 0x02, 0x01, 0x17, 0x02, 0x01, 0x05]
  {
    ParamsExample();
    hide ParamsTlv, Tlv;
    ShortTlv(0x06, [0x2A, 0x86, 0x48, 0x86, 0xF7, 0x0D, 0x01, 0x03, 0x01]);
  }

  lemma KeyExample()
    ensures PrivKeyTlv(23, 5, 6) ==
            [0x30, 0x1D] +
            ([0x02, 0x01, 0x00, 0x30, 0x13] +
             [0x06, 0x09, 0x2A, 0x86, 0x48, 0x86, 0xF7, 0x0D, 0x01, 0x03, 0x01,
              0x30, 0x06, 0x02, 0x01, 0x17, 0x02, 0x01, 0x05] +
             [0x04, 0x03, 0x02, 0x01, 0x06])
  {
    AlgorithmExample();
    ShortInteger(6);
    hide AlgorithmContent, IntegerTlv, Tlv;
    var algorithm := AlgorithmContent(23, 5);
    ShortTlv(0x30, algorithm);
    ShortTlv(0x04, [0x02, 0x01, 0x06]);
    hide PrivKeyContent;
    ContentExample(algorithm, PrivKeyContent(23, 5, 6));
    ShortTlv(0x30, PrivKeyContent(23, 5, 6));
  }

  lemma ContentExample(algorithm: seq<byte>, content: seq<byte>)
    requires |algorithm| == 19 && algorithm == AlgorithmContent(23, 5) && content == PrivKeyContent(23, 5, 6)
    ensures content == [0x02, 0x01, 0x00, 0x30, 0x13] + algorithm + [0x04, 0x03, 0x02, 0x01, 0x06]
  {
    hide AlgorithmContent, IntegerTlv, Tlv;
    ShortInteger(6);
    ShortTlv(0x30, algorithm);
    ShortTlv(0x04, [0x02, 0x01, 0x06]);
  }

  lemma ShortTlv(tag: byte, content: seq<byte>)
    requires |content| < 128
    ensures Tlv(tag, content) == [tag, |content|] + content
  {
    ShortLength(|content|);
  }
}
