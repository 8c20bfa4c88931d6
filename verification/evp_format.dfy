/** The stream format of wolfCLU_evp_crypto: an optional "Salted__" header, then one run of a
    streaming cipher, optionally all of it in Base64. */
module EvpFormat {
  import opened Bytes

  const SALT_SIZE: nat := 8
  const MAX_BUFFER: nat := 1024
  const AES_BLOCK_SIZE: nat := 16
  const INT_LIMIT: nat := 0x8000_0000

  const PBKDF2_ITERATIONS: nat := 10000
  const BYTES_TO_KEY_ITERATIONS: nat := 1

  /** The characters of "Salted__". */
  const SALTED: seq<byte> := [83, 97, 108, 116, 101, 100, 95, 95]

  /** A streaming cipher: state from key, IV and direction; Update; Final, which may refuse; and how
      many bytes it encrypts a number of bytes to. */
  datatype Cipher<!S> = Cipher(
    init: (seq<byte>, seq<byte>, bool) -> S,
    update: (S, seq<byte>) -> (S, seq<byte>),
    final: S -> Option<seq<byte>>,
    size: nat -> nat)

  /** Feeds chunk after chunk, collecting what Update puts out. */
  function Feed<S>(c: Cipher<S>, s: S, chunks: seq<seq<byte>>): (S, seq<byte>)
    decreases |chunks|
  {
    if chunks == [] then (s, [])
    else
      var (t, o) := Feed(c, s, chunks[..|chunks| - 1]);
      var (u, p) := c.update(t, chunks[|chunks| - 1]);
      (u, o + p)
  }

  /** Everything Update and Final put out for these chunks. */
  function Run<S>(c: Cipher<S>, s: S, chunks: seq<seq<byte>>): Option<seq<byte>> {
    var (t, o) := Feed(c, s, chunks);
    match c.final(t)
    case None => None
    case Some(p) => Some(o + p)
  }

  function Flatten(chunks: seq<seq<byte>>): seq<byte> {
    if chunks == [] then [] else Flatten(chunks[..|chunks| - 1]) + chunks[|chunks| - 1]
  }

  /** The total output depends on the bytes, not on how they were cut. */
  ghost predicate ChunkingLaw<S(!new)>(c: Cipher<S>) {
    forall s: S, chunks: seq<seq<byte>> :: Run(c, s, chunks) == Run(c, s, [Flatten(chunks)])
  }

  /** One run over the whole data. */
  function Whole<S>(c: Cipher<S>, key: seq<byte>, iv: seq<byte>, enc: bool, data: seq<byte>): Option<seq<byte>> {
    Run(c, c.init(key, iv, enc), [data])
  }

  /** Decryption undoes encryption under the same key and IV. */
  ghost predicate InverseLaw<S>(c: Cipher<S>) {
    forall key: seq<byte>, iv: seq<byte>, data: seq<byte> ::
      var ct := Whole(c, key, iv, true, data);
      ct.Some? && Whole(c, key, iv, false, ct.value) == Some(data)
  }

  /** The length of the data decides that of its encryption: a stream mode keeps it, a padding mode
      adds at most a block. Decryption adds nothing. */
  ghost predicate LengthLaw<S>(c: Cipher<S>) {
    && (forall n: nat :: n <= c.size(n) <= n + AES_BLOCK_SIZE)
    && (forall key: seq<byte>, iv: seq<byte>, data: seq<byte> ::
          var ct := Whole(c, key, iv, true, data);
          ct.Some? ==> |ct.value| == c.size(|data|))
    && (forall key: seq<byte>, iv: seq<byte>, data: seq<byte> ::
          var pt := Whole(c, key, iv, false, data);
          pt.Some? ==> |pt.value| <= |data|)
  }

  /** The password derivations: PBKDF2 (an absent salt is empty) from password, salt, digest, iterations
      and size, and EVP_BytesToKey from the first four. */
  datatype Derivation = Derivation(
    pbkdf2: (seq<byte>, seq<byte>, nat, nat, nat) -> seq<byte>,
    bytesToKey: (seq<byte>, Option<seq<byte>>, nat, nat) -> (seq<byte>, seq<byte>))

  ghost predicate DerivationLaw(d: Derivation, keySz: nat, ivSz: nat) {
    && (forall p: seq<byte>, s: seq<byte>, md: nat, i: nat, n: nat :: |d.pbkdf2(p, s, md, i, n)| == n)
    && (forall p: seq<byte>, s: Option<seq<byte>>, md: nat, i: nat ::
          |d.bytesToKey(p, s, md, i).0| == keySz && |d.bytesToKey(p, s, md, i).1| == ivSz)
  }

  /** Base64 with its line ends, and the length of the text for a number of bytes. */
  datatype Base64 = Base64(
    encode: seq<byte> -> seq<byte>,
    decode: seq<byte> -> Option<seq<byte>>,
    size: nat -> nat)

  ghost predicate Base64Law(b: Base64) {
    && (forall s: seq<byte> :: b.decode(b.encode(s)) == Some(s) && |b.encode(s)| == b.size(|s|))
    && (forall n: nat :: n <= b.size(n) && 3 * b.size(n) <= 5 * n + 15 && (b.size(n) == 0 <==> n == 0))
  }

  datatype Options = Options(pbkdf2: bool, md: nat, isBase64: bool, noSalt: bool, userKey: bool) {
    /** An explicit key acts like -nosalt for the header and the salt. */
    predicate Headerless() {
      noSalt || userKey
    }
  }

  /** Key and IV for a run: the caller's own, or derived from the password. */
  function KeyAndIv(o: Options, d: Derivation, password: seq<byte>, salt: seq<byte>, key: seq<byte>,
                    iv: seq<byte>): (seq<byte>, seq<byte>)
    requires forall p: seq<byte>, s: seq<byte>, md: nat, i: nat, n: nat :: |d.pbkdf2(p, s, md, i, n)| == n
  {
    if o.userKey then (key, iv)
    else if o.pbkdf2 then
      var both := d.pbkdf2(password, if o.Headerless() then [] else salt, o.md, PBKDF2_ITERATIONS, |key| + |iv|);
      (both[..|key|], both[|key|..])
    else d.bytesToKey(password, if o.Headerless() then None else Some(salt), o.md, BYTES_TO_KEY_ITERATIONS)
  }

  function Header(o: Options, salt: seq<byte>): seq<byte> {
    if o.Headerless() then [] else SALTED + salt
  }

  /** What encryption writes before any Base64. */
  function RawStream<S>(c: Cipher<S>, o: Options, d: Derivation, password: seq<byte>, salt: seq<byte>,
                        key: seq<byte>, iv: seq<byte>, data: seq<byte>): seq<byte>
    requires InverseLaw(c) && DerivationLaw(d, |key|, |iv|)
  {
    var (k, v) := KeyAndIv(o, d, password, salt, key, iv);
    Header(o, salt) + Whole(c, k, v, true, data).value
  }

  /** The bytes that a length converted to an int reaches. */
  function Clip(s: seq<byte>): (r: seq<byte>)
    ensures r <= s && (|s| < INT_LIMIT ==> r == s)
    ensures |r| < INT_LIMIT && (r != [] ==> |r| == Int32(|s|))
    ensures INT_LIMIT <= |s| <= 2 * INT_LIMIT ==> r == []
  {
    if Int32(|s|) <= 0 then [] else s[..Int32(|s|)]
  }

  function EncryptedStream<S>(c: Cipher<S>, b: Base64, o: Options, d: Derivation, password: seq<byte>,
                              salt: seq<byte>, key: seq<byte>, iv: seq<byte>, data: seq<byte>): seq<byte>
    requires InverseLaw(c) && DerivationLaw(d, |key|, |iv|)
  {
    var raw := RawStream(c, o, d, password, salt, key, iv, data);
    if o.isBase64 then b.encode(Clip(raw)) else raw
  }

  /** Base64 input must have a positive length as an int, and is read so far. */
  function Unwrapped(b: Base64, o: Options, file: seq<byte>): Option<seq<byte>> {
    if !o.isBase64 then Some(file) else if Int32(|file|) <= 0 then None else b.decode(Clip(file))
  }

  /** The salt read back and the ciphertext after it. */
  function SplitHeader(o: Options, raw: seq<byte>): Option<(seq<byte>, seq<byte>)> {
    if o.Headerless() then Some((seq(SALT_SIZE, i => 0), raw))
    else if |raw| < 2 * SALT_SIZE || raw[..SALT_SIZE] != SALTED then None
    else Some((raw[SALT_SIZE..2 * SALT_SIZE], raw[2 * SALT_SIZE..]))
  }

  function DecryptedStream<S>(c: Cipher<S>, b: Base64, o: Options, d: Derivation, password: seq<byte>,
                              key: seq<byte>, iv: seq<byte>, file: seq<byte>): Option<seq<byte>>
    requires DerivationLaw(d, |key|, |iv|)
  {
    match Unwrapped(b, o, file)
    case None => None
    case Some(raw) => DecryptedFrom(c, o, d, password, key, iv, raw)
  }

  /** Whether Base64 of a stream comes back can be told from the length of the data: the stream must
      have a byte at least, and its text a size that fits an int. */
  predicate Base64Fits<S>(c: Cipher<S>, b: Base64, o: Options, n: nat) {
    var raw := (if o.Headerless() then 0 else 2 * SALT_SIZE) + c.size(n);
    0 < raw && b.size(raw) < INT_LIMIT
  }

  /** Key and IV spelled out, case by case. */
  lemma KeyAndIvCases(o: Options, d: Derivation, password: seq<byte>, salt: seq<byte>, key: seq<byte>, iv: seq<byte>)
    requires DerivationLaw(d, |key|, |iv|)
    ensures var (k, v) := KeyAndIv(o, d, password, salt, key, iv);
            if o.userKey then k == key && v == iv
            else if o.pbkdf2 then
              k + v == d.pbkdf2(password, if o.noSalt then [] else salt, o.md, 10000, |key| + |iv|)
            else (k, v) == d.bytesToKey(password, if o.noSalt then None else Some(salt), o.md, 1)
  {
  }

  /** An encrypted stream spelled out. The salt written in the header is the one the password is
      stretched with; without a header there is none. */
  lemma StreamShape<S>(c: Cipher<S>, b: Base64, o: Options, d: Derivation, password: seq<byte>, salt: seq<byte>,
                       key: seq<byte>, iv: seq<byte>, data: seq<byte>)
    requires InverseLaw(c) && DerivationLaw(d, |key|, |iv|)
    ensures var head := if o.noSalt || o.userKey then [] else Ascii("Salted__") + salt;
            var both := d.pbkdf2(password, if o.noSalt then [] else salt, o.md, 10000, |key| + |iv|);
            var (k, v) := if o.userKey then (key, iv)
                          else if o.pbkdf2 then (both[..|key|], both[|key|..])
                          else d.bytesToKey(password, if o.noSalt then None else Some(salt), o.md, 1);
            var (s, first) := c.update(c.init(k, v, true), data);
            && c.final(s).Some?
            && var raw := head + first + c.final(s).value;
            EncryptedStream(c, b, o, d, password, salt, key, iv, data) ==
            if o.isBase64 then b.encode(Clip(raw)) else raw
  {
    SaltedText();
    var (k, v) := KeyAndIv(o, d, password, salt, key, iv);
    WholeAtOnce(c, k, v, true, data);
    assert Whole(c, k, v, true, data).Some?;
    var (s, first) := c.update(c.init(k, v, true), data);
    var head := Header(o, salt);
    assert head + (first + c.final(s).value) == head + first + c.final(s).value;
  }

  lemma SaltedText()
    ensures SALTED == Ascii("Salted__")
  {
  }

  lemma WholeAtOnce<S>(c: Cipher<S>, key: seq<byte>, iv: seq<byte>, enc: bool, data: seq<byte>)
    ensures var (s, first) := c.update(c.init(key, iv, enc), data);
            Whole(c, key, iv, enc, data) ==
            match c.final(s) case None => None case Some(last) => Some(first + last)
  {
    assert [data][..0] == [];
    var start := c.init(key, iv, enc);
    assert Feed(c, start, []) == (start, []);
    var (s, first) := c.update(start, data);
    assert [] + first == first;
  }

  /** Decrypting with the same password (or the same explicit key and IV) and the same options
      returns the data, for every length and all options, unless Base64 is asked for and does not fit;
      then decryption is refused or what comes back is shorter. */
  lemma StreamRoundTrip<S>(c: Cipher<S>, b: Base64, o: Options, d: Derivation, password: seq<byte>, salt: seq<byte>,
                           key: seq<byte>, iv: seq<byte>, data: seq<byte>)
    requires InverseLaw(c) && LengthLaw(c) && DerivationLaw(d, |key|, |iv|) && Base64Law(b) && |salt| == SALT_SIZE
    ensures var file := EncryptedStream(c, b, o, d, password, salt, key, iv, data);
            var back := DecryptedStream(c, b, o, d, password, key, iv, file);
            && (back == Some(data) <==> !o.isBase64 || Base64Fits(c, b, o, |data|))
            && (back == Some(data) || back == None || |back.value| < |data|)
  {
    hide Whole;
    var raw := RawStream(c, o, d, password, salt, key, iv, data);
    RawLength(c, o, d, password, salt, key, iv, data);
    if !o.isBase64 || |raw| < INT_LIMIT {
      RawComesBack(c, o, d, password, salt, key, iv, data);
    }
    if o.isBase64 && |raw| >= INT_LIMIT && |Clip(raw)| > 0 {
      ClippedIsShorter(c, b, o, d, password, key, iv, Clip(raw));
    }
  }

  /** What decryption makes of a stream once any Base64 is off. */
  function DecryptedFrom<S>(c: Cipher<S>, o: Options, d: Derivation, password: seq<byte>, key: seq<byte>,
                            iv: seq<byte>, raw: seq<byte>): Option<seq<byte>>
    requires DerivationLaw(d, |key|, |iv|)
  {
    match SplitHeader(o, raw)
    case None => None
    case Some((salt, body)) =>
      var (k, v) := KeyAndIv(o, d, password, salt, key, iv);
      Whole(c, k, v, false, body)
  }

  lemma RawLength<S>(c: Cipher<S>, o: Options, d: Derivation, password: seq<byte>, salt: seq<byte>, key: seq<byte>,
                     iv: seq<byte>, data: seq<byte>)
    requires InverseLaw(c) && LengthLaw(c) && DerivationLaw(d, |key|, |iv|) && |salt| == SALT_SIZE
    ensures |RawStream(c, o, d, password, salt, key, iv, data)| ==
            (if o.Headerless() then 0 else 2 * SALT_SIZE) + c.size(|data|)
  {
    hide Whole;
  }

  lemma RawComesBack<S>(c: Cipher<S>, o: Options, d: Derivation, password: seq<byte>, salt: seq<byte>,
                        key: seq<byte>, iv: seq<byte>, data: seq<byte>)
    requires InverseLaw(c) && DerivationLaw(d, |key|, |iv|) && |salt| == SALT_SIZE
    ensures DecryptedFrom(c, o, d, password, key, iv, RawStream(c, o, d, password, salt, key, iv, data)) == Some(data)
  {
    hide Whole;
    var raw := RawStream(c, o, d, password, salt, key, iv, data);
    var zero := seq(SALT_SIZE, i => 0);
    var (k, v) := KeyAndIv(o, d, password, salt, key, iv);
    var ct := Whole(c, k, v, true, data).value;
    assert o.Headerless() ==> raw == ct && KeyAndIv(o, d, password, zero, key, iv) == (k, v);
    assert !o.Headerless() ==> raw == SALTED + salt + ct;
    assert SplitHeader(o, raw) == Some((if o.Headerless() then zero else salt, ct));
  }

  /** Nothing longer than a stream comes out of it. */
  lemma ClippedIsShorter<S>(c: Cipher<S>, b: Base64, o: Options, d: Derivation, password: seq<byte>, key: seq<byte>,
                            iv: seq<byte>, raw: seq<byte>)
    requires LengthLaw(c) && DerivationLaw(d, |key|, |iv|)
    ensures var back := DecryptedFrom(c, o, d, password, key, iv, raw);
            back == None || |back.value| <= |raw|
  {
    hide Whole;
  }

  /** An explicit key makes -nosalt, the password, the digest and the derivation irrelevant, and
      leaves no header on either side. */
  lemma UserKeyIsHeaderless<S>(c: Cipher<S>, o: Options, o': Options, d: Derivation, password: seq<byte>,
                               password': seq<byte>, salt: seq<byte>, salt': seq<byte>, key: seq<byte>,
                               iv: seq<byte>, data: seq<byte>)
    requires InverseLaw(c) && DerivationLaw(d, |key|, |iv|)
    requires o.userKey && o'.userKey
    ensures RawStream(c, o, d, password, salt, key, iv, data) == RawStream(c, o', d, password', salt', key, iv, data)
    ensures Some(RawStream(c, o, d, password, salt, key, iv, data)) == Whole(c, key, iv, true, data)
    ensures SplitHeader(o, data) == SplitHeader(o', data) && SplitHeader(o, data).value.1 == data
  {
    hide Whole;
    var ct := Whole(c, key, iv, true, data).value;
    assert [] + ct == ct;
  }

  /** The simplest stream mode there is. */
  function CopyCipher(): Cipher<bool> {
    Cipher((k, v, enc) => enc, (s: bool, d: seq<byte>) => (s, d), (s: bool) => Some([]), n => n)
  }

  lemma {:induction false} CopyFeeds(s: bool, chunks: seq<seq<byte>>)
    ensures Feed(CopyCipher(), s, chunks) == (s, Flatten(chunks))
  {
    if chunks != [] {
      CopyFeeds(s, chunks[..|chunks| - 1]);
    }
  }

  lemma CopyCopies(key: seq<byte>, iv: seq<byte>, enc: bool, data: seq<byte>)
    ensures Whole(CopyCipher(), key, iv, enc, data) == Some(data)
  {
    CopyFeeds(enc, [data]);
    assert [data][..0] == [];
    assert Flatten([data]) == data && data + [] == data;
  }

  /** The three assumptions on the cipher can be met together. */
  lemma CopyCipherLaws()
    ensures ChunkingLaw(CopyCipher()) && InverseLaw(CopyCipher()) && LengthLaw(CopyCipher())
  {
    var c := CopyCipher();
    forall s: bool, chunks: seq<seq<byte>> ensures Run(c, s, chunks) == Some(Flatten(chunks)) {
      CopyFeeds(s, chunks);
      assert Flatten(chunks) + [] == Flatten(chunks);
    }
    forall d: seq<byte> ensures Flatten([d]) == d {
      assert [d][..0] == [];
    }
    forall key: seq<byte>, iv: seq<byte>, enc: bool, data: seq<byte>
      ensures Whole(c, key, iv, enc, data) == Some(data)
    {
      CopyCopies(key, iv, enc, data);
    }
  }

  function ZeroDerivation(keySz: nat, ivSz: nat): Derivation {
    Derivation((p: seq<byte>, s: seq<byte>, md: nat, i: nat, n: nat) => seq(n, j => 0),
               (p, s, md, i) => (seq(keySz, j => 0), seq(ivSz, j => 0)))
  }

  /** Base64 that changes nothing, for the examples: it keeps the laws. */
  function PlainBase64(): Base64 {
    Base64(s => s, s => Some(s), n => n)
  }

  /** Failing inputs: with all the laws in force, -nosalt and Base64, no data at all is written as an
      empty file, which is refused, and no data of 2^31 bytes or more comes back. */
  lemma Base64Example(password: seq<byte>, salt: seq<byte>, key: seq<byte>, iv: seq<byte>, data: seq<byte>)
    requires |salt| == SALT_SIZE && (data == [] || |data| >= INT_LIMIT)
    ensures var c, d, b := CopyCipher(), ZeroDerivation(|key|, |iv|), PlainBase64();
            var o := Options(true, 0, true, true, false);
            && ChunkingLaw(c) && InverseLaw(c) && LengthLaw(c) && DerivationLaw(d, |key|, |iv|) && Base64Law(b)
            && var file := EncryptedStream(c, b, o, d, password, salt, key, iv, data);
            && (data == [] ==> file == [])
            && DecryptedStream(c, b, o, d, password, key, iv, file) != Some(data)
  {
    CopyCipherLaws();
    var c, d, b := CopyCipher(), ZeroDerivation(|key|, |iv|), PlainBase64();
    var o := Options(true, 0, true, true, false);
    assert Base64Law(b) && DerivationLaw(d, |key|, |iv|);
    assert !Base64Fits(c, b, o, |data|);
    StreamRoundTrip(c, b, o, d, password, salt, key, iv, data);
    RawLength(c, o, d, password, salt, key, iv, data);
  }
}
