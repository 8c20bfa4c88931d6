/** Bytes, C integers and big-endian numbers shared by every model. */
module Bytes {

  /** An octet. */
  type byte = b: int | 0 <= b < 256

  datatype Option<+T> = None | Some(value: T)

  /** The bytes of a text in ASCII. */
  function Ascii(text: string): (s: seq<byte>)
    requires forall i :: 0 <= i < |text| ==> text[i] as int < 256
    ensures |s| == |text| && forall i :: 0 <= i < |text| ==> s[i] == text[i] as int
  {
    seq(|text|, i requires 0 <= i < |text| => text[i] as int)
  }

  /** The value a C `int` holds after a conversion from a wider integer: the one value in its range that
      differs by a multiple of 2^32. */
  function Int32(n: int): (r: int)
    ensures (n - r) % 0x1_0000_0000 == 0
    ensures -0x8000_0000 <= r < 0x8000_0000
    ensures -0x8000_0000 <= n < 0x8000_0000 ==> r == n
  {
    var m := n % 0x1_0000_0000;
    if m < 0x8000_0000 then m else m - 0x1_0000_0000
  }

  function Min(a: int, b: int): int {
    if a <= b then a else b
  }

  /** The C string held in a buffer: everything before the first NUL. */
  function CStr(s: seq<byte>): (r: seq<byte>)
    ensures 0 !in r && r <= s
    ensures |r| == |s| || s[|r|] == 0
    ensures 0 !in s ==> r == s
  {
    if s == [] || s[0] == 0 then [] else [s[0]] + CStr(s[1..])
  }

  /** `s` with the bytes from `off` on overwritten by `bs`. */
  function Splice(s: seq<byte>, off: nat, bs: seq<byte>): (r: seq<byte>)
    requires off + |bs| <= |s|
    ensures |r| == |s|
  {
    s[..off] + bs + s[off + |bs|..]
  }

  /** Byte by byte, what is overwritten and what stays. */
  lemma SpliceAt(s: seq<byte>, off: nat, bs: seq<byte>, i: nat)
    requires off + |bs| <= |s| && i < |s|
    ensures Splice(s, off, bs)[i] == if off <= i < off + |bs| then bs[i - off] else s[i]
  {
  }

  /** Two adjacent writes through a cursor are one write of the concatenation. */
  lemma SpliceAppend(s: seq<byte>, off: nat, a: seq<byte>, b: seq<byte>)
    requires off + |a| + |b| <= |s|
    ensures Splice(Splice(s, off, a), off + |a|, b) == Splice(s, off, a + b)
  {
  }

  lemma SpliceHead(s: seq<byte>, bs: seq<byte>)
    requires |bs| <= |s|
    ensures Splice(s, 0, bs)[..|bs|] == bs
  {
  }

  /** Big-endian value of a byte string. */
  function ToNat(s: seq<byte>): nat {
    if s == [] then 0 else ToNat(s[..|s| - 1]) * 256 + s[|s| - 1]
  }

  /** Minimal big-endian bytes of a number; zero has no bytes at all. */
  function FromNat(n: nat): (s: seq<byte>)
    ensures n == 0 <==> s == []
  {
    if n == 0 then [] else FromNat(n / 256) + [n % 256]
  }

  lemma {:induction false} ToNatFromNat(n: nat)
    ensures ToNat(FromNat(n)) == n
    ensures n > 0 ==> FromNat(n)[0] != 0
  {
    if n > 0 {
      ToNatFromNat(n / 256);
      var s := FromNat(n);
      assert s[..|s| - 1] == FromNat(n / 256);
    }
  }

  /** A leading zero octet does not change the value. */
  lemma {:induction false} ToNatLeadingZero(s: seq<byte>)
    ensures ToNat([0] + s) == ToNat(s)
  {
    var z := [0] + s;
    if s != [] {
      ToNatLeadingZero(s[..|s| - 1]);
      assert z[..|z| - 1] == [0] + s[..|s| - 1];
    } else {
      assert z[..0] == [];
    }
  }

  /** The first byte is the most significant one. */
  lemma {:induction false} ToNatBigEndian(b: byte, s: seq<byte>)
    ensures ToNat([b] + s) == b * Pow256(|s|) + ToNat(s)
  {
    var t := [b] + s;
    if s != [] {
      var init := s[..|s| - 1];
      ToNatBigEndian(b, init);
      assert t[..|t| - 1] == [b] + init;
      assert Pow256(|s|) == 256 * Pow256(|init|);
      assert 256 * (b * Pow256(|init|)) == b * (256 * Pow256(|init|));
    } else {
      assert t[..0] == [];
    }
  }

  /** Bytes without a leading zero are the minimal bytes of their own value. */
  lemma {:induction false} FromNatToNat(s: seq<byte>)
    requires s == [] || s[0] != 0
    ensures FromNat(ToNat(s)) == s
  {
    if s != [] {
      var t := s[..|s| - 1];
      FromNatToNat(t);
      assert t == [] ==> ToNat(t) == 0;
      assert s == t + [s[|s| - 1]];
      assert ToNat(s) != 0;
    }
  }

  function Pow256(k: nat): (r: nat)
    ensures r > 0
  {
    if k == 0 then 1 else 256 * Pow256(k - 1)
  }

  /** The value of `k` bytes is below 256^k, and at least 256^(k-1) without a leading zero. */
  lemma {:induction false} ToNatBounds(s: seq<byte>)
    ensures ToNat(s) < Pow256(|s|)
    ensures s != [] && s[0] != 0 ==> Pow256(|s| - 1) <= ToNat(s)
  {
    if s != [] {
      ToNatBounds(s[..|s| - 1]);
    }
  }

  /** A number below 256^k has at most k bytes. */
  lemma {:induction false} FromNatSize(n: nat, k: nat)
    requires n < Pow256(k)
    ensures |FromNat(n)| <= k
  {
    if n > 0 {
      FromNatSize(n / 256, k - 1);
    }
  }

  /** XMEMCPY, and the effect of the library calls that fill part of a caller's buffer. */
  method CopyInto(output: array<byte>, at: nat, bs: seq<byte>)
    requires at + |bs| <= output.Length
    modifies output
    ensures output[..] == Splice(old(output[..]), at, bs)
  {
    for k := 0 to |bs|
      invariant forall i :: 0 <= i < output.Length ==>
                              output[i] == if at <= i < at + k then bs[i - at] else old(output[i])
    {
      output[at + k] := bs[k];
    }
  }
}
