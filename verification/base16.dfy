/** Base16 text (RFC 4648 section 8) as the library decodes it: either case, even length. */
module Base16 {
  import opened Bytes

  /** wolfCLU_isHexDigit. */
  predicate IsHexDigit(c: byte) {
    48 <= c <= 57 || 97 <= c <= 102 || 65 <= c <= 70
  }

  function HexValue(c: byte): (v: nat)
    requires IsHexDigit(c)
    ensures v < 16
  {
    if c <= 57 then c - 48 else if c >= 97 then c - 87 else c - 55
  }

  /** Base16_Decode. */
  function Base16Decode(s: seq<byte>): (r: Option<seq<byte>>)
    ensures r.Some? ==> |s| == 2 * |r.value|
  {
    if s == [] then Some([])
    else if |s| == 1 || !IsHexDigit(s[0]) || !IsHexDigit(s[1]) then None
    else
      match Base16Decode(s[2..])
      case None => None
      case Some(rest) => Some([HexValue(s[0]) * 16 + HexValue(s[1])] + rest)
  }

  /** `text` spells `bytes` in hex, digit by digit, in any mixture of cases. */
  ghost predicate SpellsHex(text: seq<byte>, bytes: seq<byte>) {
    && |text| == 2 * |bytes|
    && (forall i :: 0 <= i < |text| ==> IsHexDigit(text[i]))
    && (forall i :: 0 <= i < |bytes| ==> bytes[i] == HexValue(text[2 * i]) * 16 + HexValue(text[2 * i + 1]))
  }

  lemma SpellsRest(text: seq<byte>, bytes: seq<byte>)
    requires bytes != [] && SpellsHex(text, bytes)
    ensures SpellsHex(text[2..], bytes[1..])
  {
    hide HexValue, IsHexDigit;
    var t, b := text[2..], bytes[1..];
    assert forall i :: 0 <= i < |t| ==> t[i] == text[i + 2];
    forall i | 0 <= i < |b| ensures b[i] == HexValue(t[2 * i]) * 16 + HexValue(t[2 * i + 1]) {
      assert b[i] == bytes[i + 1] && t[2 * i] == text[2 * (i + 1)] && t[2 * i + 1] == text[2 * (i + 1) + 1];
    }
  }

  lemma SpellsMore(text: seq<byte>, bytes: seq<byte>)
    requires |text| == 2 * |bytes| && bytes != [] && SpellsHex(text[2..], bytes[1..])
    requires IsHexDigit(text[0]) && IsHexDigit(text[1]) && bytes[0] == HexValue(text[0]) * 16 + HexValue(text[1])
    ensures SpellsHex(text, bytes)
  {
    hide HexValue, IsHexDigit;
    var t, b := text[2..], bytes[1..];
    forall i | 0 <= i < |text| ensures IsHexDigit(text[i]) {
      assert i >= 2 ==> text[i] == t[i - 2];
    }
    forall i | 0 <= i < |bytes| ensures bytes[i] == HexValue(text[2 * i]) * 16 + HexValue(text[2 * i + 1]) {
      if i >= 1 {
        assert bytes[i] == b[i - 1] && text[2 * i] == t[2 * (i - 1)] && text[2 * i + 1] == t[2 * (i - 1) + 1];
      }
    }
  }

  /** What decoding returns is what the text spells. */
  lemma {:induction false} DecodedSpells(text: seq<byte>)
    requires Base16Decode(text).Some?
    ensures SpellsHex(text, Base16Decode(text).value)
    decreases |text|
  {
    if text != [] {
      DecodedSpells(text[2..]);
      var bytes := Base16Decode(text).value;
      assert bytes[1..] == Base16Decode(text[2..]).value;
      SpellsMore(text, bytes);
    }
  }

  /** Whatever spells something decodes to it. */
  lemma {:induction false} SpelledDecodes(text: seq<byte>, bytes: seq<byte>)
    requires SpellsHex(text, bytes)
    ensures Base16Decode(text) == Some(bytes)
    decreases |text|
  {
    if bytes != [] {
      SpellsRest(text, bytes);
      SpelledDecodes(text[2..], bytes[1..]);
      assert bytes[0] == HexValue(text[2 * 0]) * 16 + HexValue(text[2 * 0 + 1]);
      assert bytes == [bytes[0]] + bytes[1..];
    }
  }

  /** Decoding succeeds exactly on the texts that spell something, and returns what they spell. */
  lemma DecodeSpells(text: seq<byte>, bytes: seq<byte>)
    ensures Base16Decode(text) == Some(bytes) <==> SpellsHex(text, bytes)
  {
    hide SpellsHex;
    if Base16Decode(text) == Some(bytes) {
      DecodedSpells(text);
    }
    if SpellsHex(text, bytes) {
      SpelledDecodes(text, bytes);
    }
  }

  /** It fails exactly on an odd length or a byte that is not a hex digit. */
  lemma {:induction false} DecodeDefined(text: seq<byte>)
    ensures Base16Decode(text).Some? <==> |text| % 2 == 0 && forall i :: 0 <= i < |text| ==> IsHexDigit(text[i])
    decreases |text|
  {
    if |text| >= 2 {
      var t := text[2..];
      DecodeDefined(t);
      assert text == [text[0], text[1]] + t;
      assert (forall i :: 0 <= i < |text| ==> IsHexDigit(text[i])) <==>
             IsHexDigit(text[0]) && IsHexDigit(text[1]) && forall i :: 0 <= i < |t| ==> IsHexDigit(t[i]) by {
        assert forall i :: 0 <= i < |t| ==> t[i] == text[i + 2];
        assert forall i :: 2 <= i < |text| ==> text[i] == t[i - 2];
      }
    }
  }

  // ---------------------------------------------------------------- the digits

  /** The two alphabets of RFC 4648 section 8, digit by digit. */
  function DigitFor(n: nat, upper: bool): (c: byte)
    requires n < 16
  {
    if upper then Ascii("0123456789ABCDEF")[n] else Ascii("0123456789abcdef")[n]
  }

  /** Each digit stands for its place in the alphabet, in either case. */
  lemma DigitWorth(n: nat, upper: bool)
    requires n < 16
    ensures IsHexDigit(DigitFor(n, upper)) && HexValue(DigitFor(n, upper)) == n
  {
    var lower, higher := "0123456789abcdef", "0123456789ABCDEF";
    assert lower[n] as int == if n < 10 then 48 + n else 87 + n;
    assert higher[n] as int == if n < 10 then 48 + n else 55 + n;
  }

  /** Nothing else is a hex digit. */
  lemma DigitsOnly(c: byte)
    ensures IsHexDigit(c) <==> c in Ascii("0123456789abcdef") || c in Ascii("0123456789ABCDEF")
  {
    var lower, higher := Ascii("0123456789abcdef"), Ascii("0123456789ABCDEF");
    if IsHexDigit(c) {
      var n := if c <= 57 then c - 48 else if c >= 97 then c - 87 else c - 55;
      DigitWorth(n, 65 <= c <= 70);
      assert c == DigitFor(n, 65 <= c <= 70);
    }
    forall n: nat | n < 16 ensures IsHexDigit(lower[n]) && IsHexDigit(higher[n]) {
      DigitWorth(n, false);
      DigitWorth(n, true);
    }
  }

  /** The hex text of some bytes, the case of each digit chosen freely. */
  function HexText(bytes: seq<byte>, upper: nat -> bool): (text: seq<byte>)
    ensures |text| == 2 * |bytes|
  {
    if bytes == [] then []
    else
      var n, b := |bytes| - 1, bytes[|bytes| - 1];
      HexText(bytes[..n], upper) + [DigitFor(b / 16, upper(2 * n)), DigitFor(b % 16, upper(2 * n + 1))]
  }

  /** The text spells the bytes. */
  lemma {:induction false} HexTextSpells(bytes: seq<byte>, upper: nat -> bool)
    ensures SpellsHex(HexText(bytes, upper), bytes)
  {
    hide HexValue, IsHexDigit, DigitFor;
    if bytes != [] {
      var n, b := |bytes| - 1, bytes[|bytes| - 1];
      HexTextSpells(bytes[..n], upper);
      DigitWorth(b / 16, upper(2 * n));
      DigitWorth(b % 16, upper(2 * n + 1));
      var text, front := HexText(bytes, upper), HexText(bytes[..n], upper);
      assert forall i :: 0 <= i < 2 * n ==> text[i] == front[i];
      assert forall i :: 0 <= i < n ==> bytes[..n][i] == bytes[i];
      assert text[2 * n] == DigitFor(b / 16, upper(2 * n)) && text[2 * n + 1] == DigitFor(b % 16, upper(2 * n + 1));
    }
  }

  /** Decoding the hex text of any bytes, in any mixture of cases, returns the bytes. */
  lemma HexRoundTrip(bytes: seq<byte>, upper: nat -> bool)
    ensures Base16Decode(HexText(bytes, upper)) == Some(bytes)
  {
    hide SpellsHex, Base16Decode, HexText;
    HexTextSpells(bytes, upper);
    SpelledDecodes(HexText(bytes, upper), bytes);
  }
}
