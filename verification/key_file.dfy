/** Reading a key from a file: wolfCLU_loadHexKeyInto and the -inkey option of
    src/crypto/clu_crypto_setup.c. */
module KeyFile {
  import opened Bytes
  import opened Environment
  import opened Base16
  import opened HexToBin
  import opened Files

  /** Carriage return, newline, space, tab. */
  predicate IsSpace(c: byte) {
    c == 13 || c == 10 || c == 32 || c == 9
  }

  predicate AllHexOrSpace(s: seq<byte>) {
    forall i :: 0 <= i < |s| ==> IsSpace(s[i]) || IsHexDigit(s[i])
  }

  /** The text with all whitespace taken out. */
  function Strip(s: seq<byte>): seq<byte> {
    if s == [] then []
    else
      var c := s[|s| - 1];
      if IsSpace(c) then Strip(s[..|s| - 1]) else Strip(s[..|s| - 1]) + [c]
  }

  /** The key a file gives for an algorithm with `keyBytes` key bytes. */
  function KeyInFile(content: seq<byte>, keyBytes: nat): Option<seq<byte>> {
    if content == [] then None
    else if AllHexOrSpace(content) then
      if |Strip(content)| != 2 * keyBytes then None else Base16Decode(Strip(content))
    else if |content| != keyBytes then None
    else Some(content)
  }

  // ---------------------------------------------------------------- what the rule means

  /** Whitespace may stand anywhere in the text. */
  lemma {:induction false} StripAppend(a: seq<byte>, b: seq<byte>)
    ensures Strip(a + b) == Strip(a) + Strip(b)
  {
    if b == [] {
      assert a + b == a;
    } else {
      var init := b[..|b| - 1];
      StripAppend(a, init);
      assert (a + b)[..|a + b| - 1] == a + init;
    }
  }

  lemma {:induction false} StripSpace(ws: seq<byte>)
    requires forall i :: 0 <= i < |ws| ==> IsSpace(ws[i])
    ensures Strip(ws) == []
  {
    if ws != [] {
      StripSpace(ws[..|ws| - 1]);
    }
  }

  lemma {:induction false} StripKeeps(s: seq<byte>)
    requires forall i :: 0 <= i < |s| ==> !IsSpace(s[i])
    ensures Strip(s) == s
  {
    if s != [] {
      StripKeeps(s[..|s| - 1]);
    }
  }

  /** The four whitespace bytes. */
  lemma SpacesOnly(c: byte)
    ensures IsSpace(c) <==> c in Ascii(" \t\r\n")
  {
    var spaces := Ascii(" \t\r\n");
    assert spaces[0] == 32 && spaces[1] == 9 && spaces[2] == 13 && spaces[3] == 10;
  }

  predicate HexTextByte(c: byte) {
    c in Ascii(" \t\r\n") || c in Ascii("0123456789abcdef") || c in Ascii("0123456789ABCDEF")
  }

  /** Hex text is made of the hex digits of either case and the four whitespace bytes, and of nothing
      else. */
  lemma HexTextAlphabet(s: seq<byte>)
    ensures AllHexOrSpace(s) <==> forall i :: 0 <= i < |s| ==> HexTextByte(s[i])
  {
    hide IsSpace, IsHexDigit;
    forall i | 0 <= i < |s| ensures IsSpace(s[i]) || IsHexDigit(s[i]) <==> HexTextByte(s[i]) {
      SpacesOnly(s[i]);
      DigitsOnly(s[i]);
    }
  }

  lemma SpaceAnywhere(a: seq<byte>, ws: seq<byte>, b: seq<byte>, keyBytes: nat)
    requires forall i :: 0 <= i < |ws| ==> ws[i] in Ascii(" \t\r\n")
    requires AllHexOrSpace(a) && AllHexOrSpace(b) && a + b != []
    ensures KeyInFile(a + ws + b, keyBytes) == KeyInFile(a + b, keyBytes)
  {
    forall i | 0 <= i < |ws| ensures IsSpace(ws[i]) {
      SpacesOnly(ws[i]);
    }
    hide Base16Decode, Strip, IsSpace, IsHexDigit;
    StripAppend(a + ws, b);
    StripAppend(a, ws);
    StripAppend(a, b);
    StripSpace(ws);
    assert Strip(a) + [] + Strip(b) == Strip(a) + Strip(b);
    assert AllHexOrSpace(a + ws + b) && AllHexOrSpace(a + b);
  }

  /** A hex file loads exactly the keys of the right size that its digits spell. */
  lemma HexFileLoads(text: seq<byte>, keyBytes: nat, key: seq<byte>)
    requires text != [] && AllHexOrSpace(text)
    ensures KeyInFile(text, keyBytes) == Some(key) <==> |key| == keyBytes && SpellsHex(Strip(text), key)
  {
    hide SpellsHex, Base16Decode, Strip;
    DecodeSpells(Strip(text), key);
    SpelledLength(Strip(text), key);
  }

  lemma SpelledLength(text: seq<byte>, bytes: seq<byte>)
    ensures SpellsHex(text, bytes) ==> |text| == 2 * |bytes|
  {
  }

  /** The hex text of any key, in any mixture of cases, loads that key. */
  lemma HexKeyRoundTrip(key: seq<byte>, upper: nat -> bool)
    requires key != []
    ensures KeyInFile(HexText(key, upper), |key|) == Some(key)
  {
    hide SpellsHex, Base16Decode, HexText, Strip, IsSpace, IsHexDigit;
    var text := HexText(key, upper);
    HexRoundTrip(key, upper);
    DecodeDefined(text);
    forall i | 0 <= i < |text| ensures !IsSpace(text[i]) {
      SpaceNoDigit(text[i]);
    }
    StripKeeps(text);
  }

  lemma SpaceNoDigit(c: byte)
    ensures !(IsSpace(c) && IsHexDigit(c))
  {
  }

  /** A raw key written to a file loads back exactly when some byte of it is neither a hex digit nor
      whitespace. A key made of such bytes only is taken for hex text of half its size and refused. */
  lemma RawKeyRoundTrip(key: seq<byte>)
    requires key != []
    ensures KeyInFile(key, |key|) == Some(key) <==> !AllHexOrSpace(key)
    ensures AllHexOrSpace(key) ==> KeyInFile(key, |key|).None?
  {
    StripShorter(key);
  }

  lemma {:induction false} StripShorter(s: seq<byte>)
    ensures |Strip(s)| <= |s|
  {
    if s != [] {
      StripShorter(s[..|s| - 1]);
    }
  }

  // ---------------------------------------------------------------- the code

  /** Decodes through a buffer of the decoder's own and copies the result into the caller's key. */
  method LoadHexKeyInto(env: Env, keyOut: array<byte>, keyBytes: nat, hex: seq<byte>) returns (ret: int)
    requires keyBytes <= keyOut.Length && 0 !in hex
    modifies env, keyOut
    ensures env.live == old(env.live) && env.Since(old(env.faults))
    ensures env.faults == old(env.faults) ==>
              (ret == SUCCESS <==> |hex| == 2 * keyBytes && Base16Decode(hex).Some?)
    ensures ret == SUCCESS ==>
              && |hex| == 2 * keyBytes && Base16Decode(hex).Some?
              && keyOut[..] == Splice(old(keyOut[..]), 0, Base16Decode(hex).value)
    ensures ret != SUCCESS ==> keyOut[..] == old(keyOut[..]) && (ret == MEMORY_E || ret == FATAL_ERROR)
    ensures ret == MEMORY_E ==> env.faults > old(env.faults)
  {
    hide Base16Decode, Splice, CStr;
    if |hex| != keyBytes * 2 {
      return FATAL_ERROR;
    }
    var hexCopy := env.Malloc(|hex| + 1);
    if hexCopy == null {
      return MEMORY_E;
    }
    SpliceHead(hexCopy[..], hex);
    CopyInto(hexCopy, 0, hex);
    assert hexCopy[..|hex|] == hex;
    hexCopy[|hex|] := 0;
    CStrOfPrefix(hexCopy[..], hex);
    var tmp, tmpSz;
    ret, tmp, tmpSz := ConvertOne(env, CStr(hexCopy[..]));
    env.Free(hexCopy);
    if ret != SUCCESS {
      return if ret == MEMORY_E then MEMORY_E else FATAL_ERROR;
    }
    CopyInto(keyOut, 0, tmp[..keyBytes]);
    assert tmp[..keyBytes] == tmp[..];
    env.Free(tmp);
  }

  /** The scan that tells hex from raw. */
  method ScanIsHex(fileBuf: array<byte>, fileLen: nat) returns (isHex: bool)
    requires fileLen == fileBuf.Length
    ensures isHex <==> AllHexOrSpace(fileBuf[..])
  {
    hide IsSpace, IsHexDigit;
    isHex := true;
    for i := 0 to fileLen
      invariant isHex && forall j :: 0 <= j < i ==> IsSpace(fileBuf[j]) || IsHexDigit(fileBuf[j])
    {
      var c := fileBuf[i];
      if IsSpace(c) {
        continue;
      }
      if !IsHexDigit(c) {
        isHex := false;
        assert !(IsSpace(fileBuf[..][i]) || IsHexDigit(fileBuf[..][i]));
        break;
      }
    }
  }

  /** The loop that drops whitespace: it agrees with the scan on what whitespace is. */
  method CopyNonSpace(fileBuf: array<byte>, keyString: array<byte>) returns (j: nat)
    requires fileBuf != keyString && fileBuf.Length < keyString.Length
    modifies keyString
    ensures j < keyString.Length && keyString[..j] == Strip(fileBuf[..]) && keyString[j] == 0
  {
    hide IsSpace;
    j := 0;
    for i := 0 to fileBuf.Length
      invariant j <= i && keyString[..j] == Strip(fileBuf[..i])
    {
      var c := fileBuf[i];
      assert fileBuf[..i + 1][..i] == fileBuf[..i];
      if IsSpace(c) {
        continue;
      }
      keyString[j] := c;
      assert keyString[..j + 1] == keyString[..j] + [c];
      j := j + 1;
    }
    assert fileBuf[..fileBuf.Length] == fileBuf[..];
    keyString[j] := 0;
  }

  /** The -inkey option. When nothing fails around it, it loads exactly the key KeyInFile names, and
      otherwise leaves the key buffer alone; every temporary block is released either way. A file that
      is not hex text loads verbatim exactly when it has the key length. */
  method LoadKeyFile(env: Env, content: seq<byte>, key: array<byte>, keySize: nat) returns (ret: int)
    requires (keySize + 7) / 8 <= key.Length
    modifies env, key
    ensures env.live == old(env.live) && env.Since(old(env.faults))
    ensures env.faults == old(env.faults) ==>
              match KeyInFile(content, (keySize + 7) / 8)
              case None => ret == FATAL_ERROR && key[..] == old(key[..])
              case Some(k) => ret == SUCCESS && key[..] == Splice(old(key[..]), 0, k)
    ensures env.faults == old(env.faults) && !AllHexOrSpace(content) ==>
              if |content| == (keySize + 7) / 8 then
                ret == SUCCESS && key[..] == Splice(old(key[..]), 0, content)
              else
                ret == FATAL_ERROR
    ensures ret != SUCCESS ==> key[..] == old(key[..])
  {
    assert AllHexOrSpace([]);
    hide Base16Decode, AllHexOrSpace, Strip;
    var keyBytes := (keySize + 7) / 8;
    var failed := env.Fails();
    if failed {
      return FATAL_ERROR;
    }
    var fileLen := |content|;
    if fileLen <= 0 {
      return FATAL_ERROR;
    }
    var fileBuf := env.Malloc(fileLen);
    if fileBuf == null {
      return FATAL_ERROR;
    }
    CopyInto(fileBuf, 0, content);
    assert fileBuf[..] == content;
    failed := env.Fails();
    if failed {
      env.Free(fileBuf);
      return FATAL_ERROR;
    }
    var isHex := ScanIsHex(fileBuf, fileLen);
    if isHex {
      ret := LoadHexText(env, fileBuf, key, keyBytes);
      env.Free(fileBuf);
    } else {
      if fileLen != keyBytes {
        env.Free(fileBuf);
        return FATAL_ERROR;
      }
      CopyInto(key, 0, fileBuf[..fileLen]);
      assert fileBuf[..fileLen] == content;
      env.Free(fileBuf);
      ret := SUCCESS;
    }
  }

  /** Hex text without its whitespace is a string of hex digits. */
  lemma {:induction false} StripHex(s: seq<byte>)
    requires AllHexOrSpace(s)
    ensures forall c :: c in Strip(s) ==> IsHexDigit(c)
  {
    hide IsHexDigit, IsSpace;
    if s != [] {
      StripHex(s[..|s| - 1]);
    }
  }

  /** The branch for hex text. */
  method LoadHexText(env: Env, fileBuf: array<byte>, key: array<byte>, keyBytes: nat) returns (ret: int)
    requires keyBytes <= key.Length && fileBuf != key && AllHexOrSpace(fileBuf[..])
    modifies env, key
    ensures env.live == old(env.live) && env.Since(old(env.faults))
    ensures env.faults == old(env.faults) ==>
              if |Strip(fileBuf[..])| == 2 * keyBytes && Base16Decode(Strip(fileBuf[..])).Some? then
                ret == SUCCESS && key[..] == Splice(old(key[..]), 0, Base16Decode(Strip(fileBuf[..])).value)
              else
                ret == FATAL_ERROR && key[..] == old(key[..])
    ensures ret != SUCCESS ==> key[..] == old(key[..])
  {
    hide Base16Decode, Strip, Splice;
    var keyString := env.Malloc(fileBuf.Length + 1);
    if keyString == null {
      return FATAL_ERROR;
    }
    var j := CopyNonSpace(fileBuf, keyString);
    StripHex(fileBuf[..]);
    ret := LoadHexKeyInto(env, key, keyBytes, keyString[..j]);
    env.Free(keyString);
  }
}
