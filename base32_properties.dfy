/**
 * What the Base32 specification functions promise: output lengths and
 * alphabet, the 5-bit groups behind each symbol, padding, the leniency of
 * Decode's cleaning step, and the round trip Decode(Encode(data)) == data.
 */
module Base32Properties {
  import opened Wrappers
  import opened CSharp
  import opened BitStream
  import opened Base32
  import Text

  /** The bit stream followed by the zero bits that complete its last group of five. */
  function Filled(bits: seq<bool>): (f: seq<bool>)
    ensures |f| == 5 * ((|bits| + 4) / 5)
    ensures |f| - |bits| < 5 && f[..|bits|] == bits
    ensures forall i :: |bits| <= i < |f| ==> !f[i]
  {
    var f := bits + Zeros((5 - |bits| % 5) % 5);
    assert f[..|bits|] == bits;
    f
  }

  lemma FilledSuffix(bits: seq<bool>)
    requires |bits| >= 5
    ensures Filled(bits[5..]) == Filled(bits)[5..]
    ensures Filled(bits)[..5] == bits[..5]
  {
    assert (|bits| - 5) % 5 == |bits| % 5;
  }

  // ---------------------------------------------------------------------
  // Encode

  /** Symbol k of the output is the digit of the k-th group of five bits, the last group zero-filled. */
  lemma {:induction false} EncodeBitsGroups(bits: seq<bool>, k: nat)
    requires k < |EncodeBits(bits)|
    ensures 5 * k + 5 <= |Filled(bits)|
    ensures EncodeBits(bits)[k] == Digits[Value(Filled(bits)[5 * k..5 * k + 5])]
    decreases |bits|
  {
    EncodeBitsLength(bits);
    if |bits| < 5 {
      assert Filled(bits)[0..5] == bits + Zeros(5 - |bits|);
    } else {
      FilledSuffix(bits);
      if k > 0 {
        EncodeBitsLength(bits[5..]);
        EncodeBitsGroups(bits[5..], k - 1);
        assert Filled(bits)[5 * k..5 * k + 5] == Filled(bits[5..])[5 * (k - 1)..5 * (k - 1) + 5];
      } else {
        assert Filled(bits)[0..5] == Filled(bits)[..5];
      }
    }
  }

  /** Every character of the unpadded output is one of the 32 symbols. */
  lemma EncodeBitsAlphabet(bits: seq<bool>)
    ensures Legal(EncodeBits(bits))
    ensures forall i :: 0 <= i < |EncodeBits(bits)| ==> EncodeBits(bits)[i] in Digits
  {
    CharMapInverse();
    forall i | 0 <= i < |EncodeBits(bits)|
      ensures EncodeBits(bits)[i] in Digits
    {
      EncodeBitsGroups(bits, i);
      Pow2Five();
    }
  }

  /** The lengths of Encode's output: ceil(8n/5) symbols, 26 for a GUID's 16 bytes, nothing for no bytes. */
  lemma EncodeLength(data: seq<byte>)
    ensures |EncodeSpec(data, false)| == (8 * |data| + 4) / 5
    ensures data == [] ==> EncodeSpec(data, false) == "" && EncodeSpec(data, true) == ""
    ensures |data| == 16 ==> |EncodeSpec(data, false)| == 26 && |EncodeSpec(data, true)| == 32
  {
    EncodeBitsLength(BytesToBits(data));
  }

  /** Padding brings a length up to the next multiple of 8 with '=', and adds nothing to a multiple of 8. */
  lemma PaddingLength(n: nat)
    ensures |Padding(n)| < 8 && (n + |Padding(n)|) % 8 == 0
    ensures Padding(n) == "" <==> n % 8 == 0
    ensures forall i :: 0 <= i < |Padding(n)| ==> Padding(n)[i] == '='
  {
  }

  /** The padded output is the unpadded output followed by '=' up to a multiple of 8. */
  lemma EncodePadding(data: seq<byte>)
    ensures |EncodeSpec(data, true)| % 8 == 0
    ensures EncodeSpec(data, true)[..|EncodeSpec(data, false)|] == EncodeSpec(data, false)
    ensures forall i :: |EncodeSpec(data, false)| <= i < |EncodeSpec(data, true)| ==> EncodeSpec(data, true)[i] == '='
    ensures |EncodeSpec(data, false)| % 8 == 0 ==> EncodeSpec(data, true) == EncodeSpec(data, false)
  {
    var s := EncodeSpec(data, false);
    PaddingLength(|s|);
    assert (s + Padding(|s|))[..|s|] == s;
  }

  // ---------------------------------------------------------------------
  // Decode

  /** The first illegal character is the one at the first position whose character is not a symbol. */
  lemma {:induction false} FirstIllegalIsFirst(e: string, c: char)
    ensures FirstIllegal(e) == Some(c) <==> exists i :: 0 <= i < |e| && e[i] == c && e[i] !in CharMap && Legal(e[..i])
  {
    if FirstIllegal(e) == Some(c) {
      if e[0] !in CharMap {
        assert e[..0] == [];
      } else {
        FirstIllegalIsFirst(e[1..], c);
        var i :| 0 <= i < |e[1..]| && e[1..][i] == c && e[1..][i] !in CharMap && Legal(e[1..][..i]);
        assert e[..i + 1] == [e[0]] + e[1..][..i];
        assert e[i + 1] == c && Legal(e[..i + 1]);
      }
    }
    if exists i :: 0 <= i < |e| && e[i] == c && e[i] !in CharMap && Legal(e[..i]) {
      var i :| 0 <= i < |e| && e[i] == c && e[i] !in CharMap && Legal(e[..i]);
      FirstIllegalAt(e, i);
    }
  }

  /** Decode succeeds exactly when the cleaned text is all symbols, and then gives floor(5m/8) bytes. */
  lemma DecodeLength(encoded: string)
    ensures DecodeSpec(encoded).Success? <==> Legal(Clean(encoded))
    ensures DecodeSpec(encoded).Success? ==> |DecodeSpec(encoded).value| == 5 * |Clean(encoded)| / 8
    ensures DecodeSpec(encoded).Failure? ==>
      DecodeSpec(encoded).error.c in Clean(encoded) && DecodeSpec(encoded).error.c !in CharMap
  {
  }

  /** A payload of 26 or 27 symbols decodes to the 16 bytes of a GUID. */
  lemma GuidPayloadLengths(e: string)
    requires Legal(e) && (|e| == 26 || |e| == 27)
    ensures DecodeSpec(e).Success? && |DecodeSpec(e).value| == 16
  {
    CleanSymbols(e);
  }

  /** One symbol is fewer than eight bits: it gives no byte, and Decode does not reject the length. */
  lemma OneSymbol(x: char)
    requires x in CharMap
    ensures SymbolsSpec([x]) == Success([])
  {
    assert [x][1..] == [];
    assert Legal([x]) && |SymbolBits([x])| == 5;
  }

  /**
   * Two symbols give one byte: the five bits of the first and the top three
   * of the second. The low two bits of the second are dropped unchecked.
   */
  lemma TwoSymbols(x: char, y: char)
    requires x in CharMap && y in CharMap
    ensures SymbolsSpec([x, y]).Success?
    ensures SymbolsSpec([x, y]).value == [(CharMap[x] * 8 + CharMap[y] / 4) as byte]
  {
    var vx, vy := CharMap[x], CharMap[y];
    assert vx < 32 && vy < 32;
    assert [x, y][1..] == [y] && [y][1..] == [];
    assert Legal([x, y]) && SymbolBits([x, y]) == Bits(vx, 5) + Bits(vy, 5);
    TwoGroups(vx, vy);
  }

  /** Ten bits, two groups of five, make one byte. */
  lemma TwoGroups(vx: nat, vy: nat)
    requires vx < 32 && vy < 32
    ensures BitsToBytes(Bits(vx, 5) + Bits(vy, 5)) == [(vx * 8 + vy / 4) as byte]
  {
    var bits := Bits(vx, 5) + Bits(vy, 5);
    TopByteOfGroups(vx, vy);
    TenBits(bits);
  }

  /** The first eight of the ten bits are the five of the first group and the top three of the second. */
  lemma TopByteOfGroups(vx: nat, vy: nat)
    requires vx < 32 && vy < 32
    ensures Value((Bits(vx, 5) + Bits(vy, 5))[..8]) == vx * 8 + vy / 4
  {
    var bits := Bits(vx, 5) + Bits(vy, 5);
    TwoGroupsValue(vx, vy);
    ValueSplit(bits, 8);
    assert (vx * 32 + vy) / Pow2(2) == Value(bits[..8]);
    QuarterOfGroups(vx, vy);
  }

  lemma TwoGroupsValue(vx: nat, vy: nat)
    requires vx < 32 && vy < 32
    ensures Value(Bits(vx, 5) + Bits(vy, 5)) == vx * 32 + vy
  {
    GroupValue(vx);
    GroupValue(vy);
    ValueAppend(Bits(vx, 5), Bits(vy, 5));
    Pow2Five();
  }

  lemma QuarterOfGroups(vx: nat, vy: nat)
    requires vy < 32
    ensures (vx * 32 + vy) / Pow2(2) == vx * 8 + vy / 4
  {
    assert Pow2(2) == 4;
    DivModUnique(vx * 32 + vy, 4, vx * 8 + vy / 4, vy % 4);
  }

  lemma TenBits(bits: seq<bool>)
    requires |bits| == 10
    ensures BitsToBytes(bits) == [Value(bits[..8]) as byte]
  {
    Pow2Eight();
    assert |bits[8..]| == 2;
  }

  /**
   * The two bits a pair of symbols leaves over are dropped without a check:
   * "aa" and "ab", say, both decode to the one byte 0.
   */
  lemma LeftoverBitsIgnored(x: char, y: char, z: char)
    requires x in CharMap && y in CharMap && z in CharMap && CharMap[y] / 4 == CharMap[z] / 4
    ensures DecodeSpec([x, y]) == DecodeSpec([x, z])
  {
    assert Legal([x, y]) && Legal([x, z]);
    CleanSymbols([x, y]);
    CleanSymbols([x, z]);
    TwoSymbols(x, y);
    TwoSymbols(x, z);
  }

  /** Text made of symbols comes out of the cleaning step unchanged. */
  lemma CleanSymbols(e: string)
    requires Legal(e)
    ensures Clean(e) == e
  {
    CleanPadded(e, 0);
    assert e + seq(0, _ => '=') == e;
  }

  /** Whitespace around the text does not change what Decode gives. */
  lemma DecodeIgnoresWhiteSpace(w1: string, s: string, w2: string)
    requires Text.AllWhiteSpace(w1) && Text.AllWhiteSpace(w2)
    ensures DecodeSpec(w1 + s + w2) == DecodeSpec(s)
  {
    Text.TrimSurrounded(w1, s, w2);
  }

  /** A '-' anywhere in text without whitespace is dropped. */
  lemma DecodeIgnoresSeparator(a: string, b: string)
    requires Text.NoWhiteSpace(a) && Text.NoWhiteSpace(b)
    ensures DecodeSpec(a + [Separator] + b) == DecodeSpec(a + b)
  {
    var s, t := a + [Separator] + b, a + b;
    assert Text.NoWhiteSpace(s) && Text.NoWhiteSpace(t);
    Text.TrimUnchanged(s);
    Text.TrimUnchanged(t);
    calc {
      Text.RemoveAll(s, Separator);
    == { Text.RemoveAllAppend(a + [Separator], b, Separator); Text.RemoveAllAppend(a, [Separator], Separator); }
      Text.RemoveAll(a, Separator) + Text.RemoveAll([Separator], Separator) + Text.RemoveAll(b, Separator);
    == { assert [Separator][1..] == []; }
      Text.RemoveAll(a, Separator) + [] + Text.RemoveAll(b, Separator);
    == { Text.RemoveAllAppend(a, b, Separator); }
      Text.RemoveAll(t, Separator);
    }
  }

  /** A run of '=' at the end of text without whitespace is dropped. */
  lemma DecodeIgnoresPadding(s: string, n: nat)
    requires Text.NoWhiteSpace(s)
    ensures DecodeSpec(s + seq(n, _ => '=')) == DecodeSpec(s)
  {
    var pad := seq(n, _ => '=');
    var t := s + pad;
    assert Text.NoWhiteSpace(t);
    Text.TrimUnchanged(s);
    Text.TrimUnchanged(t);
    var r := Text.RemoveAll(s, Separator);
    Text.RemoveAllAppend(s, pad, Separator);
    Text.RemoveAllUnchanged(pad, Separator);
    assert '\n' !in s && '\n' !in pad;
    Text.RemoveAllSpec(s, Separator);
    assert '\n' !in r;
    Text.StripTrailingRun(r, n, '=');
    if n > 0 {
      assert (r + pad)[|r + pad| - 1] == '=';
    }
  }

  /** Letter case does not matter: texts that agree up to ASCII case decode alike. */
  lemma DecodeIgnoresCase(a: string, b: string)
    requires Text.SameUpToCase(a, b)
    ensures DecodeSpec(a) == DecodeSpec(b)
  {
    Text.TrimCase(a, b);
    Text.RemoveAllCase(Text.Trim(a), Text.Trim(b), Separator);
    Text.StripPaddingCase(Text.RemoveAll(Text.Trim(a), Separator), Text.RemoveAll(Text.Trim(b), Separator));
    Text.ToLowerAsciiCase(
      Text.StripPadding(Text.RemoveAll(Text.Trim(a), Separator)),
      Text.StripPadding(Text.RemoveAll(Text.Trim(b), Separator)));
  }

  /** Upper-case input decodes as its lower-case form. */
  lemma DecodeUpperCase(s: string)
    ensures DecodeSpec(Text.ToUpperAscii(s)) == DecodeSpec(s)
  {
    Text.ToUpperAsciiSameUpToCase(s);
    DecodeIgnoresCase(Text.ToUpperAscii(s), s);
  }

  /** Cleaning "aa -" removes only its `-`: the space was not at an end when Trim ran. */
  lemma CleanKeepsInnerSpace(s: string)
    requires s == "aa -"
    ensures Clean(s) == "aa "
  {
    assert Text.Trim(s) == s;
    assert Text.RemoveAll("-", Separator) == "" by {
      assert "-"[1..] == "";
    }
    assert Text.RemoveAll(" -", Separator) == " " by {
      assert " -"[1..] == "-";
    }
    assert Text.RemoveAll("a -", Separator) == "a " by {
      assert "a -"[1..] == " -";
    }
    assert s[1..] == "a -";
    assert Text.StripPadding("aa ") == "aa ";
  }

  /**
   * Trim runs first, so whitespace that a `-` shields from the end of the text
   * stays: in "aa -" only the `-` is removed, and the space is then illegal.
   */
  lemma SeparatorBesideWhiteSpace(s: string, t: string)
    requires s == "aa -" && t == "aa"
    ensures DecodeSpec(s) == Failure(IllegalCharacter(' '))
    ensures DecodeSpec(t) == Success([0])
  {
    CleanKeepsInnerSpace(s);
    assert ' ' !in CharMap;
    DecodeFailsAt("aa ", 2);
    CleanSymbols(t);
    TwoSymbols('a', 'a');
  }

  /** Stripping "aa =" removes only its `=`: the space was not at an end when Trim ran. */
  lemma CleanKeepsSpaceBeforePadding(s: string)
    requires s == "aa ="
    ensures Clean(s) == "aa "
  {
    Text.TrimUnchanged(s);
    assert Separator !in s;
    Text.RemoveAllUnchanged(s, Separator);
    assert s == "aa " + seq(1, _ => '=');
    Text.StripTrailingAppended("aa ", 1, '=');
    Text.ToLowerAsciiUnchanged("aa ");
  }

  /** The same for padding: the space a trailing `=` shields from the end is illegal. */
  lemma PaddingBesideWhiteSpace(s: string)
    requires s == "aa ="
    ensures DecodeSpec(s) == Failure(IllegalCharacter(' '))
  {
    CleanKeepsSpaceBeforePadding(s);
    assert ' ' !in CharMap;
    DecodeFailsAt("aa ", 2);
  }

  /** Trim of "aa" followed by c and one space, for c not whitespace: the space goes. */
  lemma TrimTrailingSpace(s: string, c: char)
    requires s == "aa" + [c, ' '] && !Text.IsWhiteSpace(c)
    ensures Text.Trim(s) == "aa" + [c]
  {
    assert Text.TrimStart(s) == s;
    assert s == ("aa" + [c]) + " ";
    Text.TrimEndSuffix("aa" + [c], " ");
    Text.TrimUnchanged("aa" + [c]);
    assert Text.TrimStart("aa" + [c]) == "aa" + [c];
  }

  /** Cleaning "aa- ": the space is trimmed, then the `-` removed. */
  lemma CleanSeparatorThenSpace(s: string)
    requires s == "aa- "
    ensures Clean(s) == "aa"
  {
    TrimTrailingSpace(s, '-');
    Text.RemoveAllAppend("aa", "-", Separator);
    Text.RemoveAllUnchanged("aa", Separator);
    assert Text.RemoveAll("-", Separator) == "" by {
      assert "-"[1..] == "";
    }
    assert "aa" == "aa" + seq(0, _ => '=');
    Text.StripTrailingAppended("aa", 0, '=');
    Text.ToLowerAsciiUnchanged("aa");
  }

  /** Cleaning "aa= ": the space is trimmed, then the `=` stripped. */
  lemma CleanPaddingThenSpace(t: string)
    requires t == "aa= "
    ensures Clean(t) == "aa"
  {
    TrimTrailingSpace(t, '=');
    assert Separator !in "aa=";
    Text.RemoveAllUnchanged("aa=", Separator);
    assert "aa=" == "aa" + seq(1, _ => '=');
    Text.StripTrailingAppended("aa", 1, '=');
    Text.ToLowerAsciiUnchanged("aa");
  }

  /**
   * Whitespace after a `-` or a trailing `=` is at the end, so Trim removes it
   * first, and the `-` or `=` is then ignored as usual.
   */
  lemma WhiteSpaceAfterSeparatorTrimmed(s: string, t: string)
    requires s == "aa- " && t == "aa= "
    ensures DecodeSpec(s) == Success([0]) && DecodeSpec(t) == Success([0])
  {
    CleanSeparatorThenSpace(s);
    CleanPaddingThenSpace(t);
    TwoSymbols('a', 'a');
  }

  /** A '=' between symbols is not padding: Decode rejects it. */
  lemma InnerPaddingIllegal(a: string, b: string)
    requires Legal(a) && Legal(b) && b != []
    ensures DecodeSpec(a + "=" + b) == Failure(IllegalCharacter('='))
  {
    var s := a + "=" + b;
    forall k | 0 <= k < |s|
      ensures s[k] == '=' || IsSymbol(s[k])
    {
      if k < |a| {
        assert s[k] == a[k] && a[k] in CharMap;
      } else if k > |a| {
        assert s[k] == b[k - |a| - 1] && b[k - |a| - 1] in CharMap;
      }
    }
    assert s[|s| - 1] == b[|b| - 1] && b[|b| - 1] in CharMap;
    CleanUnchanged(s);
    assert s[..|a|] == a && s[|a|] == '=';
    FirstIllegalAt(s, |a|);
  }

  /** Text the cleaning step has nothing to do on: no whitespace, '-' or upper-case letter, and no '=' at the end. */
  lemma CleanUnchanged(t: string)
    requires forall k :: 0 <= k < |t| ==> !Text.IsWhiteSpace(t[k]) && t[k] != Separator && !Text.IsAsciiUpper(t[k])
    requires t == [] || t[|t| - 1] != '='
    ensures Clean(t) == t
  {
    Text.TrimUnchanged(t);
    Text.RemoveAllUnchanged(t, Separator);
    Text.StripPaddingRun(t, 0);
    assert t + seq(0, _ => '=') == t;
    Text.ToLowerAsciiUnchanged(t);
  }

  // ---------------------------------------------------------------------
  // The round trip

  /** The symbol of v reads back as the five bits of v. */
  lemma SymbolOfDigit(v: nat)
    requires v < 32
    ensures Legal([Digits[v]]) && SymbolBits([Digits[v]]) == Bits(v, 5)
  {
    CharMapInverse();
    assert [Digits[v]][1..] == [];
  }

  /** Reading the symbols of EncodeBits(bits) back gives the bits, zero-filled to whole groups. */
  lemma {:induction false} SymbolBitsOfEncode(bits: seq<bool>)
    ensures Legal(EncodeBits(bits)) && SymbolBits(EncodeBits(bits)) == Filled(bits)
    decreases |bits|
  {
    Pow2Five();
    if bits == [] {
    } else if |bits| < 5 {
      var q := bits + Zeros(5 - |bits|);
      assert Filled(bits) == q;
      assert EncodeBits(bits) == [Digits[Value(q)]];
      SymbolOfDigit(Value(q));
      BitsOfValue(q);
    } else {
      var v := Value(bits[..5]);
      var rest := EncodeBits(bits[5..]);
      assert EncodeBits(bits) == [Digits[v]] + rest;
      SymbolBitsOfEncode(bits[5..]);
      SymbolOfDigit(v);
      SymbolBitsAppend([Digits[v]], rest);
      BitsOfValue(bits[..5]);
      FilledSuffix(bits);
      assert Filled(bits) == Filled(bits)[..5] + Filled(bits)[5..];
    }
  }

  /** Cleaning Encode's output, padded or not, leaves the unpadded output. */
  lemma CleanEncoded(data: seq<byte>, padOutput: bool)
    ensures Clean(EncodeSpec(data, padOutput)) == EncodeSpec(data, false)
  {
    var s := EncodeSpec(data, false);
    EncodeBitsAlphabet(BytesToBits(data));
    var n := if padOutput then |Padding(|s|)| else 0;
    assert EncodeSpec(data, padOutput) == s + seq(n, _ => '=');
    CleanPadded(s, n);
  }

  /** Symbols followed by '=' padding come out of the cleaning step as the symbols. */
  lemma CleanPadded(s: string, n: nat)
    requires Legal(s)
    ensures Clean(s + seq(n, _ => '=')) == s
  {
    var t := s + seq(n, _ => '=');
    assert Text.NoWhiteSpace(t) && Separator !in t by {
      SymbolsPadded(s, n);
    }
    Text.TrimUnchanged(t);
    Text.RemoveAllUnchanged(t, Separator);
    Text.StripPaddingRun(s, n);
    assert forall k :: 0 <= k < |s| ==> !Text.IsAsciiUpper(s[k]);
    Text.ToLowerAsciiUnchanged(s);
  }

  lemma SymbolsPadded(s: string, n: nat)
    requires Legal(s)
    ensures Text.NoWhiteSpace(s + seq(n, _ => '=')) && Separator !in s + seq(n, _ => '=')
    ensures s == [] || (s[|s| - 1] != '=' && s[|s| - 1] != '\n')
  {
    var t := s + seq(n, _ => '=');
    forall k | 0 <= k < |t|
      ensures !Text.IsWhiteSpace(t[k]) && t[k] != Separator
    {
      if k < |s| {
        assert IsSymbol(s[k]);
      }
    }
    if s != [] {
      assert IsSymbol(s[|s| - 1]);
    }
  }

  /**
   * Decode undoes Encode, padded or not. The zero bits that fill the last
   * group are fewer than eight and are dropped.
   */
  lemma RoundTrip(data: seq<byte>, padOutput: bool)
    ensures DecodeSpec(EncodeSpec(data, padOutput)) == Success(data)
  {
    var bits := BytesToBits(data);
    CleanEncoded(data, padOutput);
    SymbolBitsOfEncode(bits);
    var fill := Filled(bits)[|bits|..];
    assert Filled(bits) == bits + fill;
    BytesRoundTrip(data, fill);
    assert data + [] == data;
  }
}
