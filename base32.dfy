/**
 * The Base32 codec of Prefix.Id: the RFC 4648 section 6 alphabet in lower
 * case, an Encode loop that feeds bytes into an int accumulator and pulls
 * 5-bit groups off its top, and a Decode loop that does the reverse after
 * cleaning its input.
 *
 * Each loop method is proved against a specification on bit streams:
 * EncodeBits cuts the bytes' bits into groups of five, and DecodeSpec reads
 * five bits per symbol back and keeps the whole bytes.
 */
module Base32 {
  import opened Wrappers
  import opened CSharp
  import opened BitStream
  import Text

  /** The character Decode removes wherever it occurs. */
  const Separator: char := '-'

  /** The 32 symbols; symbol i stands for the 5-bit group i. */
  const Digits: string := "abcdefghijklmnopqrstuvwxyz234567"

  /** The values the static constructor derives from Digits. */
  const Mask: int := 31
  const Shift: nat := 5

  /** The largest input length Encode refuses to go past: 1 << 28. */
  const EncodeLimit: nat := 0x1000_0000

  /** The dictionary built by `CharMap[digits[i]] = i` for i below n. */
  function IndexMap(digits: seq<char>, n: nat): map<char, nat>
    requires n <= |digits|
  {
    if n == 0 then map[] else IndexMap(digits, n - 1)[digits[n - 1] := n - 1]
  }

  /** Whether c is one of the 32 symbols. */
  predicate IsSymbol(c: char)
  {
    'a' <= c <= 'z' || '2' <= c <= '7'
  }

  /** The value of a symbol: its position in Digits. */
  function SymbolValue(c: char): nat
    requires IsSymbol(c)
  {
    if 'a' <= c <= 'z' then c as int - 'a' as int else c as int - '2' as int + 26
  }

  /**
   * The dictionary from symbol to its 5-bit value, in closed form; the static
   * constructor's loop builds exactly this map (StaticConstructor).
   */
  const CharMap: map<char, nat> := map c | IsSymbol(c) :: SymbolValue(c)

  datatype EncodeError = ArgumentOutOfRange(paramName: string)

  /** The DecodingException "Illegal character: c". */
  datatype DecodeError = IllegalCharacter(c: char)

  // ---------------------------------------------------------------------
  // The alphabet

  /** Symbol i written out: letters first, then the digits 2 to 7. */
  function DigitOf(i: int): char
    requires 0 <= i < 32
  {
    if i < 26 then ('a' as int + i) as char else ('2' as int + i - 26) as char
  }

  lemma DigitsFormula()
    ensures |Digits| == 32
    ensures forall i :: 0 <= i < 32 ==> Digits[i] == DigitOf(i)
  {
    assert Digits == seq(32, i requires 0 <= i < 32 => DigitOf(i));
  }

  /** No symbol appears twice, and none is a character the cleaning step or the id format treats specially. */
  lemma DigitsDistinct()
    ensures forall i, j :: 0 <= i < j < |Digits| ==> Digits[i] != Digits[j]
    ensures forall i :: 0 <= i < |Digits| ==>
      !Text.IsWhiteSpace(Digits[i]) && !Text.IsAsciiUpper(Digits[i])
      && Digits[i] != '=' && Digits[i] != Separator && Digits[i] != '_' && Digits[i] != '\n'
  {
    DigitsFormula();
  }

  lemma {:induction false} IndexMapInverse(digits: seq<char>, n: nat)
    requires n <= |digits|
    requires forall i, j :: 0 <= i < j < |digits| ==> digits[i] != digits[j]
    ensures forall c :: c in IndexMap(digits, n) <==> c in digits[..n]
    ensures forall i :: 0 <= i < n ==> IndexMap(digits, n)[digits[i]] == i
  {
    if n > 0 {
      IndexMapInverse(digits, n - 1);
      assert digits[..n] == digits[..n - 1] + [digits[n - 1]];
    }
  }

  /** CharMap is the inverse of Digits: exactly the 32 symbols, each mapped to its position. */
  lemma CharMapInverse()
    ensures forall c :: c in CharMap <==> c in Digits
    ensures forall i :: 0 <= i < |Digits| ==> Digits[i] in CharMap && CharMap[Digits[i]] == i
    ensures forall c :: c in CharMap ==> 0 <= CharMap[c] < 32 && Digits[CharMap[c]] == c
  {
    DigitsFormula();
    forall c | IsSymbol(c)
      ensures SymbolValue(c) < 32 && DigitOf(SymbolValue(c)) == c
    {
    }
    forall c | c in Digits
      ensures IsSymbol(c)
    {
      var i :| 0 <= i < |Digits| && Digits[i] == c;
    }
  }

  /** The map the static constructor's loop builds from Digits is CharMap. */
  lemma IndexMapIsCharMap()
    ensures IndexMap(Digits, |Digits|) == CharMap
  {
    var built := IndexMap(Digits, |Digits|);
    DigitsDistinct();
    IndexMapInverse(Digits, |Digits|);
    CharMapInverse();
    assert Digits[..|Digits|] == Digits;
    forall c | c in built
      ensures c in CharMap && built[c] == CharMap[c]
    {
      var i :| 0 <= i < |Digits| && Digits[i] == c;
    }
    assert forall c :: c in built <==> c in CharMap;
  }

  // ---------------------------------------------------------------------
  // NumberOfTrailingZeros, on the 32-bit pattern of its int argument

  /** r is the number of zero bits below the lowest one bit of x, and 32 when x is 0. */
  predicate IsTrailingZeros(x: bv32, r: bv32)
  {
    if x == 0 then r == 32 else r < 32 && (x >> r) & 1 == 1 && x & ((1 << r) - 1) == 0
  }

  /** Hacker's Delight, figure 5-14: halve the window while its low half has a one bit. */
  method NumberOfTrailingZeros(x: bv32) returns (r: bv32)
    ensures IsTrailingZeros(x, r)
  {
    if x == 0 {
      return 32;
    }
    var i := x;
    var n: bv32 := 31;
    var y := i << 16;
    if y != 0 {
      n := n - 16;
      i := y;
    }
    y := i << 8;
    if y != 0 {
      n := n - 8;
      i := y;
    }
    y := i << 4;
    if y != 0 {
      n := n - 4;
      i := y;
    }
    y := i << 2;
    if y != 0 {
      n := n - 2;
      i := y;
    }
    r := n - ((i << 1) >> 31);
  }

  /** The count is unique: at most one r fits a given x. */
  lemma TrailingZerosUnique(x: bv32, r1: bv32, r2: bv32)
    requires IsTrailingZeros(x, r1) && IsTrailingZeros(x, r2)
    ensures r1 == r2
  {
  }

  /** For a power of two the count is its exponent; for the alphabet's size it is 5. */
  lemma TrailingZerosOfPower(k: bv32)
    requires k < 32
    ensures IsTrailingZeros(1 << k, k)
  {
  }

  lemma DigitsLength()
    ensures |Digits| == 32 && |Digits| as bv32 == 32 == 1 << 5
  {
  }

  /**
   * The static constructor: Digits, then Mask = Digits.Length - 1, then
   * Shift = NumberOfTrailingZeros(Digits.Length), then the CharMap loop.
   */
  method StaticConstructor() returns (digits: string, mask: int, shift: int, charMap: map<char, nat>)
    ensures digits == Digits && mask == Mask && shift == Shift && charMap == CharMap
    ensures forall c :: c in charMap <==> c in digits
    ensures forall i :: 0 <= i < |digits| ==> charMap[digits[i]] == i
  {
    digits := Digits;
    mask := |digits| - 1;
    DigitsLength();
    var ntz := NumberOfTrailingZeros(|digits| as bv32);
    TrailingZerosOfPower(5);
    TrailingZerosUnique(32, ntz, 5);
    shift := ntz as int;
    charMap := map[];
    for i := 0 to |digits|
      invariant charMap == IndexMap(digits, i)
    {
      charMap := charMap[digits[i] := i];
    }
    IndexMapIsCharMap();
    CharMapInverse();
  }

  // ---------------------------------------------------------------------
  // Encode

  /**
   * The symbols for a bit stream: one per group of five bits, the last
   * group filled with zero bits on the right.
   */
  function EncodeBits(bits: seq<bool>): (s: string)
    decreases |bits|
  {
    Pow2Five();
    if bits == [] then ""
    else if |bits| < 5 then [Digits[Value(bits + Zeros(5 - |bits|))]]
    else [Digits[Value(bits[..5])]] + EncodeBits(bits[5..])
  }

  /** The '=' characters that bring a length up to a multiple of 8. */
  function Padding(length: nat): string
  {
    var padding := 8 - length % 8;
    seq(if padding == 8 then 0 else padding, _ => '=')
  }

  /** What Encode(data, padOutput) returns when it does not throw. */
  function EncodeSpec(data: seq<byte>, padOutput: bool): string
  {
    var s := EncodeBits(BytesToBits(data));
    if padOutput then s + Padding(|s|) else s
  }

  /** Enough bits for one symbol: the first is the top five. */
  lemma EncodeBitsStep(p: seq<bool>, rest: seq<bool>)
    requires |p| >= 5
    ensures EncodeBits(p + rest) == [Digits[Value(p[..5])]] + EncodeBits(p[5..] + rest)
  {
    assert (p + rest)[..5] == p[..5];
    assert (p + rest)[5..] == p[5..] + rest;
  }

  /** Filling a runt group with zeros by hand gives the symbol EncodeBits gives it. */
  lemma {:induction false} EncodeBitsFill(p: seq<bool>)
    requires 1 <= |p| < 5
    ensures EncodeBits(p + Zeros(5 - |p|)) == EncodeBits(p)
  {
    var q := p + Zeros(5 - |p|);
    assert q[..5] == q && q[5..] == [];
    assert EncodeBits(q) == [Digits[Value(q[..5])]] + EncodeBits(q[5..]);
    assert EncodeBits(p) == [Digits[Value(q)]];
  }

  /**
   * The accumulator invariant of both loops: `buffer` is a 32-bit pattern
   * whose low |pending| bits spell `pending`. The bits above are never read.
   */
  ghost predicate Holds(buffer: int, pending: seq<bool>)
  {
    0 <= buffer < TwoTo32 && |pending| <= 12 && buffer % Pow2(|pending|) == Value(pending)
  }

  /** `buffer <<= 8; buffer |= data[next] & 0xff` appends the byte's bits to those held. */
  lemma ShiftInByte(buffer: Word, pending: seq<bool>, d: byte)
    requires |pending| < 5 && Holds(buffer, pending)
    ensures Holds(BitOr(Shl(buffer, 8), BitAnd(d as int, 0xff)), pending + Bits(d as int, 8))
  {
    var x := d as int;
    MaskIsLowFive();
    LowMask(x, 8, 0xff);
    ShiftIn(buffer, |pending|, 8, x);
    ValueAppend(pending, Bits(x, 8));
    assert Value(Bits(x, 8)) == x by {
      ValueOfBits(x, 8);
      ModSmall(x, Pow2(8));
    }
  }

  /** `x & (2^k - 1)` is x itself when x has no more than k bits. */
  lemma LowMask(x: nat, k: nat, mask: nat)
    requires k <= 8 && mask == Pow2(k) - 1 && x < mask + 1
    ensures BitAnd(x, mask) == x && x < Pow2(k)
  {
    BitAndLowMask(x, k);
  }

  lemma ModSmall(x: nat, p: nat)
    requires x < p
    ensures x % p == x
  {
  }

  lemma MaskIsLowFive()
    ensures Mask == Pow2(5) - 1 && 0xff == Pow2(8) - 1
  {
    Pow2Five();
    Pow2Eight();
  }

  /** `buffer <<= pad` appends the zero bits that complete the last group. */
  lemma ShiftInZeros(buffer: Word, pending: seq<bool>)
    requires 1 <= |pending| < 5 && Holds(buffer, pending)
    ensures Holds(Shl(buffer, 5 - |pending|), pending + Zeros(5 - |pending|))
  {
    ShlLowBits(buffer, |pending|, 5 - |pending|);
    ValueAppend(pending, Zeros(5 - |pending|));
    ValueZeros(5 - |pending|);
  }

  /** `Mask & (buffer >> (bitsLeft - Shift))` is the group of the top five bits held; the rest stay held. */
  lemma TakeSymbol(buffer: Word, pending: seq<bool>)
    requires 5 <= |pending| && Holds(buffer, pending)
    ensures BitAnd(Mask, Sar(buffer, |pending| - 5)) == Value(pending[..5]) < 32
    ensures Holds(buffer, pending[5..])
  {
    Pow2Five();
    BitAndLowMask(Sar(buffer, |pending| - 5), 5);
    ExtractTop(buffer, |pending|, 5);
    ValueSplit(pending, 5);
    ModMod(buffer, |pending| - 5, 5);
  }

  lemma {:induction false} BytesToBitsSuffix(data: seq<byte>, i: nat)
    requires i < |data|
    ensures BytesToBits(data[i..]) == Bits(data[i] as int, 8) + BytesToBits(data[i + 1..])
  {
    assert data[i..][0] == data[i] && data[i..][1..] == data[i + 1..];
  }

  /** The length of EncodeBits: one symbol per five bits, rounded up. */
  lemma {:induction false} EncodeBitsLength(bits: seq<bool>)
    ensures |EncodeBits(bits)| == (|bits| + 4) / 5
    decreases |bits|
  {
    if |bits| >= 5 {
      EncodeBitsLength(bits[5..]);
    }
  }

  /**
   * The state at the head of Encode's loop: `pending` holds the bits read
   * but not yet written out, and the symbols written so far followed by the
   * symbols for the pending and the unread bits give the whole output.
   */
  ghost predicate EncodeInvariant(data: seq<byte>, next: int, bitsLeft: int, buffer: int,
                                  pending: seq<bool>, result: string)
  {
    1 <= next <= |data| && 0 <= bitsLeft <= 12 && |pending| == bitsLeft && Holds(buffer, pending)
    && result + EncodeBits(pending + BytesToBits(data[next..])) == EncodeBits(BytesToBits(data))
  }

  lemma EncodeStart(data: seq<byte>)
    requires |data| >= 1
    ensures EncodeInvariant(data, 1, 8, data[0] as int, Bits(data[0] as int, 8), "")
  {
    ValueOfBits(data[0] as int, 8);
    BytesToBitsSuffix(data, 0);
    assert data[0..] == data;
  }

  /** Shifting a byte in moves its bits from the unread input to the bits held. */
  lemma EncodeByteStep(data: seq<byte>, next: int, bitsLeft: int, buffer: Word,
                       pending: seq<bool>, result: string)
    requires EncodeInvariant(data, next, bitsLeft, buffer, pending, result)
    requires bitsLeft < Shift && next < |data|
    ensures BitOr(Shl(buffer, 8), BitAnd(data[next] as int, 0xff)) < TwoTo32
    ensures EncodeInvariant(data, next + 1, bitsLeft + 8,
      BitOr(Shl(buffer, 8), BitAnd(data[next] as int, 0xff)), pending + Bits(data[next] as int, 8), result)
  {
    ShiftInByte(buffer, pending, data[next]);
    BytesToBitsSuffix(data, next);
    assert pending + BytesToBits(data[next..])
        == (pending + Bits(data[next] as int, 8)) + BytesToBits(data[next + 1..]);
  }

  /** Filling the last group with zeros does not change the symbols still to come. */
  lemma EncodePadStep(data: seq<byte>, next: int, bitsLeft: int, buffer: Word,
                      pending: seq<bool>, result: string, pad: nat)
    requires EncodeInvariant(data, next, bitsLeft, buffer, pending, result)
    requires 0 < bitsLeft < Shift && next == |data| && pad == Shift - bitsLeft
    ensures EncodeInvariant(data, next, bitsLeft + pad, Shl(buffer, pad), pending + Zeros(pad), result)
  {
    ShiftInZeros(buffer, pending);
    assert data[next..] == [];
    assert pending + [] == pending;
    assert (pending + Zeros(5 - |pending|)) + [] == pending + Zeros(5 - |pending|);
    EncodeBitsFill(pending);
  }

  /** Writing out the symbol of the top five bits held. */
  lemma EncodeSymbolStep(data: seq<byte>, next: int, bitsLeft: int, buffer: Word,
                         pending: seq<bool>, result: string)
    requires EncodeInvariant(data, next, bitsLeft, buffer, pending, result)
    requires Shift <= bitsLeft
    ensures BitAnd(Mask, Sar(buffer, bitsLeft - Shift)) < |Digits|
    ensures EncodeInvariant(data, next, bitsLeft - Shift, buffer, pending[5..],
      result + [Digits[BitAnd(Mask, Sar(buffer, bitsLeft - Shift))]])
  {
    TakeSymbol(buffer, pending);
    EncodeBitsStep(pending, BytesToBits(data[next..]));
  }

  lemma EncodeEmpty(data: seq<byte>, padOutput: bool)
    requires |data| == 0
    ensures EncodeSpec(data, padOutput) == ""
  {
    assert data == [] && EncodeBits(BytesToBits(data)) == "" && Padding(0) == "";
  }

  /** The padding step at the end of Encode appends Padding(|s|) to the symbols s. */
  lemma EncodeFinish(data: seq<byte>, padOutput: bool, s: string)
    requires s == EncodeBits(BytesToBits(data))
    ensures !padOutput ==> EncodeSpec(data, padOutput) == s
    ensures padOutput ==> 8 - |s| % 8 > 0
    ensures padOutput ==> EncodeSpec(data, padOutput) == s + seq(if 8 - |s| % 8 == 8 then 0 else 8 - |s| % 8, _ => '=')
  {
  }

  lemma EncodeLoopEnd(data: seq<byte>, next: int, bitsLeft: int, buffer: Word,
                      pending: seq<bool>, result: string)
    requires EncodeInvariant(data, next, bitsLeft, buffer, pending, result)
    requires !(bitsLeft > 0 || next < |data|)
    ensures result == EncodeBits(BytesToBits(data))
    ensures |result| == (|data| * 8 + 4) / 5
  {
    assert data[next..] == [] && pending == [];
    assert pending + BytesToBits(data[next..]) == [];
    EncodeBitsLength(BytesToBits(data));
  }

  /**
   * Base32.Encode. The int `buffer` is modelled as its 32-bit pattern; the
   * ghost `pending` is the bit string its low `bitsLeft` bits hold.
   */
  method Encode(data: seq<byte>, padOutput: bool) returns (r: Result<string, EncodeError>)
    ensures |data| >= EncodeLimit ==> r == Failure(ArgumentOutOfRange("data"))
    ensures |data| < EncodeLimit ==> r == Success(EncodeSpec(data, padOutput))
  {
    if |data| == 0 {
      EncodeEmpty(data, padOutput);
      return Success("");
    }
    if |data| >= EncodeLimit {
      return Failure(ArgumentOutOfRange("data"));
    }
    // 8 * n + Shift - 1 stays below 2^31, so the C# int does not wrap.
    assert |data| * 8 + Shift - 1 < TwoTo31;
    var outputLength := (|data| * 8 + Shift - 1) / Shift;

    var result := "";
    var buffer: Word := data[0] as int;
    var next := 1;
    var bitsLeft := 8;
    ghost var pending := Bits(data[0] as int, 8);
    EncodeStart(data);
    while bitsLeft > 0 || next < |data|
      invariant EncodeInvariant(data, next, bitsLeft, buffer, pending, result) && bitsLeft <= 8
      decreases 8 * (|data| - next) + bitsLeft
    {
      if bitsLeft < Shift {
        if next < |data| {
          EncodeByteStep(data, next, bitsLeft, buffer, pending, result);
          buffer := BitOr(Shl(buffer, 8), BitAnd(data[next] as int, 0xff));
          pending := pending + Bits(data[next] as int, 8);
          next := next + 1;
          bitsLeft := bitsLeft + 8;
        } else {
          var pad := Shift - bitsLeft;
          EncodePadStep(data, next, bitsLeft, buffer, pending, result, pad);
          buffer := Shl(buffer, pad);
          pending := pending + Zeros(pad);
          bitsLeft := bitsLeft + pad;
        }
      }
      EncodeSymbolStep(data, next, bitsLeft, buffer, pending, result);
      var index := BitAnd(Mask, Sar(buffer, bitsLeft - Shift));
      bitsLeft := bitsLeft - Shift;
      result := result + [Digits[index]];
      pending := pending[5..];
    }
    EncodeLoopEnd(data, next, bitsLeft, buffer, pending, result);
    assert |result| == outputLength;
    EncodeFinish(data, padOutput, result);

    if padOutput {
      var padding := 8 - |result| % 8;
      if padding > 0 {
        result := result + seq(if padding == 8 then 0 else padding, _ => '=');
      }
    }
    return Success(result);
  }

  // ---------------------------------------------------------------------
  // Decode

  /** The input after `Trim().Replace("-", "")`, `Regex.Replace(.., "[=]*$", "")` and `ToLower()`. */
  function Clean(encoded: string): string
  {
    Text.ToLowerAscii(Text.StripPadding(Text.RemoveAll(Text.Trim(encoded), Separator)))
  }

  predicate Legal(e: string)
  {
    forall k :: 0 <= k < |e| ==> e[k] in CharMap
  }

  /** The first character that is not a symbol, if there is one. */
  function FirstIllegal(e: string): (r: Option<char>)
    ensures r.None? <==> Legal(e)
    ensures r.Some? ==> r.value in e && r.value !in CharMap
  {
    if e == [] then None
    else if e[0] !in CharMap then Some(e[0])
    else
      var r := FirstIllegal(e[1..]);
      assert Legal(e[1..]) ==> Legal(e) by {
        if Legal(e[1..]) {
          assert forall k :: 1 <= k < |e| ==> e[k] == e[1..][k - 1];
        }
      }
      r
  }

  /** The values of the symbols as one stream, five bits each. */
  function SymbolBits(e: string): (bits: seq<bool>)
    requires Legal(e)
    ensures |bits| == 5 * |e|
  {
    if e == [] then [] else Bits(CharMap[e[0]], 5) + SymbolBits(e[1..])
  }

  /** What Decode does with the cleaned text e: the exception for its first non-symbol, or the bytes. */
  function SymbolsSpec(e: string): Result<seq<byte>, DecodeError>
  {
    match FirstIllegal(e)
    case Some(c) => Failure(IllegalCharacter(c))
    case None => Success(BitsToBytes(SymbolBits(e)))
  }

  /** What Decode(encoded) returns, or the exception it throws. */
  function DecodeSpec(encoded: string): Result<seq<byte>, DecodeError>
  {
    SymbolsSpec(Clean(encoded))
  }

  lemma DecodeEmpty(e: string)
    requires |e| == 0
    ensures SymbolsSpec(e) == Success([])
  {
    assert SymbolBits(e) == [] && BitsToBytes([]) == [];
  }

  /** The character at i is the first that is not a symbol: Decode throws for it. */
  lemma DecodeFailsAt(e: string, i: nat)
    requires i < |e| && Legal(e[..i]) && e[i] !in CharMap
    ensures SymbolsSpec(e) == Failure(IllegalCharacter(e[i]))
  {
    FirstIllegalAt(e, i);
  }

  lemma {:induction false} FirstIllegalAt(e: string, i: nat)
    requires i < |e| && Legal(e[..i]) && e[i] !in CharMap
    ensures FirstIllegal(e) == Some(e[i])
  {
    if i > 0 {
      assert e[1..][..i - 1] == e[..i][1..];
      assert e[0] == e[..i][0];
      FirstIllegalAt(e[1..], i - 1);
    }
  }

  lemma {:induction false} SymbolBitsAppend(a: string, b: string)
    requires Legal(a) && Legal(b)
    ensures Legal(a + b)
    ensures SymbolBits(a + b) == SymbolBits(a) + SymbolBits(b)
  {
    assert forall k :: 0 <= k < |a + b| ==> (a + b)[k] == if k < |a| then a[k] else b[k - |a|];
    if a != [] {
      assert (a + b)[0] == a[0] && (a + b)[1..] == a[1..] + b;
      SymbolBitsAppend(a[1..], b);
    } else {
      assert a + b == b;
    }
  }

  lemma SymbolBitsSnoc(e: string, i: nat)
    requires i < |e| && Legal(e[..i]) && e[i] in CharMap
    ensures Legal(e[..i + 1])
    ensures SymbolBits(e[..i + 1]) == SymbolBits(e[..i]) + Bits(CharMap[e[i]], 5)
  {
    assert e[..i + 1] == e[..i] + [e[i]];
    SymbolBitsAppend(e[..i], [e[i]]);
    assert [e[i]][1..] == [];
  }

  /** `buffer <<= Shift; buffer |= CharMap[c] & Mask` appends the symbol's five bits to those held. */
  lemma ShiftInSymbol(buffer: Word, pending: seq<bool>, v: nat)
    requires |pending| < 8 && Holds(buffer, pending) && v < 32
    ensures BitOr(Shl(buffer, Shift), BitAnd(v, Mask)) < TwoTo32
    ensures Holds(BitOr(Shl(buffer, Shift), BitAnd(v, Mask)), pending + Bits(v, 5))
  {
    MaskIsLowFive();
    LowMask(v, 5, Mask);
    ShiftIn(buffer, |pending|, 5, v);
    ValueAppend(pending, Bits(v, 5));
    GroupValue(v);
  }

  /** The five bits of a group value read back as the value. */
  lemma GroupValue(v: nat)
    requires v < 32
    ensures Value(Bits(v, 5)) == v
  {
    ValueOfBits(v, 5);
    Pow2Five();
    ModSmall(v, 32);
  }

  /** `(byte)(buffer >> (bitsLeft - 8))` is the byte of the top eight bits held; the rest stay held. */
  lemma TakeByte(buffer: Word, pending: seq<bool>)
    requires 8 <= |pending| && Holds(buffer, pending)
    ensures ToByte(Sar(buffer, |pending| - 8)) as int == Value(pending[..8])
    ensures Holds(buffer, pending[8..])
  {
    Pow2Eight();
    ExtractTop(buffer, |pending|, 8);
    ValueSplit(pending, 8);
    ModMod(buffer, |pending| - 8, 8);
  }

  /**
   * The state of Decode's loop after i symbols: the bits they stand for are
   * the bits of the bytes written, followed by the `pending` bits that the
   * low bits of `buffer` hold.
   */
  ghost predicate DecodeInvariant(e: string, i: int, bitsLeft: int, buffer: int,
                                  pending: seq<bool>, bytes: seq<byte>)
  {
    0 <= i <= |e| && Legal(e[..i]) && 0 <= bitsLeft <= 12 && |pending| == bitsLeft
    && Holds(buffer, pending) && SymbolBits(e[..i]) == BytesToBits(bytes) + pending
  }

  lemma DecodeStart(e: string)
    ensures DecodeInvariant(e, 0, 0, 0, [], [])
  {
    assert e[..0] == [];
  }

  /** Shifting in the symbol e[i]. */
  lemma DecodeSymbolStep(e: string, i: int, bitsLeft: int, buffer: Word,
                         pending: seq<bool>, bytes: seq<byte>, v: nat)
    requires DecodeInvariant(e, i, bitsLeft, buffer, pending, bytes)
    requires bitsLeft < 8 && i < |e| && e[i] in CharMap && v == CharMap[e[i]]
    ensures v < 32 && BitOr(Shl(buffer, Shift), BitAnd(v, Mask)) < TwoTo32
    ensures DecodeInvariant(e, i + 1, bitsLeft + Shift,
      BitOr(Shl(buffer, Shift), BitAnd(v, Mask)), pending + Bits(v, 5), bytes)
  {
    CharMapInverse();
    ShiftInSymbol(buffer, pending, v);
    SymbolStepBits(e, i, pending, bytes);
  }

  /** Shifting in the symbol e[i] when that completes a byte, and writing the byte out. */
  lemma DecodeSymbolByteStep(e: string, i: int, bitsLeft: int, buffer: Word,
                             pending: seq<bool>, bytes: seq<byte>, v: nat)
    requires DecodeInvariant(e, i, bitsLeft, buffer, pending, bytes)
    requires bitsLeft < 8 && i < |e| && e[i] in CharMap && v == CharMap[e[i]]
    requires 8 <= bitsLeft + Shift
    ensures BitOr(Shl(buffer, Shift), BitAnd(v, Mask)) < TwoTo32
    ensures |bytes| < |e| * Shift / 8
    ensures DecodeInvariant(e, i + 1, bitsLeft + Shift - 8,
      BitOr(Shl(buffer, Shift), BitAnd(v, Mask)), (pending + Bits(v, 5))[8..],
      bytes + [ToByte(Sar(BitOr(Shl(buffer, Shift), BitAnd(v, Mask)), bitsLeft + Shift - 8))])
  {
    DecodeSymbolStep(e, i, bitsLeft, buffer, pending, bytes, v);
    DecodeByteStep(e, i + 1, bitsLeft + Shift, BitOr(Shl(buffer, Shift), BitAnd(v, Mask)),
      pending + Bits(v, 5), bytes);
  }

  lemma SymbolStepBits(e: string, i: nat, pending: seq<bool>, bytes: seq<byte>)
    requires i < |e| && Legal(e[..i]) && e[i] in CharMap
    requires SymbolBits(e[..i]) == BytesToBits(bytes) + pending
    ensures Legal(e[..i + 1])
    ensures SymbolBits(e[..i + 1]) == BytesToBits(bytes) + (pending + Bits(CharMap[e[i]], 5))
  {
    SymbolBitsSnoc(e, i);
  }

  /** Writing out the byte of the top eight bits held. */
  lemma DecodeByteStep(e: string, i: int, bitsLeft: int, buffer: Word,
                       pending: seq<bool>, bytes: seq<byte>)
    requires DecodeInvariant(e, i, bitsLeft, buffer, pending, bytes)
    requires 8 <= bitsLeft
    ensures |bytes| < |e| * Shift / 8
    ensures DecodeInvariant(e, i, bitsLeft - 8, buffer, pending[8..],
      bytes + [ToByte(Sar(buffer, bitsLeft - 8))])
  {
    var b := ToByte(Sar(buffer, bitsLeft - 8));
    TakeByte(buffer, pending);
    MoveByte(bytes, pending, b);
    DecodeLengthBound(|e|, i, |bytes|, bitsLeft);
  }

  /** A byte whose bits lead the pending bits moves from the pending bits to the bytes written. */
  lemma MoveByte(bytes: seq<byte>, pending: seq<bool>, b: byte)
    requires |pending| >= 8 && b as int == Value(pending[..8])
    ensures BytesToBits(bytes) + pending == BytesToBits(bytes + [b]) + pending[8..]
  {
    BitsOfValue(pending[..8]);
    BytesToBitsAppend(bytes, [b]);
    assert BytesToBits([b]) == Bits(b as int, 8) + BytesToBits([]);
    assert pending == pending[..8] + pending[8..];
  }

  lemma DecodeLengthBound(m: nat, i: nat, n: nat, bitsLeft: nat)
    requires i <= m && 5 * i == 8 * n + bitsLeft && 8 <= bitsLeft
    ensures n < m * Shift / 8
  {
    DivLowerBound(m * 5, 8, n + 1);
  }

  lemma DivLowerBound(x: nat, d: nat, q: nat)
    requires d > 0 && q * d <= x
    ensures q <= x / d
  {
    var r := x / d;
    assert r * d + x % d == x;
    assert (r + 1) * d == r * d + d;
    if q > r {
      MulMonotone(r + 1, q, d);
    }
  }

  lemma DecodeLoopEnd(e: string, bitsLeft: int, buffer: Word, pending: seq<bool>, bytes: seq<byte>)
    requires DecodeInvariant(e, |e|, bitsLeft, buffer, pending, bytes) && bitsLeft < 8
    ensures Legal(e) && bytes == BitsToBytes(SymbolBits(e))
    ensures |bytes| == |e| * Shift / 8
    ensures SymbolsSpec(e) == Success(bytes)
  {
    assert e[..|e|] == e;
    BytesRoundTrip(bytes, pending);
    assert BitsToBytes(pending) == [];
    assert bytes + [] == bytes;
    DivModUnique(|e| * 5, 8, |bytes|, bitsLeft);
  }

  /** Base32.Decode: clean the input, then read its symbols. */
  method Decode(encoded: string) returns (r: Result<seq<byte>, DecodeError>)
    ensures r == DecodeSpec(encoded)
  {
    var e := Text.ToLowerAscii(Text.StripPadding(Text.RemoveAll(Text.Trim(encoded), Separator)));
    r := DecodeSymbols(e);
  }

  /**
   * The rest of Decode, from the empty check on: the loop over the cleaned
   * text e, writing into an array of floor(5 * |e| / 8) bytes, that length
   * computed without wrap-around.
   */
  method DecodeSymbols(e: string) returns (r: Result<seq<byte>, DecodeError>)
    ensures r == SymbolsSpec(e)
  {
    if |e| == 0 {
      DecodeEmpty(e);
      return Success([]);
    }
    var encodedLength := |e|;
    var outLength := encodedLength * Shift / 8;
    var result := new byte[outLength];
    var buffer: Word := 0;
    var next := 0;
    var bitsLeft := 0;
    ghost var pending: seq<bool> := [];
    ghost var bytes: seq<byte> := [];
    DecodeStart(e);
    for i := 0 to |e|
      invariant result.Length == outLength && next == |bytes| <= outLength && bitsLeft < 8
      invariant forall k :: 0 <= k < next ==> result[k] == bytes[k]
      invariant DecodeInvariant(e, i, bitsLeft, buffer, pending, bytes)
    {
      var c := e[i];
      if c !in CharMap {
        DecodeFailsAt(e, i);
        return Failure(IllegalCharacter(c));
      }
      var v := CharMap[c];
      if bitsLeft + Shift >= 8 {
        DecodeSymbolByteStep(e, i, bitsLeft, buffer, pending, bytes, v);
      } else {
        DecodeSymbolStep(e, i, bitsLeft, buffer, pending, bytes, v);
      }
      buffer := BitOr(Shl(buffer, Shift), BitAnd(v, Mask));
      bitsLeft := bitsLeft + Shift;
      pending := pending + Bits(v, 5);
      if bitsLeft >= 8 {
        result[next] := ToByte(Sar(buffer, bitsLeft - 8));
        bytes := bytes + [result[next]];
        next := next + 1;
        bitsLeft := bitsLeft - 8;
        pending := pending[8..];
      }
    }
    DecodeLoopEnd(e, bitsLeft, buffer, pending, bytes);
    assert result[..] == bytes;
    return Success(result[..]);
  }

  // ---------------------------------------------------------------------
  // The output length as the C# expression computes it

  /**
   * `encodedLength * Shift / 8` on C# ints: the product wraps at 2^31 and
   * `/` rounds toward zero. m is a string length, below 2^31.
   */
  function OutLengthAsWritten(m: nat): (r: int)
    requires m < TwoTo31
    ensures m * Shift < TwoTo31 ==> r == m * Shift / 8
  {
    TruncDiv(Wrap32(m * Shift), 8)
  }

  /**
   * At 429496730 symbols the product passes 2^31 - 1 and the length comes out
   * negative, so `new byte[outLength]` throws instead of allocating 268435456 bytes.
   */
  lemma OutLengthOverflows()
    ensures OutLengthAsWritten(429496730) == -268435455
    ensures 429496730 * Shift / 8 == 268435456
  {
    assert Wrap32(429496730 * Shift) == -2147483646;
  }
}
