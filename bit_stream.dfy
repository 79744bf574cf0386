/**
 * Bit strings, most significant bit first: the view of a byte sequence that
 * Base32 cuts into 5-bit groups, and the way back to whole bytes.
 */
module BitStream {
  import opened CSharp

  /** The number a bit string spells, most significant bit first. */
  function Value(s: seq<bool>): (v: nat)
    ensures v < Pow2(|s|)
  {
    if s == [] then 0 else 2 * Value(s[..|s| - 1]) + (if s[|s| - 1] then 1 else 0)
  }

  /** The low `width` bits of x, most significant first. */
  function Bits(x: nat, width: nat): (s: seq<bool>)
    ensures |s| == width
  {
    if width == 0 then [] else Bits(x / 2, width - 1) + [x % 2 == 1]
  }

  function Zeros(n: nat): (s: seq<bool>)
    ensures |s| == n
    ensures forall i :: 0 <= i < n ==> !s[i]
  {
    seq(n, _ => false)
  }

  /** The bytes as one bit stream, each byte most significant bit first. */
  function BytesToBits(data: seq<byte>): (s: seq<bool>)
    ensures |s| == 8 * |data|
  {
    if data == [] then [] else Bits(data[0] as int, 8) + BytesToBits(data[1..])
  }

  /** The whole bytes at the front of a bit stream; fewer than 8 leftover bits are dropped. */
  function BitsToBytes(s: seq<bool>): (r: seq<byte>)
    ensures |r| == |s| / 8
  {
    if |s| < 8 then []
    else
      Pow2Eight();
      [Value(s[..8]) as byte] + BitsToBytes(s[8..])
  }

  // ---------------------------------------------------------------------

  /** Appending t shifts the value of s up by |t| places. */
  lemma {:induction false} ValueAppend(s: seq<bool>, t: seq<bool>)
    ensures Value(s + t) == Value(s) * Pow2(|t|) + Value(t)
  {
    if t == [] {
      assert s + t == s;
    } else {
      var t' := t[..|t| - 1];
      assert (s + t)[..|s + t| - 1] == s + t';
      ValueAppend(s, t');
      assert Value(t) == 2 * Value(t') + (if t[|t| - 1] then 1 else 0);
      DoubleProduct(Value(s), Pow2(|t'|));
    }
  }

  lemma DoubleProduct(a: int, p: int)
    ensures 2 * (a * p) == a * (2 * p)
  {
  }

  lemma {:induction false} ValueZeros(n: nat)
    ensures Value(Zeros(n)) == 0
  {
    if n > 0 {
      assert Zeros(n)[..n - 1] == Zeros(n - 1);
      ValueZeros(n - 1);
    }
  }

  /** Bits(x, w) spells the low w bits of x. */
  lemma {:induction false} ValueOfBits(x: nat, w: nat)
    ensures Value(Bits(x, w)) == x % Pow2(w)
  {
    if w > 0 {
      var s := Bits(x, w);
      assert s[..w - 1] == Bits(x / 2, w - 1);
      ValueOfBits(x / 2, w - 1);
      ModDouble(x, Pow2(w - 1));
    }
  }

  /** Writing out the value of s in |s| bits gives s back. */
  lemma {:induction false} BitsOfValue(s: seq<bool>)
    ensures Bits(Value(s), |s|) == s
  {
    if s != [] {
      var s' := s[..|s| - 1];
      BitsOfValue(s');
      assert s == s' + [s[|s| - 1]];
    }
  }

  /** The first k bits of s are its value divided by 2^(|s|-k); the rest are the remainder. */
  lemma ValueSplit(s: seq<bool>, k: nat)
    requires k <= |s|
    ensures Value(s) / Pow2(|s| - k) == Value(s[..k])
    ensures Value(s) % Pow2(|s| - k) == Value(s[k..])
  {
    assert s == s[..k] + s[k..];
    ValueAppend(s[..k], s[k..]);
    DivModUnique(Value(s), Pow2(|s| - k), Value(s[..k]), Value(s[k..]));
  }

  lemma {:induction false} BytesToBitsAppend(a: seq<byte>, b: seq<byte>)
    ensures BytesToBits(a + b) == BytesToBits(a) + BytesToBits(b)
  {
    if a == [] {
      assert a + b == b;
    } else {
      assert (a + b)[0] == a[0];
      assert (a + b)[1..] == a[1..] + b;
      BytesToBitsAppend(a[1..], b);
    }
  }

  /** Whole bytes in front of t come out unchanged. */
  lemma {:induction false} BitsToBytesAppend(s: seq<bool>, t: seq<bool>)
    requires |s| % 8 == 0
    ensures BitsToBytes(s + t) == BitsToBytes(s) + BitsToBytes(t)
  {
    if s == [] {
      assert s + t == t;
    } else {
      assert (s + t)[..8] == s[..8];
      assert (s + t)[8..] == s[8..] + t;
      BitsToBytesAppend(s[8..], t);
    }
  }

  /** The 8 bits of a byte read back as a byte. */
  lemma ByteRoundTrip(b: byte)
    ensures BitsToBytes(Bits(b as int, 8)) == [b]
  {
    var head := Bits(b as int, 8);
    assert Value(head) == b as int by {
      ValueOfBits(b as int, 8);
      Pow2Eight();
    }
    assert head[..8] == head;
    assert head[8..] == [];
    assert BitsToBytes(head) == [Value(head[..8]) as byte];
  }

  /** Reading bytes back off the bit stream of data, with anything after it. */
  lemma {:induction false} BytesRoundTrip(data: seq<byte>, t: seq<bool>)
    ensures BitsToBytes(BytesToBits(data) + t) == data + BitsToBytes(t)
  {
    if data == [] {
      assert BytesToBits(data) + t == t;
    } else {
      var head, rest := Bits(data[0] as int, 8), BytesToBits(data[1..]) + t;
      assert BytesToBits(data) + t == head + rest;
      calc {
        BitsToBytes(head + rest);
      == { BitsToBytesAppend(head, rest); }
        BitsToBytes(head) + BitsToBytes(rest);
      == { ByteRoundTrip(data[0]); BytesRoundTrip(data[1..], t); }
        [data[0]] + (data[1..] + BitsToBytes(t));
      == { assert data == [data[0]] + data[1..]; }
        data + BitsToBytes(t);
      }
    }
  }
}
