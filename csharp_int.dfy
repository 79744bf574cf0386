/**
 * The parts of C#'s `byte` and 32-bit `int` arithmetic that the codec relies on.
 *
 * A C# `int` is represented by its 32 bits read as an unsigned number (a `Word`),
 * so that `<<` loses the bits shifted out at the top exactly as the unchecked C#
 * operator does, and `>>` copies the sign bit as C#'s arithmetic shift does.
 * `|` and `&` are the bitwise operators on such patterns.
 */
module CSharp {

  /** A C# `byte`. */
  newtype byte = x: int | 0 <= x < 256

  const TwoTo31: int := 0x8000_0000
  const TwoTo32: int := 0x1_0000_0000

  /** The 32-bit pattern of a C# `int`, in two's complement, read as unsigned. */
  type Word = x: int | 0 <= x < 0x1_0000_0000

  function Pow2(k: nat): (p: nat)
    ensures p >= 1
  {
    if k == 0 then 1 else 2 * Pow2(k - 1)
  }

  /** `x << k` on a C# `int`. */
  function Shl(x: Word, k: nat): Word
    requires k < 32
  {
    (x * Pow2(k)) % TwoTo32
  }

  /** `x >> k` on a C# `int`: an arithmetic shift, the sign bit fills the top k bits. */
  function Sar(x: Word, k: nat): Word
    requires k < 32
  {
    Pow2Split32(k);
    DivLess(x, Pow2(k), Pow2(32 - k));
    if x < TwoTo31 then x / Pow2(k) else x / Pow2(k) + (TwoTo32 - Pow2(32 - k))
  }

  /** `a | b`, bit by bit. */
  function BitOr(a: nat, b: nat): nat
  {
    if a == 0 then b
    else if b == 0 then a
    else 2 * BitOr(a / 2, b / 2) + (if a % 2 == 1 || b % 2 == 1 then 1 else 0)
  }

  /** `a & b`, bit by bit. */
  function BitAnd(a: nat, b: nat): nat
  {
    if a == 0 || b == 0 then 0
    else 2 * BitAnd(a / 2, b / 2) + (if a % 2 == 1 && b % 2 == 1 then 1 else 0)
  }

  /** The unchecked cast `(byte)x`: the low 8 bits. */
  function ToByte(x: Word): byte
  {
    (x % 256) as byte
  }

  /** The C# `int` that the exact value x becomes under unchecked arithmetic. */
  function Wrap32(x: int): (r: int)
    ensures -TwoTo31 <= r < TwoTo31
    ensures (x - r) % TwoTo32 == 0
  {
    (x + TwoTo31) % TwoTo32 - TwoTo31
  }

  /**
   * C#'s `/` on `int`, which rounds toward zero: q * b is the multiple of b
   * nearest to a on the side of zero, so the remainder takes a's sign.
   */
  function TruncDiv(a: int, b: int): (q: int)
    requires b > 0
    ensures a >= 0 ==> 0 <= q * b <= a < q * b + b
    ensures a < 0 ==> q * b - b < a <= q * b <= 0
  {
    if a >= 0 then
      DivBounds(a, b);
      a / b
    else
      DivBounds(-a, b);
      assert -((-a) / b) * b == -(((-a) / b) * b);
      -((-a) / b)
  }

  /** The quotient of a non-negative n by b is the largest multiple count that fits. */
  lemma DivBounds(n: int, b: int)
    requires n >= 0 && b > 0
    ensures 0 <= (n / b) * b <= n < (n / b) * b + b
  {
    assert n == (n / b) * b + n % b;
  }

  // ---------------------------------------------------------------------
  // Arithmetic facts about powers of two

  lemma {:induction false} Pow2Add(a: nat, b: nat)
    ensures Pow2(a + b) == Pow2(a) * Pow2(b)
  {
    if a > 0 {
      Pow2Add(a - 1, b);
    }
  }

  lemma Pow2Five()
    ensures Pow2(5) == 32
  {
  }

  lemma Pow2Eight()
    ensures Pow2(8) == 256
  {
  }

  lemma Pow2ThirtyTwo()
    ensures Pow2(32) == TwoTo32
  {
    Pow2Eight();
    Pow2Add(8, 8);
    Pow2Add(16, 16);
  }

  lemma Pow2Split32(k: nat)
    requires k <= 32
    ensures Pow2(k) * Pow2(32 - k) == TwoTo32
  {
    Pow2Add(k, 32 - k);
    Pow2ThirtyTwo();
  }

  lemma MulMonotone(a: int, b: int, d: int)
    requires a <= b && d >= 0
    ensures a * d <= b * d
  {
    var c := b - a;
    assert b * d == a * d + c * d;
  }

  /** Division with remainder has a unique answer. */
  lemma DivModUnique(x: int, d: int, q: int, r: int)
    requires d > 0 && 0 <= r < d && x == q * d + r
    ensures x / d == q && x % d == r
  {
    var q' := x / d;
    assert x == q' * d + x % d;
    if q > q' {
      MulMonotone(q' + 1, q, d);
    } else if q < q' {
      MulMonotone(q + 1, q', d);
    }
  }

  lemma DivLess(x: nat, d: nat, e: nat)
    requires d > 0 && x < d * e
    ensures x / d < e
  {
  }

  /** r * m stays below n * m when r is below n. */
  lemma MulBelow(r: nat, n: nat, m: nat)
    requires r < n
    ensures r * m + m <= n * m
  {
    MulMonotone(r + 1, n, m);
  }

  lemma Distrib(q: int, m: int, t: int, n: int)
    ensures (q * m + t) * n == q * (m * n) + t * n
  {
  }

  lemma MulModProduct(x: nat, m: nat, n: nat)
    requires m > 0 && n > 0
    ensures (x * n) % (m * n) == (x % m) * n
  {
    var q, r := x / m, x % m;
    assert x * n == q * (m * n) + r * n by {
      assert x == q * m + r;
      Distrib(q, m, r, n);
    }
    assert r * n < m * n by { MulBelow(r, m, n); }
    DivModUnique(x * n, m * n, q, r * n);
  }

  lemma ModModProduct(x: nat, m: nat, n: nat)
    requires m > 0 && n > 0
    ensures (x % (n * m)) % m == x % m
  {
    var q, r := x / (n * m), x % (n * m);
    var q', r' := r / m, r % m;
    assert x == (q * n + q') * m + r' by {
      assert x == q * (n * m) + r;
      assert r == q' * m + r';
      Distrib(q, n, q', m);
    }
    DivModUnique(x, m, q * n + q', r');
  }

  lemma DivModProduct(x: nat, m: nat, n: nat)
    requires m > 0 && n > 0
    ensures (x / m) % n == (x % (n * m)) / m
  {
    var q, r := x / (n * m), x % (n * m);
    var hi, lo := r / m, r % m;
    assert x == (q * n + hi) * m + lo by {
      assert x == q * (n * m) + r;
      assert r == hi * m + lo;
      Distrib(q, n, hi, m);
    }
    assert x / m == q * n + hi by {
      DivModUnique(x, m, q * n + hi, lo);
    }
    assert hi < n by {
      DivLess(r, m, n);
    }
    DivModUnique(x / m, n, q, hi);
  }

  /** Multiplying by 2^k moves the low b bits up by k places. */
  lemma MulPow2Mod(x: nat, b: nat, k: nat)
    ensures (x * Pow2(k)) % Pow2(b + k) == (x % Pow2(b)) * Pow2(k)
  {
    Pow2Add(b, k);
    MulModProduct(x, Pow2(b), Pow2(k));
  }

  /** The low a bits of the low a+b bits are the low a bits. */
  lemma ModMod(x: nat, a: nat, b: nat)
    ensures (x % Pow2(a + b)) % Pow2(a) == x % Pow2(a)
  {
    Pow2Add(b, a);
    ModModProduct(x, Pow2(a), Pow2(b));
  }

  /** Bits s .. s+j-1 of x, read either way round. */
  lemma DivMod(x: nat, s: nat, j: nat)
    ensures (x / Pow2(s)) % Pow2(j) == (x % Pow2(s + j)) / Pow2(s)
  {
    Pow2Add(j, s);
    DivModProduct(x, Pow2(s), Pow2(j));
  }

  /** Adding a multiple of m does not change the remainder modulo m. */
  lemma ModAddMultiple(y: nat, m: nat, c: nat)
    requires m > 0
    ensures (y + c * m) % m == y % m
  {
    assert y + c * m == (y / m + c) * m + y % m by {
      assert y == (y / m) * m + y % m;
      Distrib(y / m, 1, c, m);
    }
    DivModUnique(y + c * m, m, y / m + c, y % m);
  }

  // ---------------------------------------------------------------------
  // Bitwise operators on disjoint and masked operands

  /** `|` adds when the low k bits of a are zero and b fits in them. */
  lemma {:induction false} BitOrDisjoint(a: nat, b: nat, k: nat)
    requires a % Pow2(k) == 0 && b < Pow2(k)
    ensures BitOr(a, b) == a + b
  {
    if a != 0 && b != 0 {
      assert k > 0;
      var q := a / Pow2(k);
      assert a == q * Pow2(k);
      assert a == 2 * (q * Pow2(k - 1));
      assert a / 2 == q * Pow2(k - 1) && a % 2 == 0;
      ModAddMultiple(0, Pow2(k - 1), q);
      DivLess(b, 2, Pow2(k - 1));
      BitOrDisjoint(a / 2, b / 2, k - 1);
    }
  }

  lemma ModDouble(x: nat, p: nat)
    requires p > 0
    ensures x % (2 * p) == 2 * ((x / 2) % p) + x % 2
  {
    var q, r := (x / 2) / p, (x / 2) % p;
    assert x == q * (2 * p) + (2 * r + x % 2) by {
      assert x / 2 == q * p + r;
      assert x == 2 * (x / 2) + x % 2;
    }
    DivModUnique(x, 2 * p, q, 2 * r + x % 2);
  }

  /** `&` with 2^k - 1 keeps the low k bits. */
  lemma {:induction false} BitAndLowMask(x: nat, k: nat)
    ensures BitAnd(x, Pow2(k) - 1) == x % Pow2(k)
    ensures BitAnd(Pow2(k) - 1, x) == x % Pow2(k)
  {
    if x != 0 && k != 0 {
      var p := Pow2(k - 1);
      assert Pow2(k) == 2 * p;
      var m := 2 * p - 1;
      assert m / 2 == p - 1 && m % 2 == 1 && m != 0;
      BitAndLowMask(x / 2, k - 1);
      ModDouble(x, p);
    }
  }

  lemma ModAddSmall(s: nat, v: nat, p: nat)
    requires p > 0 && s % p + v < p
    ensures (s + v) % p == s % p + v
  {
    DivModUnique(s + v, p, s / p, s % p + v);
  }

  /** A multiple of d below d * e leaves room for d more. */
  lemma MultipleBelow(s: nat, d: nat, e: nat)
    requires d > 0 && s % d == 0 && s < d * e
    ensures s + d <= d * e
  {
    var t := s / d;
    assert s == t * d;
    DivLess(s, d, e);
    MulBelow(t, e, d);
  }

  function MulNat(a: nat, b: nat): (c: nat)
    ensures c == a * b
  {
    a * b
  }

  lemma FillAlgebra(a: int, b: int, c: int)
    ensures a * (b * c) - b * c == ((a - 1) * b) * c
  {
  }

  /** The bits that `>>` fills in from the sign form a multiple of 2^j. */
  lemma SarFillIsMultiple(s: nat, j: nat)
    requires s < 32 && s + j <= 32
    ensures TwoTo32 - Pow2(32 - s) == ((Pow2(s) - 1) * Pow2(32 - s - j)) * Pow2(j)
  {
    var a, b, c := Pow2(s), Pow2(32 - s - j), Pow2(j);
    assert TwoTo32 == a * Pow2(32 - s) by { Pow2Split32(s); }
    assert Pow2(32 - s) == b * c by { Pow2Add(32 - s - j, j); }
    FillAlgebra(a, b, c);
  }

  /** The sign fill of `>>` lies above the bits that are read afterwards. */
  lemma SarLowBits(x: Word, s: nat, j: nat)
    requires s < 32 && s + j <= 32
    ensures Sar(x, s) % Pow2(j) == (x % Pow2(s + j)) / Pow2(s)
  {
    var y := x / Pow2(s);
    var pj := Pow2(j);
    if x >= TwoTo31 {
      var a: nat, b: nat := Pow2(s) - 1, Pow2(32 - s - j);
      var c: nat := MulNat(a, b);
      assert Sar(x, s) == y + c * pj by {
        SarFillIsMultiple(s, j);
      }
      ModAddMultiple(y, pj, c);
    }
    assert Sar(x, s) % pj == y % pj;
    DivMod(x, s, j);
  }

  /**
   * The C# register step `(w << k) | v` for a v of k bits: the low b bits of w
   * move up by k and v fills the bits below; nothing above b + k is read.
   */
  lemma ShiftIn(w: Word, b: nat, k: nat, v: nat)
    requires k < 32 && b + k <= 32 && v < Pow2(k)
    ensures BitOr(Shl(w, k), v) < TwoTo32
    ensures BitOr(Shl(w, k), v) % Pow2(b + k) == (w % Pow2(b)) * Pow2(k) + v
  {
    var s := Shl(w, k);
    var pk := Pow2(k);
    assert s % pk == 0 by {
      ShlLowBits(w, 0, k);
    }
    BitOrDisjoint(s, v, k);
    assert s + v < TwoTo32 by {
      Pow2Split32(k);
      MultipleBelow(s, pk, Pow2(32 - k));
    }
    var lo := (w % Pow2(b)) * pk;
    assert s % Pow2(b + k) == lo by {
      ShlLowBits(w, b, k);
    }
    assert lo + v < Pow2(b + k) by {
      Pow2Add(b, k);
      MulBelow(w % Pow2(b), Pow2(b), pk);
    }
    ModAddSmall(s, v, Pow2(b + k));
  }

  /** The C# register step `w << k`: the low b bits of w move up by k. */
  lemma ShlLowBits(w: Word, b: nat, k: nat)
    requires k < 32 && b + k <= 32
    ensures Shl(w, k) % Pow2(b + k) == (w % Pow2(b)) * Pow2(k)
  {
    var x := w * Pow2(k);
    assert Shl(w, k) == x % Pow2(32) by { Pow2ThirtyTwo(); }
    assert (x % Pow2(32)) % Pow2(b + k) == x % Pow2(b + k) by {
      ModMod(x, b + k, 32 - (b + k));
    }
    MulPow2Mod(w, b, k);
  }

  /**
   * Reading j bits below bit b of the C# register, `(w >> (b - j))` followed by
   * a mask or a byte cast, depends only on the low b bits of w.
   */
  lemma ExtractTop(w: Word, b: nat, j: nat)
    requires 1 <= j <= b <= 32
    ensures Sar(w, b - j) % Pow2(j) == (w % Pow2(b)) / Pow2(b - j)
  {
    SarLowBits(w, b - j, j);
  }
}
