/** Go's fixed-width integers as bounded mathematical integers, and the bitwise
    operators on non-negative integers, defined bit by bit. */
module Words {

  const TWO_31: nat := 0x8000_0000
  const TWO_32: nat := 0x1_0000_0000
  const TWO_63: nat := 0x8000_0000_0000_0000
  const TWO_64: nat := 0x1_0000_0000_0000_0000
  /** The largest value of Go's `int` on a 64-bit platform, and so the longest slice. */
  const MAX_INT: nat := 0x7FFF_FFFF_FFFF_FFFF

  type byte = x: int | 0 <= x < 256
  type int32 = x: int | -0x8000_0000 <= x < 0x8000_0000
  type uint32 = x: int | 0 <= x < 0x1_0000_0000
  type int64 = x: int | -0x8000_0000_0000_0000 <= x < 0x8000_0000_0000_0000
  type uint64 = x: int | 0 <= x < 0x1_0000_0000_0000_0000

  function Pow2(n: nat): (p: nat)
    ensures p >= 1
  {
    if n == 0 then 1 else 2 * Pow2(n - 1)
  }

  function And(a: nat, b: nat): nat {
    if a == 0 || b == 0 then 0 else (if a % 2 == 1 && b % 2 == 1 then 1 else 0) + 2 * And(a / 2, b / 2)
  }

  function Or(a: nat, b: nat): nat {
    if a == 0 then b else if b == 0 then a
    else (if a % 2 == 1 || b % 2 == 1 then 1 else 0) + 2 * Or(a / 2, b / 2)
  }

  function Xor(a: nat, b: nat): nat {
    if a == 0 then b else if b == 0 then a
    else (if a % 2 != b % 2 then 1 else 0) + 2 * Xor(a / 2, b / 2)
  }

  /** a << n, without a word size. */
  function Shl(a: nat, n: nat): nat {
    if n == 0 then a else 2 * Shl(a, n - 1)
  }

  /** a >> n. */
  function Shr(a: nat, n: nat): nat {
    if n == 0 then a else Shr(a / 2, n - 1)
  }

  /** The low n bits of a. */
  function Low(a: nat, n: nat): nat {
    if n == 0 then 0 else a % 2 + 2 * Low(a / 2, n - 1)
  }

  /** a << n in a 64-bit word. */
  function Shl64(a: nat, n: nat): uint64 {
    Shl(a, n) % TWO_64
  }

  /** Two's-complement negation of a 64-bit word. */
  function Neg64(a: uint64): uint64 {
    (TWO_64 - a) % TWO_64
  }

  // ---------- linear facts, by induction on bits ----------

  lemma {:induction false} LowBound(a: nat, n: nat)
    ensures Low(a, n) <= a && Low(a, n) < Pow2(n)
  {
    if n > 0 {
      LowBound(a / 2, n - 1);
    }
  }

  lemma {:induction false} ShlZero(n: nat)
    ensures Shl(0, n) == 0
  {
    if n > 0 {
      ShlZero(n - 1);
    }
  }

  /** A shift that overflows a word of w bits keeps exactly the low w - s bits of its operand. */
  lemma {:induction false} ShlWraps(a: nat, s: nat, w: nat)
    requires s <= w
    ensures Low(Shl(a, s), w) == Shl(Low(a, w - s), s)
  {
    if s > 0 {
      ShlWraps(a, s - 1, w - 1);
    }
  }

  /** Or-ing in a value shifted past every bit of `a` is addition. */
  lemma {:induction false} OrDisjoint(a: nat, b: nat, s: nat)
    requires a < Pow2(s)
    ensures Or(a, Shl(b, s)) == Or(Shl(b, s), a) == a + Shl(b, s)
  {
    if s > 0 {
      OrDisjoint(a / 2, b, s - 1);
    }
  }

  /** Masking with n ones keeps the low n bits. */
  lemma {:induction false} AndMask(a: nat, n: nat)
    ensures And(a, Pow2(n) - 1) == Low(a, n)
  {
    if n > 0 {
      AndMask(a / 2, n - 1);
      assert (Pow2(n) - 1) / 2 == Pow2(n - 1) - 1 && (Pow2(n) - 1) % 2 == 1;
      if a == 0 {
        LowBound(0, n);
      }
    }
  }

  lemma {:induction false} OrBounds(a: nat, b: nat, n: nat)
    requires a < Pow2(n) && b < Pow2(n)
    ensures a <= Or(a, b) < Pow2(n) && b <= Or(a, b)
  {
    if n > 0 {
      OrBounds(a / 2, b / 2, n - 1);
    }
  }

  lemma {:induction false} OrIsZero(a: nat, b: nat)
    ensures Or(a, b) == 0 <==> a == 0 && b == 0
  {
    if a != 0 && b != 0 {
      OrIsZero(a / 2, b / 2);
    }
  }

  lemma {:induction false} XorIsZero(a: nat, b: nat)
    ensures Xor(a, b) == 0 <==> a == b
  {
    if a != 0 && b != 0 {
      XorIsZero(a / 2, b / 2);
    }
  }

  lemma {:induction false} XorBound(a: nat, b: nat, n: nat)
    requires a < Pow2(n) && b < Pow2(n)
    ensures Xor(a, b) < Pow2(n)
  {
    if n > 0 {
      XorBound(a / 2, b / 2, n - 1);
    }
  }

  lemma ShlPlus7(a: nat, n: nat)
    ensures Shl(a, n + 7) == 0x80 * Shl(a, n)
  {
    assert Shl(a, n + 2) == 4 * Shl(a, n);
    assert Shl(a, n + 4) == 16 * Shl(a, n);
    assert Shl(a, n + 6) == 64 * Shl(a, n);
  }

  lemma ShlPlus8(a: nat, n: nat)
    ensures Shl(a, n + 8) == 0x100 * Shl(a, n)
  {
    ShlPlus7(a, n);
  }

  // ---------- products ----------

  lemma MulSucc(n: nat, w: nat)
    ensures (n + 1) * w == n * w + w
  {
  }

  lemma MulMono(a: int, b: int, w: nat)
    requires a <= b
    ensures a * w <= b * w
  {
  }

  // ---------- the same operators as arithmetic ----------

  /** Quotient and remainder are determined by their equation. */
  lemma ModUnique(a: int, m: nat, q: int, r: nat)
    requires m > 0 && a == q * m + r && r < m
    ensures a / m == q && a % m == r
  {
    var d := a / m - q;
    assert d * m == r - a % m;
    assert d == 0;
  }

  /** Dividing twice is dividing by the product. */
  lemma DivDiv(v: nat, a: nat, p: nat)
    requires a > 0 && p > 0
    ensures a * p > 0 && v / a / p == v / (a * p)
  {
    var q, s := v / a, v % a;
    var m, r := q / p, q % p;
    DivMod(v, a, q, s);
    DivMod(q, p, m, r);
    QuotientOfProduct(v, a, p, q, m, r, s);
  }

  lemma DivMod(v: nat, a: nat, q: nat, r: nat)
    requires a > 0 && q == v / a && r == v % a
    ensures v == a * q + r && r < a
  {
  }

  lemma QuotientOfProduct(v: nat, a: nat, p: nat, q: nat, m: nat, r: nat, s: nat)
    requires r < p && s < a && q == p * m + r && v == a * q + s
    ensures a * p > 0 && v / (a * p) == m
  {
    ProductPositive(a, p);
    Regroup(a, p, m, r, s);
    ModUnique(v, a * p, m, a * r + s);
  }

  lemma ProductPositive(a: nat, p: nat)
    requires a > 0 && p > 0
    ensures a * p > 0
  {
  }

  lemma Regroup(a: nat, p: nat, q: nat, r: nat, s: nat)
    requires r < p && s < a
    ensures a * (p * q + r) + s == q * (a * p) + (a * r + s)
    ensures a * r + s < a * p
  {
    assert a * (p * q + r) == a * (p * q) + a * r;
    assert a * (p * q) == q * (a * p);
    MulMono(r + 1, p, a);
    assert (r + 1) * a == a * r + a;
  }

  lemma DivStep(n: nat, w: nat)
    requires 0 < w <= n
    ensures n / w == 1 + (n - w) / w && n % w == (n - w) % w
  {
    var q, r := (n - w) / w, (n - w) % w;
    assert n == (1 + q) * w + r;
    ModUnique(n, w, 1 + q, r);
  }

  lemma HalfMod(a: nat, p: nat)
    requires p > 0
    ensures a % (2 * p) == a % 2 + 2 * ((a / 2) % p) && a / (2 * p) == (a / 2) / p
  {
    var q, r := (a / 2) / p, (a / 2) % p;
    assert a / 2 == q * p + r;
    assert a == q * (2 * p) + (a % 2 + 2 * r);
    ModUnique(a, 2 * p, q, a % 2 + 2 * r);
  }

  lemma {:induction false} LowIsMod(a: nat, n: nat)
    ensures Low(a, n) == a % Pow2(n)
  {
    if n > 0 {
      var p: nat := Pow2(n - 1);
      LowIsMod(a / 2, n - 1);
      HalfMod(a, p);
    }
  }

  lemma {:induction false} Pow2IsShl(n: nat)
    ensures Shl(1, n) == Pow2(n)
  {
    if n > 0 {
      Pow2IsShl(n - 1);
    }
  }

  lemma Pow2Zero()
    ensures Pow2(0) == 1
  {
  }

  lemma Pow2Small()
    ensures Pow2(2) == 4 && Pow2(3) == 8 && Pow2(4) == 16 && Pow2(5) == 32 && Pow2(7) == 0x80 && Pow2(8) == 0x100
  {
    assert Pow2(1) == 2;
    assert Pow2(3) == 8;
    assert Pow2(5) == 32;
  }

  lemma {:induction false} Pow2Plus8(n: nat)
    ensures Pow2(n + 8) == 0x100 * Pow2(n)
  {
    assert Pow2(n + 2) == 4 * Pow2(n);
    assert Pow2(n + 4) == 16 * Pow2(n);
    assert Pow2(n + 6) == 64 * Pow2(n);
  }

  lemma Pow2Words()
    ensures Pow2(16) == 0x1_0000 && Pow2(24) == 0x100_0000 && Pow2(31) == TWO_31 && Pow2(32) == TWO_32
    ensures Pow2(63) == TWO_63 && Pow2(64) == TWO_64
  {
    hide Pow2;
    Pow2Small();
    Pow2Plus8(8);
    Pow2Plus8(16);
    Pow2Plus8(24);
    Pow2Plus8(32);
    Pow2Plus8(40);
    Pow2Plus8(48);
    Pow2Plus8(56);
    Pow2Step(31);
    Pow2Step(63);
  }

  lemma Pow2Step(n: nat)
    ensures Pow2(n + 1) == 2 * Pow2(n)
  {
  }

  /** Reduction to a 64-bit word keeps the low 64 bits. */
  lemma Low64(a: nat)
    ensures Low(a, 64) == a % TWO_64
  {
    hide Low, Pow2;
    LowIsMod(a, 64);
    Pow2Words();
  }
}
