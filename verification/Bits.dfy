/** Bitwise operations on natural numbers, and powers of two. */
module Bits {

  function Pow2(n: nat): (r: nat)
    ensures r > 0
  {
    if n == 0 then 1 else 2 * Pow2(n - 1)
  }

  lemma {:induction false} Pow2Add(a: nat, b: nat)
    ensures Pow2(a + b) == Pow2(a) * Pow2(b)
    decreases a
  {
    if a > 0 { Pow2Add(a - 1, b); }
  }

  lemma {:induction false} Pow2Monotone(a: nat, b: nat)
    requires a <= b
    ensures Pow2(a) <= Pow2(b)
    decreases b - a
  {
    if a < b { Pow2Monotone(a, b - 1); }
  }

  lemma Pow2Words()
    ensures Pow2(7) == 128 && Pow2(8) == 256 && Pow2(56) == 0x100_0000_0000_0000
    ensures Pow2(63) == 0x8000_0000_0000_0000 && Pow2(64) == 0x1_0000_0000_0000_0000
    ensures Pow2(70) == 64 * 0x1_0000_0000_0000_0000
  {
    assert Pow2(8) == 256;
    assert Pow2(16) == 0x1_0000 by { Pow2Add(8, 8); }
    assert Pow2(32) == 0x1_0000_0000 by { Pow2Add(16, 16); }
    assert Pow2(48) == 0x1_0000_0000_0000 by { Pow2Add(32, 16); }
    assert Pow2(56) == 0x100_0000_0000_0000 by { Pow2Add(48, 8); }
    assert Pow2(7) == 128;
    assert Pow2(63) == 0x8000_0000_0000_0000 by { Pow2Add(56, 7); }
    assert Pow2(64) == 2 * Pow2(63);
    assert Pow2(6) == 64;
    assert Pow2(70) == 64 * Pow2(64) by { Pow2Add(6, 64); }
  }

  function And(a: nat, b: nat): nat
    decreases a + b
  {
    if a == 0 || b == 0 then 0 else (a % 2) * (b % 2) + 2 * And(a / 2, b / 2)
  }

  function Or(a: nat, b: nat): nat
    decreases a + b
  {
    if a == 0 then b else if b == 0 then a
    else (if a % 2 == 1 || b % 2 == 1 then 1 else 0) + 2 * Or(a / 2, b / 2)
  }

  function Xor(a: nat, b: nat): nat
    decreases a + b
  {
    if a == 0 then b else if b == 0 then a
    else (if a % 2 != b % 2 then 1 else 0) + 2 * Xor(a / 2, b / 2)
  }

  function Shl(a: nat, n: nat): nat { a * Pow2(n) }

  function Shr(a: nat, n: nat): nat
  {
    QuotientNonNegative(a, Pow2(n));
    a / Pow2(n)
  }

  lemma QuotientNonNegative(a: nat, m: int)
    requires m > 0
    ensures a / m >= 0
  {
  }

  /** Masking with k ones keeps the low k bits. */
  lemma {:induction false} AndMask(a: nat, k: nat)
    ensures And(a, Pow2(k) - 1) == a % Pow2(k)
    decreases k
  {
    if k == 0 {
      AndZero(a);
    } else {
      AndMask(a / 2, k - 1);
      AndMaskStep(a, Pow2(k - 1));
      assert Pow2(k) == 2 * Pow2(k - 1);
    }
  }

  lemma AndMaskStep(a: nat, p: nat)
    requires p > 0 && And(a / 2, p - 1) == (a / 2) % p
    ensures And(a, 2 * p - 1) == a % (2 * p)
  {
    AndOdd(a, p);
    HalfMod(a, p);
  }

  lemma AndOdd(a: nat, p: nat)
    requires p > 0
    ensures And(a, 2 * p - 1) == a % 2 + 2 * And(a / 2, p - 1)
  {
    assert (2 * p - 1) / 2 == p - 1 && (2 * p - 1) % 2 == 1;
  }

  lemma HalfMod(a: nat, p: nat)
    requires p > 0
    ensures a % (2 * p) == a % 2 + 2 * ((a / 2) % p)
  {
    var q, r := (a / 2) / p, (a / 2) % p;
    assert a == 2 * p * q + (a % 2 + 2 * r) by { assert a == a % 2 + 2 * (q * p + r); }
    ModUnique(a, 2 * p, q, a % 2 + 2 * r);
  }

  lemma ModUnique(a: int, m: int, q: int, r: int)
    requires 0 <= r < m && a == m * q + r
    ensures a % m == r && a / m == q
  {
    DivMod(a, m);
    SameQuotient(m, q, r, a / m, a % m);
  }

  lemma DivMod(a: int, m: int)
    requires m > 0
    ensures a == m * (a / m) + a % m && 0 <= a % m < m
  {
  }

  lemma SameQuotient(m: int, q: int, r: int, q': int, r': int)
    requires 0 <= r < m && 0 <= r' < m && m * q + r == m * q' + r'
    ensures q == q' && r == r'
  {
    var d := q - q';
    assert m * d == m * q - m * q' == r' - r;
    Stretch(m, d);
  }

  lemma Stretch(m: int, d: int)
    requires m > 0
    ensures d > 0 ==> m * d >= m
    ensures d < 0 ==> m * d <= -m
  {
    if d > 0 {
      assert m * (d - 1) >= 0;
    } else if d < 0 {
      assert m * (-d - 1) >= 0;
    }
  }

  /** Or of numbers without common bits is their sum. */
  lemma {:induction false} OrDisjoint(a: nat, b: nat, k: nat)
    requires a < Pow2(k)
    ensures Or(a, b * Pow2(k)) == a + b * Pow2(k)
    decreases k
  {
    if a > 0 && b > 0 {
      var p := Pow2(k - 1);
      assert b * Pow2(k) == 2 * (b * p) && b * p > 0;
      OrDisjoint(a / 2, b, k - 1);
      OrEven(a, b * p);
    }
  }

  lemma OrEven(a: nat, h: nat)
    requires a > 0 && h > 0
    ensures Or(a, 2 * h) == a % 2 + 2 * Or(a / 2, h)
  {
  }

  /** Clearing the lowest bit by Xor with itself. */
  lemma XorLowBit(a: nat)
    ensures Xor(a, a % 2) == a - a % 2
  {
    if a % 2 == 1 && a > 1 { assert Xor(a / 2, 0) == a / 2; }
  }

  /** Masking with 0x7f keeps the low seven bits. */
  lemma And127(a: nat)
    ensures And(a, 127) == a % 128
  {
    AndMask(a, 7);
    assert Pow2(7) == 128;
  }

  /** Masking with 0x7e keeps bits 1 to 6. */
  lemma And126(a: nat)
    ensures And(a, 126) == a % 128 - a % 2
  {
    if a > 0 {
      AndMask(a / 2, 6);
      assert Pow2(6) == 64;
      HalfMod(a, 64);
    }
  }

  lemma AndZero(a: nat)
    ensures And(a, 0) == 0
  {
  }

  /** Masking with a single bit tests it. */
  lemma And64(a: nat)
    ensures And(a, 64) == ((a / 64) % 2) * 64
  {
    AndBit(a, 6);
    assert Pow2(6) == 64;
  }

  lemma AndNone(a: nat)
    ensures And(0, a) == And(a, 0) == 0
  {
  }

  lemma AndStep(a: nat, b: nat)
    requires a > 0 && b > 0
    ensures And(a, b) == (a % 2) * (b % 2) + 2 * And(a / 2, b / 2)
  {
  }

  lemma AndEven(a: nat, m: nat)
    ensures And(a, 2 * m) == 2 * And(a / 2, m)
  {
    hide And;
    AndNone(2 * m);
    AndNone(m);
    AndNone(a);
    AndNone(a / 2);
    if a > 0 && m > 0 {
      assert 2 * m / 2 == m && 2 * m % 2 == 0;
      AndStep(a, 2 * m);
    }
  }

  lemma {:induction false} AndBit(a: nat, k: nat)
    ensures And(a, Pow2(k)) == ((a / Pow2(k)) % 2) * Pow2(k)
    decreases k
  {
    if k == 0 {
      if a > 0 { assert And(a / 2, 0) == 0; }
      return;
    }
    hide And;
    var p := Pow2(k - 1);
    AndBit(a / 2, k - 1);
    assert Pow2(k) == 2 * p;
    QuotientHalves(a, p);
    AndEven(a, p);
  }

  lemma QuotientHalves(a: nat, p: nat)
    requires p > 0
    ensures a / (2 * p) == (a / 2) / p
  {
    var h := a / 2;
    DivMod(h, p);
    assert a == 2 * p * (h / p) + (a % 2 + 2 * (h % p)) by { assert 2 * (p * (h / p) + h % p) == 2 * h; }
    ModUnique(a, 2 * p, h / p, a % 2 + 2 * (h % p));
  }
}
