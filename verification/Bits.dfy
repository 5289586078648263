/** Bitwise operations on natural numbers, and the arithmetic that shifts and masks made of powers
    of two stand for. */
module Bits {
  import opened Arith

  function Pow2(n: nat): (r: nat)
    ensures r >= 1
  {
    if n == 0 then 1 else 2 * Pow2(n - 1)
  }

  function BitAnd(x: nat, y: nat): nat
    decreases x
  {
    if x == 0 || y == 0 then 0
    else (if x % 2 == 1 && y % 2 == 1 then 1 else 0) + 2 * BitAnd(x / 2, y / 2)
  }

  function BitOr(x: nat, y: nat): nat
    decreases x + y
  {
    if x == 0 && y == 0 then 0
    else (if x % 2 == 1 || y % 2 == 1 then 1 else 0) + 2 * BitOr(x / 2, y / 2)
  }

  function ShiftRight(x: nat, k: nat): nat {
    if k == 0 then x else ShiftRight(x / 2, k - 1)
  }

  // ---- one bit at a time

  lemma AndStep(x: nat, h: nat, b: nat, y: nat, m: nat, c: nat)
    requires x == 2 * h + b && y == 2 * m + c && b < 2 && c < 2
    ensures BitAnd(x, y) == (if b == 1 && c == 1 then 1 else 0) + 2 * BitAnd(h, m)
  {
    assert x / 2 == h && x % 2 == b && y / 2 == m && y % 2 == c;
  }

  lemma OrStep(x: nat, y: nat)
    ensures BitOr(x, y) == (if x % 2 == 1 || y % 2 == 1 then 1 else 0) + 2 * BitOr(x / 2, y / 2)
  {}

  lemma TwiceRemainder(x: nat, h: nat, b: nat, d: nat)
    requires x == 2 * h + b && b < 2 && d >= 1
    ensures x % (2 * d) == 2 * (h % d) + b && x / (2 * d) == h / d
  {
    var q, r := h / d, h % d;
    assert h == q * d + r;
    assert q * (2 * d) == 2 * (q * d);
    DivModIs(x, 2 * d, q, 2 * r + b);
  }

  // ---- masks and shifts

  lemma {:induction false} Pow2Sum(a: nat, b: nat)
    ensures Pow2(a + b) == Pow2(a) * Pow2(b)
    decreases b
  {
    if b > 0 {
      Pow2Sum(a, b - 1);
      assert 2 * (Pow2(a) * Pow2(b - 1)) == Pow2(a) * (2 * Pow2(b - 1));
    }
  }

  /** The number the low k bits make. */
  function LowBits(x: nat, k: nat): nat {
    if k == 0 then 0 else x % 2 + 2 * LowBits(x / 2, k - 1)
  }

  lemma {:induction false} LowBitsAre(x: nat, k: nat)
    ensures LowBits(x, k) == x % Pow2(k)
    decreases k
  {
    if k > 0 {
      LowBitsAre(x / 2, k - 1);
      TwiceRemainder(x, x / 2, x % 2, Pow2(k - 1));
    }
  }

  lemma {:induction false} LowMask(x: nat, k: nat)
    ensures BitAnd(x, Pow2(k) - 1) == LowBits(x, k)
    decreases k
  {
    if k > 0 {
      AndOdd(x, Pow2(k - 1) - 1);
      LowMask(x / 2, k - 1);
    }
  }

  /** Masking with the bits from k up to n cuts those below k and from n on. */
  lemma {:induction false} FieldMask(x: nat, n: nat, k: nat)
    requires k <= n
    ensures Pow2(k) <= Pow2(n) && BitAnd(x, Pow2(n) - Pow2(k)) == LowBits(x, n) - LowBits(x, k)
    decreases k
  {
    if k == 0 {
      LowMask(x, n);
    } else {
      FieldMask(x / 2, n - 1, k - 1);
      AndEven(x, Pow2(n - 1) - Pow2(k - 1));
    }
  }

  /** Masking with a power of two less one keeps the remainder. */
  lemma MaskIsRemainder(x: nat, k: nat)
    ensures BitAnd(x, Pow2(k) - 1) == x % Pow2(k)
  {
    LowMask(x, k);
    LowBitsAre(x, k);
  }

  /** Masking with the bits from k up to n keeps a difference of remainders. */
  lemma FieldIsDifference(x: nat, n: nat, k: nat)
    requires k <= n
    ensures Pow2(k) <= Pow2(n) && BitAnd(x, Pow2(n) - Pow2(k)) == x % Pow2(n) - x % Pow2(k)
  {
    FieldMask(x, n, k);
    LowBitsAre(x, n);
    LowBitsAre(x, k);
  }

  lemma AndOdd(x: nat, m: nat)
    ensures BitAnd(x, 2 * m + 1) == x % 2 + 2 * BitAnd(x / 2, m)
  {
    AndStep(x, x / 2, x % 2, 2 * m + 1, m, 1);
  }

  lemma AndEven(x: nat, m: nat)
    ensures BitAnd(x, 2 * m) == 2 * BitAnd(x / 2, m)
  {
    AndStep(x, x / 2, x % 2, 2 * m, m, 0);
  }

  /** Shifting right divides. */
  lemma {:induction false} ShiftIsQuotient(x: nat, k: nat)
    ensures ShiftRight(x, k) == x / Pow2(k)
    decreases k
  {
    if k > 0 {
      ShiftIsQuotient(x / 2, k - 1);
      TwiceRemainder(x, x / 2, x % 2, Pow2(k - 1));
    }
  }

  /** The low two bits of a bitwise or are clear exactly if they are in both operands. */
  lemma OrLowBits(x: nat, y: nat)
    ensures BitOr(x, y) % 4 == 0 <==> x % 4 == 0 && y % 4 == 0
  {
    OrStep(x, y);
    OrStep(x / 2, y / 2);
    TwoBits(BitOr(x, y), BitOr(x / 2, y / 2), BitOr(x / 2 / 2, y / 2 / 2));
    TwoBits(x, x / 2, x / 2 / 2);
    TwoBits(y, y / 2, y / 2 / 2);
  }

  lemma TwoBits(x: nat, h: nat, q: nat)
    requires 2 * h <= x < 2 * h + 2 && 2 * q <= h < 2 * q + 2
    ensures x % 4 == 0 <==> x == 2 * h && h == 2 * q
    ensures x % 2 == x - 2 * h && h % 2 == h - 2 * q
  {}
}
