/** 64-bit registers: their values, wrapping arithmetic, and masks. */
module Machine {
  import opened Arith
  import opened Bits

  const WORD: nat := 0x1_0000_0000_0000_0000

  /** What a 64-bit register holds. */
  type Word = x: nat | x < WORD

  /** The value of a register after arithmetic on it. */
  function Reg(x: int): (r: Word)
    ensures 0 <= x < WORD ==> r == x
  {
    x % WORD
  }

  lemma SmallPowers()
    ensures Pow2(2) == 4 && Pow2(3) == 8 && Pow2(7) == 128 && Pow2(8) == 256
  {}

  lemma WordIsPower()
    ensures Pow2(64) == WORD
  {
    SmallPowers();
    Pow2Sum(8, 8);
    assert Pow2(16) == 0x1_0000;
    Pow2Sum(16, 16);
    assert Pow2(32) == 0x1_0000_0000;
    Pow2Sum(32, 32);
  }

  /** On a 64-bit word, masking the bits from k on is rounding down to a multiple of 2^k. */
  lemma MaskIsFloor(x: Word, k: nat)
    requires k <= 64
    ensures Pow2(k) <= WORD && BitAnd(x, WORD - Pow2(k)) == x - x % Pow2(k)
  {
    WordIsPower();
    FieldIsDifference(x, 64, k);
    DivModIs(x, WORD, 0, x);
  }

  /** The doubleword boundary at or below x. */
  function Floor8(x: nat): (r: nat)
    ensures r % 8 == 0 && r <= x < r + 8
  {
    x - x % 8
  }

  /** andi with the complement of 7. */
  function Mask8(x: Word): (r: Word)
    ensures r == Floor8(x)
  {
    Mask8Is(x);
    BitAnd(x, WORD - 8)
  }

  lemma Mask8Is(x: Word)
    ensures BitAnd(x, WORD - 8) == Floor8(x)
  {
    SmallPowers();
    MaskIsFloor(x, 3);
  }

  /** andi with 7. */
  function Low8(x: nat): (r: nat)
    ensures r == x % 8
  {
    Low8Is(x);
    BitAnd(x, 7)
  }

  lemma Low8Is(x: nat)
    ensures BitAnd(x, 7) == x % 8
  {
    SmallPowers();
    MaskIsRemainder(x, 3);
  }

  /** Bytes from x to the doubleword boundary at or above it. */
  function Misalignment(x: nat): (skip: nat)
    ensures skip < 8 && (x + skip) % 8 == 0
  {
    (8 - x % 8) % 8
  }
}
