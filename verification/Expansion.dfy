/** The arithmetic of buckets: masking, the ideal chain length and the expansion multiplier. */
module Expansion {
  import opened Arith
  import opened Bits

  function CeilDiv(n: nat, d: nat): nat
    requires 0 < d
  {
    (n + d - 1) / d
  }

  /** The length above which a chain is not ideal: a shift by the logarithm of the bucket
      count, plus one if the masked-off low bits are not all zero. */
  function IdealMaxlen(numItems: nat, log2NumBuckets: nat): nat {
    ShiftRight(numItems, log2NumBuckets) + (if BitAnd(numItems, Pow2(log2NumBuckets) - 1) != 0 then 1 else 0)
  }

  /** The shift-and-mask form is the ceiling of items per bucket. */
  lemma IdealIsCeiling(numItems: nat, log2NumBuckets: nat)
    ensures IdealMaxlen(numItems, log2NumBuckets) == CeilDiv(numItems, Pow2(log2NumBuckets))
  {
    MaskIsRemainder(numItems, log2NumBuckets);
    ShiftIsQuotient(numItems, log2NumBuckets);
    RoundsUp(numItems, Pow2(log2NumBuckets));
  }

  lemma RoundsUp(n: nat, d: nat)
    requires 0 < d
    ensures CeilDiv(n, d) == n / d + if n % d != 0 then 1 else 0
  {
    var q, r := n / d, n % d;
    assert n == q * d + r;
    if r == 0 {
      DivModIs(n + d - 1, d, q, d - 1);
    } else {
      assert n + d - 1 == (q + 1) * d + (r - 1);
      DivModIs(n + d - 1, d, q + 1, r - 1);
    }
  }

  /** HASH_TO_BKT: the bucket of a hash value. */
  function ToBucket(hashv: nat, numBuckets: nat): nat
    requires numBuckets > 0
  {
    BitAnd(hashv, numBuckets - 1)
  }

  ghost predicate PowerOfTwo(n: nat) { exists k :: Pow2(k) == n }

  /** With a power of two of buckets that is the remainder, so it is the index of a bucket. */
  lemma BucketIsRemainder(hashv: nat, numBuckets: nat)
    requires PowerOfTwo(numBuckets)
    ensures 0 < numBuckets && ToBucket(hashv, numBuckets) == hashv % numBuckets < numBuckets
  {
    var k :| Pow2(k) == numBuckets;
    MaskIsRemainder(hashv, k);
  }

  /** expand_mult of a bucket after `count` nodes were moved into it one at a time. */
  function MultAfter(count: nat, ideal: nat): nat {
    if count == 0 then 0 else
      var m := MultAfter(count - 1, ideal);
      if count > ideal && count > m * ideal then m + 1 else m
  }

  lemma CeilBounds(n: nat, d: nat)
    requires 0 < d
    ensures n <= CeilDiv(n, d) * d < n + d
  {
    var q := (n + d - 1) / d;
    assert n + d - 1 == q * d + (n + d - 1) % d;
  }

  lemma BelowCeil(m: nat, n: nat, d: nat)
    requires 0 < d
    ensures m < CeilDiv(n, d) <==> m * d < n
  {
    CeilBounds(n, d);
    var q := CeilDiv(n, d);
    if m < q {
      MulMonotone(m + 1, q, d);
      assert (m + 1) * d == m * d + d;
    } else {
      MulMonotone(q, m, d);
    }
  }

  /** The multiplier is exactly the smaller of the excess over the ideal length and the
      number of ideal lengths the chain takes up. */
  lemma {:induction false} MultExact(count: nat, ideal: nat)
    requires 0 < ideal
    ensures MultAfter(count, ideal) ==
      if count <= ideal then 0 else
      if count - ideal <= CeilDiv(count, ideal) then count - ideal else CeilDiv(count, ideal)
  {
    if count != 0 {
      MultExact(count - 1, ideal);
      var m := MultAfter(count - 1, ideal);
      BelowCeil(m, count, ideal);
      BelowCeil(CeilDiv(count - 1, ideal) + 1, count, ideal);
      BelowCeil(CeilDiv(count, ideal), count - 1, ideal);
      CeilBounds(count - 1, ideal);
      CeilBounds(count, ideal);
    }
  }

  /** A chain never exceeds (multiplier + 1) ideal lengths, and the multiplier stays zero
      exactly for the ideal chains. */
  lemma MultBounds(count: nat, ideal: nat)
    requires 0 < ideal
    ensures count <= (MultAfter(count, ideal) + 1) * ideal
    ensures MultAfter(count, ideal) <= CeilDiv(count, ideal)
    ensures MultAfter(count, ideal) == 0 <==> count <= ideal
  {
    MultExact(count, ideal);
    CeilBounds(count, ideal);
    var m := MultAfter(count, ideal);
    if count > ideal && m == count - ideal {
      MulMonotone(1, ideal, m);
    }
    BelowCeil(0, count, ideal);
  }
}
