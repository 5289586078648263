/** Byte-addressed memory and the loops the memory routines are fast forms of. */
module Memory {
  // ---- the byte loops

  /** Store c at p, p + 1, ... n times. */
  function ByteFill(m: seq<bv8>, p: nat, n: nat, c: bv8): (r: seq<bv8>)
    requires p + n <= |m|
    ensures |r| == |m|
    decreases n
  {
    if n == 0 then m else ByteFill(m[p := c], p + 1, n - 1, c)
  }

  /** Copy the byte at src to dst, then the next, n times. */
  function ByteCopy(m: seq<bv8>, dst: nat, src: nat, n: nat): (r: seq<bv8>)
    requires dst + n <= |m| && src + n <= |m|
    ensures |r| == |m|
    decreases n
  {
    if n == 0 then m else ByteCopy(m[dst := m[src]], dst + 1, src + 1, n - 1)
  }

  /** Memory with the bytes w stored at addr. */
  function Put(m: seq<bv8>, addr: nat, w: seq<bv8>): (r: seq<bv8>)
    requires addr + |w| <= |m|
    ensures |r| == |m|
  {
    m[..addr] + w + m[addr + |w|..]
  }

  /** A store of the bytes of a register; the address is aligned. */
  method Store(mem: array<bv8>, addr: nat, w: seq<bv8>)
    requires addr + |w| <= mem.Length && |w| > 0 && addr % |w| == 0
    modifies mem
    ensures mem[..] == Put(old(mem[..]), addr, w)
  {
    forall i | 0 <= i < |w| {
      mem[addr + i] := w[i];
    }
  }

  // ---- what the byte loops do

  /** Memory m' is m with [p, p + n) filled with c. */
  ghost predicate Filled(m: seq<bv8>, m': seq<bv8>, p: nat, n: nat, c: bv8) {
    |m'| == |m| && forall i {:trigger m'[i]} :: 0 <= i < |m| ==> m'[i] == if p <= i < p + n then c else m[i]
  }

  /** The byte loop fills exactly [p, p + n). */
  lemma {:induction false} ByteFillIs(m: seq<bv8>, p: nat, n: nat, c: bv8)
    requires p + n <= |m|
    ensures Filled(m, ByteFill(m, p, n, c), p, n, c)
    decreases n
  {
    if n > 0 {
      ByteFillIs(m[p := c], p + 1, n - 1, c);
    }
  }

  /** Memory m' is m with k bytes from src copied to dst. */
  ghost predicate Copied(m: seq<bv8>, m': seq<bv8>, dst: nat, src: nat, k: nat) {
    |m'| == |m| && src + k <= |m| &&
    forall i {:trigger m'[i]} :: 0 <= i < |m| ==> m'[i] == if dst <= i < dst + k then m[src + (i - dst)] else m[i]
  }

  /** Copying forward cannot overwrite what is still to be read. */
  predicate CopySafe(dst: nat, src: nat, n: nat) { dst <= src || src + n <= dst }

  /** The byte loop copies [src, src + n) to [dst, dst + n) and changes nothing else. */
  lemma {:induction false} ByteCopyIs(m: seq<bv8>, dst: nat, src: nat, n: nat)
    requires dst + n <= |m| && src + n <= |m| && CopySafe(dst, src, n)
    ensures Copied(m, ByteCopy(m, dst, src, n), dst, src, n)
    decreases n
  {
    if n > 0 {
      var m1 := m[dst := m[src]];
      ByteCopyIs(m1, dst + 1, src + 1, n - 1);
      var r := ByteCopy(m1, dst + 1, src + 1, n - 1);
      forall i | 0 <= i < |m| ensures r[i] == if dst <= i < dst + n then m[src + (i - dst)] else m[i] {
        if dst + 1 <= i < dst + n {
          assert r[i] == m1[src + 1 + (i - (dst + 1))];
          assert src + 1 + (i - (dst + 1)) != dst;
        }
      }
    }
  }

  // ---- the byte loops in pieces

  lemma {:induction false} ByteFillThen(m: seq<bv8>, p: nat, k: nat, n: nat, c: bv8)
    requires p + k + n <= |m|
    ensures ByteFill(ByteFill(m, p, k, c), p + k, n, c) == ByteFill(m, p, k + n, c)
    decreases k
  {
    if k > 0 {
      ByteFillThen(m[p := c], p + 1, k - 1, n, c);
    }
  }

  lemma {:induction false} ByteCopyThen(m: seq<bv8>, dst: nat, src: nat, k: nat, n: nat)
    requires dst + k + n <= |m| && src + k + n <= |m|
    ensures ByteCopy(ByteCopy(m, dst, src, k), dst + k, src + k, n) == ByteCopy(m, dst, src, k + n)
    decreases k
  {
    if k > 0 {
      ByteCopyThen(m[dst := m[src]], dst + 1, src + 1, k - 1, n);
    }
  }

  /** One store of equal bytes does what the byte loop does. */
  lemma PutIsFill(m: seq<bv8>, p: nat, w: seq<bv8>, c: bv8)
    requires p + |w| <= |m| && forall i :: 0 <= i < |w| ==> w[i] == c
    ensures Put(m, p, w) == ByteFill(m, p, |w|, c)
  {
    ByteFillIs(m, p, |w|, c);
  }

  lemma PutAt(m: seq<bv8>, addr: nat, w: seq<bv8>, i: nat)
    requires addr + |w| <= |m| && i < |m|
    ensures Put(m, addr, w)[i] == if addr <= i < addr + |w| then w[i - addr] else m[i]
  {}

  /** Storing what was loaded does what the byte loop does. */
  lemma PutIsCopy(m: seq<bv8>, dst: nat, src: nat, n: nat)
    requires dst + n <= |m| && src + n <= |m| && CopySafe(dst, src, n)
    ensures Put(m, dst, m[src..src + n]) == ByteCopy(m, dst, src, n)
  {
    ByteCopyIs(m, dst, src, n);
    var w, r := m[src..src + n], ByteCopy(m, dst, src, n);
    forall i | 0 <= i < |m| ensures Put(m, dst, w)[i] == r[i] {
      PutAt(m, dst, w, i);
      assert r[i] == if dst <= i < dst + n then m[src + (i - dst)] else m[i];
    }
  }

  /** Storing neighbours one after the other is storing them together. */
  lemma PutPut(m: seq<bv8>, addr: nat, v: seq<bv8>, w: seq<bv8>)
    requires addr + |v| + |w| <= |m|
    ensures Put(Put(m, addr, v), addr + |v|, w) == Put(m, addr, v + w)
  {}
}
