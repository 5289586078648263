/** dasics_memcpy: byte copies up to co-alignment, blocks of sixteen doublewords, a tail of words
    or bytes. */
module Memcpy {
  import opened Arith
  import opened Bits
  import opened Machine
  import opened Memory

  /** The bytes a load of n bytes puts in a register, lowest first; the address is aligned. */
  method Load(mem: array<bv8>, addr: nat, n: nat) returns (w: seq<bv8>)
    requires addr + n <= mem.Length && n > 0 && addr % n == 0
    ensures w == mem[addr..addr + n]
  {
    w := mem[addr..addr + n];
  }

  /** What every copying routine asks for: both regions in memory, and the destination not
      inside the source past its start. */
  predicate Copyable(length: nat, dst: nat, src: nat, n: nat) {
    dst + n <= length <= WORD && src + n <= length && CopySafe(dst, src, n)
  }

  /** Where a loop that copies n units from a1 on stops: when the source address reaches a3, or
      after the first unit if the end of the source wrapped to 0. */
  predicate Stops(a1: nat, a3: Word, unit: nat, n: nat) {
    0 < n && (a3 == a1 + unit * n || (a3 == 0 && n == 1))
  }

  /** Load one unit and store it. */
  method CopyOne(mem: array<bv8>, dst: nat, src: nat, unit: nat)
    requires Copyable(mem.Length, dst, src, unit) && 0 < unit && src % unit == 0 && dst % unit == 0
    modifies mem
    ensures mem[..] == ByteCopy(old(mem[..]), dst, src, unit)
  {
    PutIsCopy(mem[..], dst, src, unit);
    var w := Load(mem, src, unit);
    Store(mem, dst, w);
  }

  /** Copy n bytes from a1 to t6. */
  method CopyBytes(mem: array<bv8>, t6: nat, a1: nat, a3: Word, ghost n: nat)
    requires Stops(a1, a3, 1, n) && Copyable(mem.Length, t6, a1, n)
    modifies mem
    ensures mem[..] == ByteCopy(old(mem[..]), t6, a1, n)
  {
    var src, dst, more := a1, t6, true;
    ghost var m, i := mem[..], 0;
    while more
      invariant 0 <= i <= n && more == (i < n) && (more ==> src == a1 + i && dst == t6 + i)
      invariant mem[..] == ByteCopy(m, t6, a1, i)
      decreases n - i
    {
      ByteCopyThen(m, t6, a1, i, 1);
      CopyOne(mem, dst, src, 1);
      src := Reg(src + 1);
      dst := Reg(dst + 1);
      i := i + 1;
      more := src < a3;
    }
  }

  /** One more word, after off bytes of them. */
  method NextWord(mem: array<bv8>, dst: nat, src: nat, ghost m: seq<bv8>, ghost t6: nat, ghost a1: nat, ghost off: nat,
                  ghost dq: nat, ghost sq: nat)
    requires Copyable(mem.Length, t6, a1, off + 4) && |m| == mem.Length && mem[..] == ByteCopy(m, t6, a1, off)
    requires dst == t6 + off && src == a1 + off && src == 4 * sq && dst == 4 * dq
    modifies mem
    ensures mem[..] == ByteCopy(m, t6, a1, off + 4)
  {
    ByteCopyThen(m, t6, a1, off, 4);
    CopyOne(mem, dst, src, 4);
  }

  /** Copy n words from a1 to t6. */
  method CopyWords(mem: array<bv8>, t6: nat, a1: nat, a3: Word, ghost n: nat, ghost dq: nat, ghost sq: nat)
    requires Stops(a1, a3, 4, n) && Copyable(mem.Length, t6, a1, 4 * n) && a1 == 4 * sq && t6 == 4 * dq
    modifies mem
    ensures mem[..] == ByteCopy(old(mem[..]), t6, a1, 4 * n)
  {
    var src, dst, more := a1, t6, true;
    ghost var m, i := mem[..], 0;
    while more
      invariant 0 <= i <= n && more == (i < n) && (more ==> src == 4 * (sq + i) && dst == 4 * (dq + i))
      invariant mem[..] == ByteCopy(m, t6, a1, 4 * i)
      decreases n - i
    {
      NextWord(mem, dst, src, m, t6, a1, 4 * i, dq + i, sq + i);
      src := Reg(src + 4);
      dst := Reg(dst + 4);
      i := i + 1;
      more := src < a3;
    }
  }

  // Addresses of doublewords come with their number: address 8 * q is doubleword q.

  lemma SliceOf(m: seq<bv8>, a: nat, len: nat, i: nat, j: nat)
    requires a + len <= |m| && i <= j <= len
    ensures m[a..a + len][i..j] == m[a + i..a + j]
  {
    var b := m[a..a + len];
    forall k | 0 <= k < j - i ensures b[i..j][k] == m[a + i..a + j][k] {
      assert b[i + k] == m[a + (i + k)];
    }
  }

  /** Load the n doublewords b that lie at src into registers. */
  method LoadRegisters(mem: array<bv8>, src: nat, n: nat, ghost sq: nat, ghost b: seq<bv8>)
    returns (regs: seq<seq<bv8>>)
    requires src == 8 * sq && src + 8 * n <= mem.Length <= WORD && b == mem[src..src + 8 * n]
    ensures |regs| == n && forall r :: 0 <= r < n ==> regs[r] == b[8 * r..8 * r + 8]
  {
    regs := [];
    var j := 0;
    while j < n
      invariant 0 <= j <= n && |regs| == j
      invariant forall r :: 0 <= r < j ==> regs[r] == b[8 * r..8 * r + 8]
    {
      SliceOf(mem[..], src, 8 * n, 8 * j, 8 * j + 8);
      var d := Load(mem, Reg(src + 8 * j), 8);
      regs := regs + [d];
      j := j + 1;
    }
  }

  lemma NextDouble(b: seq<bv8>, j: nat, w: seq<bv8>)
    requires 8 * j + 8 <= |b| && w == b[8 * j..8 * j + 8]
    ensures |w| == 8 && b[..8 * j] + w == b[..8 * (j + 1)]
  {}

  /** Store registers that hold the bytes b from dst on. */
  method StoreRegisters(mem: array<bv8>, dst: nat, regs: seq<seq<bv8>>, ghost dq: nat, ghost b: seq<bv8>)
    requires |b| == 8 * |regs| && dst == 8 * dq && dst + |b| <= mem.Length <= WORD
    requires forall r :: 0 <= r < |regs| ==> regs[r] == b[8 * r..8 * r + 8]
    modifies mem
    ensures mem[..] == Put(old(mem[..]), dst, b)
  {
    ghost var m := mem[..];
    var j := 0;
    assert mem[..] == Put(m, dst, b[..0]);
    while j < |regs|
      invariant 0 <= j <= |regs|
      invariant mem[..] == Put(m, dst, b[..8 * j])
    {
      var w := regs[j];
      NextDouble(b, j, w);
      PutPut(m, dst, b[..8 * j], w);
      Store(mem, Reg(dst + 8 * j), w);
      j := j + 1;
    }
    assert b[..8 * j] == b;
  }

  /** Load n doublewords from src on into registers, then store them from dst on. */
  method CopyRegisters(mem: array<bv8>, dst: nat, src: nat, n: nat, ghost dq: nat, ghost sq: nat, ghost len: nat)
    requires len == 8 * n && Copyable(mem.Length, dst, src, len) && src == 8 * sq && dst == 8 * dq
    modifies mem
    ensures mem[..] == ByteCopy(old(mem[..]), dst, src, len)
  {
    ghost var b := mem[src..src + len];
    var regs := LoadRegisters(mem, src, n, sq, b);
    PutIsCopy(mem[..], dst, src, len);
    StoreRegisters(mem, dst, regs, dq, b);
  }

  /** Two groups of registers, one after the other: n1 doublewords, then n2. */
  method CopyGroups(mem: array<bv8>, dst: nat, src: nat, n1: nat, n2: nat, ghost dq: nat, ghost sq: nat)
    requires Copyable(mem.Length, dst, src, 8 * n1 + 8 * n2) && src == 8 * sq && dst == 8 * dq
    modifies mem
    ensures mem[..] == ByteCopy(old(mem[..]), dst, src, 8 * n1 + 8 * n2)
  {
    ByteCopyThen(mem[..], dst, src, 8 * n1, 8 * n2);
    CopyRegisters(mem, dst, src, n1, dq, sq, 8 * n1);
    CopyRegisters(mem, dst + 8 * n1, src + 8 * n1, n2, dq + n1, sq + n1, 8 * n2);
  }

  /** One block, of len bytes: sixteen doublewords, ten through registers, then six. */
  method CopyBlock(mem: array<bv8>, dst: nat, src: nat, ghost dq: nat, ghost sq: nat, ghost len: nat)
    requires len == 128 && Copyable(mem.Length, dst, src, len) && src == 8 * sq && dst == 8 * dq
    modifies mem
    ensures mem[..] == ByteCopy(old(mem[..]), dst, src, len)
  {
    CopyGroups(mem, dst, src, 10, 6, dq, sq);
  }

  function Floor128(x: nat): nat { x - x % 128 }

  /** andi with the complement of 127: whole blocks. */
  function Mask128(x: Word): (r: Word)
    ensures r == Floor128(x)
  {
    Mask128Is(x);
    BitAnd(x, WORD - 128)
  }

  lemma Mask128Is(x: Word)
    ensures BitAnd(x, WORD - 128) == Floor128(x)
  {
    SmallPowers();
    MaskIsFloor(x, 7);
  }

  /** andi with 127: what is left of whole blocks. */
  function Low128(x: nat): (r: nat)
    ensures r == x % 128
  {
    Low128Is(x);
    BitAnd(x, 127)
  }

  lemma Low128Is(x: nat)
    ensures BitAnd(x, 127) == x % 128
  {
    SmallPowers();
    MaskIsRemainder(x, 7);
  }

  /** One more block, after off bytes of them. */
  method NextBlock(mem: array<bv8>, dst: nat, src: nat, ghost m: seq<bv8>, ghost t6: nat, ghost a1: nat, ghost off: nat,
                   ghost dq: nat, ghost sq: nat, ghost len: nat)
    requires len == 128 && Copyable(mem.Length, t6, a1, off + len) && |m| == mem.Length
    requires dst == t6 + off && src == a1 + off && src == 8 * sq && dst == 8 * dq
    requires mem[..] == ByteCopy(m, t6, a1, off)
    modifies mem
    ensures mem[..] == ByteCopy(m, t6, a1, off + len)
  {
    ByteCopyThen(m, t6, a1, off, len);
    CopyBlock(mem, dst, src, dq, sq, len);
  }

  /** Copy n blocks from a1 to t6. (The block length is kept behind a variable: with the number
      itself the solver unrolls the byte loop.) */
  method CopyBlocks(mem: array<bv8>, t6: nat, a1: nat, a3: Word, ghost n: nat, ghost dq: nat, ghost sq: nat)
    requires Stops(a1, a3, 128, n) && Copyable(mem.Length, t6, a1, 128 * n) && a1 == 8 * sq && t6 == 8 * dq
    modifies mem
    ensures mem[..] == ByteCopy(old(mem[..]), t6, a1, 128 * n)
  {
    var src, dst, more := a1, t6, true;
    ghost var m, i, off := mem[..], 0, 0;
    ghost var len: nat :| len == 128;
    while more
      invariant 0 <= i <= n && off == 128 * i && more == (i < n) && (more ==> src == a1 + off && dst == t6 + off)
      invariant mem[..] == ByteCopy(m, t6, a1, off)
      decreases n - i
    {
      NextBlock(mem, dst, src, m, t6, a1, off, dq + 16 * i, sq + 16 * i, len);
      src := Reg(src + 128);
      dst := Reg(dst + 128);
      i, off := i + 1, off + len;
      more := src < a3;
    }
  }

  /** or, or, andi with 3: the tail may go by words. */
  function WordAligned(t6: nat, a1: nat, a3: nat): bool {
    BitAnd(BitOr(BitOr(a1, t6), a3), 3) == 0
  }

  lemma WordAlignedIs(t6: nat, a1: nat, a3: nat)
    ensures WordAligned(t6, a1, a3) <==> t6 % 4 == 0 && a1 % 4 == 0 && a3 % 4 == 0
  {
    SmallPowers();
    MaskIsRemainder(BitOr(BitOr(a1, t6), a3), 2);
    OrLowBits(BitOr(a1, t6), a3);
    OrLowBits(a1, t6);
  }

  /** How many of a2 bytes the tail copies: all, but one word or byte if the source ends with the
      address space. */
  function TailCount(t6: nat, a1: nat, a2: nat): nat {
    if a2 == 0 || a1 + a2 < WORD then a2 else if a1 % 4 == 0 && t6 % 4 == 0 then 4 else 1
  }

  /** The tail: words if both addresses and the end are word-aligned, else bytes. */
  method CopyTail(mem: array<bv8>, t6: nat, a1: nat, a2: nat)
    requires Copyable(mem.Length, t6, a1, a2)
    modifies mem
    ensures TailCount(t6, a1, a2) <= a2
    ensures mem[..] == ByteCopy(old(mem[..]), t6, a1, TailCount(t6, a1, a2))
  {
    if a2 == 0 {
      return;
    }
    var a3 := Reg(a1 + a2);
    WordAlignedIs(t6, a1, a3);
    if WordAligned(t6, a1, a3) {
      CopyWords(mem, t6, a1, a3, TailCount(t6, a1, a2) / 4, t6 / 4, a1 / 4);
    } else {
      CopyBytes(mem, t6, a1, a3, TailCount(t6, a1, a2));
    }
  }

  lemma BoundaryIs(a1: nat)
    requires a1 + 8 < WORD && a1 % 8 != 0
    ensures Floor8(a1) + 8 == a1 + Misalignment(a1)
  {}

  /** Byte copies up to the first doubleword boundary of the source. */
  method CopyToBoundary(mem: array<bv8>, t6: nat, a1: Word, a2: nat) returns (skip: nat)
    requires Copyable(mem.Length, t6, a1, a2) && 128 <= a2
    modifies mem
    ensures skip == Misalignment(a1) && mem[..] == ByteCopy(old(mem[..]), t6, a1, skip)
  {
    skip := 0;
    if Low8(a1) != 0 {
      BoundaryIs(a1);
      var a3 := Reg(Mask8(a1) + 8);
      skip := Reg(a3 - a1);
      CopyBytes(mem, t6, a1, a3, skip);
    }
  }

  lemma CoAligned(t6: nat, a1: nat, skip: nat)
    requires t6 % 8 == a1 % 8 && (a1 + skip) % 8 == 0
    ensures t6 + skip == 8 * ((t6 + skip) / 8) && a1 + skip == 8 * ((a1 + skip) / 8)
  {}

  lemma WholeBlocks(x: nat)
    ensures Floor128(x) == 128 * (x / 128)
  {}

  /** How many of a2 bytes the block loop copies: whole blocks, but only one if they end with the
      address space. */
  function BlockCount(a1: nat, a2: nat): nat {
    if a1 + Floor128(a2) < WORD then Floor128(a2) else 128
  }

  /** Whole blocks from an aligned source, as many as there are. */
  method CopyWhole(mem: array<bv8>, t6: nat, a1: Word, a2: Word, ghost dq: nat, ghost sq: nat)
    requires Copyable(mem.Length, t6, a1, a2) && a1 == 8 * sq && t6 == 8 * dq
    modifies mem
    ensures BlockCount(a1, a2) <= a2 && mem[..] == ByteCopy(old(mem[..]), t6, a1, BlockCount(a1, a2))
  {
    var a4 := Mask128(a2);
    WholeBlocks(a2);
    if a4 != 0 {
      CopyBlocks(mem, t6, a1, Reg(a1 + a4), BlockCount(a1, a2) / 128, dq, sq);
    }
  }

  /** How many of a2 bytes the part for large co-aligned regions copies. */
  function HeadCount(a1: nat, a2: nat): nat
    requires Misalignment(a1) <= a2
  {
    var skip := Misalignment(a1);
    skip + BlockCount(a1 + skip, a2 - skip)
  }

  lemma HeadCountIs(a1: nat, a2: nat, skip: nat, n: nat)
    requires skip == Misalignment(a1) <= a2 && n == BlockCount(a1 + skip, a2 - skip)
    ensures HeadCount(a1, a2) == skip + n
  {}

  /** The blocks, after the skip bytes to the boundary. */
  method CopyBody(mem: array<bv8>, dst: nat, src: nat, rest: Word, ghost dq: nat, ghost sq: nat,
                  ghost t6: nat, ghost a1: nat, ghost skip: nat, ghost m: seq<bv8>)
    requires Copyable(mem.Length, t6, a1, skip + rest) && src < WORD && src == 8 * sq && dst == 8 * dq
    requires dst == t6 + skip && src == a1 + skip && |m| == mem.Length && mem[..] == ByteCopy(m, t6, a1, skip)
    modifies mem
    ensures BlockCount(src, rest) <= rest && mem[..] == ByteCopy(m, t6, a1, skip + BlockCount(src, rest))
  {
    CopyWhole(mem, dst, src, rest, dq, sq);
    ByteCopyThen(m, t6, a1, skip, BlockCount(src, rest));
  }

  /** The part for large co-aligned regions: bytes up to alignment, then whole blocks. */
  method CopyHead(mem: array<bv8>, t6: nat, a1: Word, a2: Word) returns (rest: nat)
    requires Copyable(mem.Length, t6, a1, a2) && 128 <= a2 && t6 % 8 == a1 % 8
    modifies mem
    ensures HeadCount(a1, a2) <= a2 && mem[..] == ByteCopy(old(mem[..]), t6, a1, HeadCount(a1, a2))
    ensures rest == (a2 - Misalignment(a1)) % 128
  {
    ghost var m := mem[..];
    var skip := CopyToBoundary(mem, t6, a1, a2);
    CoAligned(t6, a1, skip);
    rest := a2 - skip;
    CopyBody(mem, t6 + skip, a1 + skip, rest, (t6 + skip) / 8, (a1 + skip) / 8, t6, a1, skip, m);
    HeadCountIs(a1, a2, skip, BlockCount(a1 + skip, rest));
    rest := Low128(rest);
  }

  /** The part for large regions is for those whose addresses are alike modulo 8. */
  predicate IsLarge(a0: nat, a1: nat, a2: nat) { 128 <= a2 && a0 % 8 == a1 % 8 }

  /** How many of a2 bytes are copied: all, unless the source ends with the address space, where
      each loop stops after its first unit. */
  function MemcpyCount(a0: nat, a1: nat, a2: Word): nat {
    if a1 + a2 < WORD then a2
    else if !IsLarge(a0, a1, a2) then TailCount(a0, a1, a2)
    else if (a2 - Misalignment(a1)) % 128 == 0 then Misalignment(a1) + 128
    else HeadCount(a1, a2) + 4
  }

  /** The tail, after done bytes. */
  method Finish(mem: array<bv8>, a0: nat, a1: nat, done: nat, rest: nat, ghost m: seq<bv8>)
    requires Copyable(mem.Length, a0, a1, done + rest) && |m| == mem.Length && mem[..] == ByteCopy(m, a0, a1, done)
    modifies mem
    ensures TailCount(a0 + done, a1 + done, rest) <= rest
    ensures mem[..] == ByteCopy(m, a0, a1, done + TailCount(a0 + done, a1 + done, rest))
  {
    CopyTail(mem, a0 + done, a1 + done, rest);
    ByteCopyThen(m, a0, a1, done, TailCount(a0 + done, a1 + done, rest));
  }

  /** dasics_memcpy, for every pair of alignments and every count: the byte loop's memory, as far
      as it gets, and the destination back. */
  method Memcpy(mem: array<bv8>, a0: Word, a1: Word, a2: Word) returns (r: Word)
    requires Copyable(mem.Length, a0, a1, a2)
    modifies mem
    ensures MemcpyCount(a0, a1, a2) <= a2
    ensures mem[..] == ByteCopy(old(mem[..]), a0, a1, MemcpyCount(a0, a1, a2)) && r == a0
  {
    ghost var m := mem[..];
    var rest, done: nat := a2, 0;
    if 128 <= a2 && Low8(a0) == Low8(a1) {
      rest := CopyHead(mem, a0, a1, a2);
      done := HeadCount(a1, a2);
      TailAfterHead(a0, a1, a2);
    }
    Finish(mem, a0, a1, done, rest, m);
    r := a0;
  }

  lemma StillAligned(y: nat, q: nat)
    ensures (8 * y + 128 * q) % 4 == 0
  {
    DivModIs(8 * y + 128 * q, 4, 2 * y + 32 * q, 0);
  }

  /** What the tail has left to do. */
  lemma TailAfterHead(a0: nat, a1: nat, a2: Word)
    requires a1 + a2 <= WORD && IsLarge(a0, a1, a2)
    ensures var rest := (a2 - Misalignment(a1)) % 128;
      && HeadCount(a1, a2) + rest <= a2
      && (a1 + a2 < WORD ==> HeadCount(a1, a2) + rest == a2)
      && HeadCount(a1, a2) + TailCount(a0 + HeadCount(a1, a2), a1 + HeadCount(a1, a2), rest) == MemcpyCount(a0, a1, a2)
  {
    var skip := Misalignment(a1);
    var rest := a2 - skip;
    var q := rest / 128;
    WholeBlocks(rest);
    assert rest % 128 == rest - 128 * q;
    CoAligned(a0, a1, skip);
    if a1 + a2 == WORD && rest % 128 != 0 {
      HeadCountIs(a1, a2, skip, 128 * q);
      StillAligned((a0 + skip) / 8, q);
      StillAligned((a1 + skip) / 8, q);
    }
  }

  /** At the end of the address space everything is copied exactly if it is one byte, one word
      between word-aligned addresses, or, for large regions, one block after the boundary. */
  lemma MemcpyCountIs(a0: nat, a1: nat, a2: Word)
    requires a1 < WORD && a1 + a2 <= WORD
    ensures MemcpyCount(a0, a1, a2) <= a2
    ensures MemcpyCount(a0, a1, a2) == a2 <==>
      || a1 + a2 < WORD
      || (!IsLarge(a0, a1, a2) && (a2 == 1 || (a2 == 4 && a0 % 4 == 0)))
      || (IsLarge(a0, a1, a2) && a2 == Misalignment(a1) + 128)
  {
    if a1 + a2 == WORD {
      if IsLarge(a0, a1, a2) {
        LargeCountIs(a0, a1, a2, a2 - Misalignment(a1));
      } else {
        assert a1 % 4 == 0 <==> a2 % 4 == 0;
      }
    }
  }

  lemma LargeCountIs(a0: nat, a1: nat, a2: Word, rest: nat)
    requires a1 + a2 == WORD && IsLarge(a0, a1, a2) && rest == a2 - Misalignment(a1)
    ensures MemcpyCount(a0, a1, a2) <= a2 && (MemcpyCount(a0, a1, a2) == a2 <==> rest == 128)
  {
    var skip := Misalignment(a1);
    var q, y := rest / 128, (a1 + skip) / 8;
    WholeBlocks(rest);
    CoAligned(a0, a1, skip);
    assert rest == WORD - 8 * y && rest % 128 == rest - 128 * q;
    if rest % 128 != 0 {
      assert rest % 128 == 8 * (WORD / 8 - y - 16 * q);
      HeadCountIs(a1, a2, skip, 128 * q);
    }
  }
}
