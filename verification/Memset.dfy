/** dasics_memset: byte stores up to alignment, a Duff's device of doubleword stores, a byte tail. */
module Memset {
  import opened Arith
  import opened Bits
  import opened Machine
  import opened Memory

  /** The eight bytes a doubleword store writes, lowest first. */
  function Bytes(v: bv64): (b: seq<bv8>)
    ensures |b| == 8
  {
    [(v & 0xff) as bv8, ((v >> 8) & 0xff) as bv8, ((v >> 16) & 0xff) as bv8, ((v >> 24) & 0xff) as bv8,
     ((v >> 32) & 0xff) as bv8, ((v >> 40) & 0xff) as bv8, ((v >> 48) & 0xff) as bv8, ((v >> 56) & 0xff) as bv8]
  }

  function LowByte(v: bv64): bv8 { (v & 0xff) as bv8 }

  lemma LowByteIs(v: bv64)
    ensures LowByte(v) == (v % 256) as bv8
  {}

  /** Doubling the byte three times puts it in all eight places. */
  function Broadcast(a1: bv64): bv64 {
    var b := a1 & 0xff;
    var h := (b << 8) | b;
    var w := (h << 16) | h;
    (w << 32) | w
  }

  lemma BroadcastIs(a1: bv64)
    ensures Bytes(Broadcast(a1)) == [LowByte(a1), LowByte(a1), LowByte(a1), LowByte(a1),
                                     LowByte(a1), LowByte(a1), LowByte(a1), LowByte(a1)]
  {}

  /** A run of n byte stores from t0 on, at least one: the loop stops when the address reaches
      a3, which after the first store it does at once if the end of the region wrapped to 0. */
  method StoreBytes(mem: array<bv8>, t0: nat, a3: Word, c: bv8, ghost n: nat)
    requires 0 < n && t0 + n <= mem.Length <= WORD && (a3 == t0 + n || (a3 == 0 && n == 1))
    modifies mem
    ensures mem[..] == ByteFill(old(mem[..]), t0, n, c)
  {
    var t, more := t0, true;
    ghost var m, i := mem[..], 0;
    while more
      invariant 0 <= i <= n && more == (i < n) && (more ==> t == t0 + i)
      invariant mem[..] == ByteFill(m, t0, i, c)
      decreases n - i
    {
      ghost var m1 := mem[..];
      mem[t] := c;
      assert mem[..] == ByteFill(m1, t, 1, c);
      ByteFillThen(m, t0, i, 1, c);
      t, i := Reg(t + 1), i + 1;
      more := t < a3;
    }
  }

  /** One doubleword store of c in every byte; the address is aligned. */
  method StoreDouble(mem: array<bv8>, addr: nat, v: bv64, ghost c: bv8)
    requires addr % 8 == 0 && addr + 8 <= mem.Length && Bytes(v) == [c, c, c, c, c, c, c, c]
    modifies mem
    ensures mem[..] == ByteFill(old(mem[..]), addr, 8, c)
  {
    PutIsFill(mem[..], addr, Bytes(v), c);
    Store(mem, addr, Bytes(v));
  }

  lemma NextAddress(pos: int, off: nat)
    ensures Reg(Reg(pos) + off) == Reg(pos + off)
  {
    DivModIs(Reg(pos) + off, WORD, (pos + off) / WORD - pos / WORD, (pos + off) % WORD);
  }

  /** One trip through the 32 doubleword stores, entered at store number k. The base register
      may have been moved below zero: pos, which is 8 * q, is where it stands in unbounded
      arithmetic. */
  method StoreBlock(mem: array<bv8>, t0: nat, k: nat, v: bv64, ghost pos: int, ghost q: int, ghost c: bv8)
    requires k < 32 && t0 == Reg(pos) && pos == 8 * q && 0 <= pos + 8 * k
    requires pos + 256 <= mem.Length <= WORD && Bytes(v) == [c, c, c, c, c, c, c, c]
    modifies mem
    ensures mem[..] == ByteFill(old(mem[..]), pos + 8 * k, 256 - 8 * k, c)
  {
    ghost var m := mem[..];
    var j := k;
    while j < 32
      invariant k <= j <= 32
      invariant mem[..] == ByteFill(m, pos + 8 * k, 8 * j - 8 * k, c)
    {
      NextAddress(pos, 8 * j);
      StoreDouble(mem, Reg(t0 + 8 * j), v, c);
      ByteFillThen(m, pos + 8 * k, 8 * j - 8 * k, 8, c);
      j := j + 1;
    }
  }

  /** What is left of a4 bytes, in doublewords, over whole blocks of 32. */
  function Remainder(a4: nat): nat { (a4 / 8) % 32 * 8 }

  /** andi with 31 * 8. */
  function MaskRemainder(a4: nat): (r: nat)
    ensures r == Remainder(a4)
  {
    MaskRemainderIs(a4);
    BitAnd(a4, 31 * 8)
  }

  lemma MaskRemainderIs(a4: nat)
    ensures BitAnd(a4, 31 * 8) == Remainder(a4)
  {
    SmallPowers();
    FieldIsDifference(a4, 8, 3);
    DivModIs(a4, 256, a4 / 8 / 32, 8 * ((a4 / 8) % 32) + a4 % 8);
  }

  lemma DoublesLeft(w: nat)
    ensures Remainder(8 * w) == 8 * (w % 32) && w == 32 * (w / 32) + w % 32
  {
    DivModIs(8 * w, 8, w, 0);
  }

  /** How much of a4 bytes, in doublewords, the first trip through the device stores. */
  function FirstTrip(a4: nat): nat {
    if Remainder(a4) == 0 then 256 else Remainder(a4)
  }

  lemma FirstTripIs(w: nat)
    requires 0 < w
    ensures FirstTrip(8 * w) <= 8 * w && (FirstTrip(8 * w) == 8 * w <==> w <= 32)
  {
    DoublesLeft(w);
  }

  /** Where the device starts: how far the base moves back and which store comes first. The
      stores are 4 bytes of code each and write 8 bytes each, so the offset into the code is
      half the offset into the block. From pos on there are exactly n blocks. */
  method EnterDevice(t0: nat, a4: nat, ghost w: nat) returns (base: nat, k: nat, ghost pos: int, ghost n: nat)
    requires t0 < WORD && a4 == 8 * w < WORD && 0 < w
    ensures k < 32 && pos + 8 * k == t0 && base == Reg(pos) && 0 < n && t0 + a4 == pos + 256 * n
    ensures 256 - 8 * k == FirstTrip(a4)
  {
    base, k, pos, n := t0, 0, t0, w / 32;
    DoublesLeft(w);
    var rest := MaskRemainder(a4);
    if rest != 0 {
      var offset := Reg(Reg(0 - rest as int) + 256);
      NextAddress(0 - rest as int, 256);
      base := Reg(t0 - offset);
      pos, n := t0 - offset, w / 32 + 1;
      k := (offset / 2) / 4;
    }
  }

  /** The trips of the device: n of them, until the base reaches a3, or one if a3 wrapped to 0. */
  method RunDevice(mem: array<bv8>, base0: nat, k0: nat, a3: Word, v: bv64,
                   ghost pos0: int, ghost q0: int, ghost n: nat, ghost c: bv8)
    returns (end: nat)
    requires k0 < 32 && base0 == Reg(pos0) && pos0 == 8 * q0 && 0 <= pos0 + 8 * k0
    requires 0 < n && pos0 + 256 * n <= mem.Length <= WORD && (a3 == pos0 + 256 * n || (a3 == 0 && n == 1))
    requires Bytes(v) == [c, c, c, c, c, c, c, c]
    modifies mem
    ensures end == Reg(pos0 + 256 * n)
    ensures mem[..] == ByteFill(old(mem[..]), pos0 + 8 * k0, pos0 + 256 * n - (pos0 + 8 * k0), c)
  {
    var k, more := k0, true;
    end := base0;
    ghost var m, pos, i, p := mem[..], pos0, 0, pos0 + 8 * k0;
    while more
      invariant 0 <= i <= n && pos == pos0 + 256 * i && end == Reg(pos) && more == (i < n)
      invariant k == if i == 0 then k0 else 0
      invariant mem[..] == ByteFill(m, p, pos + 8 * k - p, c)
      decreases n - i
    {
      StoreBlock(mem, end, k, v, pos, q0 + 32 * i, c);
      ByteFillThen(m, p, pos + 8 * k - p, 256 - 8 * k, c);
      NextAddress(pos, 256);
      end := Reg(end + 256);
      pos, k, i := pos + 256, 0, i + 1;
      more := end < a3;
    }
  }

  /** How many bytes the device fills of a4 from t0 on: all, but one trip's worth if the region
      ends with the address space. */
  function DeviceCount(t0: nat, a4: nat): nat {
    if t0 + a4 < WORD then a4 else FirstTrip(a4)
  }

  /** Fill a2 rounded down to doublewords from the aligned address t0 on. */
  method FillDoubles(mem: array<bv8>, t0: nat, a2: Word, v: bv64, ghost c: bv8) returns (end: nat)
    requires t0 % 8 == 0 && 8 <= a2 && t0 + a2 <= mem.Length <= WORD
    requires Bytes(v) == [c, c, c, c, c, c, c, c]
    modifies mem
    ensures DeviceCount(t0, Floor8(a2)) <= Floor8(a2) && end == Reg(t0 + DeviceCount(t0, Floor8(a2)))
    ensures mem[..] == ByteFill(old(mem[..]), t0, DeviceCount(t0, Floor8(a2)), c)
  {
    var a4 := Mask8(a2);
    var base, k;
    ghost var pos, n;
    base, k, pos, n := EnterDevice(t0, a4, a4 / 8);
    n := if t0 + a4 < WORD then n else 1;
    end := RunDevice(mem, base, k, Reg(t0 + a4), v, pos, t0 / 8 - k, n, c);
  }

  lemma BoundaryIs(a0: nat)
    requires a0 + 7 < WORD
    ensures Floor8(a0 + 7) == a0 + Misalignment(a0)
  {
    var q, r := a0 / 8, a0 % 8;
    if r == 0 {
      DivModIs(a0 + 7, 8, q, 7);
    } else {
      DivModIs(a0 + 7, 8, q + 1, r - 1);
    }
  }

  /** Bytes up to the first doubleword boundary. */
  method FillToBoundary(mem: array<bv8>, a0: nat, a1: bv64, a2: Word) returns (t0: nat, rest: Word)
    requires 16 <= a2 && a0 + a2 <= mem.Length <= WORD
    modifies mem
    ensures t0 == a0 + Misalignment(a0) && rest == a2 - Misalignment(a0)
    ensures mem[..] == ByteFill(old(mem[..]), a0, t0 - a0, LowByte(a1))
  {
    t0, rest := a0, a2;
    BoundaryIs(a0);
    var a3 := Mask8(Reg(t0 + 7));
    if a3 != t0 {
      StoreBytes(mem, t0, a3, LowByte(a1), a3 - t0);
      rest := Reg(rest - Reg(a3 - t0));
      t0 := a3;
    }
  }

  /** How many of a2 bytes from a0 on the part for sixteen bytes and more fills. */
  function HeadCount(a0: nat, a2: nat): nat
    requires Misalignment(a0) <= a2
  {
    var skip := Misalignment(a0);
    skip + DeviceCount(a0 + skip, Floor8(a2 - skip))
  }

  lemma HeadCountIs(a0: nat, a2: nat, skip: nat, n: nat)
    requires skip == Misalignment(a0) <= a2 && n == DeviceCount(a0 + skip, Floor8(a2 - skip))
    ensures HeadCount(a0, a2) == skip + n
  {}

  /** The doublewords, after the skip bytes to the boundary. */
  method FillBody(mem: array<bv8>, start: nat, a1: bv64, rest: Word, ghost a0: nat, ghost skip: nat, ghost n: nat,
                  ghost m: seq<bv8>) returns (t0: nat)
    requires start == a0 + skip && start % 8 == 0 && 8 <= rest && start + rest <= mem.Length <= WORD
    requires |m| == mem.Length && mem[..] == ByteFill(m, a0, skip, LowByte(a1)) && n == DeviceCount(start, Floor8(rest))
    modifies mem
    ensures n <= rest && t0 == Reg(start + n) && mem[..] == ByteFill(m, a0, skip + n, LowByte(a1))
  {
    BroadcastIs(a1);
    t0 := FillDoubles(mem, start, rest, Broadcast(a1), LowByte(a1));
    ByteFillThen(m, a0, skip, n, LowByte(a1));
  }

  /** The part for sixteen bytes and more: bytes up to a boundary, then doublewords. */
  method FillHead(mem: array<bv8>, a0: nat, a1: bv64, a2: Word) returns (t0: nat, rest: nat)
    requires 16 <= a2 && a0 + a2 <= mem.Length <= WORD
    modifies mem
    ensures HeadCount(a0, a2) <= a2 && t0 == Reg(a0 + HeadCount(a0, a2)) && rest == (a2 - Misalignment(a0)) % 8
    ensures mem[..] == ByteFill(old(mem[..]), a0, HeadCount(a0, a2), LowByte(a1))
  {
    ghost var m := mem[..];
    var start, count := FillToBoundary(mem, a0, a1, a2);
    ghost var skip, n := start - a0, DeviceCount(start, Floor8(count));
    t0 := FillBody(mem, start, a1, count, a0, skip, n, m);
    HeadCountIs(a0, a2, skip, n);
    rest := Low8(count);
  }

  /** How many of a2 bytes from a0 on are filled: all, unless the region ends with the address
      space, where each loop stops after its first trip. */
  function MemsetCount(a0: nat, a2: Word): nat {
    if a0 + a2 < WORD then a2 else if a2 < 16 then 1 else HeadCount(a0, a2)
  }

  /** At the end of the address space everything is filled exactly if the region is one byte, or
      at least sixteen with at most one trip's worth of doublewords. */
  lemma MemsetCountIs(a0: nat, a2: Word)
    requires a0 < WORD && a0 + a2 <= WORD
    ensures MemsetCount(a0, a2) <= a2
    ensures MemsetCount(a0, a2) == a2 <==>
      a0 + a2 < WORD || a2 == 1 || (16 <= a2 && a2 - Misalignment(a0) <= 256)
  {
    if 16 <= a2 {
      var rest := a2 - Misalignment(a0);
      if a0 + a2 == WORD {
        assert rest == 8 * (rest / 8);
        FirstTripIs(rest / 8);
      }
    }
  }

  /** dasics_memset, for every address and count: the byte loop's memory, as far as it gets, and
      the address back. */
  method Memset(mem: array<bv8>, a0: Word, a1: bv64, a2: Word) returns (r: Word)
    requires a0 + a2 <= mem.Length <= WORD
    modifies mem
    ensures MemsetCount(a0, a2) <= a2
    ensures mem[..] == ByteFill(old(mem[..]), a0, MemsetCount(a0, a2), LowByte(a1)) && r == a0
  {
    ghost var m, done := mem[..], 0;
    MemsetCountIs(a0, a2);
    var t0: nat, rest: nat := a0, a2;
    if 16 <= rest {
      t0, rest := FillHead(mem, a0, a1, a2);
      done := HeadCount(a0, a2);
      HeadRest(a0, a2);
    }
    if rest != 0 {
      ghost var n := MemsetCount(a0, a2) - done;
      ByteFillThen(m, a0, done, n, LowByte(a1));
      StoreBytes(mem, t0, Reg(t0 + rest), LowByte(a1), n);
    }
    r := a0;
  }

  /** What the tail has left to do. */
  lemma HeadRest(a0: nat, a2: Word)
    requires a0 + a2 <= WORD && 16 <= a2
    ensures var rest := (a2 - Misalignment(a0)) % 8;
      if a0 + a2 < WORD then HeadCount(a0, a2) + rest == a2 else rest == 0
  {}
}
