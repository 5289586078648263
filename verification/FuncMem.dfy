/** The allocation records of an untrusted library as the library keeps them: an array that grows,
    in step with the bound-register cache. */
module FuncMem {
  import opened Machine
  import opened Words
  import BoundModel
  import M = FuncMemModel
  import opened Nodes
  import opened Udasics

  class FuncMem {
    const lib: LibBounds
    var mem: array<M.Record>
    var boundNum: int

    /** init_func_mem */
    constructor (lib0: LibBounds)
      requires lib0.Valid()
      ensures lib == lib0 && fresh(mem) && lib.Valid()
      ensures Abs() == M.State(seq(M.MAX_BOUNS, _ => M.Record(0, 0, 0)), 0, lib.Abs()) && Valid()
    {
      lib := lib0;
      mem := new M.Record[M.MAX_BOUNS](_ => M.Record(0, 0, 0));
      boundNum := 0;
      new;
      assert mem[..] == seq(M.MAX_BOUNS, _ => M.Record(0, 0, 0));
      M.UsedNone(mem[..]);
    }

    ghost function Abs(): M.State
      requires lib.Shaped()
      reads this, mem, lib, lib.handleMap, lib.csrLo, lib.csrHi, lib.table`Items
    {
      M.State(mem[..], boundNum, lib.Abs())
    }

    /** The record array is none of the cache's own arrays. */
    ghost predicate Separate()
      reads this, lib, lib.table
    {
      (mem as object) !in {lib.handleMap as object, lib.csrLo, lib.csrHi, lib.table.buckets}
    }

    ghost predicate Valid()
      reads this, mem, lib, lib.handleMap, lib.csrLo, lib.csrHi, lib.table, lib.table.buckets, lib.table.Items
    {
      lib.Valid() && Separate() && M.Ok(Abs())
    }

    // _expan_bound
    method Expand()
      modifies this`mem
      ensures fresh(mem) && mem[..] == old(mem[..]) + seq(M.MAX_BOUNS, _ => M.Record(0, 0, 0))
    {
      var bigger := new M.Record[mem.Length + M.MAX_BOUNS](i requires 0 <= i < mem.Length + M.MAX_BOUNS reads this, mem =>
        if i < mem.Length then mem[i] else M.Record(0, 0, 0));
      mem := bigger;
    }

    /** The first record with this address. */
    method Find(addr: Word) returns (i: nat)
      ensures i == M.Find(mem[..], addr) && i <= mem.Length
    {
      i := 0;
      while i < mem.Length
        invariant 0 <= i <= mem.Length
        invariant forall j :: 0 <= j < i ==> mem[j].addr != addr
      {
        if mem[i].addr == addr {
          break;
        }
        i := i + 1;
      }
      M.FindStops(mem[..], i, addr);
    }

    /** A free record; _expan_bound comes first if the table is full. */
    method FreeRecord() returns (i: nat)
      requires lib.Valid() && Separate() && M.Find(M.Expanded(Abs()), 0) < |M.Expanded(Abs())|
      modifies this`mem, this`boundNum
      ensures mem == old(mem) || fresh(mem)
      ensures lib.Valid() && Separate() && lib.Abs() == old(lib.Abs()) && boundNum == old(boundNum) + 1
      ensures mem[..] == M.Expanded(old(Abs())) && i == M.Find(mem[..], 0) < mem.Length
    {
      if boundNum == mem.Length {
        Expand();
      }
      i := Find(0);
      boundNum := boundNum + 1;
    }

    /** Writing a record leaves everything else alone. */
    method SetRecord(i: nat, r: M.Record)
      requires lib.Valid() && Separate() && i < mem.Length
      modifies mem
      ensures lib.Valid() && Separate() && lib.Abs() == old(lib.Abs()) && mem[..] == old(mem[..])[i := r]
    {
      mem[i] := r;
    }

    method ClearRecord(i: nat)
      requires lib.Valid() && Separate() && i < mem.Length
      modifies this`boundNum, mem
      ensures lib.Valid() && Separate() && lib.Abs() == old(lib.Abs()) && boundNum == old(boundNum) - 1
      ensures mem[..] == old(mem[..])[i := M.Record(0, 0, -1)]
    {
      boundNum := boundNum - 1;
      SetRecord(i, M.Record(0, 0, -1));
    }

    /** The bound for a block. */
    method Bind(p: Word, size: Word, rand: nat) returns (handle: int)
      requires lib.Valid()
      modifies lib, lib.handleMap, lib.csrLo, lib.csrHi, lib.table, lib.table.buckets, lib.table.Items
      ensures lib.Valid() && (lib.table.buckets == old(lib.table.buckets) || fresh(lib.table.buckets))
      ensures handle == old(lib.Abs()).next
      ensures lib.Abs() == BoundModel.Alloc(old(lib.Abs()), M.READ_WRITE, p, Reg(p + size), rand)
    {
      handle := lib.Alloc(LIBCFG_R | LIBCFG_W, p, Reg(p + size), rand);
    }

    /** Make the bound for the block of record i and note its handle there. */
    method BindRecord(i: nat, p: Word, size: Word, rand: nat)
      requires lib.Valid() && Separate() && i < mem.Length
      modifies mem, lib, lib.handleMap, lib.csrLo, lib.csrHi, lib.table, lib.table.buckets, lib.table.Items
      ensures lib.Valid() && Separate()
      ensures mem[..] == old(mem[..])[i := M.Record(p, size, old(lib.Abs()).next)]
      ensures lib.Abs() == BoundModel.Alloc(old(lib.Abs()), M.READ_WRITE, p, Reg(p + size), rand)
    {
      var handle := Bind(p, size, rand);
      SetRecord(i, M.Record(p, size, handle));
    }

    /** Give up the bound of record i. */
    method Unbind(i: nat)
      requires lib.Valid() && Separate() && i < mem.Length
      modifies lib`libcfg, lib.handleMap, lib.table, lib.table.buckets, lib.table.Items
      ensures lib.Valid() && lib.table.buckets == old(lib.table.buckets) && mem[..] == old(mem[..])
      ensures lib.Abs() == BoundModel.Free(old(lib.Abs()), mem[i].handler)
      ensures Within(lib.table.Items, old(lib.table.Items))
    {
      var _ := lib.Free(mem[i].handler);
    }

    /** Give up the bound of record i and the record with it. */
    method Release(i: nat)
      requires lib.Valid() && Separate() && i < mem.Length
      modifies this`boundNum, mem, lib`libcfg, lib.handleMap, lib.table, lib.table.buckets, lib.table.Items
      ensures lib.Valid() && Separate() && boundNum == old(boundNum) - 1
      ensures mem[..] == old(mem[..])[i := M.Record(0, 0, -1)]
      ensures lib.Abs() == BoundModel.Free(old(lib.Abs()), old(mem[i]).handler)
    {
      Unbind(i);
      ClearRecord(i);
    }

    /** Replace the bound of record i. */
    method Rebind(i: nat, p: Word, size: Word, rand: nat)
      requires lib.Valid() && Separate() && i < mem.Length
      modifies mem, lib, lib.handleMap, lib.csrLo, lib.csrHi, lib.table, lib.table.buckets, lib.table.Items
      ensures lib.Valid() && Separate()
      ensures var freed := BoundModel.Free(old(lib.Abs()), old(mem[i]).handler);
        mem[..] == old(mem[..])[i := M.Record(p, size, freed.next)] &&
        lib.Abs() == BoundModel.Alloc(freed, M.READ_WRITE, p, Reg(p + size), rand)
    {
      Unbind(i);
      BindRecord(i, p, size, rand);
    }

    /** handle_lib_malloc; p is what malloc(size) returned. The result is the caller's new a0. */
    method Malloc(size: Word, p: Word, rand: nat) returns (a0: Word)
      requires Valid() && M.Block(p, size) && M.Unused(mem[..], p)
      modifies this, mem, lib, lib.handleMap, lib.csrLo, lib.csrHi, lib.table, lib.table.buckets, lib.table.Items
      ensures Valid() && a0 == p
      ensures M.Find(M.Expanded(old(Abs())), 0) < |M.Expanded(old(Abs()))|
      ensures Abs() == M.Malloc(old(Abs()), size, p, rand)
    {
      M.MallocOk(Abs(), size, p, rand);
      var i := FreeRecord();
      BindRecord(i, p, size, rand);
      a0 := p;
    }

    /** handle_lib_realloc; p is what realloc(addr, size) returned. */
    method Realloc(addr: Word, size: Word, p: Word, rand: nat) returns (a0: Word)
      requires Valid() && M.Find(mem[..], addr) < mem.Length
      requires M.Block(p, size) && (p == addr || M.Unused(mem[..], p))
      modifies mem, lib, lib.handleMap, lib.csrLo, lib.csrHi, lib.table, lib.table.buckets, lib.table.Items
      ensures lib.Valid() && Separate() && a0 == p && Abs() == M.Realloc(old(Abs()), addr, size, p, rand)
      ensures addr != 0 ==> Valid()
    {
      if addr != 0 {
        M.ReallocOk(Abs(), addr, size, p, rand);
      }
      var i := Find(addr);
      Rebind(i, p, size, rand);
      a0 := p;
    }

    /** handle_lib_free */
    method Free(addr: Word) returns (a0: Word)
      requires Valid() && M.Find(mem[..], addr) < mem.Length
      modifies this`boundNum, mem, lib`libcfg, lib.handleMap, lib.table, lib.table.buckets, lib.table.Items
      ensures lib.Valid() && Separate() && a0 == 0 && Abs() == M.Free(old(Abs()), addr)
      ensures addr != 0 ==> Valid()
    {
      if addr != 0 {
        M.FreeOk(Abs(), addr);
      }
      var i := Find(addr);
      Release(i);
      a0 := 0;
    }
  }
}
