/** The allocation records of an untrusted library, over values: what malloc, realloc and free
    calls made on its behalf do to the record table and to the bound-register cache. */
module FuncMemModel {
  import opened Machine
  import opened Words
  import opened Bounds
  import opened BoundModel

  const MAX_BOUNS: nat := 16

  /** A record whose addr is 0 is free. */
  datatype Record = Record(addr: Word, length: Word, handler: int)

  datatype State = State(records: seq<Record>, boundNum: int, cache: Model)

  const READ_WRITE: bv64 := LIBCFG_R | LIBCFG_W

  function Used(records: seq<Record>): (n: nat)
    ensures n <= |records|
  {
    if records == [] then 0 else (if records[0].addr != 0 then 1 else 0) + Used(records[1..])
  }

  /** The first record with this address, or past the end. */
  function Find(records: seq<Record>, addr: Word): (i: nat)
    ensures i <= |records|
    ensures i < |records| ==> records[i].addr == addr
    ensures forall j :: 0 <= j < i ==> records[j].addr != addr
  {
    if records == [] || records[0].addr == addr then 0 else 1 + Find(records[1..], addr)
  }

  /** The entry that goes with a record. */
  function EntryOf(r: Record): Entry { Requested(r.handler, READ_WRITE, r.addr, Reg(r.addr + r.length)) }

  /** What malloc and realloc promise of the block they return: it is somewhere, and it ends
      before the last doubleword of the address space. */
  predicate Block(p: Word, size: Word) { p != 0 && p + size <= LAST_DOUBLEWORD }

  /** Every used record owns a live bound of its own, made for just its block. */
  ghost predicate Owns(records: seq<Record>, live: seq<Entry>) {
    && (forall i :: 0 <= i < |records| && records[i].addr != 0 ==>
      EntryOf(records[i]) in live && Block(records[i].addr, records[i].length))
    && (forall i, j :: 0 <= i < j < |records| && records[i].addr != 0 && records[j].addr != 0 ==>
      records[i].handler != records[j].handler && records[i].addr != records[j].addr)
  }

  /** A free record was never used, or its handle was taken back. */
  predicate FreeHandlers(records: seq<Record>) {
    forall i :: 0 <= i < |records| && records[i].addr == 0 ==> records[i].handler == 0 || records[i].handler == -1
  }

  ghost predicate Ok(s: State) {
    s.boundNum == Used(s.records) && Coherent(s.cache) && Owns(s.records, s.cache.live) && FreeHandlers(s.records)
  }

  predicate Owned(records: seq<Record>, handle: int) {
    exists i :: 0 <= i < |records| && records[i].addr != 0 && records[i].handler == handle
  }

  /** The live bounds that belong to no record in use. */
  ghost function Foreign(records: seq<Record>, live: seq<Entry>): set<Entry> {
    set e | e in live && !Owned(records, e.handle)
  }

  // ---- the operations

  /** _expan_bound when the table is full */
  function Expanded(s: State): seq<Record> {
    if s.boundNum == |s.records| then s.records + seq(MAX_BOUNS, _ => Record(0, 0, 0)) else s.records
  }

  /** handle_lib_malloc, when malloc(size) returned p */
  function Malloc(s: State, size: Word, p: Word, rand: nat): State
    requires |s.cache.slots| == LIBCFG_WIDTH && Find(Expanded(s), 0) < |Expanded(s)|
  {
    var records := Expanded(s);
    State(records[Find(records, 0) := Record(p, size, s.cache.next)], s.boundNum + 1,
          Alloc(s.cache, READ_WRITE, p, Reg(p + size), rand))
  }

  /** handle_lib_realloc, when realloc(addr, size) returned p */
  function Realloc(s: State, addr: Word, size: Word, p: Word, rand: nat): State
    requires |s.cache.slots| == LIBCFG_WIDTH && Find(s.records, addr) < |s.records|
  {
    var i := Find(s.records, addr);
    var freed := BoundModel.Free(s.cache, s.records[i].handler);
    State(s.records[i := Record(p, size, freed.next)], s.boundNum, Alloc(freed, READ_WRITE, p, Reg(p + size), rand))
  }

  /** handle_lib_free */
  function Free(s: State, addr: Word): State
    requires Find(s.records, addr) < |s.records|
  {
    var i := Find(s.records, addr);
    State(s.records[i := Record(0, 0, -1)], s.boundNum - 1, BoundModel.Free(s.cache, s.records[i].handler))
  }

  // ---- what a record says about memory

  lemma EntryGrants(r: Record, addr: Word, isRead: bool)
    requires Block(r.addr, r.length) && r.addr <= addr < r.addr + r.length
    ensures Grants(EntryOf(r), addr, isRead)
  {
    RequestedGrants(r.handler, READ_WRITE, r.addr, Reg(r.addr + r.length), addr, isRead);
  }

  /** The bound of a used record grants reading and writing its whole block. */
  lemma OwnedBlockGranted(records: seq<Record>, live: seq<Entry>, i: nat, addr: Word, isRead: bool)
    requires Owns(records, live) && i < |records| && records[i].addr != 0
    requires records[i].addr <= addr < records[i].addr + records[i].length
    ensures TableGrants(live, addr, isRead)
  {
    EntryGrants(records[i], addr, isRead);
    assert EntryOf(records[i]) in live;
  }

  // ---- counting

  lemma {:induction false} UsedUpdate(records: seq<Record>, i: nat, r: Record)
    requires i < |records|
    ensures Used(records[i := r]) ==
      Used(records) - (if records[i].addr != 0 then 1 else 0) + (if r.addr != 0 then 1 else 0)
  {
    if i == 0 {
      assert records[i := r][1..] == records[1..];
    } else {
      assert records[i := r][1..] == records[1..][i - 1 := r];
      UsedUpdate(records[1..], i - 1, r);
    }
  }

  lemma {:induction false} UsedAppend(records: seq<Record>, n: nat)
    ensures Used(records + seq(n, _ => Record(0, 0, 0))) == Used(records)
  {
    var more := seq(n, _ => Record(0, 0, 0));
    if records == [] {
      assert records + more == more;
      UsedNone(more);
    } else {
      assert (records + more)[1..] == records[1..] + more;
      UsedAppend(records[1..], n);
    }
  }

  lemma {:induction false} UsedNone(records: seq<Record>)
    requires forall i :: 0 <= i < |records| ==> records[i].addr == 0
    ensures Used(records) == 0
  {
    if records != [] {
      UsedNone(records[1..]);
    }
  }

  /** A table with a free record to spare has one to find. */
  lemma {:induction false} FreeRecordExists(records: seq<Record>)
    ensures Find(records, 0) < |records| <==> Used(records) < |records|
  {
    if records != [] {
      FreeRecordExists(records[1..]);
    }
  }

  /** malloc always finds a record. */
  lemma MallocFinds(s: State)
    requires Ok(s)
    ensures Find(Expanded(s), 0) < |Expanded(s)|
  {
    UsedAppend(s.records, MAX_BOUNS);
    FreeRecordExists(Expanded(s));
  }

  // ---- every operation keeps the records and the bounds in step

  lemma {:induction false} FindStops(records: seq<Record>, i: nat, addr: Word)
    requires i <= |records| && (forall j :: 0 <= j < i ==> records[j].addr != addr)
    requires i < |records| ==> records[i].addr == addr
    ensures Find(records, addr) == i
  {
    if i > 0 {
      FindStops(records[1..], i - 1, addr);
    }
  }

  /** Every owned handle is one the cache has handed out. */
  lemma OwnedHandles(records: seq<Record>, m: Model)
    requires Coherent(m) && Owns(records, m.live)
    ensures forall i :: 0 <= i < |records| && records[i].addr != 0 ==> 0 <= records[i].handler < m.next
  {
    forall i | 0 <= i < |records| && records[i].addr != 0 ensures 0 <= records[i].handler < m.next {
      assert EntryOf(records[i]) in m.live;
    }
  }

  /** A free record that takes a new block and the bound made for it. */
  lemma OwnsAllocated(records: seq<Record>, m: Model, i: nat, p: Word, size: Word, rand: nat)
    requires Coherent(m) && Owns(records, m.live) && i < |records| && records[i].addr == 0
    requires Block(p, size) && forall j :: 0 <= j < |records| ==> records[j].addr != p
    ensures Owns(records[i := Record(p, size, m.next)], Alloc(m, READ_WRITE, p, Reg(p + size), rand).live)
  {
    OwnedHandles(records, m);
    var r := Record(p, size, m.next);
    var live' := Alloc(m, READ_WRITE, p, Reg(p + size), rand).live;
    assert live'[|m.live|] == EntryOf(r);
    var records' := records[i := r];
    forall k | 0 <= k < |records'| && records'[k].addr != 0 ensures EntryOf(records'[k]) in live' {
      if k != i {
        assert EntryOf(records[k]) in m.live;
      }
    }
  }

  /** A used record that gives up its block and its bound. */
  lemma OwnsFreed(records: seq<Record>, m: Model, i: nat)
    requires Coherent(m) && Owns(records, m.live) && i < |records| && records[i].addr != 0
    ensures Live(m.live, records[i].handler)
    ensures Owns(records[i := Record(0, 0, -1)], BoundModel.Free(m, records[i].handler).live)
  {
    var h := records[i].handler;
    assert EntryOf(records[i]) in m.live;
    var k :| 0 <= k < |m.live| && m.live[k] == EntryOf(records[i]);
    WithoutIs(m.live, h);
    var records' := records[i := Record(0, 0, -1)];
    forall j | 0 <= j < |records'| && records'[j].addr != 0 ensures EntryOf(records'[j]) in Without(m.live, h) {
      assert j != i && records[j].handler != h;
    }
  }

  /** A record changes what it alone owns. */
  lemma OwnedUpdate(records: seq<Record>, i: nat, r: Record, handle: int)
    requires i < |records|
    requires handle != r.handler || r.addr == 0
    requires handle != records[i].handler || records[i].addr == 0
    ensures Owned(records[i := r], handle) <==> Owned(records, handle)
  {
    var records' := records[i := r];
    if Owned(records, handle) {
      var j :| 0 <= j < |records| && records[j].addr != 0 && records[j].handler == handle;
      assert records'[j] == records[j];
    }
    if Owned(records', handle) {
      var j :| 0 <= j < |records'| && records'[j].addr != 0 && records'[j].handler == handle;
      assert records[j] == records'[j];
    }
  }

  /** Neither taking a block nor giving one up touches a foreign bound. */
  lemma ForeignAllocated(records: seq<Record>, m: Model, i: nat, p: Word, size: Word, rand: nat)
    requires Coherent(m) && i < |records| && records[i].addr == 0 && p != 0
    ensures Foreign(records[i := Record(p, size, m.next)], Alloc(m, READ_WRITE, p, Reg(p + size), rand).live) ==
      Foreign(records, m.live)
  {
    var r, live' := Record(p, size, m.next), Alloc(m, READ_WRITE, p, Reg(p + size), rand).live;
    var records' := records[i := r];
    assert records'[i] == r && Owned(records', m.next);
    forall e ensures e in live' && !Owned(records', e.handle) <==> e in m.live && !Owned(records, e.handle) {
      if e in m.live {
        OwnedUpdate(records, i, r, e.handle);
      } else if e in live' {
        assert e.handle == m.next;
      }
    }
  }

  lemma ForeignFreed(records: seq<Record>, m: Model, i: nat)
    requires Coherent(m) && i < |records| && records[i].addr != 0
    ensures Foreign(records[i := Record(0, 0, -1)], BoundModel.Free(m, records[i].handler).live) == Foreign(records, m.live)
  {
    var r, h := Record(0, 0, -1), records[i].handler;
    FreeRemovesOnly(m, h);
    var live' := BoundModel.Free(m, h).live;
    assert Owned(records, h);
    forall e ensures e in live' && !Owned(records[i := r], e.handle) <==> e in m.live && !Owned(records, e.handle) {
      if e.handle != h {
        OwnedUpdate(records, i, r, e.handle);
      }
    }
  }

  /** Growing the table adds records nobody owns anything by. */
  lemma ForeignExpanded(s: State)
    ensures Foreign(Expanded(s), s.cache.live) == Foreign(s.records, s.cache.live)
  {
    forall h ensures Owned(Expanded(s), h) <==> Owned(s.records, h) {
      if Owned(s.records, h) {
        var j :| 0 <= j < |s.records| && s.records[j].addr != 0 && s.records[j].handler == h;
        assert Expanded(s)[j] == s.records[j];
      }
    }
  }

  lemma {:induction false} WithoutLength(live: seq<Entry>, handle: int)
    ensures |Without(live, handle)| == if Live(live, handle) then |live| - 1 else |live|
  {
    if live != [] {
      if live[0].handle != handle {
        WithoutLength(live[1..], handle);
        if Live(live, handle) {
          var i :| 0 <= i < |live| && live[i].handle == handle;
          assert live[1..][i - 1].handle == handle;
        } else {
          forall j | 0 <= j < |live[1..]| ensures live[1..][j].handle != handle {
            assert live[j + 1].handle != handle;
          }
        }
      } else {
        assert Live(live, handle);
      }
    }
  }

  /** The blocks malloc and realloc return are not among those in use. */
  predicate Unused(records: seq<Record>, p: Word) {
    forall j :: 0 <= j < |records| ==> records[j].addr != p
  }

  lemma OwnsExpanded(s: State)
    requires Ok(s)
    ensures Used(Expanded(s)) == Used(s.records) && Owns(Expanded(s), s.cache.live)
    ensures forall j :: 0 <= j < |s.records| ==> Expanded(s)[j] == s.records[j]
    ensures forall j :: |s.records| <= j < |Expanded(s)| ==> Expanded(s)[j].addr == 0
  {
    UsedAppend(s.records, MAX_BOUNS);
  }

  /** malloc: one more record, one more live bound. */
  lemma MallocOk(s: State, size: Word, p: Word, rand: nat)
    requires Ok(s) && Block(p, size) && Unused(s.records, p)
    ensures Find(Expanded(s), 0) < |Expanded(s)|
    ensures Ok(Malloc(s, size, p, rand))
    ensures |Malloc(s, size, p, rand).cache.live| == |s.cache.live| + 1
    ensures Foreign(Malloc(s, size, p, rand).records, Malloc(s, size, p, rand).cache.live) == Foreign(s.records, s.cache.live)
  {
    MallocFinds(s);
    OwnsExpanded(s);
    var records := Expanded(s);
    var i := Find(records, 0);
    OwnsAllocated(records, s.cache, i, p, size, rand);
    ForeignExpanded(s);
    ForeignAllocated(records, s.cache, i, p, size, rand);
    UsedUpdate(records, i, Record(p, size, s.cache.next));
    AllocCoherent(s.cache, READ_WRITE, p, Reg(p + size), rand);
  }

  /** free of a block in use: one record less, one live bound less. */
  lemma FreeOk(s: State, addr: Word)
    requires Ok(s) && addr != 0 && Find(s.records, addr) < |s.records|
    ensures Ok(Free(s, addr)) && |Free(s, addr).cache.live| == |s.cache.live| - 1
    ensures Foreign(Free(s, addr).records, Free(s, addr).cache.live) == Foreign(s.records, s.cache.live)
  {
    var i := Find(s.records, addr);
    OwnsFreed(s.records, s.cache, i);
    ForeignFreed(s.records, s.cache, i);
    UsedUpdate(s.records, i, Record(0, 0, -1));
    FreeCoherent(s.cache, s.records[i].handler);
    WithoutLength(s.cache.live, s.records[i].handler);
  }

  /** realloc of a block in use: as many records, as many live bounds. */
  lemma ReallocOk(s: State, addr: Word, size: Word, p: Word, rand: nat)
    requires Ok(s) && addr != 0 && Find(s.records, addr) < |s.records|
    requires Block(p, size) && (p == addr || Unused(s.records, p))
    ensures Ok(Realloc(s, addr, size, p, rand)) && |Realloc(s, addr, size, p, rand).cache.live| == |s.cache.live|
    ensures var s' := Realloc(s, addr, size, p, rand);
      Foreign(s'.records, s'.cache.live) == Foreign(s.records, s.cache.live)
  {
    FreeOk(s, addr);
    var s1, i := Free(s, addr), Find(s.records, addr);
    assert Unused(s1.records, p);
    OwnsAllocated(s1.records, s1.cache, i, p, size, rand);
    ForeignAllocated(s1.records, s1.cache, i, p, size, rand);
    UsedUpdate(s.records, i, Record(p, size, s1.cache.next));
    AllocCoherent(s1.cache, READ_WRITE, p, Reg(p + size), rand);
    var s' := Realloc(s, addr, size, p, rand);
    assert s'.records == s1.records[i := Record(p, size, s1.cache.next)];
  }

  // ---- what one call does

  /** The doublewords that a block reaches into. */
  predicate Reaches(p: Word, size: Word, addr: Word) {
    p - p % 8 <= addr && addr - addr % 8 < p + size
  }

  /** A bound for a block grants reading and writing where the block reaches, and nothing else. */
  lemma BlockGrants(handle: int, p: Word, size: Word, addr: Word, isRead: bool)
    requires Block(p, size)
    ensures Grants(Requested(handle, READ_WRITE, p, Reg(p + size)), addr, isRead) <==> Reaches(p, size, addr)
  {
    RequestedGrantsIff(handle, READ_WRITE, p, Reg(p + size), addr, isRead);
    BothRights(isRead);
  }

  lemma BothRights(isRead: bool)
    ensures READ_WRITE & (if isRead then LIBCFG_R else LIBCFG_W) != 0
  {}

  lemma GrantsMore(live: seq<Entry>, e: Entry, addr: Word, isRead: bool)
    ensures TableGrants(live + [e], addr, isRead) <==> TableGrants(live, addr, isRead) || Grants(e, addr, isRead)
  {
    assert e in live + [e];
    assert forall x :: x in live + [e] <==> x in live || x == e;
  }

  /** malloc: the first free record, or the first of sixteen new ones, takes the block with the size
      asked for and a handle of its own; every other record and bound stays; and what may be read
      and written grows by just where the block reaches. */
  lemma MallocIs(s: State, size: Word, p: Word, rand: nat) returns (i: nat)
    requires Ok(s) && Block(p, size) && Unused(s.records, p) && Find(Expanded(s), 0) < |Expanded(s)|
    ensures var s' := Malloc(s, size, p, rand);
      && i < |s'.records| && s'.records[i] == Record(p, size, s.cache.next) && !Live(s.cache.live, s.cache.next)
      && (forall j :: 0 <= j < i ==> j < |s.records| && s.records[j].addr != 0)
      && (i < |s.records| ==> s.records[i].addr == 0)
      && |s'.records| == |s.records| + (if i < |s.records| then 0 else 16)
      && (forall j :: 0 <= j < |s.records| && j != i ==> s'.records[j] == s.records[j])
      && (forall j :: |s.records| <= j < |s'.records| && j != i ==> s'.records[j] == Record(0, 0, 0))
      && s'.boundNum == s.boundNum + 1
      && (forall e :: e in s.cache.live ==> e in s'.cache.live)
  {
    i := Find(Expanded(s), 0);
    OwnsExpanded(s);
    FreeRecordExists(s.records);
    if i < |s.records| {
      FindStops(s.records, i, 0);
    } else {
      assert Expanded(s)[|s.records|].addr == 0;
    }
    NextIsNew(s.cache);
  }

  lemma NextIsNew(m: Model)
    requires Coherent(m)
    ensures !Live(m.live, m.next)
  {
    forall k | 0 <= k < |m.live| ensures m.live[k].handle != m.next {
      assert m.live[k] in m.live;
    }
  }

  lemma MallocGrantsIff(s: State, size: Word, p: Word, rand: nat, addr: Word, isRead: bool)
    requires Ok(s) && Block(p, size) && Find(Expanded(s), 0) < |Expanded(s)|
    ensures TableGrants(Malloc(s, size, p, rand).cache.live, addr, isRead) <==>
      TableGrants(s.cache.live, addr, isRead) || Reaches(p, size, addr)
  {
    var e := Requested(s.cache.next, READ_WRITE, p, Reg(p + size));
    GrantsMore(s.cache.live, e, addr, isRead);
    BlockGrants(s.cache.next, p, size, addr, isRead);
  }

  lemma UsedOnce(records: seq<Record>, addr: Word, i: nat, live: seq<Entry>)
    requires Owns(records, live) && addr != 0 && i < |records| && records[i].addr == addr
    ensures Find(records, addr) == i
    ensures forall j :: 0 <= j < |records| && j != i ==> records[j].addr != addr
  {
    FindStops(records, i, addr);
  }

  /** free: the record of the address, and no other, becomes free, and its bound, and no other, goes. */
  lemma FreeIs(s: State, addr: Word, i: nat)
    requires Ok(s) && addr != 0 && i < |s.records| && s.records[i].addr == addr
    ensures Find(s.records, addr) < |s.records|
    ensures var s', h := Free(s, addr), s.records[i].handler;
      && s'.records == s.records[i := Record(0, 0, -1)] && s'.boundNum == s.boundNum - 1
      && (forall j :: 0 <= j < |s'.records| ==> s'.records[j].addr != addr)
      && Live(s.cache.live, h) && !Live(s'.cache.live, h)
      && forall e: Entry :: e.handle != h ==> (e in s'.cache.live <==> e in s.cache.live)
  {
    UsedOnce(s.records, addr, i, s.cache.live);
    OwnsFreed(s.records, s.cache, i);
    FreeRemovesOnly(s.cache, s.records[i].handler);
  }

  /** realloc: the record of the address, and no other, takes the new block with the size asked for;
      its old bound, and no other, goes, and what may be read and written is what the other bounds
      grant and where the new block reaches. */
  lemma ReallocIs(s: State, addr: Word, i: nat, size: Word, p: Word, rand: nat)
    requires Ok(s) && addr != 0 && i < |s.records| && s.records[i].addr == addr && Block(p, size)
    ensures Find(s.records, addr) < |s.records|
    ensures var s', h := Realloc(s, addr, size, p, rand), s.records[i].handler;
      && s'.records == s.records[i := Record(p, size, s.cache.next)] && s'.boundNum == s.boundNum
      && Live(s.cache.live, h) && !Live(s'.cache.live, h)
      && (forall e :: e in s.cache.live && e.handle != h ==> e in s'.cache.live)
      && forall a, isRead :: TableGrants(s'.cache.live, a, isRead) <==>
        (exists e :: e in s.cache.live && e.handle != h && Grants(e, a, isRead)) || Reaches(p, size, a)
  {
    FreeIs(s, addr, i);
    var h, freed := s.records[i].handler, Free(s, addr).cache;
    var e := Requested(s.cache.next, READ_WRITE, p, Reg(p + size));
    var s' := Realloc(s, addr, size, p, rand);
    OwnedHandles(s.records, s.cache);
    assert s'.cache.live == freed.live + [e];
    LiveSnoc(freed.live, e, h);
    forall a, isRead ensures TableGrants(s'.cache.live, a, isRead) <==>
      (exists x :: x in s.cache.live && x.handle != h && Grants(x, a, isRead)) || Reaches(p, size, a)
    {
      GrantsMore(freed.live, e, a, isRead);
      BlockGrants(s.cache.next, p, size, a, isRead);
      OthersGrant(s.cache.live, freed.live, h, a, isRead);
    }
  }

  lemma LiveSnoc(live: seq<Entry>, e: Entry, h: int)
    requires !Live(live, h) && e.handle != h
    ensures !Live(live + [e], h)
  {
    forall k | 0 <= k < |live + [e]| ensures (live + [e])[k].handle != h {
      assert k < |live| ==> live[k].handle != h;
    }
  }

  lemma OthersGrant(live: seq<Entry>, freed: seq<Entry>, h: int, addr: Word, isRead: bool)
    requires !Live(freed, h) && forall e: Entry :: e.handle != h ==> (e in freed <==> e in live)
    ensures TableGrants(freed, addr, isRead) <==> exists e :: e in live && e.handle != h && Grants(e, addr, isRead)
  {
    forall e | e in freed ensures e.handle != h {
      var k :| 0 <= k < |freed| && freed[k] == e;
      assert freed[k].handle != h;
    }
  }

  // ---- whole runs

  datatype Op =
    | MallocOp(size: Word, p: Word, rand: nat)
    | ReallocOp(addr: Word, size: Word, p: Word, rand: nat)
    | FreeOp(addr: Word)

  /** The call names a block in use (never null), and the allocator keeps its promises. */
  predicate Allowed(s: State, op: Op) {
    match op
    case MallocOp(size, p, _) => Block(p, size) && Unused(s.records, p)
    case ReallocOp(addr, size, p, _) =>
      addr != 0 && Find(s.records, addr) < |s.records| && Block(p, size) && (p == addr || Unused(s.records, p))
    case FreeOp(addr) => addr != 0 && Find(s.records, addr) < |s.records|
  }

  lemma StepOk(s: State, op: Op)
    requires Ok(s) && Allowed(s, op)
    ensures op.MallocOp? ==> Find(Expanded(s), 0) < |Expanded(s)|
    ensures Ok(Step(s, op))
    ensures |Step(s, op).cache.live| - Step(s, op).boundNum == |s.cache.live| - s.boundNum
    ensures Foreign(Step(s, op).records, Step(s, op).cache.live) == Foreign(s.records, s.cache.live)
  {
    match op
    case MallocOp(size, p, rand) => MallocOk(s, size, p, rand);
    case ReallocOp(addr, size, p, rand) => ReallocOk(s, addr, size, p, rand);
    case FreeOp(addr) => FreeOk(s, addr);
  }

  ghost function Step(s: State, op: Op): State
    requires Ok(s) && Allowed(s, op)
  {
    match op
    case MallocOp(size, p, rand) =>
      MallocFinds(s);
      Malloc(s, size, p, rand)
    case ReallocOp(addr, size, p, rand) => Realloc(s, addr, size, p, rand)
    case FreeOp(addr) => Free(s, addr)
  }

  /** A run all of whose calls are allowed when they are made. */
  ghost predicate AllowedRun(s: State, ops: seq<Op>)
    requires Ok(s)
    decreases ops
  {
    ops == [] || (Allowed(s, ops[0]) && (StepOk(s, ops[0]); AllowedRun(Step(s, ops[0]), ops[1..])))
  }

  ghost function Run(s: State, ops: seq<Op>): State
    requires Ok(s) && AllowedRun(s, ops)
    decreases ops
  {
    if ops == [] then s else (StepOk(s, ops[0]); Run(Step(s, ops[0]), ops[1..]))
  }

  /** Conservation: over any run, records and live bounds stay in step, the count is the number
      of records in use, and the live bounds that belong to no record are the same as before. */
  lemma {:induction false} RunConserves(s: State, ops: seq<Op>)
    requires Ok(s) && AllowedRun(s, ops)
    ensures Ok(Run(s, ops))
    ensures |Run(s, ops).cache.live| - Run(s, ops).boundNum == |s.cache.live| - s.boundNum
    ensures Foreign(Run(s, ops).records, Run(s, ops).cache.live) == Foreign(s.records, s.cache.live)
    decreases ops
  {
    if ops != [] {
      StepOk(s, ops[0]);
      RunConserves(Step(s, ops[0]), ops[1..]);
    }
  }

  // ---- null pointers

  /** The count goes wrong exactly for null: free and realloc of address 0 pick a free record. */
  lemma CountKeptIffNotNull(s: State, addr: Word, size: Word, p: Word, rand: nat)
    requires Ok(s) && Find(s.records, addr) < |s.records| && Block(p, size)
    ensures Free(s, addr).boundNum == Used(Free(s, addr).records) <==> addr != 0
    ensures Realloc(s, addr, size, p, rand).boundNum == Used(Realloc(s, addr, size, p, rand).records) <==> addr != 0
  {
    var i := Find(s.records, addr);
    UsedUpdate(s.records, i, Record(0, 0, -1));
    var freed := BoundModel.Free(s.cache, s.records[i].handler);
    UsedUpdate(s.records, i, Record(p, size, freed.next));
  }

  /** A free or realloc of null takes a bound away, the one with handle 0, exactly if that bound
      is live and the first free record was never used. */
  lemma NullTakesHandleZeroIff(s: State, size: Word, p: Word, rand: nat)
    requires Ok(s) && Find(s.records, 0) < |s.records|
    ensures var taken := s.records[Find(s.records, 0)].handler == 0 && Live(s.cache.live, 0);
      && (Free(s, 0).cache == if taken then BoundModel.Free(s.cache, 0) else s.cache)
      && (Free(s, 0).cache == s.cache <==> !taken)
      && ((forall e :: e in s.cache.live ==> e in Realloc(s, 0, size, p, rand).cache.live) <==> !taken)
    ensures var i := Find(s.records, 0);
      && Free(s, 0).records == s.records[i := Record(0, 0, -1)]
      && Realloc(s, 0, size, p, rand).records == s.records[i := Record(p, size, s.cache.next)]
  {
    var h := s.records[Find(s.records, 0)].handler;
    FreeRemovesOnly(s.cache, h);
    assert !Live(s.cache.live, -1) by {
      forall k | 0 <= k < |s.cache.live| ensures s.cache.live[k].handle != -1 {
        assert s.cache.live[k] in s.cache.live;
      }
    }
    var freed, after := BoundModel.Free(s.cache, h), Realloc(s, 0, size, p, rand).cache.live;
    if h == 0 && Live(s.cache.live, 0) {
      var e :| e in s.cache.live && e.handle == 0 && e !in freed.live;
      HandleZeroOld(s.cache);
      assert after[..|freed.live|] == freed.live;
    }
  }

  lemma HandleZeroOld(m: Model)
    requires Coherent(m) && Live(m.live, 0)
    ensures m.next > 0
  {
    var k :| 0 <= k < |m.live| && m.live[k].handle == 0;
    assert m.live[k] in m.live;
  }
}
