/** The bound-register cache as the library keeps it: the CSRs, the handle map and the table. */
module Udasics {
  import opened Machine
  import opened Words
  import opened Bounds
  import opened BoundModel
  import BoundRuns
  import opened Nodes
  import opened Uthash

  function Entries(items: seq<Node>): seq<Entry> {
    seq(|items|, i requires 0 <= i < |items| => items[i].entry)
  }

  /** What slot registers with these contents hold. */
  function SlotOf(field: bv64, handle: int, lo: Word, hi: Word): Slot {
    if IsValid(field) then Holds(Entry(handle, field, lo, hi)) else Empty
  }

  function Slots(fields: seq<bv64>, handles: seq<int>, los: seq<Word>, his: seq<Word>): seq<Slot>
    requires |fields| == |handles| == |los| == |his| == LIBCFG_WIDTH
  {
    seq(LIBCFG_WIDTH, i requires 0 <= i < LIBCFG_WIDTH => SlotOf(fields[i], handles[i], los[i], his[i]))
  }

  lemma SlotsWritten(fields: seq<bv64>, fields': seq<bv64>, handles: seq<int>, los: seq<Word>, his: seq<Word>,
                     idx: nat, e: Entry)
    requires |fields| == |handles| == |los| == |his| == LIBCFG_WIDTH && idx < LIBCFG_WIDTH && IsValid(e.priv)
    requires fields' == fields[idx := e.priv]
    ensures Slots(fields', handles[idx := e.handle], los[idx := e.lo], his[idx := e.hi]) ==
      Slots(fields, handles, los, his)[idx := Holds(e)]
  {}

  lemma SlotsInvalidated(fields: seq<bv64>, fields': seq<bv64>, handles: seq<int>, los: seq<Word>, his: seq<Word>,
                         idx: nat)
    requires |fields| == |fields'| == |handles| == |los| == |his| == LIBCFG_WIDTH && idx < LIBCFG_WIDTH
    requires !IsValid(fields'[idx]) && forall j :: 0 <= j < LIBCFG_WIDTH && j != idx ==> fields'[j] == fields[j]
    ensures Slots(fields', handles[idx := -1], los, his) == Slots(fields, handles, los, his)[idx := Empty]
  {}

  /** The table registration makes of the slots below idx. */
  function AdoptedLive(idx: nat, fields: seq<bv64>, los: seq<Word>, his: seq<Word>): seq<Entry>
    requires idx <= LIBCFG_WIDTH == |fields| == |los| == |his|
  {
    if idx == 0 then [] else
      var live := AdoptedLive(idx - 1, fields, los, his);
      var field := fields[idx - 1];
      if IsValid(field) then live + [Entry(|live|, field, los[idx - 1], his[idx - 1])] else live
  }

  /** The handle map registration makes of the slots below idx and a map `start`. */
  function AdoptedMap(idx: nat, fields: seq<bv64>, los: seq<Word>, his: seq<Word>, start: seq<int>): (r: seq<int>)
    requires idx <= LIBCFG_WIDTH == |fields| == |los| == |his| == |start|
    ensures |r| == LIBCFG_WIDTH
  {
    if idx == 0 then start else
      var map1 := AdoptedMap(idx - 1, fields, los, his, start);
      if IsValid(fields[idx - 1]) then map1[idx - 1 := |AdoptedLive(idx - 1, fields, los, his)|] else map1
  }

  /** What registration has done once it is past the slots below idx, starting from a handle map
      `start`: every valid one is in the table, numbered in slot order, and named by the map. */
  ghost predicate RegisteredAs(idx: nat, fields: seq<bv64>, los: seq<Word>, his: seq<Word>, start: seq<int>,
                               map1: seq<int>, live: seq<Entry>)
  {
    && idx <= LIBCFG_WIDTH == |fields| == |los| == |his| == |start| == |map1|
    && (forall k :: 0 <= k < |live| ==> live[k].handle == k && live[k].priv <= LIBCFG_MASK && IsValid(live[k].priv))
    && (forall i :: 0 <= i < LIBCFG_WIDTH && (i >= idx || !IsValid(fields[i])) ==> map1[i] == start[i])
    && (forall i :: 0 <= i < idx && IsValid(fields[i]) ==>
      0 <= map1[i] < |live| && live[map1[i]] == Entry(map1[i], fields[i], los[i], his[i]))
    && (forall i, j :: 0 <= i < j < idx && IsValid(fields[i]) && IsValid(fields[j]) ==> map1[i] < map1[j])
  }

  lemma RegisterStep(idx: nat, fields: seq<bv64>, los: seq<Word>, his: seq<Word>, start: seq<int>,
                     map1: seq<int>, live: seq<Entry>, valid: bool, map2: seq<int>, live2: seq<Entry>)
    requires idx < LIBCFG_WIDTH == |fields| && fields[idx] <= LIBCFG_MASK && valid == IsValid(fields[idx])
    requires RegisteredAs(idx, fields, los, his, start, map1, live)
    requires map2 == if valid then map1[idx := |live|] else map1
    requires live2 == if valid then live + [Entry(|live|, fields[idx], los[idx], his[idx])] else live
    ensures RegisteredAs(idx + 1, fields, los, his, start, map2, live2)
  {}

  lemma {:induction false} AdoptedIs(idx: nat, fields: seq<bv64>, los: seq<Word>, his: seq<Word>, start: seq<int>)
    returns (map1: seq<int>, live: seq<Entry>)
    requires idx <= LIBCFG_WIDTH == |fields| == |los| == |his| == |start|
    requires forall i :: 0 <= i < LIBCFG_WIDTH ==> fields[i] <= LIBCFG_MASK
    ensures map1 == AdoptedMap(idx, fields, los, his, start) && live == AdoptedLive(idx, fields, los, his)
    ensures RegisteredAs(idx, fields, los, his, start, map1, live)
  {
    if idx == 0 {
      map1, live := start, [];
    } else {
      var k := idx - 1;
      var map0, live0 := AdoptedIs(k, fields, los, his, start);
      var valid := IsValid(fields[k]);
      map1 := if valid then map0[k := |live0|] else map0;
      live := if valid then live0 + [Entry(|live0|, fields[k], los[k], his[k])] else live0;
      RegisterStep(k, fields, los, his, start, map0, live0, valid, map1, live);
    }
  }

  lemma RegisteredCoherent(fields: seq<bv64>, los: seq<Word>, his: seq<Word>, start: seq<int>, map1: seq<int>, live: seq<Entry>)
    requires RegisteredAs(LIBCFG_WIDTH, fields, los, his, start, map1, live)
    ensures Coherent(Model(Slots(fields, map1, los, his), live, |live|))
  {
    var slots := Slots(fields, map1, los, his);
    forall i | 0 <= i < LIBCFG_WIDTH && slots[i].Holds? ensures slots[i].entry in live {
      assert live[map1[i]] == slots[i].entry;
    }
  }

  /** Where a search for a handle stops: the first slot the map names it for. */
  function FirstMatch(map1: seq<int>, handle: int): (i: nat)
    ensures i <= |map1| && (i < |map1| ==> map1[i] == handle)
    ensures forall j :: 0 <= j < i ==> map1[j] != handle
  {
    if map1 == [] || map1[0] == handle then 0 else 1 + FirstMatch(map1[1..], handle)
  }

  lemma {:induction false} FirstMatchIs(map1: seq<int>, handle: int, k: nat)
    requires k <= |map1| && (forall j :: 0 <= j < k ==> map1[j] != handle) && (k < |map1| ==> map1[k] == handle)
    ensures FirstMatch(map1, handle) == k
  {
    if k > 0 {
      FirstMatchIs(map1[1..], handle, k - 1);
    }
  }

  /** The slots with the first one the map names for a handle emptied, and the map without it. */
  function Cleared(slots: seq<Slot>, map1: seq<int>, handle: int): (r: seq<Slot>)
    requires |slots| == |map1|
    ensures |r| == |slots|
  {
    var k := FirstMatch(map1, handle);
    if k < |slots| then slots[k := Empty] else slots
  }

  function ClearedMap(map1: seq<int>, handle: int): (r: seq<int>)
    ensures |r| == |map1|
  {
    var k := FirstMatch(map1, handle);
    if k < |map1| then map1[k := -1] else map1
  }

  /** What dasics_libcfg_free does when it trusts the map. */
  function FreedByMap(m: Model, map1: seq<int>, handle: int): Model
    requires |m.slots| == |map1|
  {
    if Live(m.live, handle) then m.(slots := Cleared(m.slots, map1, handle), live := Without(m.live, handle)) else m
  }

  /** If the map names every bound at the slot that holds it, and no other, trusting it is right. */
  lemma ClearedIsEvict(slots: seq<Slot>, map1: seq<int>, handle: int)
    requires |slots| == |map1| && handle != -1
    requires forall i :: 0 <= i < |slots| ==>
      if map1[i] == -1 then slots[i].Empty? else slots[i].Holds? && slots[i].entry.handle == map1[i]
    requires forall i, j :: 0 <= i < j < |slots| && map1[i] != -1 ==> map1[j] != map1[i]
    ensures Cleared(slots, map1, handle) == Evict(slots, handle)
  {
    var k := FirstMatch(map1, handle);
    if k < |slots| {
      EvictOne(slots, handle, k);
    }
  }

  /** The map as its initialiser leaves it: -1 for the first slot, 0 for all the others. */
  const INITIAL_MAP: seq<int> := [-1] + seq(LIBCFG_WIDTH - 1, _ => 0)

  /** With the map as initialised, a free of handle 0, which belongs to the first slot the
      operating system left valid, stops at that slot exactly if it is slot 0 or slot 1. */
  lemma InitialMapMisleads(fields: seq<bv64>, los: seq<Word>, his: seq<Word>, first: nat)
    requires |fields| == |los| == |his| == LIBCFG_WIDTH && first < LIBCFG_WIDTH && IsValid(fields[first])
    requires forall i :: 0 <= i < first ==> !IsValid(fields[i])
    requires forall i :: 0 <= i < LIBCFG_WIDTH ==> fields[i] <= LIBCFG_MASK
    ensures var map1 := AdoptedMap(LIBCFG_WIDTH, fields, los, his, INITIAL_MAP);
      map1[first] == 0 && (FirstMatch(map1, 0) == first <==> first <= 1) && FirstMatch(map1, 0) <= first
  {
    var map1, live := AdoptedIs(LIBCFG_WIDTH, fields, los, his, INITIAL_MAP);
    AdoptedFirst(LIBCFG_WIDTH, fields, los, his, INITIAL_MAP, first);
    assert 1 < first ==> map1[1] == INITIAL_MAP[1] == 0;
    assert 0 < first ==> map1[0] == INITIAL_MAP[0] == -1;
  }

  /** So after that free the bound with handle 0 is gone from the table, but a slot still holds it,
      and grants what it grants, if and only if it was in neither of the first two slots. */
  lemma InitialMapKeepsBound(fields: seq<bv64>, los: seq<Word>, his: seq<Word>, first: nat)
    requires |fields| == |los| == |his| == LIBCFG_WIDTH && first < LIBCFG_WIDTH && IsValid(fields[first])
    requires forall i :: 0 <= i < first ==> !IsValid(fields[i])
    requires forall i :: 0 <= i < LIBCFG_WIDTH ==> fields[i] <= LIBCFG_MASK
    ensures var map1 := AdoptedMap(LIBCFG_WIDTH, fields, los, his, INITIAL_MAP);
      var live := AdoptedLive(LIBCFG_WIDTH, fields, los, his);
      var m := Model(Slots(fields, map1, los, his), live, |live|);
      var m' := FreedByMap(m, map1, 0);
      && Coherent(m) && Live(m.live, 0) && !Live(m'.live, 0)
      && (Cached(m'.slots, 0) <==> first > 1)
      && (first > 1 ==> forall addr, isRead :: Grants(m.slots[first].entry, addr, isRead) ==> SlotsGrant(m'.slots, addr, isRead))
  {
    var map1, live := AdoptedIs(LIBCFG_WIDTH, fields, los, his, INITIAL_MAP);
    RegisteredCoherent(fields, los, his, INITIAL_MAP, map1, live);
    InitialMapMisleads(fields, los, his, first);
    var slots := Slots(fields, map1, los, his);
    var m := Model(slots, live, |live|);
    assert live[0].handle == 0;
    FreeRemovesOnly(m, 0);
    var k := FirstMatch(map1, 0);
    assert slots[first].entry.handle == 0;
    if first > 1 {
      assert Held(slots[k := Empty][first], 0);
    } else {
      EvictOne(slots, 0, first);
      EvictCached(slots, 0, 0);
    }
  }

  lemma {:induction false} AdoptedFirst(idx: nat, fields: seq<bv64>, los: seq<Word>, his: seq<Word>, start: seq<int>, first: nat)
    requires first < idx <= LIBCFG_WIDTH == |fields| == |los| == |his| == |start| && IsValid(fields[first])
    requires forall i :: 0 <= i < first ==> !IsValid(fields[i])
    ensures AdoptedMap(idx, fields, los, his, start)[first] == 0
  {
    var map1 := AdoptedMap(idx - 1, fields, los, his, start);
    var next := |AdoptedLive(idx - 1, fields, los, his)|;
    if idx == first + 1 {
      NoneAdopted(first, fields, los, his);
      assert AdoptedMap(idx, fields, los, his, start) == map1[first := next];
    } else {
      AdoptedFirst(idx - 1, fields, los, his, start, first);
      assert map1[idx - 1 := next][first] == 0;
    }
  }

  lemma {:induction false} NoneAdopted(idx: nat, fields: seq<bv64>, los: seq<Word>, his: seq<Word>)
    requires idx <= LIBCFG_WIDTH == |fields| == |los| == |his|
    requires forall i :: 0 <= i < idx ==> !IsValid(fields[i])
    ensures AdoptedLive(idx, fields, los, his) == []
  {
    if idx > 0 {
      NoneAdopted(idx - 1, fields, los, his);
    }
  }

  class LibBounds {
    const table: HashTable
    const handleMap: array<int>
    const csrLo: array<Word>
    const csrHi: array<Word>
    var libcfg: bv64
    var availableHandle: int

    /** The state a program starts in: registers as the operating system left them, the map as
        initialised, an empty table. */
    constructor (hash: int -> nat, cfg: bv64, los: seq<Word>, his: seq<Word>, handles: seq<int>)
      requires |los| == |his| == |handles| == LIBCFG_WIDTH
      ensures Shaped() && fresh(table) && fresh(table.buckets) && fresh(csrLo) && fresh(csrHi) && fresh(handleMap)
      ensures libcfg == cfg && csrLo[..] == los && csrHi[..] == his && handleMap[..] == handles
      ensures table.Valid() && table.Items == [] && availableHandle == 0
    {
      table := new HashTable(hash);
      csrLo := new Word[LIBCFG_WIDTH](i requires 0 <= i < LIBCFG_WIDTH => los[i]);
      csrHi := new Word[LIBCFG_WIDTH](i requires 0 <= i < LIBCFG_WIDTH => his[i]);
      handleMap := new int[LIBCFG_WIDTH](i requires 0 <= i < LIBCFG_WIDTH => handles[i]);
      libcfg := cfg;
      availableHandle := 0;
    }

    ghost predicate Shaped() {
      && csrLo != csrHi && (handleMap as object) != csrLo && (handleMap as object) != csrHi
      && handleMap.Length == csrLo.Length == csrHi.Length == LIBCFG_WIDTH
    }

    ghost function Abs(): Model
      requires Shaped()
      reads this, handleMap, csrLo, csrHi, table`Items
    {
      Model(Slots(Fields(libcfg), handleMap[..], csrLo[..], csrHi[..]), Entries(table.Items), availableHandle)
    }

    /** The parts fit together, whatever the handle map says. */
    ghost predicate Tabled()
      reads this, table, table.buckets, table.Items
    {
      Shaped() && table.Valid() && Separate()
    }

    /** Moreover, a slot is valid exactly when the handle map names a bound for it. */
    ghost predicate Sound()
      reads this, handleMap, csrLo, csrHi, table, table.buckets, table.Items
    {
      Tabled() && MapOk()
    }

    /** Moreover, the state the registers and the table make up is coherent. */
    ghost predicate Valid()
      reads this, handleMap, csrLo, csrHi, table, table.buckets, table.Items
    {
      Sound() && Coherent(Abs())
    }

    ghost predicate Separate()
      reads this, table
    {
      (table.buckets as object) !in {handleMap as object, csrLo, csrHi}
    }

    ghost predicate MapOk()
      requires Shaped()
      reads this`libcfg, handleMap
    {
      forall i :: 0 <= i < LIBCFG_WIDTH ==> (IsValid(Fields(libcfg)[i]) <==> handleMap[i] != -1)
    }

    /** The register and map writes for one slot. */
    method WriteRegisters(idx: nat, e: Entry)
      requires Shaped() && MapOk() && idx < LIBCFG_WIDTH && e.priv <= LIBCFG_MASK && IsValid(e.priv) && e.handle != -1
      modifies this`libcfg, handleMap, csrLo, csrHi
      ensures Abs() == old(Abs()).(slots := old(Abs()).slots[idx := Holds(e)])
      ensures MapOk()
      ensures csrLo[..] == old(csrLo[..])[idx := e.lo] && csrHi[..] == old(csrHi[..])[idx := e.hi]
      ensures Fields(libcfg) == Fields(old(libcfg))[idx := e.priv] && handleMap[..] == old(handleMap[..])[idx := e.handle]
    {
      ghost var fields, handles, los, his := Fields(libcfg), handleMap[..], csrLo[..], csrHi[..];
      csrLo[idx] := e.lo;
      csrHi[idx] := e.hi;
      libcfg := SetField(libcfg, idx, e.priv);
      handleMap[idx] := e.handle;
      SlotsWritten(fields, Fields(libcfg), handles, los, his, idx, e);
      assert handleMap[..] == handles[idx := e.handle] && csrLo[..] == los[idx := e.lo] && csrHi[..] == his[idx := e.hi];
    }

    /** Write one slot: bounds, field and handle. */
    method WriteSlot(idx: nat, e: Entry)
      requires Sound() && idx < LIBCFG_WIDTH && e.priv <= LIBCFG_MASK && IsValid(e.priv) && e.handle != -1
      modifies this`libcfg, handleMap, csrLo, csrHi
      ensures Abs() == old(Abs()).(slots := old(Abs()).slots[idx := Holds(e)])
      ensures Sound()
    {
      WriteRegisters(idx, e);
    }

    /** Clear one slot: its V bit and its handle. */
    method ClearSlot(idx: nat)
      requires Tabled() && idx < LIBCFG_WIDTH
      modifies this`libcfg, handleMap
      ensures Tabled() && (old(MapOk()) ==> MapOk())
      ensures Abs() == old(Abs()).(slots := old(Abs()).slots[idx := Empty])
      ensures handleMap[..] == old(handleMap[..])[idx := -1]
    {
      ghost var fields, handles := Fields(libcfg), handleMap[..];
      libcfg := ClearValid(libcfg, idx);
      handleMap[idx] := -1;
      SlotsInvalidated(fields, Fields(libcfg), handles, csrLo[..], csrHi[..], idx);
      assert handleMap[..] == handles[idx := -1];
    }

    method Occupied(idx: nat) returns (occupied: bool)
      requires Shaped() && idx < LIBCFG_WIDTH
      ensures occupied == Abs().slots[idx].Holds?
    {
      assert Fields(libcfg)[idx] == Field(libcfg, idx);
      occupied := IsValid(Field(libcfg, idx));
    }

    /** The slot a new bound goes to: the first free one, else the one rand() picks. */
    method FindVictim(rand: nat) returns (victim: nat)
      requires Shaped()
      ensures victim < LIBCFG_WIDTH
      ensures var free := FirstFree(Abs().slots); victim == if free < LIBCFG_WIDTH then free else rand % LIBCFG_WIDTH
    {
      ghost var slots := Abs().slots;
      victim := 0;
      while victim < LIBCFG_WIDTH
        invariant victim <= LIBCFG_WIDTH
        invariant forall j :: 0 <= j < victim ==> slots[j].Holds?
      {
        var occupied := Occupied(victim);
        if !occupied {
          break;
        }
        victim := victim + 1;
      }
      FirstFreeIs(slots, victim);
      if victim == LIBCFG_WIDTH {
        victim := rand % LIBCFG_WIDTH;
      }
    }

    /** Put a new entry into the table. */
    method AddNode(e: Entry)
      requires Shaped() && table.Valid() && Separate()
      modifies table, table.buckets, table.Items
      ensures table.Valid() && Separate() && Entries(table.Items) == old(Entries(table.Items)) + [e]
      ensures |table.Items| == |old(table.Items)| + 1
      ensures table.buckets == old(table.buckets) || fresh(table.buckets)
      ensures forall k :: 0 <= k < |table.Items| ==> table.Items[k] in old(table.Items) || fresh(table.Items[k])
    {
      var n := new Node(e);
      table.Add(n);
    }

    method AddEntry(e: Entry)
      requires Sound()
      modifies table, table.buckets, table.Items
      ensures Sound() && Entries(table.Items) == old(Entries(table.Items)) + [e]
      ensures table.buckets == old(table.buckets) || fresh(table.buckets)
      ensures forall k :: 0 <= k < |table.Items| ==> table.Items[k] in old(table.Items) || fresh(table.Items[k])
    {
      AddNode(e);
    }

    /** Put a new entry into the table and into a slot. */
    method Enter(e: Entry, rand: nat)
      requires Sound() && e.priv <= LIBCFG_MASK && IsValid(e.priv) && e.handle != -1
      modifies this`libcfg, handleMap, csrLo, csrHi, table, table.buckets, table.Items
      ensures Sound()
      ensures var m, free := old(Abs()), FirstFree(old(Abs()).slots);
        var victim := if free < LIBCFG_WIDTH then free else rand % LIBCFG_WIDTH;
        Abs() == m.(slots := m.slots[victim := Holds(e)], live := m.live + [e])
      ensures table.buckets == old(table.buckets) || fresh(table.buckets)
      ensures forall k :: 0 <= k < |table.Items| ==> table.Items[k] in old(table.Items) || fresh(table.Items[k])
    {
      AddEntry(e);
      var victim := FindVictim(rand);
      WriteSlot(victim, e);
    }

    // dasics_libcfg_alloc
    method Alloc(cfg: bv64, lo: Word, hi: Word, rand: nat) returns (handle: int)
      requires Valid()
      modifies this, handleMap, csrLo, csrHi, table, table.buckets, table.Items
      ensures Valid()
      ensures Abs() == BoundModel.Alloc(old(Abs()), cfg, lo, hi, rand) && handle == old(availableHandle)
      ensures table.buckets == old(table.buckets) || fresh(table.buckets)
      ensures forall k :: 0 <= k < |table.Items| ==> table.Items[k] in old(table.Items) || fresh(table.Items[k])
    {
      AllocCoherent(Abs(), cfg, lo, hi, rand);
      PrivOk(cfg);
      handle := availableHandle;
      availableHandle := availableHandle + 1;
      Enter(Entry(handle, (cfg & LIBCFG_MASK) | LIBCFG_V, AlignDown(lo), AlignUp(hi)), rand);
    }

    lemma EntriesRemoved(items: seq<Node>, k: nat)
      requires k < |items| && Distinct(Entries(items))
      ensures Entries(RemoveAt(items, k)) == Without(Entries(items), items[k].entry.handle)
    {
      WithoutAt(Entries(items), k);
      assert Entries(RemoveAt(items, k)) == Entries(items)[..k] + Entries(items)[k + 1..];
    }

    /** Look a handle up in the table. */
    method Lookup(handle: int) returns (entry: Node?)
      requires Tabled()
      ensures entry == null <==> !Live(Abs().live, handle)
      ensures entry != null ==> entry in table.Items && entry.entry.handle == handle
    {
      entry := table.Find(handle);
      if entry == null {
        forall i | 0 <= i < |Abs().live| ensures Abs().live[i].handle != handle {
          assert table.Items[i] in table.Items;
        }
      } else {
        ghost var k :| 0 <= k < |table.Items| && table.Items[k] == entry;
        assert Abs().live[k].handle == handle;
      }
    }

    /** Delete an entry from the table. */
    method DeleteEntry(entry: Node)
      requires Tabled() && Distinct(Entries(table.Items)) && entry in table.Items
      modifies table, table.buckets, table.Items
      ensures Tabled() && table.buckets == old(table.buckets) && handleMap[..] == old(handleMap[..])
      ensures Abs() == old(Abs()).(live := Without(old(Abs()).live, entry.entry.handle))
      ensures Within(table.Items, old(table.Items))
    {
      ghost var items := table.Items;
      table.Delete(entry);
      ghost var k :| 0 <= k < |items| && items[k] == entry && table.Items == RemoveAt(items, k);
      EntriesRemoved(items, k);
    }

    /** Clear the first slot whose handle map entry is the handle. */
    method ClearCached(handle: int)
      requires Tabled()
      modifies this`libcfg, handleMap
      ensures Tabled() && (old(MapOk()) ==> MapOk())
      ensures Abs() == old(Abs()).(slots := Cleared(old(Abs()).slots, old(handleMap[..]), handle))
      ensures handleMap[..] == ClearedMap(old(handleMap[..]), handle)
    {
      var idx := 0;
      while idx < LIBCFG_WIDTH
        invariant 0 <= idx <= LIBCFG_WIDTH
        invariant forall i :: 0 <= i < idx ==> handleMap[i] != handle
      {
        if handleMap[idx] == handle {
          FirstMatchIs(handleMap[..], handle, idx);
          ClearSlot(idx);
          return;
        }
        idx := idx + 1;
      }
      FirstMatchIs(handleMap[..], handle, idx);
    }

    /** Take a live bound out of the table and out of the slot the map names for it. */
    method Retire(entry: Node)
      requires Tabled() && Distinct(Entries(table.Items)) && entry in table.Items
      modifies this`libcfg, handleMap, table, table.buckets, table.Items
      ensures Tabled() && table.buckets == old(table.buckets) && (old(MapOk()) ==> MapOk())
      ensures var m, handle := old(Abs()), entry.entry.handle;
        Abs() == m.(slots := Cleared(m.slots, old(handleMap[..]), handle), live := Without(m.live, handle))
      ensures Within(table.Items, old(table.Items))
    {
      DeleteEntry(entry);
      ClearCached(entry.entry.handle);
    }

    /** dasics_libcfg_free, from any coherent state, whatever the map says. */
    method FreeByMap(handle: int) returns (code: int)
      requires Tabled() && Coherent(Abs())
      modifies this`libcfg, handleMap, table, table.buckets, table.Items
      ensures Tabled() && table.buckets == old(table.buckets) && (old(MapOk()) ==> MapOk())
      ensures Abs() == FreedByMap(old(Abs()), old(handleMap[..]), handle) && code == FreeCode(old(Abs()), handle)
      ensures Within(table.Items, old(table.Items))
    {
      if handle < 0 {
        return -1;
      }
      var entry := Lookup(handle);
      if entry == null {
        return -1;
      }
      Retire(entry);
      return 0;
    }

    /** dasics_libcfg_free, where the map agrees with the slots. */
    method Free(handle: int) returns (code: int)
      requires Valid()
      modifies this`libcfg, handleMap, table, table.buckets, table.Items
      ensures Valid() && table.buckets == old(table.buckets)
      ensures Abs() == BoundModel.Free(old(Abs()), handle) && code == FreeCode(old(Abs()), handle)
      ensures Within(table.Items, old(table.Items))
    {
      FreeCoherent(Abs(), handle);
      MapIsRight(handle);
      code := FreeByMap(handle);
    }

    lemma MapIsRight(handle: int)
      requires Valid()
      ensures FreedByMap(Abs(), handleMap[..], handle) == BoundModel.Free(Abs(), handle)
    {
      SlotHandles();
      if Live(Abs().live, handle) {
        var k :| 0 <= k < |Abs().live| && Abs().live[k].handle == handle;
        assert Abs().live[k] in Abs().live;
        ClearedIsEvict(Abs().slots, handleMap[..], handle);
      }
    }

    /** A valid slot holds the handle its map entry names. */
    lemma SlotHandles()
      requires Valid()
      ensures forall i :: 0 <= i < LIBCFG_WIDTH ==>
        if handleMap[i] == -1 then Abs().slots[i].Empty?
        else Abs().slots[i].Holds? && Abs().slots[i].entry.handle == handleMap[i]
      ensures forall i, j :: 0 <= i < j < LIBCFG_WIDTH && handleMap[i] != -1 ==> handleMap[j] != handleMap[i]
    {
    }

    // dasics_libcfg_get
    method Get(handle: int) returns (cfg: bv64)
      requires Valid()
      ensures cfg == Rights(Abs().live, handle)
    {
      RightsAre(Abs().live, handle);
      var entry := Lookup(handle);
      if entry == null {
        return 0;
      }
      ghost var k :| 0 <= k < |table.Items| && table.Items[k] == entry;
      assert Abs().live[k] == entry.entry;
      return entry.entry.priv;
    }

    /** Walk the table in application order up to the first bound that grants the access. */
    method Search(addr: Word, isRead: bool) returns (current: Node?)
      requires Sound()
      ensures FirstGranting(Abs().live, addr, isRead) == if current == null then Empty else Holds(current.entry)
    {
      ghost var items, k := table.Items, 0;
      current := table.head;
      while current != null
        invariant 0 <= k <= |items| && current == if k < |items| then items[k] else null
        invariant forall j :: 0 <= j < k ==> !Grants(Abs().live[j], addr, isRead)
        decreases |items| - k
      {
        if Grants(current.entry, addr, isRead) {
          break;
        }
        current := current.next;
        k := k + 1;
      }
      FirstGrantingAt(Abs().live, k, addr, isRead);
    }

    /** Load the first bound that grants the access into the slot rand() picks. */
    method RefillSlot(addr: Word, isRead: bool, rand: nat) returns (idx: int)
      requires Valid()
      modifies this`libcfg, handleMap, csrLo, csrHi
      ensures Sound()
      ensures Abs() == Refill(old(Abs()), addr, isRead, rand)
      ensures idx == if FirstGranting(old(Abs()).live, addr, isRead).Empty? then -1 else rand % LIBCFG_WIDTH
    {
      FirstGrantingIs(Abs().live, addr, isRead);
      var current := Search(addr, isRead);
      if current == null {
        return -1;
      }
      var victim := rand % LIBCFG_WIDTH;
      WriteSlot(victim, current.entry);
      return victim;
    }

    // dasics_ldst_checker
    method LdstChecker(addr: Word, isRead: bool, rand: nat) returns (idx: int)
      requires Valid() && !SlotsGrant(Abs().slots, addr, isRead)
      modifies this`libcfg, handleMap, csrLo, csrHi
      ensures Valid()
      ensures Abs() == Refill(old(Abs()), addr, isRead, rand)
      ensures idx == if FirstGranting(old(Abs()).live, addr, isRead).Empty? then -1 else rand % LIBCFG_WIDTH
    {
      MissRefillCoherent(Abs(), addr, isRead, rand);
      idx := RefillSlot(addr, isRead, rand);
    }

    /** The hardware's own check of a load or store against its sixteen registers. */
    method Check(addr: Word, isRead: bool) returns (granted: bool)
      requires Sound()
      ensures granted == SlotsGrant(Abs().slots, addr, isRead)
    {
      granted := false;
      var i := 0;
      while i < LIBCFG_WIDTH
        invariant 0 <= i <= LIBCFG_WIDTH
        invariant granted <==> exists j :: 0 <= j < i && Abs().slots[j].Holds? && Grants(Abs().slots[j].entry, addr, isRead)
      {
        var occupied := Occupied(i);
        assert Fields(libcfg)[i] == Field(libcfg, i);
        if occupied && Grants(Entry(handleMap[i], Field(libcfg, i), csrLo[i], csrHi[i]), addr, isRead) {
          granted := true;
        }
        i := i + 1;
      }
    }

    /** A load or store with the load and store arms of dasics_ufault_handler behind it. */
    method Access(addr: Word, isRead: bool, rand: nat) returns (granted: bool)
      requires Valid()
      modifies this`libcfg, handleMap, csrLo, csrHi
      ensures Valid()
      ensures (Abs(), if granted then BoundRuns.Granted else BoundRuns.Faulted) ==
        BoundRuns.Access(old(Abs()), addr, isRead, rand)
      ensures granted <==> TableGrants(old(Abs()).live, addr, isRead)
    {
      BoundRuns.AccessIffGranted(Abs(), addr, isRead, rand);
      granted := Check(addr, isRead);
      if !granted {
        var idx := LdstChecker(addr, isRead, rand);
        if 0 <= idx && idx < LIBCFG_WIDTH {
          granted := Check(addr, isRead);
        }
      }
    }

    /** Free the bound a slot holds, if it holds one. */
    method FreeSlot(idx: nat)
      requires Valid() && idx < LIBCFG_WIDTH
      modifies this`libcfg, handleMap, table, table.buckets, table.Items
      ensures Valid() && table.buckets == old(table.buckets)
      ensures var m := old(Abs());
        Abs() == if m.slots[idx].Holds? then BoundModel.Free(m, m.slots[idx].entry.handle) else m
      ensures Within(table.Items, old(table.Items))
    {
      SlotHandles();
      if handleMap[idx] != -1 {
        var _ := Free(handleMap[idx]);
      }
    }

    // dasics_libcfg_free_all
    method FreeAll() returns (code: int)
      requires Valid()
      modifies this`libcfg, handleMap, table, table.buckets, table.Items
      ensures Valid() && table.buckets == old(table.buckets)
      ensures Abs() == BoundModel.FreeAll(old(Abs())) && code == 0
      ensures forall i :: 0 <= i < LIBCFG_WIDTH ==> handleMap[i] == -1
      ensures Within(table.Items, old(table.Items))
    {
      FreeAllIs(Abs());
      var idx := 0;
      while idx < LIBCFG_WIDTH
        invariant 0 <= idx <= LIBCFG_WIDTH
        invariant Valid() && table.buckets == old(table.buckets)
        invariant FreeFrom(Abs(), idx) == BoundModel.FreeAll(old(Abs()))
        invariant Within(table.Items, old(table.Items))
      {
        FreeSlot(idx);
        idx := idx + 1;
      }
      SlotHandles();
      return 0;
    }

    /** The table and the map are what registration makes of the slots below idx. */
    ghost predicate Registered(idx: nat, start: seq<int>)
      requires Shaped() && idx <= LIBCFG_WIDTH == |start|
      reads this, handleMap, csrLo, csrHi, table`Items
    {
      var live := AdoptedLive(idx, Fields(libcfg), csrLo[..], csrHi[..]);
      Entries(table.Items) == live && availableHandle == |live| &&
      handleMap[..] == AdoptedMap(idx, Fields(libcfg), csrLo[..], csrHi[..], start)
    }

    /** Give the bound a slot was left with a handle and an entry. */
    method Adopt(idx: nat, field: bv64)
      requires Shaped() && table.Valid() && Separate() && idx < LIBCFG_WIDTH
      modifies this`availableHandle, handleMap, table, table.buckets, table.Items
      ensures table.Valid() && Separate() && availableHandle == old(availableHandle) + 1
      ensures Entries(table.Items) == old(Entries(table.Items)) +
        [Entry(old(availableHandle), field, csrLo[idx], csrHi[idx])]
      ensures |table.Items| == |old(table.Items)| + 1
      ensures handleMap[..] == old(handleMap[..])[idx := old(availableHandle)]
      ensures table.buckets == old(table.buckets) || fresh(table.buckets)
      ensures forall k :: 0 <= k < |table.Items| ==> table.Items[k] in old(table.Items) || fresh(table.Items[k])
    {
      ghost var map0 := handleMap[..];
      var handle := availableHandle;
      availableHandle := availableHandle + 1;
      AddNode(Entry(handle, field, csrLo[idx], csrHi[idx]));
      handleMap[idx] := handle;
      assert handleMap[..] == map0[idx := handle];
    }

    /** Registration of one slot. */
    method RegisterSlot(idx: nat, ghost start: seq<int>)
      requires Shaped() && table.Valid() && Separate()
      requires idx < LIBCFG_WIDTH == |start| && Registered(idx, start)
      modifies this`availableHandle, handleMap, table, table.buckets, table.Items
      ensures table.Valid() && Separate() && Registered(idx + 1, start)
      ensures table.buckets == old(table.buckets) || fresh(table.buckets)
      ensures forall k :: 0 <= k < |table.Items| ==> table.Items[k] in old(table.Items) || fresh(table.Items[k])
    {
      var field := Field(libcfg, idx);
      assert Fields(libcfg)[idx] == field;
      if IsValid(field) {
        Adopt(idx, field);
      }
    }

    /** The registration loop. */
    method AdoptAll()
      requires Shaped() && table.Valid() && Separate() && table.Items == [] && availableHandle == 0
      modifies this`availableHandle, handleMap, table, table.buckets
      ensures table.Valid() && Separate() && Registered(LIBCFG_WIDTH, old(handleMap[..]))
    {
      ghost var start := handleMap[..];
      var idx := 0;
      while idx < LIBCFG_WIDTH
        invariant 0 <= idx <= LIBCFG_WIDTH
        invariant table.Valid() && Separate() && Registered(idx, start)
        invariant table.buckets == old(table.buckets) || fresh(table.buckets)
        invariant forall k :: 0 <= k < |table.Items| ==> fresh(table.Items[k])
      {
        RegisterSlot(idx, start);
        idx := idx + 1;
      }
    }

    lemma StartMapDecides(start: seq<int>)
      requires Shaped() && |start| == LIBCFG_WIDTH && Registered(LIBCFG_WIDTH, start)
      ensures Coherent(Abs())
      ensures MapOk() <==> forall i :: 0 <= i < LIBCFG_WIDTH && !IsValid(Fields(libcfg)[i]) ==> start[i] == -1
    {
      FieldsBound(libcfg);
      var map1, live := AdoptedIs(LIBCFG_WIDTH, Fields(libcfg), csrLo[..], csrHi[..], start);
      RegisteredCoherent(Fields(libcfg), csrLo[..], csrHi[..], start, map1, live);
    }

    /** register_udasics, its table part. The registers and the table end up coherent whatever
        the map started as; the map agrees with them exactly if it started as -1 for every slot
        the operating system left free. */
    method Register()
      requires Shaped() && table.Valid() && Separate() && table.Items == [] && availableHandle == 0
      modifies this`availableHandle, handleMap, table, table.buckets
      ensures table.Valid() && Separate() && Registered(LIBCFG_WIDTH, old(handleMap[..])) && Coherent(Abs())
      ensures Valid() <==> forall i :: 0 <= i < LIBCFG_WIDTH && !IsValid(Fields(libcfg)[i]) ==> old(handleMap[i]) == -1
    {
      AdoptAll();
      StartMapDecides(old(handleMap[..]));
    }

    /** unregister_udasics empties the table and leaves the slots as they are. */
    method Unregister()
      requires Valid()
      modifies table, table.buckets, table.Items
      ensures Sound() && Abs() == old(Abs()).(live := [])
    {
      table.DeleteAll();
    }
  }
}
