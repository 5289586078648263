/** The bound-register cache as a state machine over values: sixteen slots in front of an
    unlimited table of live bounds. The machine with unlimited registers it stands in for is
    here too, together with the proof that users cannot tell the two apart. */
module BoundModel {
  import opened Machine
  import opened Words
  import opened Bounds

  datatype Slot = Empty | Holds(entry: Entry)

  /** slots: what the hardware registers hold; live: the table in application order;
      next: the next handle to hand out. */
  datatype Model = Model(slots: seq<Slot>, live: seq<Entry>, next: int)

  // ---- the table of live bounds

  predicate Live(live: seq<Entry>, handle: int) {
    exists i :: 0 <= i < |live| && live[i].handle == handle
  }

  /** The table without the entry of a handle. */
  function Without(live: seq<Entry>, handle: int): seq<Entry> {
    if live == [] then []
    else if live[0].handle == handle then live[1..]
    else [live[0]] + Without(live[1..], handle)
  }

  /** The first entry, in application order, that authorises an access. */
  function FirstGranting(live: seq<Entry>, addr: Word, isRead: bool): Slot {
    if live == [] then Empty
    else if Grants(live[0], addr, isRead) then Holds(live[0])
    else FirstGranting(live[1..], addr, isRead)
  }

  predicate TableGrants(live: seq<Entry>, addr: Word, isRead: bool) {
    exists e :: e in live && Grants(e, addr, isRead)
  }

  // ---- the sixteen slots

  predicate SlotsGrant(slots: seq<Slot>, addr: Word, isRead: bool) {
    exists i :: 0 <= i < |slots| && slots[i].Holds? && Grants(slots[i].entry, addr, isRead)
  }

  predicate Held(slot: Slot, handle: int) { slot.Holds? && slot.entry.handle == handle }

  predicate Cached(slots: seq<Slot>, handle: int) {
    exists i :: 0 <= i < |slots| && Held(slots[i], handle)
  }

  function FirstFree(slots: seq<Slot>): (i: nat)
    ensures i <= |slots|
    ensures i < |slots| ==> slots[i].Empty?
    ensures forall j :: 0 <= j < i ==> slots[j].Holds?
  {
    if slots == [] || slots[0].Empty? then 0 else 1 + FirstFree(slots[1..])
  }

  lemma {:induction false} FirstFreeIs(slots: seq<Slot>, k: nat)
    requires k <= |slots| && (forall j :: 0 <= j < k ==> slots[j].Holds?) && (k < |slots| ==> slots[k].Empty?)
    ensures FirstFree(slots) == k
  {
    if k > 0 {
      FirstFreeIs(slots[1..], k - 1);
    }
  }

  /** The slots with every one that holds the handle emptied. */
  function Evict(slots: seq<Slot>, handle: int): (r: seq<Slot>)
    ensures |r| == |slots|
    ensures forall i :: 0 <= i < |r| ==>
      r[i] == if Held(slots[i], handle) then Empty else slots[i]
  {
    seq(|slots|, i requires 0 <= i < |slots| =>
      if Held(slots[i], handle) then Empty else slots[i])
  }

  // ---- coherence

  predicate Distinct(live: seq<Entry>) {
    forall i, j :: 0 <= i < j < |live| ==> live[i].handle != live[j].handle
  }

  ghost predicate TableOk(live: seq<Entry>, next: int) {
    && Distinct(live)
    && (forall e :: e in live ==> 0 <= e.handle < next && e.priv <= LIBCFG_MASK && IsValid(e.priv))
  }

  ghost predicate SlotsOk(slots: seq<Slot>, live: seq<Entry>) {
    && |slots| == LIBCFG_WIDTH
    && (forall i :: 0 <= i < |slots| && slots[i].Holds? ==> slots[i].entry in live)
    && (forall i, j :: 0 <= i < j < |slots| && slots[i].Holds? && slots[j].Holds? ==>
      slots[i].entry.handle != slots[j].entry.handle)
  }

  /** Every cached bound is a live bound with the table's contents, no handle is cached twice,
      and handles not yet handed out name nothing. */
  ghost predicate Coherent(m: Model) {
    m.next >= 0 && TableOk(m.live, m.next) && SlotsOk(m.slots, m.live)
  }

  // ---- the operations

  /** dasics_libcfg_alloc; rand is what rand() returns when no slot is free. */
  function Alloc(m: Model, cfg: bv64, lo: Word, hi: Word, rand: nat): Model
    requires |m.slots| == LIBCFG_WIDTH
  {
    var e := Requested(m.next, cfg, lo, hi);
    var free := FirstFree(m.slots);
    var victim := if free < LIBCFG_WIDTH then free else rand % LIBCFG_WIDTH;
    Model(m.slots[victim := Holds(e)], m.live + [e], m.next + 1)
  }

  /** dasics_libcfg_free */
  function Free(m: Model, handle: int): Model {
    if Live(m.live, handle) then m.(slots := Evict(m.slots, handle), live := Without(m.live, handle)) else m
  }

  function FreeCode(m: Model, handle: int): int {
    if Live(m.live, handle) then 0 else -1
  }

  /** dasics_libcfg_free_all, from slot i on */
  function FreeFrom(m: Model, i: nat): Model
    decreases LIBCFG_WIDTH - i
  {
    if i >= LIBCFG_WIDTH || i >= |m.slots| then m
    else FreeFrom(if m.slots[i].Holds? then Free(m, m.slots[i].entry.handle) else m, i + 1)
  }

  function FreeAll(m: Model): Model { FreeFrom(m, 0) }

  /** dasics_libcfg_get: the rights of a handle, zero if it is not live. */
  function Rights(live: seq<Entry>, handle: int): bv64 {
    if live == [] then 0
    else if live[0].handle == handle then live[0].priv
    else Rights(live[1..], handle)
  }

  /** dasics_ldst_checker: refill a slot with the first bound that authorises the access. */
  function Refill(m: Model, addr: Word, isRead: bool, rand: nat): Model
    requires |m.slots| == LIBCFG_WIDTH
  {
    var found := FirstGranting(m.live, addr, isRead);
    if found.Empty? then m else m.(slots := m.slots[rand % LIBCFG_WIDTH := found])
  }

  // ---- every operation keeps coherence

  lemma {:induction false} WithoutIs(live: seq<Entry>, handle: int)
    requires Distinct(live)
    ensures Distinct(Without(live, handle))
    ensures forall e :: e in Without(live, handle) <==> e in live && e.handle != handle
  {
    if live != [] {
      WithoutIs(live[1..], handle);
      if live[0].handle == handle {
        assert forall e :: e in live[1..] ==> e.handle != handle;
      } else {
        var w := Without(live[1..], handle);
        forall j | 0 <= j < |w| ensures w[j].handle != live[0].handle {
          assert w[j] in live[1..];
        }
      }
    }
  }

  lemma {:induction false} RightsAre(live: seq<Entry>, handle: int)
    requires Distinct(live)
    ensures forall e :: e in live && e.handle == handle ==> Rights(live, handle) == e.priv
    ensures !Live(live, handle) ==> Rights(live, handle) == 0
  {
    if live != [] {
      assert forall e :: e in live ==> e == live[0] || e in live[1..];
      if !Live(live, handle) {
        assert live[0].handle != handle;
        forall i | 0 <= i < |live[1..]| ensures live[1..][i].handle != handle {
          assert live[i + 1].handle != handle;
        }
      }
      RightsAre(live[1..], handle);
      assert forall e :: e in live[1..] ==> e.handle != live[0].handle;
    }
  }

  lemma {:induction false} WithoutAt(live: seq<Entry>, k: nat)
    requires Distinct(live) && k < |live|
    ensures Without(live, live[k].handle) == live[..k] + live[k + 1..]
  {
    if k > 0 {
      WithoutAt(live[1..], k - 1);
    }
  }

  /** Emptying the one slot that holds a handle evicts the handle. */
  lemma EvictOne(slots: seq<Slot>, handle: int, idx: nat)
    requires idx < |slots| && slots[idx].Holds? && slots[idx].entry.handle == handle
    ensures slots[idx := Empty] == Evict(slots, handle) <==>
      forall i :: 0 <= i < |slots| && i != idx && slots[i].Holds? ==> slots[i].entry.handle != handle
  {
    if slots[idx := Empty] == Evict(slots, handle) {
      forall i | 0 <= i < |slots| && i != idx && slots[i].Holds? ensures slots[i].entry.handle != handle {
        assert slots[idx := Empty][i] == Evict(slots, handle)[i];
      }
    }
  }

  lemma AllocCoherent(m: Model, cfg: bv64, lo: Word, hi: Word, rand: nat)
    requires Coherent(m)
    ensures Coherent(Alloc(m, cfg, lo, hi, rand))
  {
    var e := Requested(m.next, cfg, lo, hi);
    PrivOk(cfg);
    assert e !in m.live;
    var m' := Alloc(m, cfg, lo, hi, rand);
    assert m'.live[|m.live|] == e;
  }

  /** What an allocation does to table and slots: the table gets the new bound last, the bound goes
      to the first free slot or, if there is none, to the slot rand() picks, and no other slot
      changes. */
  lemma AllocIs(m: Model, cfg: bv64, lo: Word, hi: Word, rand: nat) returns (slot: nat)
    requires Coherent(m)
    ensures var m', e := Alloc(m, cfg, lo, hi, rand), Requested(m.next, cfg, lo, hi);
      && m'.live == m.live + [e] && m'.next == m.next + 1 && !Live(m.live, m.next)
      && slot < LIBCFG_WIDTH && m'.slots[slot] == Holds(e)
      && (forall i :: 0 <= i < LIBCFG_WIDTH && i != slot ==> m'.slots[i] == m.slots[i])
      && (if exists i :: 0 <= i < LIBCFG_WIDTH && m.slots[i].Empty?
          then m.slots[slot].Empty? && forall i :: 0 <= i < slot ==> m.slots[i].Holds?
          else slot == rand % 16)
  {
    var free := FirstFree(m.slots);
    slot := if free < LIBCFG_WIDTH then free else rand % LIBCFG_WIDTH;
    forall i | 0 <= i < |m.live| ensures m.live[i].handle != m.next {
      assert m.live[i] in m.live;
    }
  }

  /** What a refill does: the slot rand() picks gets the first live bound, in application order, that
      grants the access, and no other slot changes; without such a bound nothing does. */
  lemma RefillIs(m: Model, addr: Word, isRead: bool, rand: nat)
    requires Coherent(m)
    ensures var m' := Refill(m, addr, isRead, rand);
      if TableGrants(m.live, addr, isRead)
      then
        && m' == m.(slots := m'.slots) && m'.slots[rand % 16].Holds?
        && (forall i :: 0 <= i < LIBCFG_WIDTH && i != rand % 16 ==> m'.slots[i] == m.slots[i])
        && exists k :: 0 <= k < |m.live| && m'.slots[rand % 16].entry == m.live[k] && Grants(m.live[k], addr, isRead) &&
             forall j :: 0 <= j < k ==> !Grants(m.live[j], addr, isRead)
      else m' == m
  {
    FirstGrantingIs(m.live, addr, isRead);
    if TableGrants(m.live, addr, isRead) {
      var k := FirstPlace(m.live, addr, isRead);
      FirstGrantingAt(m.live, k, addr, isRead);
    }
  }

  lemma {:induction false} FirstPlace(live: seq<Entry>, addr: Word, isRead: bool) returns (k: nat)
    requires TableGrants(live, addr, isRead)
    ensures k < |live| && Grants(live[k], addr, isRead) && forall j :: 0 <= j < k ==> !Grants(live[j], addr, isRead)
  {
    if Grants(live[0], addr, isRead) {
      k := 0;
    } else {
      var e :| e in live && Grants(e, addr, isRead);
      assert e in live[1..];
      k := FirstPlace(live[1..], addr, isRead);
      k := k + 1;
    }
  }

  lemma PrivOk(cfg: bv64)
    ensures (cfg & LIBCFG_MASK) | LIBCFG_V <= LIBCFG_MASK && IsValid((cfg & LIBCFG_MASK) | LIBCFG_V)
  {}

  lemma FreeCoherent(m: Model, handle: int)
    requires Coherent(m)
    ensures Coherent(Free(m, handle))
  {
    WithoutIs(m.live, handle);
  }

  /** A refill keeps coherence exactly when the bound it loads was not in another slot: it is
      the miss that led to the fault that makes a refill safe. */
  lemma RefillCoherentIff(m: Model, addr: Word, isRead: bool, rand: nat)
    requires Coherent(m)
    ensures Coherent(Refill(m, addr, isRead, rand)) <==>
      var found := FirstGranting(m.live, addr, isRead);
      found.Holds? ==> forall i :: 0 <= i < LIBCFG_WIDTH && i != rand % LIBCFG_WIDTH ==> m.slots[i] != found
  {
    FirstGrantingIs(m.live, addr, isRead);
    var found, v := FirstGranting(m.live, addr, isRead), rand % LIBCFG_WIDTH;
    if found.Holds? {
      var slots := m.slots[v := found];
      forall i | 0 <= i < LIBCFG_WIDTH && i != v && m.slots[i].Holds?
        ensures m.slots[i].entry.handle == found.entry.handle <==> m.slots[i] == found
      {
        if m.slots[i].entry.handle == found.entry.handle {
          SameHandle(m.live, m.slots[i].entry, found.entry);
        }
      }
      if Coherent(Refill(m, addr, isRead, rand)) {
        forall i | 0 <= i < LIBCFG_WIDTH && i != v ensures m.slots[i] != found {
          assert slots[i] == m.slots[i] && slots[v] == found;
        }
      }
    }
  }

  lemma {:induction false} FirstGrantingIs(live: seq<Entry>, addr: Word, isRead: bool)
    ensures var found := FirstGranting(live, addr, isRead);
      && (found.Holds? <==> TableGrants(live, addr, isRead))
      && (found.Holds? ==> found.entry in live && Grants(found.entry, addr, isRead))
  {
    if live != [] && !Grants(live[0], addr, isRead) {
      FirstGrantingIs(live[1..], addr, isRead);
      forall e | e in live && Grants(e, addr, isRead) ensures e in live[1..] {}
    }
  }

  lemma {:induction false} FirstGrantingAt(live: seq<Entry>, k: nat, addr: Word, isRead: bool)
    requires k <= |live| && forall j :: 0 <= j < k ==> !Grants(live[j], addr, isRead)
    requires k < |live| ==> Grants(live[k], addr, isRead)
    ensures FirstGranting(live, addr, isRead) == if k < |live| then Holds(live[k]) else Empty
  {
    if k > 0 {
      FirstGrantingAt(live[1..], k - 1, addr, isRead);
    }
  }

  lemma SameHandle(live: seq<Entry>, a: Entry, b: Entry)
    requires Distinct(live) && a in live && b in live && a.handle == b.handle
    ensures a == b
  {}

  lemma MissRefillCoherent(m: Model, addr: Word, isRead: bool, rand: nat)
    requires Coherent(m) && !SlotsGrant(m.slots, addr, isRead)
    ensures Coherent(Refill(m, addr, isRead, rand))
  {
    FirstGrantingIs(m.live, addr, isRead);
    RefillCoherentIff(m, addr, isRead, rand);
  }

  // ---- freeing everything frees what is cached, and only that

  /** The live bounds that no slot holds, in order. */
  function Uncached(live: seq<Entry>, slots: seq<Slot>): seq<Entry> {
    if live == [] then []
    else (if Cached(slots, live[0].handle) then [] else [live[0]]) + Uncached(live[1..], slots)
  }

  lemma {:induction false} UncachedWithout(live: seq<Entry>, slots: seq<Slot>, handle: int)
    requires Distinct(live) && Cached(slots, handle)
    ensures Uncached(Without(live, handle), Evict(slots, handle)) == Uncached(live, slots)
  {
    var slots' := Evict(slots, handle);
    if live != [] {
      assert Cached(slots, live[0].handle) <==> live[0].handle == handle || Cached(slots', live[0].handle) by {
        EvictCached(slots, handle, live[0].handle);
      }
      if live[0].handle == handle {
        UncachedEvict(live[1..], slots, handle);
      } else {
        UncachedWithout(live[1..], slots, handle);
        var w := Without(live[1..], handle);
        assert ([live[0]] + w)[1..] == w;
      }
    }
  }

  lemma EvictCached(slots: seq<Slot>, handle: int, other: int)
    ensures Cached(Evict(slots, handle), other) <==> other != handle && Cached(slots, other)
  {
    var slots' := Evict(slots, handle);
    if other != handle && Cached(slots, other) {
      var i :| 0 <= i < |slots| && Held(slots[i], other);
      assert slots'[i] == slots[i];
    }
  }

  lemma {:induction false} UncachedEvict(live: seq<Entry>, slots: seq<Slot>, handle: int)
    requires forall i :: 0 <= i < |live| ==> live[i].handle != handle
    ensures Uncached(live, Evict(slots, handle)) == Uncached(live, slots)
  {
    if live != [] {
      EvictCached(slots, handle, live[0].handle);
      UncachedEvict(live[1..], slots, handle);
    }
  }

  lemma {:induction false} UncachedAll(live: seq<Entry>, slots: seq<Slot>)
    requires forall i :: 0 <= i < |slots| ==> slots[i].Empty?
    ensures Uncached(live, slots) == live
  {
    if live != [] {
      UncachedAll(live[1..], slots);
    }
  }

  /** Freeing what slot i holds empties it, fills no other, and frees nothing uncached. */
  lemma FreeSlotIs(m: Model, i: nat)
    requires Coherent(m) && i < LIBCFG_WIDTH && m.slots[i].Holds?
    ensures var m' := Free(m, m.slots[i].entry.handle);
      && Coherent(m') && m'.next == m.next && Uncached(m'.live, m'.slots) == Uncached(m.live, m.slots)
      && m'.slots[i].Empty? && (forall j :: 0 <= j < LIBCFG_WIDTH && m.slots[j].Empty? ==> m'.slots[j].Empty?)
  {
    var h := m.slots[i].entry.handle;
    assert Live(m.live, h);
    FreeCoherent(m, h);
    UncachedWithout(m.live, m.slots, h);
  }

  lemma {:induction false} FreeFromIs(m: Model, i: nat)
    requires Coherent(m) && i <= LIBCFG_WIDTH && forall j :: 0 <= j < i ==> m.slots[j].Empty?
    ensures Coherent(FreeFrom(m, i))
    ensures forall j :: 0 <= j < LIBCFG_WIDTH ==> FreeFrom(m, i).slots[j].Empty?
    ensures FreeFrom(m, i).live == Uncached(m.live, m.slots) && FreeFrom(m, i).next == m.next
    decreases LIBCFG_WIDTH - i
  {
    if i == LIBCFG_WIDTH {
      UncachedAll(m.live, m.slots);
    } else {
      var m' := if m.slots[i].Holds? then Free(m, m.slots[i].entry.handle) else m;
      if m.slots[i].Holds? {
        FreeSlotIs(m, i);
      }
      FreeFromIs(m', i + 1);
      assert FreeFrom(m, i) == FreeFrom(m', i + 1);
    }
  }

  /** dasics_libcfg_free_all empties every slot and deletes exactly the bounds that were
      cached: a bound that was evicted earlier stays live. */
  lemma FreeAllIs(m: Model)
    requires Coherent(m)
    ensures Coherent(FreeAll(m))
    ensures forall j :: 0 <= j < LIBCFG_WIDTH ==> FreeAll(m).slots[j].Empty?
    ensures FreeAll(m).live == Uncached(m.live, m.slots) && FreeAll(m).next == m.next
  {
    FreeFromIs(m, 0);
  }

  lemma {:induction false} UncachedIs(live: seq<Entry>, slots: seq<Slot>)
    ensures forall e :: e in Uncached(live, slots) <==> e in live && !Cached(slots, e.handle)
  {
    if live != [] {
      UncachedIs(live[1..], slots);
    }
  }

  /** It frees all there is exactly when all there is is cached. */
  lemma FreeAllEmptiesIff(m: Model)
    requires Coherent(m)
    ensures FreeAll(m).live == [] <==> forall e :: e in m.live ==> Cached(m.slots, e.handle)
  {
    FreeAllIs(m);
    UncachedIs(m.live, m.slots);
    if FreeAll(m).live != [] {
      assert FreeAll(m).live[0] in FreeAll(m).live;
    }
  }

  /** What a free takes away: its code says whether a live bound went or nothing at all changed;
      then the handle is live no more, no slot holds it, and every other live bound keeps its
      entry and its slots. */
  lemma FreeRemovesOnly(m: Model, handle: int)
    requires Coherent(m)
    ensures if FreeCode(m, handle) == 0
      then exists e :: e in m.live && e.handle == handle && e !in Free(m, handle).live
      else FreeCode(m, handle) == -1 && Free(m, handle) == m
    ensures !Live(Free(m, handle).live, handle) && !Cached(Free(m, handle).slots, handle)
    ensures forall e: Entry :: e.handle != handle ==> (e in Free(m, handle).live <==> e in m.live)
    ensures forall i :: 0 <= i < LIBCFG_WIDTH ==>
      Free(m, handle).slots[i] == if Held(m.slots[i], handle) then Empty else m.slots[i]
  {
    WithoutIs(m.live, handle);
    if Live(m.live, handle) {
      EvictCached(m.slots, handle, handle);
      var k :| 0 <= k < |m.live| && m.live[k].handle == handle;
      assert m.live[k] in m.live;
      var w := Without(m.live, handle);
      forall i | 0 <= i < |w| ensures w[i].handle != handle {
        assert w[i] in w;
      }
    } else {
      forall i | 0 <= i < LIBCFG_WIDTH && m.slots[i].Holds? ensures m.slots[i].entry.handle != handle {
        assert m.slots[i].entry in m.live;
      }
    }
  }

  /** unregister_udasics empties the table but no slot: coherent exactly if no slot was in use. */
  lemma UnregisterCoherentIff(m: Model)
    requires Coherent(m)
    ensures Coherent(m.(live := [])) <==> forall i :: 0 <= i < LIBCFG_WIDTH ==> m.slots[i].Empty?
  {}

  /** After a free-all, a bound that was live has its rights if it was not cached, else none. */
  lemma RightsAfterFreeAll(m: Model, e: Entry)
    requires Coherent(m) && e in m.live
    ensures Rights(FreeAll(m).live, e.handle) == if Cached(m.slots, e.handle) then 0 else e.priv
  {
    FreeAllIs(m);
    UncachedIs(m.live, m.slots);
    var live := FreeAll(m).live;
    RightsAre(live, e.handle);
    if Cached(m.slots, e.handle) {
      forall i | 0 <= i < |live| ensures live[i].handle != e.handle {
        assert live[i] in live;
      }
    }
  }
}
