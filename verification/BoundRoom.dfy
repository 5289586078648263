/** Runs that never need more bounds than there are slots: up to sixteen, every live bound stays
    cached, a free-all takes all of them, and which victims rand() picks never shows; one more, and
    it can. */
module BoundRoom {
  import opened Machine
  import opened Words
  import opened Bounds
  import opened BoundModel
  import opened BoundRuns

  ghost predicate AllCached(m: Model) { forall e :: e in m.live ==> Cached(m.slots, e.handle) }

  // ---- counting slots

  function Holding(slots: seq<Slot>): (n: nat)
    ensures n <= |slots|
  {
    if slots == [] then 0 else (if slots[0].Holds? then 1 else 0) + Holding(slots[1..])
  }

  lemma {:induction false} HoldingUpdate(slots: seq<Slot>, i: nat)
    requires i < |slots| && slots[i].Holds?
    ensures Holding(slots[i := Empty]) == Holding(slots) - 1
  {
    if i == 0 {
      assert slots[0 := Empty][1..] == slots[1..];
    } else {
      assert slots[i := Empty][1..] == slots[1..][i - 1 := Empty];
      HoldingUpdate(slots[1..], i - 1);
    }
  }

  lemma {:induction false} HoldingNone(slots: seq<Slot>)
    requires forall i :: 0 <= i < |slots| ==> slots[i].Empty?
    ensures Holding(slots) == 0
  {
    if slots != [] {
      HoldingNone(slots[1..]);
    }
  }

  lemma {:induction false} FullIff(slots: seq<Slot>)
    ensures FirstFree(slots) < |slots| <==> Holding(slots) < |slots|
  {
    if slots != [] {
      FullIff(slots[1..]);
    }
  }

  /** Slots and live bounds correspond: what a slot holds is live, what is live is in a slot, and
      no handle is there twice. */
  ghost predicate Matched(live: seq<Entry>, slots: seq<Slot>) {
    && Distinct(live)
    && (forall i :: 0 <= i < |slots| && slots[i].Holds? ==> slots[i].entry in live)
    && (forall i, j :: 0 <= i < j < |slots| && slots[i].Holds? && slots[j].Holds? ==>
      slots[i].entry.handle != slots[j].entry.handle)
    && (forall k :: 0 <= k < |live| ==> Cached(slots, live[k].handle))
  }

  /** Emptying the slot of the first live bound leaves the others matched. */
  lemma MatchedRest(live: seq<Entry>, slots: seq<Slot>, i: nat)
    requires Matched(live, slots) && live != [] && i < |slots| && Held(slots[i], live[0].handle)
    ensures Matched(live[1..], slots[i := Empty])
  {
    var slots' := slots[i := Empty];
    forall j | 0 <= j < |slots'| && slots'[j].Holds? ensures slots'[j].entry in live[1..] {
      assert j != i && slots[j].entry in live && slots[j].entry.handle != live[0].handle;
    }
    forall k | 0 <= k < |live[1..]| ensures Cached(slots', live[1..][k].handle) {
      assert Cached(slots, live[k + 1].handle);
      var j :| 0 <= j < |slots| && Held(slots[j], live[k + 1].handle);
      assert Held(slots'[j], live[1..][k].handle);
    }
  }

  lemma {:induction false} MatchedCount(live: seq<Entry>, slots: seq<Slot>)
    requires Matched(live, slots)
    ensures |live| == Holding(slots)
    decreases live
  {
    if live == [] {
      HoldingNone(slots);
    } else {
      assert Cached(slots, live[0].handle);
      var i :| 0 <= i < |slots| && Held(slots[i], live[0].handle);
      MatchedRest(live, slots, i);
      HoldingUpdate(slots, i);
      MatchedCount(live[1..], slots[i := Empty]);
    }
  }

  /** If all live bounds are cached, there is a free slot exactly if fewer than sixteen are live. */
  lemma RoomIff(m: Model)
    requires Coherent(m) && AllCached(m)
    ensures |m.live| <= LIBCFG_WIDTH
    ensures FirstFree(m.slots) < LIBCFG_WIDTH <==> |m.live| < LIBCFG_WIDTH
  {
    assert forall k :: 0 <= k < |m.live| ==> m.live[k] in m.live;
    MatchedCount(m.live, m.slots);
    FullIff(m.slots);
  }

  // ---- operations that keep all live bounds cached

  lemma AllocStaysCached(m: Model, cfg: bv64, lo: Word, hi: Word, rand: nat)
    requires Coherent(m) && AllCached(m) && |m.live| < LIBCFG_WIDTH
    ensures AllCached(Alloc(m, cfg, lo, hi, rand))
  {
    RoomIff(m);
    var m', i := Alloc(m, cfg, lo, hi, rand), FirstFree(m.slots);
    forall e | e in m'.live ensures Cached(m'.slots, e.handle) {
      if e in m.live {
        var j :| 0 <= j < |m.slots| && Held(m.slots[j], e.handle);
        assert Held(m'.slots[j], e.handle);
      } else {
        assert Held(m'.slots[i], e.handle);
      }
    }
  }

  lemma FreeStaysCached(m: Model, handle: int)
    requires Coherent(m) && AllCached(m)
    ensures AllCached(Free(m, handle))
  {
    WithoutIs(m.live, handle);
    var m' := Free(m, handle);
    forall e | e in m'.live ensures Cached(m'.slots, e.handle) {
      if Live(m.live, handle) {
        EvictCached(m.slots, handle, e.handle);
      }
    }
  }

  /** An access never refills. */
  lemma AccessStays(m: Model, addr: Word, isRead: bool, rand: nat)
    requires Coherent(m) && AllCached(m)
    ensures Access(m, addr, isRead, rand).0 == m
  {
    FirstGrantingIs(m.live, addr, isRead);
    var found := FirstGranting(m.live, addr, isRead);
    if found.Holds? {
      var j :| 0 <= j < |m.slots| && Held(m.slots[j], found.entry.handle);
      SameHandle(m.live, m.slots[j].entry, found.entry);
    }
  }

  lemma FreeAllFreesAll(m: Model)
    requires Coherent(m) && AllCached(m)
    ensures FreeAll(m).live == [] && AllCached(FreeAll(m))
  {
    FreeAllEmptiesIff(m);
  }

  // ---- runs

  /** The handles that are live without limit. */
  ghost function Handles(u: Unlimited): set<int> { set e | e in u.bounds :: e.handle }

  /** The machine with unlimited registers whose free-all frees everything. */
  ghost function PureStep(u: Unlimited, op: Op): (Unlimited, Output) {
    UStep(u, op, if op.FreeAllOp? then Handles(u) else {})
  }

  ghost function PureRun(u: Unlimited, ops: seq<Op>): seq<Output>
    decreases ops
  {
    if ops == [] then [] else [PureStep(u, ops[0]).1] + PureRun(PureStep(u, ops[0]).0, ops[1..])
  }

  /** Each allocation of the operations is made with fewer than sixteen bounds live. */
  ghost predicate Small(u: Unlimited, ops: seq<Op>)
    decreases ops
  {
    ops == [] ||
    ((ops[0].AllocOp? ==> |u.bounds| < LIBCFG_WIDTH) && Small(PureStep(u, ops[0]).0, ops[1..]))
  }

  lemma {:induction false} BoundsCount(live: seq<Entry>)
    requires Distinct(live)
    ensures |set e | e in live| == |live|
  {
    if live != [] {
      BoundsCount(live[1..]);
      assert (set e | e in live) == {live[0]} + set e | e in live[1..];
    }
  }

  lemma AllAreCached(m: Model)
    requires Coherent(m) && AllCached(m)
    ensures CachedHandles(m) == Handles(Unbounded(m))
  {}

  lemma SmallStep(m: Model, ev: Event)
    requires Coherent(m) && AllCached(m) && (ev.op.AllocOp? ==> |m.live| < LIBCFG_WIDTH)
    ensures Coherent(Step(m, ev).0) && AllCached(Step(m, ev).0)
    ensures PureStep(Unbounded(m), ev.op) == (Unbounded(Step(m, ev).0), Step(m, ev).1)
  {
    StepRefines(m, ev);
    AllAreCached(m);
    match ev.op
    case AllocOp(cfg, lo, hi) => AllocStaysCached(m, cfg, lo, hi, ev.rand);
    case FreeOp(handle) => FreeStaysCached(m, handle);
    case FreeAllOp => FreeAllFreesAll(m);
    case GetOp(_) =>
    case AccessOp(addr, isRead) => AccessStays(m, addr, isRead, ev.rand);
  }

  /** From a state with all live bounds cached, as long as no allocation finds sixteen bounds live,
      a run shows what unlimited registers show, free-alls included. */
  lemma {:induction false} SmallRunRefines(m: Model, evs: seq<Event>)
    requires Coherent(m) && AllCached(m) && Small(Unbounded(m), Ops(evs))
    ensures Run(m, evs).0 == PureRun(Unbounded(m), Ops(evs))
    ensures AllCached(Run(m, evs).1)
    decreases evs
  {
    if evs != [] {
      BoundsCount(m.live);
      assert Ops(evs)[0] == evs[0].op && Ops(evs)[1..] == Ops(evs[1..]);
      SmallStep(m, evs[0]);
      SmallRunRefines(Step(m, evs[0]).0, evs[1..]);
    }
  }

  /** So its victims cannot be seen. */
  lemma SmallRunHidesVictims(m: Model, evs: seq<Event>, evs': seq<Event>)
    requires Coherent(m) && AllCached(m) && Small(Unbounded(m), Ops(evs)) && Ops(evs) == Ops(evs')
    ensures Run(m, evs).0 == Run(m, evs').0
  {
    SmallRunRefines(m, evs);
    SmallRunRefines(m, evs');
  }

  // ---- sixteen is the limit

  /** Allocate, free all, and ask for the rights of a handle. */
  function Probe(cfg: bv64, lo: Word, hi: Word, handle: int, rand: nat): seq<Event> {
    [Event(AllocOp(cfg, lo, hi), rand)] + ([Event(FreeAllOp, 0)] + ([Event(GetOp(handle), 0)] + []))
  }

  lemma SmallCons(u: Unlimited, op: Op, rest: seq<Op>)
    requires (op.AllocOp? ==> |u.bounds| < LIBCFG_WIDTH) && Small(PureStep(u, op).0, rest)
    ensures Small(u, [op] + rest)
  {
    assert ([op] + rest)[1..] == rest;
  }

  lemma ProbeSmall(u: Unlimited, cfg: bv64, lo: Word, hi: Word, handle: int, rand: nat)
    requires |u.bounds| < LIBCFG_WIDTH
    ensures Small(u, Ops(Probe(cfg, lo, hi, handle, rand)))
  {
    var u1 := PureStep(u, AllocOp(cfg, lo, hi)).0;
    var u2 := PureStep(u1, FreeAllOp).0;
    SmallCons(u2, GetOp(handle), []);
    SmallCons(u1, FreeAllOp, [GetOp(handle)] + []);
    SmallCons(u, AllocOp(cfg, lo, hi), [FreeAllOp] + ([GetOp(handle)] + []));
    assert Ops(Probe(cfg, lo, hi, handle, rand)) == [AllocOp(cfg, lo, hi)] + ([FreeAllOp] + ([GetOp(handle)] + []));
  }

  /** The probe answers alike for two victims. */
  ghost predicate Hidden(m: Model, cfg: bv64, lo: Word, hi: Word, handle: int, r: nat, r': nat)
    requires Coherent(m)
  {
    Run(m, Probe(cfg, lo, hi, handle, r)).0 == Run(m, Probe(cfg, lo, hi, handle, r')).0
  }

  lemma HiddenIfSmall(m: Model, cfg: bv64, lo: Word, hi: Word, handle: int, r: nat, r': nat)
    requires Coherent(m) && AllCached(m) && |m.live| < LIBCFG_WIDTH
    ensures Hidden(m, cfg, lo, hi, handle, r, r')
  {
    BoundsCount(m.live);
    ProbeSmall(Unbounded(m), cfg, lo, hi, handle, r);
    assert Ops(Probe(cfg, lo, hi, handle, r)) == Ops(Probe(cfg, lo, hi, handle, r'));
    SmallRunHidesVictims(m, Probe(cfg, lo, hi, handle, r), Probe(cfg, lo, hi, handle, r'));
  }

  /** The exact limit: with all live bounds cached, one more allocation keeps its victim hidden from
      every such probe if and only if fewer than sixteen bounds are live. */
  lemma VictimHiddenIff(m: Model, cfg: bv64, lo: Word, hi: Word)
    requires Coherent(m) && AllCached(m)
    ensures (forall handle, r, r' :: Hidden(m, cfg, lo, hi, handle, r, r')) <==> |m.live| < LIBCFG_WIDTH
  {
    RoomIff(m);
    if |m.live| < LIBCFG_WIDTH {
      forall handle, r, r' ensures Hidden(m, cfg, lo, hi, handle, r, r') {
        HiddenIfSmall(m, cfg, lo, hi, handle, r, r');
      }
    } else {
      FreeAllShowsVictims(m, cfg, lo, hi);
      assert !Hidden(m, cfg, lo, hi, m.slots[0].entry.handle, 0, 1);
    }
  }
}
