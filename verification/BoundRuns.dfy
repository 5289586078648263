/** Whole runs: sixteen registers plus faults behave like unlimited registers. */
module BoundRuns {
  import opened Machine
  import opened Words
  import opened Bounds
  import opened BoundModel

  datatype Op =
    | AllocOp(cfg: bv64, lo: Word, hi: Word)
    | FreeOp(handle: int)
    | FreeAllOp
    | GetOp(handle: int)
    | AccessOp(addr: Word, isRead: bool)

  /** An operation together with the number rand() would return during it. */
  datatype Event = Event(op: Op, rand: nat)

  datatype Output = Handle(handle: int) | Code(code: int) | Cfg(cfg: bv64) | Granted | Faulted

  // ---- the machine with sixteen registers

  /** A load or store: the hardware looks in its registers, a miss goes to the fault handler,
      and after a refill the access is tried once more. */
  function Access(m: Model, addr: Word, isRead: bool, rand: nat): (Model, Output)
    requires |m.slots| == LIBCFG_WIDTH
  {
    if SlotsGrant(m.slots, addr, isRead) then (m, Granted)
    else if FirstGranting(m.live, addr, isRead).Empty? then (m, Faulted)
    else
      var m' := Refill(m, addr, isRead, rand);
      (m', if SlotsGrant(m'.slots, addr, isRead) then Granted else Faulted)
  }

  function Step(m: Model, ev: Event): (r: (Model, Output))
    requires |m.slots| == LIBCFG_WIDTH
  {
    match ev.op
    case AllocOp(cfg, lo, hi) => (Alloc(m, cfg, lo, hi, ev.rand), Handle(m.next))
    case FreeOp(handle) => (Free(m, handle), Code(FreeCode(m, handle)))
    case FreeAllOp => (FreeAll(m), Code(0))
    case GetOp(handle) => (m, Cfg(Rights(m.live, handle)))
    case AccessOp(addr, isRead) => Access(m, addr, isRead, ev.rand)
  }

  // ---- the machine with unlimited registers

  datatype Unlimited = Unlimited(bounds: set<Entry>, next: int)

  /** dropped: the handles a free-all takes away. */
  ghost function UStep(u: Unlimited, op: Op, dropped: set<int>): (Unlimited, Output) {
    match op
    case AllocOp(cfg, lo, hi) =>
      (Unlimited(u.bounds + {Requested(u.next, cfg, lo, hi)}, u.next + 1), Handle(u.next))
    case FreeOp(handle) =>
      if exists e :: e in u.bounds && e.handle == handle
      then (u.(bounds := set e | e in u.bounds && e.handle != handle), Code(0))
      else (u, Code(-1))
    case FreeAllOp => (u.(bounds := set e | e in u.bounds && e.handle !in dropped), Code(0))
    case GetOp(handle) =>
      (u, Cfg(if e :| e in u.bounds && e.handle == handle then e.priv else 0))
    case AccessOp(addr, isRead) =>
      (u, if exists e :: e in u.bounds && Grants(e, addr, isRead) then Granted else Faulted)
  }

  /** The unlimited machine a cache stands for. */
  ghost function Unbounded(m: Model): Unlimited { Unlimited((set e | e in m.live), m.next) }

  ghost function CachedHandles(m: Model): set<int> {
    set e | e in m.live && Cached(m.slots, e.handle) :: e.handle
  }

  // ---- one step

  /** An access succeeds, after at most one refill, exactly when some live bound grants it. */
  lemma AccessIffGranted(m: Model, addr: Word, isRead: bool, rand: nat)
    requires Coherent(m)
    ensures var (m', out) := Access(m, addr, isRead, rand);
      && Coherent(m') && m'.live == m.live && m'.next == m.next
      && out == (if TableGrants(m.live, addr, isRead) then Granted else Faulted)
      && (out.Granted? ==> SlotsGrant(m'.slots, addr, isRead))
  {
    FirstGrantingIs(m.live, addr, isRead);
    if SlotsGrant(m.slots, addr, isRead) {
      var i :| 0 <= i < LIBCFG_WIDTH && m.slots[i].Holds? && Grants(m.slots[i].entry, addr, isRead);
      assert m.slots[i].entry in m.live;
    } else if FirstGranting(m.live, addr, isRead).Holds? {
      MissRefillCoherent(m, addr, isRead, rand);
      var m' := Refill(m, addr, isRead, rand);
      assert m'.slots[rand % LIBCFG_WIDTH] == FirstGranting(m.live, addr, isRead);
    }
  }

  lemma LiveIff(live: seq<Entry>, handle: int)
    ensures Live(live, handle) <==> exists e :: e in live && e.handle == handle
  {
    if Live(live, handle) {
      var i :| 0 <= i < |live| && live[i].handle == handle;
      assert live[i] in live;
    }
  }

  lemma FreeRefines(m: Model, handle: int)
    requires Coherent(m)
    ensures Coherent(Free(m, handle))
    ensures UStep(Unbounded(m), FreeOp(handle), {}) == (Unbounded(Free(m, handle)), Code(FreeCode(m, handle)))
  {
    FreeCoherent(m, handle);
    WithoutIs(m.live, handle);
    LiveIff(m.live, handle);
    var u := Unbounded(m);
    if Live(m.live, handle) {
      assert Unbounded(Free(m, handle)).bounds == set e | e in u.bounds && e.handle != handle;
      var e :| e in m.live && e.handle == handle;
      assert e in u.bounds;
    }
  }

  lemma FreeAllRefines(m: Model)
    requires Coherent(m)
    ensures Coherent(FreeAll(m))
    ensures UStep(Unbounded(m), FreeAllOp, CachedHandles(m)) == (Unbounded(FreeAll(m)), Code(0))
  {
    FreeAllIs(m);
    UncachedIs(m.live, m.slots);
    var u := Unbounded(m);
    assert Unbounded(FreeAll(m)).bounds == set e | e in u.bounds && e.handle !in CachedHandles(m);
  }

  lemma GetRefines(m: Model, handle: int)
    requires Coherent(m)
    ensures UStep(Unbounded(m), GetOp(handle), {}) == (Unbounded(m), Cfg(Rights(m.live, handle)))
  {
    RightsAre(m.live, handle);
    LiveIff(m.live, handle);
    assert forall e :: e in Unbounded(m).bounds <==> e in m.live;
  }

  lemma AllocRefines(m: Model, cfg: bv64, lo: Word, hi: Word, rand: nat)
    requires Coherent(m)
    ensures Coherent(Alloc(m, cfg, lo, hi, rand))
    ensures UStep(Unbounded(m), AllocOp(cfg, lo, hi), {}) ==
      (Unbounded(Alloc(m, cfg, lo, hi, rand)), Handle(m.next))
  {
    AllocCoherent(m, cfg, lo, hi, rand);
    var e := Requested(m.next, cfg, lo, hi);
    assert (set x | x in m.live + [e]) == (set x | x in m.live) + {e};
  }

  /** Every operation, with any victim, keeps coherence and does what the unlimited machine does. */
  lemma StepRefines(m: Model, ev: Event)
    requires Coherent(m)
    ensures Coherent(Step(m, ev).0)
    ensures UStep(Unbounded(m), ev.op, if ev.op.FreeAllOp? then CachedHandles(m) else {}) ==
      (Unbounded(Step(m, ev).0), Step(m, ev).1)
  {
    match ev.op
    case AllocOp(cfg, lo, hi) => AllocRefines(m, cfg, lo, hi, ev.rand);
    case FreeOp(handle) => FreeRefines(m, handle);
    case FreeAllOp => FreeAllRefines(m);
    case GetOp(handle) => GetRefines(m, handle);
    case AccessOp(addr, isRead) =>
      AccessIffGranted(m, addr, isRead, ev.rand);
      assert forall e :: e in Unbounded(m).bounds <==> e in m.live;
  }

  // ---- whole runs

  /** What a user of the cache sees. */
  ghost function Run(m: Model, evs: seq<Event>): (seq<Output>, Model)
    requires Coherent(m)
    decreases evs
  {
    if evs == [] then ([], m)
    else
      StepRefines(m, evs[0]);
      var (m', out) := Step(m, evs[0]);
      var (outs, final) := Run(m', evs[1..]);
      ([out] + outs, final)
  }

  /** What a user of unlimited registers sees; dropped says what each free-all takes away. */
  ghost function URun(u: Unlimited, ops: seq<Op>, dropped: seq<set<int>>): seq<Output>
    requires |ops| == |dropped|
    decreases ops
  {
    if ops == [] then []
    else
      var (u', out) := UStep(u, ops[0], dropped[0]);
      [out] + URun(u', ops[1..], dropped[1..])
  }

  function Ops(evs: seq<Event>): seq<Op> { seq(|evs|, i requires 0 <= i < |evs| => evs[i].op) }

  /** The handles each free-all of a run finds in the slots. */
  ghost function Dropped(m: Model, evs: seq<Event>): (r: seq<set<int>>)
    requires Coherent(m)
    ensures |r| == |evs|
    decreases evs
  {
    if evs == [] then []
    else
      StepRefines(m, evs[0]);
      [if evs[0].op.FreeAllOp? then CachedHandles(m) else {}] + Dropped(Step(m, evs[0]).0, evs[1..])
  }

  /** Coherence survives every run, and every run of the cache, with whatever victims, shows
      its user what a run of the unlimited machine shows. */
  lemma {:induction false} RunRefines(m: Model, evs: seq<Event>)
    requires Coherent(m)
    ensures Coherent(Run(m, evs).1)
    ensures Run(m, evs).0 == URun(Unbounded(m), Ops(evs), Dropped(m, evs))
    decreases evs
  {
    if evs != [] {
      StepRefines(m, evs[0]);
      var m' := Step(m, evs[0]).0;
      RunRefines(m', evs[1..]);
      assert Ops(evs)[1..] == Ops(evs[1..]);
      var d := Dropped(m', evs[1..]);
      assert Dropped(m, evs)[1..] == d;
    }
  }

  lemma {:induction false} NothingDropped(m: Model, evs: seq<Event>)
    requires Coherent(m) && forall i :: 0 <= i < |evs| ==> !evs[i].op.FreeAllOp?
    ensures Dropped(m, evs) == seq(|evs|, _ => {})
    decreases evs
  {
    if evs != [] {
      StepRefines(m, evs[0]);
      NothingDropped(Step(m, evs[0]).0, evs[1..]);
    }
  }

  /** Without free-all, which victims rand() picks cannot be seen from outside. */
  lemma VictimsInvisible(m: Model, evs: seq<Event>, evs': seq<Event>)
    requires Coherent(m) && Ops(evs) == Ops(evs')
    requires forall i :: 0 <= i < |evs| ==> !evs[i].op.FreeAllOp?
    ensures Run(m, evs).0 == Run(m, evs').0
  {
    assert |evs| == |Ops(evs)| == |evs'|;
    forall i | 0 <= i < |evs'| ensures !evs'[i].op.FreeAllOp? {
      assert Ops(evs)[i] == Ops(evs')[i];
    }
    NothingDropped(m, evs);
    NothingDropped(m, evs');
    RunRefines(m, evs);
    RunRefines(m, evs');
  }

  /** On a full cache, allocate with rand() picking slot v: the bound that was in slot 0 is
      still cached exactly if slot 0 was not the victim. */
  lemma CachedUnlessVictim(m: Model, cfg: bv64, lo: Word, hi: Word, v: nat)
    requires Coherent(m) && v < LIBCFG_WIDTH && forall i :: 0 <= i < LIBCFG_WIDTH ==> m.slots[i].Holds?
    ensures var m', e := Alloc(m, cfg, lo, hi, v), m.slots[0].entry;
      e in m'.live && (Cached(m'.slots, e.handle) <==> v != 0)
  {
    var m', e := Alloc(m, cfg, lo, hi, v), m.slots[0].entry;
    assert FirstFree(m.slots) == LIBCFG_WIDTH;
    assert e in m.live && e.handle < m.next;
    if v == 0 {
      forall i | 0 <= i < LIBCFG_WIDTH ensures !Held(m'.slots[i], e.handle) {
        assert i > 0 ==> m'.slots[i] == m.slots[i];
      }
    } else {
      assert Held(m'.slots[0], e.handle);
    }
  }

  lemma RunCons(m: Model, ev: Event, evs: seq<Event>)
    requires Coherent(m)
    ensures Coherent(Step(m, ev).0)
    ensures Run(m, [ev] + evs).0 == [Step(m, ev).1] + Run(Step(m, ev).0, evs).0
  {
    StepRefines(m, ev);
    assert ([ev] + evs)[1..] == evs;
  }

  /** What freeing all and then asking for a live handle's rights answers. */
  lemma AskedAfterFreeAll(m: Model, e: Entry)
    requires Coherent(m) && e in m.live
    ensures Run(m, [Event(FreeAllOp, 0)] + ([Event(GetOp(e.handle), 0)] + [])).0 ==
      [Code(0)] + ([Cfg(if Cached(m.slots, e.handle) then 0 else e.priv)] + [])
  {
    var get := [Event(GetOp(e.handle), 0)] + [];
    RightsAfterFreeAll(m, e);
    RunCons(m, Event(FreeAllOp, 0), get);
    RunCons(FreeAll(m), Event(GetOp(e.handle), 0), []);
  }

  lemma AskedAfterAlloc(m: Model, cfg: bv64, lo: Word, hi: Word, v: nat)
    requires Coherent(m) && v < LIBCFG_WIDTH && forall i :: 0 <= i < LIBCFG_WIDTH ==> m.slots[i].Holds?
    ensures var e := m.slots[0].entry;
      var ask := [Event(FreeAllOp, 0)] + ([Event(GetOp(e.handle), 0)] + []);
      Run(m, [Event(AllocOp(cfg, lo, hi), v)] + ask).0 ==
        [Handle(m.next)] + ([Code(0)] + ([Cfg(if v == 0 then e.priv else 0)] + []))
  {
    var e := m.slots[0].entry;
    var ask := [Event(FreeAllOp, 0)] + ([Event(GetOp(e.handle), 0)] + []);
    CachedUnlessVictim(m, cfg, lo, hi, v);
    RunCons(m, Event(AllocOp(cfg, lo, hi), v), ask);
    AskedAfterFreeAll(Alloc(m, cfg, lo, hi, v), e);
  }

  /** So with free-all the victims can be seen: two runs that differ only in what rand()
      returned, from any full cache, answer differently. */
  lemma FreeAllShowsVictims(m: Model, cfg: bv64, lo: Word, hi: Word)
    requires Coherent(m) && forall i :: 0 <= i < LIBCFG_WIDTH ==> m.slots[i].Holds?
    ensures var ask := [Event(FreeAllOp, 0)] + ([Event(GetOp(m.slots[0].entry.handle), 0)] + []);
      Run(m, [Event(AllocOp(cfg, lo, hi), 0)] + ask).0 != Run(m, [Event(AllocOp(cfg, lo, hi), 1)] + ask).0
  {
    AskedAfterAlloc(m, cfg, lo, hi, 0);
    AskedAfterAlloc(m, cfg, lo, hi, 1);
    var e := m.slots[0].entry;
    assert e in m.live && IsValid(e.priv);
    var kept, gone := [Code(0)] + ([Cfg(e.priv)] + []), [Code(0)] + ([Cfg(0)] + []);
    assert kept[1] != gone[1];
    assert ([Handle(m.next)] + kept)[1..] == kept && ([Handle(m.next)] + gone)[1..] == gone;
  }

  /** Handles are handed out in increasing order, so no handle is ever used twice. */
  lemma {:induction false} HandlesGrow(m: Model, evs: seq<Event>)
    requires Coherent(m)
    ensures |Run(m, evs).0| == |evs|
    ensures forall i :: 0 <= i < |evs| && Run(m, evs).0[i].Handle? ==> m.next <= Run(m, evs).0[i].handle
    ensures forall i, j :: 0 <= i < j < |evs| && Run(m, evs).0[i].Handle? && Run(m, evs).0[j].Handle? ==>
      Run(m, evs).0[i].handle < Run(m, evs).0[j].handle
    decreases evs
  {
    if evs != [] {
      StepRefines(m, evs[0]);
      var m' := Step(m, evs[0]).0;
      if evs[0].op.FreeAllOp? { FreeAllIs(m); }
      HandlesGrow(m', evs[1..]);
      var r, r' := Run(m, evs).0, Run(m', evs[1..]).0;
      assert forall i :: 1 <= i < |evs| ==> r[i] == r'[i - 1];
    }
  }
}
