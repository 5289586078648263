/** Where authority comes from: over a run, an access is granted only within what was asked for by a
    request not freed since, or by a bound that was there at the start. */
module BoundOrigins {
  import opened Machine
  import opened Words
  import opened Bounds
  import opened BoundModel
  import opened BoundRuns

  /** An allocation that asks for a right on some byte of the doubleword of addr, and does not wrap. */
  predicate Asks(op: Op, addr: Word, isRead: bool) {
    && op.AllocOp? && op.hi <= LAST_DOUBLEWORD && op.lo - op.lo % 8 <= addr && addr - addr % 8 < op.hi
    && op.cfg & (if isRead then LIBCFG_R else LIBCFG_W) != 0
  }

  /** The handle is freed by one of the events from i up to j. */
  predicate FreedBetween(evs: seq<Event>, handle: int, i: nat, j: nat)
    requires i <= j <= |evs|
  {
    exists k :: i <= k < j && evs[k].op == FreeOp(handle)
  }

  // ---- runs, event by event

  /** A run ends with one event after a run of the others. */
  lemma {:induction false} RunSnoc(m: Model, evs: seq<Event>, ev: Event)
    requires Coherent(m)
    ensures Coherent(Run(m, evs).1)
    ensures Run(m, evs + [ev]) == (Run(m, evs).0 + [Step(Run(m, evs).1, ev).1], Step(Run(m, evs).1, ev).0)
    decreases evs
  {
    RunRefines(m, evs);
    if evs == [] {
      StepRefines(m, ev);
      assert [] + [ev] == [ev] && [ev][1..] == [];
      var out := Step(m, ev).1;
      assert Run(Step(m, ev).0, []) == ([], Step(m, ev).0) && Run(m, []) == ([], m);
      assert Run(m, [ev]) == ([out] + [], Step(m, ev).0);
      assert [out] + [] == [] + [out];
    } else {
      StepRefines(m, evs[0]);
      assert (evs + [ev])[0] == evs[0] && (evs + [ev])[1..] == evs[1..] + [ev];
      var m' := Step(m, evs[0]).0;
      RunSnoc(m', evs[1..], ev);
      Associate(Step(m, evs[0]).1, Run(m', evs[1..]).0, Step(Run(m, evs).1, ev).1);
    }
  }

  lemma Associate(a: Output, s: seq<Output>, b: Output)
    ensures [a] + (s + [b]) == ([a] + s) + [b]
  {}

  lemma {:induction false} RunLength(m: Model, evs: seq<Event>)
    requires Coherent(m)
    ensures |Run(m, evs).0| == |evs|
    decreases evs
  {
    if evs != [] {
      StepRefines(m, evs[0]);
      RunLength(Step(m, evs[0]).0, evs[1..]);
    }
  }

  /** What event i of a run answers. */
  lemma {:induction false} RunAt(m: Model, evs: seq<Event>, i: nat)
    requires Coherent(m) && i < |evs|
    ensures Coherent(Run(m, evs[..i]).1)
    ensures |Run(m, evs).0| == |evs| && Run(m, evs).0[i] == Step(Run(m, evs[..i]).1, evs[i]).1
    decreases |evs|
  {
    var n := |evs| - 1;
    var before := evs[..n];
    RunLength(m, evs);
    RunLength(m, before);
    assert evs == before + [evs[n]];
    RunSnoc(m, before, evs[n]);
    if i < n {
      RunAt(m, before, i);
      assert before[..i] == evs[..i] && before[i] == evs[i];
      assert Run(m, evs).0[i] == Run(m, before).0[i];
    }
  }

  // ---- where live bounds come from

  /** The entry is the one event j made. */
  ghost predicate MadeAt(m: Model, evs: seq<Event>, j: nat, e: Entry)
    requires Coherent(m) && j < |evs|
  {
    evs[j].op.AllocOp? && e == Requested(Run(m, evs[..j]).1.next, evs[j].op.cfg, evs[j].op.lo, evs[j].op.hi)
  }

  ghost predicate Origin(m: Model, evs: seq<Event>, e: Entry)
    requires Coherent(m)
  {
    FromStart(m, evs, e) || exists j :: 0 <= j < |evs| && FromRequest(m, evs, j, e)
  }

  lemma FreedSnoc(evs: seq<Event>, ev: Event, handle: int, i: nat)
    requires i <= |evs|
    ensures FreedBetween(evs + [ev], handle, i, |evs| + 1) <==>
      FreedBetween(evs, handle, i, |evs|) || ev.op == FreeOp(handle)
  {
    var all := evs + [ev];
    if FreedBetween(evs, handle, i, |evs|) {
      var k :| i <= k < |evs| && evs[k].op == FreeOp(handle);
      assert all[k].op == FreeOp(handle);
    }
    if ev.op == FreeOp(handle) {
      assert all[|evs|].op == FreeOp(handle);
    }
  }

  lemma MadeSnoc(m: Model, evs: seq<Event>, ev: Event, j: nat, e: Entry)
    requires Coherent(m) && j < |evs|
    ensures MadeAt(m, evs + [ev], j, e) <==> MadeAt(m, evs, j, e)
  {
    assert (evs + [ev])[..j] == evs[..j];
  }

  ghost predicate FromStart(m: Model, evs: seq<Event>, e: Entry) {
    e in m.live && !FreedBetween(evs, e.handle, 0, |evs|)
  }

  ghost predicate FromRequest(m: Model, evs: seq<Event>, j: nat, e: Entry)
    requires Coherent(m) && j < |evs|
  {
    MadeAt(m, evs, j, e) && !FreedBetween(evs, e.handle, j + 1, |evs|)
  }

  lemma FromRequestSnoc(m: Model, evs: seq<Event>, ev: Event, j: nat, e: Entry)
    requires Coherent(m) && j < |evs|
    ensures FromRequest(m, evs + [ev], j, e) <==> FromRequest(m, evs, j, e) && ev.op != FreeOp(e.handle)
  {
    MadeSnoc(m, evs, ev, j, e);
    FreedSnoc(evs, ev, e.handle, j + 1);
  }

  lemma FromLastRequest(m: Model, evs: seq<Event>, ev: Event, e: Entry)
    requires Coherent(m)
    ensures FromRequest(m, evs + [ev], |evs|, e) <==>
      ev.op.AllocOp? && e == Requested(Run(m, evs).1.next, ev.op.cfg, ev.op.lo, ev.op.hi)
  {
    assert (evs + [ev])[..|evs|] == evs;
  }

  /** How one more event changes what there is a reason for. */
  lemma OriginSnoc(m: Model, evs: seq<Event>, ev: Event, e: Entry)
    requires Coherent(m)
    ensures Origin(m, evs + [ev], e) <==>
      || (Origin(m, evs, e) && ev.op != FreeOp(e.handle))
      || (ev.op.AllocOp? && e == Requested(Run(m, evs).1.next, ev.op.cfg, ev.op.lo, ev.op.hi))
  {
    var all, n := evs + [ev], |evs|;
    FreedSnoc(evs, ev, e.handle, 0);
    FromLastRequest(m, evs, ev, e);
    forall j | 0 <= j < n ensures FromRequest(m, all, j, e) <==> FromRequest(m, evs, j, e) && ev.op != FreeOp(e.handle) {
      FromRequestSnoc(m, evs, ev, j, e);
    }
    if exists j :: 0 <= j < n && FromRequest(m, evs, j, e) && ev.op != FreeOp(e.handle) {
      var j :| 0 <= j < n && FromRequest(m, evs, j, e) && ev.op != FreeOp(e.handle);
      assert FromRequest(m, all, j, e);
    }
  }

  /** How one more event changes what is live. */
  lemma LiveSnoc(m: Model, ev: Event, e: Entry)
    requires Coherent(m)
    ensures e in Step(m, ev).0.live ==>
      (e in m.live && ev.op != FreeOp(e.handle)) || (ev.op.AllocOp? && e == Requested(m.next, ev.op.cfg, ev.op.lo, ev.op.hi))
    ensures !ev.op.FreeAllOp? &&
      ((e in m.live && ev.op != FreeOp(e.handle)) || (ev.op.AllocOp? && e == Requested(m.next, ev.op.cfg, ev.op.lo, ev.op.hi)))
      ==> e in Step(m, ev).0.live
  {
    match ev.op
    case AllocOp(cfg, lo, hi) => LiveAdded(m.live, Requested(m.next, cfg, lo, hi), e);
    case FreeOp(handle) =>
      FreeRemovesOnly(m, handle);
      WithoutIs(m.live, handle);
      if !Live(m.live, handle) && e in m.live {
        var k :| 0 <= k < |m.live| && m.live[k] == e;
      }
    case FreeAllOp =>
      FreeAllIs(m);
      UncachedIs(m.live, m.slots);
    case GetOp(_) =>
    case AccessOp(addr, isRead) => AccessIffGranted(m, addr, isRead, ev.rand);
  }

  lemma LiveAdded(live: seq<Entry>, a: Entry, e: Entry)
    ensures e in live + [a] <==> e in live || e == a
  {}

  /** Every live bound has a reason; and without free-all, whatever has a reason is live. */
  lemma {:induction false} LiveHasOrigin(m: Model, evs: seq<Event>, e: Entry)
    requires Coherent(m)
    ensures e in Run(m, evs).1.live ==> Origin(m, evs, e)
    ensures (forall k :: 0 <= k < |evs| ==> !evs[k].op.FreeAllOp?) && Origin(m, evs, e) ==> e in Run(m, evs).1.live
    decreases |evs|
  {
    if evs != [] {
      var n := |evs| - 1;
      var before, ev := evs[..n], evs[n];
      assert evs == before + [ev];
      LiveHasOrigin(m, before, e);
      RunSnoc(m, before, ev);
      OriginSnoc(m, before, ev, e);
      LiveSnoc(Run(m, before).1, ev, e);
    }
  }

  // ---- what accesses are granted

  /** A bound live at the start grants the access and was not freed. */
  ghost predicate GrantedFromStart(m: Model, evs: seq<Event>, i: nat, addr: Word, isRead: bool)
    requires i <= |evs|
  {
    exists e :: e in m.live && Grants(e, addr, isRead) && !FreedBetween(evs, e.handle, 0, i)
  }

  /** Event j asked for it, and the handle it was answered with was not freed. */
  ghost predicate GrantedByRequest(m: Model, evs: seq<Event>, j: nat, i: nat, addr: Word, isRead: bool)
    requires Coherent(m) && j < i <= |evs| == |Run(m, evs).0|
  {
    Asks(evs[j].op, addr, isRead) && Run(m, evs).0[j].Handle? && !FreedBetween(evs, Run(m, evs).0[j].handle, j + 1, i)
  }

  lemma FreedPrefix(evs: seq<Event>, i: nat, handle: int, a: nat)
    requires a <= i <= |evs|
    ensures FreedBetween(evs[..i], handle, a, i) <==> FreedBetween(evs, handle, a, i)
  {
    if FreedBetween(evs, handle, a, i) {
      var k :| a <= k < i && evs[k].op == FreeOp(handle);
      assert evs[..i][k].op == FreeOp(handle);
    }
  }

  /** A bound event j made grants an access exactly if the event asked for it. */
  lemma MadeGrants(m: Model, evs: seq<Event>, i: nat, j: nat, e: Entry, addr: Word, isRead: bool)
    requires Coherent(m) && j < i <= |evs| && MadeAt(m, evs[..i], j, e)
    ensures |Run(m, evs).0| == |evs| && Run(m, evs).0[j] == Handle(e.handle)
    ensures Grants(e, addr, isRead) <==> Asks(evs[j].op, addr, isRead)
  {
    RunAt(m, evs, j);
    assert evs[..i][..j] == evs[..j] && evs[..i][j] == evs[j];
    var op := evs[j].op;
    RequestedGrantsIff(e.handle, op.cfg, op.lo, op.hi, addr, isRead);
  }

  /** Confinement over runs: an access is granted only if a bound live at the start grants it and was
      not freed, or some request that asked for it was made and not freed since. */
  lemma GrantedHasOrigin(m: Model, evs: seq<Event>, i: nat, addr: Word, isRead: bool)
    requires Coherent(m) && i < |evs| && evs[i].op == AccessOp(addr, isRead)
    ensures |Run(m, evs).0| == |evs|
    ensures Run(m, evs).0[i] == Granted ==>
      || GrantedFromStart(m, evs, i, addr, isRead)
      || exists j :: 0 <= j < i && GrantedByRequest(m, evs, j, i, addr, isRead)
  {
    RunAt(m, evs, i);
    var s := Run(m, evs[..i]).1;
    AccessIffGranted(s, addr, isRead, evs[i].rand);
    if Run(m, evs).0[i] == Granted {
      var e :| e in s.live && Grants(e, addr, isRead);
      LiveHasOrigin(m, evs[..i], e);
      if FromStart(m, evs[..i], e) {
        FreedPrefix(evs, i, e.handle, 0);
      } else {
        var j :| 0 <= j < i && FromRequest(m, evs[..i], j, e);
        MadeGrants(m, evs, i, j, e, addr, isRead);
        FreedPrefix(evs, i, e.handle, j + 1);
        assert GrantedByRequest(m, evs, j, i, addr, isRead);
      }
    }
  }

  /** Without free-all it is granted exactly then. */
  lemma GrantedIffOrigin(m: Model, evs: seq<Event>, i: nat, addr: Word, isRead: bool)
    requires Coherent(m) && i < |evs| && evs[i].op == AccessOp(addr, isRead)
    requires forall k :: 0 <= k < i ==> !evs[k].op.FreeAllOp?
    ensures |Run(m, evs).0| == |evs|
    ensures Run(m, evs).0[i] == Granted <==>
      || GrantedFromStart(m, evs, i, addr, isRead)
      || exists j :: 0 <= j < i && GrantedByRequest(m, evs, j, i, addr, isRead)
  {
    GrantedHasOrigin(m, evs, i, addr, isRead);
    RunAt(m, evs, i);
    var s := Run(m, evs[..i]).1;
    AccessIffGranted(s, addr, isRead, evs[i].rand);
    if GrantedFromStart(m, evs, i, addr, isRead) {
      var e :| e in m.live && Grants(e, addr, isRead) && !FreedBetween(evs, e.handle, 0, i);
      FreedPrefix(evs, i, e.handle, 0);
      assert FromStart(m, evs[..i], e);
      LiveHasOrigin(m, evs[..i], e);
    } else if exists j :: 0 <= j < i && GrantedByRequest(m, evs, j, i, addr, isRead) {
      var j :| 0 <= j < i && GrantedByRequest(m, evs, j, i, addr, isRead);
      RequestedIsLive(m, evs, i, j, addr, isRead);
    }
  }

  lemma RequestedIsLive(m: Model, evs: seq<Event>, i: nat, j: nat, addr: Word, isRead: bool)
    requires Coherent(m) && j < i < |evs| == |Run(m, evs).0| && GrantedByRequest(m, evs, j, i, addr, isRead)
    requires forall k :: 0 <= k < i ==> !evs[k].op.FreeAllOp?
    ensures TableGrants(Run(m, evs[..i]).1.live, addr, isRead)
  {
    var op := evs[j].op;
    var e := Requested(Run(m, evs[..j]).1.next, op.cfg, op.lo, op.hi);
    assert evs[..i][..j] == evs[..j];
    assert MadeAt(m, evs[..i], j, e);
    MadeGrants(m, evs, i, j, e, addr, isRead);
    FreedPrefix(evs, i, e.handle, j + 1);
    assert FromRequest(m, evs[..i], j, e);
    LiveHasOrigin(m, evs[..i], e);
  }
}
