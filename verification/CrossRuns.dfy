/** What whole runs of calls and returns conserve: every return goes back to where its call came
    from, and once calls and returns balance, so do stack, live bounds and jump slots, but for
    handle 0 and jump slot 0. */
module CrossRuns {
  import opened Arith
  import opened Machine
  import opened Words
  import opened Bounds
  import opened BoundModel
  import Jumps
  import BoundRuns
  import opened CrossModel
  import M = FuncMemModel

  // ---- nesting

  function Delta(e: Event): int { if Crosses(e) then 1 else if e.Return? then -1 else 0 }

  /** Calls that crossed less returns. */
  function Depth(events: seq<Event>): int
    decreases |events|
  {
    if events == [] then 0 else Depth(events[..|events| - 1]) + Delta(events[|events| - 1])
  }

  /** No return without its call. */
  ghost predicate Nested(events: seq<Event>) {
    forall k :: 0 <= k <= |events| ==> Depth(events[..k]) >= 0
  }

  /** The return at j is the one for the call at i. */
  ghost predicate Matches(events: seq<Event>, i: nat, j: nat) {
    && i < j < |events| && Crosses(events[i]) && events[j].Return?
    && Nested(events[i + 1..j]) && Depth(events[i + 1..j]) == 0
  }

  ghost predicate Fine(events: seq<Event>) { forall e :: e in events ==> WellFormed(e) }

  // ---- what the calls themselves do not give back

  /** What would be there if no call had made bounds or taken a jump slot, but for handle 0 and jump
      slot 0: the live bounds, the next handle, and the jump slots. */
  datatype Residue = Residue(live: seq<Entry>, next: int, jumps: seq<Jumps.JumpSlot>)

  function WithoutRecords(live: seq<Entry>, records: seq<M.Record>): seq<Entry>
    decreases records
  {
    if records == [] then live
    else WithoutRecords(if records[0].addr == 0 then live else Without(live, records[0].handler), records[1..])
  }

  function Residual(r: Residue, e: Event): (r': Residue)
    requires |r.jumps| == Jumps.JUMPCFG_WIDTH
    ensures |r'.jumps| == Jumps.JUMPCFG_WIDTH
  {
    match e
    case Call(entry, target, _, _, _) =>
      if !CrossesInto(entry, target) then r
      else Residue(
        if r.next == 0 then r.live + [Requested(0, LIBCFG_R | LIBCFG_V, target.rStart, target.rEnd)] else r.live,
        r.next + 3,
        if r.jumps[0].Idle? then r.jumps[0 := Jumps.Busy(target.pltStart, target.textEnd)] else r.jumps)
    case Return(_, records) => r.(live := WithoutRecords(r.live, records))
    case Alloc(cfg, lo, hi, _) => r.(live := r.live + [Requested(r.next, cfg, lo, hi)], next := r.next + 1)
    case Free(handle) => r.(live := Without(r.live, handle))
    case Access(_, _, _) => r
  }

  /** What events leave of a state if every call's frame has been popped. */
  function Left(s: State, events: seq<Event>): (r: Residue)
    requires ShapedState(s)
    ensures |r.jumps| == Jumps.JUMPCFG_WIDTH
    decreases |events|
  {
    if events == [] then Residue(s.cache.live, s.cache.next, s.jumps)
    else Residual(Left(s, events[..|events| - 1]), events[|events| - 1])
  }

  // ---- what the open frames hold

  function Dropped(live: seq<Entry>, handle: int): seq<Entry> {
    if handle == 0 then live else Without(live, handle)
  }

  function WithoutAll(live: seq<Entry>, handles: seq<int>): seq<Entry>
    decreases handles
  {
    if handles == [] then live else WithoutAll(Dropped(live, handles[0]), handles[1..])
  }

  /** The handles a call got, the first of them n. */
  function Three(n: int): seq<int> { [n, n + 1, n + 2] }

  function PeelLive(live: seq<Entry>, frames: seq<Frame>): seq<Entry>
    requires forall i :: 0 <= i < |frames| ==> Made(frames[i])
    decreases frames
  {
    if frames == [] then live else
      assert Made(frames[0]);
      PeelLive(WithoutAll(live, Three(frames[0].handle[0])), frames[1..])
  }

  function PeelJump(jumps: seq<Jumps.JumpSlot>, slot: int): seq<Jumps.JumpSlot>
    requires slot < |jumps|
  {
    if slot <= 0 then jumps else jumps[slot := Jumps.Idle]
  }

  function PeelJumps(jumps: seq<Jumps.JumpSlot>, frames: seq<Frame>): seq<Jumps.JumpSlot>
    requires |jumps| == Jumps.JUMPCFG_WIDTH && forall i :: 0 <= i < |frames| ==> Made(frames[i])
    decreases frames
  {
    if frames == [] then jumps else
      assert Made(frames[0]);
      PeelJumps(PeelJump(jumps, frames[0].jmpcfg[0]), frames[1..])
  }

  /** A frame as a call leaves it. */
  predicate Made(f: Frame) {
    && !f.target.inMainArea
    && |f.jmpcfg| == Jumps.JUMPCFG_WIDTH && |f.handle| == LIBCFG_WIDTH && f.handleNum == 3
    && -1 <= f.jmpcfg[0] < Jumps.JUMPCFG_WIDTH && f.jmpcfg[1..] == [0, 0, 0]
    && f.handle[0] >= 0 && f.handle[1] == f.handle[0] + 1 && f.handle[2] == f.handle[0] + 2
  }

  /** Open frames name bounds of their own, in the order of their calls. */
  ghost predicate OpenOk(frames: seq<Frame>, next: int) {
    && (forall i :: 0 <= i < |frames| ==> Made(frames[i]) && frames[i].handle[0] + 2 < next)
    && (forall i, j :: 0 <= i < j < |frames| ==> frames[i].handle[0] > frames[j].handle[0] + 2)
  }

  /** After nested events from s0: the open frames are on top of the stack, and popping them
      would give back everything the calls took. */
  ghost predicate Inv(s0: State, frames: seq<Frame>, r: Residue, s: State) {
    && ShapedState(s) && Coherent(s.cache) && s.stack == frames + s0.stack && OpenOk(frames, s.cache.next)
    && |r.jumps| == Jumps.JUMPCFG_WIDTH
    && PeelLive(s.cache.live, frames) == r.live && PeelJumps(s.jumps, frames) == r.jumps
    && s.cache.next == r.next && (s.jumps[0].Busy? <==> r.jumps[0].Busy?) && (frames != [] ==> r.jumps[0].Busy?)
  }

  // ---- a call

  lemma {:induction false} WithoutInserted(a: seq<Entry>, e: Entry, b: seq<Entry>)
    requires !Live(a, e.handle)
    ensures Without(a + [e] + b, e.handle) == a + b
  {
    if a == [] {
      assert a + [e] + b == [e] + b;
    } else {
      assert a[0].handle != e.handle;
      assert (a + [e] + b)[1..] == a[1..] + [e] + b;
      forall i | 0 <= i < |a[1..]| ensures a[1..][i].handle != e.handle {
        assert a[i + 1].handle != e.handle;
      }
      WithoutInserted(a[1..], e, b);
    }
  }

  lemma WithoutThree(live: seq<Entry>, a: int, b: int, c: int)
    ensures WithoutAll(live, [a, b, c]) == Dropped(Dropped(Dropped(live, a), b), c)
  {
    assert [a, b, c][1..] == [b, c] && [b, c][1..] == [c] && [c][1..] == [];
    var one, two := Dropped(live, a), Dropped(Dropped(live, a), b);
    assert WithoutAll(two, [c]) == WithoutAll(Dropped(two, c), []);
    assert WithoutAll(one, [b, c]) == WithoutAll(two, [c]);
  }

  /** Taking away three new bounds leaves what there was, and handle 0. */
  lemma WithoutGranted(live: seq<Entry>, n: int, a: Entry, b: Entry, c: Entry)
    requires n >= 0 && a.handle == n && b.handle == n + 1 && c.handle == n + 2
    requires !Live(live, n) && !Live(live, n + 1) && !Live(live, n + 2)
    ensures WithoutAll(live + [a, b, c], [n, n + 1, n + 2]) == if n == 0 then live + [a] else live
  {
    var base := if n == 0 then live + [a] else live;
    WithoutThree(live + [a, b, c], n, n + 1, n + 2);
    assert Dropped(live + [a, b, c], n) == base + [b] + [c] by {
      assert live + [a, b, c] == live + [a] + [b, c];
      WithoutInserted(live, a, [b, c]);
    }
    WithoutInserted(base, b, [c]);
    assert Dropped(base + [b] + [c], n + 1) == base + [c];
    WithoutInserted(base, c, []);
    assert base + [c] + [] == base + [c] && base + [] == base;
    assert Dropped(base + [c], n + 2) == base;
    assert WithoutAll(live + [a, b, c], [n, n + 1, n + 2]) == base;
  }

  lemma AllocGives(m: Model, cfg: bv64, lo: Word, hi: Word, rand: nat)
    requires Coherent(m)
    ensures var m' := BoundModel.Alloc(m, cfg, lo, hi, rand);
      Coherent(m') && m'.live == m.live + [Requested(m.next, cfg, lo, hi)] && m'.next == m.next + 1
  {
    AllocCoherent(m, cfg, lo, hi, rand);
  }

  lemma GrantIs(m: Model, target: Library, sp: Word, rands: seq<nat>)
    requires Coherent(m) && |rands| == 3
    ensures var m' := Grant(m, target, sp, rands);
      Coherent(m') && m'.live == m.live + Granted(m.next, target, sp) && m'.next == m.next + 3
  {
    var m1 := BoundModel.Alloc(m, LIBCFG_R | LIBCFG_V, target.rStart, target.rEnd, rands[0]);
    var m2 := BoundModel.Alloc(m1, LIBCFG_R | LIBCFG_W | LIBCFG_V, target.wStart, target.wEnd, rands[1]);
    AllocGives(m, LIBCFG_R | LIBCFG_V, target.rStart, target.rEnd, rands[0]);
    AllocGives(m1, LIBCFG_R | LIBCFG_W | LIBCFG_V, target.wStart, target.wEnd, rands[1]);
    AllocGives(m2, LIBCFG_R | LIBCFG_W, StackBase(sp), Reg(StackBase(sp) + STACK_PAGES * PAGE_SIZE), rands[2]);
    Joined(m.live, Granted(m.next, target, sp));
  }

  lemma Joined(live: seq<Entry>, g: seq<Entry>)
    requires |g| == 3
    ensures live + [g[0]] + [g[1]] + [g[2]] == live + g
  {}

  ghost predicate Numbered(g: seq<Entry>, n: int) {
    |g| == 3 && g[0].handle == n && g[1].handle == n + 1 && g[2].handle == n + 2
  }

  /** Handles not yet handed out name nothing. */
  lemma NotYet(m: Model, handle: int)
    requires Coherent(m) && handle >= m.next
    ensures !Live(m.live, handle)
  {
    forall i | 0 <= i < |m.live| ensures m.live[i].handle != handle {
      assert m.live[i] in m.live;
    }
  }

  lemma GrantedUndone(m: Model, g: seq<Entry>)
    requires Coherent(m) && Numbered(g, m.next)
    ensures WithoutAll(m.live + g, Three(m.next)) == if m.next == 0 then m.live + [g[0]] else m.live
  {
    NotYet(m, m.next);
    NotYet(m, m.next + 1);
    NotYet(m, m.next + 2);
    WithoutGranted(m.live, m.next, g[0], g[1], g[2]);
    assert g == [g[0], g[1], g[2]];
  }

  lemma FrameIs(entry: Library, target: Library, ra: Word, slot: int, n: int)
    requires -1 <= slot < Jumps.JUMPCFG_WIDTH && n >= 0 && !target.inMainArea
    ensures var f := CallFrame(entry, target, ra, slot, n);
      Made(f) && f.jmpcfg[0] == slot && f.handle[0] == n
  {}

  /** A call's frame joins the open ones. */
  lemma OpenCall(frames: seq<Frame>, f: Frame, next: int)
    requires OpenOk(frames, next) && Made(f) && f.handle[0] == next
    ensures OpenOk([f] + frames, next + 3)
  {}

  /** Popping a call's frame at once would undo the call, but for handle 0. */
  lemma PeelLiveCall(frames: seq<Frame>, m: Model, f: Frame, g: seq<Entry>)
    requires Coherent(m) && OpenOk(frames, m.next) && Made(f) && f.handle[0] == m.next && Numbered(g, m.next)
    requires forall i :: 0 <= i < |[f] + frames| ==> Made(([f] + frames)[i])
    ensures PeelLive(m.live + g, [f] + frames) == if m.next == 0 then m.live + [g[0]] else PeelLive(m.live, frames)
  {
    assert ([f] + frames)[1..] == frames;
    GrantedUndone(m, g);
    assert frames != [] ==> Made(frames[0]) && frames[0].handle[0] + 2 < m.next;
  }

  /** And but for jump slot 0. */
  lemma PeelJumpsCall(frames: seq<Frame>, jumps: seq<Jumps.JumpSlot>, f: Frame, lo: Word, hi: Word)
    requires |jumps| == Jumps.JUMPCFG_WIDTH && f.jmpcfg != [] && f.jmpcfg[0] == Jumps.Allocated(jumps, lo, hi).1
    requires frames != [] ==> jumps[0].Busy?
    requires forall i :: 0 <= i < |frames| ==> Made(frames[i])
    requires forall i :: 0 <= i < |[f] + frames| ==> Made(([f] + frames)[i])
    ensures var jumps' := Jumps.Allocated(jumps, lo, hi).0;
      && PeelJumps(jumps', [f] + frames) == (if jumps[0].Idle? then jumps' else PeelJumps(jumps, frames))
      && jumps'[0].Busy?
  {
    assert ([f] + frames)[1..] == frames;
    var slot, jumps' := f.jmpcfg[0], Jumps.Allocated(jumps, lo, hi).0;
    assert slot > 0 ==> jumps'[slot := Jumps.Idle] == jumps;
  }

  // ---- a return

  /** A frame's handles can all be freed exactly if all but the zeros are live. */
  lemma {:induction false} FreeHandlesIs(m: Model, handles: seq<int>)
    requires Coherent(m) && forall i, j :: 0 <= i < j < |handles| ==> handles[i] != handles[j]
    ensures FreeHandles(m, handles).Some? <==> forall k :: 0 <= k < |handles| && handles[k] != 0 ==> Live(m.live, handles[k])
    ensures FreeHandles(m, handles).Some? ==>
      var m' := FreeHandles(m, handles).value;
      && Coherent(m') && m'.next == m.next && m'.live == WithoutAll(m.live, handles)
      && forall h :: Live(m'.live, h) <==> Live(m.live, h) && (h == 0 || h !in handles)
    decreases handles
  {
    if handles != [] {
      var h0, rest := handles[0], handles[1..];
      var m1 := if h0 == 0 then m else BoundModel.Free(m, h0);
      FreeCoherent(m, h0);
      forall h ensures Live(m1.live, h) <==> Live(m.live, h) && (h0 == 0 || h != h0) {
        LiveWithout(m.live, h0, h);
      }
      FreeHandlesIs(m1, rest);
      forall h ensures h in handles <==> h == h0 || h in rest {}
      assert forall k :: 0 <= k < |rest| ==> rest[k] == handles[k + 1];
      if h0 != 0 && !Live(m.live, h0) {
        assert handles[0] == h0;
      } else {
        forall k | 0 <= k < |handles| && handles[k] != 0
          ensures Live(m.live, handles[k]) <==> k == 0 || Live(m1.live, rest[k - 1])
        {}
      }
    }
  }

  lemma LiveWithout(live: seq<Entry>, handle: int, h: int)
    requires Distinct(live)
    ensures Live(Without(live, handle), h) <==> Live(live, h) && h != handle
  {
    WithoutIs(live, handle);
    var w := Without(live, handle);
    if Live(w, h) {
      var i :| 0 <= i < |w| && w[i].handle == h;
      assert w[i] in live;
    }
    if Live(live, h) && h != handle {
      var i :| 0 <= i < |live| && live[i].handle == h;
      assert live[i] in w;
    }
  }

  lemma {:induction false} FreeZeros(jumps: seq<Jumps.JumpSlot>, slots: seq<int>)
    requires forall i :: 0 <= i < |slots| ==> slots[i] == 0
    ensures FreeJumps(jumps, slots) == Some(jumps)
    decreases slots
  {
    if slots != [] {
      FreeZeros(jumps, slots[1..]);
    }
  }

  lemma FreeJumpsIs(jumps: seq<Jumps.JumpSlot>, slot: int)
    requires |jumps| == Jumps.JUMPCFG_WIDTH && -1 <= slot < Jumps.JUMPCFG_WIDTH
    ensures FreeJumps(jumps, [slot, 0, 0, 0]) ==
      if slot == -1 then None else if slot == 0 then Some(jumps) else Some(jumps[slot := Jumps.Idle])
  {
    var jumps' := Jumps.Freed(jumps, slot).0;
    FreeZeros(jumps, [slot, 0, 0, 0][1..]);
    FreeZeros(jumps', [slot, 0, 0, 0][1..]);
  }

  lemma MadeParts(f: Frame)
    requires Made(f)
    ensures f.handle[..f.handleNum] == Three(f.handle[0]) && f.jmpcfg == [f.jmpcfg[0], 0, 0, 0]
  {}

  lemma Popped(frames: seq<Frame>, base: seq<Frame>)
    requires frames != []
    ensures frames + base != [] && (frames + base)[0] == frames[0] && (frames + base)[1..] == frames[1..] + base
  {}

  /** The records' bounds can all be freed exactly if they are live, each of them once. */
  ghost predicate Freeable(live: seq<Entry>, records: seq<M.Record>) {
    && (forall i :: 0 <= i < |records| && records[i].addr != 0 ==> Live(live, records[i].handler))
    && (forall i, j :: 0 <= i < j < |records| && records[i].addr != 0 && records[j].addr != 0 ==>
      records[i].handler != records[j].handler)
  }

  lemma {:induction false} FreeRecordsIs(m: Model, records: seq<M.Record>)
    requires Coherent(m)
    ensures FreeRecords(m, records).Some? <==> Freeable(m.live, records)
    ensures FreeRecords(m, records).Some? ==>
      var m' := FreeRecords(m, records).value;
      Coherent(m') && m'.next == m.next && m'.live == WithoutRecords(m.live, records)
    decreases records
  {
    if records != [] {
      var h, rest := records[0].handler, records[1..];
      if records[0].addr == 0 {
        FreeRecordsIs(m, rest);
        FreeableRest(m.live, m.live, records);
      } else if Live(m.live, h) {
        var m1 := BoundModel.Free(m, h);
        FreeCoherent(m, h);
        forall g ensures Live(m1.live, g) <==> Live(m.live, g) && g != h {
          LiveWithout(m.live, h, g);
        }
        FreeRecordsIs(m1, rest);
        FreeableRest(m.live, m1.live, records);
      }
    }
  }

  lemma FreeableRest(live: seq<Entry>, live1: seq<Entry>, records: seq<M.Record>)
    requires records != []
    requires records[0].addr == 0 ==> live1 == live
    requires records[0].addr != 0 ==> Live(live, records[0].handler)
    requires records[0].addr != 0 ==> forall g :: Live(live1, g) <==> Live(live, g) && g != records[0].handler
    ensures Freeable(live, records) <==> Freeable(live1, records[1..])
  {
    var rest := records[1..];
    forall i | 1 <= i < |records| ensures records[i] == rest[i - 1] {}
    if Freeable(live1, rest) {
      forall i | 0 <= i < |records| && records[i].addr != 0 ensures Live(live, records[i].handler) {
        assert i > 0 ==> records[i] == rest[i - 1];
      }
      forall i, j | 0 <= i < j < |records| && records[i].addr != 0 && records[j].addr != 0
        ensures records[i].handler != records[j].handler
      {
        assert records[j] == rest[j - 1];
      }
    }
    if Freeable(live, records) {
      forall i | 0 <= i < |rest| && rest[i].addr != 0 ensures Live(live1, rest[i].handler) {
        assert rest[i] == records[i + 1];
      }
      forall i, j | 0 <= i < j < |rest| && rest[i].addr != 0 && rest[j].addr != 0
        ensures rest[i].handler != rest[j].handler
      {
        assert rest[i] == records[i + 1] && rest[j] == records[j + 1];
      }
    }
  }

  /** All of a call's bounds that a return frees are live. */
  ghost predicate LiveFrom(live: seq<Entry>, n: int) {
    (n != 0 ==> Live(live, n)) && Live(live, n + 1) && Live(live, n + 2)
  }

  /** A return aborts exactly if its call found all four jump slots taken, or a bound of the call has
      been freed, or the records' bounds cannot all be freed; otherwise it gives back what its frame
      names and the records' bounds. */
  lemma LeaveIs(s: State, records: seq<M.Record>)
    requires ShapedState(s) && Coherent(s.cache) && s.stack != [] && Made(s.stack[0])
    ensures var f := s.stack[0];
      var live := WithoutAll(s.cache.live, Three(f.handle[0]));
      && (Leave(s, records).Some? <==>
        f.jmpcfg[0] != -1 && LiveFrom(s.cache.live, f.handle[0]) && Freeable(live, records))
      && (Leave(s, records).Some? ==>
        var s' := Leave(s, records).value;
        && ShapedState(s') && Coherent(s'.cache) && s'.cache.next == s.cache.next && s'.stack == s.stack[1..]
        && s'.cache.live == WithoutRecords(live, records) && s'.jumps == PeelJump(s.jumps, f.jmpcfg[0]))
  {
    var f := s.stack[0];
    var hs := Three(f.handle[0]);
    MadeParts(f);
    FreeHandlesIs(s.cache, hs);
    ThreeLive(s.cache.live, f.handle[0]);
    FreeJumpsIs(s.jumps, f.jmpcfg[0]);
    LeaveShaped(s, records);
    if FreeHandles(s.cache, hs).Some? {
      FreeRecordsIs(FreeHandles(s.cache, hs).value, records);
    }
  }

  lemma ThreeLive(live: seq<Entry>, n: int)
    requires n >= 0
    ensures LiveFrom(live, n) <==> forall k :: 0 <= k < 3 && Three(n)[k] != 0 ==> Live(live, Three(n)[k])
  {
    var hs := Three(n);
    assert hs[0] == n && hs[1] == n + 1 && hs[2] == n + 2;
  }

  // ---- the other events

  lemma {:induction false} WithoutCommutes(live: seq<Entry>, a: int, b: int)
    ensures Without(Without(live, a), b) == Without(Without(live, b), a)
  {
    if live != [] {
      WithoutCommutes(live[1..], a, b);
    }
  }

  lemma {:induction false} WithoutAppend(live: seq<Entry>, e: Entry, h: int)
    requires h != e.handle
    ensures Without(live + [e], h) == Without(live, h) + [e]
  {
    if live == [] {
      assert live + [e] == [e] && [e][1..] == [];
    } else {
      assert (live + [e])[1..] == live[1..] + [e];
      WithoutAppend(live[1..], e, h);
    }
  }

  lemma WithoutThreeCommutes(live: seq<Entry>, n: int, h: int)
    ensures WithoutAll(Without(live, h), Three(n)) == Without(WithoutAll(live, Three(n)), h)
  {
    WithoutThree(live, n, n + 1, n + 2);
    WithoutThree(Without(live, h), n, n + 1, n + 2);
    var one := Dropped(live, n);
    var two := Dropped(one, n + 1);
    WithoutCommutes(live, h, n);
    WithoutCommutes(one, h, n + 1);
    WithoutCommutes(two, h, n + 2);
  }

  lemma WithoutThreeAppend(live: seq<Entry>, n: int, e: Entry)
    requires e.handle > n + 2
    ensures WithoutAll(live + [e], Three(n)) == WithoutAll(live, Three(n)) + [e]
  {
    WithoutThree(live, n, n + 1, n + 2);
    WithoutThree(live + [e], n, n + 1, n + 2);
    var one := Dropped(live, n);
    var two := Dropped(one, n + 1);
    WithoutAppend(live, e, n);
    WithoutAppend(one, e, n + 1);
    WithoutAppend(two, e, n + 2);
  }

  lemma {:induction false} PeelFree(live: seq<Entry>, frames: seq<Frame>, h: int)
    requires forall i :: 0 <= i < |frames| ==> Made(frames[i])
    ensures PeelLive(Without(live, h), frames) == Without(PeelLive(live, frames), h)
    decreases frames
  {
    if frames != [] {
      assert Made(frames[0]);
      WithoutThreeCommutes(live, frames[0].handle[0], h);
      PeelFree(WithoutAll(live, Three(frames[0].handle[0])), frames[1..], h);
    }
  }

  lemma {:induction false} PeelAlloc(live: seq<Entry>, frames: seq<Frame>, e: Entry)
    requires forall i :: 0 <= i < |frames| ==> Made(frames[i]) && frames[i].handle[0] + 2 < e.handle
    ensures PeelLive(live + [e], frames) == PeelLive(live, frames) + [e]
    decreases frames
  {
    if frames != [] {
      assert Made(frames[0]);
      WithoutThreeAppend(live, frames[0].handle[0], e);
      PeelAlloc(WithoutAll(live, Three(frames[0].handle[0])), frames[1..], e);
    }
  }

  lemma {:induction false} PeelRecords(live: seq<Entry>, frames: seq<Frame>, records: seq<M.Record>)
    requires forall i :: 0 <= i < |frames| ==> Made(frames[i])
    ensures PeelLive(WithoutRecords(live, records), frames) == WithoutRecords(PeelLive(live, frames), records)
    decreases records
  {
    if records != [] {
      PeelFree(live, frames, records[0].handler);
      PeelRecords(if records[0].addr == 0 then live else Without(live, records[0].handler), frames, records[1..]);
    }
  }

  /** Freeing a handle that is not live changes nothing. */
  lemma {:induction false} WithoutNone(live: seq<Entry>, h: int)
    requires !Live(live, h)
    ensures Without(live, h) == live
  {
    if live != [] {
      assert live[0].handle != h;
      forall i | 0 <= i < |live[1..]| ensures live[1..][i].handle != h {
        assert live[i + 1].handle != h;
      }
      WithoutNone(live[1..], h);
    }
  }

  // ---- every event keeps the invariant

  /** The state s' is the one an event leads to from s. */
  predicate Moves(s: State, e: Event, s': State)
    requires ShapedState(s) && WellFormed(e)
  {
    match e
    case Call(entry, target, _, regs, rands) => s' == if Crosses(e) then Enter(s, entry, target, regs, rands) else s
    case Return(_, records) =>
      s.stack != [] && s.stack[0].handleNum <= |s.stack[0].handle| && Leave(s, records) == Some(s')
    case Alloc(cfg, lo, hi, rand) => s' == s.(cache := BoundModel.Alloc(s.cache, cfg, lo, hi, rand))
    case Free(handle) => s' == s.(cache := BoundModel.Free(s.cache, handle))
    case Access(addr, isRead, rand) => s' == s.(cache := BoundRuns.Access(s.cache, addr, isRead, rand).0)
  }

  lemma StepMoves(s: State, e: Event, gate: Word)
    requires ShapedState(s) && WellFormed(e) && Step(s, e, gate).Some?
    ensures Moves(s, e, Step(s, e, gate).value.state)
  {}

  lemma Pushed(f: Frame, frames: seq<Frame>, base: seq<Frame>)
    ensures [f] + (frames + base) == [f] + frames + base
  {}

  lemma CallKeeps(s0: State, frames: seq<Frame>, r: Residue, s: State, e: Event, s': State)
    returns (frames': seq<Frame>)
    requires Inv(s0, frames, r, s) && Crosses(e) && WellFormed(e) && s' == Enter(s, e.entry, e.target, e.regs, e.rands)
    ensures |frames'| == |frames| + 1 && Inv(s0, frames', Residual(r, e), s')
  {
    var slot := Jumps.Allocated(s.jumps, e.target.pltStart, e.target.textEnd).1;
    var f := CallFrame(e.entry, e.target, e.regs.ra, slot, s.cache.next);
    frames' := [f] + frames;
    FrameIs(e.entry, e.target, e.regs.ra, slot, s.cache.next);
    GrantIs(s.cache, e.target, e.regs.sp, e.rands);
    var g := Granted(s.cache.next, e.target, e.regs.sp);
    OpenCall(frames, f, s.cache.next);
    PeelLiveCall(frames, s.cache, f, g);
    PeelJumpsCall(frames, s.jumps, f, e.target.pltStart, e.target.textEnd);
    ResidualCall(frames, r, s, e);
    Pushed(f, frames, s0.stack);
  }

  /** What popping everything would leave changes only with the first call that crosses. */
  lemma ResidualCall(frames: seq<Frame>, r: Residue, s: State, e: Event)
    requires ShapedState(s) && |r.jumps| == Jumps.JUMPCFG_WIDTH && Crosses(e) && OpenOk(frames, s.cache.next)
    requires PeelLive(s.cache.live, frames) == r.live && PeelJumps(s.jumps, frames) == r.jumps && s.cache.next == r.next
    requires (s.jumps[0].Busy? <==> r.jumps[0].Busy?) && (frames != [] ==> r.jumps[0].Busy?)
    ensures var r', g := Residual(r, e), Granted(s.cache.next, e.target, e.regs.sp);
      var jumps' := Jumps.Allocated(s.jumps, e.target.pltStart, e.target.textEnd).0;
      && r'.next == r.next + 3 && r'.jumps[0].Busy?
      && r'.live == (if s.cache.next == 0 then s.cache.live + [g[0]] else r.live)
      && r'.jumps == (if s.jumps[0].Idle? then jumps' else r.jumps)
  {
    assert frames != [] ==> Made(frames[0]) && frames[0].handle[0] + 2 < s.cache.next;
  }

  lemma ReturnKeeps(s0: State, frames: seq<Frame>, r: Residue, s: State, e: Event, s': State)
    requires Inv(s0, frames, r, s) && frames != [] && e.Return? && Leave(s, e.records) == Some(s')
    ensures Inv(s0, frames[1..], Residual(r, e), s')
  {
    Popped(frames, s0.stack);
    assert Made(frames[0]);
    LeaveIs(s, e.records);
    PeelRecords(WithoutAll(s.cache.live, Three(frames[0].handle[0])), frames[1..], e.records);
  }

  lemma AllocKeeps(s0: State, frames: seq<Frame>, r: Residue, s: State, e: Event, s': State)
    requires Inv(s0, frames, r, s) && e.Alloc? && s' == s.(cache := BoundModel.Alloc(s.cache, e.cfg, e.lo, e.hi, e.rand))
    ensures Inv(s0, frames, Residual(r, e), s')
  {
    AllocGives(s.cache, e.cfg, e.lo, e.hi, e.rand);
    PeelAlloc(s.cache.live, frames, Requested(s.cache.next, e.cfg, e.lo, e.hi));
  }

  lemma FreeKeeps(s0: State, frames: seq<Frame>, r: Residue, s: State, e: Event, s': State)
    requires Inv(s0, frames, r, s) && e.Free? && s' == s.(cache := BoundModel.Free(s.cache, e.handle))
    ensures Inv(s0, frames, Residual(r, e), s')
  {
    FreeCoherent(s.cache, e.handle);
    PeelFree(s.cache.live, frames, e.handle);
    if !Live(s.cache.live, e.handle) {
      WithoutNone(s.cache.live, e.handle);
    }
  }

  lemma AccessKeeps(s0: State, frames: seq<Frame>, r: Residue, s: State, e: Event, s': State)
    requires Inv(s0, frames, r, s) && e.Access?
    requires s' == s.(cache := BoundRuns.Access(s.cache, e.addr, e.isRead, e.rand).0)
    ensures Inv(s0, frames, r, s')
  {
    BoundRuns.AccessIffGranted(s.cache, e.addr, e.isRead, e.rand);
  }

  lemma StepKeeps(s0: State, frames: seq<Frame>, r: Residue, s: State, e: Event, s': State)
    returns (frames': seq<Frame>)
    requires Inv(s0, frames, r, s) && WellFormed(e) && |frames| + Delta(e) >= 0 && Moves(s, e, s')
    ensures |frames'| == |frames| + Delta(e) && Inv(s0, frames', Residual(r, e), s')
  {
    frames' := frames;
    match e
    case Call(_, _, _, _, _) =>
      if Crosses(e) {
        frames' := CallKeeps(s0, frames, r, s, e, s');
      }
    case Return(_, _) =>
      ReturnKeeps(s0, frames, r, s, e, s');
      frames' := frames[1..];
    case Alloc(_, _, _, _) => AllocKeeps(s0, frames, r, s, e, s');
    case Free(_) => FreeKeeps(s0, frames, r, s, e, s');
    case Access(_, _, _) => AccessKeeps(s0, frames, r, s, e, s');
  }

  lemma NestedPrefix(events: seq<Event>, k: nat)
    requires Nested(events) && k <= |events|
    ensures Nested(events[..k])
  {
    forall j | 0 <= j <= k ensures Depth(events[..k][..j]) >= 0 {
      assert events[..k][..j] == events[..j];
    }
  }

  /** A run ends with one event after a run of the others. */
  lemma LastStep(s0: State, events: seq<Event>, gate: Word)
    requires ShapedState(s0) && events != [] && Fine(events) && Run(s0, events, gate).Some?
    ensures var before, e := events[..|events| - 1], events[|events| - 1];
      && Fine(before) && WellFormed(e) && Run(s0, before, gate).Some?
      && Moves(Run(s0, before, gate).value, e, Run(s0, events, gate).value)
      && Depth(events) == Depth(before) + Delta(e) && Left(s0, events) == Residual(Left(s0, before), e)
  {
    var before, e := events[..|events| - 1], events[|events| - 1];
    StepMoves(Run(s0, before, gate).value, e, gate);
  }

  /** The invariant holds after every run of nested events. */
  lemma {:induction false} RunKeeps(s0: State, events: seq<Event>, gate: Word) returns (frames: seq<Frame>)
    requires ShapedState(s0) && Coherent(s0.cache) && Fine(events) && Nested(events) && Run(s0, events, gate).Some?
    ensures |frames| == Depth(events) && Inv(s0, frames, Left(s0, events), Run(s0, events, gate).value)
    decreases |events|
  {
    assert events[..|events|] == events;
    if events == [] {
      frames := [];
      assert [] + s0.stack == s0.stack;
    } else {
      var before, e := events[..|events| - 1], events[|events| - 1];
      NestedPrefix(events, |events| - 1);
      LastStep(s0, events, gate);
      frames := RunKeeps(s0, before, gate);
      frames := StepKeeps(s0, frames, Left(s0, before), Run(s0, before, gate).value, e, Run(s0, events, gate).value);
    }
  }

  /** Conservation: balanced calls and returns, with whatever allocations and frees between them,
      leave the stack as it was and the bounds and jump slots that the allocations and frees alone
      would leave, except that handle 0 and jump slot 0 stay taken once a call took them. */
  lemma BalancedRunLeaves(s: State, events: seq<Event>, gate: Word)
    requires ShapedState(s) && Coherent(s.cache) && Fine(events) && Nested(events) && Depth(events) == 0
    requires Run(s, events, gate).Some?
    ensures var s', r := Run(s, events, gate).value, Left(s, events);
      && s'.stack == s.stack && Coherent(s'.cache)
      && s'.cache.live == r.live && s'.cache.next == r.next && s'.jumps == r.jumps
  {
    var frames := RunKeeps(s, events, gate);
    assert [] + s.stack == s.stack;
  }

  // ---- runs of calls and returns alone

  /** Nobody but the calls makes or frees bounds. */
  predicate Quiet(e: Event) { e.Call? || e.Access? || (e.Return? && e.records == []) }

  function FirstCall(events: seq<Event>): (r: Option<Event>)
    ensures r.Some? ==> Crosses(r.value)
    decreases |events|
  {
    if events == [] then None
    else
      var first := FirstCall(events[..|events| - 1]);
      var last := events[|events| - 1];
      if first.Some? then first else if Crosses(last) then Some(last) else None
  }

  /** The live bounds there were, and the one with handle 0 if the first call made it. */
  function LiveAfter(s: State, first: Option<Event>): seq<Entry>
    requires first.Some? ==> first.value.Call?
  {
    if first.Some? && s.cache.next == 0
    then s.cache.live + [Requested(0, LIBCFG_R | LIBCFG_V, first.value.target.rStart, first.value.target.rEnd)]
    else s.cache.live
  }

  /** The jump slots as they were, but slot 0 taken if the first call took it. */
  function JumpsAfter(s: State, first: Option<Event>): seq<Jumps.JumpSlot>
    requires ShapedState(s) && (first.Some? ==> first.value.Call?)
  {
    if first.Some? && s.jumps[0].Idle?
    then s.jumps[0 := Jumps.Busy(first.value.target.pltStart, first.value.target.textEnd)]
    else s.jumps
  }

  lemma {:induction false} QuietLeft(s: State, events: seq<Event>)
    requires ShapedState(s) && s.cache.next >= 0 && forall e :: e in events ==> Quiet(e)
    ensures var r, first := Left(s, events), FirstCall(events);
      && r.live == LiveAfter(s, first) && r.jumps == JumpsAfter(s, first)
      && (if first.Some? then r.next >= 3 && r.jumps[0].Busy? else r.next == s.cache.next)
    decreases |events|
  {
    if events != [] {
      var last := events[|events| - 1];
      assert last in events;
      QuietLeft(s, events[..|events| - 1]);
    }
  }

  /** Conservation for calls and returns alone: the stack, the live bounds and the jump slots are what
      they were, except that handle 0 and jump slot 0 stay taken once taken. */
  lemma BalancedRunConserves(s: State, events: seq<Event>, gate: Word)
    requires ShapedState(s) && Coherent(s.cache) && Fine(events) && Nested(events) && Depth(events) == 0
    requires Run(s, events, gate).Some? && forall e :: e in events ==> Quiet(e)
    ensures var s' := Run(s, events, gate).value;
      && s'.stack == s.stack && Coherent(s'.cache)
      && s'.cache.live == LiveAfter(s, FirstCall(events))
      && s'.jumps == JumpsAfter(s, FirstCall(events))
  {
    BalancedRunLeaves(s, events, gate);
    QuietLeft(s, events);
  }

  /** Once handle 0 and jump slot 0 are taken, balanced calls and returns leave nothing behind. */
  lemma BalancedRunRestores(s: State, events: seq<Event>, gate: Word)
    requires ShapedState(s) && Coherent(s.cache) && Fine(events) && Nested(events) && Depth(events) == 0
    requires Run(s, events, gate).Some? && forall e :: e in events ==> Quiet(e)
    ensures var s' := Run(s, events, gate).value;
      (s'.cache.live == s.cache.live && s'.jumps == s.jumps) <==>
      (FirstCall(events).Some? ==> s.cache.next > 0 && s.jumps[0].Busy?)
  {
    BalancedRunConserves(s, events, gate);
    var first := FirstCall(events);
    if first.Some? && s.cache.next == 0 {
      assert |LiveAfter(s, first)| == |s.cache.live| + 1;
    }
    if first.Some? && s.jumps[0].Idle? {
      assert JumpsAfter(s, first)[0].Busy?;
    }
  }

  // ---- matching calls and returns

  /** A run is a run of its first part and then of the rest. */
  lemma {:induction false} RunSplit(s: State, a: seq<Event>, b: seq<Event>, gate: Word)
    requires ShapedState(s) && Fine(a) && Fine(b)
    ensures Fine(a + b)
    ensures Run(s, a + b, gate) ==
      if Run(s, a, gate).Some? then Run(Run(s, a, gate).value, b, gate) else None
    decreases |b|
  {
    if b == [] {
      assert a + b == a;
    } else {
      var m := |b| - 1;
      assert (a + b)[..|a + b| - 1] == a + b[..m] && (a + b)[|a + b| - 1] == b[m];
      RunSplit(s, a, b[..m], gate);
    }
  }

  /** After a call and balanced events its frame is on top of the stack it was made on, and the live
      bounds are what the events left of those the call made. */
  lemma CallStaysOpen(s: State, e: Event, events: seq<Event>, gate: Word)
    requires ShapedState(s) && Coherent(s.cache) && Crosses(e) && WellFormed(e)
    requires Fine(events) && Nested(events) && Depth(events) == 0
    requires Fine([e] + events) && Run(s, [e] + events, gate).Some?
    ensures var s', s1 := Run(s, [e] + events, gate).value, Enter(s, e.entry, e.target, e.regs, e.rands);
      && ShapedState(s') && Coherent(s'.cache) && ShapedState(s1) && Coherent(s1.cache)
      && s'.stack == s1.stack && s'.cache.live == Left(s1, events).live
  {
    RunSplit(s, [e], events, gate);
    assert [e][..0] == [];
    var s1 := Run(s, [e], gate).value;
    StepMoves(s, e, gate);
    GrantIs(s.cache, e.target, e.regs.sp, e.rands);
    assert s1 == Enter(s, e.entry, e.target, e.regs, e.rands) && Coherent(s1.cache);
    BalancedRunLeaves(s1, events, gate);
  }

  /** The state in which the return that matches a call is made. */
  lemma BeforeMatching(s: State, before: seq<Event>, e: Event, inner: seq<Event>, gate: Word)
    returns (si: State, sj: State)
    requires ShapedState(s) && Coherent(s.cache) && Fine(before) && Fine([e] + inner) && Fine(inner)
    requires Nested(before) && Nested(inner) && Crosses(e) && WellFormed(e) && Depth(inner) == 0
    requires Fine(before + ([e] + inner)) && Run(s, before + ([e] + inner), gate).Some?
    ensures Run(s, before, gate) == Some(si) && Run(s, before + ([e] + inner), gate) == Some(sj)
    ensures ShapedState(si) && ShapedState(sj) && Coherent(si.cache) && Coherent(sj.cache)
    ensures var s1 := Enter(si, e.entry, e.target, e.regs, e.rands);
      ShapedState(s1) && Coherent(s1.cache) && sj.stack == s1.stack && sj.cache.live == Left(s1, inner).live
  {
    RunSplit(s, before, [e] + inner, gate);
    si, sj := Run(s, before, gate).value, Run(s, before + ([e] + inner), gate).value;
    var frames := RunKeeps(s, before, gate);
    CallStaysOpen(si, e, inner, gate);
  }

  lemma SplitAtMatch(events: seq<Event>, i: nat, j: nat)
    requires Fine(events) && Nested(events) && Matches(events, i, j)
    ensures events[..j] == events[..i] + ([events[i]] + events[i + 1..j])
    ensures Fine(events[..i]) && Fine(events[..j]) && Fine([events[i]] + events[i + 1..j]) && Fine(events[i + 1..j])
    ensures Nested(events[..i]) && WellFormed(events[i]) && WellFormed(events[j])
  {
    NestedPrefix(events, i);
  }

  /** Each return goes back to where its matching call came from, whatever happened in between. */
  lemma ReturnRestoresRa(s: State, events: seq<Event>, i: nat, j: nat, gate: Word)
    requires ShapedState(s) && Coherent(s.cache) && Fine(events) && Nested(events) && Matches(events, i, j)
    requires Run(s, events[..j], gate).Some? && Step(Run(s, events[..j], gate).value, events[j], gate).Some?
    ensures Step(Run(s, events[..j], gate).value, events[j], gate).value.regs ==
      Some(events[j].regs.(ra := events[i].regs.ra, t1 := events[i].regs.ra))
  {
    SplitAtMatch(events, i, j);
    var si, sj := BeforeMatching(s, events[..i], events[i], events[i + 1..j], gate);
  }

  /** An event that frees the bound with a handle, if it is live: a free of it, or a return under a
      record that names it. */
  predicate Frees(e: Event, handle: int) {
    match e
    case Free(h) => h == handle
    case Return(_, records) => exists k :: 0 <= k < |records| && records[k].addr != 0 && records[k].handler == handle
    case _ => false
  }

  ghost predicate FreedIn(events: seq<Event>, handle: int) {
    exists k :: 0 <= k < |events| && Frees(events[k], handle)
  }

  lemma {:induction false} LiveWithoutRecords(live: seq<Entry>, records: seq<M.Record>, h: int)
    requires Distinct(live)
    ensures Distinct(WithoutRecords(live, records))
    ensures forall e :: e in WithoutRecords(live, records) ==> e in live
    ensures Live(WithoutRecords(live, records), h) <==>
      (Live(live, h) && !exists k :: 0 <= k < |records| && records[k].addr != 0 && records[k].handler == h)
    decreases records
  {
    if records != [] {
      var live1 := if records[0].addr == 0 then live else Without(live, records[0].handler);
      WithoutIs(live, records[0].handler);
      LiveWithout(live, records[0].handler, h);
      LiveWithoutRecords(live1, records[1..], h);
      forall k | 1 <= k < |records| ensures records[k] == records[1..][k - 1] {}
    }
  }

  /** A bound is left exactly if nothing freed it. */
  lemma {:induction false} LeftLive(s: State, events: seq<Event>, h: int)
    requires ShapedState(s) && Coherent(s.cache) && Live(s.cache.live, h) && h < s.cache.next
    ensures var r := Left(s, events); r.next >= s.cache.next && TableBelow(r.live, r.next)
    ensures Live(Left(s, events).live, h) <==> !FreedIn(events, h)
    decreases |events|
  {
    if events != [] {
      var before, e := events[..|events| - 1], events[|events| - 1];
      LeftLive(s, before, h);
      FreedInLast(before, e, h);
      assert events == before + [e];
      LeftLiveStep(Left(s, before), e, h);
    }
  }

  ghost predicate TableBelow(live: seq<Entry>, next: int) {
    Distinct(live) && forall e :: e in live ==> 0 <= e.handle < next
  }

  lemma FreedInLast(before: seq<Event>, e: Event, h: int)
    ensures FreedIn(before + [e], h) <==> FreedIn(before, h) || Frees(e, h)
  {
    var events := before + [e];
    if FreedIn(before, h) {
      var k :| 0 <= k < |before| && Frees(before[k], h);
      assert Frees(events[k], h);
    }
    if Frees(e, h) {
      assert Frees(events[|before|], h);
    }
  }

  lemma LeftLiveStep(r: Residue, e: Event, h: int)
    requires |r.jumps| == Jumps.JUMPCFG_WIDTH && TableBelow(r.live, r.next) && 0 <= h < r.next
    ensures var r' := Residual(r, e);
      r'.next >= r.next && TableBelow(r'.live, r'.next) && (Live(r'.live, h) <==> Live(r.live, h) && !Frees(e, h))
  {
    match e
    case Call(_, _, _, _, _) =>
    case Return(_, records) => LiveWithoutRecords(r.live, records, h);
    case Alloc(cfg, lo, hi, _) => LiveAppend(r.live, Requested(r.next, cfg, lo, hi), h);
    case Free(handle) =>
      WithoutIs(r.live, handle);
      LiveWithout(r.live, handle, h);
    case Access(_, _, _) =>
  }

  lemma LiveAppend(live: seq<Entry>, e: Entry, h: int)
    requires h != e.handle
    ensures Live(live + [e], h) <==> Live(live, h)
  {
    if Live(live, h) {
      var k :| 0 <= k < |live| && live[k].handle == h;
      assert (live + [e])[k].handle == h;
    }
  }

  /** Some event frees one of the bounds, but for handle 0, of the call that got n and the next two. */
  ghost predicate CallFreedIn(events: seq<Event>, n: int) {
    (n != 0 && FreedIn(events, n)) || FreedIn(events, n + 1) || FreedIn(events, n + 2)
  }

  /** A return aborts exactly if its call found no jump slot free, or one of the call's bounds (but
      for handle 0) was freed in between, or the records' bounds are not all there to be freed. */
  lemma ReturnAbortsIff(s: State, events: seq<Event>, i: nat, j: nat, gate: Word)
    requires ShapedState(s) && Coherent(s.cache) && Fine(events) && Nested(events) && Matches(events, i, j)
    requires Run(s, events[..j], gate).Some?
    ensures Run(s, events[..i], gate).Some?
    ensures var si, sj := Run(s, events[..i], gate).value, Run(s, events[..j], gate).value;
      var n := si.cache.next;
      Step(sj, events[j], gate).None? <==>
        || (forall k :: 0 <= k < Jumps.JUMPCFG_WIDTH ==> si.jumps[k].Busy?)
        || CallFreedIn(events[i + 1..j], n)
        || !Freeable(WithoutAll(sj.cache.live, Three(n)), events[j].records)
  {
    SplitAtMatch(events, i, j);
    var e, inner := events[i], events[i + 1..j];
    var si, sj := BeforeMatching(s, events[..i], e, inner, gate);
    var n := si.cache.next;
    CallFrameMade(si, e);
    LeaveIs(sj, events[j].records);
    GrantedLeft(si, e, inner);
    assert LiveFrom(sj.cache.live, n) <==> !CallFreedIn(inner, n);
  }

  /** The frame a call leaves, and whether it got a jump slot. */
  lemma CallFrameMade(s: State, e: Event)
    requires ShapedState(s) && Coherent(s.cache) && Crosses(e) && WellFormed(e)
    ensures var f := Enter(s, e.entry, e.target, e.regs, e.rands).stack[0];
      Made(f) && f.handle[0] == s.cache.next &&
      (f.jmpcfg[0] == -1 <==> forall k :: 0 <= k < Jumps.JUMPCFG_WIDTH ==> s.jumps[k].Busy?)
  {
    FrameIs(e.entry, e.target, e.regs.ra, Jumps.Allocated(s.jumps, e.target.pltStart, e.target.textEnd).1, s.cache.next);
  }

  /** Which of a call's bounds balanced events leave. */
  lemma GrantedLeft(s: State, e: Event, inner: seq<Event>)
    requires ShapedState(s) && Coherent(s.cache) && Crosses(e) && WellFormed(e)
    ensures var s1 := Enter(s, e.entry, e.target, e.regs, e.rands);
      ShapedState(s1) && forall h :: s.cache.next <= h <= s.cache.next + 2 ==>
        (Live(Left(s1, inner).live, h) <==> !FreedIn(inner, h))
  {
    GrantIs(s.cache, e.target, e.regs.sp, e.rands);
    var s1 := Enter(s, e.entry, e.target, e.regs, e.rands);
    var g := Granted(s.cache.next, e.target, e.regs.sp);
    forall h | s.cache.next <= h <= s.cache.next + 2
      ensures Live(Left(s1, inner).live, h) <==> !FreedIn(inner, h)
    {
      assert s1.cache.live[|s.cache.live| + (h - s.cache.next)].handle == h;
      LeftLive(s1, inner, h);
    }
  }

  // ---- what one call does

  /** A call into a trusted library or the caller's own changes nothing but t1. Any other leaves a
      frame with the two libraries, the return address and the numbers of its bounds, takes the first
      idle jump slot, if there is one, for the target's code, and sends the return to the gate. */
  lemma CallIs(s: State, e: Event, gate: Word)
    requires ShapedState(s) && Coherent(s.cache) && e.Call? && WellFormed(e) && |s.stack| < CAPACITY
    ensures Step(s, e, gate).Some?
    ensures var s', regs := Step(s, e, gate).value.state, Step(s, e, gate).value.regs;
      if e.entry.addr == e.target.addr || e.target.inMainArea
      then s' == s && regs == Some(Registers(e.dest, e.regs.ra, e.regs.sp))
      else
        && regs == Some(Registers(e.dest, gate, e.regs.sp))
        && |s'.stack| == |s.stack| + 1 && s'.stack[1..] == s.stack
        && s'.stack[0].begin == e.entry && s'.stack[0].target == e.target && s'.stack[0].ra == e.regs.ra
        && s'.stack[0].handleNum == 3 && s'.stack[0].handle[..3] == [s.cache.next, s.cache.next + 1, s.cache.next + 2]
        && |s'.stack[0].jmpcfg| == 4 && s'.stack[0].jmpcfg[1..] == [0, 0, 0]
        && TakesJump(s.jumps, s'.jumps, s'.stack[0].jmpcfg[0], e.target)
  {
    if Crosses(e) {
      var slot := Jumps.Allocated(s.jumps, e.target.pltStart, e.target.textEnd).1;
      var f := CallFrame(e.entry, e.target, e.regs.ra, slot, s.cache.next);
      FrameIs(e.entry, e.target, e.regs.ra, slot, s.cache.next);
      MadeParts(f);
      assert ([f] + s.stack)[1..] == s.stack;
    }
  }

  /** The first idle slot is taken for the target's code, from its plt to its text's end; if none is
      idle, none changes and the slot number is -1. */
  predicate TakesJump(jumps: seq<Jumps.JumpSlot>, jumps': seq<Jumps.JumpSlot>, slot: int, target: Library)
    requires |jumps| == 4
  {
    if forall k :: 0 <= k < 4 ==> jumps[k].Busy? then jumps' == jumps && slot == -1
    else
      && 0 <= slot < 4 && jumps[slot].Idle? && (forall k :: 0 <= k < slot ==> jumps[k].Busy?)
      && jumps' == jumps[slot := Jumps.Busy(target.pltStart, target.textEnd)]
  }

  // ---- what a call lets its callee do

  /** The doublewords that [lo, hi) reaches into, if rounding hi up does not wrap. */
  predicate Within(lo: nat, hi: nat, addr: Word) {
    hi <= LAST_DOUBLEWORD && lo - lo % 8 <= addr && addr - addr % 8 < hi
  }

  /** The stack a call opens: the 64 KiB below the stack pointer, if there are that many. */
  predicate StackWithin(sp: Word, addr: Word) {
    0x1_0000 <= sp && Within(sp - 0x1_0000, sp, addr)
  }

  lemma StackBaseIs(sp: Word)
    ensures StackBase(sp) == if 0x1_0000 <= sp then sp - 0x1_0000 else sp - 0x1_0000 + WORD
    ensures Reg(StackBase(sp) + STACK_PAGES * PAGE_SIZE) == sp
  {
    DivModIs(sp - 0x1_0000, WORD, if 0x1_0000 <= sp then 0 else -1, if 0x1_0000 <= sp then sp - 0x1_0000 else sp - 0x1_0000 + WORD);
    DivModIs(StackBase(sp) + 0x1_0000, WORD, if 0x1_0000 <= sp then 0 else 1, sp);
  }

  lemma StackGrantsIff(n: int, sp: Word, addr: Word, isRead: bool)
    ensures Grants(Requested(n, LIBCFG_R | LIBCFG_W, StackBase(sp), sp), addr, isRead) <==> StackWithin(sp, addr)
  {
    var base := StackBase(sp);
    StackBaseIs(sp);
    RightsOf(isRead);
    RequestedGrantsIff(n, LIBCFG_R | LIBCFG_W, base, sp, addr, isRead);
    if sp < 0x1_0000 {
      NothingBetween(base, sp, addr);
    }
  }

  lemma NothingBetween(lo: nat, hi: nat, addr: nat)
    requires hi + 8 <= lo
    ensures !(lo - lo % 8 <= addr && addr - addr % 8 < hi)
  {}

  lemma RangeGrantsIff(n: int, cfg: bv64, lo: Word, hi: Word, addr: Word, isRead: bool)
    ensures Grants(Requested(n, cfg, lo, hi), addr, isRead) <==>
      Within(lo, hi, addr) && cfg & (if isRead then LIBCFG_R else LIBCFG_W) != 0
  {
    RequestedGrantsIff(n, cfg, lo, hi, addr, isRead);
  }

  /** What each of a call's three bounds grants. */
  lemma GrantedGrantsIff(n: int, target: Library, sp: Word, addr: Word, isRead: bool, g: seq<Entry>)
    requires g == Granted(n, target, sp)
    ensures Grants(g[0], addr, isRead) <==> isRead && Within(target.rStart, target.rEnd, addr)
    ensures Grants(g[1], addr, isRead) <==> Within(target.wStart, target.wEnd, addr)
    ensures Grants(g[2], addr, isRead) <==> StackWithin(sp, addr)
  {
    StackBaseIs(sp);
    RangeGrantsIff(n, LIBCFG_R | LIBCFG_V, target.rStart, target.rEnd, addr, isRead);
    RangeGrantsIff(n + 1, LIBCFG_R | LIBCFG_W | LIBCFG_V, target.wStart, target.wEnd, addr, isRead);
    StackGrantsIff(n + 2, sp, addr, isRead);
    RightsOf(isRead);
  }

  lemma RightsOf(isRead: bool)
    ensures var right := if isRead then LIBCFG_R else LIBCFG_W;
      && ((LIBCFG_R | LIBCFG_V) & right != 0 <==> isRead)
      && (LIBCFG_R | LIBCFG_W | LIBCFG_V) & right != 0 && (LIBCFG_R | LIBCFG_W) & right != 0
  {}

  lemma GrantsThreeMore(live: seq<Entry>, g: seq<Entry>, addr: Word, isRead: bool)
    requires |g| == 3
    ensures TableGrants(live + g, addr, isRead) <==>
      || TableGrants(live, addr, isRead)
      || Grants(g[0], addr, isRead)
      || Grants(g[1], addr, isRead)
      || Grants(g[2], addr, isRead)
  {
    assert forall x :: x in live + g <==> x in live || x == g[0] || x == g[1] || x == g[2];
    assert g[0] in live + g && g[1] in live + g && g[2] in live + g;
  }

  /** A call opens exactly this: reading the target's read-only range, reading and writing its
      writable range and the sixteen pages below the caller's stack pointer, all rounded out to
      doublewords; and everything granted before stays granted. */
  lemma CallGrantsIff(s: State, e: Event, addr: Word, isRead: bool)
    requires ShapedState(s) && Coherent(s.cache) && Crosses(e) && WellFormed(e)
    ensures TableGrants(Enter(s, e.entry, e.target, e.regs, e.rands).cache.live, addr, isRead) <==>
      || TableGrants(s.cache.live, addr, isRead)
      || (isRead && Within(e.target.rStart, e.target.rEnd, addr))
      || Within(e.target.wStart, e.target.wEnd, addr)
      || StackWithin(e.regs.sp, addr)
  {
    GrantIs(s.cache, e.target, e.regs.sp, e.rands);
    GrantsThreeMore(s.cache.live, Granted(s.cache.next, e.target, e.regs.sp), addr, isRead);
    GrantedGrantsIff(s.cache.next, e.target, e.regs.sp, addr, isRead, Granted(s.cache.next, e.target, e.regs.sp));
  }

  /** In particular the callee may use its ranges and the caller's next sixteen pages of stack; the
      stack bound grants nothing from the stack pointer, rounded up to a doubleword, on. */
  lemma CallGrants(s: State, e: Event, addr: Word, isRead: bool)
    requires ShapedState(s) && Coherent(s.cache) && Crosses(e) && WellFormed(e)
    requires e.target.rEnd <= LAST_DOUBLEWORD && e.target.wEnd <= LAST_DOUBLEWORD && 0x1_0000 <= e.regs.sp <= LAST_DOUBLEWORD
    ensures isRead && e.target.rStart <= addr < e.target.rEnd ==>
      TableGrants(Enter(s, e.entry, e.target, e.regs, e.rands).cache.live, addr, isRead)
    ensures e.target.wStart <= addr < e.target.wEnd || e.regs.sp - 0x1_0000 <= addr < e.regs.sp ==>
      TableGrants(Enter(s, e.entry, e.target, e.regs, e.rands).cache.live, addr, isRead)
    ensures e.regs.sp + 7 <= addr ==> !Grants(Granted(s.cache.next, e.target, e.regs.sp)[2], addr, isRead)
  {
    CallGrantsIff(s, e, addr, isRead);
    GrantedGrantsIff(s.cache.next, e.target, e.regs.sp, addr, isRead, Granted(s.cache.next, e.target, e.regs.sp));
  }
}
