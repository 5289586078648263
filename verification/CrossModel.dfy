/** Calls into untrusted libraries and the returns from them, over values: a call takes a jump
    slot and three bounds and leaves a frame, a return gives back what its frame names. */
module CrossModel {
  import opened Machine
  import opened Words
  import opened Bounds
  import opened BoundModel
  import Jumps
  import BoundRuns
  import M = FuncMemModel

  /** The parts of a library's descriptor (umain_elf_t) that calls look at; addr is where the
      descriptor is, which is what makes two libraries the same. */
  datatype Library = Library(addr: Word, inMainArea: bool, base: Word, rStart: Word, rEnd: Word,
                             wStart: Word, wEnd: Word, pltStart: Word, textEnd: Word)

  /** What a call leaves for its return (struct cross). */
  datatype Frame = Frame(begin: Library, target: Library, ra: Word, handleNum: nat, jmpcfg: seq<int>, handle: seq<int>)

  /** The stack is listed from the top. */
  datatype State = State(cache: Model, jumps: seq<Jumps.JumpSlot>, stack: seq<Frame>)

  /** The registers of a trapped call or return (struct umaincall) that matter here. */
  datatype Registers = Registers(t1: Word, ra: Word, sp: Word)

  datatype Option<T> = None | Some(value: T)

  const STACK_PAGES: nat := 16
  const PAGE_SIZE: nat := 0x1000
  const MAX_DEPTH: nat := 4096

  /** sizeof(struct cross), the bytes init_cross_stack asks for, and the frames that fit in them. */
  const SIZEOF_CROSS: nat := 120
  const STACK_BYTES: nat := (SIZEOF_CROSS + 4 * LIBCFG_WIDTH) * MAX_DEPTH
  const CAPACITY: nat := STACK_BYTES / SIZEOF_CROSS

  predicate ShapedState(s: State) {
    |s.cache.slots| == LIBCFG_WIDTH && |s.jumps| == Jumps.JUMPCFG_WIDTH
  }

  // ---- calls

  predicate CrossesInto(entry: Library, target: Library) {
    entry.addr != target.addr && !target.inMainArea
  }

  function StackBase(sp: Word): Word { Reg(sp - STACK_PAGES * PAGE_SIZE) }

  /** The three bounds a call makes: the target's read-only range, its writable range, and the
      caller's next sixteen pages of stack. */
  function Grant(m: Model, target: Library, sp: Word, rands: seq<nat>): (m': Model)
    requires |m.slots| == LIBCFG_WIDTH && |rands| == 3
    ensures |m'.slots| == LIBCFG_WIDTH
  {
    var m1 := BoundModel.Alloc(m, LIBCFG_R | LIBCFG_V, target.rStart, target.rEnd, rands[0]);
    var m2 := BoundModel.Alloc(m1, LIBCFG_R | LIBCFG_W | LIBCFG_V, target.wStart, target.wEnd, rands[1]);
    BoundModel.Alloc(m2, LIBCFG_R | LIBCFG_W, StackBase(sp), Reg(StackBase(sp) + STACK_PAGES * PAGE_SIZE), rands[2])
  }

  /** The entries of those bounds, the first of them numbered n. */
  function Granted(n: int, target: Library, sp: Word): seq<Entry> {
    [Requested(n, LIBCFG_R | LIBCFG_V, target.rStart, target.rEnd),
     Requested(n + 1, LIBCFG_R | LIBCFG_W | LIBCFG_V, target.wStart, target.wEnd),
     Requested(n + 2, LIBCFG_R | LIBCFG_W, StackBase(sp), Reg(StackBase(sp) + STACK_PAGES * PAGE_SIZE))]
  }

  function CallFrame(entry: Library, target: Library, ra: Word, slot: int, n: int): Frame {
    Frame(entry, target, ra, 3, [slot, 0, 0, 0], [n, n + 1, n + 2] + seq(LIBCFG_WIDTH - 3, _ => 0))
  }

  /** cross_call for a call that crosses. */
  function Enter(s: State, entry: Library, target: Library, regs: Registers, rands: seq<nat>): State
    requires ShapedState(s) && |rands| == 3
  {
    var (jumps, slot) := Jumps.Allocated(s.jumps, target.pltStart, target.textEnd);
    State(Grant(s.cache, target, regs.sp, rands), jumps,
          [CallFrame(entry, target, regs.ra, slot, s.cache.next)] + s.stack)
  }

  // ---- returns

  /** Free the handles a frame names, but for zeros; none if one of them is not live. */
  function FreeHandles(m: Model, handles: seq<int>): Option<Model>
    decreases handles
  {
    if handles == [] then Some(m)
    else if handles[0] == 0 then FreeHandles(m, handles[1..])
    else if FreeCode(m, handles[0]) != 0 then None
    else FreeHandles(BoundModel.Free(m, handles[0]), handles[1..])
  }

  /** Free the jump slots a frame names, but for zeros; none if one of them is no slot. */
  function FreeJumps(jumps: seq<Jumps.JumpSlot>, slots: seq<int>): Option<seq<Jumps.JumpSlot>>
    decreases slots
  {
    if slots == [] then Some(jumps)
    else if slots[0] == 0 then FreeJumps(jumps, slots[1..])
    else
      var (jumps', code) := Jumps.Freed(jumps, slots[0]);
      if code != 0 then None else FreeJumps(jumps', slots[1..])
  }

  /** Free the bounds of the records in use; none if one of them is not live. */
  function FreeRecords(m: Model, records: seq<M.Record>): Option<Model>
    decreases records
  {
    if records == [] then Some(m)
    else if records[0].addr == 0 then FreeRecords(m, records[1..])
    else if FreeCode(m, records[0].handler) == -1 then None
    else FreeRecords(BoundModel.Free(m, records[0].handler), records[1..])
  }

  /** pop_cross; records are those of the target's namespace_func, empty if it is null. None if one
      of its assertions fails. */
  function Leave(s: State, records: seq<M.Record>): Option<State>
    requires s.stack != [] && s.stack[0].handleNum <= |s.stack[0].handle|
  {
    var frame := s.stack[0];
    var cache := FreeHandles(s.cache, frame.handle[..frame.handleNum]);
    var jumps := FreeJumps(s.jumps, frame.jmpcfg);
    if cache.None? || jumps.None? then None
    else
      var cache' := if frame.target.inMainArea then cache else FreeRecords(cache.value, records);
      if cache'.None? then None else Some(State(cache'.value, jumps.value, s.stack[1..]))
  }

  // ---- runs

  /** What happens: calls and returns, the allocations and frees of bounds that callers and callees
      make in between (malloc, realloc and free on a library's behalf among them), and loads and
      stores. */
  datatype Event =
    | Call(entry: Library, target: Library, dest: Word, regs: Registers, rands: seq<nat>)
    | Return(regs: Registers, records: seq<M.Record>)
    | Alloc(cfg: bv64, lo: Word, hi: Word, rand: nat)
    | Free(handle: int)
    | Access(addr: Word, isRead: bool, rand: nat)

  predicate Crosses(e: Event) { e.Call? && CrossesInto(e.entry, e.target) }

  predicate WellFormed(e: Event) { e.Call? ==> |e.rands| == 3 }

  /** The state an event leads to and, for a call or return, the registers it leaves. */
  datatype Outcome = Outcome(state: State, regs: Option<Registers>)

  /** One event: dasics_dynamic_call, dasics_dynamic_return, or one of the others. There is no
      outcome if the program aborts, or leaves the buffer the frames are kept in. */
  function Step(s: State, e: Event, gate: Word): Option<Outcome>
    requires ShapedState(s) && WellFormed(e)
  {
    match e
    case Call(entry, target, dest, regs, rands) =>
      if !CrossesInto(entry, target) then Some(Outcome(s, Some(regs.(t1 := dest))))
      else if |s.stack| >= CAPACITY then None
      else Some(Outcome(Enter(s, entry, target, regs, rands), Some(regs.(t1 := dest, ra := gate))))
    case Return(regs, records) =>
      if s.stack == [] || s.stack[0].handleNum > |s.stack[0].handle| then None
      else if Leave(s, records).None? then None
      else Some(Outcome(Leave(s, records).value, Some(regs.(t1 := s.stack[0].ra, ra := s.stack[0].ra))))
    case Alloc(cfg, lo, hi, rand) => Some(Outcome(s.(cache := BoundModel.Alloc(s.cache, cfg, lo, hi, rand)), None))
    case Free(handle) => Some(Outcome(s.(cache := BoundModel.Free(s.cache, handle)), None))
    case Access(addr, isRead, rand) =>
      Some(Outcome(s.(cache := BoundRuns.Access(s.cache, addr, isRead, rand).0), None))
  }

  /** The state after a run, if the program is still going. */
  function Run(s: State, events: seq<Event>, gate: Word): (r: Option<State>)
    requires ShapedState(s) && forall e :: e in events ==> WellFormed(e)
    ensures r.Some? ==> ShapedState(r.value)
    decreases |events|
  {
    if events == [] then Some(s)
    else
      var before := Run(s, events[..|events| - 1], gate);
      if before.None? then None
      else
        var e := events[|events| - 1];
        StepShaped(before.value, e, gate);
        match Step(before.value, e, gate) case None => None case Some(outcome) => Some(outcome.state)
  }

  lemma StepShaped(s: State, e: Event, gate: Word)
    requires ShapedState(s) && WellFormed(e)
    ensures Step(s, e, gate).Some? ==> ShapedState(Step(s, e, gate).value.state)
  {
    if e.Return? && s.stack != [] && s.stack[0].handleNum <= |s.stack[0].handle| {
      LeaveShaped(s, e.records);
    }
  }

  lemma LeaveShaped(s: State, records: seq<M.Record>)
    requires ShapedState(s) && s.stack != [] && s.stack[0].handleNum <= |s.stack[0].handle|
    ensures Leave(s, records).Some? ==> ShapedState(Leave(s, records).value)
  {
    var handles := s.stack[0].handle[..s.stack[0].handleNum];
    FreeHandlesShaped(s.cache, handles);
    FreeJumpsShaped(s.jumps, s.stack[0].jmpcfg);
    if FreeHandles(s.cache, handles).Some? {
      FreeRecordsShaped(FreeHandles(s.cache, handles).value, records);
    }
  }

  lemma {:induction false} FreeHandlesShaped(m: Model, handles: seq<int>)
    ensures FreeHandles(m, handles).Some? ==> |FreeHandles(m, handles).value.slots| == |m.slots|
    decreases handles
  {
    if handles != [] {
      FreeHandlesShaped(m, handles[1..]);
      FreeHandlesShaped(BoundModel.Free(m, handles[0]), handles[1..]);
    }
  }

  lemma {:induction false} FreeRecordsShaped(m: Model, records: seq<M.Record>)
    ensures FreeRecords(m, records).Some? ==> |FreeRecords(m, records).value.slots| == |m.slots|
    decreases records
  {
    if records != [] {
      FreeRecordsShaped(m, records[1..]);
      FreeRecordsShaped(BoundModel.Free(m, records[0].handler), records[1..]);
    }
  }

  lemma {:induction false} FreeJumpsShaped(jumps: seq<Jumps.JumpSlot>, slots: seq<int>)
    ensures FreeJumps(jumps, slots).Some? ==> |FreeJumps(jumps, slots).value| == |jumps|
    decreases slots
  {
    if slots != [] {
      FreeJumpsShaped(jumps, slots[1..]);
      FreeJumpsShaped(Jumps.Freed(jumps, slots[0]).0, slots[1..]);
    }
  }
}
