/** Calls into untrusted libraries as the library keeps them: frames in a buffer below a moving
    stack pointer, in step with the bound-register cache and the jump bounds. */
module Cross {
  import opened Machine
  import opened Words
  import opened BoundModel
  import opened CrossModel
  import Jumps
  import M = FuncMemModel
  import opened Nodes
  import opened Udasics

  /** struct umaincall, as far as calls and returns change it */
  class CallContext {
    var t1: Word
    var ra: Word
    var sp: Word

    constructor (regs: Registers)
      ensures Regs() == regs
    {
      t1, ra, sp := regs.t1, regs.ra, regs.sp;
    }

    function Regs(): Registers
      reads this
    {
      Registers(t1, ra, sp)
    }
  }

  /** What is left of the buffer below the last frame that fits. */
  const SPARE: nat := STACK_BYTES - CAPACITY * SIZEOF_CROSS

  class CrossCalls {
    const lib: LibBounds
    const jump: Jumps.JumpBounds
    const frames: array<Frame>
    const crossStackBase: Word
    const gate: Word
    var crossStack: int

    /** init_cross_stack; base is what malloc returned, and a frame is whatever was there. */
    constructor (lib0: LibBounds, jump0: Jumps.JumpBounds, base: Word, umaincall: Word, was: Frame)
      requires lib0.Valid() && jump0.Valid() && base != 0 && base + STACK_BYTES <= WORD
      requires (jump0.csrLo as object) !in {lib0.handleMap as object, lib0.csrLo, lib0.csrHi, lib0.table.buckets}
      requires (jump0.csrHi as object) !in {lib0.handleMap as object, lib0.csrLo, lib0.csrHi, lib0.table.buckets}
      ensures Valid() && lib == lib0 && jump == jump0 && gate == umaincall && fresh(frames)
      ensures Abs() == State(lib0.Abs(), jump0.Abs(), [])
    {
      lib, jump, crossStackBase, gate := lib0, jump0, base, umaincall;
      frames := new Frame[CAPACITY](_ => was);
      crossStack := base + STACK_BYTES;
    }

    /** The index of the frame the stack pointer points at. */
    ghost function Top(): int
      reads this
    {
      (crossStack - crossStackBase - SPARE) / SIZEOF_CROSS
    }

    ghost predicate StackOk()
      reads this
    {
      && frames.Length == CAPACITY && 0 <= Top() <= CAPACITY
      && crossStack == crossStackBase + SPARE + Top() * SIZEOF_CROSS
    }

    ghost predicate Separate()
      reads this, lib, lib.table
    {
      && (jump.csrLo as object) !in {lib.handleMap as object, lib.csrLo, lib.csrHi, lib.table.buckets}
      && (jump.csrHi as object) !in {lib.handleMap as object, lib.csrLo, lib.csrHi, lib.table.buckets}
      && (frames as object) !in {lib.handleMap as object, lib.csrLo, lib.csrHi, lib.table.buckets, jump.csrLo, jump.csrHi}
    }

    ghost predicate Valid()
      reads this, lib, lib.handleMap, lib.csrLo, lib.csrHi, lib.table, lib.table.buckets, lib.table.Items
    {
      lib.Valid() && jump.Valid() && StackOk() && Separate()
    }

    ghost function Stack(): seq<Frame>
      requires StackOk()
      reads this, frames
    {
      frames[Top()..]
    }

    ghost function Abs(): State
      requires lib.Shaped() && jump.Valid() && StackOk()
      reads this, frames, lib, lib.handleMap, lib.csrLo, lib.csrHi, lib.table`Items, jump, jump.csrLo, jump.csrHi
    {
      State(lib.Abs(), jump.Abs(), Stack())
    }

    /** Writing a register of the trapped context leaves everything else alone. */
    method SetT1(ctx: CallContext, t1: Word)
      requires Valid()
      modifies ctx`t1
      ensures Valid() && Abs() == old(Abs()) && ctx.Regs() == old(ctx.Regs()).(t1 := t1)
    {
      ctx.t1 := t1;
    }

    method SetRa(ctx: CallContext, ra: Word)
      requires Valid()
      modifies ctx`ra
      ensures Valid() && Abs() == old(Abs()) && ctx.Regs() == old(ctx.Regs()).(ra := ra)
    {
      ctx.ra := ra;
    }

    // push_cross
    method PushCross(f: Frame)
      requires StackOk() && |Stack()| < CAPACITY
      modifies this`crossStack, frames
      ensures StackOk() && Stack() == [f] + old(Stack())
    {
      ghost var top := Top();
      crossStack := crossStack - SIZEOF_CROSS;
      assert crossStack == crossStackBase + SPARE + (top - 1) * SIZEOF_CROSS;
      var i := (crossStack - crossStackBase - SPARE) / SIZEOF_CROSS;
      assert i == top - 1;
      frames[i] := f;
    }

    method PushFrame(f: Frame)
      requires Valid() && |Stack()| < CAPACITY
      modifies this`crossStack, frames
      ensures Valid() && Abs() == old(Abs()).(stack := [f] + old(Stack()))
    {
      PushCross(f);
    }

    /** The frame on top. */
    method TopFrame() returns (f: Frame)
      requires StackOk() && Stack() != []
      ensures f == Stack()[0]
    {
      f := frames[(crossStack - crossStackBase - SPARE) / SIZEOF_CROSS];
    }

    method DropFrame()
      requires StackOk() && Stack() != []
      modifies this`crossStack
      ensures StackOk() && Stack() == old(Stack())[1..]
    {
      ghost var top := Top();
      crossStack := crossStack + SIZEOF_CROSS;
      assert crossStack == crossStackBase + SPARE + (top + 1) * SIZEOF_CROSS;
      assert Top() == top + 1;
    }

    lemma ThreeBounds(m: Model, m1: Model, m2: Model, target: Library, sp: Word, rands: seq<nat>)
      requires |m.slots| == |m1.slots| == |m2.slots| == LIBCFG_WIDTH && |rands| == 3
      requires m1 == BoundModel.Alloc(m, LIBCFG_R | LIBCFG_V, target.rStart, target.rEnd, rands[0])
      requires m2 == BoundModel.Alloc(m1, LIBCFG_R | LIBCFG_W | LIBCFG_V, target.wStart, target.wEnd, rands[1])
      ensures Grant(m, target, sp, rands) ==
        BoundModel.Alloc(m2, LIBCFG_R | LIBCFG_W, StackBase(sp), Reg(StackBase(sp) + STACK_PAGES * PAGE_SIZE), rands[2])
    {}

    /** Two bounds, one after the other. */
    method AllocTwo(cfg1: bv64, lo1: Word, hi1: Word, rand1: nat, cfg2: bv64, lo2: Word, hi2: Word, rand2: nat)
      returns (handle: int, ghost m1: Model)
      requires lib.Valid()
      modifies lib, lib.handleMap, lib.csrLo, lib.csrHi, lib.table, lib.table.buckets, lib.table.Items
      ensures lib.Valid() && (lib.table.buckets == old(lib.table.buckets) || fresh(lib.table.buckets))
      ensures forall k :: 0 <= k < |lib.table.Items| ==>
        lib.table.Items[k] in old(lib.table.Items) || fresh(lib.table.Items[k])
      ensures m1 == BoundModel.Alloc(old(lib.Abs()), cfg1, lo1, hi1, rand1)
      ensures lib.Abs() == BoundModel.Alloc(m1, cfg2, lo2, hi2, rand2) && handle == old(lib.Abs()).next
    {
      handle := lib.Alloc(cfg1, lo1, hi1, rand1);
      m1 := lib.Abs();
      var _ := lib.Alloc(cfg2, lo2, hi2, rand2);
    }

    /** The bound for the stack below the caller. */
    method GrantStack(sp: Word, rand: nat)
      requires lib.Valid()
      modifies lib, lib.handleMap, lib.csrLo, lib.csrHi, lib.table, lib.table.buckets, lib.table.Items
      ensures lib.Valid() && (lib.table.buckets == old(lib.table.buckets) || fresh(lib.table.buckets))
      ensures lib.Abs() == BoundModel.Alloc(old(lib.Abs()), LIBCFG_R | LIBCFG_W, StackBase(sp),
                                 Reg(StackBase(sp) + STACK_PAGES * PAGE_SIZE), rand)
    {
      var base := StackBase(sp);
      var _ := lib.Alloc(LIBCFG_R | LIBCFG_W, base, Reg(base + STACK_PAGES * PAGE_SIZE), rand);
    }

    // the bounds cross_call makes
    method GrantBounds(target: Library, sp: Word, rands: seq<nat>) returns (handle: int)
      requires lib.Valid() && |rands| == 3
      modifies lib, lib.handleMap, lib.csrLo, lib.csrHi, lib.table, lib.table.buckets, lib.table.Items
      ensures lib.Valid() && (lib.table.buckets == old(lib.table.buckets) || fresh(lib.table.buckets))
      ensures lib.Abs() == Grant(old(lib.Abs()), target, sp, rands) && handle == old(lib.Abs()).next
    {
      ghost var m, m1 := lib.Abs(), lib.Abs();
      handle, m1 := AllocTwo(LIBCFG_R | LIBCFG_V, target.rStart, target.rEnd, rands[0],
                             LIBCFG_R | LIBCFG_W | LIBCFG_V, target.wStart, target.wEnd, rands[1]);
      ThreeBounds(m, m1, lib.Abs(), target, sp, rands);
      GrantStack(sp, rands[2]);
    }

    method TakeJump(lo: Word, hi: Word) returns (slot: int)
      requires lib.Valid() && jump.Valid() && Separate()
      modifies jump, jump.csrLo, jump.csrHi
      ensures lib.Valid() && Separate() && frames[..] == old(frames[..]) && lib.Abs() == old(lib.Abs())
      ensures (jump.Abs(), slot) == Jumps.Allocated(old(jump.Abs()), lo, hi)
    {
      slot := jump.Alloc(lo, hi);
    }

    /** The jump slot and the bounds of a call. */
    method Take(target: Library, sp: Word, rands: seq<nat>) returns (slot: int, n: int)
      requires lib.Valid() && jump.Valid() && Separate() && |rands| == 3
      modifies jump, jump.csrLo, jump.csrHi
      modifies lib, lib.handleMap, lib.csrLo, lib.csrHi, lib.table, lib.table.buckets, lib.table.Items
      ensures lib.Valid() && Separate() && frames[..] == old(frames[..])
      ensures lib.Abs() == Grant(old(lib.Abs()), target, sp, rands) && n == old(lib.Abs()).next
      ensures (jump.Abs(), slot) == Jumps.Allocated(old(jump.Abs()), target.pltStart, target.textEnd)
    {
      slot := TakeJump(target.pltStart, target.textEnd);
      n := GrantBounds(target, sp, rands);
    }

    /** cross_call, once it is known to cross: its effect on everything but the registers. */
    method EnterTarget(entry: Library, target: Library, regs: Registers, rands: seq<nat>)
      requires Valid() && |rands| == 3 && |Stack()| < CAPACITY
      modifies this`crossStack, frames, jump, jump.csrLo, jump.csrHi
      modifies lib, lib.handleMap, lib.csrLo, lib.csrHi, lib.table, lib.table.buckets, lib.table.Items
      ensures Valid() && Abs() == Enter(old(Abs()), entry, target, regs, rands)
    {
      var slot, n := Take(target, regs.sp, rands);
      PushFrame(CallFrame(entry, target, regs.ra, slot, n));
    }

    // cross_call
    method CrossCall(entry: Library, target: Library, ctx: CallContext, rands: seq<nat>)
      requires Valid() && |rands| == 3 && (CrossesInto(entry, target) ==> |Stack()| < CAPACITY)
      modifies this`crossStack, frames, ctx`ra, jump, jump.csrLo, jump.csrHi
      modifies lib, lib.handleMap, lib.csrLo, lib.csrHi, lib.table, lib.table.buckets, lib.table.Items
      ensures Valid()
      ensures if CrossesInto(entry, target)
        then Abs() == Enter(old(Abs()), entry, target, old(ctx.Regs()), rands) && ctx.Regs() == old(ctx.Regs()).(ra := gate)
        else Abs() == old(Abs()) && ctx.Regs() == old(ctx.Regs())
    {
      if entry.addr != target.addr && !target.inMainArea {
        EnterTarget(entry, target, ctx.Regs(), rands);
        SetRa(ctx, gate);
      }
    }

    lemma StepCall(s: State, e: Event)
      requires ShapedState(s) && e.Call? && |e.rands| == 3
      requires Crosses(e) ==> |s.stack| < CAPACITY
      ensures Step(s, e, gate) == Some(if Crosses(e)
        then Outcome(Enter(s, e.entry, e.target, e.regs, e.rands), Some(e.regs.(t1 := e.dest, ra := gate)))
        else Outcome(s, Some(e.regs.(t1 := e.dest))))
    {}

    /** dasics_dynamic_call, once any redirection is decided. */
    method CallTo(entry: Library, target: Library, dest: Word, ctx: CallContext, rands: seq<nat>)
      requires Valid() && |rands| == 3 && (CrossesInto(entry, target) ==> |Stack()| < CAPACITY)
      modifies this`crossStack, frames, ctx`t1, ctx`ra, jump, jump.csrLo, jump.csrHi
      modifies lib, lib.handleMap, lib.csrLo, lib.csrHi, lib.table, lib.table.buckets, lib.table.Items
      ensures Valid()
      ensures Step(old(Abs()), Call(entry, target, dest, old(ctx.Regs()), rands), gate) ==
        Some(Outcome(Abs(), Some(ctx.Regs())))
    {
      StepCall(Abs(), Call(entry, target, dest, ctx.Regs(), rands));
      SetT1(ctx, dest);
      CrossCall(entry, target, ctx, rands);
    }

    // dasics_dynamic_call
    method DynamicCall(entry: Library, target: Library, dest: Word, redirect: bool, copy: Library, ctx: CallContext,
                       rands: seq<nat>) returns (ghost called: Event)
      requires Valid() && |rands| == 3
      requires CrossesInto(entry, if redirect then copy else target) ==> |Stack()| < CAPACITY
      modifies this`crossStack, frames, ctx`t1, ctx`ra, jump, jump.csrLo, jump.csrHi
      modifies lib, lib.handleMap, lib.csrLo, lib.csrHi, lib.table, lib.table.buckets, lib.table.Items
      ensures called == if redirect
        then Call(entry, copy, Reg(dest - target.base + copy.base), old(ctx.Regs()), rands)
        else Call(entry, target, dest, old(ctx.Regs()), rands)
      ensures Valid() && Step(old(Abs()), called, gate) == Some(Outcome(Abs(), Some(ctx.Regs())))
    {
      var dest', target' := dest, target;
      if redirect {
        dest' := Reg(dest - target.base + copy.base);
        target' := copy;
      }
      called := Call(entry, target', dest', ctx.Regs(), rands);
      CallTo(entry, target', dest', ctx, rands);
    }

    /** Free the handles a frame names; false if an assertion fails. */
    method FreeFrameHandles(f: Frame) returns (ok: bool)
      requires lib.Valid() && f.handleNum <= |f.handle|
      modifies lib`libcfg, lib.handleMap, lib.table, lib.table.buckets, lib.table.Items
      ensures lib.Valid() && lib.table.buckets == old(lib.table.buckets)
      ensures FreeHandles(old(lib.Abs()), f.handle[..f.handleNum]) == if ok then Some(lib.Abs()) else None
      ensures Within(lib.table.Items, old(lib.table.Items))
    {
      var i := 0;
      ghost var handles := f.handle[..f.handleNum];
      while i < f.handleNum
        invariant 0 <= i <= f.handleNum
        invariant lib.Valid() && lib.table.buckets == old(lib.table.buckets)
        invariant FreeHandles(lib.Abs(), handles[i..]) == FreeHandles(old(lib.Abs()), handles)
        invariant Within(lib.table.Items, old(lib.table.Items))
      {
        assert handles[i..][1..] == handles[i + 1..];
        if f.handle[i] != 0 {
          var code := lib.Free(f.handle[i]);
          if code != 0 {
            return false;
          }
        }
        i := i + 1;
      }
      return true;
    }

    /** Free the jump slots a frame names; false if an assertion fails. */
    method FreeFrameJumps(f: Frame) returns (ok: bool)
      requires jump.Valid() && |f.jmpcfg| == Jumps.JUMPCFG_WIDTH
      modifies jump`jumpcfg
      ensures FreeJumps(old(jump.Abs()), f.jmpcfg) == if ok then Some(jump.Abs()) else None
    {
      var i := 0;
      while i < Jumps.JUMPCFG_WIDTH
        invariant 0 <= i <= Jumps.JUMPCFG_WIDTH
        invariant FreeJumps(jump.Abs(), f.jmpcfg[i..]) == FreeJumps(old(jump.Abs()), f.jmpcfg)
      {
        assert f.jmpcfg[i..][1..] == f.jmpcfg[i + 1..];
        if f.jmpcfg[i] != 0 {
          var code := jump.Free(f.jmpcfg[i]);
          if code != 0 {
            return false;
          }
        }
        i := i + 1;
      }
      return true;
    }

    /** Free the bounds of the records in use; false if an assertion fails. */
    method FreeTargetRecords(records: seq<M.Record>) returns (ok: bool)
      requires lib.Valid()
      modifies lib`libcfg, lib.handleMap, lib.table, lib.table.buckets, lib.table.Items
      ensures lib.Valid() && lib.table.buckets == old(lib.table.buckets)
      ensures FreeRecords(old(lib.Abs()), records) == if ok then Some(lib.Abs()) else None
    {
      var i := 0;
      while i < |records|
        invariant 0 <= i <= |records|
        invariant lib.Valid() && lib.table.buckets == old(lib.table.buckets)
        invariant FreeRecords(lib.Abs(), records[i..]) == FreeRecords(old(lib.Abs()), records)
        invariant Within(lib.table.Items, old(lib.table.Items))
      {
        assert records[i..][1..] == records[i + 1..];
        if records[i].addr != 0 {
          var code := lib.Free(records[i].handler);
          if code == -1 {
            return false;
          }
        }
        i := i + 1;
      }
      return true;
    }

    /** The frame's bounds and jump slots, while it is still in place. */
    method GiveBack(f: Frame) returns (ok: bool)
      requires Valid() && f.handleNum <= |f.handle| && |f.jmpcfg| == Jumps.JUMPCFG_WIDTH
      modifies jump`jumpcfg, lib`libcfg, lib.handleMap, lib.table, lib.table.buckets, lib.table.Items
      ensures Valid() && frames[..] == old(frames[..]) && lib.table.buckets == old(lib.table.buckets)
      ensures var m, jumps := FreeHandles(old(lib.Abs()), f.handle[..f.handleNum]), FreeJumps(old(jump.Abs()), f.jmpcfg);
        if ok then m == Some(lib.Abs()) && jumps == Some(jump.Abs()) else m.None? || jumps.None?
      ensures Within(lib.table.Items, old(lib.table.Items))
    {
      ok := FreeFrameHandles(f);
      if ok {
        ok := FreeFrameJumps(f);
      }
    }

    /** The target's records, unless it is trusted. */
    method GiveBackRecords(f: Frame, records: seq<M.Record>) returns (ok: bool)
      requires Valid()
      modifies lib`libcfg, lib.handleMap, lib.table, lib.table.buckets, lib.table.Items
      ensures Valid() && frames[..] == old(frames[..]) && jump.Abs() == old(jump.Abs())
      ensures (if f.target.inMainArea then Some(old(lib.Abs())) else FreeRecords(old(lib.Abs()), records)) ==
        if ok then Some(lib.Abs()) else None
    {
      ok := true;
      if !f.target.inMainArea {
        ok := FreeTargetRecords(records);
      }
    }

    /** All that a return frees. */
    method GiveBackAll(f: Frame, records: seq<M.Record>) returns (ok: bool)
      requires Valid() && Stack() != [] && f == Stack()[0] && f.handleNum <= |f.handle| && |f.jmpcfg| == Jumps.JUMPCFG_WIDTH
      modifies jump`jumpcfg, lib`libcfg, lib.handleMap, lib.table, lib.table.buckets, lib.table.Items
      ensures Valid() && frames[..] == old(frames[..])
      ensures Leave(old(Abs()), records) == if ok then Some(State(lib.Abs(), jump.Abs(), old(Stack())[1..])) else None
    {
      ok := GiveBack(f);
      if ok {
        ok := GiveBackRecords(f, records);
      }
    }

    /** pop_cross, its effect on everything but the registers. */
    method PopFrame(records: seq<M.Record>) returns (ok: bool, ra: Word)
      requires Valid() && Stack() != [] && Stack()[0].handleNum <= |Stack()[0].handle|
      requires |Stack()[0].jmpcfg| == Jumps.JUMPCFG_WIDTH
      modifies this`crossStack, jump`jumpcfg, lib`libcfg, lib.handleMap, lib.table, lib.table.buckets, lib.table.Items
      ensures Valid() && Leave(old(Abs()), records) == (if ok then Some(Abs()) else None) && ra == old(Stack())[0].ra
    {
      var f := TopFrame();
      ra := f.ra;
      ok := GiveBackAll(f, records);
      if ok {
        DropFrame();
      }
    }

    /** pop_cross; records are those of the target's namespace_func, none if it is null. */
    method PopCross(ctx: CallContext, records: seq<M.Record>) returns (ok: bool)
      requires Valid() && Stack() != [] && Stack()[0].handleNum <= |Stack()[0].handle|
      requires |Stack()[0].jmpcfg| == Jumps.JUMPCFG_WIDTH
      modifies this`crossStack, ctx`ra, jump`jumpcfg
      modifies lib`libcfg, lib.handleMap, lib.table, lib.table.buckets, lib.table.Items
      ensures Valid() && Leave(old(Abs()), records) == if ok then Some(Abs()) else None
      ensures ctx.Regs() == old(ctx.Regs()).(ra := old(Stack())[0].ra)
    {
      var ra;
      ok, ra := PopFrame(records);
      SetRa(ctx, ra);
    }

    // dasics_dynamic_return
    method DynamicReturn(ctx: CallContext, records: seq<M.Record>) returns (ok: bool)
      requires Valid() && Stack() != [] && Stack()[0].handleNum <= |Stack()[0].handle|
      requires |Stack()[0].jmpcfg| == Jumps.JUMPCFG_WIDTH
      modifies this`crossStack, ctx`ra, ctx`t1, jump`jumpcfg
      modifies lib`libcfg, lib.handleMap, lib.table, lib.table.buckets, lib.table.Items
      ensures Valid()
      ensures Step(old(Abs()), Return(old(ctx.Regs()), records), gate) ==
        if ok then Some(Outcome(Abs(), Some(ctx.Regs()))) else None
    {
      ok := PopCross(ctx, records);
      SetT1(ctx, ctx.ra);
    }
  }
}
