/** The four jump bounds: the packed word DasicsJumpCfg with its 16-bit fields, the boundary
    registers, and their allocation. */
module Jumps {
  import opened Machine

  const JUMPCFG_WIDTH: nat := 4
  const JUMPCFG_MASK: bv64 := 0xffff
  const JUMPCFG_V: bv64 := 0x1

  // ---- the packed word

  /** idx * step, the shift that selects slot idx of the jump word. */
  function Shift(idx: nat): (s: bv64)
    requires idx < JUMPCFG_WIDTH
    ensures Lane(s)
  {
    match idx case 0 => 0 case 1 => 16 case 2 => 32 case _ => 48
  }

  lemma ShiftIs(idx: nat)
    requires idx < JUMPCFG_WIDTH
    ensures Shift(idx) as nat == 16 * idx
  {}

  predicate Lane(s: bv64) { s & 15 == 0 && s < 64 }

  function At(cfg: bv64, s: bv64): bv64
    requires s < 64
  {
    (cfg >> s) & JUMPCFG_MASK
  }

  predicate IsValid(field: bv64) { field & JUMPCFG_V != 0 }

  function Field(cfg: bv64, idx: nat): bv64
    requires idx < JUMPCFG_WIDTH
  {
    At(cfg, Shift(idx))
  }

  /** The four fields of the jump word. */
  function Fields(cfg: bv64): (r: seq<bv64>)
    ensures |r| == JUMPCFG_WIDTH
  {
    seq(JUMPCFG_WIDTH, i requires 0 <= i < JUMPCFG_WIDTH => Field(cfg, i))
  }

  lemma AtOr(x: bv64, y: bv64, t: bv64)
    requires Lane(t)
    ensures At(x | y, t) == At(x, t) | At(y, t)
  {}

  lemma MaskHole(s: bv64, t: bv64)
    requires Lane(s) && Lane(t)
    ensures At(!(JUMPCFG_MASK << s), t) == if s == t then 0 else JUMPCFG_MASK
  {}

  lemma VHole(s: bv64, t: bv64)
    requires Lane(s) && Lane(t)
    ensures At(!(JUMPCFG_V << s), t) == if s == t then JUMPCFG_MASK & !JUMPCFG_V else JUMPCFG_MASK
  {}

  lemma AtV(s: bv64, t: bv64)
    requires Lane(s) && Lane(t)
    ensures At(JUMPCFG_V << s, t) == if s == t then JUMPCFG_V else 0
  {}

  lemma ShiftInjective(i: nat, j: nat)
    requires i < JUMPCFG_WIDTH && j < JUMPCFG_WIDTH && i != j
    ensures Shift(i) != Shift(j)
  {}

  lemma KeptAt(cfg: bv64, hole: bv64, t: bv64)
    requires Lane(t) && At(hole, t) == JUMPCFG_MASK
    ensures At(cfg & hole, t) == At(cfg, t)
  {}

  lemma EmptiedAt(cfg: bv64, hole: bv64, t: bv64)
    requires Lane(t) && At(hole, t) == 0
    ensures At(cfg & hole, t) == 0
  {}

  lemma InvalidAt(cfg: bv64, hole: bv64, t: bv64)
    requires Lane(t) && At(hole, t) == JUMPCFG_MASK & !JUMPCFG_V
    ensures !IsValid(At(cfg & hole, t))
  {}

  lemma MergedAt(x: bv64, y: bv64, t: bv64)
    requires Lane(t)
    ensures At(x, t) == 0 ==> At(x | y, t) == At(y, t)
    ensures At(y, t) == 0 ==> At(x | y, t) == At(x, t)
  {
    AtOr(x, y, t);
  }

  lemma TakenAt(cfg: bv64, hole: bv64, s: bv64, t: bv64)
    requires Lane(s) && Lane(t) && hole == !(JUMPCFG_MASK << s)
    ensures At((cfg & hole) | (JUMPCFG_V << s), t) == if s == t then JUMPCFG_V else At(cfg, t)
  {
    MaskHole(s, t);
    AtV(s, t);
    if s == t {
      EmptiedAt(cfg, hole, t);
    } else {
      KeptAt(cfg, hole, t);
    }
    MergedAt(cfg & hole, JUMPCFG_V << s, t);
  }

  lemma ClearedAt(cfg: bv64, hole: bv64, s: bv64, t: bv64)
    requires Lane(s) && Lane(t) && hole == !(JUMPCFG_V << s)
    ensures s == t ==> !IsValid(At(cfg & hole, t))
    ensures s != t ==> At(cfg & hole, t) == At(cfg, t)
  {
    VHole(s, t);
    if s == t {
      InvalidAt(cfg, hole, t);
    } else {
      KeptAt(cfg, hole, t);
    }
  }

  method TakeAt(cfg: bv64, s: bv64) returns (cfg': bv64)
    requires Lane(s)
    ensures forall t :: Lane(t) ==> At(cfg', t) == if t == s then JUMPCFG_V else At(cfg, t)
  {
    cfg' := (cfg & !(JUMPCFG_MASK << s)) | (JUMPCFG_V << s);
    forall t | Lane(t) ensures At(cfg', t) == if t == s then JUMPCFG_V else At(cfg, t) {
      TakenAt(cfg, !(JUMPCFG_MASK << s), s, t);
    }
  }

  method ClearAt(cfg: bv64, s: bv64) returns (cfg': bv64)
    requires Lane(s)
    ensures forall t :: Lane(t) ==> if t == s then !IsValid(At(cfg', t)) else At(cfg', t) == At(cfg, t)
  {
    var hole := !(JUMPCFG_V << s);
    cfg' := cfg & hole;
    forall t | Lane(t) ensures if t == s then !IsValid(At(cfg', t)) else At(cfg', t) == At(cfg, t) {
      ClearedAt(cfg, hole, s, t);
    }
  }

  /** Taking a slot sets its field to V and leaves the three others alone. */
  method Take(cfg: bv64, idx: nat) returns (cfg': bv64)
    requires idx < JUMPCFG_WIDTH
    ensures Fields(cfg') == Fields(cfg)[idx := JUMPCFG_V]
  {
    cfg' := TakeAt(cfg, Shift(idx));
    forall j | 0 <= j < JUMPCFG_WIDTH && j != idx ensures Field(cfg', j) == Field(cfg, j) {
      ShiftInjective(idx, j);
    }
  }

  /** Clearing a slot's V bit invalidates it and leaves the three others alone. */
  method Clear(cfg: bv64, idx: nat) returns (cfg': bv64)
    requires idx < JUMPCFG_WIDTH
    ensures !IsValid(Fields(cfg')[idx])
    ensures forall j :: 0 <= j < JUMPCFG_WIDTH && j != idx ==> Fields(cfg')[j] == Fields(cfg)[j]
  {
    cfg' := ClearAt(cfg, Shift(idx));
    forall j | 0 <= j < JUMPCFG_WIDTH && j != idx ensures Field(cfg', j) == Field(cfg, j) {
      ShiftInjective(idx, j);
    }
  }

  // ---- the slots

  datatype JumpSlot = Idle | Busy(lo: Word, hi: Word)

  /** What slot registers with these contents hold. */
  function Slots(fields: seq<bv64>, los: seq<Word>, his: seq<Word>): (r: seq<JumpSlot>)
    requires |fields| == |los| == |his|
  {
    seq(|fields|, i requires 0 <= i < |fields| => if IsValid(fields[i]) then Busy(los[i], his[i]) else Idle)
  }

  /** The first idle slot, or past the end. */
  function FirstIdle(slots: seq<JumpSlot>): (i: nat)
    ensures i <= |slots|
    ensures i < |slots| ==> slots[i].Idle?
    ensures forall j :: 0 <= j < i ==> slots[j].Busy?
  {
    if slots == [] || slots[0].Idle? then 0 else 1 + FirstIdle(slots[1..])
  }

  lemma {:induction false} FirstIdleIs(slots: seq<JumpSlot>, k: nat)
    requires k <= |slots| && (forall j :: 0 <= j < k ==> slots[j].Busy?) && (k < |slots| ==> slots[k].Idle?)
    ensures FirstIdle(slots) == k
  {
    if k > 0 {
      FirstIdleIs(slots[1..], k - 1);
    }
  }

  /** dasics_jumpcfg_alloc: the slots after it, and what it returns. */
  function Allocated(slots: seq<JumpSlot>, lo: Word, hi: Word): (seq<JumpSlot>, int) {
    var i: int := FirstIdle(slots);
    if i < |slots| then (slots[i := Busy(lo, hi)], i) else (slots, -1)
  }

  /** dasics_jumpcfg_free */
  function Freed(slots: seq<JumpSlot>, idx: int): (seq<JumpSlot>, int) {
    if idx < 0 || idx >= |slots| then (slots, -1) else (slots[idx := Idle], 0)
  }

  class JumpBounds {
    const csrLo: array<Word>
    const csrHi: array<Word>
    var jumpcfg: bv64

    /** The registers as the operating system left them. */
    constructor (cfg: bv64, los: seq<Word>, his: seq<Word>)
      requires |los| == |his| == JUMPCFG_WIDTH
      ensures Valid() && fresh(csrLo) && fresh(csrHi)
      ensures Abs() == Slots(Fields(cfg), los, his)
    {
      csrLo := new Word[JUMPCFG_WIDTH](i requires 0 <= i < JUMPCFG_WIDTH => los[i]);
      csrHi := new Word[JUMPCFG_WIDTH](i requires 0 <= i < JUMPCFG_WIDTH => his[i]);
      jumpcfg := cfg;
      new;
      assert csrLo[..] == los && csrHi[..] == his;
    }

    ghost predicate Valid() { csrLo != csrHi && csrLo.Length == csrHi.Length == JUMPCFG_WIDTH }

    ghost function Abs(): (r: seq<JumpSlot>)
      requires Valid()
      reads this, csrLo, csrHi
      ensures |r| == JUMPCFG_WIDTH
    {
      Slots(Fields(jumpcfg), csrLo[..], csrHi[..])
    }

    /** Write one slot's boundary registers and its field. */
    method WriteSlot(idx: nat, lo: Word, hi: Word)
      requires Valid() && idx < JUMPCFG_WIDTH
      modifies this, csrLo, csrHi
      ensures Abs() == old(Abs())[idx := Busy(lo, hi)]
      ensures csrLo[..] == old(csrLo[..])[idx := lo] && csrHi[..] == old(csrHi[..])[idx := hi]
      ensures Fields(jumpcfg) == Fields(old(jumpcfg))[idx := JUMPCFG_V]
    {
      csrLo[idx] := lo;
      csrHi[idx] := hi;
      jumpcfg := Take(jumpcfg, idx);
    }

    // dasics_jumpcfg_alloc
    method Alloc(lo: Word, hi: Word) returns (idx: int)
      requires Valid()
      modifies this, csrLo, csrHi
      ensures (Abs(), idx) == Allocated(old(Abs()), lo, hi)
    {
      idx := 0;
      while idx < JUMPCFG_WIDTH
        invariant 0 <= idx <= JUMPCFG_WIDTH
        invariant Abs() == old(Abs()) && forall j :: 0 <= j < idx ==> Abs()[j].Busy?
      {
        assert Fields(jumpcfg)[idx] == Field(jumpcfg, idx);
        if !IsValid(Field(jumpcfg, idx)) {
          FirstIdleIs(Abs(), idx);
          WriteSlot(idx, lo, hi);
          return;
        }
        idx := idx + 1;
      }
      FirstIdleIs(Abs(), idx);
      return -1;
    }

    // dasics_jumpcfg_free
    method Free(idx: int) returns (code: int)
      requires Valid()
      modifies this`jumpcfg
      ensures (Abs(), code) == Freed(old(Abs()), idx)
    {
      if idx < 0 || idx >= JUMPCFG_WIDTH {
        return -1;
      }
      ghost var slots := Abs();
      jumpcfg := Clear(jumpcfg, idx);
      assert Abs() == slots[idx := Idle];
      return 0;
    }
  }
}
