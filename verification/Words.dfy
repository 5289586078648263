/** The packed configuration word DasicsLibCfg: 16 four-bit fields, each read and written with a
    shift and a mask. */
module Words {
  const LIBCFG_WIDTH: nat := 16
  const LIBCFG_MASK: bv64 := 0xf
  const LIBCFG_V: bv64 := 0x8
  const LIBCFG_R: bv64 := 0x2
  const LIBCFG_W: bv64 := 0x1

  /** idx * step, the shift that selects slot idx of the library word. */
  function Shift(idx: nat): (s: bv64)
    requires idx < LIBCFG_WIDTH
    ensures Nibble(s)
  {
    match idx
    case 0 => 0 case 1 => 4 case 2 => 8 case 3 => 12
    case 4 => 16 case 5 => 20 case 6 => 24 case 7 => 28
    case 8 => 32 case 9 => 36 case 10 => 40 case 11 => 44
    case 12 => 48 case 13 => 52 case 14 => 56 case _ => 60
  }

  lemma ShiftIs(idx: nat)
    requires idx < LIBCFG_WIDTH
    ensures Shift(idx) as nat == 4 * idx
  {}

  /** A shift by a whole number of four-bit fields that stays inside the word. */
  predicate Nibble(s: bv64) { s & 3 == 0 && s < 64 }

  function At(cfg: bv64, s: bv64): bv64
    requires s < 64
  {
    (cfg >> s) & LIBCFG_MASK
  }

  /** The field of slot idx. */
  function Field(cfg: bv64, idx: nat): bv64
    requires idx < LIBCFG_WIDTH
  {
    At(cfg, Shift(idx))
  }

  /** The sixteen fields of the configuration word. */
  function Fields(cfg: bv64): (r: seq<bv64>)
    ensures |r| == LIBCFG_WIDTH
  {
    seq(LIBCFG_WIDTH, i requires 0 <= i < LIBCFG_WIDTH => Field(cfg, i))
  }

  lemma FieldsBound(cfg: bv64)
    ensures forall i :: 0 <= i < LIBCFG_WIDTH ==> Fields(cfg)[i] <= LIBCFG_MASK
  {
    forall i | 0 <= i < LIBCFG_WIDTH ensures Fields(cfg)[i] <= LIBCFG_MASK {
      AtBound(cfg, Shift(i));
    }
  }

  predicate IsValid(field: bv64) { field & LIBCFG_V != 0 }

  lemma AtOr(x: bv64, y: bv64, t: bv64)
    requires t < 64
    ensures At(x | y, t) == At(x, t) | At(y, t)
  {}

  lemma AtAnd(x: bv64, y: bv64, t: bv64)
    requires t < 64
    ensures At(x & y, t) == At(x, t) & At(y, t)
  {}

  lemma AtHole(m: bv64, s: bv64, t: bv64)
    requires Nibble(s) && Nibble(t) && m <= LIBCFG_MASK
    ensures At(!(m << s), t) == if s == t then LIBCFG_MASK & !m else LIBCFG_MASK
  {}

  lemma AtPlaced(p: bv64, s: bv64, t: bv64)
    requires Nibble(s) && Nibble(t) && p <= LIBCFG_MASK
    ensures At(p << s, t) == if s == t then p else 0
  {}

  lemma AtBound(x: bv64, t: bv64)
    requires t < 64
    ensures At(x, t) <= LIBCFG_MASK
  {}

  lemma Combine(c: bv64, p: bv64)
    requires c <= LIBCFG_MASK
    ensures (c & 0) | p == p && (c & LIBCFG_MASK) | 0 == c && (c & (LIBCFG_MASK & !LIBCFG_V)) & LIBCFG_V == 0
  {}

  lemma ShiftInjective(i: nat, j: nat)
    requires i < LIBCFG_WIDTH && j < LIBCFG_WIDTH && i != j
    ensures Shift(i) != Shift(j)
  {}

  lemma SetAt(cfg: bv64, p: bv64, s: bv64, t: bv64)
    requires Nibble(s) && Nibble(t) && p <= LIBCFG_MASK
    ensures At((cfg & !(LIBCFG_MASK << s)) | (p << s), t) == if s == t then p else At(cfg, t)
  {
    AtOr(cfg & !(LIBCFG_MASK << s), p << s, t);
    AtAnd(cfg, !(LIBCFG_MASK << s), t);
    AtHole(LIBCFG_MASK, s, t);
    AtPlaced(p, s, t);
    AtBound(cfg, t);
    Combine(At(cfg, t), p);
  }

  lemma ClearAt(cfg: bv64, s: bv64, t: bv64)
    requires Nibble(s) && Nibble(t)
    ensures s == t ==> !IsValid(At(cfg & !(LIBCFG_V << s), t))
    ensures s != t ==> At(cfg & !(LIBCFG_V << s), t) == At(cfg, t)
  {
    AtAnd(cfg, !(LIBCFG_V << s), t);
    AtHole(LIBCFG_V, s, t);
    AtBound(cfg, t);
    Combine(At(cfg, t), 0);
  }

  /** Clear the field at shift s, then set it to priv: nothing else changes. */
  method PutAt(cfg: bv64, s: bv64, priv: bv64) returns (cfg': bv64)
    requires Nibble(s) && priv <= LIBCFG_MASK
    ensures At(cfg', s) == priv
    ensures forall t :: Nibble(t) && t != s ==> At(cfg', t) == At(cfg, t)
  {
    cfg' := (cfg & !(LIBCFG_MASK << s)) | (priv << s);
    forall t | Nibble(t) ensures At(cfg', t) == if s == t then priv else At(cfg, t) {
      SetAt(cfg, priv, s, t);
    }
  }

  /** Clear the V bit of the field at shift s: nothing else changes. */
  method InvalidateAt(cfg: bv64, s: bv64) returns (cfg': bv64)
    requires Nibble(s)
    ensures !IsValid(At(cfg', s))
    ensures forall t :: Nibble(t) && t != s ==> At(cfg', t) == At(cfg, t)
  {
    cfg' := cfg & !(LIBCFG_V << s);
    ClearAt(cfg, s, s);
    forall t | Nibble(t) && t != s ensures At(cfg', t) == At(cfg, t) {
      ClearAt(cfg, s, t);
    }
  }

  /** Writing one slot's field sets it and leaves the fifteen others alone. */
  method SetField(cfg: bv64, idx: nat, priv: bv64) returns (cfg': bv64)
    requires idx < LIBCFG_WIDTH && priv <= LIBCFG_MASK
    ensures Fields(cfg') == Fields(cfg)[idx := priv]
  {
    cfg' := PutAt(cfg, Shift(idx), priv);
    forall j | 0 <= j < LIBCFG_WIDTH && j != idx ensures Field(cfg', j) == Field(cfg, j) {
      ShiftInjective(idx, j);
    }
  }

  /** Clearing one slot's V bit invalidates it and leaves the fifteen others alone. */
  method ClearValid(cfg: bv64, idx: nat) returns (cfg': bv64)
    requires idx < LIBCFG_WIDTH
    ensures !IsValid(Fields(cfg')[idx])
    ensures forall j :: 0 <= j < LIBCFG_WIDTH && j != idx ==> Fields(cfg')[j] == Fields(cfg)[j]
  {
    cfg' := InvalidateAt(cfg, Shift(idx));
    forall j | 0 <= j < LIBCFG_WIDTH && j != idx ensures Field(cfg', j) == Field(cfg, j) {
      ShiftInjective(idx, j);
    }
  }
}
