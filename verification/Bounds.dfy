/** What a bound is: an entry of the bounds table (hashed_bound_t) and what it authorises. */
module Bounds {
  import opened Machine
  import opened Words

  datatype Entry = Entry(handle: int, priv: bv64, lo: Word, hi: Word)

  /** align8down and align8up, in 64-bit arithmetic. */
  function AlignDown(addr: Word): (r: Word)
    ensures r == Floor8(addr)
  {
    Mask8(addr)
  }

  function AlignUp(addr: Word): (r: Word)
    ensures r == Floor8(Reg(addr + 7))
  {
    Mask8(Reg(addr + 7))
  }

  function Permission(isRead: bool): bv64 { LIBCFG_V | (if isRead then LIBCFG_R else LIBCFG_W) }

  /** The test of the fault handler: the bound is valid, permits the access and contains addr. */
  predicate Grants(e: Entry, addr: Word, isRead: bool) {
    e.lo <= addr && addr < e.hi && e.priv & Permission(isRead) == Permission(isRead)
  }

  /** The entry a request for [lo, hi) with rights cfg becomes. */
  function Requested(handle: int, cfg: bv64, lo: Word, hi: Word): Entry {
    Entry(handle, (cfg & LIBCFG_MASK) | LIBCFG_V, AlignDown(lo), AlignUp(hi))
  }

  /** The last address that rounding up to a doubleword does not wrap. */
  const LAST_DOUBLEWORD: nat := WORD - 8

  /** A requested bound grants every address of [lo, hi) for the rights asked for, unless
      rounding hi up wraps past the end of the address space. */
  lemma RequestedGrants(handle: int, cfg: bv64, lo: Word, hi: Word, addr: Word, isRead: bool)
    requires lo <= addr < hi <= LAST_DOUBLEWORD
    ensures Grants(Requested(handle, cfg, lo, hi), addr, isRead) <==>
      cfg & (if isRead then LIBCFG_R else LIBCFG_W) != 0
  {}

  /** When rounding hi up wraps, the bound grants nothing at all. */
  lemma WrappedGrantsNothing(handle: int, cfg: bv64, lo: Word, hi: Word, addr: Word, isRead: bool)
    requires hi > LAST_DOUBLEWORD
    ensures !Grants(Requested(handle, cfg, lo, hi), addr, isRead)
  {}

  /** What a requested bound grants exactly: the doublewords that [lo, hi) reaches into, for the
      rights asked for, and nothing else. It confines. */
  lemma RequestedGrantsIff(handle: int, cfg: bv64, lo: Word, hi: Word, addr: Word, isRead: bool)
    ensures Grants(Requested(handle, cfg, lo, hi), addr, isRead) <==>
      hi <= LAST_DOUBLEWORD && lo - lo % 8 <= addr && addr - addr % 8 < hi &&
      cfg & (if isRead then LIBCFG_R else LIBCFG_W) != 0
  {
    RightsAsked(cfg, isRead);
    if hi <= LAST_DOUBLEWORD {
      RoundedUp(hi, addr);
    } else {
      WrappedGrantsNothing(handle, cfg, lo, hi, addr, isRead);
    }
  }

  lemma RightsAsked(cfg: bv64, isRead: bool)
    ensures ((cfg & LIBCFG_MASK) | LIBCFG_V) & Permission(isRead) == Permission(isRead) <==>
      cfg & (if isRead then LIBCFG_R else LIBCFG_W) != 0
  {}

  lemma RoundedUp(hi: nat, addr: nat)
    ensures addr < Floor8(hi + 7) <==> addr - addr % 8 < hi
  {
    var q, p := (hi + 7) / 8, addr / 8;
    assert Floor8(hi + 7) == 8 * q && addr - addr % 8 == 8 * p;
    assert hi <= 8 * q < hi + 8;
  }

  /** So it grants nothing a doubleword or more outside the range asked for. */
  lemma RequestedConfines(handle: int, cfg: bv64, lo: Word, hi: Word, addr: Word, isRead: bool)
    requires Grants(Requested(handle, cfg, lo, hi), addr, isRead)
    ensures lo < addr + 8 && addr < hi + 7
  {
    RequestedGrantsIff(handle, cfg, lo, hi, addr, isRead);
  }

  /** A request gets its handle and its own rights bits, and V; bits beyond the field are dropped. */
  lemma RequestedRights(handle: int, cfg: bv64, lo: Word, hi: Word)
    ensures var e := Requested(handle, cfg, lo, hi);
      e.handle == handle && e.priv & 7 == cfg & 7 && IsValid(e.priv) && e.priv <= LIBCFG_MASK
  {}

  /** A bound whose V bit is clear grants nothing. */
  lemma InvalidGrantsNothing(e: Entry, addr: Word, isRead: bool)
    requires !IsValid(e.priv)
    ensures !Grants(e, addr, isRead)
  {
    NotPermitted(e.priv, isRead);
  }

  lemma NotPermitted(priv: bv64, isRead: bool)
    requires !IsValid(priv)
    ensures priv & Permission(isRead) != Permission(isRead)
  {}
}
