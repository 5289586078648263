/** The greedy coverage check at the end of dasics_bound_checker: do the collected bounds cover
    (lo, hi]? Addresses are 64-bit words; lo + 1 wraps. */
module Coverage {
  import opened Machine

  datatype Interval = Interval(lo: Word, hi: Word)

  predicate Contains(b: Interval, x: Word) { b.lo <= x <= b.hi }

  predicate Covered(bounds: seq<Interval>, x: Word) {
    exists i :: 0 <= i < |bounds| && Contains(bounds[i], x)
  }

  /** Everything above lo and up to hi is covered. */
  ghost predicate Covers(bounds: seq<Interval>, lo: Word, hi: Word) {
    forall x: Word :: lo < x <= hi ==> Covered(bounds, x)
  }

  /** What qsort with bound_coverage_cmp leaves: the same bounds, lower ends not decreasing. */
  ghost predicate SortOf(bounds: seq<Interval>, collected: seq<Interval>) {
    && multiset(bounds) == multiset(collected)
    && forall i, j :: 0 <= i < j < |bounds| ==> bounds[i].lo <= bounds[j].lo
  }

  lemma SortKeepsCoverage(bounds: seq<Interval>, collected: seq<Interval>, lo: Word, hi: Word)
    requires SortOf(bounds, collected)
    ensures Covers(bounds, lo, hi) <==> Covers(collected, lo, hi)
  {
    forall x: Word ensures Covered(bounds, x) <==> Covered(collected, x) {
      if Covered(bounds, x) {
        SameCovered(bounds, collected, x);
      } else if Covered(collected, x) {
        SameCovered(collected, bounds, x);
      }
    }
  }

  lemma SameCovered(a: seq<Interval>, b: seq<Interval>, x: Word)
    requires multiset(a) == multiset(b) && Covered(a, x)
    ensures Covered(b, x)
  {
    var i :| 0 <= i < |a| && Contains(a[i], x);
    assert a[i] in multiset(a);
    var j :| 0 <= j < |b| && b[j] == a[i];
  }

  /** The greedy loop over sorted bounds is exact, wrap of lo + 1 included. */
  method Greedy(bounds: seq<Interval>, lo0: Word, hi: Word) returns (covered: bool)
    requires forall i, j :: 0 <= i < j < |bounds| ==> bounds[i].lo <= bounds[j].lo
    ensures covered <==> Covers(bounds, lo0, hi)
  {
    var lo: Word, idx := lo0, 0;
    while idx < |bounds|
      invariant 0 <= idx <= |bounds| && lo0 <= lo
      invariant forall x: Word :: lo0 < x <= lo ==> Covered(bounds, x)
      invariant forall j :: 0 <= j < idx ==> bounds[j].hi <= lo
    {
      var b := bounds[idx];
      if b.lo <= Reg(lo + 1) && lo <= b.hi {
        forall x: Word | lo < x <= b.hi ensures Covered(bounds, x) {
          assert Contains(bounds[idx], x);
        }
        lo := b.hi;
      } else if b.hi < lo {
      } else {
        break;
      }
      idx := idx + 1;
    }
    if lo < hi {
      assert forall j :: idx <= j < |bounds| ==> bounds[idx].lo <= bounds[j].lo;
      assert forall j :: 0 <= j < |bounds| ==> !Contains(bounds[j], lo + 1);
      assert lo0 < lo + 1 <= hi && !Covered(bounds, lo + 1);
    }
    return hi <= lo;
  }

  /** Sorting first and then the greedy loop answers 1 exactly if the collected bounds cover
      (lo, hi]: the address lo itself does not count. */
  method BoundChecker(collected: seq<Interval>, sorted: seq<Interval>, lo: Word, hi: Word) returns (r: int)
    requires SortOf(sorted, collected)
    ensures r == if Covers(collected, lo, hi) then 1 else 0
  {
    var covered := Greedy(sorted, lo, hi);
    SortKeepsCoverage(sorted, collected, lo, hi);
    r := if covered then 1 else 0;
  }

  /** It is (lo, hi] that is checked and not [lo, hi]: the two differ exactly when everything
      above lo is covered and lo is not. */
  lemma LowEndIgnored(bounds: seq<Interval>, lo: Word, hi: Word)
    requires lo <= hi
    ensures (forall x: Word :: lo <= x <= hi ==> Covered(bounds, x)) <==> Covers(bounds, lo, hi) && Covered(bounds, lo)
  {
    if Covers(bounds, lo, hi) && Covered(bounds, lo) {
      forall x: Word | lo <= x <= hi ensures Covered(bounds, x) {
        assert x == lo || lo < x;
      }
    }
  }
}
