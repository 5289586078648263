/** Orders given by a comparison function, and the two ways uthash sorts with one:
    ordered insertion (HASH_ADD_INORDER) and bottom-up merging (HASH_SRT). */
module Order {
  import opened Bounds
  import opened Nodes


  type Cmp = (Entry, Entry) -> int

  /** What a comparison function has to be for a sort to make sense. */
  ghost predicate TotalPreorder(cmp: Cmp) {
    && (forall a, b :: cmp(a, b) <= 0 || cmp(b, a) <= 0)
    && (forall a, b, c :: cmp(a, b) <= 0 && cmp(b, c) <= 0 ==> cmp(a, c) <= 0)
  }

  predicate Leq(cmp: Cmp, a: Node, b: Node) { cmp(a.entry, b.entry) <= 0 }

  ghost predicate Sorted(cmp: Cmp, s: seq<Node>) {
    forall i, j :: 0 <= i < j < |s| ==> Leq(cmp, s[i], s[j])
  }

  /** x goes right before the first element that must come after it. */
  function Insert(cmp: Cmp, s: seq<Node>, x: Node): seq<Node> {
    if s == [] || !Leq(cmp, s[0], x) then [x] + s else [s[0]] + Insert(cmp, s[1..], x)
  }

  /** Insert the elements of t into s, one after the other. */
  function InsertAll(cmp: Cmp, s: seq<Node>, t: seq<Node>): seq<Node>
    decreases t
  {
    if t == [] then s else InsertAll(cmp, Insert(cmp, s, t[0]), t[1..])
  }

  function Merge(cmp: Cmp, p: seq<Node>, q: seq<Node>): seq<Node> {
    if p == [] then q
    else if q == [] then p
    else if Leq(cmp, p[0], q[0]) then [p[0]] + Merge(cmp, p[1..], q)
    else [q[0]] + Merge(cmp, p, q[1..])
  }

  function Min(a: int, b: int): int { if a < b then a else b }

  /** One pass of the bottom-up sort: merge neighbouring runs of k elements. */
  function MergePass(cmp: Cmp, s: seq<Node>, k: nat): seq<Node>
    requires 0 < k
  {
    if s == [] then [] else
      var m := Min(k, |s|);
      var n := Min(2 * k, |s|);
      Merge(cmp, s[..m], s[m..n]) + MergePass(cmp, s[n..], k)
  }

  /** s cut into runs of k elements, each run sorted by insertion. */
  function Runs(cmp: Cmp, s: seq<Node>, k: nat): seq<Node>
    requires 0 < k
  {
    if |s| <= k then InsertAll(cmp, [], s)
    else InsertAll(cmp, [], s[..k]) + Runs(cmp, s[k..], k)
  }

  lemma {:induction false} InsertAt(cmp: Cmp, s: seq<Node>, k: nat, x: Node)
    requires k <= |s| && (forall i :: 0 <= i < k ==> Leq(cmp, s[i], x)) && (k < |s| ==> !Leq(cmp, s[k], x))
    ensures Insert(cmp, s, x) == s[..k] + [x] + s[k..]
  {
    if k == 0 {
      assert s[..0] + [x] + s[0..] == [x] + s;
    } else {
      InsertAt(cmp, s[1..], k - 1, x);
      assert s == [s[0]] + s[1..];
    }
  }

  // ---- merging two insertion-sorted runs is inserting one into the other

  lemma {:induction false} MergeInsert(cmp: Cmp, p: seq<Node>, q: seq<Node>, x: Node)
    requires TotalPreorder(cmp)
    ensures Insert(cmp, Merge(cmp, p, q), x) == Merge(cmp, p, Insert(cmp, q, x))
    decreases |p| + |q|
  {
    if p == [] {
    } else if q == [] {
      if Leq(cmp, p[0], x) {
        MergeInsert(cmp, p[1..], q, x);
        assert Merge(cmp, p[1..], []) == p[1..];
      }
    } else if Leq(cmp, p[0], q[0]) {
      var m := Merge(cmp, p[1..], q);
      assert ([p[0]] + m)[1..] == m;
      if Leq(cmp, p[0], x) {
        MergeInsert(cmp, p[1..], q, x);
      } else {
        assert ([x] + q)[1..] == q;
      }
    } else {
      var m := Merge(cmp, p, q[1..]);
      assert ([q[0]] + m)[1..] == m;
      if Leq(cmp, q[0], x) {
        MergeInsert(cmp, p, q[1..], x);
        var r := Insert(cmp, q[1..], x);
        assert ([q[0]] + r)[1..] == r;
      } else {
        assert ([x] + q)[1..] == q;
      }
    }
  }

  lemma {:induction false} InsertAllConcat(cmp: Cmp, s: seq<Node>, t: seq<Node>, u: seq<Node>)
    ensures InsertAll(cmp, s, t + u) == InsertAll(cmp, InsertAll(cmp, s, t), u)
    decreases t
  {
    if t == [] {
      assert t + u == u;
    } else {
      assert (t + u)[1..] == t[1..] + u;
      InsertAllConcat(cmp, Insert(cmp, s, t[0]), t[1..], u);
    }
  }

  lemma {:induction false} MergeInsertAll(cmp: Cmp, p: seq<Node>, q: seq<Node>, t: seq<Node>)
    requires TotalPreorder(cmp)
    ensures Merge(cmp, p, InsertAll(cmp, q, t)) == InsertAll(cmp, Merge(cmp, p, q), t)
    decreases t
  {
    if t == [] {
    } else {
      MergeInsert(cmp, p, q, t[0]);
      MergeInsertAll(cmp, p, Insert(cmp, q, t[0]), t[1..]);
    }
  }

  lemma MergeRuns(cmp: Cmp, s: seq<Node>, t: seq<Node>)
    requires TotalPreorder(cmp)
    ensures Merge(cmp, InsertAll(cmp, [], s), InsertAll(cmp, [], t)) == InsertAll(cmp, [], s + t)
  {
    MergeInsertAll(cmp, InsertAll(cmp, [], s), [], t);
    InsertAllConcat(cmp, [], s, t);
    assert Merge(cmp, InsertAll(cmp, [], s), []) == InsertAll(cmp, [], s);
  }

  lemma {:induction false} InsertMultiset(cmp: Cmp, s: seq<Node>, x: Node)
    ensures multiset(Insert(cmp, s, x)) == multiset(s) + multiset{x}
    ensures |Insert(cmp, s, x)| == |s| + 1
  {
    if s == [] || !Leq(cmp, s[0], x) {
    } else {
      assert s == [s[0]] + s[1..];
      InsertMultiset(cmp, s[1..], x);
    }
  }

  lemma {:induction false} InsertAllMultiset(cmp: Cmp, s: seq<Node>, t: seq<Node>)
    ensures multiset(InsertAll(cmp, s, t)) == multiset(s) + multiset(t)
    ensures |InsertAll(cmp, s, t)| == |s| + |t|
    decreases t
  {
    if t == [] {
    } else {
      assert t == [t[0]] + t[1..];
      InsertMultiset(cmp, s, t[0]);
      InsertAllMultiset(cmp, Insert(cmp, s, t[0]), t[1..]);
    }
  }

  lemma InsertMembers(cmp: Cmp, s: seq<Node>, x: Node)
    ensures |Insert(cmp, s, x)| == |s| + 1
    ensures forall y :: y in Insert(cmp, s, x) <==> y in s + [x]
  {
    InsertMultiset(cmp, s, x);
    assert forall y :: y in Insert(cmp, s, x) <==> y in multiset(s) + multiset{x};
  }

  lemma InsertAllMembers(cmp: Cmp, s: seq<Node>)
    ensures |InsertAll(cmp, [], s)| == |s|
    ensures forall y :: y in InsertAll(cmp, [], s) <==> y in s
  {
    InsertAllMultiset(cmp, [], s);
    var t := InsertAll(cmp, [], s);
    assert multiset(t) == multiset(s);
    assert forall y :: y in t <==> y in multiset(t);
  }

  lemma {:induction false} RunsLength(cmp: Cmp, s: seq<Node>, k: nat)
    requires 0 < k
    ensures |Runs(cmp, s, k)| == |s|
    decreases s
  {
    if |s| <= k {
      InsertAllMultiset(cmp, [], s);
    } else {
      InsertAllMultiset(cmp, [], s[..k]);
      RunsLength(cmp, s[k..], k);
    }
  }

  lemma MergePassStep(cmp: Cmp, a: seq<Node>, b: seq<Node>, rest: seq<Node>, k: nat)
    requires 0 < |a| <= k && |b| <= k && (|a| < k ==> b == []) && (|b| < k ==> rest == [])
    ensures MergePass(cmp, a + b + rest, k) == Merge(cmp, a, b) + MergePass(cmp, rest, k)
  {
    var s := a + b + rest;
    var m, n := Min(k, |s|), Min(2 * k, |s|);
    assert s[..m] == a && s[m..n] == b && s[n..] == rest;
  }

  lemma RunsStep(cmp: Cmp, s: seq<Node>, k: nat)
    requires 0 < k < |s|
    ensures Runs(cmp, s, k) ==
      InsertAll(cmp, [], s[..k]) + InsertAll(cmp, [], s[k..Min(2 * k, |s|)]) +
      (if |s| <= 2 * k then [] else Runs(cmp, s[2 * k..], k))
  {
    var a, t := InsertAll(cmp, [], s[..k]), s[k..];
    assert Runs(cmp, s, k) == a + Runs(cmp, t, k);
    if |s| <= 2 * k {
      assert s[k..|s|] == t;
      assert a + Runs(cmp, t, k) == a + InsertAll(cmp, [], t) + [];
    } else {
      assert t[..k] == s[k..2 * k] && t[k..] == s[2 * k..];
      assert Runs(cmp, t, k) == InsertAll(cmp, [], t[..k]) + Runs(cmp, t[k..], k);
    }
  }

  lemma InsertAllLength(cmp: Cmp, s: seq<Node>)
    ensures |InsertAll(cmp, [], s)| == |s|
  {
    InsertAllMultiset(cmp, [], s);
    assert |multiset(InsertAll(cmp, [], s))| == |multiset(s)|;
  }

  lemma FirstTwoRuns(cmp: Cmp, s: seq<Node>, k: nat, n: nat)
    requires TotalPreorder(cmp) && k <= n <= |s|
    ensures Merge(cmp, InsertAll(cmp, [], s[..k]), InsertAll(cmp, [], s[k..n])) == InsertAll(cmp, [], s[..n])
  {
    MergeRuns(cmp, s[..k], s[k..n]);
    assert s[..k] + s[k..n] == s[..n];
  }

  /** A pass over more than one run sorts the first two together and goes on with the others. */
  lemma PassStep(cmp: Cmp, s: seq<Node>, k: nat, n: nat, rest: seq<Node>)
    requires TotalPreorder(cmp) && 0 < k < |s| && n == Min(2 * k, |s|)
    requires rest == if |s| <= 2 * k then [] else Runs(cmp, s[2 * k..], k)
    ensures MergePass(cmp, Runs(cmp, s, k), k) == InsertAll(cmp, [], s[..n]) + MergePass(cmp, rest, k)
  {
    var a, b := InsertAll(cmp, [], s[..k]), InsertAll(cmp, [], s[k..n]);
    InsertAllLength(cmp, s[..k]);
    InsertAllLength(cmp, s[k..n]);
    FirstTwoRuns(cmp, s, k, n);
    RunsStep(cmp, s, k);
    MergePassStep(cmp, a, b, rest, k);
  }

  /** A pass over sorted runs of k elements leaves sorted runs of 2k elements. */
  lemma {:induction false} PassDoubles(cmp: Cmp, s: seq<Node>, k: nat)
    requires TotalPreorder(cmp) && 0 < k
    ensures MergePass(cmp, Runs(cmp, s, k), k) == Runs(cmp, s, 2 * k)
    decreases s
  {
    if s == [] {
    } else if |s| <= k {
      var a := InsertAll(cmp, [], s);
      InsertAllMultiset(cmp, [], s);
      MergePassStep(cmp, a, [], [], k);
      assert a + [] + [] == a;
    } else {
      var rest := if |s| <= 2 * k then [] else Runs(cmp, s[2 * k..], k);
      PassStep(cmp, s, k, Min(2 * k, |s|), rest);
      if |s| <= 2 * k {
        assert s[..|s|] == s && InsertAll(cmp, [], s) + [] == InsertAll(cmp, [], s);
      } else {
        PassDoubles(cmp, s[2 * k..], k);
      }
    }
  }

  lemma {:induction false} RunsOfOne(cmp: Cmp, s: seq<Node>)
    ensures Runs(cmp, s, 1) == s
  {
    if |s| <= 1 {
      if |s| == 1 {
        assert InsertAll(cmp, [], s) == InsertAll(cmp, [s[0]], s[1..]);
      }
    } else {
      RunsOfOne(cmp, s[1..]);
      assert InsertAll(cmp, [], s[..1]) == InsertAll(cmp, [s[0]], s[..1][1..]);
    }
  }

  // ---- what insertion sorting promises: order, the same elements, stability

  lemma {:induction false} InsertSorted(cmp: Cmp, s: seq<Node>, x: Node)
    requires TotalPreorder(cmp) && Sorted(cmp, s)
    ensures Sorted(cmp, Insert(cmp, s, x))
  {
    if s == [] {
    } else if !Leq(cmp, s[0], x) {
      forall j | 0 <= j < |s| ensures Leq(cmp, x, s[j]) {
        assert Leq(cmp, x, s[0]);
      }
    } else {
      InsertSorted(cmp, s[1..], x);
      var r := Insert(cmp, s[1..], x);
      InsertMultiset(cmp, s[1..], x);
      forall j | 0 <= j < |r| ensures Leq(cmp, s[0], r[j]) {
        assert r[j] in multiset(r);
        assert r[j] in s[1..] || r[j] == x;
      }
    }
  }

  lemma {:induction false} InsertAllSorted(cmp: Cmp, s: seq<Node>, t: seq<Node>)
    requires TotalPreorder(cmp) && Sorted(cmp, s)
    ensures Sorted(cmp, InsertAll(cmp, s, t))
    decreases t
  {
    if t == [] {
    } else {
      InsertSorted(cmp, s, t[0]);
      InsertAllSorted(cmp, Insert(cmp, s, t[0]), t[1..]);
    }
  }

  /** The elements of s that tie with a, in the order they have in s. */
  function Ties(cmp: Cmp, s: seq<Node>, a: Node): seq<Node> {
    if s == [] then []
    else (if Leq(cmp, s[0], a) && Leq(cmp, a, s[0]) then [s[0]] else []) + Ties(cmp, s[1..], a)
  }

  lemma {:induction false} InsertTies(cmp: Cmp, s: seq<Node>, x: Node, a: Node)
    requires TotalPreorder(cmp) && Sorted(cmp, s)
    ensures Ties(cmp, Insert(cmp, s, x), a) == Ties(cmp, s, a) + Ties(cmp, [x], a)
  {
    if s == [] {
      assert [x] + s == [x];
    } else if !Leq(cmp, s[0], x) {
      assert ([x] + s)[1..] == s;
      if Leq(cmp, x, a) && Leq(cmp, a, x) {
        NoTies(cmp, s, x, a);
      }
    } else {
      var r := Insert(cmp, s[1..], x);
      assert ([s[0]] + r)[1..] == r;
      InsertTies(cmp, s[1..], x, a);
    }
  }

  lemma {:induction false} NoTies(cmp: Cmp, s: seq<Node>, x: Node, a: Node)
    requires TotalPreorder(cmp) && forall i :: 0 <= i < |s| ==> !Leq(cmp, s[i], x)
    requires Leq(cmp, a, x)
    ensures Ties(cmp, s, a) == []
  {
    if s == [] {
    } else {
      assert !Leq(cmp, s[0], x);
      NoTies(cmp, s[1..], x, a);
    }
  }

  lemma TiesHead(cmp: Cmp, s: seq<Node>, a: Node)
    requires s != []
    ensures Ties(cmp, s, a) == Ties(cmp, [s[0]], a) + Ties(cmp, s[1..], a)
  {
    assert [s[0]][1..] == [];
  }

  lemma {:induction false} InsertAllTies(cmp: Cmp, s: seq<Node>, t: seq<Node>, a: Node)
    requires TotalPreorder(cmp) && Sorted(cmp, s)
    ensures Ties(cmp, InsertAll(cmp, s, t), a) == Ties(cmp, s, a) + Ties(cmp, t, a)
    decreases t
  {
    if t == [] {
    } else {
      InsertSorted(cmp, s, t[0]);
      InsertTies(cmp, s, t[0], a);
      InsertAllTies(cmp, Insert(cmp, s, t[0]), t[1..], a);
      TiesHead(cmp, t, a);
      var u, v, w := Ties(cmp, s, a), Ties(cmp, [t[0]], a), Ties(cmp, t[1..], a);
      assert u + v + w == u + (v + w);
    }
  }

  /** Sorting promises order, the same elements, and ties in their old order; and only one
      sequence keeps all three promises. */
  lemma SortIsStable(cmp: Cmp, s: seq<Node>, a: Node)
    requires TotalPreorder(cmp)
    ensures Sorted(cmp, InsertAll(cmp, [], s))
    ensures multiset(InsertAll(cmp, [], s)) == multiset(s)
    ensures Ties(cmp, InsertAll(cmp, [], s), a) == Ties(cmp, s, a)
  {
    InsertAllSorted(cmp, [], s);
    InsertAllMultiset(cmp, [], s);
    InsertAllTies(cmp, [], s, a);
  }

  lemma {:induction false} TiesWithin(cmp: Cmp, s: seq<Node>, a: Node)
    ensures forall x :: x in Ties(cmp, s, a) ==> x in s
  {
    if s != [] {
      TiesWithin(cmp, s[1..], a);
    }
  }

  lemma SameHead(cmp: Cmp, s: seq<Node>, t: seq<Node>)
    requires TotalPreorder(cmp) && Sorted(cmp, s) && Sorted(cmp, t) && s != [] && t != []
    requires Ties(cmp, s, s[0]) == Ties(cmp, t, s[0]) && Ties(cmp, s, t[0]) == Ties(cmp, t, t[0])
    ensures s[0] == t[0]
  {
    assert Ties(cmp, s, s[0])[0] == s[0] && Ties(cmp, t, t[0])[0] == t[0];
    TiesWithin(cmp, t, s[0]);
    TiesWithin(cmp, s, t[0]);
    assert s[0] in t && t[0] in s;
    assert Leq(cmp, t[0], s[0]) && Leq(cmp, s[0], t[0]);
    assert Ties(cmp, t, s[0])[0] == t[0];
  }

  /** A sorted sequence is determined by what ties with what: the stable result is unique. */
  lemma {:induction false} StableSortIsUnique(cmp: Cmp, s: seq<Node>, t: seq<Node>)
    requires TotalPreorder(cmp) && Sorted(cmp, s) && Sorted(cmp, t) && |s| == |t|
    requires forall a :: a in s || a in t ==> Ties(cmp, s, a) == Ties(cmp, t, a)
    ensures s == t
  {
    if s != [] {
      assert s[0] in s && t[0] in t;
      SameHead(cmp, s, t);
      forall a | a in s[1..] || a in t[1..] ensures Ties(cmp, s[1..], a) == Ties(cmp, t[1..], a) {
        assert a in s || a in t;
        TiesHead(cmp, s, a);
        TiesHead(cmp, t, a);
        var n := |Ties(cmp, [s[0]], a)|;
        assert Ties(cmp, s[1..], a) == Ties(cmp, s, a)[n..];
        assert Ties(cmp, t[1..], a) == Ties(cmp, t, a)[n..];
      }
      StableSortIsUnique(cmp, s[1..], t[1..]);
    }
  }
}
