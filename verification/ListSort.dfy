/** The in-place bottom-up mergesort of the application-order list (HASH_SRT): what the pointer
    moves do to the list is what Order.MergePass does to the sequence of its nodes. */
module ListSort {
  import opened Nodes
  import opened Order

  /** The merged part of the list: doubly linked except that its last next is still open. */
  ghost predicate Merged(out: seq<Node>)
    reads out`next, out`prev
  {
    && Backward(out)
    && (forall i {:trigger out[i].next} :: 0 <= i < |out| - 1 ==> out[i].next == out[i + 1])
  }

  /** A run still to be merged: linked by next as far as it goes. */
  ghost predicate Run(p: seq<Node>)
    reads p`next
  {
    forall i {:trigger p[i].next} :: 0 <= i < |p| - 1 ==> p[i].next == p[i + 1]
  }

  ghost predicate Apart(s: seq<Node>, t: seq<Node>) {
    forall i, j :: 0 <= i < |s| && 0 <= j < |t| ==> s[i] != t[j]
  }

  /** No node occurs twice among the merged part, the run and the rest. */
  ghost predicate Disjoint(out: seq<Node>, p: seq<Node>, r: seq<Node>) {
    NoDup(out) && NoDup(p) && NoDup(r) && Apart(out, p) && Apart(out, r) && Apart(p, r)
  }

  lemma SliceLinks(p: seq<Node>, r: seq<Node>)
    ensures Run(p) && p != [] ==> Run(p[1..])
    ensures Forward(r) && r != [] ==> Forward(r[1..]) && r[0].next == First(r[1..])
  {
    if Run(p) && p != [] {
      forall i | 0 <= i < |p[1..]| - 1 ensures p[1..][i].next == p[1..][i + 1] {
        assert p[i + 1].next == p[i + 2];
      }
    }
    if Forward(r) && r != [] {
      forall i | 0 <= i < |r[1..]| ensures r[1..][i].next == if i + 1 < |r[1..]| then r[1..][i + 1] else null {
        assert r[i + 1].next == if i + 2 < |r| then r[i + 2] else null;
      }
    }
  }

  lemma MoveP(out: seq<Node>, p: seq<Node>, r: seq<Node>)
    requires Disjoint(out, p, r) && p != []
    ensures Disjoint(out + [p[0]], p[1..], r)
  {}

  lemma MoveQ(out: seq<Node>, p: seq<Node>, r: seq<Node>)
    requires Disjoint(out, p, r) && r != []
    ensures Disjoint(out + [r[0]], p, r[1..])
  {}

  /** Append e to the merged part; what is left of the run and of the rest is not disturbed. */
  method Emit(list: Node?, tail: Node?, e: Node, ghost out: seq<Node>, ghost p: seq<Node>, ghost r: seq<Node>)
    returns (list': Node)
    requires Merged(out) && Run(p) && Forward(r) && Disjoint(out + [e], p, r)
    requires list == First(out) && tail == Last(out)
    modifies out`next, e`prev
    ensures Merged(out + [e]) && Run(p) && Forward(r) && list' == First(out + [e])
  {
    assert (out + [e])[|out|] == e;
    assert forall x :: x in out ==> x in out + [e];
    if tail != null {
      tail.next := e;
      list' := list;
    } else {
      list' := e;
    }
    e.prev := tail;
  }

  function Take(s: seq<Node>, k: nat): seq<Node> { s[..Min(k, |s|)] }

  function Drop(s: seq<Node>, k: nat): seq<Node> { s[Min(k, |s|)..] }

  lemma TakeP(cmp: Cmp, out: seq<Node>, p: seq<Node>, q: seq<Node>)
    requires p != [] && (q == [] || Leq(cmp, p[0], q[0]))
    ensures out + Merge(cmp, p, q) == (out + [p[0]]) + Merge(cmp, p[1..], q)
  {}

  lemma TakeQ(cmp: Cmp, out: seq<Node>, p: seq<Node>, q: seq<Node>)
    requires q != [] && (p == [] || !Leq(cmp, p[0], q[0]))
    ensures out + Merge(cmp, p, q) == (out + [q[0]]) + Merge(cmp, p, q[1..])
  {}

  lemma TakeStep(r: seq<Node>, k: nat)
    requires r != [] && 0 < k
    ensures Take(r, k) != [] && Take(r, k)[0] == r[0] && Take(r, k)[1..] == Take(r[1..], k - 1)
    ensures Drop(r, k) == Drop(r[1..], k - 1)
  {}

  /** Step off a run of at most insize nodes. */
  method CountRun(p: Node, insize: nat, ghost r: seq<Node>) returns (psize: nat, q: Node?)
    requires r != [] && p == r[0] && Forward(r) && 0 < insize
    ensures psize == Min(insize, |r|) && q == First(r[psize..])
  {
    q, psize := p, 0;
    var i := 0;
    while i < insize
      invariant 0 <= i == psize <= insize && psize < |r| && q == r[psize]
    {
      psize := psize + 1;
      q := q.next;
      if q == null {
        break;
      }
      i := i + 1;
    }
  }

  /** What is left to merge: the run, and no more than qsize nodes of the rest. */
  function Pending(cmp: Cmp, p: seq<Node>, r: seq<Node>, qsize: nat): seq<Node> {
    Merge(cmp, p, Take(r, qsize))
  }

  /** Move the next node in order from the run or the rest to the merged part. */
  method MergeOne(cmp: Cmp, p0: Node?, psize0: nat, q0: Node?, qsize0: nat, list0: Node?, tail0: Node?,
                  ghost out: seq<Node>, ghost p: seq<Node>, ghost r: seq<Node>)
    returns (e: Node, p1: Node?, psize: nat, q: Node?, qsize: nat, list: Node?,
             ghost p': seq<Node>, ghost r': seq<Node>)
    requires psize0 != 0 || (qsize0 != 0 && q0 != null)
    requires p == [] || p0 == p[0]
    requires psize0 == |p| && q0 == First(r) && list0 == First(out) && tail0 == Last(out)
    requires Merged(out) && Run(p) && Forward(r) && Disjoint(out, p, r)
    modifies out`next, p`prev, r`prev
    ensures p' == [] || p1 == p'[0]
    ensures psize == |p'| && q == First(r') && list == First(out + [e])
    ensures Merged(out + [e]) && Run(p') && Forward(r') && Disjoint(out + [e], p', r')
    ensures out + Pending(cmp, p, r, qsize0) == (out + [e]) + Pending(cmp, p', r', qsize)
    ensures Drop(r', qsize) == Drop(r, qsize0)
    ensures (p != [] && e == p[0] && p' == p[1..] && r' == r) || (r != [] && e == r[0] && p' == p && r' == r[1..])
  {
    p1, psize, q, qsize, p', r' := p0, psize0, q0, qsize0, p, r;
    var fromQ := if psize == 0 then true else if qsize == 0 || q == null then false
                 else cmp(p1.entry, q.entry) > 0;
    SliceLinks(p, r);
    if fromQ {
      TakeStep(r, qsize);
      TakeQ(cmp, out, p, Take(r, qsize));
      MoveQ(out, p, r);
      e := q;
      q := q.next;
      qsize := qsize - 1;
      r' := r[1..];
    } else {
      TakeP(cmp, out, p, Take(r, qsize));
      MoveP(out, p, r);
      e := p1;
      p1 := p1.next;
      psize := psize - 1;
      p' := p[1..];
    }
    list := Emit(list0, tail0, e, out, p', r');
  }

  lemma WithinMoved(out: seq<Node>, p: seq<Node>, r: seq<Node>, s: seq<Node>)
    requires Within(out, s) && Within(p, s) && Within(r, s)
    ensures p != [] ==> Within(out + [p[0]], s) && Within(p[1..], s)
    ensures r != [] ==> Within(out + [r[0]], s) && Within(r[1..], s)
  {}

  /** Merge the run p of psize nodes with the (at most insize) first nodes of r. */
  method MergeTwo(cmp: Cmp, p0: Node?, psize0: nat, q0: Node?, insize: nat, list0: Node?, tail0: Node?,
                  ghost out: seq<Node>, ghost p: seq<Node>, ghost r: seq<Node>, ghost s: seq<Node>)
    returns (list: Node?, tail: Node?, q: Node?)
    requires p == [] || p0 == p[0]
    requires psize0 == |p| && q0 == First(r) && list0 == First(out) && tail0 == Last(out)
    requires Merged(out) && Run(p) && Forward(r) && Disjoint(out, p, r)
    requires Within(out, s) && Within(p, s) && Within(r, s)
    modifies s`next, s`prev
    ensures var out' := out + Pending(cmp, p, r, insize);
      Merged(out') && Within(out', s) && list == First(out') && tail == Last(out') && Disjoint(out', [], Drop(r, insize))
    ensures Forward(Drop(r, insize)) && q == First(Drop(r, insize))
  {
    var p1, psize, qsize := p0, psize0, insize;
    list, tail, q := list0, tail0, q0;
    ghost var o, pk, rk := out, p, r;
    while psize != 0 || (qsize != 0 && q != null)
      invariant pk == [] || p1 == pk[0]
      invariant psize == |pk| && q == First(rk) && list == First(o) && tail == Last(o)
      invariant Merged(o) && Run(pk) && Forward(rk) && Disjoint(o, pk, rk)
      invariant o + Pending(cmp, pk, rk, qsize) == out + Pending(cmp, p, r, insize)
      invariant Drop(rk, qsize) == Drop(r, insize)
      invariant Within(o, s) && Within(pk, s) && Within(rk, s)
      decreases |pk| + |rk|
    {
      WithinMoved(o, pk, rk, s);
      var e;
      e, p1, psize, q, qsize, list, pk, rk := MergeOne(cmp, p1, psize, q, qsize, list, tail, o, pk, rk);
      tail, o := e, o + [e];
    }
  }

  /** Where a pass cuts the rest of the list: a run of k nodes, at most k more, what follows. */
  lemma CutMerge(cmp: Cmp, r: seq<Node>, k: nat)
    requires r != [] && 0 < k
    ensures var m := Min(k, |r|);
      && |Drop(r[m..], k)| == |r| - Min(2 * k, |r|)
      && MergePass(cmp, r, k) == Merge(cmp, r[..m], Take(r[m..], k)) + MergePass(cmp, Drop(r[m..], k), k)
  {
    var m, n := Min(k, |r|), Min(2 * k, |r|);
    assert Take(r[m..], k) == r[m..n];
    assert Drop(r[m..], k) == r[n..];
  }

  lemma CutLinks(out: seq<Node>, r: seq<Node>, m: nat)
    requires m <= |r| && Forward(r) && Disjoint(out, [], r)
    ensures Run(r[..m]) && Forward(r[m..]) && Disjoint(out, r[..m], r[m..])
  {
    forall i | 0 <= i < |r[m..]| ensures r[m..][i].next == if i + 1 < |r[m..]| then r[m..][i + 1] else null {
      assert r[m + i].next == if m + i + 1 < |r| then r[m + i + 1] else null;
    }
  }

  lemma Regroup(a: seq<Node>, b: seq<Node>, c: seq<Node>)
    ensures a + (b + c) == (a + b) + c
  {}

  /** Merge the next two runs of the rest r into the merged part. */
  method MergePair(cmp: Cmp, p: Node, insize: nat, list0: Node?, tail0: Node?,
                   ghost out: seq<Node>, ghost r: seq<Node>, ghost s: seq<Node>)
    returns (list: Node?, tail: Node?, q: Node?, ghost out': seq<Node>, ghost r': seq<Node>)
    requires r != [] && p == r[0] && 0 < insize && list0 == First(out) && tail0 == Last(out)
    requires Merged(out) && Forward(r) && Disjoint(out, [], r) && Within(out, s) && Within(r, s)
    modifies s`next, s`prev
    ensures Merged(out') && Forward(r') && Disjoint(out', [], r') && Within(out', s) && Within(r', s)
    ensures q == First(r') && list == First(out') && tail == Last(out')
    ensures out' + MergePass(cmp, r', insize) == out + MergePass(cmp, r, insize)
    ensures |r'| == |r| - Min(2 * insize, |r|)
  {
    var psize;
    psize, q := CountRun(p, insize, r);
    ghost var pr, qr := r[..psize], r[psize..];
    out', r' := out + Pending(cmp, pr, qr, insize), Drop(qr, insize);
    CutLinks(out, r, psize);
    CutMerge(cmp, r, insize);
    Regroup(out, Pending(cmp, pr, qr, insize), MergePass(cmp, r', insize));
    list, tail, q := MergeTwo(cmp, p, psize, q, insize, list0, tail0, out, pr, qr, s);
  }

  /** End the merged list. */
  method Close(tail: Node?, ghost out: seq<Node>)
    requires Merged(out) && NoDup(out) && tail == Last(out)
    modifies out`next
    ensures AppLinked(out)
  {
    if tail != null {
      tail.next := null;
    }
  }

  /** One pass over the list l, all of whose nodes are in s. */
  method Pass(cmp: Cmp, list0: Node, insize: nat, ghost l: seq<Node>, ghost s: seq<Node>)
    returns (list: Node?, tail: Node?, nmerges: nat)
    requires l != [] && list0 == l[0] && Forward(l) && NoDup(l) && Within(l, s) && 0 < insize
    modifies s`next, s`prev
    ensures var l' := MergePass(cmp, l, insize);
      AppLinked(l') && Within(l', s) && list == First(l') && tail == Last(l')
    ensures nmerges <= 1 <==> |l| <= 2 * insize
  {
    var p: Node? := list0;
    list, tail, nmerges := null, null, 0;
    ghost var out, r := [], l;
    while p != null
      invariant p == First(r) && list == First(out) && tail == Last(out)
      invariant Merged(out) && Forward(r) && Disjoint(out, [], r) && Within(out, s) && Within(r, s)
      invariant out + MergePass(cmp, r, insize) == MergePass(cmp, l, insize)
      invariant nmerges == 0 ==> r == l
      invariant nmerges == 1 ==> |r| == |l| - Min(2 * insize, |l|)
      invariant nmerges > 1 ==> |l| > 2 * insize
      decreases |r|
    {
      nmerges := nmerges + 1;
      list, tail, p, out, r := MergePair(cmp, p, insize, list, tail, out, r, s);
    }
    Close(tail, out);
    assert out == MergePass(cmp, l, insize);
  }

  /** A pass over the sorted runs of s leaves sorted runs of twice the length. */
  method Round(cmp: Cmp, list0: Node, insize: nat, ghost l: seq<Node>, ghost s: seq<Node>)
    returns (list: Node, tail: Node, nmerges: nat, ghost l': seq<Node>)
    requires TotalPreorder(cmp) && 0 < insize && l == Runs(cmp, s, insize)
    requires l != [] && list0 == l[0] && Forward(l) && NoDup(l) && Within(l, s) && |l| == |s|
    modifies s`next, s`prev
    ensures |l'| == |s| && AppLinked(l') && Within(l', s) && list == l'[0] && tail == l'[|l'| - 1]
    ensures l' == Runs(cmp, s, 2 * insize)
    ensures nmerges <= 1 <==> |s| <= 2 * insize
  {
    var list', tail';
    list', tail', nmerges := Pass(cmp, list0, insize, l, s);
    l' := MergePass(cmp, l, insize);
    PassDoubles(cmp, s, insize);
    RunsLength(cmp, s, 2 * insize);
    list, tail := list', tail';
  }

  /** Doubling an unsigned int. */
  function Doubled(n: nat): (r: nat)
    ensures 2 * n < 0x1_0000_0000 ==> r == 2 * n
  {
    (n * 2) % 0x1_0000_0000
  }

  /** All passes, with the run length doubling in 32-bit arithmetic. */
  method SortList(cmp: Cmp, list0: Node, ghost s: seq<Node>) returns (list: Node, tail: Node)
    requires TotalPreorder(cmp) && s != [] && list0 == s[0] && Forward(s) && NoDup(s) && |s| < 0x1_0000_0000
    modifies s`next, s`prev
    ensures var l := InsertAll(cmp, [], s);
      |l| == |s| && AppLinked(l) && list == l[0] && tail == l[|l| - 1]
  {
    var insize: nat, looping := 1, true;
    list, tail := list0, list0;
    ghost var l := s;
    RunsOfOne(cmp, s);
    while looping
      invariant |l| == |s| && Forward(l) && NoDup(l) && Within(l, s) && list == l[0]
      invariant looping ==> l == Runs(cmp, s, insize) && 0 < insize && (insize == 1 || insize < |s|)
      invariant !looping ==> l == InsertAll(cmp, [], s) && AppLinked(l) && tail == l[|l| - 1]
      decreases looping, |s| - insize
    {
      var nmerges;
      list, tail, nmerges, l := Round(cmp, list, insize, l, s);
      if nmerges <= 1 {
        looping := false;
      }
      insize := Doubled(insize);
    }
  }
}
