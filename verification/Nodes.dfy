/** The nodes, buckets and chains of the uthash table, and what it takes to push onto and
    unlink from the two intrusive doubly linked lists every node is on. */
module Nodes {
  import opened Bounds

  /** An element together with the UT_hash_handle embedded in it. The fields a table user
      fills in before an add are constants; the links are the table's. */
  class Node {
    const entry: Entry
    var hashv: nat
    var prev: Node?
    var next: Node?
    var hhPrev: Node?
    var hhNext: Node?

    constructor (e: Entry)
      ensures entry == e
    {
      entry := e;
      hashv := 0;
      prev, next, hhPrev, hhNext := null, null, null, null;
    }
  }

  datatype Bucket = Bucket(hhHead: Node?, count: nat, expandMult: nat)

  function First(s: seq<Node>): Node? { if s == [] then null else s[0] }

  function Last(s: seq<Node>): Node? { if s == [] then null else s[|s| - 1] }

  ghost predicate NoDup(s: seq<Node>) { forall i, j :: 0 <= i < j < |s| ==> s[i] != s[j] }

  ghost predicate Within(s: seq<Node>, all: seq<Node>) {
    forall i :: 0 <= i < |s| ==> s[i] in all
  }

  ghost function RemoveAt(s: seq<Node>, k: nat): seq<Node>
    requires k < |s|
  {
    s[..k] + s[k + 1..]
  }

  /** s is linked by next, and its last node ends the list. */
  ghost predicate Forward(s: seq<Node>)
    reads s`next
  {
    forall i {:trigger s[i].next} :: 0 <= i < |s| ==> s[i].next == if i + 1 < |s| then s[i + 1] else null
  }

  ghost predicate Backward(s: seq<Node>)
    reads s`prev
  {
    forall i {:trigger s[i].prev} :: 0 <= i < |s| ==> s[i].prev == if 0 < i then s[i - 1] else null
  }

  /** The application-order list: every node once, doubly linked through prev and next. */
  ghost predicate AppLinked(s: seq<Node>)
    reads s`next, s`prev
  {
    NoDup(s) && Forward(s) && Backward(s)
  }

  ghost predicate ChainForward(c: seq<Node>)
    reads c`hhNext
  {
    forall i {:trigger c[i].hhNext} :: 0 <= i < |c| ==> c[i].hhNext == if i + 1 < |c| then c[i + 1] else null
  }

  ghost predicate ChainBackward(c: seq<Node>)
    reads c`hhPrev
  {
    forall i {:trigger c[i].hhPrev} :: 0 <= i < |c| ==> c[i].hhPrev == if 0 < i then c[i - 1] else null
  }

  /** A bucket chain: every node once, doubly linked through hh_prev and hh_next. */
  ghost predicate ChainLinked(c: seq<Node>)
    reads c`hhNext, c`hhPrev
  {
    NoDup(c) && ChainForward(c) && ChainBackward(c)
  }

  // ---- bucket arrays and the chains they represent

  /** The chains hold exactly the nodes of s, each in the bucket its hash selects among m. */
  ghost predicate Members(cs: seq<seq<Node>>, m: nat, s: seq<Node>)
    reads s`hashv
  {
    && 0 < m == |cs|
    && (forall b, j {:trigger cs[b][j]} :: 0 <= b < m && 0 <= j < |cs[b]| ==>
      cs[b][j] in s && cs[b][j].hashv % m == b)
    && (forall n {:trigger n in s} :: n in s ==> n in cs[n.hashv % m])
  }

  ghost function NodesOf(cs: seq<seq<Node>>): set<Node> {
    set b, j | 0 <= b < |cs| && 0 <= j < |cs[b]| :: cs[b][j]
  }

  /** Bucket b of the array points at the head of chain b and counts it. */
  ghost predicate BucketAt(bs: array<Bucket>, cs: seq<seq<Node>>, b: nat)
    requires b < bs.Length == |cs|
    reads bs, cs[b]`hhNext, cs[b]`hhPrev
  {
    ChainLinked(cs[b]) && bs[b].hhHead == First(cs[b]) && bs[b].count == |cs[b]|
  }

  ghost predicate Links(bs: array<Bucket>, cs: seq<seq<Node>>)
    reads bs, NodesOf(cs)`hhNext, NodesOf(cs)`hhPrev
  {
    && bs.Length == |cs|
    && (forall b :: 0 <= b < |cs| ==> BucketAt(bs, cs, b))
  }

  /** Nodes beyond the first `ideal` of their chain, over all chains. */
  ghost function Over(cs: seq<seq<Node>>, ideal: nat): nat {
    if cs == [] then 0 else (if |cs[0]| > ideal then |cs[0]| - ideal else 0) + Over(cs[1..], ideal)
  }

  lemma {:induction false} OverUpdate(cs: seq<seq<Node>>, ideal: nat, b: nat, c: seq<Node>)
    requires b < |cs|
    ensures Over(cs[b := c], ideal) == Over(cs, ideal)
      - (if |cs[b]| > ideal then |cs[b]| - ideal else 0) + (if |c| > ideal then |c| - ideal else 0)
  {
    if b == 0 {
      assert cs[b := c][1..] == cs[1..];
    } else {
      assert cs[b := c][1..] == cs[1..][b - 1 := c];
      OverUpdate(cs[1..], ideal, b - 1, c);
    }
  }

  lemma {:induction false} OverEmpty(cs: seq<seq<Node>>, ideal: nat)
    requires forall b :: 0 <= b < |cs| ==> cs[b] == []
    ensures Over(cs, ideal) == 0
  {
    if cs != [] {
      OverEmpty(cs[1..], ideal);
    }
  }

  lemma Apart(cs: seq<seq<Node>>, m: nat, s: seq<Node>, b: nat, c: nat)
    requires Members(cs, m, s) && b < m && c < m && b != c
    ensures forall x :: x in cs[b] ==> x in s && x !in cs[c]
  {}

  lemma PushMembers(cs: seq<seq<Node>>, b: nat, n: Node, m: nat, s: seq<Node>)
    requires Members(cs, m, s) && b == n.hashv % m
    ensures Members(cs[b := [n] + cs[b]], m, s + [n])
  {
    var cs' := cs[b := [n] + cs[b]];
    assert cs'[b][0] == n;
    forall x | x in s ensures x in cs'[x.hashv % m] {
      assert x in cs[x.hashv % m];
    }
  }

  /** The pointer writes that make n the new head of bucket b. */
  method LinkFront(bs: array<Bucket>, b: nat, n: Node, mult: nat, ghost c: seq<Node>)
    requires b < bs.Length && ChainLinked(c) && n !in c
    requires bs[b].hhHead == First(c) && bs[b].count == |c|
    modifies bs, n`hhNext, n`hhPrev, c`hhPrev
    ensures ChainLinked([n] + c)
    ensures bs[..] == old(bs[..])[b := Bucket(n, |c| + 1, mult)]
  {
    var bk := bs[b];
    n.hhNext := bk.hhHead;
    n.hhPrev := null;
    if bk.hhHead != null {
      bk.hhHead.hhPrev := n;
    }
    bs[b] := Bucket(n, bk.count + 1, mult);
  }

  /** Push n in front of the chain its hash selects. */
  method PushFront(bs: array<Bucket>, b: nat, n: Node, mult: nat,
                   ghost cs: seq<seq<Node>>, ghost m: nat, ghost s: seq<Node>)
    requires Members(cs, m, s) && Links(bs, cs) && n !in s && b == n.hashv % m
    modifies bs, n`hhNext, n`hhPrev, cs[b]`hhPrev
    ensures Members(cs[b := [n] + cs[b]], m, s + [n])
    ensures Links(bs, cs[b := [n] + cs[b]])
    ensures bs[..] == old(bs[..])[b := Bucket(n, |cs[b]| + 1, mult)]
  {
    PushMembers(cs, b, n, m, s);
    assert BucketAt(bs, cs, b);
    LinkFront(bs, b, n, mult, cs[b]);
    ghost var cs' := cs[b := [n] + cs[b]];
    forall c | 0 <= c < m ensures BucketAt(bs, cs', c) {
      if c != b {
        Apart(cs, m, s, c, b);
        assert old(BucketAt(bs, cs, c));
      }
    }
  }

  // ---- unlinking

  lemma RemoveMembers(cs: seq<seq<Node>>, b: nat, j: nat, m: nat, s: seq<Node>, k: nat)
    requires Members(cs, m, s) && NoDup(s) && k < |s| && b == s[k].hashv % m
    requires NoDup(cs[b]) && j < |cs[b]| && cs[b][j] == s[k]
    ensures Members(cs[b := RemoveAt(cs[b], j)], m, RemoveAt(s, k))
  {
    var n, s' := s[k], RemoveAt(s, k);
    var c' := RemoveAt(cs[b], j);
    var cs' := cs[b := c'];
    forall x | x in s && x != n ensures x in s' && x in cs'[x.hashv % m] {
      assert x in cs[x.hashv % m];
    }
    forall x | x in c' ensures x in cs[b] && x != n {}
    forall x | x in s' ensures x in s && x != n {}
  }

  /** HASH_DEL_IN_BKT: take n, which is at place j of chain c, out of bucket b. */
  method UnlinkBucket(bs: array<Bucket>, b: nat, n: Node, ghost c: seq<Node>, ghost j: nat)
    requires b < bs.Length && ChainLinked(c) && j < |c| && c[j] == n
    requires bs[b].hhHead == First(c) && bs[b].count == |c|
    modifies bs, c`hhNext, c`hhPrev
    ensures ChainLinked(RemoveAt(c, j))
    ensures bs[..] == old(bs[..])[b := Bucket(First(RemoveAt(c, j)), |c| - 1, old(bs[b].expandMult))]
  {
    var bk := bs[b].(count := bs[b].count - 1);
    if bk.hhHead == n {
      bk := bk.(hhHead := n.hhNext);
    }
    if n.hhPrev != null {
      n.hhPrev.hhNext := n.hhNext;
    }
    if n.hhNext != null {
      n.hhNext.hhPrev := n.hhPrev;
    }
    bs[b] := bk;
  }

  lemma PlaceInChain(cs: seq<seq<Node>>, m: nat, s: seq<Node>, n: Node) returns (j: nat)
    requires Members(cs, m, s) && n in s
    ensures j < |cs[n.hashv % m]| && cs[n.hashv % m][j] == n
  {
    j :| 0 <= j < |cs[n.hashv % m]| && cs[n.hashv % m][j] == n;
  }

  /** Take n, at place k of s and place j of its chain, out of its bucket. */
  method DropFromChain(bs: array<Bucket>, b: nat, n: Node,
                       ghost cs: seq<seq<Node>>, ghost m: nat, ghost s: seq<Node>, ghost k: nat, ghost j: nat)
    requires Members(cs, m, s) && Links(bs, cs) && NoDup(s) && k < |s| && s[k] == n
    requires b == n.hashv % m && j < |cs[b]| && cs[b][j] == n
    modifies bs, cs[b]`hhNext, cs[b]`hhPrev
    ensures Members(cs[b := RemoveAt(cs[b], j)], m, RemoveAt(s, k))
    ensures Links(bs, cs[b := RemoveAt(cs[b], j)])
  {
    assert BucketAt(bs, cs, b);
    RemoveMembers(cs, b, j, m, s, k);
    UnlinkBucket(bs, b, n, cs[b], j);
    ghost var cs' := cs[b := RemoveAt(cs[b], j)];
    forall c | 0 <= c < m ensures BucketAt(bs, cs', c) {
      if c != b {
        Apart(cs, m, s, c, b);
        assert old(BucketAt(bs, cs, c));
      }
    }
  }
}
