/** The hash table of bounds (uthash): bucket chains, the application-order list, expansion, ordered
    insertion and sorting, each over nodes linked in place. */
module Uthash {
  import opened Bits
  import opened Nodes
  import opened Expansion
  import opened Order
  import ListSort

  const INITIAL_NUM_BUCKETS: nat := 32
  const INITIAL_NUM_BUCKETS_LOG2: nat := 5
  const BKT_CAPACITY_THRESH: nat := 10

  class HashTable {
    const hash: int -> nat
    var head: Node?
    var tail: Node?
    var buckets: array<Bucket>
    var numBuckets: nat
    var log2NumBuckets: nat
    var numItems: nat
    var idealChainMaxlen: nat
    var nonidealItems: nat
    var ineffExpands: nat
    var noexpand: bool
    ghost var Items: seq<Node>
    ghost var Chains: seq<seq<Node>>

    constructor (h: int -> nat)
      ensures Valid() && Items == [] && hash == h && fresh(buckets)
    {
      hash := h;
      head, tail := null, null;
      buckets := new Bucket[0];
      numBuckets, log2NumBuckets, numItems := 0, 0, 0;
      idealChainMaxlen, nonidealItems, ineffExpands, noexpand := 0, 0, 0, false;
      Items, Chains := [], [];
    }

    /** The bucket side of the table holds exactly the nodes of s. */
    ghost predicate Hashed(s: seq<Node>)
      reads this`Chains, this`buckets, this`numBuckets, this`log2NumBuckets, buckets,
        s`hashv, s`hhNext, s`hhPrev
    {
      && numBuckets == Pow2(log2NumBuckets)
      && Members(Chains, numBuckets, s)
      && NodesOf(Chains) <= (set n | n in s)
      && Links(buckets, Chains)
      && Over(Chains, 0) == |s|
      && (forall n :: n in s ==> n.hashv == hash(n.entry.handle))
    }

    /** The application-order side: head and tail are the ends of a doubly linked list of Items. */
    ghost predicate Listed()
      reads this`head, this`tail, this`Items, Items`next, Items`prev
    {
      AppLinked(Items) && head == First(Items) && tail == Last(Items)
    }

    /** What HASH_FSCK checks, with placement, agreement of the two lists and the tail added. */
    ghost predicate Valid()
      reads this, buckets, Items
    {
      && (head == null <==> Items == [])
      && (Items != [] ==> Listed() && Hashed(Items) && numItems == |Items|)
    }

    // HASH_MAKE_TABLE
    method MakeTable(n: Node)
      modifies this`tail, this`numItems, this`Chains, this`buckets, this`numBuckets, this`log2NumBuckets,
        this`idealChainMaxlen, this`nonidealItems, this`ineffExpands, this`noexpand
      ensures fresh(buckets) && tail == n && numItems == 0 && Hashed([]) && numBuckets == 32
      ensures forall b :: 0 <= b < 32 ==> buckets[b] == Bucket(null, 0, 0)
      ensures idealChainMaxlen == 0 && nonidealItems == 0 && ineffExpands == 0 && !noexpand
    {
      var bs := new Bucket[INITIAL_NUM_BUCKETS](_ => Bucket(null, 0, 0));
      EmptyBuckets(bs, INITIAL_NUM_BUCKETS, 0);
      tail, numItems := n, 0;
      numBuckets, log2NumBuckets := INITIAL_NUM_BUCKETS, INITIAL_NUM_BUCKETS_LOG2;
      idealChainMaxlen, nonidealItems, ineffExpands, noexpand := 0, 0, 0, false;
      buckets, Chains := bs, seq(INITIAL_NUM_BUCKETS, _ => []);
      assert Pow2(5) == 32;
    }

    // HASH_APPEND_LIST
    method AppendList(n: Node)
      requires Items != [] && Listed() && n !in Items
      modifies this`tail, this`Items, n`next, n`prev, Items`next
      ensures Items == old(Items) + [n] && Listed()
    {
      n.next := null;
      n.prev := tail;
      tail.next := n;
      tail := n;
      Items := Items + [n];
    }

    /** The first add makes the table and its one-element list. */
    method StartTable(n: Node)
      modifies this, n`next, n`prev
      ensures Items == [n] && Listed() && Hashed([]) && numItems == 0 && fresh(buckets)
      ensures numBuckets == 32 && !noexpand && forall b :: 0 <= b < 32 ==> buckets[b] == Bucket(null, 0, 0)
    {
      n.next, n.prev := null, null;
      MakeTable(n);
      head, Items := n, [n];
    }

    /** Every bucket's multiplier is what moving its chain in one node at a time makes it. */
    static ghost predicate Multiplied(bs: array<Bucket>, cs: seq<seq<Node>>, ideal: nat)
      requires bs.Length == |cs|
      reads bs
    {
      forall b {:trigger cs[b]} :: 0 <= b < |cs| ==> bs[b].expandMult == MultAfter(|cs[b]|, ideal)
    }

    /** Expansion moves one node to its new bucket. */
    static method MoveNode(n: Node, nb: array<Bucket>, ideal: nat, nonideal: nat,
                           ghost cs: seq<seq<Node>>, ghost done: seq<Node>)
      returns (nonideal': nat, ghost cs': seq<seq<Node>>)
      requires n !in done && PowerOfTwo(nb.Length)
      requires Members(cs, nb.Length, done) && Links(nb, cs) && Multiplied(nb, cs, ideal)
      requires Over(cs, 0) == |done| && Over(cs, ideal) == nonideal
      modifies nb, n`hhNext, n`hhPrev, done`hhPrev
      ensures Members(cs', nb.Length, done + [n]) && Links(nb, cs') && Multiplied(nb, cs', ideal)
      ensures Over(cs', 0) == |done| + 1 && Over(cs', ideal) == nonideal'
    {
      BucketIsRemainder(n.hashv, nb.Length);
      var b := ToBucket(n.hashv, nb.Length);
      var count, mult := nb[b].count + 1, nb[b].expandMult;
      assert BucketAt(nb, cs, b);
      nonideal' := nonideal;
      if count > ideal {
        nonideal' := nonideal' + 1;
        if count > mult * ideal {
          mult := mult + 1;
        }
      }
      cs' := cs[b := [n] + cs[b]];
      OverUpdate(cs, 0, b, [n] + cs[b]);
      OverUpdate(cs, ideal, b, [n] + cs[b]);
      PushFront(nb, b, n, mult, cs, nb.Length, done);
    }

    static lemma MovedNext(c: seq<Node>, done: seq<Node>, k: nat)
      requires k < |c| && NoDup(c) && forall x :: x in c ==> x !in done
      ensures done + c[..k] + [c[k]] == done + c[..k + 1]
      ensures forall i :: k <= i < |c| ==> c[i] !in done + c[..k]
    {}

    /** The inner loop of an expansion: move the chain c, headed by `first`, to the new buckets. */
    static method MoveChain(first: Node?, nb: array<Bucket>, ideal: nat, nonideal: nat,
                            ghost c: seq<Node>, ghost cs: seq<seq<Node>>, ghost done: seq<Node>)
      returns (nonideal': nat, ghost cs': seq<seq<Node>>)
      requires first == First(c) && ChainLinked(c) && PowerOfTwo(nb.Length) && forall x :: x in c ==> x !in done
      requires Members(cs, nb.Length, done) && Links(nb, cs) && Multiplied(nb, cs, ideal)
      requires Over(cs, 0) == |done| && Over(cs, ideal) == nonideal
      modifies nb, c`hhNext, c`hhPrev, done`hhPrev
      ensures Members(cs', nb.Length, done + c) && Links(nb, cs') && Multiplied(nb, cs', ideal)
      ensures Over(cs', 0) == |done + c| && Over(cs', ideal) == nonideal'
    {
      var thh := first;
      nonideal', cs' := nonideal, cs;
      ghost var k, moved := 0, done;
      while thh != null
        invariant 0 <= k <= |c| && thh == (if k < |c| then c[k] else null) && moved == done + c[..k]
        invariant Members(cs', nb.Length, moved) && Links(nb, cs') && Multiplied(nb, cs', ideal)
        invariant Over(cs', 0) == |moved| && Over(cs', ideal) == nonideal'
        invariant forall i :: k <= i < |c| ==> c[i].hhNext == old(c[i].hhNext)
        decreases |c| - k
      {
        var nxt := thh.hhNext;
        MovedNext(c, done, k);
        nonideal', cs' := MoveNode(thh, nb, ideal, nonideal', cs', moved);
        moved, thh, k := moved + [thh], nxt, k + 1;
      }
      assert c[..k] == c;
    }

    static lemma OldChain(cs: seq<seq<Node>>, m: nat, s: seq<Node>, i: nat)
      requires Members(cs, m, s) && i < m
      ensures forall x :: x in cs[i] <==> x in s && x.hashv % m == i
    {}

    static lemma SameMembers(cs: seq<seq<Node>>, m: nat, done: seq<Node>, s: seq<Node>)
      requires Members(cs, m, done) && forall x :: x in s <==> x in done
      ensures Members(cs, m, s) && NodesOf(cs) <= set x | x in s
    {
      assert forall b, j :: 0 <= b < m && 0 <= j < |cs[b]| ==> cs[b][j] in done;
    }

    static lemma EmptyBuckets(nb: array<Bucket>, m: nat, ideal: nat)
      requires 0 < m == nb.Length && forall b :: 0 <= b < m ==> nb[b] == Bucket(null, 0, 0)
      ensures var nc := seq(m, _ => []);
        Members(nc, m, []) && Links(nb, nc) && Multiplied(nb, nc, ideal) && Over(nc, 0) == 0 && Over(nc, ideal) == 0
    {
      var nc: seq<seq<Node>> := seq(m, _ => []);
      OverEmpty(nc, 0);
      OverEmpty(nc, ideal);
      assert forall b :: 0 <= b < m ==> BucketAt(nb, nc, b);
    }

    /** Untouched nodes still form the chain they formed before. */
    static twostate lemma ChainKept(c: seq<Node>)
      requires old(ChainLinked(c))
      requires forall x :: x in c ==> x.hhNext == old(x.hhNext) && x.hhPrev == old(x.hhPrev)
      ensures ChainLinked(c)
    {}

    /** One round of the outer loop of an expansion. */
    static method MoveBucket(bs: array<Bucket>, n0: nat, i: nat, nb: array<Bucket>, ideal: nat, nonideal: nat,
                             ghost cs: seq<seq<Node>>, ghost s: seq<Node>,
                             ghost nc: seq<seq<Node>>, ghost done: seq<Node>)
      returns (nonideal': nat, ghost nc': seq<seq<Node>>)
      requires Members(cs, n0, s) && bs != nb && i < n0 == bs.Length && PowerOfTwo(nb.Length)
      requires ChainLinked(cs[i]) && bs[i].hhHead == First(cs[i])
      requires forall x :: x in done <==> x in s && x.hashv % n0 < i
      requires Members(nc, nb.Length, done) && Links(nb, nc) && Multiplied(nb, nc, ideal)
      requires Over(nc, 0) == |done| && Over(nc, ideal) == nonideal
      modifies nb, s`hhNext, s`hhPrev
      ensures Members(nc', nb.Length, done + cs[i]) && Links(nb, nc') && Multiplied(nb, nc', ideal)
      ensures Over(nc', 0) == |done + cs[i]| && Over(nc', ideal) == nonideal'
      ensures forall x :: x in done + cs[i] <==> x in s && x.hashv % n0 < i + 1
      ensures forall x :: x in s && x.hashv % n0 > i ==> x.hhNext == old(x.hhNext) && x.hhPrev == old(x.hhPrev)
    {
      OldChain(cs, n0, s, i);
      assert forall k :: 0 <= k < |done| ==> done[k] in s;
      assert forall k :: 0 <= k < |cs[i]| ==> cs[i][k] in s;
      nonideal', nc' := MoveChain(bs[i].hhHead, nb, ideal, nonideal, cs[i], nc, done);
    }

    static lemma OverStep(cs: seq<seq<Node>>, i: nat)
      requires i < |cs|
      ensures Over(cs[i..], 0) == |cs[i]| + Over(cs[i + 1..], 0)
    {
      assert cs[i..][1..] == cs[i + 1..];
    }

    /** The outer loop of an expansion: move every old chain into the (empty) new buckets. */
    static method MoveAll(bs: array<Bucket>, n0: nat, nb: array<Bucket>, ideal: nat,
                          ghost cs: seq<seq<Node>>, ghost s: seq<Node>)
      returns (nonideal: nat, ghost nc: seq<seq<Node>>)
      requires Members(cs, n0, s) && Links(bs, cs) && Over(cs, 0) == |s| && bs != nb
      requires PowerOfTwo(nb.Length) && 0 < nb.Length && forall b :: 0 <= b < nb.Length ==> nb[b] == Bucket(null, 0, 0)
      modifies nb, s`hhNext, s`hhPrev
      ensures Members(nc, nb.Length, s) && Links(nb, nc) && Multiplied(nb, nc, ideal)
      ensures NodesOf(nc) <= set x | x in s
      ensures Over(nc, 0) == |s| && Over(nc, ideal) == nonideal
    {
      EmptyBuckets(nb, nb.Length, ideal);
      nonideal, nc := 0, seq(nb.Length, _ => []);
      ghost var done: seq<Node> := [];
      assert cs[0..] == cs;
      for i := 0 to n0
        invariant Members(nc, nb.Length, done) && Links(nb, nc) && Multiplied(nb, nc, ideal)
        invariant Over(nc, 0) == |done| && Over(nc, ideal) == nonideal
        invariant |done| + Over(cs[i..], 0) == |s|
        invariant forall x :: x in done <==> x in s && x.hashv % n0 < i
        invariant forall x :: x in s && x.hashv % n0 >= i ==> x.hhNext == old(x.hhNext) && x.hhPrev == old(x.hhPrev)
      {
        assert old(BucketAt(bs, cs, i));
        OldChain(cs, n0, s, i);
        ChainKept(cs[i]);
        OverStep(cs, i);
        nonideal, nc := MoveBucket(bs, n0, i, nb, ideal, nonideal, cs, s, nc, done);
        done := done + cs[i];
      }
      SameMembers(nc, nb.Length, done, s);
    }

    /** Judge an expansion by the nodes it left beyond the ideal length. */
    method Judge(ideal: nat, nonideal: nat)
      modifies this`idealChainMaxlen, this`nonidealItems, this`ineffExpands, this`noexpand
      ensures idealChainMaxlen == ideal && nonidealItems == nonideal
      ensures ineffExpands == if nonideal > numItems / 2 then old(ineffExpands) + 1 else 0
      ensures noexpand == (old(noexpand) || ineffExpands > 1)
    {
      idealChainMaxlen, nonidealItems := ideal, nonideal;
      ineffExpands := if nonidealItems > numItems / 2 then ineffExpands + 1 else 0;
      if ineffExpands > 1 {
        noexpand := true;
      }
    }

    /** Switch to the new buckets. */
    method Install(newBuckets: array<Bucket>, ghost nc: seq<seq<Node>>, ghost s: seq<Node>)
      requires numBuckets == Pow2(log2NumBuckets)
      requires Members(nc, 2 * numBuckets, s) && Links(newBuckets, nc) && NodesOf(nc) <= set x | x in s
      requires Over(nc, 0) == |s| && forall x :: x in s ==> x.hashv == hash(x.entry.handle)
      modifies this`Chains, this`buckets, this`numBuckets, this`log2NumBuckets
      ensures Hashed(s) && buckets == newBuckets && Chains == nc && numBuckets == 2 * old(numBuckets)
    {
      numBuckets, log2NumBuckets := numBuckets * 2, log2NumBuckets + 1;
      buckets, Chains := newBuckets, nc;
    }

    /** Double the bucket array and move every node to its new bucket. */
    method Redistribute(ideal: nat, ghost s: seq<Node>) returns (nonideal: nat)
      requires Hashed(s)
      modifies this`Chains, this`buckets, this`numBuckets, this`log2NumBuckets, s`hhNext, s`hhPrev
      ensures Hashed(s) && fresh(buckets) && numBuckets == 2 * old(numBuckets)
      ensures nonideal == Over(Chains, ideal)
      ensures buckets.Length == |Chains| && Multiplied(buckets, Chains, ideal)
    {
      var newBuckets := new Bucket[numBuckets * 2](_ => Bucket(null, 0, 0));
      ghost var nc;
      assert Pow2(log2NumBuckets + 1) == newBuckets.Length;
      nonideal, nc := MoveAll(buckets, numBuckets, newBuckets, ideal, Chains, s);
      Install(newBuckets, nc, s);
    }

    // HASH_EXPAND_BUCKETS
    method ExpandBuckets(ghost s: seq<Node>)
      requires Hashed(s) && numItems == |s| > 0
      modifies this`Chains, this`buckets, this`numBuckets, this`log2NumBuckets, this`idealChainMaxlen,
        this`nonidealItems, this`ineffExpands, this`noexpand, s`hhNext, s`hhPrev
      ensures Hashed(s) && fresh(buckets) && numBuckets == 2 * old(numBuckets)
      ensures idealChainMaxlen == CeilDiv(numItems, numBuckets)
      ensures nonidealItems == Over(Chains, idealChainMaxlen)
      ensures buckets.Length == |Chains| && Multiplied(buckets, Chains, idealChainMaxlen)
      ensures ineffExpands == if nonidealItems > numItems / 2 then old(ineffExpands) + 1 else 0
      ensures noexpand == (old(noexpand) || ineffExpands > 1)
    {
      var ideal := IdealMaxlen(numItems, log2NumBuckets + 1);
      IdealIsCeiling(numItems, log2NumBuckets + 1);
      var nonideal := Redistribute(ideal, s);
      Judge(ideal, nonideal);
    }

    /** Push n onto its bucket, as HASH_ADD_TO_BKT does before it looks at the chain length. */
    method PushBucket(b: nat, n: Node, ghost s: seq<Node>)
      requires Hashed(s) && n !in s && n.hashv == hash(n.entry.handle) && b == n.hashv % numBuckets
      modifies this`Chains, buckets, n`hhNext, n`hhPrev, s`hhPrev
      ensures Hashed(s + [n])
      ensures buckets[b] == Bucket(n, old(buckets[b]).count + 1, old(buckets[b]).expandMult)
    {
      OverUpdate(Chains, 0, b, [n] + Chains[b]);
      assert BucketAt(buckets, Chains, b);
      PushFront(buckets, b, n, buckets[b].expandMult, Chains, numBuckets, s);
      Chains := Chains[b := [n] + Chains[b]];
    }

    // HASH_ADD_TO_BKT
    method AddToBkt(b: nat, n: Node, ghost s: seq<Node>)
      requires Hashed(s) && n !in s && n.hashv == hash(n.entry.handle) && b == n.hashv % numBuckets
      requires numItems == |s| + 1
      modifies this`Chains, this`buckets, this`numBuckets, this`log2NumBuckets, this`idealChainMaxlen,
        this`nonidealItems, this`ineffExpands, this`noexpand, buckets, n`hhNext, n`hhPrev, s`hhNext, s`hhPrev
      ensures Hashed(s + [n])
      ensures if old(buckets[b].count + 1 >= (buckets[b].expandMult + 1) * 10 && !noexpand)
        then fresh(buckets) && numBuckets == 2 * old(numBuckets) && idealChainMaxlen == CeilDiv(numItems, numBuckets)
        else buckets == old(buckets) && numBuckets == old(numBuckets) && idealChainMaxlen == old(idealChainMaxlen)
      ensures if numBuckets == old(numBuckets)
        then noexpand == old(noexpand) && ineffExpands == old(ineffExpands)
        else noexpand == (ineffExpands > 1) && ineffExpands == if nonidealItems > numItems / 2 then old(ineffExpands) + 1 else 0
    {
      PushBucket(b, n, s);
      if buckets[b].count >= (buckets[b].expandMult + 1) * BKT_CAPACITY_THRESH && !noexpand {
        ExpandBuckets(s + [n]);
      }
    }

    // HASH_ADD_TO_TABLE
    method AddToTable(n: Node, ghost s: seq<Node>)
      requires Hashed(s) && n !in s && n.hashv == hash(n.entry.handle) && numItems == |s|
      modifies this`numItems, this`Chains, this`buckets, this`numBuckets, this`log2NumBuckets, this`idealChainMaxlen,
        this`nonidealItems, this`ineffExpands, this`noexpand, buckets, n`hhNext, n`hhPrev, s`hhNext, s`hhPrev
      ensures Hashed(s + [n]) && numItems == |s| + 1
      ensures old(Listed()) ==> Listed()
      ensures buckets == old(buckets) || fresh(buckets)
      ensures var b := n.hashv % old(numBuckets);
        numBuckets == if old(buckets[b].count + 1 >= (buckets[b].expandMult + 1) * 10 && !noexpand)
          then 2 * old(numBuckets) else old(numBuckets)
      ensures numBuckets == old(numBuckets) ==> noexpand == old(noexpand)
    {
      numItems := numItems + 1;
      BucketIsRemainder(n.hashv, numBuckets);
      AddToBkt(ToBucket(n.hashv, numBuckets), n, s);
    }

    /** Put n at the end of the application-order list, making the table if there is none. */
    method Enlist(n: Node)
      requires Valid() && n !in Items
      modifies this, n`next, n`prev, Items`next
      ensures Items == old(Items) + [n] && Listed() && Hashed(old(Items)) && numItems == |old(Items)|
      ensures buckets == old(buckets) || fresh(buckets)
      ensures if old(head) == null
        then numBuckets == 32 && !noexpand && forall b :: 0 <= b < 32 ==> buckets[b] == Bucket(null, 0, 0)
        else (buckets == old(buckets) && buckets[..] == old(buckets[..]) && numBuckets == old(numBuckets)
              && noexpand == old(noexpand))
    {
      if head == null {
        StartTable(n);
      } else {
        AppendList(n);
      }
    }

    // HASH_ADD_KEYPTR_BYHASHVALUE, hash value included
    method Add(n: Node)
      requires Valid() && n !in Items
      modifies this, buckets, n, Items
      ensures Valid() && Items == old(Items) + [n]
      ensures buckets == old(buckets) || fresh(buckets)
      ensures old(head) == null ==> numBuckets == 32
      ensures old(head) != null ==>
        var b := hash(n.entry.handle) % old(numBuckets);
        numBuckets == if old(buckets[b].count + 1 >= (buckets[b].expandMult + 1) * 10 && !noexpand)
          then 2 * old(numBuckets) else old(numBuckets)
      ensures old(head) != null && numBuckets == old(numBuckets) ==> noexpand == old(noexpand)
    {
      ghost var s := Items;
      n.hashv := hash(n.entry.handle);
      Enlist(n);
      AddToTable(n, s);
    }

    ghost predicate HasKey(key: int)
      reads this`Items
    {
      exists n :: n in Items && n.entry.handle == key
    }

    // HASH_FIND
    method Find(key: int) returns (out: Node?)
      requires Valid()
      ensures out == null <==> !HasKey(key)
      ensures out != null ==> out in Items && out.entry.handle == key
    {
      out := null;
      if head != null {
        var hashv := hash(key);
        BucketIsRemainder(hashv, numBuckets);
        out := FindInBkt(ToBucket(hashv, numBuckets), key, hashv);
      }
    }

    // HASH_FIND_IN_BKT
    method FindInBkt(b: nat, key: int, hashv: nat) returns (out: Node?)
      requires Hashed(Items) && b < numBuckets
      ensures out == null ==> forall n :: n in Chains[b] && n.hashv == hashv ==> n.entry.handle != key
      ensures out != null ==> out in Chains[b] && out.entry.handle == key
    {
      assert BucketAt(buckets, Chains, b);
      ghost var c := Chains[b];
      ghost var k := 0;
      out := buckets[b].hhHead;
      while out != null
        invariant 0 <= k <= |c| && out == if k < |c| then c[k] else null
        invariant forall i :: 0 <= i < k ==> c[i].hashv != hashv || c[i].entry.handle != key
        decreases |c| - k
      {
        if out.hashv == hashv && out.entry.handle == key {
          break;
        }
        out := out.hhNext;
        k := k + 1;
      }
    }

    /** The pointer writes that take n, at place k, out of the application-order list: they link
        the rest r as it was. */
    method Bypass(n: Node, ghost k: nat, ghost r: seq<Node>)
      requires Listed() && |Items| > 1 && k < |Items| && Items[k] == n && |r| == |Items| - 1
      requires forall i {:trigger r[i]} :: 0 <= i < |r| ==> r[i] == if i < k then Items[i] else Items[i + 1]
      modifies this`head, this`tail, Items`next, Items`prev
      ensures head == r[0] && tail == r[|r| - 1] && Forward(r) && Backward(r)
    {
      if n == tail {
        tail := n.prev;
      }
      if n.prev != null {
        n.prev.next := n.next;
      } else {
        head := n.next;
      }
      if n.next != null {
        n.next.prev := n.prev;
      }
    }

    /** Take n, at place k, out of the application-order list. */
    method UnlinkApp(n: Node, ghost k: nat)
      requires Listed() && |Items| > 1 && k < |Items| && Items[k] == n
      modifies this`head, this`tail, this`Items, Items`next, Items`prev
      ensures Items == RemoveAt(old(Items), k) && Listed()
    {
      ghost var r := RemoveAt(Items, k);
      Removed(Items, k);
      Bypass(n, k, r);
      Items := r;
    }

    static lemma Removed(s: seq<Node>, k: nat)
      requires k < |s| && NoDup(s)
      ensures NoDup(RemoveAt(s, k)) && |RemoveAt(s, k)| == |s| - 1
      ensures forall i :: 0 <= i < |s| - 1 ==> RemoveAt(s, k)[i] == if i < k then s[i] else s[i + 1]
    {}

    /** Take n, at place k of s, out of the bucket side of the table. */
    method DropFromTable(n: Node, ghost s: seq<Node>, ghost k: nat)
      requires Hashed(s) && NoDup(s) && k < |s| && s[k] == n
      modifies this`Chains, buckets, s`hhNext, s`hhPrev
      ensures Hashed(RemoveAt(s, k))
    {
      BucketIsRemainder(n.hashv, numBuckets);
      var b := ToBucket(n.hashv, numBuckets);
      ghost var cs := Chains;
      ghost var j := PlaceInChain(Chains, numBuckets, s, n);
      DropFromChain(buckets, b, n, Chains, numBuckets, s, k, j);
      OverUpdate(cs, 0, b, RemoveAt(cs[b], j));
      Chains := cs[b := RemoveAt(cs[b], j)];
    }

    /** Unlink n, at place k, from both lists. */
    method Unlink(n: Node, ghost k: nat)
      requires Listed() && Hashed(Items) && |Items| > 1 && k < |Items| && Items[k] == n
      modifies this`head, this`tail, this`Items, this`Chains, buckets, Items
      ensures Items == RemoveAt(old(Items), k) && Listed() && Hashed(Items)
    {
      ghost var s := Items;
      UnlinkApp(n, k);
      DropFromTable(n, s, k);
    }

    // HASH_DELETE_HH
    method Delete(n: Node)
      requires Valid() && n in Items
      modifies this`head, this`tail, this`Items, this`Chains, this`numItems, buckets, Items
      ensures Valid() && buckets == old(buckets)
      ensures exists k :: 0 <= k < |old(Items)| && old(Items)[k] == n && Items == RemoveAt(old(Items), k)
    {
      ghost var k :| 0 <= k < |Items| && Items[k] == n;
      if n.prev == null && n.next == null {
        head := null;
        Items := [];
      } else {
        Unlink(n, k);
        numItems := numItems - 1;
      }
    }

    /** Find the node n has to go before: the first one that compares greater. */
    method FindPlace(cmp: Cmp, n: Node) returns (iter: Node?, ghost k: nat)
      requires Items != [] && Listed()
      ensures k <= |Items| && iter == if k < |Items| then Items[k] else null
      ensures forall i :: 0 <= i < k ==> Leq(cmp, Items[i], n)
      ensures k < |Items| ==> !Leq(cmp, Items[k], n)
    {
      iter, k := head, 0;
      while iter != null
        invariant 0 <= k <= |Items| && iter == if k < |Items| then Items[k] else null
        invariant forall i :: 0 <= i < k ==> Leq(cmp, Items[i], n)
        decreases |Items| - k
      {
        if cmp(iter.entry, n.entry) > 0 {
          break;
        }
        iter := iter.next;
        k := k + 1;
      }
    }

    static lemma InsertedOnce(s: seq<Node>, k: nat, n: Node)
      requires NoDup(s) && k < |s| && n !in s
      ensures NoDup(s[..k] + [n] + s[k..])
    {}

    /** Link n into the application-order list in front of iter, which is at place k. */
    method InsertBefore(n: Node, iter: Node, ghost k: nat)
      requires Listed() && k < |Items| && Items[k] == iter && n !in Items
      modifies this`head, this`Items, n`next, n`prev, Items`next, Items`prev
      ensures Items == old(Items)[..k] + [n] + old(Items)[k..] && Listed()
    {
      n.next := iter;
      n.prev := iter.prev;
      if n.prev != null {
        n.prev.next := n;
      } else {
        head := n;
      }
      iter.prev := n;
      ghost var s := Items;
      Items := s[..k] + [n] + s[k..];
      InsertedOnce(s, k, n);
      forall i | 0 <= i < |Items|
        ensures Items[i].next == (if i + 1 < |Items| then Items[i + 1] else null)
        ensures Items[i].prev == if 0 < i then Items[i - 1] else null
      {
        assert Items[i] == if i < k then s[i] else if i == k then n else s[i - 1];
      }
    }

    /** Link n into a nonempty application-order list after every node that does not compare greater. */
    method PlaceInOrder(cmp: Cmp, n: Node)
      requires Items != [] && Listed() && n !in Items
      modifies this`head, this`tail, this`Items, n`next, n`prev, Items`next, Items`prev
      ensures Items == Insert(cmp, old(Items), n) && Listed()
    {
      var iter;
      ghost var k;
      iter, k := FindPlace(cmp, n);
      InsertAt(cmp, Items, k, n);
      if iter != null {
        InsertBefore(n, iter, k);
      } else {
        AppendList(n);
      }
    }

    /** Put n at its place in the application-order list, making the table if there is none. */
    method EnlistInOrder(cmp: Cmp, n: Node)
      requires Valid() && n !in Items
      modifies this, n`next, n`prev, Items`next, Items`prev
      ensures Items == Insert(cmp, old(Items), n) && Listed() && Hashed(old(Items)) && numItems == |old(Items)|
      ensures buckets == old(buckets) || fresh(buckets)
      ensures if old(head) == null
        then numBuckets == 32 && !noexpand && forall b :: 0 <= b < 32 ==> buckets[b] == Bucket(null, 0, 0)
        else (buckets == old(buckets) && buckets[..] == old(buckets[..]) && numBuckets == old(numBuckets)
              && noexpand == old(noexpand))
    {
      if head == null {
        StartTable(n);
      } else {
        PlaceInOrder(cmp, n);
      }
    }

    lemma SameHashed(s: seq<Node>, t: seq<Node>)
      requires Hashed(s) && |s| == |t| && forall x :: x in t <==> x in s
      ensures Hashed(t)
    {
      SameMembers(Chains, numBuckets, s, t);
    }

    lemma InsertHashed(cmp: Cmp, s: seq<Node>, n: Node)
      requires Hashed(s + [n])
      ensures Hashed(Insert(cmp, s, n)) && |Insert(cmp, s, n)| == |s| + 1
    {
      InsertMembers(cmp, s, n);
      SameHashed(s + [n], Insert(cmp, s, n));
    }

    // HASH_ADD_KEYPTR_BYHASHVALUE_INORDER, hash value included
    method AddInOrder(cmp: Cmp, n: Node)
      requires Valid() && n !in Items
      modifies this, buckets, n, Items
      ensures Valid() && Items == Insert(cmp, old(Items), n)
      ensures buckets == old(buckets) || fresh(buckets)
      ensures old(head) == null ==> numBuckets == 32
      ensures old(head) != null ==>
        var b := hash(n.entry.handle) % old(numBuckets);
        numBuckets == if old(buckets[b].count + 1 >= (buckets[b].expandMult + 1) * 10 && !noexpand)
          then 2 * old(numBuckets) else old(numBuckets)
      ensures old(head) != null && numBuckets == old(numBuckets) ==> noexpand == old(noexpand)
    {
      ghost var s := Items;
      n.hashv := hash(n.entry.handle);
      EnlistInOrder(cmp, n);
      AddToTable(n, s);
      InsertHashed(cmp, s, n);
    }

    /** Sort the application-order list. */
    method SortItems(cmp: Cmp)
      requires Items != [] && Listed() && TotalPreorder(cmp) && |Items| < 0x1_0000_0000
      modifies this`head, this`tail, this`Items, Items`next, Items`prev
      ensures Items == InsertAll(cmp, [], old(Items)) && Listed()
    {
      ghost var s := Items;
      head, tail := ListSort.SortList(cmp, head, s);
      Items := InsertAll(cmp, [], s);
    }

    // HASH_SRT
    method Sort(cmp: Cmp)
      requires Valid() && TotalPreorder(cmp) && |Items| < 0x1_0000_0000
      modifies this`head, this`tail, this`Items, Items`next, Items`prev
      ensures Valid() && Items == InsertAll(cmp, [], old(Items))
    {
      if head != null {
        ghost var s := Items;
        SortItems(cmp);
        InsertAllMembers(cmp, s);
        SameHashed(s, Items);
      }
    }

    /** The walks of HASH_FSCK end: following hh_next from each bucket gives a chain of cs, and
        following next from the head gives items. Nothing else about the table need be right. */
    ghost predicate Traversable(cs: seq<seq<Node>>, items: seq<Node>)
      reads this`head, this`buckets, this`numBuckets, buckets, NodesOf(cs)`hhNext, items`next
    {
      && buckets.Length == numBuckets == |cs| && head == First(items) && Forward(items)
      && (forall b :: 0 <= b < |cs| ==> buckets[b].hhHead == First(cs[b]) && ChainForward(cs[b]))
    }

    /** What HASH_FSCK looks at on those walks. */
    ghost predicate Consistent(cs: seq<seq<Node>>, items: seq<Node>)
      requires buckets.Length == |cs|
      reads this`buckets, this`numItems, buckets, NodesOf(cs)`hhPrev, items`prev
    {
      && (forall b :: 0 <= b < |cs| ==> ChainBackward(cs[b]) && buckets[b].count == |cs[b]|)
      && Over(cs, 0) == numItems && Backward(items) && |items| == numItems
    }

    /** HASH_FSCK on one bucket chain. */
    method FsckBucket(b: nat, ghost c: seq<Node>) returns (ok: bool, bktCount: nat)
      requires b < buckets.Length && buckets[b].hhHead == First(c) && ChainForward(c)
      ensures bktCount == |c| && (ok <==> ChainBackward(c) && buckets[b].count == |c|)
    {
      ok, bktCount := true, 0;
      var thh := buckets[b].hhHead;
      var prev: Node? := null;
      while thh != null
        invariant bktCount <= |c| && thh == if bktCount < |c| then c[bktCount] else null
        invariant prev == if bktCount > 0 then c[bktCount - 1] else null
        invariant ok <==> forall i :: 0 <= i < bktCount ==> c[i].hhPrev == if 0 < i then c[i - 1] else null
        decreases |c| - bktCount
      {
        if prev != thh.hhPrev {
          ok := false;
        }
        bktCount := bktCount + 1;
        prev := thh;
        thh := thh.hhNext;
      }
      if buckets[b].count != bktCount {
        ok := false;
      }
    }

    /** HASH_FSCK on the application-order list. */
    method FsckList(ghost items: seq<Node>) returns (ok: bool, count: nat)
      requires head == First(items) && Forward(items)
      ensures count == |items| && (ok <==> Backward(items))
    {
      ok, count := true, 0;
      var thh := head;
      var prev: Node? := null;
      while thh != null
        invariant count <= |items| && thh == if count < |items| then items[count] else null
        invariant prev == if count > 0 then items[count - 1] else null
        invariant ok <==> forall i :: 0 <= i < count ==> items[i].prev == if 0 < i then items[i - 1] else null
        decreases |items| - count
      {
        if prev != thh.prev {
          ok := false;
        }
        count := count + 1;
        prev := thh;
        thh := thh.next;
      }
    }

    /** HASH_FSCK on all buckets. */
    method FsckBuckets(ghost cs: seq<seq<Node>>) returns (ok: bool, count: nat)
      requires buckets.Length == numBuckets == |cs|
      requires forall b :: 0 <= b < |cs| ==> buckets[b].hhHead == First(cs[b]) && ChainForward(cs[b])
      ensures count == Over(cs, 0)
      ensures ok <==> forall b :: 0 <= b < |cs| ==> ChainBackward(cs[b]) && buckets[b].count == |cs[b]|
    {
      ok, count := true, 0;
      assert cs[0..] == cs;
      for b := 0 to numBuckets
        invariant count + Over(cs[b..], 0) == Over(cs, 0)
        invariant ok <==> forall c :: 0 <= c < b ==> ChainBackward(cs[c]) && buckets[c].count == |cs[c]|
      {
        var fine, bktCount := FsckBucket(b, cs[b]);
        ok := ok && fine;
        count := count + bktCount;
        OverStep(cs, b);
      }
    }

    /** HASH_FSCK, on any table whose walks end: it finds fault exactly if some back pointer is wrong
        or some count is. */
    method Fsck(ghost cs: seq<seq<Node>>, ghost items: seq<Node>) returns (ok: bool)
      requires head != null ==> Traversable(cs, items)
      ensures ok <==> (head != null ==> Consistent(cs, items))
    {
      ok := true;
      if head != null {
        var fine, count := FsckBuckets(cs);
        var listed, appCount := FsckList(items);
        ok := fine && count == numItems && listed && appCount == numItems;
      }
    }

    /** A valid table passes. */
    lemma ValidPasses()
      requires Valid()
      ensures head != null ==> Traversable(Chains, Items) && Consistent(Chains, Items)
    {
      if head != null {
        forall b | 0 <= b < |Chains|
          ensures buckets[b].hhHead == First(Chains[b]) && ChainForward(Chains[b])
          ensures ChainBackward(Chains[b]) && buckets[b].count == |Chains[b]|
        {
          assert BucketAt(buckets, Chains, b);
        }
      }
    }

    /** Delete the first node. */
    method DeleteFirst(el: Node)
      requires Valid() && Items != [] && el == Items[0]
      modifies this`head, this`tail, this`Items, this`Chains, this`numItems, buckets, Items
      ensures Valid() && buckets == old(buckets) && Items == old(Items)[1..]
    {
      ghost var s := Items;
      Delete(el);
      ghost var k :| 0 <= k < |s| && s[k] == el && Items == RemoveAt(s, k);
      assert k == 0;
    }

    /** HASH_ITER deleting as it goes. */
    method DeleteAll()
      requires Valid()
      modifies this`head, this`tail, this`Items, this`Chains, this`numItems, buckets, Items
      ensures Valid() && Items == [] && buckets == old(buckets)
    {
      var el := head;
      var tmp := if head != null then head.next else null;
      while el != null
        invariant Valid() && buckets == old(buckets) && Within(Items, old(Items))
        invariant el == First(Items) && (Items != [] ==> tmp == if |Items| > 1 then Items[1] else null)
        decreases |Items|
      {
        DeleteFirst(el);
        el := tmp;
        tmp := if tmp != null then tmp.next else null;
      }
    }
  }
}
