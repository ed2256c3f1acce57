/** The abstract contents of the hash table: one chain per bucket, each chain
    the sequence of (key, value) nodes from the head (index 0) to the tail.
    The functions here specify what the table operations do to that sequence
    of chains; the lemmas state what the operations promise about it. */
module Chains {

  /** One chain node's payload (struct node: key and value; `next` is the
      position in the sequence). */
  datatype Entry = Entry(key: string, value: int)

  type Chain = seq<Entry>

  /** The number of nodes in all chains together. */
  function Count(cs: seq<Chain>): (n: nat)
    ensures n == 0 <==> forall i :: 0 <= i < |cs| ==> cs[i] == []
    ensures forall i :: 0 <= i < |cs| ==> |cs[i]| <= n
  {
    if cs == [] then 0 else Count(cs[..|cs| - 1]) + |cs[|cs| - 1]|
  }

  /** Counting a prefix one chain further adds that chain's length. */
  lemma CountStep(cs: seq<Chain>, i: int)
    requires 0 <= i < |cs|
    ensures Count(cs[..i + 1]) == Count(cs[..i]) + |cs[i]|
  {
    assert cs[..i + 1][..i] == cs[..i];
  }

  /** Replacing one chain changes the node count by the difference in length. */
  lemma {:induction false} CountUpdate(cs: seq<Chain>, i: int, c: Chain)
    requires 0 <= i < |cs|
    ensures Count(cs[i := c]) == Count(cs) - |cs[i]| + |c|
  {
    var n := |cs| - 1;
    var cs' := cs[i := c];
    assert Count(cs') == Count(cs'[..n]) + |cs'[n]|;
    assert Count(cs) == Count(cs[..n]) + |cs[n]|;
    if i < n {
      assert cs'[..n] == cs[..n][i := c];
      CountUpdate(cs[..n], i, c);
    } else {
      assert cs'[..n] == cs[..n];
    }
  }

  /** Some node of the chain carries `key`. */
  predicate Contains(c: Chain, key: string)
  {
    exists k :: 0 <= k < |c| && c[k].key == key
  }

  /** The position of the first node, counting from the head, whose key is
      `key`; |c| when there is none. */
  function FirstMatch(c: Chain, key: string): (j: nat)
    ensures j <= |c|
    ensures forall k :: 0 <= k < j ==> c[k].key != key
    ensures j < |c| ==> c[j].key == key
    ensures j < |c| <==> Contains(c, key)
  {
    if c == [] then 0
    else if c[0].key == key then 0
    else 1 + FirstMatch(c[1..], key)
  }

  /** The chain with its first node carrying `key` unlinked; the chain itself
      when no node carries it. The nodes left keep their order. */
  function RemoveFirst(c: Chain, key: string): (r: Chain)
    ensures !Contains(c, key) ==> r == c
    ensures Contains(c, key) ==> |r| == |c| - 1
    ensures var j := FirstMatch(c, key);
      && (forall k :: 0 <= k < j && k < |r| ==> r[k] == c[k])
      && (forall k :: j <= k < |r| ==> r[k] == c[k + 1])
  {
    var j := FirstMatch(c, key);
    if j < |c| then c[..j] + c[j + 1..] else c
  }

  /** Removal takes away exactly the node it finds: the multiset of nodes
      loses that one node and nothing else. */
  lemma RemoveFirstNodes(c: Chain, key: string)
    requires Contains(c, key)
    ensures multiset(RemoveFirst(c, key)) + multiset{c[FirstMatch(c, key)]} == multiset(c)
  {
    var j := FirstMatch(c, key);
    assert RemoveFirst(c, key) == c[..j] + c[j + 1..];
    UnlinkNodes(c, j);
  }

  lemma UnlinkNodes(c: Chain, j: int)
    requires 0 <= j < |c|
    ensures multiset(c[..j] + c[j + 1..]) + multiset{c[j]} == multiset(c)
  {
    var before, after := c[..j], c[j + 1..];
    assert c == before + [c[j]] + after;
    assert multiset(c) == multiset(before) + multiset{c[j]} + multiset(after);
  }

  /** The chains after prepending `e` to chain `i` (hash_table_add). */
  function Inserted(cs: seq<Chain>, i: int, e: Entry): (r: seq<Chain>)
    requires 0 <= i < |cs|
  {
    cs[i := [e] + cs[i]]
  }

  /** The chains after unlinking the first node keyed `key` from chain `i`
      (hash_table_remove). */
  function Removed(cs: seq<Chain>, i: int, key: string): (r: seq<Chain>)
    requires 0 <= i < |cs|
  {
    cs[i := RemoveFirst(cs[i], key)]
  }

  /** The head of chain `i` carries `key`: the case hash_table_remove handles
      before its scan, and the only removal that decrements `total`. */
  predicate HeadMatches(cs: seq<Chain>, i: int, key: string)
    requires 0 <= i < |cs|
  {
    cs[i] != [] && cs[i][0].key == key
  }

  /** Adding puts the new node at the head of its chain, leaves every other
      chain as it was, and adds exactly one node. */
  lemma InsertedShape(cs: seq<Chain>, i: int, e: Entry)
    requires 0 <= i < |cs|
    ensures |Inserted(cs, i, e)| == |cs|
    ensures Inserted(cs, i, e)[i][0] == e && Inserted(cs, i, e)[i][1..] == cs[i]
    ensures forall k :: 0 <= k < |cs| && k != i ==> Inserted(cs, i, e)[k] == cs[k]
    ensures Count(Inserted(cs, i, e)) == Count(cs) + 1
  {
    CountUpdate(cs, i, [e] + cs[i]);
  }

  /** A removal takes one node away exactly when the chain holds the key, and
      touches no other chain. */
  lemma RemovedShape(cs: seq<Chain>, i: int, key: string)
    requires 0 <= i < |cs|
    ensures |Removed(cs, i, key)| == |cs|
    ensures forall k :: 0 <= k < |cs| && k != i ==> Removed(cs, i, key)[k] == cs[k]
    ensures Count(Removed(cs, i, key)) == Count(cs) - (if Contains(cs[i], key) then 1 else 0)
    ensures !Contains(cs[i], key) ==> Removed(cs, i, key) == cs
  {
    CountUpdate(cs, i, RemoveFirst(cs[i], key));
  }

  /** Removing a key right after adding it to the same chain restores the
      chains exactly: the node just added is the first match. */
  lemma RemoveAfterInsert(cs: seq<Chain>, i: int, e: Entry)
    requires 0 <= i < |cs|
    ensures Removed(Inserted(cs, i, e), i, e.key) == cs
    ensures HeadMatches(Inserted(cs, i, e), i, e.key)
  {
    var c := [e] + cs[i];
    assert FirstMatch(c, e.key) == 0;
    assert RemoveFirst(c, e.key) == c[1..] == cs[i];
  }

  /** With duplicate keys, the most recently added node shadows the older
      one: adding (key, v1) and then (key, v2) and removing key leaves the
      (key, v1) node, as if only it had been added. */
  lemma DuplicateShadowing(cs: seq<Chain>, i: int, key: string, v1: int, v2: int)
    requires 0 <= i < |cs|
    ensures Removed(Inserted(Inserted(cs, i, Entry(key, v1)), i, Entry(key, v2)), i, key)
         == Inserted(cs, i, Entry(key, v1))
  {
    RemoveAfterInsert(Inserted(cs, i, Entry(key, v1)), i, Entry(key, v2));
  }

  /** Collisions contributed by one bucket: its length minus one, or zero
      when it is empty. */
  function BucketCollisions(c: Chain): (n: nat)
    ensures n < |c| || c == []
  {
    if c == [] then 0 else |c| - 1
  }

  /** Collisions of a sequence of buckets, every bucket counted. */
  function CollisionSum(cs: seq<Chain>): nat
  {
    if cs == [] then 0 else CollisionSum(cs[..|cs| - 1]) + BucketCollisions(cs[|cs| - 1])
  }

  /** The number of non-empty buckets. */
  function Occupied(cs: seq<Chain>): (n: nat)
    ensures n <= |cs|
  {
    if cs == [] then 0 else Occupied(cs[..|cs| - 1]) + (if cs[|cs| - 1] == [] then 0 else 1)
  }

  /** What hash_table_collisions computes: the collisions of every bucket but
      the last one, whose index is size - 1 (the loop stops short of it). */
  function CollisionCount(cs: seq<Chain>): nat
  {
    if cs == [] then 0 else CollisionSum(cs[..|cs| - 1])
  }

  /** Counting one bucket further adds that bucket's collisions. */
  lemma CollisionStep(cs: seq<Chain>, i: int)
    requires 0 <= i < |cs|
    ensures CollisionSum(cs[..i + 1]) == CollisionSum(cs[..i]) + BucketCollisions(cs[i])
  {
    assert cs[..i + 1][..i] == cs[..i];
  }

  /** Summed over buckets, the collisions are the nodes that are not the head
      of their chain: the node count minus the number of non-empty buckets. */
  lemma {:induction false} CollisionsAreNonHeads(cs: seq<Chain>)
    ensures CollisionSum(cs) == Count(cs) - Occupied(cs)
  {
    if cs != [] {
      CollisionsAreNonHeads(cs[..|cs| - 1]);
    }
  }

  /** hash_table_collisions never looks at the last bucket: whatever it holds,
      the count is the same. */
  lemma LastBucketIgnored(cs: seq<Chain>, c: Chain)
    requires cs != []
    ensures CollisionCount(cs[|cs| - 1 := c]) == CollisionCount(cs)
  {
    assert cs[|cs| - 1 := c][..|cs| - 1] == cs[..|cs| - 1];
  }

  /** When every chain other than chain `b` is empty and `b` is not the last
      bucket, all N nodes collide in `b` and the count is N - 1. */
  lemma {:induction false} OneBucketCollisions(cs: seq<Chain>, b: int)
    requires 0 <= b < |cs| - 1
    requires forall k :: 0 <= k < |cs| && k != b ==> cs[k] == []
    ensures CollisionCount(cs) == BucketCollisions(cs[b])
  {
    var n := |cs| - 1;
    OneBucketSum(cs[..n], b);
  }

  lemma {:induction false} OneBucketSum(cs: seq<Chain>, b: int)
    requires 0 <= b < |cs|
    requires forall k :: 0 <= k < |cs| && k != b ==> cs[k] == []
    ensures CollisionSum(cs) == BucketCollisions(cs[b])
  {
    var n := |cs| - 1;
    if b < n {
      OneBucketSum(cs[..n], b);
    } else {
      NoCollisions(cs[..n]);
    }
  }

  /** Buckets holding at most one node each have no collisions: N keys in N
      distinct buckets give a count of 0. */
  lemma {:induction false} NoCollisions(cs: seq<Chain>)
    requires forall k :: 0 <= k < |cs| ==> |cs[k]| <= 1
    ensures CollisionSum(cs) == 0
  {
    if cs != [] {
      NoCollisions(cs[..|cs| - 1]);
    }
  }
}
