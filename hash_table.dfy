/** struct hash_table and its operations: a fixed array of buckets, each the
    chain of nodes hashed to it, and the counter `total`. */
module Table {
  import opened Hashing
  import opened Chains

  class HashTable {
    /** The bucket array; `buckets[i]` is chain i, head first. */
    var buckets: array<Chain>
    /** The number of buckets, fixed at creation. */
    const size: int
    /** The node counter, updated by add, remove and reset. */
    var total: int

    /** The array has `size` slots, and `total` never falls below the number
        of nodes (it can exceed it: see Remove). */
    ghost predicate Valid()
      reads this, buckets
    {
      && size > 0
      && buckets.Length == size
      && Count(buckets[..]) <= total
    }

    /** The chains, bucket by bucket. */
    ghost function Contents(): seq<Chain>
      reads this, buckets
    {
      buckets[..]
    }

    /** How far `total` exceeds the node count. Adding, removing a chain's
        head and resetting keep it; removing any other node raises it by one. */
    ghost function Drift(): int
      reads this, buckets
    {
      total - Count(buckets[..])
    }

    /** hash_table_create: `arraySize` empty buckets and a zero total. */
    constructor (arraySize: int)
      requires arraySize > 0
      ensures Valid() && fresh(buckets)
      ensures size == arraySize && total == 0
      ensures forall i :: 0 <= i < size ==> buckets[i] == []
      ensures Drift() == 0
    {
      total := 0;
      size := arraySize;
      var a := new Chain[arraySize];
      for i := 0 to arraySize
        invariant forall k :: 0 <= k < i ==> a[k] == []
      {
        a[i] := [];
      }
      buckets := a;
    }

    /** hash_table_add: prepend (key, value) to the key's bucket, with no
        check for an existing node of the same key, and count it. */
    method Add(hf: Strategy, key: string, value: int)
      requires Valid() && IsKey(key) && InRange(hf, size, key)
      modifies this, buckets
      ensures Valid() && buckets == old(buckets)
      ensures Contents() == Inserted(old(Contents()), Index(hf, size, key), Entry(key, value))
      ensures total == old(total) + 1
      ensures Drift() == old(Drift())
    {
      var node := Entry(key, value);
      var hashIndex := Index(hf, size, key);
      ghost var before := buckets[..];
      buckets[hashIndex] := [node] + buckets[hashIndex];
      total := total + 1;
      assert buckets[..] == Inserted(before, hashIndex, node);
      InsertedShape(before, hashIndex, node);
    }

    /** hash_table_remove: unlink the first node keyed `key` in the key's
        bucket and answer 1, or answer 0 and change nothing. Only the removal
        of a chain's head decrements `total`. */
    method Remove(hf: Strategy, key: string) returns (found: int)
      requires Valid() && IsKey(key) && InRange(hf, size, key)
      modifies this, buckets
      ensures Valid() && buckets == old(buckets)
      ensures var i := Index(hf, size, key);
        && found == (if Contains(old(buckets[i]), key) then 1 else 0)
        && Contents() == Removed(old(Contents()), i, key)
        && total == old(total) - (if HeadMatches(old(Contents()), i, key) then 1 else 0)
      ensures found == 0 ==> Contents() == old(Contents()) && total == old(total)
      ensures var i := Index(hf, size, key);
        Drift() == old(Drift()) + (if found == 1 && !HeadMatches(old(Contents()), i, key) then 1 else 0)
    {
      var hashIndex := Index(hf, size, key);
      ghost var before := buckets[..];
      RemovedShape(before, hashIndex, key);
      var chain := buckets[hashIndex];
      if chain != [] && chain[0].key == key {
        buckets[hashIndex] := chain[1..];
        total := total - 1;
        assert FirstMatch(chain, key) == 0;
        assert RemoveFirst(chain, key) == chain[1..] by {
          assert chain[..0] + chain[1..] == chain[1..];
        }
        assert buckets[..] == before[hashIndex := chain[1..]];
        return 1;
      }
      var j := Scan(chain, key);
      if j == |chain| {
        return 0;
      }
      buckets[hashIndex] := chain[..j] + chain[j + 1..];
      assert buckets[..] == before[hashIndex := RemoveFirst(chain, key)];
      return 1;
    }

    /** The scan of hash_table_remove past the head: walk the chain while the
        node's key differs from `key`, stopping at the first match or at the
        chain's end (position |chain|). */
    static method Scan(chain: Chain, key: string) returns (j: int)
      ensures 0 <= j <= |chain|
      ensures forall k :: 0 <= k < j ==> chain[k].key != key
      ensures j < |chain| ==> chain[j].key == key
      ensures j == FirstMatch(chain, key)
    {
      j := 0;
      while j < |chain| && chain[j].key != key
        invariant 0 <= j <= |chain|
        invariant forall k :: 0 <= k < j ==> chain[k].key != key
      {
        j := j + 1;
      }
    }

    /** hash_table_reset: empty every bucket, decrementing `total` once per
        node unlinked. */
    method Reset()
      requires Valid()
      modifies this, buckets
      ensures Valid() && buckets == old(buckets)
      ensures forall i :: 0 <= i < size ==> buckets[i] == []
      ensures total == old(total) - old(Count(Contents()))
      ensures Drift() == old(Drift())
    {
      ghost var before := buckets[..];
      for i := 0 to size
        invariant buckets == old(buckets)
        invariant forall k :: 0 <= k < i ==> buckets[k] == []
        invariant forall k :: i <= k < size ==> buckets[k] == before[k]
        invariant total == old(total) - Count(before[..i])
      {
        var current := buckets[i];
        while current != []
          invariant buckets == old(buckets)
          invariant buckets[i] == current
          invariant |current| <= |before[i]| && current == before[i][|before[i]| - |current|..]
          invariant forall k :: 0 <= k < size && k != i ==> buckets[k] == if k < i then [] else before[k]
          invariant total == old(total) - Count(before[..i]) - (|before[i]| - |current|)
        {
          buckets[i] := current[1..];
          current := buckets[i];
          total := total - 1;
        }
        CountStep(before, i);
      }
      assert before[..size] == before;
      assert Count(buckets[..]) == 0;
    }

    /** hash_table_free, up to the release of the table itself: empty every
        bucket; unlike Reset it leaves `total` alone. */
    method Free()
      requires Valid()
      modifies buckets
      ensures forall i :: 0 <= i < size ==> buckets[i] == []
    {
      for i := 0 to size
        invariant forall k :: 0 <= k < i ==> buckets[k] == []
      {
        var current := buckets[i];
        while current != []
          invariant buckets[i] == current
          invariant forall k :: 0 <= k < i ==> buckets[k] == []
        {
          buckets[i] := current[1..];
          current := buckets[i];
        }
      }
    }

    /** hash_table_collisions: for each bucket below the last, its length
        minus one when it is not empty. Changes nothing. */
    method Collisions() returns (numCol: int)
      requires Valid()
      ensures numCol == CollisionCount(Contents())
      ensures numCol == Count(Contents()[..size - 1]) - Occupied(Contents()[..size - 1])
    {
      ghost var cs := buckets[..];
      numCol := 0;
      for i := 0 to size - 1
        invariant numCol == CollisionSum(cs[..i])
      {
        var buffer := buckets[i];
        if buffer != [] {
          numCol := numCol - 1;
          while buffer != []
            invariant |buffer| <= |cs[i]|
            invariant numCol == CollisionSum(cs[..i]) - 1 + (|cs[i]| - |buffer|)
          {
            numCol := numCol + 1;
            buffer := buffer[1..];
          }
        }
        CollisionStep(cs, i);
      }
      CollisionsAreNonHeads(cs[..size - 1]);
    }
  }
}
