/** Clients of the table that follow concrete runs of the operations, proved
    from the contracts of HashTable alone. */
module Scenarios {
  import opened Hashing
  import opened Chains
  import opened Table

  /** Five buckets and the five-character strategy: "apple", "grape" and
      "plum" land in buckets 2, 4 and 1, so the total is 3 and nothing
      collides. */
  method FruitScenario() returns (total: int, collisions: int)
    ensures total == 3 && collisions == 0
  {
    var t := new HashTable(5);
    assert Index(FiveChars, 5, "apple") == 2;
    assert Index(FiveChars, 5, "grape") == 4;
    assert Index(FiveChars, 5, "plum") == 1;
    t.Add(FiveChars, "apple", 1);
    t.Add(FiveChars, "grape", 2);
    t.Add(FiveChars, "plum", 3);
    total := t.total;
    collisions := t.Collisions();
    NoCollisions(t.Contents()[..4]);
  }

  /** Duplicate keys under the first-character strategy: the second "kiwi"
      shadows the first, removals take them newest first, and a third
      removal finds nothing. */
  method DuplicateScenario() returns (r1: int, r2: int, r3: int)
    ensures r1 == 1 && r2 == 1 && r3 == 0
  {
    var t := new HashTable(5);
    FirstCharIndex(5, "kiwi");
    assert Index(FirstChar, 5, "kiwi") == 2;
    t.Add(FirstChar, "kiwi", 10);
    t.Add(FirstChar, "kiwi", 20);
    assert t.buckets[2] == [Entry("kiwi", 20), Entry("kiwi", 10)];
    r1 := t.Remove(FirstChar, "kiwi");
    assert t.buckets[2] == [Entry("kiwi", 10)];
    r2 := t.Remove(FirstChar, "kiwi");
    assert t.buckets[2] == [];
    r3 := t.Remove(FirstChar, "kiwi");
  }

  /** Removing a node that is not the head of its chain keeps `total`: after
      adding "kiwi" and "kale" (same first letter, so "kale" becomes the
      head) and removing "kiwi", one node is left but `total` is 2, and a
      reset leaves it at 1 rather than 0. */
  method DriftScenario() returns (afterRemove: int, afterReset: int)
    ensures afterRemove == 2 && afterReset == 1
  {
    var t := new HashTable(5);
    FirstCharIndex(5, "kiwi");
    FirstCharIndex(5, "kale");
    t.Add(FirstChar, "kiwi", 1);
    t.Add(FirstChar, "kale", 2);
    assert t.buckets[2] == [Entry("kale", 2), Entry("kiwi", 1)];
    assert t.buckets[2][1].key == "kiwi" && t.buckets[2][0].key != "kiwi";
    var found := t.Remove(FirstChar, "kiwi");
    assert found == 1;
    afterRemove := t.total;
    t.Reset();
    assert Count(t.Contents()) == 0;
    afterReset := t.total;
  }
}
