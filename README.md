# Chained hash table (hash_table.c) in Dafny

A model of `hash_table.c`: a hash table with a fixed number of buckets, each
bucket a singly-linked chain of (string key, int value) nodes, a node counter
`total`, two bucket-index strategies that callers pass to each operation, and
a collision count used as a diagnostic.

- `hashing.dfy` (module `Hashing`): `hash_function1` (first character modulo
  the size) and `hash_function2` (a five-step integer recipe over the first
  five characters, then modulo the size), with C's truncating `%` written out
  as `CRem`. The function pointer becomes the datatype `Strategy`
  (`FirstChar` | `FiveChars`) and `Index` dispatches on it.
- `chains.dfy` (module `Chains`): the abstract state, a sequence of chains
  (head at index 0), and the functions that say what each operation does to
  it (`Inserted`, `Removed`, `RemoveFirst`, `FirstMatch`, `Count`,
  `CollisionCount`), with the lemmas the operations promise.
- `hash_table.dfy` (module `Table`): class `HashTable` with the bucket array
  `buckets: array<seq<Entry>>`, the constant `size` and the mutable `total`;
  the create / add / remove / reset / free / collisions operations as a
  constructor and methods with the loops of the C code, each proved against
  the functions of `Chains`.
- `scenarios.dfy` (module `Scenarios`): three concrete runs proved from the
  class's contracts alone: three fruit keys under the five-character
  strategy; duplicate keys removed newest first; the `total` drift.

Keys are strings of character codes 1 to 127 (`IsKey`): a C string has no NUL
inside it, and for plain ASCII the signedness of `char` does not matter.

Where the code departs from what its own comments describe, the model
follows the code:

- The comments say `total` tracks the nodes: "update the total to reflect
  new addition" (hash_table.c:137) and "reduce the total by 1 for each
  removed node" (hash_table.c:109). But removing a node that is not the head
  of its chain unlinks it without decrementing `total`
  (hash_table.c:179-186). The model keeps only `Count <= total` as the class
  invariant and tracks the excess as `Drift()`: add, head removal and reset
  keep it; non-head removal raises it by one (`Scenarios.DriftScenario`
  shows a reset leaving `total == 1`).
- The comment of `hash_table_collisions` counts the elements above 1 "for
  each 'bucket' or hash array index" (hash_table.c:193-196), but its loop
  stops at `size - 1` (hash_table.c:203), so the last bucket is never
  counted (`Chains.LastBucketIgnored`).

Other facts about the code that the model makes explicit:

- `hash_table_create` never checks the size; a zero size makes every hash
  divide by zero. The constructor requires a positive size.
- For an empty key, `key[0]` is the terminator, so hash_function1 gives
  index 0 (`Hashing.HashFunction1`).
- C's `%` truncates, so a negative word_id in hash_function2 gives an
  index that is negative, or 0 when the word_id is a multiple of the size,
  and never positive (`Hashing.HashFunction2`, `Hashing.NegativeIndexExists`);
  `Add` and `Remove` require
  the index to be in range (`InRange`), which always holds for the first
  strategy (`Hashing.FirstCharIndex`) and for the second one on printable
  keys (`Hashing.PrintableInRange`).

## Model

| member | source | states |
|---|---|---|
| `Hashing.CRem` | hash_table.c:55 | C's remainder: (a / n) * n + a % n == a with the truncating quotient; the result has the dividend's sign and lies strictly between -n and n |
| `Hashing.HashFunction1` | hash_table.c:33-35 | hash_function1: for a key of codes 1 to 127 the index is in [0, size); an empty key, whose first character is the terminator, goes to bucket 0; otherwise the index is the first character's code modulo the size |
| `Hashing.WordId` | hash_table.c:47-53 | the five guarded steps of hash_function2: an empty key keeps word_id 0, and a key longer than five characters has the word_id of its first five (further properties in `Hashing.FiveCharsOnly`, `Hashing.WordIdBounds`, `Hashing.PrintableInRange`, `Hashing.TwoStepsFactor`) |
| `Hashing.FirstCharIndex` | hash_table.c:33-35 | for a key of codes 1 to 127 the hash_function1 index is always in [0, size), so it can subscript the bucket array |
| `Hashing.FirstCharOnly` | hash_table.c:33-35 | keys with the same first character get the same hash_function1 bucket |
| `Hashing.HashFunction2` | hash_table.c:44-56 | the result lies in (-size, size), is non-negative when the word_id is and non-positive when it is negative |
| `Hashing.FiveCharsOnly` | hash_table.c:47-53 | keys that agree on their first five characters (or are equal when shorter) have the same word_id and the same hash_function2 bucket |
| `Hashing.TwoStepsFactor` | hash_table.c:49-50 | after steps 1 and 2 the word_id of a two-character key is (c0 + 2) * (c1 + 1), i.e. step 2 is (w + 1) * (c1 + 1) |
| `Hashing.WordIdBounds` | hash_table.c:47-53 | for any key the word_id lies in (-192, 16692 + size] and the step-2 product w0 * c1 is at most 128 * 127, so the word_id (and, applied to prefixes, each step's result) fits in 32 bits for size <= 2147483647 - 16692 |
| `Hashing.PrintableInRange` | hash_table.c:44-56 | a key of printable characters has a non-negative word_id, so hash_function2 maps it into [0, size) |
| `Hashing.NegativeIndexExists` | hash_table.c:51-55 | in five buckets, the five-character key with codes 1, 1, 127, 1, 1 has word_id -61 and index -1, and the one with codes 1, 1, 127, 1, 5 has word_id -65 and index 0: the truncating % gives a negative word_id a negative index unless it is a multiple of the size |
| `Hashing.Index` | hash_table.c:131 | the index computed through the caller's strategy lies in (-size, size) |
| `Chains.FirstMatch` | hash_table.c:148-170 | the position of the first node keyed `key` counting from the head: every earlier node has another key, the node there has this key, and it is below the chain length exactly when the chain contains the key |
| `Chains.RemoveFirst` | hash_table.c:148-186 | unlinking the first match shortens the chain by one, keeps the nodes before it and shifts the ones after it by one; with no match the chain is unchanged |
| `Chains.RemoveFirstNodes` | hash_table.c:178-184 | the nodes after removal are those before it less exactly the matched node (multiset) |
| `Chains.CountUpdate` | hash_table.c:134-135 | replacing one chain changes the total number of nodes by the difference of the chain lengths |
| `Chains.InsertedShape` | hash_table.c:133-138 | adding puts the new node at the head of its chain, leaves every other chain unchanged and adds exactly one node |
| `Chains.RemovedShape` | hash_table.c:141-187 | removal touches only the key's chain, takes away one node exactly when the chain contains the key, and changes nothing otherwise |
| `Chains.RemoveAfterInsert` | hash_table.c:150-159 | removing a key right after adding it restores every chain, and the node found is the head |
| `Chains.DuplicateShadowing` | hash_table.c:133-135 | with two nodes of one key, removal takes the newest and leaves the chains as if only the older had been added |
| `Chains.CollisionsAreNonHeads` | hash_table.c:205-214 | summed over buckets, the collisions are the node count minus the number of non-empty buckets |
| `Chains.LastBucketIgnored` | hash_table.c:203 | the collision count is the same whatever the last bucket holds |
| `Chains.OneBucketCollisions` | hash_table.c:189-219 | N nodes all in one bucket other than the last give N - 1 collisions |
| `Chains.NoCollisions` | hash_table.c:205-214 | buckets of at most one node each give no collisions |
| `Table.HashTable.constructor` | hash_table.c:58-74 | `size` buckets, all empty, `total == 0` |
| `Table.HashTable.Add` | hash_table.c:116-139 | the chains become `Inserted(old chains, index, (key, value))`, `total` grows by one, the drift is kept |
| `Table.HashTable.Remove` | hash_table.c:141-187 | answers 1 exactly when the key's chain contains the key; the chains become `Removed(...)`; `total` drops by one only when the match was the head; on 0 nothing changes; drift rises by one on non-head removal |
| `Table.HashTable.Scan` | hash_table.c:167-170 | the scan stops at the first node keyed `key`, or at the chain's end when there is none |
| `Table.HashTable.Reset` | hash_table.c:95-114 | every bucket is empty and `total` fell by exactly the number of nodes there were; the drift is kept |
| `Table.HashTable.Free` | hash_table.c:76-93 | every bucket is emptied |
| `Table.HashTable.Collisions` | hash_table.c:189-219 | the result is the collision count of buckets 0 to size - 2, i.e. their node count minus their non-empty buckets, and nothing changes |
| `Scenarios.FruitScenario` | hash_table.c:44-56 | with five buckets, "apple", "grape" and "plum" go to buckets 2, 4, 1: total 3, no collisions |
| `Scenarios.DuplicateScenario` | hash_table.c:141-187 | two "kiwi" nodes are removed by two calls, newest first, and a third call answers 0 |
| `Scenarios.DriftScenario` | hash_table.c:179-186 | removing a non-head node leaves `total` at 2 for one node, and a reset then leaves it at 1 |

## Left out

- `display` and the `printf` calls in `hash_table_remove`: console output with no effect on the table.
- `malloc`, `free` and the `assert`s on their results: chains are sequences, not heap nodes, so allocation failure, the leak of the head node's key (its `free` is commented out) and the release of the table itself are not modelled.
- Table.HashTable.Free: states only that every bucket is emptied; the release of the table, after which no operation is valid, has no counterpart in Dafny.
- Function pointers: the strategy is the datatype `Strategy`; mixing strategies on one table is the caller's concern and nothing is proved about it.
- 32-bit `int`: sizes, totals and word_ids are unbounded integers; `Hashing.WordIdBounds` shows the word_id fits in 32 bits for every size up to 2147483647 - 16692.
- Undefined behaviour is excluded by preconditions rather than imitated: a size of zero or less (division by zero, negative allocation), a negative bucket index (`InRange`), and reading past the terminator of keys shorter than five characters (each step of the recipe is guarded by the key's length).
- Characters above 127 and NUL inside keys: keys are limited to codes 1 to 127.
