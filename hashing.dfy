/** The two bucket-index strategies of the hash table (hash_function1 and
    hash_function2), and C's truncating remainder that both end with. */
module Hashing {

  /** A key is a NUL-terminated C string of plain ASCII: no character is the
      terminator and no code is above 127, so the signedness of `char` never
      matters. */
  predicate IsKey(key: string)
  {
    forall i :: 0 <= i < |key| ==> 0 < key[i] as int < 128
  }

  /** The character code C reads at position `i` of a NUL-terminated string,
      for positions up to the terminator. */
  function CharAt(key: string, i: nat): (c: int)
    requires i <= |key|
    ensures i == |key| ==> c == 0
    ensures IsKey(key) ==> (c == 0 <==> i == |key|) && 0 <= c < 128
  {
    if i < |key| then key[i] as int else 0
  }

  /** C's `/` on `int` for a positive divisor: the quotient truncated toward
      zero (Dafny's `/` is Euclidean, which differs for a negative dividend). */
  function CDiv(a: int, n: int): int
    requires n > 0
  {
    if a >= 0 then a / n else -((-a) / n)
  }

  /** C's `%` on `int` for a positive divisor: what is left after the
      truncating division, so the remainder takes the sign of the dividend
      and C's identity (a / n) * n + a % n == a holds. */
  function CRem(a: int, n: int): (r: int)
    requires n > 0
    ensures CDiv(a, n) * n + r == a
    ensures a >= 0 ==> 0 <= r < n
    ensures a < 0 ==> -n < r <= 0
  {
    if a >= 0 then a % n else -((-a) % n)
  }

  /** hash_function1: the code of the first character modulo the size. */
  function HashFunction1(size: int, key: string): (r: int)
    requires size > 0
    ensures IsKey(key) ==> 0 <= r < size
    ensures key == [] ==> r == 0
    ensures key != [] && IsKey(key) ==> r == (key[0] as int) % size
  {
    CRem(CharAt(key, 0), size)
  }

  /** The integer hash_function2 builds before its final reduction: five
      guarded steps, step i applying only when the key has more than i
      characters (the C code tests `key[i] != '\0'`). */
  function WordId(size: int, key: string): (w: int)
    ensures key == [] ==> w == 0
    ensures |key| > 5 ==> w == WordId(size, key[..5])
    decreases |key|
  {
    var w0 := if |key| > 0 then key[0] as int + 1 else 0;
    var w1 := if |key| > 1 then w0 * (key[1] as int) + w0 + (key[1] as int) + 1 else w0;
    var w2 := if |key| > 2 then w1 + 26 - (key[2] as int) + 1 else w1;
    var w3 := if |key| > 3 then w2 + (key[3] as int) + 1 else w2;
    if |key| > 4 then w3 + 26 - (key[4] as int) + 1 + size else w3
  }

  /** hash_function2: WordId reduced with C's truncating remainder. */
  function HashFunction2(size: int, key: string): (r: int)
    requires size > 0
    ensures -size < r < size
    ensures WordId(size, key) >= 0 ==> 0 <= r
    ensures WordId(size, key) < 0 ==> r <= 0
  {
    CRem(WordId(size, key), size)
  }

  /** The strategy a caller passes to each table operation (the C code passes
      a function pointer). */
  datatype Strategy = FirstChar | FiveChars

  /** The bucket index the chosen strategy gives `key` in a table of `size`
      buckets. */
  function Index(hf: Strategy, size: int, key: string): (r: int)
    requires size > 0
    ensures -size < r < size
  {
    match hf
    case FirstChar => HashFunction1(size, key)
    case FiveChars => HashFunction2(size, key)
  }

  /** The index can be used to subscript the bucket array (the C code uses it
      unchecked; a negative one is undefined behaviour). */
  predicate InRange(hf: Strategy, size: int, key: string)
    requires size > 0
  {
    0 <= Index(hf, size, key) < size
  }

  /** The first-character strategy always yields an index that can subscript
      the bucket array, so Add and Remove may always be called with it. */
  lemma FirstCharIndex(size: int, key: string)
    requires size > 0 && IsKey(key)
    ensures InRange(FirstChar, size, key)
  {
  }

  /** Keys that share their first character share their hash_function1 bucket. */
  lemma FirstCharOnly(size: int, k1: string, k2: string)
    requires size > 0
    requires k1 != [] && k2 != [] && k1[0] == k2[0]
    ensures HashFunction1(size, k1) == HashFunction1(size, k2)
  {
  }

  /** The first `n` characters of `key`, or all of it when it is shorter. */
  function Prefix(key: string, n: nat): (p: string)
    ensures |p| <= n && |p| <= |key|
    ensures |p| == n || p == key
    ensures p == key[..|p|]
  {
    if |key| <= n then key else key[..n]
  }

  /** hash_function2 reads at most the first five characters: keys that agree
      on those (and, when shorter than five, on their length) hash equally. */
  lemma FiveCharsOnly(size: int, k1: string, k2: string)
    requires size > 0
    requires Prefix(k1, 5) == Prefix(k2, 5)
    ensures WordId(size, k1) == WordId(size, k2)
    ensures HashFunction2(size, k1) == HashFunction2(size, k2)
  {
  }

  /** Step 2 of hash_function2 multiplies out: it computes
      w * c1 + w + c1 + 1, which equals (w + 1) * (c1 + 1); with w = c0 + 1
      from step 1, a two-character key has the word_id (c0 + 2) * (c1 + 1). */
  lemma TwoStepsFactor(size: int, key: string)
    requires |key| == 2
    ensures WordId(size, key) == (key[0] as int + 2) * (key[1] as int + 1)
  {
    var w, c := key[0] as int + 1, key[1] as int;
    assert w * c + w + c + 1 == (w + 1) * (c + 1);
  }

  /** Bounds on a product of two bounded factors, for the word_id bounds. */
  lemma ProductBounds(a: int, b: int, lo: int, hi: int, blo: int, bhi: int)
    requires 0 <= lo <= a <= hi && 0 <= blo <= b <= bhi
    ensures lo * blo <= a * b <= hi * bhi
  {
    assert lo * blo <= a * blo <= a * b;
    assert a * b <= hi * b <= hi * bhi;
  }

  /** For any key, the word_id of hash_function2 lies within -192 and
      16692 + size, and the product w0 * c1 inside step 2 is at most
      128 * 127. Applied to the key's prefixes this bounds the result of every
      step, so with a 32-bit `int` the word_id and the step-2 product fit as
      long as size <= 2147483647 - 16692. */
  lemma WordIdBounds(size: int, key: string)
    requires size > 0 && IsKey(key)
    ensures -192 < WordId(size, key) <= 16692 + size
    ensures |key| > 1 ==> 0 < (key[0] as int + 1) * (key[1] as int) <= 128 * 127
  {
    if |key| > 1 {
      var w0, c1 := key[0] as int + 1, key[1] as int;
      assert w0 * c1 + w0 + c1 + 1 == (w0 + 1) * (c1 + 1);
      ProductBounds(w0 + 1, c1 + 1, 3, 129, 2, 128);
      ProductBounds(w0, c1, 2, 128, 1, 127);
    }
  }

  /** Keys of printable characters (codes 32 to 126) have a non-negative
      word_id, so hash_function2 maps them into [0, size). */
  lemma PrintableInRange(size: int, key: string)
    requires size > 0
    requires forall i :: 0 <= i < |key| ==> 32 <= key[i] as int <= 126
    ensures WordId(size, key) >= 0
    ensures InRange(FiveChars, size, key)
  {
    if |key| > 1 {
      var w0, c1 := key[0] as int + 1, key[1] as int;
      assert w0 * c1 + w0 + c1 + 1 == (w0 + 1) * (c1 + 1);
      ProductBounds(w0 + 1, c1 + 1, 34, 128, 33, 127);
    }
  }

  /** With control characters the recipe can go negative, and C's truncating
      `%` then gives a negative index, never a positive one: in a table of
      five buckets ControlKey has word_id -61 and index -1, while
      MultipleKey has word_id -65, a multiple of five, and index 0. Both
      keys have five characters, so C reads nothing past the terminator.
      Add and Remove therefore require InRange. */
  lemma NegativeIndexExists()
    ensures IsKey(ControlKey) && |ControlKey| == 5
    ensures WordId(5, ControlKey) == -61
    ensures HashFunction2(5, ControlKey) == -1
    ensures !InRange(FiveChars, 5, ControlKey)
    ensures IsKey(MultipleKey) && |MultipleKey| == 5
    ensures WordId(5, MultipleKey) == -65
    ensures HashFunction2(5, MultipleKey) == 0
    ensures InRange(FiveChars, 5, MultipleKey)
  {
  }

  /** The five-character key with codes 1, 1, 127, 1 and 1. */
  const ControlKey: string := [1 as char, 1 as char, 127 as char, 1 as char, 1 as char]

  /** The five-character key with codes 1, 1, 127, 1 and 5. */
  const MultipleKey: string := [1 as char, 1 as char, 127 as char, 1 as char, 5 as char]
}
