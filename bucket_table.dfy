// The bucket table as a value: what the simulated insertions leave in it,
// how many of them collided, and the tallies taken over it afterwards.

module BucketTable {
  import opened Hashing

  /** A run the original program can perform: a non-empty table, a multiplier
      that cannot overflow, and keys the generator can produce. */
  predicate ValidRun(keys: seq<int>, multiplier: int, tableSize: int) {
    && tableSize > 0
    && SafeMultiplier(multiplier)
    && forall i :: 0 <= i < |keys| ==> Generated(keys[i])
  }

  /** Every counter is non-negative. */
  predicate NonNegative(table: seq<int>) {
    forall b :: 0 <= b < |table| ==> 0 <= table[b]
  }

  /** The counters after inserting `keys` in order into an all-zero table:
      each insertion adds one to the bucket its key hashes to. */
  function Counts(keys: seq<int>, multiplier: int, tableSize: int): (table: seq<int>)
    requires ValidRun(keys, multiplier, tableSize)
    ensures |table| == tableSize
    ensures NonNegative(table)
    decreases |keys|
  {
    if keys == [] then seq(tableSize, _ => 0)
    else
      var prior := Counts(keys[..|keys| - 1], multiplier, tableSize);
      var b := Hash(keys[|keys| - 1], multiplier, tableSize);
      prior[b := prior[b] + 1]
  }

  /** The collision counter after inserting `keys`: one for every insertion
      into a bucket that already held at least one key. */
  function Collisions(keys: seq<int>, multiplier: int, tableSize: int): (c: nat)
    requires ValidRun(keys, multiplier, tableSize)
    ensures c <= |keys|
    decreases |keys|
  {
    if keys == [] then 0
    else
      var prefix := keys[..|keys| - 1];
      var b := Hash(keys[|keys| - 1], multiplier, tableSize);
      Collisions(prefix, multiplier, tableSize) + if Counts(prefix, multiplier, tableSize)[b] > 0 then 1 else 0
  }

  /** Independent reference: how many of `keys` hash to bucket `b`. */
  function HitCount(keys: seq<int>, multiplier: int, tableSize: int, b: int): (c: nat)
    requires ValidRun(keys, multiplier, tableSize)
    ensures c <= |keys|
  {
    if keys == [] then 0
    else
      (if Hash(keys[0], multiplier, tableSize) == b then 1 else 0) + HitCount(keys[1..], multiplier, tableSize, b)
  }

  /** Sum of all counters (what the original accumulates into `mean`). */
  function Sum(table: seq<int>): int {
    if table == [] then 0 else Sum(table[..|table| - 1]) + table[|table| - 1]
  }

  /** Number of buckets holding at least one key. */
  function NonEmptyCount(table: seq<int>): (c: nat)
    ensures c <= |table|
  {
    if table == [] then 0
    else NonEmptyCount(table[..|table| - 1]) + if table[|table| - 1] > 0 then 1 else 0
  }

  /** Number of buckets holding no key. */
  function EmptyCount(table: seq<int>): (c: nat)
    ensures c <= |table|
  {
    if table == [] then 0
    else EmptyCount(table[..|table| - 1]) + if table[|table| - 1] == 0 then 1 else 0
  }

  // ---- Lemmas about the tallies ----

  /** Adding d to one counter adds d to the sum. */
  lemma {:induction false} SumUpdate(table: seq<int>, b: int, d: int)
    requires 0 <= b < |table|
    ensures Sum(table[b := table[b] + d]) == Sum(table) + d
    decreases |table|
  {
    var t' := table[b := table[b] + d];
    var n := |table|;
    if b == n - 1 {
      assert t'[..n - 1] == table[..n - 1];
    } else {
      assert t'[..n - 1] == table[..n - 1][b := table[b] + d];
      SumUpdate(table[..n - 1], b, d);
    }
  }

  lemma {:induction false} SumZeros(n: nat)
    ensures Sum(seq(n, _ => 0)) == 0
  {
    if n > 0 {
      assert seq(n, _ => 0)[..n - 1] == seq(n - 1, _ => 0);
      SumZeros(n - 1);
    }
  }

  /** Incrementing a non-negative counter makes its bucket non-empty, and
      changes the number of non-empty buckets only if it was empty. */
  lemma {:induction false} NonEmptyIncrement(table: seq<int>, b: int)
    requires 0 <= b < |table| && 0 <= table[b]
    ensures NonEmptyCount(table[b := table[b] + 1]) == NonEmptyCount(table) + if table[b] == 0 then 1 else 0
    decreases |table|
  {
    var t' := table[b := table[b] + 1];
    var n := |table|;
    if b == n - 1 {
      assert t'[..n - 1] == table[..n - 1];
    } else {
      assert t'[..n - 1] == table[..n - 1][b := table[b] + 1];
      NonEmptyIncrement(table[..n - 1], b);
    }
  }

  lemma {:induction false} NonEmptyZeros(n: nat)
    ensures NonEmptyCount(seq(n, _ => 0)) == 0
  {
    if n > 0 {
      assert seq(n, _ => 0)[..n - 1] == seq(n - 1, _ => 0);
      NonEmptyZeros(n - 1);
    }
  }

  /** With no negative counter, every bucket is either empty or non-empty. */
  lemma {:induction false} EmptyPlusNonEmpty(table: seq<int>)
    requires NonNegative(table)
    ensures EmptyCount(table) + NonEmptyCount(table) == |table|
    decreases |table|
  {
    if table != [] {
      EmptyPlusNonEmpty(table[..|table| - 1]);
    }
  }

  // ---- Lemmas about the simulated insertions ----

  /** The counters always sum to the number of keys inserted. */
  lemma {:induction false} SumIsKeyCount(keys: seq<int>, multiplier: int, tableSize: int)
    requires ValidRun(keys, multiplier, tableSize)
    ensures Sum(Counts(keys, multiplier, tableSize)) == |keys|
    decreases |keys|
  {
    if keys == [] {
      SumZeros(tableSize);
    } else {
      var prefix := keys[..|keys| - 1];
      SumIsKeyCount(prefix, multiplier, tableSize);
      SumUpdate(Counts(prefix, multiplier, tableSize), Hash(keys[|keys| - 1], multiplier, tableSize), 1);
    }
  }

  /** Collisions equal the keys inserted minus the buckets that received a key:
      every insertion but the first into each bucket counts. */
  lemma {:induction false} CollisionsAreKeysMinusNonEmpty(keys: seq<int>, multiplier: int, tableSize: int)
    requires ValidRun(keys, multiplier, tableSize)
    ensures Collisions(keys, multiplier, tableSize) == |keys| - NonEmptyCount(Counts(keys, multiplier, tableSize))
    decreases |keys|
  {
    if keys == [] {
      NonEmptyZeros(tableSize);
    } else {
      var prefix := keys[..|keys| - 1];
      CollisionsAreKeysMinusNonEmpty(prefix, multiplier, tableSize);
      NonEmptyIncrement(Counts(prefix, multiplier, tableSize), Hash(keys[|keys| - 1], multiplier, tableSize));
    }
  }

  /** Appending a key adds one hit to its bucket and none to any other. */
  lemma {:induction false} HitCountAppend(keys: seq<int>, key: int, multiplier: int, tableSize: int, b: int)
    requires ValidRun(keys + [key], multiplier, tableSize)
    ensures ValidRun(keys, multiplier, tableSize)
    ensures HitCount(keys + [key], multiplier, tableSize, b)
         == HitCount(keys, multiplier, tableSize, b) + if Hash(key, multiplier, tableSize) == b then 1 else 0
    decreases |keys|
  {
    assert forall i :: 0 <= i < |keys| ==> keys[i] == (keys + [key])[i];
    if keys != [] {
      assert (keys + [key])[1..] == keys[1..] + [key];
      HitCountAppend(keys[1..], key, multiplier, tableSize, b);
    }
  }

  /** Each counter holds exactly the number of keys that hash to its bucket. */
  lemma {:induction false} CountsAreHitCounts(keys: seq<int>, multiplier: int, tableSize: int, b: int)
    requires ValidRun(keys, multiplier, tableSize)
    requires 0 <= b < tableSize
    ensures Counts(keys, multiplier, tableSize)[b] == HitCount(keys, multiplier, tableSize, b)
    decreases |keys|
  {
    if keys != [] {
      var prefix, key := keys[..|keys| - 1], keys[|keys| - 1];
      assert prefix + [key] == keys;
      CountsAreHitCounts(prefix, multiplier, tableSize, b);
      HitCountAppend(prefix, key, multiplier, tableSize, b);
    }
  }

  /** No counter exceeds the number of keys inserted. */
  lemma CountsBounded(keys: seq<int>, multiplier: int, tableSize: int, b: int)
    requires ValidRun(keys, multiplier, tableSize)
    requires 0 <= b < tableSize
    ensures 0 <= Counts(keys, multiplier, tableSize)[b] <= |keys|
  {
    CountsAreHitCounts(keys, multiplier, tableSize, b);
  }

  // ---- Degenerate multiplier and a worked scenario ----

  /** When the multiplier is a multiple of the table size, every key lands in bucket 0. */
  lemma {:induction false} DegenerateCounts(keys: seq<int>, multiplier: int, tableSize: int)
    requires ValidRun(keys, multiplier, tableSize)
    requires multiplier % tableSize == 0
    ensures Counts(keys, multiplier, tableSize) == [|keys|] + seq(tableSize - 1, _ => 0)
    decreases |keys|
  {
    if keys == [] {
      assert seq(tableSize, _ => 0) == [0] + seq(tableSize - 1, _ => 0);
    } else {
      var prefix := keys[..|keys| - 1];
      DegenerateCounts(prefix, multiplier, tableSize);
      DegenerateMultiplier(keys[|keys| - 1], multiplier, tableSize);
    }
  }

  lemma {:induction false} NonEmptyFirstOnly(c: int, j: nat)
    requires c > 0
    ensures NonEmptyCount([c] + seq(j, _ => 0)) == 1
  {
    if j > 0 {
      assert ([c] + seq(j, _ => 0))[..j] == [c] + seq(j - 1, _ => 0);
      NonEmptyFirstOnly(c, j - 1);
    }
  }

  /** With a degenerate multiplier, every key after the first collides and all buckets but one stay empty. */
  lemma DegenerateRun(keys: seq<int>, multiplier: int, tableSize: int)
    requires ValidRun(keys, multiplier, tableSize)
    requires multiplier % tableSize == 0
    requires |keys| >= 1
    ensures Collisions(keys, multiplier, tableSize) == |keys| - 1
    ensures EmptyCount(Counts(keys, multiplier, tableSize)) == tableSize - 1
  {
    var table := Counts(keys, multiplier, tableSize);
    DegenerateCounts(keys, multiplier, tableSize);
    NonEmptyFirstOnly(|keys|, tableSize - 1);
    CollisionsAreKeysMinusNonEmpty(keys, multiplier, tableSize);
    EmptyPlusNonEmpty(table);
  }

  /** One insertion: the hashed bucket gains one key, every other bucket is
      unchanged, and the collision counter grows exactly when that bucket was
      already non-empty. */
  lemma InsertOne(keys: seq<int>, key: int, multiplier: int, tableSize: int)
    requires ValidRun(keys + [key], multiplier, tableSize)
    ensures ValidRun(keys, multiplier, tableSize)
    ensures var b, before := Hash(key, multiplier, tableSize), Counts(keys, multiplier, tableSize);
      && 0 <= b < tableSize
      && Counts(keys + [key], multiplier, tableSize) == before[b := before[b] + 1]
      && Collisions(keys + [key], multiplier, tableSize)
         == Collisions(keys, multiplier, tableSize) + if before[b] > 0 then 1 else 0
  {
    assert (keys + [key])[..|keys|] == keys;
    assert (keys + [key])[|keys|] == key;
  }

  /** With multiplier 1, the keys 0, 1, ..., n - 1 go one to a bucket when
      there are at least n buckets: no collisions, and exactly the first n
      buckets are occupied. */
  lemma {:induction false} ConsecutiveKeysSpread(keys: seq<int>, tableSize: int)
    requires 0 < tableSize && |keys| <= tableSize && |keys| <= KeyBound
    requires forall i :: 0 <= i < |keys| ==> keys[i] == i
    ensures ValidRun(keys, 1, tableSize)
    ensures forall b :: 0 <= b < tableSize ==> Counts(keys, 1, tableSize)[b] == if b < |keys| then 1 else 0
    ensures Collisions(keys, 1, tableSize) == 0
    decreases |keys|
  {
    if keys != [] {
      var n := |keys|;
      var prefix, key := keys[..n - 1], keys[n - 1];
      ConsecutiveKeysSpread(prefix, tableSize);
      assert prefix + [key] == keys;
      assert Hash(key, 1, tableSize) == n - 1 by {
        DivModUnique(n - 1, 0, n - 1, tableSize);
      }
      InsertOne(prefix, key, 1, tableSize);
    }
  }

  /** Ten buckets, multiplier 1, keys 0 to 10: keys 0 and 10 share bucket 0, every
      other bucket gets one key, so there is one collision and no empty bucket. */
  lemma ElevenKeysInTenBuckets()
    ensures ValidRun([0, 1, 2, 3, 4, 5, 6, 7, 8, 9, 10], 1, 10)
    ensures Counts([0, 1, 2, 3, 4, 5, 6, 7, 8, 9, 10], 1, 10) == [2, 1, 1, 1, 1, 1, 1, 1, 1, 1]
    ensures Collisions([0, 1, 2, 3, 4, 5, 6, 7, 8, 9, 10], 1, 10) == 1
    ensures EmptyCount(Counts([0, 1, 2, 3, 4, 5, 6, 7, 8, 9, 10], 1, 10)) == 0
  {
    var first := [0, 1, 2, 3, 4, 5, 6, 7, 8, 9];
    ConsecutiveKeysSpread(first, 10);
    assert Counts(first, 1, 10) == [1, 1, 1, 1, 1, 1, 1, 1, 1, 1];
    assert first + [10] == [0, 1, 2, 3, 4, 5, 6, 7, 8, 9, 10];
    DivModUnique(10, 1, 0, 10);
    InsertOne(first, 10, 1, 10);
    CollisionsAreKeysMinusNonEmpty([0, 1, 2, 3, 4, 5, 6, 7, 8, 9, 10], 1, 10);
    EmptyPlusNonEmpty([2, 1, 1, 1, 1, 1, 1, 1, 1, 1]);
  }
}
