// The dispersion counter itself: the insertion loop that fills the array of
// bucket counters in place, and the pass that sums the counters and counts
// the empty buckets.

module Dispersion {
  import opened Hashing
  import opened BucketTable

  /** The insertion loop: hash every key, count a collision when its bucket
      already holds a key, then increment that bucket's counter. */
  method Simulate(keys: seq<int>, multiplier: int, tableSize: int) returns (hashtable: array<int>, collisions: int)
    requires ValidRun(keys, multiplier, tableSize)
    ensures hashtable.Length == tableSize
    ensures hashtable[..] == Counts(keys, multiplier, tableSize)
    ensures collisions == Collisions(keys, multiplier, tableSize)
    ensures Sum(hashtable[..]) == |keys|
    ensures collisions == |keys| - NonEmptyCount(hashtable[..])
  {
    hashtable := new int[tableSize](_ => 0);
    collisions := 0;
    assert hashtable[..] == Counts(keys[..0], multiplier, tableSize);
    for i := 0 to |keys|
      invariant hashtable.Length == tableSize
      invariant hashtable[..] == Counts(keys[..i], multiplier, tableSize)
      invariant collisions == Collisions(keys[..i], multiplier, tableSize)
    {
      var key := keys[i];
      InsertOne(keys[..i], key, multiplier, tableSize);
      var bucket := Hash(key, multiplier, tableSize);
      if hashtable[bucket] > 0 {
        collisions := collisions + 1;
      }
      hashtable[bucket] := hashtable[bucket] + 1;
      assert keys[..i + 1] == keys[..i] + [key];
    }
    assert keys[..|keys|] == keys;
    SumIsKeyCount(keys, multiplier, tableSize);
    CollisionsAreKeysMinusNonEmpty(keys, multiplier, tableSize);
  }

  /** The statistics pass: sum every counter (the numerator of the mean) and
      count the counters that are zero. */
  method TallyBuckets(hashtable: array<int>) returns (total: int, emptyBuckets: int)
    ensures total == Sum(hashtable[..])
    ensures emptyBuckets == EmptyCount(hashtable[..])
  {
    total, emptyBuckets := 0, 0;
    for i := 0 to hashtable.Length
      invariant total == Sum(hashtable[..i])
      invariant emptyBuckets == EmptyCount(hashtable[..i])
    {
      assert hashtable[..i + 1][..i] == hashtable[..i];
      total := total + hashtable[i];
      if hashtable[i] == 0 {
        emptyBuckets := emptyBuckets + 1;
      }
    }
    assert hashtable[..hashtable.Length] == hashtable[..];
  }

  /** One run of the program without its output: simulate the insertions, then
      tally the table. The table size must exceed 1 because the standard
      deviation divides by it minus one. */
  method Run(keys: seq<int>, multiplier: int, tableSize: int) returns (collisions: int, emptyBuckets: int, total: int)
    requires ValidRun(keys, multiplier, tableSize)
    requires tableSize > 1
    ensures collisions == Collisions(keys, multiplier, tableSize)
    ensures emptyBuckets == EmptyCount(Counts(keys, multiplier, tableSize))
    ensures total == |keys|
    ensures collisions == |keys| - (tableSize - emptyBuckets)
    ensures 0 <= collisions <= |keys|
    ensures 0 <= emptyBuckets <= tableSize
  {
    var hashtable;
    hashtable, collisions := Simulate(keys, multiplier, tableSize);
    total, emptyBuckets := TallyBuckets(hashtable);
    EmptyPlusNonEmpty(hashtable[..]);
  }

  /** With the program's own constants (10000 keys, multiplier 3, 51 buckets)
      the run is valid and no counter, nor the collision count, can overflow a
      32-bit `int`. */
  lemma SourceConfigurationFits(keys: seq<int>)
    requires |keys| == NumberGeneratedKeys
    requires forall i :: 0 <= i < |keys| ==> Generated(keys[i])
    ensures ValidRun(keys, Multiplier, HashtableSize) && HashtableSize > 1
    ensures forall i :: 0 <= i < |keys| ==> 0 <= keys[i] * Multiplier <= Int32Max
    ensures forall b :: 0 <= b < HashtableSize ==> Counts(keys, Multiplier, HashtableSize)[b] <= Int32Max
    ensures Collisions(keys, Multiplier, HashtableSize) <= Int32Max
  {
    SourceMultiplierIsSafe();
    forall i | 0 <= i < |keys|
      ensures 0 <= keys[i] * Multiplier <= Int32Max
    {
      ProductFitsInt32(keys[i], Multiplier);
    }
    forall b | 0 <= b < HashtableSize
      ensures Counts(keys, Multiplier, HashtableSize)[b] <= Int32Max
    {
      CountsBounded(keys, Multiplier, HashtableSize, b);
    }
  }
}
