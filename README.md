# Hash-dispersion counter

A Dafny model of the dispersion counter in `main.c`. The program measures how
well a multiplicative hash spreads keys. It draws keys and hashes each one with
`(key * MULTIPLIER) % tableSize`. It does not store the keys. It only
increments a counter for the bucket each key lands in. While doing so it counts
a collision whenever that bucket already held a key. Afterwards one pass sums
the counters to get the mean's numerator and counts the empty buckets.

The model has three modules, one per file:

- `Hashing` (`hashing.dfy`): C's truncating `%` (`CRem`) and `hashFunction`
  (`Hash`). It also holds the program's constants (10000 keys, multiplier 3,
  51 buckets, keys below 10000000, the 32-bit `int` range) and arithmetic facts
  about the hash.
- `BucketTable` (`bucket_table.dfy`): the specification as functions on
  sequences. `Counts` gives the counters after inserting a key sequence, and
  `Collisions` gives the collision counter. `HitCount` counts the keys that
  hash to one bucket and is an independent reference for `Counts`. `Sum`,
  `EmptyCount` and `NonEmptyCount` tally a table. The lemmas relate these
  functions.
- `Dispersion` (`dispersion.dfy`): the program's two loops over the `hashtable`
  array, written as methods with loop invariants. `Simulate` is the insertion
  loop, which increments the array in place. `TallyBuckets` is the summing and
  empty-bucket pass. `Run` is the two in sequence. Each method's `ensures` ties
  its results to the specification functions, and the lemmas prove the
  properties of those functions.

The random keys are an input sequence. Each key must lie in [0, 10000000),
which is the range of `rand() % 10000000`. The multiplier and the table size are
parameters. The multiplier must be between 0 and 214, where 214 is
floor((2^31 - 1) / 9999999). In that range `key * multiplier` cannot overflow a
32-bit `int`, and the program's value of 3 is in it. The table size must be
positive. `Run` requires a table size above 1, because the standard deviation
divides by the table size minus one.

## Model

| member | source | states |
|---|---|---|
| `Hashing.CRem` | main.c:93 | C's `%` for a positive divisor: the result lies strictly between -d and d, takes the sign of the dividend, and differs from the dividend by a multiple of d |
| `Hashing.Hash` | main.c:92-94 | for a non-negative key and multiplier the bucket lies in [0, tableSize), so `hashtable[bucket]` is in bounds; for any key it lies strictly between -tableSize and tableSize |
| `Hashing.HashCongruent` | main.c:93 | the bucket takes the sign of key * multiplier and differs from it by a multiple of the table size |
| `Hashing.CollideIff` | main.c:93 | two keys with non-negative products land in the same bucket if and only if their products differ by a multiple of the table size |
| `Hashing.HashPeriodic` | main.c:93 | keys that differ by the table size always land in the same bucket |
| `Hashing.DegenerateMultiplier` | main.c:92-94 | a multiplier that is a multiple of the table size (including 0) sends every key to bucket 0 |
| `Hashing.ProductFitsInt32` | main.c:88-93 | a generated key in [0, 10000000) times a multiplier in [0, 214] lies in [0, 2^31 - 1], so `key * MULTIPLIER` never overflows |
| `Hashing.SourceMultiplierIsSafe` | main.c:27 | the program's multiplier 3 is within the overflow-free range |
| `BucketTable.Counts` | main.c:40-54 | the counters after the insertions form a table of exactly tableSize entries, none negative |
| `BucketTable.Collisions` | main.c:43-54 | the collision counter never exceeds the number of keys inserted |
| `BucketTable.HitCount` | main.c:47-53 | the number of keys hashing to one bucket is at most the number of keys |
| `BucketTable.NonEmptyCount` | main.c:51 | the number of buckets holding a key is at most the table size |
| `BucketTable.EmptyCount` | main.c:72 | the number of empty buckets is at most the table size |
| `BucketTable.InsertOne` | main.c:49-53 | one insertion increments exactly the hashed bucket, leaves every other bucket unchanged, and adds a collision exactly when that bucket was already non-empty |
| `BucketTable.SumIsKeyCount` | main.c:47-54 | the counters always sum to the number of keys inserted |
| `BucketTable.CollisionsAreKeysMinusNonEmpty` | main.c:51-53 | collisions equal keys inserted minus non-empty buckets, since every insertion into an occupied bucket counts, not only the second |
| `BucketTable.CountsAreHitCounts` | main.c:47-53 | each counter equals the number of keys that hash to its bucket |
| `BucketTable.CountsBounded` | main.c:40-53 | every counter lies between 0 and the number of keys |
| `BucketTable.EmptyPlusNonEmpty` | main.c:70-73 | in a table with no negative counter, the empty buckets plus the non-empty buckets equal the table size |
| `BucketTable.SumUpdate` | main.c:53 | incrementing one counter by d increases the sum of the counters by d |
| `BucketTable.NonEmptyIncrement` | main.c:51-53 | incrementing a non-negative counter adds one non-empty bucket exactly when that counter was 0 |
| `BucketTable.DegenerateCounts` | main.c:47-54 | with a multiplier that is a multiple of the table size, bucket 0 holds every key and all other buckets are 0 |
| `BucketTable.DegenerateRun` | main.c:47-73 | with such a multiplier and at least one key, collisions are the number of keys minus 1 and the empty buckets are the table size minus 1 |
| `BucketTable.ConsecutiveKeysSpread` | main.c:47-54 | with multiplier 1 and at least n buckets, the keys 0 to n - 1 fill exactly the first n buckets with one key each and cause no collision |
| `BucketTable.ElevenKeysInTenBuckets` | main.c:47-73 | with 10 buckets, multiplier 1 and keys 0 to 10, the counters are [2,1,1,1,1,1,1,1,1,1], there is 1 collision and no bucket is empty |
| `Dispersion.Simulate` | main.c:40-54 | the insertion loop over a zeroed array leaves the counters equal to `Counts` and the collision counter equal to `Collisions`; the counters sum to the number of keys; collisions equal keys minus non-empty buckets |
| `Dispersion.TallyBuckets` | main.c:69-73 | the pass returns the sum of all counters and the number of counters equal to 0 |
| `Dispersion.Run` | main.c:37-79 | the sum fed into the mean equals the number of keys; collisions equal keys minus (table size minus empty buckets); 0 <= collisions <= keys; 0 <= empty buckets <= table size |
| `Dispersion.SourceConfigurationFits` | main.c:23-53 | with 10000 generated keys, multiplier 3 and 51 buckets, the run is valid, and no product, counter or collision count exceeds 2^31 - 1 |

## Left out

- Key generation: `srand(time(NULL))` and `rand() % 10000000` (main.c:38, main.c:88-91) use a clock-seeded global PRNG. The keys are an input sequence instead, and each key is required to lie in [0, 10000000).
- Printing: the bucket listing and the statistics line (main.c:58-64, main.c:82-83) are output only.
- Mean and standard deviation: the `double` division, the squared deviations and `sqrt` (main.c:68, main.c:74-80) are floating point. The model covers the integer sum that feeds the mean. `Run` keeps the table-size-above-1 requirement that the division at main.c:79 needs.
- `PRINTTABLE` (main.c:22) only controls output.
- The other compile-time constants (main.c:23-28) become parameters. Their values are constants in `Hashing`.
- Simulate: the multiplier must lie in [0, 214] for every key in [0, 10000000) to have a product that fits in 32 bits. With a larger multiplier the C code overflows, which is undefined behaviour, and with a negative one it indexes out of bounds. Neither case is modelled. The program itself uses 3.
