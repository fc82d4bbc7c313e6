// The multiplicative hash of the dispersion counter and the integer
// arithmetic it runs on: C's truncating remainder and the 32-bit `int`.

module Hashing {

  /** Largest value of a 32-bit C `int`. */
  const Int32Max: int := 0x7fff_ffff

  /** Keys are drawn from [0, KeyBound): `rand() % 10000000`. */
  const KeyBound: int := 10000000

  /** Compile-time configuration of the original program. */
  const Multiplier: int := 3
  const HashtableSize: int := 51
  const NumberGeneratedKeys: int := 10000

  /** Largest multiplier for which no generated key overflows `key * multiplier`. */
  const MaxSafeMultiplier: int := Int32Max / (KeyBound - 1)

  /** A value the key generator can return. */
  predicate Generated(key: int) {
    0 <= key < KeyBound
  }

  /** A multiplier whose products with generated keys fit in a 32-bit `int`. */
  predicate SafeMultiplier(multiplier: int) {
    0 <= multiplier <= MaxSafeMultiplier
  }

  /** A product of non-negative numbers is non-negative. */
  lemma {:induction false} MulNonNegative(x: int, y: int)
    ensures x >= 0 && y >= 0 ==> x * y >= 0
    decreases if x > 0 then x else 0
  {
    if x > 0 && y >= 0 {
      MulNonNegative(x - 1, y);
      assert x * y == (x - 1) * y + y;
    }
  }

  /** Multiplying by a non-negative factor preserves order. */
  lemma MulMonotonic(a: int, b: int, c: int)
    requires a <= b && c >= 0
    ensures a * c <= b * c
  {
    MulNonNegative(b - a, c);
    assert b * c - a * c == (b - a) * c;
  }

  /** Division by a positive d is unique: the quotient and remainder of x are the only q, r with x == q * d + r and 0 <= r < d. */
  lemma DivModUnique(x: int, q: int, r: int, d: int)
    requires d > 0 && 0 <= r < d && x == q * d + r
    ensures x / d == q && x % d == r
  {
    var q', r' := x / d, x % d;
    assert (q - q') * d == r' - r;
    if q - q' >= 1 {
      MulMonotonic(1, q - q', d);
    } else if q' - q >= 1 {
      MulMonotonic(1, q' - q, d);
    }
  }

  /** C's `a % d`: the quotient truncates toward zero, so the remainder takes the sign of `a`. */
  function CRem(a: int, d: int): (r: int)
    requires d > 0
    ensures -d < r < d
    ensures a >= 0 ==> 0 <= r
    ensures a <= 0 ==> r <= 0
    ensures (a - r) % d == 0
  {
    if a >= 0 then
      DivModUnique(a - a % d, a / d, 0, d);
      a % d
    else
      DivModUnique(a + (-a) % d, -((-a) / d), 0, d);
      -((-a) % d)
  }

  /** `hashFunction`: `(key * MULTIPLIER) % tableSize`, with the multiplier as a parameter.
      For a non-negative key and multiplier the bucket is a valid array index. */
  function Hash(key: int, multiplier: int, tableSize: int): (bucket: int)
    requires tableSize > 0
    ensures -tableSize < bucket < tableSize
    ensures 0 <= key && 0 <= multiplier ==> 0 <= bucket < tableSize
  {
    MulNonNegative(key, multiplier);
    CRem(key * multiplier, tableSize)
  }

  /** The bucket takes the sign of the product and differs from it by a multiple of the table size. */
  lemma HashCongruent(key: int, multiplier: int, tableSize: int)
    requires tableSize > 0
    ensures 0 <= key * multiplier ==> 0 <= Hash(key, multiplier, tableSize)
    ensures key * multiplier <= 0 ==> Hash(key, multiplier, tableSize) <= 0
    ensures (key * multiplier - Hash(key, multiplier, tableSize)) % tableSize == 0
  {
  }

  /** Two non-negative numbers leave the same remainder exactly when their difference is a multiple of d. */
  lemma SameRemainder(a: int, b: int, d: int)
    requires d > 0 && a >= 0 && b >= 0
    ensures a % d == b % d <==> (a - b) % d == 0
  {
    var qa, qb := a / d, b / d;
    var ra, rb := a % d, b % d;
    if ra == rb {
      DivModUnique(a - b, qa - qb, 0, d);
    }
    if (a - b) % d == 0 {
      var k := (a - b) / d;
      DivModUnique(a, qb + k, rb, d);
    }
  }

  /** Two keys land in the same bucket exactly when their products are congruent modulo the table size. */
  lemma {:induction false} CollideIff(k1: int, k2: int, multiplier: int, tableSize: int)
    requires tableSize > 0
    requires 0 <= k1 * multiplier && 0 <= k2 * multiplier
    ensures Hash(k1, multiplier, tableSize) == Hash(k2, multiplier, tableSize)
        <==> (k1 * multiplier - k2 * multiplier) % tableSize == 0
  {
    SameRemainder(k1 * multiplier, k2 * multiplier, tableSize);
  }

  /** Keys that differ by the table size always collide. */
  lemma HashPeriodic(key: int, multiplier: int, tableSize: int)
    requires tableSize > 0 && key >= 0 && multiplier >= 0
    ensures Hash(key + tableSize, multiplier, tableSize) == Hash(key, multiplier, tableSize)
  {
    var a, b := (key + tableSize) * multiplier, key * multiplier;
    assert a - b == multiplier * tableSize;
    DivModUnique(a - b, multiplier, 0, tableSize);
    MulNonNegative(key, multiplier);
    MulNonNegative(key + tableSize, multiplier);
    CollideIff(key + tableSize, key, multiplier, tableSize);
  }

  /** A multiplier that is a multiple of the table size sends every non-negative key to bucket 0. */
  lemma DegenerateMultiplier(key: int, multiplier: int, tableSize: int)
    requires tableSize > 0 && key >= 0 && multiplier >= 0
    requires multiplier % tableSize == 0
    ensures Hash(key, multiplier, tableSize) == 0
  {
    var q := multiplier / tableSize;
    assert multiplier == q * tableSize;
    assert key * multiplier == (key * q) * tableSize;
    DivModUnique(key * multiplier, key * q, 0, tableSize);
    MulNonNegative(key, multiplier);
  }

  /** With generated keys and a safe multiplier, `key * multiplier` never overflows a 32-bit `int`. */
  lemma ProductFitsInt32(key: int, multiplier: int)
    requires Generated(key) && SafeMultiplier(multiplier)
    ensures 0 <= key * multiplier <= Int32Max
  {
    assert MaxSafeMultiplier == 214;
    MulNonNegative(key, multiplier);
    MulMonotonic(key, KeyBound - 1, multiplier);
    MulMonotonic(multiplier, 214, KeyBound - 1);
    assert multiplier * (KeyBound - 1) == (KeyBound - 1) * multiplier;
  }

  /** The source's own multiplier is safe. */
  lemma SourceMultiplierIsSafe()
    ensures SafeMultiplier(Multiplier)
  {
    assert MaxSafeMultiplier == 214;
  }
}
