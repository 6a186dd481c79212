/**
 * The "feeling lucky" stepping function of the city selector: an index into the
 * city table is decreased by a fixed amount and wrapped back into [1, CityTableSize].
 * Because the decrement and the table size are coprime, iterating the step from any
 * index in the table visits every index exactly once before it comes back.
 */
module CityHash {

  /** The fixed decrement of the stepping function. */
  const Decrement := 7

  /** The number of cities the stepping function wraps around. */
  const CityTableSize := 209497

  /** rand.Intn(SeedRange) returns a value in [0, SeedRange); the first index is that plus one. */
  const SeedRange := 209490 - 1

  /** The multiplicative inverse of Decrement modulo CityTableSize (7 * 179569 = 6 * 209497 + 1). */
  const DecrementInverse := 179569

  /** Euclid's greatest common divisor. */
  function Gcd(a: nat, b: nat): nat
    decreases b
  {
    if b == 0 then a else Gcd(b, a % b)
  }

  /** The index range of the city table that the stepping function works on. */
  predicate InTable(r: int) {
    1 <= r <= CityTableSize
  }

  /** Reference definition: the residue of x modulo the table size, written as an index in [1, CityTableSize]. */
  function Wrap(x: int): int {
    (x - 1) % CityTableSize + 1
  }

  /** The double-hashing step: subtract the decrement; a result that is zero or negative wraps around. */
  function DoubleHashing(r: int): (next: int)
    ensures InTable(r) ==> InTable(next)
    ensures InTable(r) ==> next == Wrap(r - Decrement)
  {
    var s := r - Decrement;
    if s <= 0 then s + CityTableSize else s
  }

  /** The step applied k times. */
  function Iterate(k: nat, r: int): int {
    if k == 0 then r else DoubleHashing(Iterate(k - 1, r))
  }

  /** The comment's claim: the decrement and the table size have no common factor. */
  lemma DecrementCoprime()
    ensures Gcd(Decrement, CityTableSize) == 1
    ensures (Decrement * DecrementInverse) % CityTableSize == 1
  {
    assert Gcd(Decrement, CityTableSize) == Gcd(CityTableSize, Decrement);
    assert CityTableSize % Decrement == 1;
    assert Gcd(CityTableSize, Decrement) == Gcd(Decrement, 1);
    assert Gcd(Decrement, 1) == Gcd(1, 0);
  }

  /** Inputs of eight and more drop by exactly the decrement; inputs 1..7 wrap to the top of the table. */
  lemma DoubleHashingCases(r: int)
    requires InTable(r)
    ensures r > Decrement ==> DoubleHashing(r) == r - Decrement
    ensures r <= Decrement ==> DoubleHashing(r) == r - Decrement + CityTableSize
    ensures DoubleHashing(r) != r
  {
  }

  /** Two different table indices never step to the same index. */
  lemma DoubleHashingInjective(a: int, b: int)
    requires InTable(a) && InTable(b)
    requires DoubleHashing(a) == DoubleHashing(b)
    ensures a == b
  {
  }

  /** x % CityTableSize is determined by any decomposition x == q * CityTableSize + m with m in range. */
  lemma ModUnique(x: int, q: int, m: int)
    requires x == q * 209497 + m
    requires 0 <= m < 209497
    ensures x % CityTableSize == m
  {
    var q', m' := x / 209497, x % 209497;
    assert x == q' * 209497 + m';
    assert (q - q') * 209497 == m' - m;
  }

  /** One step on a wrapped value is the wrap of the value less the decrement. */
  lemma StepWrap(x: int)
    ensures DoubleHashing(Wrap(x)) == Wrap(x - Decrement)
  {
    var q, m := (x - 1) / 209497, (x - 1) % 209497;
    assert x - 1 == q * 209497 + m;
    if m >= Decrement {
      ModUnique(x - 1 - Decrement, q, m - Decrement);
    } else {
      ModUnique(x - 1 - Decrement, q - 1, m - Decrement + 209497);
    }
  }

  /** Closed form of the iteration: k steps subtract k decrements, modulo the table size. */
  lemma {:induction false} IterateClosedForm(k: nat, r: int)
    requires InTable(r)
    ensures Iterate(k, r) == Wrap(r - Decrement * k)
  {
    if k == 0 {
      ModUnique(r - 1, 0, r - 1);
    } else {
      IterateClosedForm(k - 1, r);
      StepWrap(r - Decrement * (k - 1));
    }
  }

  /** Coprimality at work: if the table size divides Decrement * k, it divides k. */
  lemma CoprimeCancel(k: int)
    requires (Decrement * k) % CityTableSize == 0
    ensures k % CityTableSize == 0
  {
    DecrementCoprime();
    var q := (Decrement * k) / 209497;
    assert Decrement * k == q * 209497;
    // Decrement * DecrementInverse == 6 * CityTableSize + 1, so multiplying
    // Decrement * k by the inverse gives back k plus a multiple of the table size
    assert k == DecrementInverse * (Decrement * k) - 6 * 209497 * k;
    assert k == (DecrementInverse * q - 6 * k) * 209497;
    ModUnique(k, DecrementInverse * q - 6 * k, 0);
  }

  /** Two iterates from a table index agree only when their step counts differ by a multiple of CityTableSize. */
  lemma IterateRepeatsOnlyAfterCycle(r: int, i: nat, j: nat)
    requires InTable(r)
    requires i <= j
    requires Iterate(i, r) == Iterate(j, r)
    ensures (j - i) % CityTableSize == 0
  {
    IterateClosedForm(i, r);
    IterateClosedForm(j, r);
    var a, b := r - 1 - Decrement * i, r - 1 - Decrement * j;
    var qa, qb := a / 209497, b / 209497;
    assert a == qa * 209497 + a % 209497;
    assert b == qb * 209497 + b % 209497;
    assert a % 209497 == b % 209497;
    assert Decrement * (j - i) == (qa - qb) * 209497;
    ModUnique(Decrement * (j - i), qa - qb, 0);
    CoprimeCancel(j - i);
  }

  /** The iteration never repeats an index within any CityTableSize consecutive steps. */
  lemma NoRepeatWithinCycle(r: int, i: nat, j: nat)
    requires InTable(r)
    requires i < j < i + CityTableSize
    ensures Iterate(i, r) != Iterate(j, r)
  {
    if Iterate(i, r) == Iterate(j, r) {
      IterateRepeatsOnlyAfterCycle(r, i, j);
      ModUnique(j - i, 0, j - i);
      assert false;
    }
  }

  /** After exactly CityTableSize steps the iteration is back at its seed. */
  lemma CycleCloses(r: int)
    requires InTable(r)
    ensures Iterate(CityTableSize, r) == r
  {
    IterateClosedForm(CityTableSize, r);
    ModUnique(r - 1 - Decrement * CityTableSize, -Decrement, r - 1);
  }

  /** t is among the first CityTableSize iterates from r. */
  ghost predicate VisitedWithinCycle(r: int, t: int) {
    exists k: nat :: k < CityTableSize && Iterate(k, r) == t
  }

  /** Every index of the table is reached from any seed within one cycle. */
  lemma EveryIndexVisited(r: int, t: int)
    requires InTable(r) && InTable(t)
    ensures VisitedWithinCycle(r, t)
  {
    var c := (r - t) * DecrementInverse;
    var q := c / 209497;
    var k: nat := c % 209497;
    assert c == q * 209497 + k;
    IterateClosedForm(k, r);
    // Decrement * DecrementInverse == 6 * CityTableSize + 1
    assert Decrement * c == (r - t) + (r - t) * 6 * 209497;
    assert r - 1 - Decrement * k == (t - 1) + (Decrement * q - (r - t) * 6) * 209497;
    ModUnique(r - 1 - Decrement * k, Decrement * q - (r - t) * 6, t - 1);
    assert Iterate(k, r) == t;
  }

  /**
   * The full-cycle guarantee: from any seed the first CityTableSize iterates are pairwise
   * distinct, cover the whole table, and the next one is the seed again.
   */
  lemma FullCycle(r: int)
    requires InTable(r)
    ensures Iterate(CityTableSize, r) == r
    ensures forall k: nat :: 0 < k < CityTableSize ==> Iterate(k, r) != r
    ensures forall i: nat, j: nat :: i < j < CityTableSize ==> Iterate(i, r) != Iterate(j, r)
    ensures forall t :: InTable(t) ==> VisitedWithinCycle(r, t)
  {
    CycleCloses(r);
    forall i: nat, j: nat | i < j < CityTableSize
      ensures Iterate(i, r) != Iterate(j, r)
    {
      NoRepeatWithinCycle(r, i, j);
    }
    forall k: nat | 0 < k < CityTableSize
      ensures Iterate(k, r) != r
    {
      NoRepeatWithinCycle(r, 0, k);
    }
    forall t | InTable(t)
      ensures VisitedWithinCycle(r, t)
    {
      EveryIndexVisited(r, t);
    }
  }
}
