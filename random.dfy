/**
 * The seeded pseudo-random source of the run-map generator: the Park–Miller
 * "minimal standard" Lehmer generator (state := state * 16807 mod 2^31 - 1),
 * with the bounded-integer draw, the single-element pick and the
 * Fisher–Yates shuffle built on top of it.
 *
 * The generator state is an integer in [0, MODULUS). Everything the class
 * `SeededRandom` does is specified by the functions of this module, which take
 * the state explicitly; the map generator's own specification threads that
 * state through every draw.
 */
module SeedRandom {

  const MODULUS: int := 2147483647
  const MULTIPLIER: int := 16807

  /** A value the generator's state may hold. */
  predicate IsState(s: int) {
    0 <= s < MODULUS
  }

  /** JavaScript's `%`: truncated toward zero, the sign follows the dividend. */
  function JsRem(a: int, m: int): (r: int)
    requires m > 0
    ensures -m < r < m
    ensures a >= 0 ==> r == a % m
    ensures a < 0 ==> r == -((-a) % m)
  {
    if a >= 0 then a % m else -((-a) % m)
  }

  /** The state the constructor derives from a seed. */
  function InitialState(seed: int): (s: int)
    ensures IsState(s)
  {
    var r := JsRem(seed, MODULUS);
    if r <= 0 then r + 2147483646 else r
  }

  /** One step of the Lehmer recurrence. */
  function Step(s: int): (t: int)
    requires IsState(s)
    ensures IsState(t)
  {
    (s * MULTIPLIER) % MODULUS
  }

  /** The state after `k` steps. */
  function Advance(s: int, k: nat): (t: int)
    requires IsState(s)
    ensures IsState(t)
  {
    if k == 0 then s else Step(Advance(s, k - 1))
  }

  /**
   * `floor(t / MODULUS * (max - min + 1)) + min` computed exactly: the integer
   * that `nextInt(min, max)` returns once the generator has moved to state `t`.
   */
  function Scale(t: int, min: int, max: int): int {
    (t * (max - min + 1)) / 2147483647 + min
  }

  /** The integer `nextInt(min, max)` draws from state `s`. */
  function DrawInt(s: int, min: int, max: int): int
    requires IsState(s)
  {
    Scale(Step(s), min, max)
  }

  /** Exchange the elements at `i` and `j`, as the destructuring swap does. */
  function Swap<T>(a: seq<T>, i: int, j: int): (r: seq<T>)
    requires 0 <= i < |a| && 0 <= j < |a|
    ensures |r| == |a| && r[i] == a[j] && r[j] == a[i]
    ensures forall k :: 0 <= k < |a| && k != i && k != j ==> r[k] == a[k]
  {
    a[i := a[j]][j := a[i]]
  }

  /** A swap only reorders. */
  lemma SwapPermutes<T>(a: seq<T>, i: int, j: int)
    requires 0 <= i < |a| && 0 <= j < |a|
    ensures multiset(Swap(a, i, j)) == multiset(a)
  {
  }

  /**
   * The Fisher–Yates loop of `shuffle` from index `i` down to 1 on the working
   * copy `a`, starting in state `s`: the shuffled sequence and the final state.
   */
  function FisherYates<T>(a: seq<T>, i: int, s: int): (res: (seq<T>, int))
    requires IsState(s) && i < |a|
    ensures |res.0| == |a|
    ensures IsState(res.1)
    decreases i
  {
    if i <= 0 then (a, s)
    else
      var t := Step(s);
      ScaleInRange(t, 0, i);
      FisherYates(Swap(a, i, Scale(t, 0, i)), i - 1, t)
  }

  /** One round of the loop: swap index i with the drawn index, then go on from i - 1. */
  lemma FisherYatesStep<T>(a: seq<T>, i: int, s: int, j: int)
    requires IsState(s) && 0 < i < |a| && j == DrawInt(s, 0, i)
    ensures 0 <= j <= i
    ensures FisherYates(a, i, s) == FisherYates(Swap(a, i, j), i - 1, Step(s))
  {
    ScaleInRange(Step(s), 0, i);
  }

  /** What `shuffle(arr)` returns and the state it leaves, from state `s`. */
  function Shuffled<T>(arr: seq<T>, s: int): (res: (seq<T>, int))
    requires IsState(s)
    ensures |res.0| == |arr| && IsState(res.1)
  {
    FisherYates(arr, |arr| - 1, s)
  }

  // ---------------------------------------------------------------------
  // Properties of the generator
  // ---------------------------------------------------------------------

  /**
   * A positive seed always yields a state in [1, MODULUS - 1]; a multiple of
   * MODULUS becomes MODULUS - 1 and every other seed its remainder.
   */
  lemma PositiveSeedState(seed: int)
    requires seed > 0
    ensures 1 <= InitialState(seed) <= MODULUS - 1
    ensures seed % MODULUS == 0 ==> InitialState(seed) == MODULUS - 1
    ensures seed % MODULUS != 0 ==> InitialState(seed) == seed % MODULUS
  {
  }

  /**
   * The normalisation leaves the zero state only for negative seeds whose
   * magnitude is one less than a multiple of MODULUS (for example
   * -2147483646); from the zero state every later state is zero as well.
   */
  lemma {:induction false} ZeroStateSeeds(seed: int, k: nat)
    ensures InitialState(seed) == 0 <==> seed < 0 && (-seed) % MODULUS == MODULUS - 1
    ensures InitialState(seed) == 0 ==> Advance(InitialState(seed), k) == 0
  {
    if k > 0 {
      ZeroStateSeeds(seed, k - 1);
    }
  }

  /**
   * The recurrence never reaches zero from a nonzero state, because MULTIPLIER
   * is invertible modulo the prime MODULUS:
   * 16807 * 1407677000 == 11017 * 2147483647 + 1.
   */
  lemma StepKeepsNonZero(s: int)
    requires 0 < s < MODULUS
    ensures 0 < Step(s) < MODULUS
  {
    var q := (s * 16807) / 2147483647;
    var r := (s * 16807) % 2147483647;
    assert s * 16807 == q * 2147483647 + r;
    // Multiplying by the inverse: s == 1407677000 * r + (multiple of MODULUS).
    var k := q * 1407677000 - 11017 * s;
    assert s == 1407677000 * r + k * 2147483647;
  }

  /** Every state reached from a nonzero state is nonzero. */
  lemma {:induction false} AdvanceKeepsNonZero(s: int, k: nat)
    requires 0 < s < MODULUS
    ensures 0 < Advance(s, k) < MODULUS
  {
    if k > 0 {
      AdvanceKeepsNonZero(s, k - 1);
      StepKeepsNonZero(Advance(s, k - 1));
    }
  }

  /** Taking the first step before counting the rest reaches the same state. */
  lemma {:induction false} AdvanceStepFirst(s: int, k: nat)
    requires IsState(s)
    ensures Advance(Step(s), k) == Advance(s, k + 1)
  {
    if k > 0 {
      AdvanceStepFirst(s, k - 1);
    }
  }

  /** Seed 1: the first draw moves the state to 16807, the second to 282475249. */
  lemma SeedOneSequence()
    ensures InitialState(1) == 1
    ensures Step(InitialState(1)) == 16807
    ensures Advance(InitialState(1), 2) == 282475249
  {
  }

  /** For min <= max the scaled draw lies in [min, max]. */
  lemma ScaleInRange(t: int, min: int, max: int)
    requires IsState(t) && min <= max
    ensures min <= Scale(t, min, max) <= max
  {
    var n := max - min + 1;
    var p := t * n;
    assert 0 <= p;
    assert (2147483647 - t) * n == 2147483647 * n - p;
    assert (2147483647 - t) * n > 0;
    assert p < 2147483647 * n;
    assert Scale(t, min, max) == p / 2147483647 + min;
  }

  /** A draw of `nextInt(min, max)` from any state lies in [min, max]. */
  lemma DrawIntInRange(s: int, min: int, max: int)
    requires IsState(s) && min <= max
    ensures min <= DrawInt(s, min, max) <= max
  {
    ScaleInRange(Step(s), min, max);
  }

  /**
   * The float expression of `nextInt`, `floor(next() * n)` with
   * `next() == t / MODULUS`, taken over exact reals, equals the integer
   * quotient `(t * n) / MODULUS` that Scale uses.
   */
  lemma FloorOfScaledState(t: int, n: int)
    requires IsState(t)
    ensures ((t as real / MODULUS as real) * n as real).Floor == (t * n) / MODULUS
  {
    var m := MODULUS;
    var q := (t * n) / m;
    var r := (t * n) % m;
    assert t * n == q * m + r && 0 <= r < m;
    var x := (t as real / m as real) * n as real;
    assert x == (t * n) as real / m as real;
    assert (t * n) as real == q as real * m as real + r as real;
    assert x == q as real + r as real / m as real;
    assert 0.0 <= r as real / m as real < 1.0;
  }

  /** The shuffle's final state is the start state advanced once per swap index i = len-1 .. 1. */
  lemma {:induction false} FisherYatesDraws<T>(a: seq<T>, i: int, s: int)
    requires IsState(s) && i < |a|
    ensures FisherYates(a, i, s).1 == Advance(s, if i > 0 then i else 0)
    decreases i
  {
    if i > 0 {
      var t := Step(s);
      ScaleInRange(t, 0, i);
      FisherYatesDraws(Swap(a, i, Scale(t, 0, i)), i - 1, t);
      AdvanceStepFirst(s, if i - 1 > 0 then i - 1 else 0);
    }
  }

  /** The loop only swaps, so it returns a permutation of the working copy. */
  lemma {:induction false} FisherYatesPermutes<T>(a: seq<T>, i: int, s: int)
    requires IsState(s) && i < |a|
    ensures multiset(FisherYates(a, i, s).0) == multiset(a)
    decreases i
  {
    if i > 0 {
      var t := Step(s);
      ScaleInRange(t, 0, i);
      SwapPermutes(a, i, Scale(t, 0, i));
      FisherYatesPermutes(Swap(a, i, Scale(t, 0, i)), i - 1, t);
    }
  }

  /**
   * `shuffle` returns a permutation of its input and consumes exactly
   * max(0, |arr| - 1) draws.
   */
  lemma ShuffledIsPermutation<T>(arr: seq<T>, s: int)
    requires IsState(s)
    ensures |Shuffled(arr, s).0| == |arr|
    ensures multiset(Shuffled(arr, s).0) == multiset(arr)
    ensures Shuffled(arr, s).1 == Advance(s, if |arr| > 1 then |arr| - 1 else 0)
  {
    FisherYatesDraws(arr, |arr| - 1, s);
    FisherYatesPermutes(arr, |arr| - 1, s);
  }

  // ---------------------------------------------------------------------
  // The generator object
  // ---------------------------------------------------------------------

  class SeededRandom {
    /** The current generator state (the source's private `seed` field). */
    var seed: int

    ghost predicate Valid()
      reads this
    {
      IsState(seed)
    }

    constructor (seed0: int)
      ensures Valid() && seed == InitialState(seed0)
    {
      var s := JsRem(seed0, MODULUS);
      if s <= 0 {
        s := s + 2147483646;
      }
      seed := s;
    }

    /** Advance the state once and return it as a fraction of MODULUS. */
    method Next() returns (x: real)
      requires Valid()
      modifies this
      ensures Valid() && seed == Step(old(seed))
      ensures x == seed as real / MODULUS as real
      ensures 0.0 <= x < 1.0
      ensures old(seed) != 0 ==> 0.0 < x
    {
      seed := (seed * 16807) % 2147483647;
      x := seed as real / 2147483647 as real;
      if old(seed) != 0 {
        StepKeepsNonZero(old(seed));
      }
    }

    /** An integer in [min, max] (when min <= max) from exactly one draw. */
    method NextInt(min: int, max: int) returns (r: int)
      requires Valid()
      modifies this
      ensures Valid() && seed == Step(old(seed))
      ensures r == Scale(seed, min, max)
      ensures min <= max ==> min <= r <= max
    {
      var x := Next();
      r := (x * (max - min + 1) as real).Floor + min;
      FloorOfScaledState(seed, max - min + 1);
      if min <= max {
        ScaleInRange(seed, min, max);
      }
    }

    /** One element of a non-empty sequence, chosen by one draw. */
    method Pick<T>(arr: seq<T>) returns (x: T)
      requires Valid() && |arr| > 0
      modifies this
      ensures Valid() && seed == Step(old(seed))
      ensures 0 <= Scale(seed, 0, |arr| - 1) < |arr| && x == arr[Scale(seed, 0, |arr| - 1)]
      ensures x in arr
    {
      var k := NextInt(0, |arr| - 1);
      x := arr[k];
    }

    /**
     * A shuffled copy of `arr` (Fisher–Yates from the last index down to 1);
     * `arr` itself is a value and is left as it was.
     */
    method Shuffle<T>(arr: seq<T>) returns (shuffled: seq<T>)
      requires Valid()
      modifies this
      ensures Valid()
      ensures (shuffled, seed) == Shuffled(arr, old(seed))
    {
      ghost var goal := Shuffled(arr, seed);
      var newArr := new T[|arr|](k requires 0 <= k < |arr| => arr[k]);
      assert newArr[..] == arr;
      var i := newArr.Length - 1;
      ghost var a := arr;
      while i > 0
        invariant -1 <= i < newArr.Length && newArr[..] == a
        invariant Valid()
        invariant FisherYates(a, i, seed) == goal
      {
        ghost var s := seed;
        var j := NextInt(0, i);
        FisherYatesStep(a, i, s, j);
        ghost var t := seed;
        var tmp := newArr[i];
        newArr[i] := newArr[j];
        newArr[j] := tmp;
        assert seed == t;
        a := Swap(a, i, j);
        i := i - 1;
      }
      shuffled := newArr[..];
    }
  }
}
