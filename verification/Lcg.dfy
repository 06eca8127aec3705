/** The 64-bit linear congruential generator behind the session rows, and its period. */
module Lcg {
  import opened Arith

  const MULTIPLIER: nat := 6364136223846793005
  const INCREMENT: nat := 1442695040888963407
  const MODULUS: nat := 0x1_0000_0000_0000_0000

  type Word = x: nat | x < MODULUS

  /** One step of the generator, wrapping at 64 bits. */
  function Next(s: Word): Word {
    (s * MULTIPLIER + INCREMENT) % MODULUS
  }

  /** State after k draws. */
  function Run(k: nat, s: Word): Word {
    if k == 0 then s else Next(Run(k - 1, s))
  }

  /** `seed | 1`. */
  function FirstState(seed: Word): Word {
    if seed % 2 == 0 then seed + 1 else seed
  }

  /** Setting the lowest bit: the state of an odd seed is the seed, that of an even one the next
      word. */
  lemma FirstStateOdd(seed: Word)
    ensures FirstState(seed) % 2 == 1 && FirstState(seed) / 2 == seed / 2
    ensures seed % 2 == 1 ==> FirstState(seed) == seed
  {}

  /** Three steps in figures, the last one wrapping. */
  lemma StepExamples()
    ensures Next(0) == 1442695040888963407
    ensures Next(1) == 7806831264735756412
    ensures Next(3) == 2088359638719790806
  {}

  // ---------- the recurrence without wrap-around ----------

  function Pow2(m: nat): nat
    ensures Pow2(m) > 0
  {
    if m == 0 then 1 else 2 * Pow2(m - 1)
  }

  /** a * b by repeated addition: products stay folded, so every step below is linear. */
  function Times(a: nat, b: nat): nat {
    if b == 0 then 0 else a + Times(a, b - 1)
  }

  function Pow(a: nat, k: nat): nat {
    if k == 0 then 1 else Times(a, Pow(a, k - 1))
  }

  /** 1 + a + ... + a^(k-1). */
  function Geometric(a: nat, k: nat): nat {
    if k == 0 then 0 else 1 + Times(a, Geometric(a, k - 1))
  }

  /** k steps of x := a * x + c. */
  function Advance(a: nat, c: nat, k: nat, x: nat): nat {
    if k == 0 then x else Times(a, Advance(a, c, k - 1, x)) + c
  }

  lemma Unfold(a: nat, c: nat, k: nat, x: nat)
    requires k > 0
    ensures Times(a, k) == a + Times(a, k - 1)
    ensures Pow(a, k) == Times(a, Pow(a, k - 1))
    ensures Geometric(a, k) == 1 + Times(a, Geometric(a, k - 1))
    ensures Advance(a, c, k, x) == Times(a, Advance(a, c, k - 1, x)) + c
  {}

  lemma Unfold0(a: nat, c: nat, x: nat)
    ensures Times(a, 0) == Geometric(a, 0) == 0 && Pow(a, 0) == 1 && Advance(a, c, 0, x) == x
  {}

  lemma {:induction false} TimesIs(a: nat, b: nat)
    ensures Times(a, b) == a * b
  {
    if b > 0 {
      TimesIs(a, b - 1);
      Distribute(a, b - 1, 1);
    }
  }

  lemma {:induction false} TimesAdd(a: nat, b: nat, c: nat)
    ensures Times(a, b + c) == Times(a, b) + Times(a, c)
  {
    if c > 0 {
      TimesAdd(a, b, c - 1);
    }
  }

  lemma {:induction false} TimesPlus(a: nat, b: nat, c: nat)
    ensures Times(a + b, c) == Times(a, c) + Times(b, c)
  {
    if c > 0 {
      TimesPlus(a, b, c - 1);
    }
  }

  lemma {:induction false} TimesUnit(a: nat)
    ensures Times(1, a) == a && Times(0, a) == 0
  {
    if a > 0 {
      TimesUnit(a - 1);
    }
  }

  lemma {:induction false} TimesCommute(a: nat, b: nat)
    ensures Times(a, b) == Times(b, a)
  {
    if b == 0 {
      TimesUnit(a);
    } else {
      TimesCommute(a, b - 1);
      TimesPlus(b - 1, 1, a);
      TimesUnit(a);
    }
  }

  lemma {:induction false} TimesSwap(a: nat, b: nat, c: nat)
    ensures Times(a, Times(b, c)) == Times(b, Times(a, c))
  {
    if c > 0 {
      TimesSwap(a, b, c - 1);
      TimesAdd(a, b, Times(b, c - 1));
      TimesAdd(b, a, Times(a, c - 1));
      TimesCommute(a, b);
    }
  }

  lemma TimesOdd(h: nat, b: nat)
    ensures Times(2 * h + 1, b) == 2 * Times(h, b) + b
    ensures Times(4 * h + 1, b) == 4 * Times(h, b) + b
  {
    hide Times;
    TimesPlus(h, h, b);
    TimesPlus(2 * h, 2 * h, b);
    TimesPlus(2 * h, 1, b);
    TimesPlus(4 * h, 1, b);
    TimesUnit(b);
  }

  lemma {:induction false} AdvanceClosed(a: nat, c: nat, k: nat, x: nat)
    requires a >= 1
    ensures Advance(a, c, k, x) == x + Times(Times(a - 1, x) + c, Geometric(a, k))
  {
    hide *;
    var d := Times(a - 1, x) + c;
    if k == 0 {
      Unfold0(a, c, x);
      Unfold0(d, c, x);
    } else {
      var g := Geometric(a, k - 1);
      AdvanceClosed(a, c, k - 1, x);
      Unfold(a, c, k, x);
      Unfold(d, c, 1 + Times(a, g), x);
      TimesAdd(a, x, Times(d, g));
      TimesPlus(a - 1, 1, x);
      TimesUnit(x);
      TimesSwap(a, d, g);
    }
  }

  lemma {:induction false} GeometricAdd(a: nat, j: nat, k: nat)
    ensures Geometric(a, j + k) == Times(Geometric(a, k), Pow(a, j)) + Geometric(a, j)
  {
    hide *;
    var g := Geometric(a, k);
    if j == 0 {
      Unfold0(a, 0, 0);
      Unfold0(g, 0, 0);
      Unfold(g, 0, 1, 0);
    } else {
      GeometricAdd(a, j - 1, k);
      Unfold(a, 0, j, 0);
      Unfold(a, 0, j + k, 0);
      TimesAdd(a, Times(g, Pow(a, j - 1)), Geometric(a, j - 1));
      TimesSwap(a, g, Pow(a, j - 1));
    }
  }

  lemma {:induction false} PowMod4(a: nat, k: nat)
    requires a % 4 == 1
    ensures Pow(a, k) % 4 == 1
  {
    hide *;
    if k == 0 {
      Unfold0(a, 0, 0);
    } else {
      PowMod4(a, k - 1);
      Unfold(a, 0, k, 0);
      TimesOdd(a / 4, Pow(a, k - 1));
    }
  }

  lemma {:induction false} GeometricParity(a: nat, k: nat)
    requires a % 2 == 1
    ensures Geometric(a, k) % 2 == k % 2
  {
    hide *;
    if k == 0 {
      Unfold0(a, 0, 0);
    } else {
      GeometricParity(a, k - 1);
      Unfold(a, 0, k, 0);
      TimesOdd(a / 2, Geometric(a, k - 1));
    }
  }

  /** 2^m divides x. */
  predicate Divisible(x: nat, m: nat)
    decreases m
  {
    m == 0 || (x % 2 == 0 && Divisible(x / 2, m - 1))
  }

  /** Odd factors do not matter for divisibility by a power of two. */
  lemma {:induction false} OddFactor(q: nat, x: nat, m: nat)
    requires q % 2 == 1
    ensures Divisible(Times(q, x), m) <==> Divisible(x, m)
    decreases m
  {
    if m > 0 {
      TimesOdd(q / 2, x);
      hide Times;
      if x % 2 == 0 {
        TimesAdd(q, x / 2, x / 2);
        OddFactor(q, x / 2, m - 1);
      }
    }
  }

  /** The sum of twice as many powers has exactly one more factor of two. */
  lemma GeometricDouble(a: nat, j: nat, m: nat)
    requires a % 4 == 1
    ensures Divisible(Geometric(a, j + j), m + 1) <==> Divisible(Geometric(a, j), m)
  {
    hide Geometric;
    hide Pow;
    hide Times;
    var g, p := Geometric(a, j), Pow(a, j);
    Unfold(g, 0, p + 1, 0);
    PowMod4(a, j);
    GeometricAdd(a, j, j);
    hide Divisible;
    var half := (p + 1) / 2;
    TimesAdd(g, half, half);
    TimesCommute(g, half);
    OddFactor(half, g, m);
    assert Geometric(a, j + j) == 2 * Times(half, g);
    DivisibleDouble(Times(half, g), m);
  }

  lemma DivisibleDouble(x: nat, m: nat)
    ensures Divisible(2 * x, m + 1) <==> Divisible(x, m)
  {
    assert (2 * x) / 2 == x;
  }

  /** The geometric sum and its length are divisible by the same powers of two. */
  lemma {:induction false} GeometricDivisible(a: nat, k: nat, m: nat)
    requires a % 4 == 1
    ensures Divisible(Geometric(a, k), m) <==> Divisible(k, m)
    decreases m
  {
    if m > 0 {
      GeometricParity(a, k);
      hide Geometric;
      if k % 2 == 0 {
        assert k == k / 2 + k / 2;
        GeometricDouble(a, k / 2, m - 1);
        GeometricDivisible(a, k / 2, m - 1);
      }
    }
  }

  /** For every modulus 2^m, k steps of the recurrence return to the start exactly when
      2^m divides k. */
  lemma ReturnsIff(a: nat, c: nat, x: nat, k: nat, m: nat)
    requires a % 4 == 1 && c % 2 == 1
    ensures Advance(a, c, k, x) >= x
    ensures Divisible(Advance(a, c, k, x) - x, m) <==> Divisible(k, m)
  {
    hide *;
    AdvanceClosed(a, c, k, x);
    TimesPlus((a - 1) / 2, (a - 1) / 2, x);
    OddFactor(Times(a - 1, x) + c, Geometric(a, k), m);
    GeometricDivisible(a, k, m);
  }

  lemma {:induction false} DivisibleIsMod(x: nat, m: nat)
    ensures Divisible(x, m) <==> x % Pow2(m) == 0
    decreases m
  {
    if m > 0 {
      DivisibleIsMod(x / 2, m - 1);
      HalveMod(x, Pow2(m - 1));
    }
  }

  lemma HalveMod(x: int, n: int)
    requires n > 0
    ensures x % (2 * n) == 0 <==> x % 2 == 0 && (x / 2) % n == 0
  {
    DivMod(x / 2, n);
    var q, r := (x / 2) / n, (x / 2) % n;
    Associate(2, n, q);
    DivUnique(x, 2 * n, q, 2 * r + x % 2);
  }

  // ---------- the generator ----------

  lemma ModAdd(x: int, y: int, n: int)
    requires n > 0 && (x - y) % n == 0
    ensures x % n == y % n
  {
    DivMod(x - y, n);
    DivMod(y, n);
    Distribute(n, (x - y) / n, y / n);
    DivUnique(x, n, (x - y) / n + y / n, y % n);
  }

  lemma ModSub(x: int, y: int, n: int)
    requires n > 0 && x % n == y % n
    ensures (x - y) % n == 0
  {
    DivMod(x, n);
    DivMod(y, n);
    Distribute(n, x / n, -(y / n));
    assert n * -(y / n) == -(n * (y / n));
    DivUnique(x - y, n, x / n - y / n, 0);
  }

  lemma MultipleOf(x: int, y: int, n: int)
    requires n > 0 && x % n == 0
    ensures (x * y) % n == 0
  {
    DivMod(x, n);
    assert x * y == n * (x / n * y);
    DivUnique(x * y, n, x / n * y, 0);
  }

  /** Wrapping at every draw equals wrapping once at the end. */
  lemma {:induction false} RunIsAdvance(k: nat, s: Word)
    ensures Run(k, s) == Advance(MULTIPLIER, INCREMENT, k, s) % MODULUS
  {
    if k > 0 {
      var before := Advance(MULTIPLIER, INCREMENT, k - 1, s);
      RunIsAdvance(k - 1, s);
      TimesIs(MULTIPLIER, before);
      WrapOnce(MULTIPLIER, INCREMENT, before, MODULUS);
    }
  }

  lemma WrapOnce(a: nat, c: nat, x: nat, n: nat)
    requires n > 0
    ensures ((x % n) * a + c) % n == (a * x + c) % n
  {
    DivMod(x, n);
    var u := x % n - x;
    assert u == n * -(x / n);
    DivUnique(u, n, -(x / n), 0);
    MultipleOf(u, a, n);
    Distribute(a, u, x);
    ModAdd((x % n) * a + c, a * x + c, n);
  }

  lemma {:induction false} Pow2Add(i: nat, j: nat)
    ensures Pow2(i + j) == Pow2(i) * Pow2(j)
  {
    if i > 0 {
      Pow2Add(i - 1, j);
    }
  }

  lemma ModulusIsPow2()
    ensures Pow2(64) == MODULUS
  {
    assert Pow2(8) == 256;
    hide Pow2;
    Pow2Add(8, 8);
    Pow2Add(16, 16);
    Pow2Add(32, 32);
  }

  lemma ModOfMod(x: int, m: nat, n: nat)
    requires m > 0 && n > 0
    ensures (x % (m * n)) % n == x % n
  {
    DivMod(x, m * n);
    var q := x / (m * n);
    assert x - x % (m * n) == m * n * q == n * (m * q);
    DivUnique(x - x % (m * n), n, m * q, 0);
    ModAdd(x, x % (m * n), n);
  }

  /** The low m bits of the state recur exactly every 2^m draws, from every state; with
      m = 64 the state itself has full period. */
  lemma PeriodIff(s: Word, k: nat, m: nat)
    requires m <= 64
    ensures Run(k, s) % Pow2(m) == s % Pow2(m) <==> k % Pow2(m) == 0
  {
    hide Run;
    hide Advance;
    hide Pow2;
    hide Divisible;
    var x := Advance(MULTIPLIER, INCREMENT, k, s);
    RunIsAdvance(k, s);
    LowBits(x, m);
    ReturnsIff(MULTIPLIER, INCREMENT, s, k, m);
    DivisibleIsMod(x - s, m);
    DivisibleIsMod(k, m);
    SameResidue(x, s, Pow2(m));
  }

  lemma LowBits(x: int, m: nat)
    requires m <= 64
    ensures (x % MODULUS) % Pow2(m) == x % Pow2(m)
  {
    ModulusIsPow2();
    Pow2Add(64 - m, m);
    ModOfMod(x, Pow2(64 - m), Pow2(m));
  }

  lemma SameResidue(x: int, y: int, n: int)
    requires n > 0
    ensures (x - y) % n == 0 <==> x % n == y % n
  {
    if (x - y) % n == 0 {
      ModAdd(x, y, n);
    } else if x % n == y % n {
      ModSub(x, y, n);
    }
  }

  lemma {:induction false} RunAdd(i: nat, j: nat, s: Word)
    ensures Run(i + j, s) == Run(j, Run(i, s))
  {
    if j > 0 {
      RunAdd(i, j - 1, s);
    }
  }

  lemma FullPeriod(s: Word, k: nat)
    ensures Run(k, s) == s <==> k % MODULUS == 0
  {
    ModulusIsPow2();
    PeriodIff(s, k, 64);
  }

  lemma NoRepeat(s: Word, i: nat, j: nat)
    requires i < j < MODULUS
    ensures Run(i, s) != Run(j, s)
  {
    hide Run;
    RunAdd(i, j - i, s);
    FullPeriod(Run(i, s), j - i);
  }

  ghost function Below(n: nat): (r: set<int>)
    ensures |r| == n && forall x :: x in r <==> 0 <= x < n
  {
    if n == 0 then {} else Below(n - 1) + {n - 1}
  }

  lemma {:induction false} DistinctSize(xs: seq<int>)
    requires forall i, j :: 0 <= i < j < |xs| ==> xs[i] != xs[j]
    ensures |set x | x in xs| == |xs|
  {
    if xs != [] {
      var rest, last := xs[..|xs| - 1], xs[|xs| - 1];
      DistinctSize(rest);
      assert xs == rest + [last];
      assert (set x | x in xs) == (set x | x in rest) + {last};
      assert last !in rest;
    }
  }

  lemma {:induction false} SubsetOfSameSize<T>(a: set<T>, b: set<T>)
    requires a <= b && |a| == |b|
    ensures a == b
  {
    if x :| x in b && x !in a {
      assert a <= b - {x};
      SubsetSize(a, b - {x});
      assert false;
    }
  }

  lemma {:induction false} SubsetSize<T>(a: set<T>, b: set<T>)
    requires a <= b
    ensures |a| <= |b|
  {
    if a != {} {
      var x :| x in a;
      SubsetSize(a - {x}, b - {x});
    }
  }

  ghost function FirstStates(s: Word, n: nat): (r: seq<int>)
    ensures |r| == n && forall k :: 0 <= k < n ==> r[k] == Run(k, s)
  {
    seq(n, k requires 0 <= k < n => Run(k, s))
  }

  /** From any state every 64-bit word is reached within one period. */
  lemma EveryWordReached(s: Word, target: Word)
    ensures exists k: nat :: k < MODULUS && Run(k, s) == target
  {
    hide Run;
    hide Next;
    var states := FirstStates(s, MODULUS);
    forall i, j | 0 <= i < j < MODULUS ensures states[i] != states[j] {
      NoRepeat(s, i, j);
    }
    OntoRange(states);
    assert target in states;
    var k :| 0 <= k < |states| && states[k] == target;
  }

  /** Distinct values below their own number leave none out. */
  lemma OntoRange(xs: seq<int>)
    requires forall i :: 0 <= i < |xs| ==> 0 <= xs[i] < |xs|
    requires forall i, j :: 0 <= i < j < |xs| ==> xs[i] != xs[j]
    ensures forall x :: 0 <= x < |xs| ==> x in xs
  {
    DistinctSize(xs);
    var reached := set x | x in xs;
    assert reached <= Below(|xs|);
    SubsetOfSameSize(reached, Below(|xs|));
    forall x | 0 <= x < |xs| ensures x in xs {
      assert x in reached;
    }
  }

  /** The step is a bijection of the 64-bit words; its inverse is one period less one step. */
  lemma StepBijective(s: Word, t: Word)
    ensures Next(s) == Next(t) ==> s == t
    ensures Next(Run(MODULUS - 1, t)) == t
  {
    FullPeriod(s, MODULUS);
    FullPeriod(t, MODULUS);
    RunAdd(1, MODULUS - 1, s);
    RunAdd(1, MODULUS - 1, t);
    assert Run(1, s) == Next(Run(0, s)) && Run(1, t) == Next(Run(0, t));
  }
}
