/** The linear congruential generator of lib/rand.tas.cpp: the seed goes through every
    word before it repeats, and its low bits repeat exactly as soon as the source warns. */
module Rand {
  import opened Words

  const MULTIPLIER: nat := 69069

  class Generator {
    var seed: Word

    constructor (s: Word)
      ensures seed == s
    {
      seed := s;
    }

    method Srand(c: Word)
      modifies this
      ensures seed == c
    {
      seed := c;
    }

    /** The seed advances, and is the result. */
    method Rand() returns (b: Word)
      modifies this
      ensures b == seed == Nth(old(seed), 1)
    {
      b := seed;
      b := Plus(Times(b, MULTIPLIER), 1);
      WrapPlus(seed * MULTIPLIER, 1);
      assert Nth(seed, 0) == seed;
      seed := b;
    }

    /** As many calls as wanted: the last result, or the seed when there is none. */
    method Draw(n: nat) returns (b: Word)
      modifies this
      ensures b == seed == Nth(old(seed), n)
    {
      hide Wrap;
      b := seed;
      for i := 0 to n
        invariant b == seed == Nth(old(seed), i)
      {
        NthAdd(old(seed), i, 1);
        b := Rand();
      }
    }
  }

  /** The n-th seed after s. */
  function Nth(s: Word, n: nat): Word {
    if n == 0 then s else Wrap(MULTIPLIER * Nth(s, n - 1) + 1)
  }

  lemma {:induction false} NthAdd(s: Word, a: nat, b: nat)
    ensures Nth(Nth(s, a), b) == Nth(s, a + b)
  {
    hide Wrap;
    if b > 0 { NthAdd(s, a, b - 1); }
  }

  /** 1 + 69069 + ... + 69069^(n-1). */
  function Geometric(n: nat): nat {
    if n == 0 then 0 else MULTIPLIER * Geometric(n - 1) + 1
  }

  lemma WrapLinear(x: int)
    ensures Wrap(MULTIPLIER * Wrap(x) + 1) == Wrap(MULTIPLIER * x + 1)
  {
    WrapMultiple(MULTIPLIER * x + 1, 0 - MULTIPLIER * (x / 0x1_0000_0000));
  }

  lemma Step(g: int, q: int)
    ensures (MULTIPLIER * g + 1) * q == MULTIPLIER * (g * q) + q
  {
  }

  lemma ClosedStep(s: int, g: int, q: int)
    requires q == 69068 * s + 1
    ensures MULTIPLIER * (s + g * q) + 1 == s + (MULTIPLIER * g + 1) * q
  {
    Step(g, q);
  }

  lemma {:induction false} ClosedForm(s: Word, n: nat)
    ensures Nth(s, n) == Wrap(s + Geometric(n) * (69068 * s + 1))
  {
    if n > 0 {
      ClosedForm(s, n - 1);
      hide Wrap;
      var q, g := 69068 * s + 1, Geometric(n - 1);
      WrapLinear(s + g * q);
      ClosedStep(s, g, q);
    }
  }

  lemma {:induction false} GeometricSum(m: nat, n: nat)
    ensures Geometric(m + n) == Geometric(m) * (69068 * Geometric(n) + 1) + Geometric(n)
  {
    if m > 0 {
      GeometricSum(m - 1, n);
      var g, q := Geometric(m - 1), 69068 * Geometric(n) + 1;
      Step(g, q);
    }
  }

  // ----- Divisibility by powers of two -----

  predicate Divides(k: nat, x: int) {
    k == 0 || (x % 2 == 0 && Divides(k - 1, x / 2))
  }

  lemma {:induction false} DividesIsModulo(k: nat, x: int)
    ensures Divides(k, x) <==> x % Pow2(k) == 0
  {
    if k > 0 {
      DividesIsModulo(k - 1, x / 2);
      var p := Pow2(k - 1);
      if x % 2 == 0 && x / 2 % p == 0 {
        ModUnique(x, 2 * p, x / 2 / p, 0);
      } else if x % (2 * p) == 0 {
        var q := x / (2 * p);
        assert x == 2 * (p * q);
        ModUnique(x / 2, p, q, 0);
      }
    }
  }

  /** An odd factor makes no difference. */
  lemma {:induction false} OddFactor(k: nat, x: int, odd: int)
    requires odd % 2 == 1
    ensures Divides(k, x * odd) <==> Divides(k, x)
  {
    if k > 0 {
      OddProduct(x, odd / 2);
      if x % 2 == 0 {
        OddFactor(k - 1, x / 2, odd);
        EvenProduct(x / 2, odd);
      }
    }
  }

  lemma OddProduct(x: int, h: int)
    ensures x * (2 * h + 1) % 2 == x % 2
  {
    var y := x * h;
    assert x * (2 * h + 1) == 2 * y + x;
  }

  lemma EvenProduct(y: int, odd: int)
    ensures 2 * y * odd / 2 == y * odd && 2 * y * odd % 2 == 0
  {
    var z := y * odd;
    assert 2 * y * odd == 2 * z;
  }

  lemma GeometricOdd(n: nat)
    ensures Geometric(n) % 2 == n % 2
  {
  }

  lemma GeometricDouble(m: nat)
    ensures Geometric(2 * m) == 2 * (Geometric(m) * (34534 * Geometric(m) + 1))
  {
    GeometricSum(m, m);
    hide Geometric;
    Doubled(Geometric(m));
  }

  lemma Doubled(g: int)
    ensures g * (69068 * g + 1) + g == 2 * (g * (34534 * g + 1))
  {
  }

  /** A power of two divides the geometric sum exactly when it divides its length. */
  lemma {:induction false} GeometricDivides(k: nat, n: nat)
    ensures Divides(k, Geometric(n)) <==> Divides(k, n)
    decreases k
  {
    GeometricOdd(n);
    if k > 0 && n % 2 == 0 {
      hide Geometric;
      var m := n / 2;
      GeometricDouble(m);
      var odd := 34534 * Geometric(m) + 1;
      var half := Geometric(m) * odd;
      assert Geometric(n) == 2 * half;
      OddFactor(k - 1, Geometric(m), odd);
      GeometricDivides(k - 1, m);
    }
  }

  // ----- Period -----

  lemma LowBitsReturn(s: Word, n: nat, k: nat)
    requires k <= 32
    ensures Nth(s, n) % Pow2(k) == s % Pow2(k) <==> n % Pow2(k) == 0
  {
    hide Geometric, Divides, Nth, Wrap, Pow2;
    var g, q, p := Geometric(n), 69068 * s + 1, Pow2(k);
    var gq := g * q;
    ClosedForm(s, n);
    LowOfWrap(s + gq, k);
    ModDifference(s + gq, s, p);
    assert q % 2 == 1;
    OddFactor(k, g, q);
    GeometricDivides(k, n);
    DividesIsModulo(k, g * q);
    DividesIsModulo(k, n);
  }

  /** The low k bits of two draws agree exactly when the draws are a multiple of 2^k apart:
      their period is 2^k, no more and no less. With k = 32 it is that of the generator. */
  lemma LowBitsPeriod(s: Word, a: nat, b: nat, k: nat)
    requires k <= 32
    ensures Nth(s, a) % Pow2(k) == Nth(s, b) % Pow2(k) <==> (a - b) % Pow2(k) == 0
  {
    if a <= b {
      NthAdd(s, a, b - a);
      LowBitsReturn(Nth(s, a), b - a, k);
      ModDifference(a - b, 0, Pow2(k));
      ModDifference(a, b, Pow2(k));
      ModDifference(b, a, Pow2(k));
    } else {
      NthAdd(s, b, a - b);
      LowBitsReturn(Nth(s, b), a - b, k);
    }
  }

  function Visited(s: Word, n: nat): set<Word> {
    set i | 0 <= i < n :: Nth(s, i)
  }

  function WordsBelow(n: nat): set<Word>
    requires n <= 0x1_0000_0000
  {
    set w: Word | Below(w, n)
  }

  predicate Below(w: Word, n: nat) {
    w < n
  }

  lemma {:induction false} WordsCounted(n: nat)
    requires n <= 0x1_0000_0000
    ensures |WordsBelow(n)| == n
  {
    if n > 0 {
      WordsCounted(n - 1);
      assert WordsBelow(n) == WordsBelow(n - 1) + {n - 1};
    }
  }

  lemma {:induction false} VisitedCounted(s: Word, n: nat)
    requires n <= 0x1_0000_0000
    ensures |Visited(s, n)| == n
  {
    hide Nth;
    if n > 0 {
      VisitedCounted(s, n - 1);
      forall i | 0 <= i < n - 1 ensures Nth(s, i) != Nth(s, n - 1) {
        NoRepeat(s, i, n - 1);
      }
      assert Visited(s, n) == Visited(s, n - 1) + {Nth(s, n - 1)};
    }
  }

  lemma NoRepeat(s: Word, a: nat, b: nat)
    requires a < b < 0x1_0000_0000
    ensures Nth(s, a) != Nth(s, b)
  {
    LowBitsPeriod(s, b, a, 32);
    Pow2Of32();
  }

  lemma SubsetOfSameSize<T>(a: set<T>, b: set<T>)
    requires a <= b && |a| == |b|
    ensures a == b
  {
    assert |b - a| == |b| - |a|;
  }

  /** From every seed, every word comes up among the first 2^32 draws, and only once. */
  lemma FullPeriod(s: Word, target: Word) returns (n: nat)
    ensures n < 0x1_0000_0000 && Nth(s, n) == target
    ensures forall m: nat :: m < 0x1_0000_0000 && Nth(s, m) == target ==> m == n
  {
    hide Nth;
    VisitedCounted(s, 0x1_0000_0000);
    WordsCounted(0x1_0000_0000);
    SubsetOfSameSize(Visited(s, 0x1_0000_0000), WordsBelow(0x1_0000_0000));
    assert target in WordsBelow(0x1_0000_0000);
    n :| 0 <= n < 0x1_0000_0000 && Nth(s, n) == target;
    forall m: nat | m < 0x1_0000_0000 && Nth(s, m) == target ensures m == n {
      if m < n { NoRepeat(s, m, n); } else if n < m { NoRepeat(s, n, m); }
    }
  }
}
