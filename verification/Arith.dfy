/** The arithmetic routines of lib/, register by register: every comparison is signed,
    `>>` is arithmetic, and a jump is taken on a mask of all ones. */
module Arith {
  import opened Words

  const TOP: nat := 0x8000_0000

  lemma {:induction false} ShrSmall(w: Word, n: nat)
    requires w < Pow2(n)
    ensures Shr(w, n) == 0
  {
    if n > 0 { ShrSmall(w / 2, n - 1); }
  }

  lemma Pow2Of31()
    ensures Pow2(31) == TOP
  {
    Pow2Of32();
    assert Pow2(32) == 2 * Pow2(31);
  }

  lemma SarPositive(w: Word)
    requires w < TOP
    ensures Sar(w, 1) == w / 2 && Sar(w, 2) == w / 4 && Sar(w, 31) == 0
  {
    Pow2Of31();
    ShrSmall(w, 31);
    hide Pow2;
    assert Shr(w, 1) == w / 2;
    assert Shr(w, 2) == Shr(w / 2, 1) == w / 2 / 2;
  }

  lemma SarNegative(w: Word)
    requires w >= TOP
    ensures Sar(w, 1) >= TOP && Signed(Sar(w, 1)) == Signed(w) / 2 && Sar(w, 31) == ALL_ONES
  {
    Pow2Of31();
    ShrSmall(Not(w), 31);
    hide Pow2;
    assert Shr(Not(w), 1) == Not(w) / 2;
  }

  /** Comparison masks, combined as the routines combine them. */
  lemma Masks(p: bool, q: bool)
    ensures Or(Mask(p), Mask(q)) == Mask(p || q)
  {
    OrWithZero(0);
    OrWithZero(ALL_ONES);
    XorSelf(0, 32);
    assert Or(ALL_ONES, ALL_ONES) == ALL_ONES by { OrSame(ALL_ONES, 32); Pow2Of32(); }
  }

  lemma {:induction false} OrSame(a: nat, n: nat)
    requires a < Pow2(n)
    ensures BitOp(OrOp, a, a, n) == a
  {
    if n > 0 { OrSame(a / 2, n - 1); }
  }

  // ----- lib/isqrt.tas.cpp -----

  /** The powers of four, counted by half their bits, and after them zero. */
  ghost predicate Power4(g: int, j: nat) {
    if j == 0 then g == 0 else g == Pow2(j - 1) * Pow2(j - 1)
  }

  ghost predicate Below4(c: int, j: nat) {
    c < Pow2(j) * Pow2(j)
  }

  lemma Power4Step(g: int, j: nat)
    requires Power4(g, j) && 0 < j <= 16
    ensures 0 < g <= 0x4000_0000 && Power4(g / 4, j - 1)
    ensures j <= 15 ==> g <= 0x1000_0000
  {
    Pow2Of15();
    var k := Pow2(j - 1);
    Pow2Monotone(j - 1, 15);
    if j <= 15 { Pow2Monotone(j - 1, 14); }
    if j == 1 {
      assert k == 1;
    } else {
      assert k == 2 * Pow2(j - 2);
      SquareOfDouble(Pow2(j - 2));
    }
    hide Pow2;
    MulBoth(1, k, 1, k);
    MulBoth(k, 0x8000, k, 0x8000);
    if j <= 15 { MulBoth(k, 0x4000, k, 0x4000); }
  }

  lemma SquareOfDouble(i: nat)
    ensures 2 * i * (2 * i) == 4 * (i * i) && 2 * i * (2 * i) / 4 == i * i
  {
    var square := i * i;
    assert 2 * i * (2 * i) == 4 * square;
  }

  lemma Pow2Of15()
    ensures Pow2(15) == 0x8000 && Pow2(14) == 0x4000
  {
    assert Pow2(7) == 128;
    assert Pow2(14) == 0x4000;
  }

  lemma MulBoth(a: nat, b: nat, c: nat, d: nat)
    requires a <= b && c <= d
    ensures a * c <= b * d
  {
    assert b * d == a * c + (b - a) * c + b * (d - c);
  }

  lemma ShlOne()
    ensures Shl(1, 30) == 0x4000_0000 && Power4(0x4000_0000, 16)
  {
    ShlValue(1, 30);
    Pow2Of31();
    assert Pow2(31) == 2 * Pow2(30);
    Pow2Of15();
  }

  lemma BelowNext(c: int, g: int, j: nat)
    requires Power4(g, j) && j > 0 && c < g
    ensures Below4(c, j - 1)
  {
  }

  /** compute_4: the highest power of four up to c, or zero. */
  method HighestPower(c: Word) returns (g: Word, ghost j: nat)
    requires c < TOP
    ensures j <= 16 && Power4(g, j) && g <= c
    ensures if j == 16 then c >= 0x4000_0000 else c < 0x4000_0000 && Below4(c, j)
  {
    hide BitOp, Shr, Shl, Sar, Power4, Below4;
    ShlOne();
    g := 1;
    g := Shl(g, 30);
    j := 16;
    while true
      invariant j <= 16 && Power4(g, j) && g <= 0x4000_0000
      invariant j == 16 ==> g == 0x4000_0000
      invariant j < 16 ==> c < 0x4000_0000 && Below4(c, j)
      decreases g
    {
      if j == 0 { Power4Zero(g); } else { Power4Step(g, j); }
      var k := Mask(Signed(g) < Signed(c));
      Masks(Signed(g) < Signed(c), g == c);
      k := Or(k, Mask(g == c));
      if k == ALL_ONES { break; }
      SarPositive(g);
      BelowNext(c, g, j);
      g := Sar(g, 2);
      j := j - 1;
    }
  }

  lemma Power4Zero(g: int)
    requires Power4(g, 0)
    ensures g == 0
  {
  }

  /** The root found so far, and the next bit to try, doubled. */
  ghost predicate RootSoFar(c0: Word, c: int, b: int, g: int, root: nat, j: nat) {
    && j <= 15 && Power4(g, j)
    && b == root * Pow2(j) && c0 == c + root * root && 0 <= c
    && c0 < (root + Pow2(j)) * (root + Pow2(j))
  }

  lemma RootBounds(c0: Word, c: int, b: int, g: int, root: nat, j: nat)
    requires c0 < 0x4000_0000 && RootSoFar(c0, c, b, g, root, j)
    ensures 0 <= c <= c0 && 0 <= b < 0x4000_0000 && 0 <= g <= 0x1000_0000
    ensures j > 0 ==> g > 0
  {
    Pow2Of15();
    Pow2Monotone(j, 15);
    if j > 0 { Power4Step(g, j); }
    hide Pow2;
    SquareBelow(root);
    MulBoth(root, 0x7fff, Pow2(j), 0x8000);
  }

  lemma SquareBelow(root: nat)
    requires root * root < 0x4000_0000
    ensures root < 0x8000
  {
    if root >= 0x8000 { MulBoth(0x8000, root, 0x8000, root); }
  }

  lemma RootStep(c0: Word, c: int, b: int, g: int, root: nat, j: nat)
    requires RootSoFar(c0, c, b, g, root, j) && j > 0
    ensures g == Pow2(j - 1) * Pow2(j - 1)
    ensures c >= b + g ==> RootSoFar(c0, c - (b + g), (2 * g + b) / 2, g / 4, root + Pow2(j - 1), j - 1)
    ensures c < b + g ==> RootSoFar(c0, c, b / 2, g / 4, root, j - 1)
  {
    var k := Pow2(j - 1);
    assert Pow2(j) == 2 * k;
    Power4Step(g, j);
    hide Pow2, Power4;
    SquareStep(root, k);
  }

  lemma SquareStep(root: int, k: int)
    ensures (root + k) * (root + k) == root * root + root * (2 * k) + k * k
    ensures root * (2 * k) == 2 * (root * k) && (root + k) * k == root * k + k * k
  {
  }

  lemma RootEnd(c0: Word, c: int, b: int, root: nat, j: nat)
    requires RootSoFar(c0, c, b, 0, root, j)
    ensures b * b <= c0 < (b + 1) * (b + 1)
  {
    if j > 0 { Power4Step(0, j); }
  }

  /** Beyond 2^30 the accumulator takes the sign bit in the first round and keeps it. */
  ghost predicate Overrun(b: Word, g: Word) {
    || (b == 0 && g == 0x4000_0000)
    || (b >= TOP && g <= 0x1000_0000 && Signed(b) <= -4 * g)
  }

  lemma OverrunStep(c: Word, b: Word, g: Word)
    requires Overrun(b, g) && g > 0
    requires b == 0 ==> 0x4000_0000 <= c < TOP
    ensures var b1 := if Signed(c) < Signed(Plus(b, g)) then b else Plus(Times(g, 2), b);
            b1 >= TOP && Overrun(Sar(b1, 1), g / 4) && Sar(b1, 1) >= TOP
  {
    var b1 := if Signed(c) < Signed(Plus(b, g)) then b else Plus(Times(g, 2), b);
    hide Wrap, Sar;
    WrapSmall(g * 2);
    WrapSmall(b + g);
    WrapSmall(2 * g + b);
    SarNegative(b1);
  }

  ghost predicate IsqrtInv(c0: Word, c: Word, b: Word, g: Word, root: nat, j: nat) {
    if c0 < 0x4000_0000 then RootSoFar(c0, c, b, g, root, j)
    else Overrun(b, g) && (b == 0 ==> c == c0)
  }

  lemma IsqrtRound(c0: Word, c: Word, b: Word, g: Word, root: nat, j: nat) returns (root1: nat, j1: nat)
    requires c0 < TOP && IsqrtInv(c0, c, b, g, root, j) && g > 0
    ensures var e := Plus(b, g);
            var less := Signed(c) < Signed(e);
            var b1 := if less then b else Plus(Times(g, 2), b);
            IsqrtInv(c0, if less then c else Minus(c, e), Sar(b1, 1), Sar(g, 2), root1, j1)
    ensures Sar(g, 2) == g / 4
  {
    hide RootSoFar, Sar, Pow2;
    if c0 < 0x4000_0000 {
      hide Plus, Times, Minus, Signed;
      root1, j1 := RootRound(c0, c, b, g, root, j);
    } else {
      root1, j1 := 0, 0;
      SarPositive(g);
      OverrunStep(c, b, g);
    }
  }

  /** Nothing reaches the sign bit. */
  lemma SmallWords(c: Word, b: Word, g: Word)
    requires b < 0x4000_0000 && g <= 0x1000_0000 && c < 0x4000_0000
    ensures Plus(b, g) == b + g < TOP && Plus(Times(g, 2), b) == 2 * g + b < TOP
    ensures Signed(c) == c && Signed(b + g) == b + g
    ensures c >= b + g ==> Minus(c, b + g) == c - (b + g)
  {
    hide Wrap;
    WrapSmall(b + g);
    WrapSmall(g * 2);
    WrapSmall(2 * g + b);
    if c >= b + g { WrapSmall(c - (b + g)); }
  }

  lemma RootRound(c0: Word, c: Word, b: Word, g: Word, root: nat, j: nat) returns (root1: nat, j1: nat)
    requires c0 < 0x4000_0000 && RootSoFar(c0, c, b, g, root, j) && g > 0
    ensures var e := Plus(b, g);
            var less := Signed(c) < Signed(e);
            var b1 := if less then b else Plus(Times(g, 2), b);
            RootSoFar(c0, if less then c else Minus(c, e), Sar(b1, 1), Sar(g, 2), root1, j1)
    ensures Sar(g, 2) == g / 4
  {
    hide RootSoFar, Sar, Pow2, Plus, Times, Minus, Signed;
    RootBounds(c0, c, b, g, root, j);
    if j == 0 { RootZero(c0, c, b, g, root); }
    SarPositive(b);
    SarPositive(g);
    SarPositive(2 * g + b);
    SmallWords(c, b, g);
    RootStep(c0, c, b, g, root, j);
    root1, j1 := if c < b + g then root else root + Pow2(j - 1), j - 1;
  }

  /** isqrt is the floor of the square root below 2^30, and is negative above. */
  method Isqrt(c0: Word) returns (b: Word)
    requires c0 < TOP
    ensures c0 < 0x4000_0000 ==> b * b <= c0 < (b + 1) * (b + 1)
    ensures c0 >= 0x4000_0000 ==> Signed(b) < 0
  {
    hide BitOp, Shr, Shl, Sar, Power4, Below4, RootSoFar, Pow2, IsqrtInv;
    var c := c0;
    b := 0;
    var g, j := HighestPower(c);
    ghost var root: nat := 0;
    IsqrtStart(c0, g, j);
    while true
      invariant IsqrtInv(c0, c, b, g, root, j)
      decreases g
    {
      var k := Mask(g == 0);
      if k == ALL_ONES { break; }
      root, j := IsqrtRound(c0, c, b, g, root, j);
      var e := Plus(b, g);
      k := Mask(Signed(c) < Signed(e));
      if k != ALL_ONES {
        c := Minus(c, e);
        b := Plus(Times(g, 2), b);
      }
      b := Sar(b, 1);
      g := Sar(g, 2);
    }
    IsqrtEnd(c0, c, b, root, j);
  }

  lemma IsqrtStart(c0: Word, g: Word, j: nat)
    requires c0 < TOP && Power4(g, j) && j <= 16
    requires if j == 16 then c0 >= 0x4000_0000 else c0 < 0x4000_0000 && Below4(c0, j)
    ensures IsqrtInv(c0, c0, 0, g, 0, j)
  {
    if j == 16 { ShlOne(); }
  }

  lemma IsqrtEnd(c0: Word, c: Word, b: Word, root: nat, j: nat)
    requires IsqrtInv(c0, c, b, 0, root, j)
    ensures if c0 < 0x4000_0000 then b * b <= c0 < (b + 1) * (b + 1) else Signed(b) < 0
  {
    if c0 < 0x4000_0000 { RootEnd(c0, c, b, root, j); }
  }

  lemma RootZero(c0: Word, c: int, b: int, g: int, root: nat)
    requires RootSoFar(c0, c, b, g, root, 0)
    ensures g == 0
  {
  }

  /** The subtrahend of compute_4 after n rounds. */
  function Quartered(n: nat): Word {
    if n == 0 then Shl(1, 30) else Sar(Quartered(n - 1), 2)
  }

  /** compute_4 ends if and only if the argument is not negative: the subtrahend runs down to
      zero and stays there, and is never below or at a negative argument. */
  lemma NegativeNeverEnds(c: Word)
    ensures (exists n: nat :: Or(Mask(Signed(Quartered(n)) < Signed(c)), Mask(Quartered(n) == c)) == ALL_ONES)
       <==> c < TOP
  {
    hide Or, Quartered;
    if c < TOP {
      var n := QuartersAway();
      Masks(Signed(Quartered(n)) < Signed(c), Quartered(n) == c);
    } else {
      forall n: nat
        ensures Or(Mask(Signed(Quartered(n)) < Signed(c)), Mask(Quartered(n) == c)) == 0
      {
        QuarteredBelow(n);
        Masks(false, false);
      }
    }
  }

  lemma {:induction false} QuarteredBelow(n: nat)
    ensures Quartered(n) < TOP && (n > 0 ==> Quartered(n) == Quartered(n - 1) / 4)
  {
    hide Sar, Shl;
    if n > 0 {
      QuarteredBelow(n - 1);
      SarPositive(Quartered(n - 1));
    } else {
      ShlOne();
    }
  }

  lemma QuartersAway() returns (n: nat)
    ensures Quartered(n) == 0
  {
    n := 0;
    while Quartered(n) != 0
      decreases Quartered(n)
    {
      QuarteredBelow(n + 1);
      n := n + 1;
    }
  }

  // ----- lib/udiv.tas.cpp and lib/umod.tas.cpp -----

  /** Doubling the divisor passes the dividend before it reaches the sign bit. */
  ghost predicate Fits(c: Word, d: Word) {
    exists m: nat :: Passes(c, d, m)
  }

  ghost predicate Passes(c: Word, d: Word, m: nat) {
    c < d * Pow2(m) < TOP
  }

  /** It always does below 2^30. */
  lemma SmallFits(c: Word, d: Word)
    requires c < 0x4000_0000 && 0 < d < TOP
    ensures Fits(c, d)
  {
    var m: nat := 0;
    assert d * Pow2(0) == d;
    while d * Pow2(m) <= c
      invariant d * Pow2(m) < TOP
      decreases c - d * Pow2(m)
    {
      assert d * Pow2(m + 1) == 2 * (d * Pow2(m));
      m := m + 1;
    }
    assert Passes(c, d, m);
  }

  /** The divisor shifted left n places, as a signed word, has passed the dividend. */
  ghost predicate Passed(c: Word, d: Word, n: nat) {
    Signed(c) < Signed(Shl(d, n))
  }

  /** build_subtrahend is left after n shifts. */
  ghost predicate Stops(c: Word, d: Word, n: nat) {
    Passed(c, d, n) && forall i: nat | i < n :: !Passed(c, d, i)
  }

  /** The rounds of compute_quotient: the quotient bits after those in q, and what is left of c. */
  ghost function Halve(g: nat, d: nat, c: nat, q: nat): (nat, nat)
    requires 0 < d
    decreases g
  {
    if g <= d then (q, c)
    else if c < g / 2 then Halve(g / 2, d, c, 2 * q)
    else Halve(g / 2, d, c - g / 2, 2 * q + 1)
  }

  ghost function Rounds(g: nat, d: nat): nat
    requires 0 < d
    decreases g
  {
    if g <= d then 0 else 1 + Rounds(g / 2, d)
  }

  /** Quotient and remainder as the routine leaves them when n shifts have passed. */
  ghost function Outcome(c: Word, d: Word, n: nat): (nat, nat)
    requires 0 < d
  {
    Halve(Shl(d, n), d, c, 0)
  }

  lemma Pow2AtMost(m: nat)
    requires Pow2(m) < TOP
    ensures Pow2(m) <= 0x4000_0000
  {
    Pow2Of31();
    assert Pow2(31) == 2 * Pow2(30);
    if m > 30 { Pow2Monotone(31, m); } else { Pow2Monotone(m, 30); }
  }

  /** The divisor that the rounds come down to. */
  ghost function Effective(d: Word, n: nat): nat
    requires 0 < d
  {
    Shl(d, n) / Pow2(Rounds(Shl(d, n), d))
  }

  /** From a subtrahend e * 2^k that k halvings bring down to e, the rounds divide by e. */
  lemma {:induction false} HalveDivides(g: nat, d: nat, c: nat, q: nat, e: nat)
    requires 0 < d && g == e * Pow2(Rounds(g, d)) && c < g
    ensures var r := Halve(g, d, c, q);
            e <= d && r.1 < e && r.0 * e + r.1 == q * g + c
    decreases g
  {
    if g > d {
      var p := Pow2(Rounds(g / 2, d));
      assert Pow2(Rounds(g, d)) == 2 * p;
      var bit := if c < g / 2 then 0 else 1;
      TwiceProduct(e, p);
      TwiceProduct(q, g / 2);
      HalveDivides(g / 2, d, c - bit * (g / 2), 2 * q + bit, e);
      assert (2 * q + bit) * (g / 2) == 2 * q * (g / 2) + bit * (g / 2);
    } else {
      assert e * Pow2(0) == e;
    }
  }

  lemma TwiceProduct(a: int, b: int)
    ensures a * (2 * b) == 2 * (a * b) == 2 * a * b
  {
  }

  lemma {:induction false} RoundsReach(g: nat, d: nat)
    requires 0 < d < g
    ensures Rounds(g, d) > 0 && d * Pow2(Rounds(g, d)) < 2 * g
    decreases g
  {
    var p := Pow2(Rounds(g / 2, d));
    assert Pow2(Rounds(g, d)) == 2 * p;
    TwiceProduct(d, p);
    if g / 2 > d { RoundsReach(g / 2, d); } else { assert d * 1 == d; }
  }

  lemma {:induction false} RoundsMonotone(g: nat, h: nat, d: nat)
    requires 0 < d && g <= h
    ensures Rounds(g, d) <= Rounds(h, d)
    decreases g
  {
    if g > d { RoundsMonotone(g / 2, h / 2, d); }
  }

  /** A subtrahend shifted n places ends in n zeros, wrapped or not. */
  lemma TrailingZeros(d: Word, n: nat) returns (x: nat)
    requires n < 32
    ensures Shl(d, n) == x * Pow2(n) <= d * Pow2(n)
  {
    ShlValue(d, n);
    Pow2Split(n, 32);
    Pow2Of32();
    var p, r := Pow2(n), Pow2(32 - n);
    hide Pow2, Shl;
    var q := d * p / 0x1_0000_0000;
    ModAsDifference(d * p, 0x1_0000_0000);
    x := WholeMultiple(d, q, p, r);
  }

  lemma ModAsDifference(a: nat, b: nat)
    requires b > 0
    ensures a % b == a - a / b * b && 0 <= a / b
  {
  }

  lemma WholeMultiple(d: nat, q: nat, p: nat, r: nat) returns (x: nat)
    requires p > 0 && q * (r * p) <= d * p
    ensures d * p - q * (r * p) == x * p
  {
    assert q * (r * p) == q * r * p;
    assert (d - q * r) * p == d * p - q * r * p;
    if q * r > d { MulBoth(d + 1, q * r, p, p); }
    x := d - q * r;
  }

  /** So no halving on the way down cuts a bit off. */
  lemma NoTruncation(c: Word, d: Word, n: nat)
    requires 0 < d <= c < TOP && Stops(c, d, n)
    ensures Shl(d, n) == Effective(d, n) * Pow2(Rounds(Shl(d, n), d))
  {
    hide Shl, Stops, Pow2, Rounds;
    var g := Shl(d, n);
    StopsAt(c, d, n);
    if n >= 32 { ShiftedOut(d, n); }
    var x := TrailingZeros(d, n);
    var k := Rounds(g, d);
    RoundsMonotone(g, d * Pow2(n), d);
    RoundsOfProduct(d, n);
    Pow2Split(k, n);
    DividesOut(g, x, Pow2(n - k), Pow2(k));
  }

  lemma DividesOut(g: nat, x: nat, r: nat, p: nat)
    requires p > 0 && g == x * (r * p)
    ensures g == g / p * p
  {
    assert x * (r * p) == x * r * p;
    ModUnique(g, p, x * r, 0);
  }

  /** The subtrahend, when it has passed. */
  lemma StopsAt(c: Word, d: Word, n: nat)
    requires 0 < d <= c < TOP && Stops(c, d, n)
    ensures c < Shl(d, n) < TOP
  {
    hide Shl;
  }

  /** A subtrahend that did not wrap is the divisor times a power of two. */
  lemma UnwrappedFits(c: Word, d: Word, g: Word, k: nat)
    requires c < g < TOP && g == d * Pow2(k)
    ensures Fits(c, d)
  {
    assert Passes(c, d, k);
  }

  /** When the doubled divisor passes the dividend unwrapped, that is where the loop stops. */
  lemma FitsStops(c: Word, d: Word, n: nat)
    requires 0 < d <= c < TOP && Stops(c, d, n) && Fits(c, d)
    ensures Shl(d, n) == d * Pow2(n)
  {
    var m: nat :| Passes(c, d, m);
    ShlValue(d, m);
    WrapSmall(d * Pow2(m));
    assert Passed(c, d, m);
    assert n <= m;
    ShlValue(d, n);
    Pow2Monotone(n, m);
    MulBoth(d, d, Pow2(n), Pow2(m));
    WrapSmall(d * Pow2(n));
  }

  lemma FitsPasses(c: Word, d: Word)
    requires 0 < d <= c < TOP && Fits(c, d)
    ensures exists n: nat :: Passed(c, d, n)
  {
    var m: nat :| Passes(c, d, m);
    ShlValue(d, m);
    WrapSmall(d * Pow2(m));
    assert Passed(c, d, m);
  }

  lemma {:induction false} RoundsOfProduct(d: nat, n: nat)
    requires 0 < d
    ensures Rounds(d * Pow2(n), d) == n
  {
    if n == 0 {
      assert d * Pow2(0) == d;
    } else {
      RoundsOfProduct(d, n - 1);
      var x := d * Pow2(n - 1);
      assert d * Pow2(n) == 2 * x;
      MulBoth(d, d, 1, Pow2(n - 1));
    }
  }

  lemma {:induction false} RoundsSmall(g: nat, d: nat)
    requires 0 < d && 0 < g
    ensures Pow2(Rounds(g, d)) <= g
    decreases g
  {
    if g > d { RoundsSmall(g / 2, d); }
  }

  /** The rounds divide without a mistake, but by the divisor they come down to. */
  lemma OutcomeDivides(c: Word, d: Word, n: nat)
    requires 0 < d <= c < TOP && Stops(c, d, n)
    ensures 0 < Effective(d, n) <= d
    ensures Outcome(c, d, n) == (c / Effective(d, n), c % Effective(d, n))
    ensures Outcome(c, d, n).0 < 0x4000_0000 && Outcome(c, d, n).0 * d < 0x1_0000_0000
  {
    hide Shl, Stops, Rounds, Pow2, Halve, Effective;
    var g := Shl(d, n);
    StopsAt(c, d, n);
    NoTruncation(c, d, n);
    var e, r, p := Effective(d, n), Outcome(c, d, n), Pow2(Rounds(g, d));
    HalveDivides(g, d, c, 0, e);
    RoundsReach(g, d);
    RoundsSmall(g, d);
    Pow2AtMost(Rounds(g, d));
    ModUnique(c, e, r.0, r.1);
    if r.0 >= p { MulBoth(p, r.0, e, e); }
    MulBoth(r.0, p, d, d);
  }

  /** That is the divisor itself exactly when doubling it passes the dividend before the sign bit. */
  lemma EffectiveIs(c: Word, d: Word, n: nat)
    requires 0 < d <= c < TOP && Stops(c, d, n)
    ensures Effective(d, n) == d <==> Fits(c, d)
  {
    var g := Shl(d, n);
    hide Shl, Stops;
    StopsAt(c, d, n);
    if Fits(c, d) {
      FitsStops(c, d, n);
      RoundsOfProduct(d, n);
      hide Rounds, Pow2;
      ModUnique(g, Pow2(n), d, 0);
    }
    if Effective(d, n) == d {
      NoTruncation(c, d, n);
      UnwrappedFits(c, d, g, Rounds(g, d));
    }
  }

  /** Exactly when the quotient is right: the dividend is below the next multiple of the divisor
      that the rounds come down to. */
  lemma QuotientExact(c: Word, d: Word, n: nat)
    requires 0 < d <= c < TOP && Stops(c, d, n)
    ensures Outcome(c, d, n).0 == c / d <==> c < (c / d + 1) * Effective(d, n)
  {
    OutcomeDivides(c, d, n);
    hide Effective, Outcome, Stops;
    DivisorsAgree(c, d, Effective(d, n));
  }

  lemma DivisorsAgree(c: nat, d: nat, e: nat)
    requires 0 < e <= d
    ensures c / e == c / d <==> c < (c / d + 1) * e
    ensures d <= c && (c / e, c % e) == (c / d, c % d) ==> e == d
  {
    var q := c / d;
    assert c == q * d + c % d;
    MulBoth(q, q, e, d);
    if c < (q + 1) * e { ModUnique(c, e, q, c - q * e); }
    if c / e == q {
      assert c == q * e + c % e;
      if c % e == c % d && q > 0 && e < d { MulBoth(1, q, d - e, d - e); }
    }
  }

  /** The exact condition: the routine leaves the quotient and the remainder if and only if
      doubling the divisor passes the dividend before the sign bit. */
  lemma UdivExact(c: Word, d: Word, n: nat)
    requires 0 < d <= c < TOP && Stops(c, d, n)
    ensures Outcome(c, d, n) == (c / d, c % d) <==> Fits(c, d)
  {
    OutcomeDivides(c, d, n);
    EffectiveIs(c, d, n);
    hide Effective, Outcome, Stops, Fits;
    DivisorsAgree(c, d, Effective(d, n));
  }

  /** A wrong quotient: the divisor is below the dividend and both are 31-bit numbers, but the
      subtrahend passes by wrapping to 0x6000_0000, and the quotient becomes 3 instead of 2. */
  lemma WrongQuotient()
    ensures var c: Word, d: Word := 0x5800_0000, 0x2c00_0000;
            && Stops(c, d, 3) && Effective(d, 3) == 0x1800_0000 && Outcome(c, d, 3) == (3, 0x1000_0000)
            && (c / d, c % d) == (2, 0) && !Fits(c, d) && Minus(c, Times(3, d)) == 0xd400_0000
  {
    var c: Word, d: Word := 0x5800_0000, 0x2c00_0000;
    ShiftsOfWrong();
    assert Rounds(0x6000_0000, d) == 1 + Rounds(0x3000_0000, d) == 2 + Rounds(0x1800_0000, d) && Pow2(2) == 4;
    OutcomeDivides(c, d, 3);
    EffectiveIs(c, d, 3);
  }

  /** Outside the condition the quotient alone can still be right, and `umod` with it. */
  lemma LuckyQuotient()
    ensures var c: Word, d: Word := 0x5c00_0000, 0x5800_0000;
            && Stops(c, d, 2) && Effective(d, 2) == 0x3000_0000 && !Fits(c, d)
            && Outcome(c, d, 2) == (1, 0x2c00_0000) && (c / d, c % d) == (1, 0x400_0000)
  {
    var c: Word, d: Word := 0x5c00_0000, 0x5800_0000;
    ShiftsOfLucky();
    assert Rounds(0x6000_0000, d) == 1 + Rounds(0x3000_0000, d) && Pow2(1) == 2;
    OutcomeDivides(c, d, 2);
    EffectiveIs(c, d, 2);
  }

  lemma ShiftsOfLucky()
    ensures var d: Word := 0x5800_0000;
            && Shl(d, 0) == 0x5800_0000 && Shl(d, 1) == 0xb000_0000
            && Shl(d, 2) == 0x6000_0000
  {
    assert Shl(0xb000_0000, 1) == 0x6000_0000;
  }

  lemma ShiftsOfWrong()
    ensures var d: Word := 0x2c00_0000;
            && Shl(d, 0) == 0x2c00_0000 && Shl(d, 1) == 0x5800_0000
            && Shl(d, 2) == 0xb000_0000 && Shl(d, 3) == 0x6000_0000
  {
    assert Shl(0x5800_0000, 1) == 0xb000_0000 && Shl(0x5800_0000, 2) == Shl(0xb000_0000, 1) == 0x6000_0000;
  }

  /** Quotient and remainder by the divisor that the rounds come down to, which is the one given
      exactly when the condition holds; a zero divisor gives zero. The precondition is only that
      the first loop ends. */
  method Udiv(c0: Word, d: Word) returns (b: Word, c: Word)
    requires c0 < TOP && d < TOP && (0 < d <= c0 ==> exists n: nat :: Passed(c0, d, n))
    ensures d == 0 ==> b == 0 && c == c0
    ensures d > 0 ==> ((b == c0 / d && c == c0 % d) <==> Fits(c0, d))
    ensures 0 < d <= c0 ==> forall n: nat | Stops(c0, d, n) ::
              && 0 < Effective(d, n) <= d && b == c0 / Effective(d, n) && c == c0 % Effective(d, n)
              && (b == c0 / d <==> c0 < (c0 / d + 1) * Effective(d, n))
    ensures b * d < 0x1_0000_0000
  {
    hide BitOp, Shr, Shl, Sar, Or, Passed, Stops, Effective, Fits;
    c := c0;
    b := 0;
    var k := Mask(d == 0);
    if k != ALL_ONES {
      k := Mask(Signed(c) < Signed(d));
      if k != ALL_ONES {
        b, c := Quotient(c, d);
      } else {
        UndividedFits(c, d);
      }
    }
    SarPositive(b);
    b := Sar(b, 1);
  }

  lemma UndividedFits(c: Word, d: Word)
    requires c < d < TOP
    ensures Fits(c, d) && c / d == 0 && c % d == c
  {
    assert d * Pow2(0) == d;
    assert Passes(c, d, 0);
  }

  /** From build_subtrahend to done: twice the quotient, and what is left. */
  method Quotient(c0: Word, d: Word) returns (b: Word, c: Word)
    requires 0 < d <= c0 < TOP && exists n: nat :: Passed(c0, d, n)
    ensures b < TOP && b / 2 * d < 0x1_0000_0000
    ensures (b / 2 == c0 / d && c == c0 % d) <==> Fits(c0, d)
    ensures forall n: nat | Stops(c0, d, n) ::
              && 0 < Effective(d, n) <= d && b / 2 == c0 / Effective(d, n) && c == c0 % Effective(d, n)
              && (b / 2 == c0 / d <==> c0 < (c0 / d + 1) * Effective(d, n))
  {
    hide BitOp, Shr, Shl, Sar, Or, Pow2, Halve, Rounds, Fits, Effective;
    c := c0;
    b := 0;
    var g := d;
    ghost var m: nat :| Passed(c0, d, m);
    ghost var n: nat := 0;
    ShlAgain(d, 0);
    while true
      invariant n <= m && g == Shl(d, n)
      invariant forall i: nat | i < n :: !Passed(c0, d, i)
      decreases m - n
    {
      var k := Mask(Signed(c) < Signed(g));
      if k == ALL_ONES { break; }
      assert !Passed(c0, d, n);
      ShlAgain(d, n);
      n := n + 1;
      g := Shl(g, 1);
    }
    assert Stops(c0, d, n);
    OneStop(c0, d, n);
    StopsAt(c0, d, n);
    UdivExact(c0, d, n);
    OutcomeDivides(c0, d, n);
    QuotientExact(c0, d, n);
    hide Passed, Stops;
    RoundsSmall(g, d);
    Pow2AtMost(Rounds(g, d));
    ghost var q: nat, i: nat, all := 0, 0, Rounds(g, d);
    while true
      invariant 0 < g < TOP && c < TOP && b == 2 * q && q < Pow2(i)
      invariant i + Rounds(g, d) == all
      invariant Halve(g, d, c, q) == Outcome(c0, d, n)
      decreases g
    {
      var k := Mask(Signed(g) < Signed(d));
      Masks(Signed(g) < Signed(d), g == d);
      k := Or(k, Mask(g == d));
      if k == ALL_ONES { break; }
      HalveRound(g, d, c, q, i, all);
      g := Sar(g, 1);
      k := Mask(Signed(c) < Signed(g));
      q := 2 * q;
      if k != ALL_ONES {
        c := Minus(c, g);
        b := Or(b, 1);
        q := q + 1;
      }
      b := Shl(b, 1);
      i := i + 1;
    }
    HalveDone(g, d, c, q);
  }

  lemma ShlAgain(d: Word, n: nat)
    ensures Shl(Shl(d, n), 1) == Shl(d, n + 1) && Shl(d, 0) == d
    decreases n
  {
    if n > 0 { ShlAgain(Wrap(2 * d), n - 1); }
  }

  lemma OneStop(c: Word, d: Word, n: nat)
    requires Stops(c, d, n)
    ensures forall i: nat | Stops(c, d, i) :: i == n
  {
  }

  lemma HalveDone(g: nat, d: nat, c: nat, q: nat)
    requires 0 < d && g <= d
    ensures Halve(g, d, c, q) == (q, c)
  {
  }

  /** One round on the words. */
  lemma HalveRound(g: Word, d: Word, c: Word, q: nat, i: nat, all: nat)
    requires 0 < d < g < TOP && c < TOP && q < Pow2(i) && Pow2(all) <= 0x4000_0000 && i + Rounds(g, d) == all
    ensures var less := Signed(c) < Signed(g / 2);
            var left, r := if less then c else Minus(c, g / 2), if less then 2 * q else 2 * q + 1;
            && Sar(g, 1) == g / 2 && g / 2 > 0 && 2 * q < 0x1_0000_0000
            && Shl(if less then 2 * q else Or(2 * q, 1), 1) == 2 * r && r < Pow2(i + 1)
            && left < TOP && Halve(g / 2, d, left, r) == Halve(g, d, c, q)
            && i + 1 + Rounds(g / 2, d) == all
  {
    hide BitOp, Shr, Sar, Or, Shl;
    Pow2Monotone(i + 1, all);
    assert Pow2(i + 1) == 2 * Pow2(i);
    SarPositive(g);
    OrOne(q);
    ShlOnce(2 * q);
    ShlOnce(2 * q + 1);
  }

  lemma OrOne(q: nat)
    requires 2 * q + 1 < 0x1_0000_0000
    ensures Or(2 * q, 1) == 2 * q + 1
  {
    Pow2Of32();
    assert Pow2(32) == 2 * Pow2(31);
    OrZero(q, 31);
  }

  lemma ShlOnce(b: Word)
    ensures Shl(b, 1) == Wrap(2 * b)
  {
  }

  /** The divisor 1 under a dividend of 2^30 or more never passes it: 1, 2, ..., 2^30, 2^31
      (negative), then zero for ever. */
  lemma {:induction false} OneNeverPasses(c: Word, n: nat)
    requires 0x4000_0000 <= c < TOP
    ensures Signed(Shl(1, n)) <= Signed(c)
  {
    ShlValue(1, n);
    if n >= 32 {
      ShiftedOut(1, n);
    } else {
      Pow2Of31();
      Pow2Monotone(n, 31);
      if n < 31 { Pow2Monotone(n, 30); assert Pow2(31) == 2 * Pow2(30); }
    }
  }

  lemma ShiftedOut(d: Word, n: nat)
    requires n >= 32
    ensures Shl(d, n) == 0
  {
    ShlValue(d, n);
    Pow2Split(32, n);
    Pow2Of32();
    hide Pow2, Shl;
    WholeWords(d, Pow2(n - 32));
  }

  lemma WholeWords(d: int, p: int)
    ensures Wrap(d * (0x1_0000_0000 * p)) == 0
  {
    var k := d * p;
    assert d * (0x1_0000_0000 * p) == 0 + k * 0x1_0000_0000;
    hide Wrap;
    WrapMultiple(0, k);
    WrapSmall(0);
  }

  /** build_subtrahend ends at all if and only if it ends within 31 rounds: from the 32nd shift
      on the subtrahend is zero. */
  lemma EndsSoon(c: Word, d: Word)
    requires c < TOP
    ensures (exists n: nat :: Passed(c, d, n)) <==> (exists n: nat | n < 32 :: Passed(c, d, n))
  {
    forall n: nat | n >= 32
      ensures !Passed(c, d, n)
    {
      ShiftedOut(d, n);
    }
  }

  /** The remainder if and only if the dividend is below the next multiple of the divisor that
      udiv's rounds come down to, and always under udiv's condition; c for a zero divisor. */
  method Umod(c: Word, d: Word) returns (b: Word)
    requires c < TOP && d < TOP && (0 < d <= c ==> exists n: nat :: Passed(c, d, n))
    ensures d == 0 ==> b == c
    ensures 0 < d && (c < d || Fits(c, d)) ==> b == c % d
    ensures 0 < d <= c ==> forall n: nat | Stops(c, d, n) ::
              && 0 < Effective(d, n) <= d && b == Wrap(c - c / Effective(d, n) * d)
              && (b == c % d <==> c < (c / d + 1) * Effective(d, n))
  {
    hide Fits, Passed, Stops, Effective;
    var rest: Word;
    b, rest := Udiv(c, d);
    if d > 0 { RemainderFrom(c, d, b); }
    if c < d { UndividedFits(c, d); }
    b := Times(b, d);
    b := Minus(c, b);
  }

  lemma RemainderFrom(c: Word, d: Word, q: Word)
    requires 0 < d && c < TOP && q * d < 0x1_0000_0000
    ensures Minus(c, Times(q, d)) == Wrap(c - q * d)
    ensures Minus(c, Times(q, d)) == c % d <==> q == c / d
  {
    WrapSmall(q * d);
    var r := c % d;
    assert c == c / d * d + r;
    if Wrap(c - q * d) == r {
      assert q * d == c - r || q * d == c - r + 0x1_0000_0000;
      ModUnique(c, d, q, r);
    }
  }

  // ----- lib/imul.tas.cpp -----

  function Magnitude(d: Word): Word {
    var j := Sar(d, 31);
    Minus(Xor(d, j), j)
  }

  lemma MagnitudeValue(d: Word)
    ensures Sar(d, 31) == (if d < TOP then 0 else ALL_ONES)
    ensures Magnitude(d) == (if d < TOP then d else Wrap(0 - d))
    ensures d != TOP ==> Magnitude(d) < TOP
  {
    hide Xor, Sar, Wrap;
    if d < TOP {
      SarPositive(d);
      Neutral(d);
      WrapSmall(d);
    } else {
      SarNegative(d);
      XorWithOnes(d);
      WrapMultiple(0 - d, 1);
      WrapSmall(0x1_0000_0000 - d);
    }
  }

  lemma XorWithOnes(a: Word)
    ensures Xor(a, ALL_ONES) == Not(a)
  {
    Pow2Of32();
    XorAllOnes(a, 32);
  }

  lemma {:induction false} XorAllOnes(a: nat, n: nat)
    requires a < Pow2(n)
    ensures BitOp(XorOp, a, Pow2(n) - 1, n) == Pow2(n) - 1 - a
  {
    if n > 0 {
      XorAllOnes(a / 2, n - 1);
      assert (Pow2(n) - 1) / 2 == Pow2(n - 1) - 1;
    }
  }

  /** The partial sum and the shifted multiplicand and multiplier still make the product. */
  ghost predicate Multiplying(product: int, b: Word, c: Word, d: Word) {
    Wrap(b + c * d) == Wrap(product)
  }

  lemma MultiplyStep(product: int, b: Word, c: Word, d: Word)
    requires Multiplying(product, b, c, d)
    ensures Multiplying(product, if d % 2 == 1 then Plus(b, c) else b, Shl(c, 1), d / 2)
  {
    var h := d / 2;
    var b1 := if d % 2 == 1 then b + c else b;
    ShlOnce(c);
    WrapSmall(b);
    hide Shl, Wrap;
    HalfProduct(c, d);
    WrapProduct(2 * c, h);
    WrapSum(b1, Wrap(2 * c) * h, (2 * c) * h);
  }

  lemma HalfProduct(c: int, d: int)
    ensures c * d == (if d % 2 == 1 then c else 0) + (2 * c) * (d / 2)
  {
    assert c * d == c * (2 * (d / 2)) + c * (d % 2);
  }

  lemma WrapProduct(x: int, y: int)
    ensures Wrap(Wrap(x) * y) == Wrap(x * y)
  {
    var k := x / 0x1_0000_0000;
    assert x * y == Wrap(x) * y + (k * y) * 0x1_0000_0000;
    WrapMultiple(Wrap(x) * y, k * y);
  }

  lemma WrapSum(b: int, x: int, y: int)
    requires Wrap(x) == Wrap(y)
    ensures Wrap(Wrap(b) + x) == Wrap(b + y)
  {
    WrapPlus(b, x);
    WrapPlus(b, x);
    WrapPlus(b, y);
  }

  /** i <- d & h - 1; i <- c &~ i: the multiplicand when the multiplier is odd. */
  lemma OddSelects(c: Word, d: Word)
    ensures And(d, 1) == d % 2
    ensures And(c, Not(Minus(And(d, 1), 1))) == if d % 2 == 1 then c else 0
  {
    assert Pow2(1) == 2;
    Pow2Of32();
    AndLowMask(d, 1, 32);
    AndZero(c, 32);
    AndAllOnes(c, 32);
  }

  lemma MultiplyRound(product: int, b: Word, c: Word, d: Word)
    requires Multiplying(product, b, c, d) && d < TOP
    ensures var i := And(c, Not(Minus(And(d, 1), 1)));
            Multiplying(product, Plus(b, i), Shl(c, 1), Sar(d, 1))
    ensures Sar(d, 1) == d / 2
  {
    WrapSmall(b);
    assert Plus(b, 0) == b;
    hide And, Shl, Sar, Multiplying, Minus, Not, Plus;
    MultiplyStep(product, b, c, d);
    OddSelects(c, d);
    SarPositive(d);
  }

  /** The product modulo 2^32, for every multiplier but -2^31. */
  method Imul(c0: Word, d0: Word) returns (b: Word)
    requires d0 != TOP
    ensures b == Times(c0, d0)
  {
    MagnitudeValue(d0);
    SarPositive(0);
    hide And, Xor, Sar, Shl, Multiplying, Times, Wrap;
    var c: Word, d: Word := c0, d0;
    b := 0;
    var h: Word := 1;
    var j := Sar(d, 31);
    d := Xor(d, j);
    d := Minus(d, j);
    assert d == Magnitude(d0);
    hide Minus, Plus, Magnitude;
    ghost var product := c0 * d;
    MultiplyStart(c, d);
    while true
      invariant d < TOP && Multiplying(product, b, c, d)
      decreases d
    {
      MultiplyRound(product, b, c, d);
      var i := Minus(And(d, h), 1);
      i := And(c, Not(i));
      b := Plus(b, i);
      c := Shl(c, 1);
      d := Sar(d, 1);
      if Mask(d == 0) == ALL_ONES { break; }
    }
    MultiplyEnd(product, b, c);
    SignedProduct(c0, d0, b);
    b := Xor(b, j);
    b := Minus(b, j);
  }

  lemma MultiplyStart(c: Word, d: Word)
    ensures Multiplying(c * d, 0, c, d)
  {
  }

  lemma MultiplyEnd(product: int, b: Word, c: Word)
    requires Multiplying(product, b, c, 0)
    ensures b == Wrap(product)
  {
  }

  lemma SignedProduct(c: Word, d: Word, b: Word)
    requires b == Wrap(c * Magnitude(d))
    ensures Minus(Xor(b, Sar(d, 31)), Sar(d, 31)) == Times(c, d)
  {
    MagnitudeValue(d);
    hide BitOp, Xor, Sar, Wrap, Magnitude;
    Neutral(b);
    XorWithOnes(b);
    if d < TOP {
      WrapSmall(b);
    } else {
      var e := 0x1_0000_0000 - d;
      WrapSmall(e);
      WrapMultiple(0 - d, 1);
      var ce := c * e;
      assert c * d == 0 - ce + c * 0x1_0000_0000;
      WrapMultiple(0 - ce, c);
      NegateWrap(ce);
    }
  }

  lemma NegateWrap(x: int)
    ensures Wrap(0 - Wrap(x)) == Wrap(0 - x)
  {
    WrapMultiple(0 - Wrap(x), 0 - x / 0x1_0000_0000);
  }

  /** Arithmetic halving, as the multiplier and the exponent loops do it. */
  function Halved(d: Word, n: nat): Word {
    if n == 0 then d else Sar(Halved(d, n - 1), 1)
  }

  /** The multiplication loop ends exactly when the sign bit of the magnitude is clear, that
      is, for every multiplier but -2^31. */
  lemma ImulEnds(d: Word)
    ensures (exists n: nat :: Halved(Magnitude(d), n) == 0) <==> d != TOP
  {
    MagnitudeValue(d);
    var e := Magnitude(d);
    hide BitOp, Xor, Sar, Magnitude, Halved;
    if d != TOP {
      var n := HalvesAway(e);
    } else {
      forall n: nat ensures Halved(e, n) != 0 { SignStays(e, n); }
    }
  }

  lemma {:induction false} SignStays(d: Word, n: nat)
    requires d >= TOP
    ensures Halved(d, n) >= TOP
  {
    hide Sar;
    if n > 0 {
      SignStays(d, n - 1);
      SarNegative(Halved(d, n - 1));
    }
  }

  lemma {:induction false} HalvedAfter(d: Word, n: nat)
    ensures Halved(Sar(d, 1), n) == Halved(d, n + 1)
  {
    hide Sar;
    if n > 0 { HalvedAfter(d, n - 1); } else { assert Halved(d, 0) == d; }
  }

  lemma {:induction false} HalvesAway(d: Word) returns (n: nat)
    requires d < TOP
    ensures Halved(d, n) == 0
    decreases d
  {
    hide Sar;
    if d == 0 {
      n := 0;
    } else {
      SarPositive(d);
      n := HalvesAway(d / 2);
      HalvedAfter(d, n);
      n := n + 1;
    }
  }

  // ----- lib/ipow.tas.cpp -----

  function Power(c: int, n: nat): int {
    if n == 0 then 1 else c * Power(c, n - 1)
  }

  lemma {:induction false} PowerSquare(c: int, n: nat)
    ensures Power(c * c, n) == Power(c, 2 * n)
  {
    if n > 0 {
      PowerSquare(c, n - 1);
      assert Power(c, 2 * n) == c * Power(c, 2 * n - 1) == c * (c * Power(c, 2 * n - 2));
    }
  }

  lemma {:induction false} PowerOfWrap(c: int, n: nat)
    ensures Wrap(Power(Wrap(c), n)) == Wrap(Power(c, n))
  {
    if n > 0 {
      hide Wrap;
      PowerOfWrap(c, n - 1);
      var p, q := Power(Wrap(c), n - 1), Power(c, n - 1);
      assert Power(Wrap(c), n) == Wrap(c) * p && Power(c, n) == c * q;
      WrapProduct(c, p);
      WrapProduct(p, c);
      WrapProduct(q, c);
    }
  }

  ghost predicate Raising(result: int, b: Word, c: Word, d: nat) {
    Wrap(b * Power(c, d)) == Wrap(result)
  }

  lemma RaiseOdd(result: int, b: Word, c: Word, d: nat)
    requires Raising(result, b, c, d) && d > 0
    ensures Raising(result, Times(b, c), c, d - 1)
  {
    hide Wrap;
    var p := Power(c, d - 1);
    assert b * (c * p) == (b * c) * p;
    WrapProduct(b * c, p);
  }

  lemma RaiseEven(result: int, b: Word, c: Word, d: nat)
    requires Raising(result, b, c, d) && d % 2 == 0
    ensures Raising(result, b, Times(c, c), d / 2)
  {
    hide Wrap;
    PowerSquare(c, d / 2);
    PowerOfWrap(c * c, d / 2);
    var p, q := Power(Times(c, c), d / 2), Power(c * c, d / 2);
    hide Power;
    WrapFactor(b, p, q);
  }

  lemma WrapFactor(b: int, p: int, q: int)
    requires Wrap(p) == Wrap(q)
    ensures Wrap(b * p) == Wrap(b * q)
  {
    hide Wrap;
    WrapProduct(p, b);
    WrapProduct(q, b);
  }

  /** The power modulo 2^32, with 0^0 = 1. */
  method Ipow(c0: Word, d0: Word) returns (b: Word)
    requires d0 < TOP
    ensures b == Wrap(Power(c0, d0))
  {
    hide BitOp, And, Sar, Raising, Times, Power;
    var c: Word, d: Word := c0, d0;
    b := 1;
    RaiseStart(c, d);
    while true
      invariant d < TOP && Raising(Power(c0, d0), b, c, d)
      decreases d
    {
      var k := Mask(d == 0);
      if k == ALL_ONES { break; }
      OddSelects(c, d);
      k := And(d, 1);
      k := Minus(k, 1);
      if k == ALL_ONES {
        RaiseEven(Power(c0, d0), b, c, d);
        SarPositive(d);
        c := Times(c, c);
        d := Sar(d, 1);
      } else {
        RaiseOdd(Power(c0, d0), b, c, d);
        b := Times(b, c);
        d := Minus(d, 1);
      }
    }
    RaiseEnd(Power(c0, d0), b, c);
  }

  lemma RaiseStart(c: Word, d: nat)
    ensures Raising(Power(c, d), 1, c, d)
  {
  }

  lemma RaiseEnd(result: int, b: Word, c: Word)
    requires Raising(result, b, c, 0)
    ensures b == Wrap(result)
  {
    assert Power(c, 0) == 1;
  }

  /** The exponent after n rounds. */
  function Lowered(d: Word, n: nat): Word
    decreases n
  {
    if n == 0 then d else Lowered(if And(d, 1) == 1 then Minus(d, 1) else Sar(d, 1), n - 1)
  }

  /** The loop ends if and only if the exponent is not negative: a negative one stays negative
      in both branches. */
  lemma NegativeExponent(d: Word)
    ensures (exists n: nat :: Lowered(d, n) == 0) <==> d < TOP
  {
    if d < TOP {
      var n := LoweredAway(d);
    } else {
      forall n: nat ensures Lowered(d, n) != 0 { NegativeStays(d, n); }
    }
  }

  lemma {:induction false} NegativeStays(d: Word, n: nat)
    requires d >= TOP
    ensures Lowered(d, n) >= TOP
    decreases n
  {
    if n > 0 {
      SarNegative(d);
      WrapSmall(d - 1);
      hide And, Sar, Wrap;
      LowBit(d);
      NegativeStays(if And(d, 1) == 1 then Minus(d, 1) else Sar(d, 1), n - 1);
    }
  }

  lemma LowBit(d: Word)
    ensures And(d, 1) == d % 2
  {
    OddSelects(0, d);
  }

  lemma {:induction false} LoweredAway(d: Word) returns (n: nat)
    requires d < TOP
    ensures Lowered(d, n) == 0
    decreases d
  {
    hide And, Sar;
    if d == 0 {
      n := 0;
    } else {
      SarPositive(d);
      LowBit(d);
      var next := if And(d, 1) == 1 then Minus(d, 1) else Sar(d, 1);
      n := LoweredAway(next);
      n := n + 1;
      assert Lowered(d, n) == Lowered(next, n - 1);
    }
  }
}
