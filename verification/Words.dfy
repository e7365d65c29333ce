/** 32-bit machine words as numbers below 2^32, with the C operators the
    simulator, the JIT and the hardware apply to them. */
module Words {
  const ALL_ONES: Word := 0xffff_ffff

  type Word = w: int | 0 <= w < 0x1_0000_0000

  /** The unsigned 32-bit value congruent to `x`. */
  function Wrap(x: int): Word {
    x % 0x1_0000_0000
  }

  function Plus(a: int, b: int): Word {
    Wrap(a + b)
  }

  function Minus(a: int, b: int): Word {
    Wrap(a - b)
  }

  function Times(a: int, b: int): Word {
    Wrap(a * b)
  }

  /** The two's-complement reading of a word. */
  function Signed(w: Word): int {
    if w < 0x8000_0000 then w else w - 0x1_0000_0000
  }

  function Pow2(n: nat): (r: nat)
    ensures r > 0
  {
    if n == 0 then 1 else 2 * Pow2(n - 1)
  }

  lemma Pow2Monotone(j: nat, k: nat)
    requires j <= k
    ensures Pow2(j) <= Pow2(k)
  {
  }

  /** Bit `i` of a number. */
  predicate Bit(a: nat, i: nat) {
    if i == 0 then a % 2 == 1 else Bit(a / 2, i - 1)
  }

  datatype BoolOp = AndOp | OrOp | XorOp

  function Logic(f: BoolOp, p: bool, q: bool): bool {
    match f
    case AndOp => p && q
    case OrOp => p || q
    case XorOp => p != q
  }

  /** Bitwise combination of the low `n` bits. */
  function BitOp(f: BoolOp, a: nat, b: nat, n: nat): (r: nat)
    ensures r < Pow2(n)
  {
    if n == 0 then 0
    else
      (if Logic(f, a % 2 == 1, b % 2 == 1) then 1 else 0) + 2 * BitOp(f, a / 2, b / 2, n - 1)
  }

  lemma Pow2Of32()
    ensures Pow2(32) == 0x1_0000_0000
  {
    assert Pow2(8) == 256;
    assert Pow2(16) == 0x1_0000;
    assert Pow2(24) == 0x100_0000;
  }

  function And(a: Word, b: Word): Word {
    Pow2Of32();
    BitOp(AndOp, a, b, 32)
  }

  function Or(a: Word, b: Word): Word {
    Pow2Of32();
    BitOp(OrOp, a, b, 32)
  }

  function Xor(a: Word, b: Word): Word {
    Pow2Of32();
    BitOp(XorOp, a, b, 32)
  }

  function Not(a: Word): Word {
    0xffff_ffff - a
  }

  /** Shifts; the C standard defines them for amounts 0..31. */
  function Shl(a: Word, n: nat): Word
    decreases n
  {
    if n == 0 then a else Shl(Wrap(2 * a), n - 1)
  }

  function Shr(a: Word, n: nat): (r: Word)
    ensures r <= a
    decreases n
  {
    if n == 0 then a else Shr(a / 2, n - 1)
  }

  function Sar(a: Word, n: nat): Word {
    if a < 0x8000_0000 then Shr(a, n) else Not(Shr(Not(a), n))
  }

  /** All ones for true, zero for false: the comparison result of the ISA. */
  function Mask(b: bool): Word {
    if b then 0xffff_ffff else 0
  }

  lemma WrapSmall(x: int)
    requires 0 <= x < 0x1_0000_0000
    ensures Wrap(x) == x
  {
  }

  lemma WrapMultiple(x: int, k: int)
    ensures Wrap(x + k * 0x1_0000_0000) == Wrap(x)
  {
  }

  lemma SignedWrap(x: int)
    requires -0x8000_0000 <= x < 0x8000_0000
    ensures Signed(Wrap(x)) == x
  {
  }

  lemma WrapPlus(a: int, b: int)
    ensures Plus(Wrap(a), b) == Wrap(a + b) && Plus(a, Wrap(b)) == Wrap(a + b)
  {
    WrapMultiple(a + b, -(a / 0x1_0000_0000));
    WrapMultiple(a + b, -(b / 0x1_0000_0000));
  }

  /** Shifting left multiplies by a power of two, modulo the word size. */
  lemma {:induction false} ShlValue(a: Word, n: nat)
    ensures Shl(a, n) == Wrap(a * Pow2(n))
    decreases n
  {
    if n > 0 {
      ShlValue(Wrap(2 * a), n - 1);
      DoubledScale(a, Pow2(n - 1));
    }
  }

  lemma DoubledScale(a: Word, p: nat)
    ensures Wrap(Wrap(2 * a) * p) == Wrap(a * (2 * p))
  {
    var k := if 2 * a < 0x1_0000_0000 then 0 else 1;
    var d: int := Wrap(2 * a);
    assert d == 2 * a - k * 0x1_0000_0000;
    hide Wrap;
    WrapMultiple(d * p, k * p);
    if k == 0 { assert d * p == a * (2 * p); } else { assert d * p + p * 0x1_0000_0000 == a * (2 * p); }
  }

  /** Shifting right divides, rounding down, unsigned or signed. */
  lemma {:induction false} ShrValue(w: Word, n: nat)
    ensures Shr(w, n) == w / Pow2(n)
    decreases n
  {
    if n > 0 {
      ShrValue(w / 2, n - 1);
      QuotientByHalves(w, Pow2(n - 1));
    }
  }

  lemma QuotientByHalves(x: nat, p: nat)
    requires p > 0
    ensures x / (2 * p) == x / 2 / p
  {
    var h := x / 2;
    var q, r := h / p, h % p;
    assert h == q * p + r;
    assert q * (2 * p) == 2 * (q * p);
    ModUnique(x, 2 * p, q, 2 * r + x % 2);
  }

  lemma SarValue(a: Word, n: nat)
    ensures Signed(Sar(a, n)) == Signed(a) / Pow2(n)
  {
    hide Pow2, Shr;
    ShrValue(a, n);
    ShrValue(Not(a), n);
    QuotientOfNot(Not(a), Pow2(n));
  }

  lemma QuotientOfNot(b: int, p: nat)
    requires p > 0
    ensures (-b - 1) / p == -(b / p) - 1
  {
    var q, r := b / p, b % p;
    assert b == q * p + r;
    assert (-q - 1) * p == -(q * p) - p;
    ModUnique(-b - 1, p, -q - 1, p - 1 - r);
  }

  lemma {:induction false} BitValue(a: nat, i: nat)
    ensures Bit(a, i) <==> a / Pow2(i) % 2 == 1
  {
    if i > 0 {
      BitValue(a / 2, i - 1);
      QuotientByHalves(a, Pow2(i - 1));
    }
  }

  /** The low bits of a number are its own. */
  lemma {:induction false} BitOfByte(w: nat, n: nat, j: nat)
    requires j < n
    ensures Bit(w % Pow2(n), j) == Bit(w, j)
  {
    ModHalf(w, Pow2(n - 1));
    var m := w / 2 % Pow2(n - 1);
    assert (w % 2 + 2 * m) / 2 == m && (w % 2 + 2 * m) % 2 == w % 2;
    if j > 0 { BitOfByte(w / 2, n - 1, j - 1); }
  }

  /** By 2^32 or more nothing is left but the sign. */
  lemma FarQuotient(a: int, n: nat)
    requires n >= 32 && -0x1_0000_0000 <= a < 0x1_0000_0000
    ensures a / Pow2(n) == if a < 0 then -1 else 0
  {
    Pow2Of32();
    Pow2Monotone(32, n);
    var p := Pow2(n);
    hide Pow2;
    if a < 0 { ModUnique(a, p, -1, a + p); } else { ModUnique(a, p, 0, a); }
  }

  // ----- Facts about bitwise operators -----

  lemma {:induction false} BitOpAt(f: BoolOp, a: nat, b: nat, n: nat, i: nat)
    requires i < n
    ensures Bit(BitOp(f, a, b, n), i) == Logic(f, Bit(a, i), Bit(b, i))
  {
    if i > 0 {
      BitOpAt(f, a / 2, b / 2, n - 1, i - 1);
    }
  }

  lemma {:induction false} BitsDetermine(a: nat, b: nat, n: nat)
    requires a < Pow2(n) && b < Pow2(n)
    requires forall i :: 0 <= i < n ==> Bit(a, i) == Bit(b, i)
    ensures a == b
  {
    if n > 0 {
      assert Bit(a, 0) == Bit(b, 0);
      forall i | 0 <= i < n - 1
        ensures Bit(a / 2, i) == Bit(b / 2, i)
      {
        assert Bit(a, i + 1) == Bit(b, i + 1);
      }
      BitsDetermine(a / 2, b / 2, n - 1);
    }
  }

  lemma {:induction false} OrZero(a: nat, n: nat)
    requires a < Pow2(n)
    ensures BitOp(OrOp, 0, a, n) == a && BitOp(OrOp, a, 0, n) == a
  {
    if n > 0 { OrZero(a / 2, n - 1); }
  }

  lemma {:induction false} XorSelf(a: nat, n: nat)
    ensures BitOp(XorOp, a, a, n) == 0
  {
    if n > 0 { XorSelf(a / 2, n - 1); }
  }

  lemma {:induction false} AndZero(a: nat, n: nat)
    ensures BitOp(AndOp, a, 0, n) == 0 && BitOp(AndOp, 0, a, n) == 0
  {
    if n > 0 { AndZero(a / 2, n - 1); }
  }

  /** Masking with 2^k - 1 keeps the low k bits. */
  lemma {:induction false} AndLowMask(a: nat, k: nat, n: nat)
    requires k <= n
    ensures BitOp(AndOp, a, Pow2(k) - 1, n) == a % Pow2(k)
  {
    if k == 0 {
      AndZero(a, n);
    } else {
      AndLowMask(a / 2, k - 1, n - 1);
      LowMaskStep(a, Pow2(k - 1), n);
      assert Pow2(k) == 2 * Pow2(k - 1);
      hide Pow2;
    }
  }

  lemma {:induction false} AndOddMask(a: nat, m: nat, n: nat)
    requires m > 0 && n > 0
    ensures BitOp(AndOp, a, 2 * m - 1, n) == a % 2 + 2 * BitOp(AndOp, a / 2, m - 1, n - 1)
  {
    assert (2 * m - 1) / 2 == m - 1 && (2 * m - 1) % 2 == 1;
  }

  lemma LowMaskStep(a: nat, m: nat, n: nat)
    requires m > 0 && n > 0 && BitOp(AndOp, a / 2, m - 1, n - 1) == a / 2 % m
    ensures BitOp(AndOp, a, 2 * m - 1, n) == a % (2 * m)
  {
    hide BitOp;
    AndOddMask(a, m, n);
    ModHalf(a, m);
  }

  lemma ModHalf(a: nat, m: nat)
    requires m > 0
    ensures a % (2 * m) == a % 2 + 2 * ((a / 2) % m)
  {
    var h := a / 2;
    var q := h / m;
    assert h == q * m + h % m;
    assert a == q * (2 * m) + (a % 2 + 2 * (h % m));
    ModUnique(a, 2 * m, q, a % 2 + 2 * (h % m));
  }

  lemma MulAtLeast(x: int, d: int)
    requires x >= 1 && d >= 0
    ensures x * d >= d
  {
    assert x * d == (x - 1) * d + d;
  }

  lemma ModUnique(a: int, d: int, q: int, r: int)
    requires 0 <= r < d && a == q * d + r
    ensures a % d == r && a / d == q
  {
    var q', r' := a / d, a % d;
    assert a == q' * d + r';
    var delta := q - q';
    assert delta * d == r' - r;
    if delta >= 1 { MulAtLeast(delta, d); }
    if delta <= -1 {
      assert (-delta) * d == r - r';
      MulAtLeast(-delta, d);
    }
  }

  /** Masking with a single bit tests that bit. */
  lemma {:induction false} AndPow2(a: nat, k: nat, n: nat)
    requires k < n
    ensures BitOp(AndOp, a, Pow2(k), n) == if Bit(a, k) then Pow2(k) else 0
  {
    if k == 0 {
      AndZero(a / 2, n - 1);
    } else {
      AndPow2(a / 2, k - 1, n - 1);
    }
  }

  /** Numbers with no common bits: `|` adds them. */
  lemma {:induction false} OrDisjoint(hi: nat, lo: nat, k: nat, n: nat)
    requires lo < Pow2(k) && k <= n && hi * Pow2(k) < Pow2(n)
    ensures BitOp(OrOp, hi * Pow2(k), lo, n) == hi * Pow2(k) + lo
  {
    if k == 0 {
      OrZero(hi, n);
    } else {
      var h := hi * Pow2(k - 1);
      assert hi * Pow2(k) == 2 * h;
      OrDisjoint(hi, lo / 2, k - 1, n - 1);
    }
  }

  lemma {:induction false} AndAllOnes(a: nat, n: nat)
    requires a < Pow2(n)
    ensures BitOp(AndOp, a, Pow2(n) - 1, n) == a
  {
    if n > 0 {
      AndAllOnes(a / 2, n - 1);
      assert (Pow2(n) - 1) / 2 == Pow2(n - 1) - 1;
    }
  }

  function HighMask(k: nat, n: nat): nat
    requires k <= n
  {
    if k == 0 then Pow2(n) - 1 else 2 * HighMask(k - 1, n - 1)
  }

  /** Masking off the low k of n bits leaves zero exactly below 2^k. */
  lemma {:induction false} AndHighMask(a: nat, k: nat, n: nat)
    requires k <= n && a < Pow2(n)
    ensures BitOp(AndOp, a, HighMask(k, n), n) == 0 <==> a < Pow2(k)
  {
    if k == 0 {
      AndAllOnes(a, n);
    } else {
      AndHighMask(a / 2, k - 1, n - 1);
      assert HighMask(k, n) / 2 == HighMask(k - 1, n - 1);
    }
  }

  /** Clearing the low five bits leaves zero exactly below 32. */
  lemma AndNot31(b: Word)
    ensures And(b, 0xffff_ffe0) == 0 <==> b < 32
  {
    Pow2Of32();
    AndHighMask(b, 5, 32);
    HighMaskOf5();
    assert Pow2(5) == 32;
  }

  lemma HighMaskOf5()
    ensures HighMask(5, 32) == 0xffff_ffe0
  {
    assert Pow2(27) == 0x0800_0000 by { Pow2Of32(); }
  }

  // ----- Replacing the low bits of a word -----

  function LowMask(width: nat): (m: Word)
    requires width <= 32
    ensures m == Pow2(width) - 1
  {
    Pow2Of32();
    Pow2Monotone(width, 32);
    Pow2(width) - 1
  }

  /** `value` in the low `width` bits, the others as they were in `word`. */
  function WithLow(word: Word, width: nat, value: int): Word
    requires width <= 32
  {
    WithLowRange(word, width, value);
    word - word % Pow2(width) + value % Pow2(width)
  }

  lemma WithLowRange(word: Word, width: nat, value: int)
    requires width <= 32
    ensures 0 <= word - word % Pow2(width)
    ensures word - word % Pow2(width) + value % Pow2(width) < 0x1_0000_0000
  {
    Pow2Of32();
    Pow2Split(width, 32);
    LowBitsRange(word, Pow2(width), Pow2(32 - width), value);
  }

  lemma LowBitsRange(word: int, p: nat, q: int, value: int)
    requires p > 0 && 0 <= word < q * p
    ensures 0 <= word - word % p && word - word % p + value % p < q * p
  {
    var hi, r := word / p, word % p;
    assert word == hi * p + r;
    NextMultiple(hi, q, p, word);
  }

  lemma NextMultiple(hi: int, q: int, p: nat, w: int)
    requires hi * p <= w < q * p
    ensures hi * p + p <= q * p
  {
    if hi >= q { MulAtMost(q, hi, p); }
    MulAtMost(hi, q - 1, p);
    assert (q - 1) * p == q * p - p;
  }

  lemma MulAtMost(x: int, y: int, p: nat)
    requires x <= y
    ensures x * p <= y * p
  {
    assert (y - x) * p >= 0;
    assert (y - x) * p == y * p - x * p;
  }

  lemma {:induction false} Pow2Split(k: nat, n: nat)
    requires k <= n
    ensures Pow2(n) == Pow2(n - k) * Pow2(k)
  {
    if k > 0 {
      Pow2Split(k - 1, n - 1);
      DoubleRight(Pow2(n - k), Pow2(k - 1));
    }
  }

  lemma DoubleRight(a: int, b: int)
    ensures a * (2 * b) == 2 * (a * b)
  {
  }

  /** A mask and its complement share out the bits. */
  lemma {:induction false} AndComplement(a: nat, m: nat, n: nat)
    requires a < Pow2(n) && m < Pow2(n)
    ensures BitOp(AndOp, a, m, n) + BitOp(AndOp, a, Pow2(n) - 1 - m, n) == a
  {
    if n > 0 {
      AndComplement(a / 2, m / 2, n - 1);
      var k := Pow2(n) - 1 - m;
      assert k / 2 == Pow2(n - 1) - 1 - m / 2 && k % 2 == 1 - m % 2;
    }
  }

  /** `dest & ~mask | value & mask` replaces the low bits and no others. */
  lemma MaskedUpdate(word: Word, width: nat, value: Word)
    requires width <= 32
    ensures Or(And(word, Not(LowMask(width))), And(value, LowMask(width))) == WithLow(word, width, value)
  {
    hide BitOp, And, Or, LowMask, Not, Pow2;
    CutLow(word, width);
    CutLow(value, width);
    OrAbove(word, width, value % Pow2(width));
  }

  lemma OrAbove(word: Word, width: nat, low: nat)
    requires width <= 32 && low < Pow2(width)
    ensures low < 0x1_0000_0000 && 0 <= word - word % Pow2(width) && word - word % Pow2(width) + low < 0x1_0000_0000
    ensures Or(word - word % Pow2(width), low) == word - word % Pow2(width) + low
  {
    Pow2Of32();
    Pow2Monotone(width, 32);
    hide BitOp, Pow2, Or;
    WithLowRange(word, width, low);
    SmallRemainder(low, Pow2(width));
    WholePart(word, Pow2(width));
    OrMultiple(word / Pow2(width), word - word % Pow2(width), low, width);
  }

  lemma SmallRemainder(x: nat, p: nat)
    requires x < p
    ensures x % p == x
  {
  }

  lemma WholePart(x: nat, p: nat)
    requires p > 0
    ensures x / p * p == x - x % p && x / p >= 0
  {
  }

  lemma OrMultiple(hi: nat, above: Word, low: Word, width: nat)
    requires width <= 32 && low < Pow2(width) && above == hi * Pow2(width)
    ensures Or(above, low) == above + low
  {
    Pow2Of32();
    hide BitOp, Pow2;
    OrDisjoint(hi, low, width, 32);
  }

  lemma CutLow(a: Word, width: nat)
    requires width <= 32
    ensures And(a, LowMask(width)) == a % Pow2(width)
    ensures And(a, Not(LowMask(width))) == a - a % Pow2(width)
  {
    Pow2Of32();
    hide BitOp, Pow2;
    AndLowMask(a, width, 32);
    AndComplement(a, LowMask(width), 32);
  }

  /** Cutting to 32 bits first does not change the low bits. */
  lemma LowOfWrap(x: int, width: nat)
    requires width <= 32
    ensures Wrap(x) % Pow2(width) == x % Pow2(width)
  {
    Pow2Of32();
    Pow2Split(width, 32);
    ModOfMod(x, Pow2(32 - width), Pow2(width));
  }

  lemma ModOfMod(x: int, q: nat, p: nat)
    requires p > 0 && q > 0
    ensures q * p > 0 && x % (q * p) % p == x % p
  {
    MulAtLeast(q, p);
    var h, r := x / (q * p), x % (q * p);
    assert x == h * (q * p) + r;
    assert h * (q * p) == (h * q) * p;
    ModShift(r, h * q, p);
  }

  lemma ModShift(r: int, k: int, p: nat)
    requires p > 0
    ensures (r + k * p) % p == r % p
  {
    var h, s := r / p, r % p;
    assert r == h * p + s;
    assert r + k * p == (h + k) * p + s by { assert (h + k) * p == h * p + k * p; }
    ModUnique(r + k * p, p, h + k, s);
  }

  /** A second replacement of the same bits sees the first one's low bits. */
  lemma WithLowTwice(word: Word, width: nat, v: int, t: int)
    requires width <= 32
    ensures var w := WithLow(word, width, v);
            WithLow(w, width, w + t) == WithLow(word, width, v + t)
  {
    var p := Pow2(width);
    var w := WithLow(word, width, v);
    var k := SameLow(word, w, v, p);
    ModShift(v + t, k, p);
  }

  lemma SameLow(word: int, w: int, v: int, p: nat) returns (k: int)
    requires p > 0 && w == word - word % p + v % p
    ensures w - w % p == word - word % p && w == v + k * p
  {
    var hi := word / p;
    k := hi - v / p;
    LowBits(w, hi, v, p);
    SubtractTimes(hi, v / p, p);
  }

  lemma SubtractTimes(a: int, b: int, p: int)
    ensures (a - b) * p == a * p - b * p
  {
  }

  lemma LowBits(w: int, hi: int, v: int, p: nat)
    requires p > 0 && w == hi * p + v % p
    ensures w % p == v % p && w - w % p == hi * p
  {
    ModUnique(w, p, hi, v % p);
  }

  // ----- Packing 20 and 12 bits into a word -----

  /** The `^^` operator, put arithmetically. */
  lemma PackAgrees(a: Word, b: Word)
    ensures Or(Shl(a, 12), And(b, 0xfff)) == Plus(a * 0x1000, b % 0x1000)
  {
    hide BitOp, Shl;
    var hi := a % 0x10_0000;
    Pow2Of12();
    Pow2Of32();
    Shl12(a);
    AndLowMask(b, 12, 32);
    OrDisjoint(hi, b % 0x1000, 12, 32);
  }

  lemma Pow2Of12()
    ensures Pow2(12) == 0x1000
  {
  }

  lemma Shl12(a: Word)
    ensures Shl(a, 12) == a % 0x10_0000 * 0x1000
  {
    hide Shl;
    ShlValue(a, 12);
    Pow2Of12();
    var hi, lo := a / 0x10_0000, a % 0x10_0000;
    WrapMultiple(lo * 0x1000, hi);
    WrapSmall(lo * 0x1000);
    hide Wrap;
    assert a * 0x1000 == lo * 0x1000 + hi * 0x1_0000_0000;
  }

  /** Of the left operand, packing sees only the low 20 bits. */
  lemma PackSame(a: Word, b: Word, low: Word)
    ensures Or(Shl(a, 12), And(low, 0xfff)) == Or(Shl(b, 12), And(low, 0xfff))
       <==> a % 0x10_0000 == b % 0x10_0000
  {
    hide Or, And, Shl;
    PackAgrees(a, low);
    PackAgrees(b, low);
    PackedValue(a, low);
    PackedValue(b, low);
  }

  lemma PackedValue(a: Word, low: Word)
    ensures Plus(a * 0x1000, low % 0x1000) == a % 0x10_0000 * 0x1000 + low % 0x1000
  {
    assert a * 0x1000 == a % 0x10_0000 * 0x1000 + a / 0x10_0000 * 0x1_0000_0000;
    WrapMultiple(a % 0x10_0000 * 0x1000 + low % 0x1000, a / 0x10_0000);
  }

  lemma AndFff(a: Word)
    ensures And(a, 0xfff) == a % 0x1000
  {
    Pow2Of12();
    Pow2Of32();
    AndLowMask(a, 12, 32);
  }

  lemma {:induction false} AndCommutes(a: nat, b: nat, n: nat)
    ensures BitOp(AndOp, a, b, n) == BitOp(AndOp, b, a, n)
  {
    if n > 0 { AndCommutes(a / 2, b / 2, n - 1); }
  }

  lemma {:induction false} OrOnes(a: nat, n: nat)
    ensures BitOp(OrOp, a, Pow2(n) - 1, n) == Pow2(n) - 1
  {
    if n > 0 {
      OrOnes(a / 2, n - 1);
      OddMask(Pow2(n - 1));
    }
  }

  lemma OddMask(p: nat)
    requires p > 0
    ensures (2 * p - 1) / 2 == p - 1 && (2 * p - 1) % 2 == 1
  {
  }

  lemma {:induction false} XorZero(a: nat, n: nat)
    requires a < Pow2(n)
    ensures BitOp(XorOp, 0, a, n) == a == BitOp(XorOp, a, 0, n)
  {
    if n > 0 { XorZero(a / 2, n - 1); }
  }

  lemma Neutral(a: Word)
    ensures And(ALL_ONES, a) == a == And(a, ALL_ONES) && And(0, a) == 0 == And(a, 0)
    ensures Or(0, a) == a == Or(a, 0) && Xor(0, a) == a == Xor(a, 0) && Or(a, ALL_ONES) == ALL_ONES
  {
    Pow2Of32();
    AndAllOnes(a, 32);
    AndCommutes(a, ALL_ONES, 32);
    AndZero(a, 32);
    OrZero(a, 32);
    XorZero(a, 32);
    OrOnes(a, 32);
  }

  lemma OrWithZero(b: Word)
    ensures Or(0, b) == b && Or(b, 0) == b
  {
    Neutral(b);
  }

  lemma AddRight(x: Word, y: Word, c: Word)
    ensures Plus(x, c) == Plus(y, c) <==> x == y
    ensures Plus(c, x) == Plus(c, y) <==> x == y
  {
  }

  /** 1 << n */
  function OneBit(n: nat): (r: Word)
    requires n < 32
    ensures r == Pow2(n)
  {
    Pow2Of32();
    Pow2Monotone(n, 31);
    Pow2(n)
  }

  lemma MaskedBit(a: Word, n: nat)
    requires n < 32
    ensures And(a, OneBit(n)) != 0 <==> Bit(a, n)
  {
    AndPow2(a, n, 32);
  }

  lemma {:induction false} OrCommutes(a: nat, b: nat, n: nat)
    ensures BitOp(OrOp, a, b, n) == BitOp(OrOp, b, a, n)
  {
    if n > 0 { OrCommutes(a / 2, b / 2, n - 1); }
  }

  lemma ModDifference(a: int, b: int, p: nat)
    requires p > 0
    ensures a % p == b % p <==> (a - b) % p == 0
  {
    if a % p == b % p {
      assert a - b == p * (a / p - b / p);
      ModUnique(a - b, p, a / p - b / p, 0);
    } else if (a - b) % p == 0 {
      assert a == p * ((a - b) / p + b / p) + b % p;
      ModUnique(a, p, (a - b) / p + b / p, b % p);
    }
  }
}
