/** Constant expressions of the assembler, the relocations that evaluating one leaves
    behind (src/asmif.c), and what those relocations add up to. */
module Reloc {
  import opened Options
  import opened Words

  datatype UnOp = Minus1 | Invert
  datatype BinOp = Add | Sub | Mul | Div | BitXor | BitAnd | BitOr | Lsh | Rsha | Rsh

  /** struct const_expr without `.set` symbols: `.`, a reference to a label, constants. */
  datatype Expr =
    | Imm(i: Word)
    | Here
    | Sym(name: string)
    | Un(uop: UnOp, e: Expr)
    | Bin(op: BinOp, l: Expr, r: Expr)

  type Env = string -> Word

  // ----- Values -----

  function UnValue(op: UnOp, a: Word): Word {
    if op.Minus1? then Minus(0, a) else Not(a)
  }

  /** C's truncating signed division. */
  function Quotient(a: int, b: int): int
    requires b != 0
  {
    if a >= 0 then (if b > 0 then a / b else -(a / -b))
    else (if b > 0 then -(-a / b) else -a / -b)
  }

  /** Division by zero is fatal; C leaves the other excluded cases undefined. */
  function BinValue(op: BinOp, a: Word, b: Word): Option<Word> {
    match op
    case Add => Some(Plus(a, b))
    case Sub => Some(Minus(a, b))
    case Mul => Some(Times(a, b))
    case BitXor => Some(Xor(a, b))
    case BitAnd => Some(And(a, b))
    case BitOr => Some(Or(a, b))
    case Lsh => if b < 32 then Some(Shl(a, b)) else None
    case Rsha => if b < 32 then Some(Sar(a, b)) else None
    case Rsh => if b < 32 then Some(Shr(a, b)) else None
    case Div =>
      if b == 0 || (a == 0x8000_0000 && b == 0xffff_ffff) then None
      else Some(Wrap(Quotient(Signed(a), Signed(b))))
  }

  /** What an expression means when `.` is `here` and the labels are at `env`. */
  function Value(e: Expr, here: Word, env: Env): Option<Word> {
    match e
    case Imm(i) => Some(i)
    case Here => Some(here)
    case Sym(n) => Some(env(n))
    case Un(op, a) =>
      var v := Value(a, here, env);
      if v.None? then None else Some(UnValue(op, v.value))
    case Bin(op, l, r) =>
      var v, w := Value(l, here, env), Value(r, here, env);
      if v.None? || w.None? then None else BinValue(op, v.value, w.value)
  }

  // ----- Relocations -----

  /** struct reloc_node; a null relocation has no name. */
  datatype Relocation = Relocation(name: Option<string>, addr: Word, width: nat, negate: bool)

  type Labels = map<string, Word>

  /** Labels of this unit have their address in it, all others count as zero for now. */
  function LocalEnv(labels: Labels): Env {
    n => if n in labels then labels[n] else 0
  }

  /** Where labels end up: this unit is moved by `offset`, others are found in `exports`. */
  function FinalEnv(labels: Labels, offset: Word, exports: Env): Env {
    n => if n in labels then Plus(labels[n], offset) else exports(n)
  }

  /** The relocations of one expression, most recent first as the list is built. */
  function RelocList(e: Expr, labels: Labels, addr: Word, width: nat, negate: bool): seq<Relocation> {
    match e
    case Imm(_) => []
    case Here => [Relocation(None, addr, width, negate)]
    case Sym(n) => [Relocation(if n in labels then None else Some(n), addr, width, negate)]
    case Un(_, a) => RelocList(a, labels, addr, width, negate)
    case Bin(op, l, r) =>
      RelocList(r, labels, addr, width, if op.Sub? then !negate else negate)
      + RelocList(l, labels, addr, width, negate)
  }

  /** struct parse_data, as far as evaluation uses it. */
  class ParseData {
    const labels: Labels
    var relocs: seq<Relocation>

    constructor (labels: Labels)
      ensures this.labels == labels && relocs == []
    {
      this.labels := labels;
      relocs := [];
    }

    method AddRelocation(name: Option<string>, addr: Word, width: nat, negate: bool)
      modifies this
      ensures relocs == [Relocation(name, addr, width, negate)] + old(relocs)
    {
      relocs := [Relocation(name, addr, width, negate)] + relocs;
    }

    /** ce_eval with DO_RELOCATION, for an element at address `addr`. */
    method CeEval(e: Expr, addr: Word, width: nat, negate: bool) returns (result: Option<Word>)
      modifies this
      ensures result == Value(e, addr, LocalEnv(labels))
      ensures result.Some? ==> relocs == RelocList(e, labels, addr, width, negate) + old(relocs)
      decreases e
    {
      match e
      case Imm(i) => result := Some(i);
      case Here =>
        AddRelocation(None, addr, width, negate);
        result := Some(addr);
      case Sym(n) =>
        // a label found here needs no name in its relocation
        AddRelocation(if n in labels then None else Some(n), addr, width, negate);
        result := Some(if n in labels then labels[n] else 0);
      case Un(op, a) =>
        var v := CeEval(a, addr, width, negate);
        result := if v.None? then None else Some(UnValue(op, v.value));
      case Bin(op, l, r) =>
        var before := relocs;
        var v := CeEval(l, addr, width, negate);
        if v.None? { return None; }
        var mid := relocs;
        var w := CeEval(r, addr, width, if op.Sub? then !negate else negate);
        if w.None? { return None; }
        result := BinValue(op, v.value, w.value);
        var rneg := if op.Sub? then !negate else negate;
        assert relocs == RelocList(r, labels, addr, width, rneg)
                         + (RelocList(l, labels, addr, width, negate) + before);
    }
  }

  // ----- What the operators mean -----

  /** Unary minus and complement. */
  lemma UnaryLaws(e: Expr, here: Word, env: Env)
    ensures Value(Un(Minus1, e), here, env).Some? == Value(Un(Invert, e), here, env).Some? == Value(e, here, env).Some?
    ensures Value(e, here, env).Some? ==>
              && Signed(Value(Un(Minus1, e), here, env).value)
                 == (if Value(e, here, env).value == 0x8000_0000 then -0x8000_0000 else -Signed(Value(e, here, env).value))
              && Signed(Value(Un(Invert, e), here, env).value) == -Signed(Value(e, here, env).value) - 1
              && forall i | 0 <= i < 32 :: Bit(Value(Un(Invert, e), here, env).value, i) == !Bit(Value(e, here, env).value, i)
  {
    if Value(e, here, env).Some? {
      forall i | 0 <= i < 32
        ensures Bit(Not(Value(e, here, env).value), i) == !Bit(Value(e, here, env).value, i)
      {
        Pow2Of32();
        NotBit(Value(e, here, env).value, 32, i);
      }
      hide Bit;
    }
  }

  lemma {:induction false} NotBit(a: nat, n: nat, i: nat)
    requires a < Pow2(n) && i < n
    ensures Bit(Pow2(n) - 1 - a, i) == !Bit(a, i)
  {
    assert (Pow2(n) - 1 - a) / 2 == Pow2(n - 1) - 1 - a / 2;
    if i > 0 { NotBit(a / 2, n - 1, i - 1); }
  }

  /** Sums, differences and products are those of the integers, cut to the word. */
  lemma ArithmeticLaws(l: Expr, r: Expr, here: Word, env: Env)
    requires Value(l, here, env).Some? && Value(r, here, env).Some?
    ensures var a, b := Value(l, here, env).value, Value(r, here, env).value;
            && Value(Bin(Add, l, r), here, env) == Some((a + b) % 0x1_0000_0000)
            && Value(Bin(Sub, l, r), here, env) == Some((a - b) % 0x1_0000_0000)
            && Value(Bin(Mul, l, r), here, env) == Some((a * b) % 0x1_0000_0000)
  {
  }

  /** Bit by bit. */
  lemma BitLaws(l: Expr, r: Expr, here: Word, env: Env, i: nat)
    requires Value(l, here, env).Some? && Value(r, here, env).Some? && i < 32
    ensures var a, b := Value(l, here, env).value, Value(r, here, env).value;
            var u, v, w := Value(Bin(BitAnd, l, r), here, env), Value(Bin(BitOr, l, r), here, env), Value(Bin(BitXor, l, r), here, env);
            && u.Some? && v.Some? && w.Some?
            && Bit(u.value, i) == (Bit(a, i) && Bit(b, i))
            && Bit(v.value, i) == (Bit(a, i) || Bit(b, i))
            && Bit(w.value, i) == (Bit(a, i) != Bit(b, i))
  {
    var a, b := Value(l, here, env).value, Value(r, here, env).value;
    BitOpAt(AndOp, a, b, 32, i);
    BitOpAt(OrOp, a, b, 32, i);
    BitOpAt(XorOp, a, b, 32, i);
    hide Bit, BitOp;
  }

  /** Shifts multiply and divide by powers of two, rounding down: `>>>` the word, `>>` the
      signed number. From 32 on they have no value. */
  lemma ShiftLaws(l: Expr, r: Expr, here: Word, env: Env)
    requires Value(l, here, env).Some? && Value(r, here, env).Some?
    ensures var a, n := Value(l, here, env).value, Value(r, here, env).value;
            var u, v, w := Value(Bin(Lsh, l, r), here, env), Value(Bin(Rsh, l, r), here, env), Value(Bin(Rsha, l, r), here, env);
            && u.Some? == v.Some? == w.Some? == (n < 32)
            && (n < 32 ==> && u.value == a * Pow2(n) % 0x1_0000_0000
                           && v.value == a / Pow2(n)
                           && Signed(w.value) == Signed(a) / Pow2(n))
  {
    var a, n := Value(l, here, env).value, Value(r, here, env).value;
    if n < 32 {
      ShlValue(a, n);
      ShrValue(a, n);
      SarValue(a, n);
    }
    hide Pow2, Shl, Shr, Sar;
  }

  function Magnitude(x: int): nat {
    if x < 0 then 0 - x else x
  }

  /** Division is of magnitudes, rounding towards zero, with the sign of the product. */
  lemma DivisionLaw(l: Expr, r: Expr, here: Word, env: Env)
    requires Value(l, here, env).Some? && Value(r, here, env).Some?
    ensures var x, y := Signed(Value(l, here, env).value), Signed(Value(r, here, env).value);
            var v := Value(Bin(Div, l, r), here, env);
            && (v.Some? <==> y != 0 && !(x == -0x8000_0000 && y == -1))
            && (v.Some? ==> Magnitude(Signed(v.value)) == Magnitude(x) / Magnitude(y)
                            && ((x >= 0 && y > 0) || (x <= 0 && y < 0) ==> Signed(v.value) >= 0)
                            && ((x >= 0 && y < 0) || (x <= 0 && y > 0) ==> Signed(v.value) <= 0))
  {
    var a, b := Value(l, here, env).value, Value(r, here, env).value;
    if b != 0 && !(a == 0x8000_0000 && b == 0xffff_ffff) {
      QuotientIs(Signed(a), Signed(b));
      SignedWrap(Quotient(Signed(a), Signed(b)));
    }
    hide Quotient;
  }

  lemma QuotientIs(x: int, y: int)
    requires -0x8000_0000 <= x < 0x8000_0000 && -0x8000_0000 <= y < 0x8000_0000
    requires y != 0 && !(x == -0x8000_0000 && y == -1)
    ensures -0x8000_0000 <= Quotient(x, y) < 0x8000_0000
    ensures Magnitude(Quotient(x, y)) == Magnitude(x) / Magnitude(y)
    ensures ((x >= 0 && y > 0) || (x <= 0 && y < 0)) ==> Quotient(x, y) >= 0
    ensures ((x >= 0 && y < 0) || (x <= 0 && y > 0)) ==> Quotient(x, y) <= 0
  {
    QuotientAtMost(Magnitude(x), Magnitude(y));
    QuotientSign(x, y);
    hide Quotient;
  }

  lemma QuotientSign(x: int, y: int)
    requires y != 0
    ensures var q := Magnitude(x) / Magnitude(y);
            Quotient(x, y) == if (x >= 0) == (y > 0) then q else 0 - q
  {
  }

  lemma QuotientAtMost(x: nat, y: nat)
    requires y > 0
    ensures 0 <= x / y <= x && (y > 1 && x > 0 ==> x / y < x)
  {
    var q := x / y;
    assert x == q * y + x % y;
    if q > 0 { MulAtLeast(q, y); assert q * y == q + q * (y - 1); if y > 1 { MulAtLeast(q, y - 1); } }
  }

  // ----- Which expressions survive relocation -----

  /** How often the unit's offset goes into the value: the net relocation degree. */
  function Degree(e: Expr, labels: Labels): int {
    match e
    case Imm(_) => 0
    case Here => 1
    case Sym(n) => if n in labels then 1 else 0
    case Un(_, a) => Degree(a, labels)
    case Bin(Sub, l, r) => Degree(l, labels) - Degree(r, labels)
    case Bin(_, l, r) => Degree(l, labels) + Degree(r, labels)
  }

  predicate NoExternals(e: Expr, labels: Labels) {
    match e
    case Imm(_) => true
    case Here => true
    case Sym(n) => n in labels
    case Un(_, a) => NoExternals(a, labels)
    case Bin(_, l, r) => NoExternals(l, labels) && NoExternals(r, labels)
  }

  predicate Fixed(e: Expr, labels: Labels) {
    Degree(e, labels) == 0 && NoExternals(e, labels)
  }

  /** Only sums and differences move; external names are never subtracted. */
  predicate WellDegreed(e: Expr, labels: Labels, negate: bool) {
    match e
    case Imm(_) => true
    case Here => true
    case Sym(n) => n in labels || !negate
    case Un(_, a) => Fixed(a, labels) && WellDegreed(a, labels, negate)
    case Bin(Add, l, r) => WellDegreed(l, labels, negate) && WellDegreed(r, labels, negate)
    case Bin(Sub, l, r) => WellDegreed(l, labels, negate) && WellDegreed(r, labels, !negate)
    case Bin(_, l, r) =>
      && Fixed(l, labels) && Fixed(r, labels)
      && WellDegreed(l, labels, negate) && WellDegreed(r, labels, negate)
  }

  // ----- What the linker adds -----

  /** The linker's adjustment: a name's final address whatever its sign says, or plus or
      minus the object's offset. */
  function Adjustment(r: Relocation, offset: Word, exports: Env): int {
    match r.name
    case Some(n) => exports(n)
    case None => Sign(r.negate) * offset
  }

  function Total(rs: seq<Relocation>, offset: Word, exports: Env): int {
    if rs == [] then 0 else Adjustment(rs[0], offset, exports) + Total(rs[1..], offset, exports)
  }

  lemma {:induction false} TotalAppend(a: seq<Relocation>, b: seq<Relocation>, offset: Word, exports: Env)
    ensures Total(a + b, offset, exports) == Total(a, offset, exports) + Total(b, offset, exports)
  {
    if a == [] {
      assert a + b == b;
    } else {
      assert (a + b)[0] == a[0] && (a + b)[1..] == a[1..] + b;
      TotalAppend(a[1..], b, offset, exports);
    }
  }

  function Sign(negate: bool): int {
    if negate then -1 else 1
  }

  /** The relocations of both operands add up. */
  lemma TotalBin(e: Expr, labels: Labels, addr: Word, width: nat, negate: bool, offset: Word, exports: Env)
    requires e.Bin?
    ensures var rneg := if e.op.Sub? then !negate else negate;
            Total(RelocList(e, labels, addr, width, negate), offset, exports)
            == Total(RelocList(e.l, labels, addr, width, negate), offset, exports)
               + Total(RelocList(e.r, labels, addr, width, rneg), offset, exports)
  {
    var rneg := if e.op.Sub? then !negate else negate;
    TotalAppend(RelocList(e.r, labels, addr, width, rneg), RelocList(e.l, labels, addr, width, negate), offset, exports);
  }

  /** The adjustment that a degree calls for. */
  function Moved(negate: bool, degree: int, offset: int): int {
    Sign(negate) * (degree * offset)
  }

  lemma DegreesAdd(negate: bool, dl: int, dr: int, offset: int)
    ensures Moved(negate, dl, offset) + Moved(negate, dr, offset) == Moved(negate, dl + dr, offset)
    ensures Moved(negate, dl, offset) + Moved(!negate, dr, offset) == Moved(negate, dl - dr, offset)
    ensures Moved(negate, 0, offset) == 0 && Moved(negate, 1, offset) == Sign(negate) * offset
  {
    assert (dl + dr) * offset == dl * offset + dr * offset;
    assert (dl - dr) * offset == dl * offset - dr * offset;
  }

  /** Without external names the adjustments come to the degree times the offset. */
  lemma {:induction false} TotalIsDegree(
      e: Expr, labels: Labels, addr: Word, width: nat, negate: bool, offset: Word, exports: Env)
    requires NoExternals(e, labels)
    ensures Total(RelocList(e, labels, addr, width, negate), offset, exports)
         == Moved(negate, Degree(e, labels), offset)
  {
    hide Sign, Moved, Adjustment, Total, RelocList;
    match e
    case Un(_, a) =>
      TotalUn(e, labels, addr, width, negate, offset, exports);
      TotalIsDegree(a, labels, addr, width, negate, offset, exports);
    case Bin(op, l, r) =>
      TotalIsDegree(l, labels, addr, width, negate, offset, exports);
      TotalIsDegree(r, labels, addr, width, if op.Sub? then !negate else negate, offset, exports);
      TotalBin(e, labels, addr, width, negate, offset, exports);
      DegreesAdd(negate, Degree(l, labels), Degree(r, labels), offset);
      assert Degree(e, labels) == Degree(l, labels) + (if op.Sub? then 0 - Degree(r, labels) else Degree(r, labels));
      hide Degree, NoExternals;
    case _ =>
      TotalLeaf(e, labels, addr, width, negate, offset, exports);
  }

  lemma TotalUn(e: Expr, labels: Labels, addr: Word, width: nat, negate: bool, offset: Word, exports: Env)
    requires e.Un?
    ensures Total(RelocList(e, labels, addr, width, negate), offset, exports)
         == Total(RelocList(e.e, labels, addr, width, negate), offset, exports)
  {
    hide Total;
  }

  lemma TotalLeaf(e: Expr, labels: Labels, addr: Word, width: nat, negate: bool, offset: Word, exports: Env)
    requires e.Imm? || e.Here? || (e.Sym? && NoExternals(e, labels))
    ensures Total(RelocList(e, labels, addr, width, negate), offset, exports)
         == Moved(negate, Degree(e, labels), offset)
  {
    SingleTotal(None, addr, width, negate, offset, exports);
  }

  lemma SingleTotal(name: Option<string>, addr: Word, width: nat, negate: bool, offset: Word, exports: Env)
    ensures var r := Relocation(name, addr, width, negate);
            Total([r], offset, exports) == Adjustment(r, offset, exports)
  {
  }

  /** The adjustments account for the change in value, up to the word size. */
  predicate Accounts(local: Word, final: Word, negate: bool, total: int) {
    Wrap(Sign(negate) * (final - local)) == Wrap(total)
  }

  lemma Congruent(x: int, y: int) returns (k: int)
    ensures Wrap(x) == Wrap(y) ==> x == y + k * 0x1_0000_0000
  {
    k := x / 0x1_0000_0000 - y / 0x1_0000_0000;
  }

  // ----- What a value should move by, and what the linker adds -----

  /** The value in the unit, which factors and shift counts have for good. */
  function ValueIn(e: Expr, here: Word, labels: Labels): Word {
    var v := Value(e, here, LocalEnv(labels));
    if v.Some? then v.value else 0
  }

  function Factor(e: Expr, here: Word, labels: Labels): int {
    Pow2(ValueIn(e, here, labels))
  }

  /** How the movements of two operands make up that of an operation: `a` and `b` are the
      operands' values, `c` the power of two of the right one. */
  function Weigh(op: BinOp, steadyLeft: bool, a: int, b: int, c: int, dl: int, dr: int): int {
    match op
    case Add => dl + dr
    case Sub => dl - dr
    case Mul => if steadyLeft then a * dr else dl * b
    case Lsh => dl * c
    case _ => 0
  }

  lemma WeighScales(op: BinOp, steadyLeft: bool, a: int, b: int, c: int, dl: int, dr: int, o: int)
    ensures Weigh(op, steadyLeft, a, b, c, dl, dr) * o == Weigh(op, steadyLeft, a, b, c, dl * o, dr * o)
  {
    assert (a * dr) * o == a * (dr * o) && (dl * b) * o == (dl * o) * b && (dl * c) * o == (dl * o) * c;
  }

  /** The degree as it ought to be: under a unary operator a reference counts the other way, in
      a product as often as the other factor says. */
  function TrueDegree(e: Expr, here: Word, labels: Labels): int {
    match e
    case Imm(_) => 0
    case Here => 1
    case Sym(n) => if n in labels then 1 else 0
    case Un(_, a) => 0 - TrueDegree(a, here, labels)
    case Bin(op, l, r) =>
      Weigh(op, TrueDegree(l, here, labels) == 0,
            ValueIn(l, here, labels), ValueIn(r, here, labels), Factor(r, here, labels),
            TrueDegree(l, here, labels), TrueDegree(r, here, labels))
  }

  /** Linking does not move the value. */
  predicate Steady(e: Expr, here: Word, labels: Labels) {
    NoExternals(e, labels) && TrueDegree(e, here, labels) == 0
  }

  /** Sums, differences and unary operators over anything, products with a factor and left shifts
      by a count that linking does not move; other operators over two operands of that kind. */
  predicate Linear(e: Expr, here: Word, labels: Labels) {
    match e
    case Imm(_) => true
    case Here => true
    case Sym(_) => true
    case Un(_, a) => Linear(a, here, labels)
    case Bin(op, l, r) =>
      && Linear(l, here, labels) && Linear(r, here, labels)
      && match op
         case Add => true
         case Sub => true
         case Mul => Steady(l, here, labels) || Steady(r, here, labels)
         case Lsh => Steady(r, here, labels)
         case _ => Steady(l, here, labels) && Steady(r, here, labels)
  }

  /** How far linking ought to move the value. */
  function Delta(e: Expr, here: Word, labels: Labels, offset: Word, exports: Env): int {
    match e
    case Imm(_) => 0
    case Here => offset
    case Sym(n) => if n in labels then offset else exports(n)
    case Un(_, a) => 0 - Delta(a, here, labels, offset, exports)
    case Bin(op, l, r) =>
      Weigh(op, Steady(l, here, labels),
            ValueIn(l, here, labels), ValueIn(r, here, labels), Factor(r, here, labels),
            Delta(l, here, labels, offset, exports), Delta(r, here, labels, offset, exports))
  }

  /** How far the linker misses when the expression enters the field `times` times: every name is
      added once with the sign emitted for it, or without one, instead of as often as it counts.
      Operands that do not move should add nothing. */
  function Error(
      e: Expr, here: Word, labels: Labels, negate: bool, times: int, offset: Word, exports: Env): int
  {
    match e
    case Imm(_) => 0
    case Here => (Sign(negate) - times) * offset
    case Sym(n) => if n in labels then (Sign(negate) - times) * offset else (1 - times) * exports(n)
    case Un(_, a) => Error(a, here, labels, negate, 0 - times, offset, exports)
    case Bin(op, l, r) =>
      var (p, q) := SharesOf(op, l, r, here, labels, times);
      Error(l, here, labels, negate, p, offset, exports)
      + Error(r, here, labels, if op.Sub? then !negate else negate, q, offset, exports)
  }

  /** How often the operands enter. */
  function SharesOf(op: BinOp, l: Expr, r: Expr, here: Word, labels: Labels, times: int): (int, int) {
    Shares(op, Steady(l, here, labels), ValueIn(l, here, labels), ValueIn(r, here, labels), Factor(r, here, labels), times)
  }

  function Shares(op: BinOp, steadyLeft: bool, a: int, b: int, c: int, times: int): (int, int) {
    match op
    case Add => (times, times)
    case Sub => (times, 0 - times)
    case Mul => if steadyLeft then (0, times * a) else (times * b, 0)
    case Lsh => (times * c, 0)
    case _ => (0, 0)
  }

  lemma SharesAdd(op: BinOp, steadyLeft: bool, a: int, b: int, c: int, times: int, d: int, f: int)
    requires op.Mul? ==> if steadyLeft then d == 0 else f == 0
    requires op.Lsh? ==> f == 0
    ensures Shares(op, steadyLeft, a, b, c, times).0 * d + Shares(op, steadyLeft, a, b, c, times).1 * f
         == times * Weigh(op, steadyLeft, a, b, c, d, f)
  {
    match op
    case Add => assert times * (d + f) == times * d + times * f;
    case Sub => assert times * (d - f) == times * d + (0 - times) * f;
    case Mul => assert (times * a) * f == times * (a * f) && (times * b) * d == times * (d * b);
    case Lsh => assert (times * c) * d == times * (d * c);
    case _ =>
  }

  /** What is added with the wrong sign in a sum: references to this unit under an odd number of
      unary operators, which count them the emitted way, and external names whose true sign is
      minus. `negate` is the sign emitted, `flipped` the parity of the unary operators around. */
  function Wrong(e: Expr, labels: Labels, negate: bool, flipped: bool, offset: Word, exports: Env): int {
    match e
    case Imm(_) => 0
    case Here => if flipped then Sign(negate) * offset else 0
    case Sym(n) =>
      if n in labels then (if flipped then Sign(negate) * offset else 0)
      else if negate != flipped then exports(n) else 0
    case Un(_, a) => Wrong(a, labels, negate, !flipped, offset, exports)
    case Bin(op, l, r) =>
      Wrong(l, labels, negate, flipped, offset, exports)
      + Wrong(r, labels, if op.Sub? then !negate else negate, flipped, offset, exports)
  }

  /** Sums, differences and unary operators only. */
  predicate Additive(e: Expr) {
    match e
    case Un(_, a) => Additive(a)
    case Bin(op, l, r) => (op.Add? || op.Sub?) && Additive(l) && Additive(r)
    case _ => true
  }

  /** In a sum the error is twice what has the wrong sign. */
  lemma {:induction false} ErrorInSum(
      e: Expr, here: Word, labels: Labels, negate: bool, flipped: bool, offset: Word, exports: Env)
    requires Additive(e)
    ensures Linear(e, here, labels)
    ensures Error(e, here, labels, negate, Sign(negate != flipped), offset, exports)
         == 2 * Wrong(e, labels, negate, flipped, offset, exports)
  {
    match e
    case Un(_, a) => ErrorInSum(a, here, labels, negate, !flipped, offset, exports);
    case Bin(op, l, r) =>
      ErrorInSum(l, here, labels, negate, flipped, offset, exports);
      ErrorInSum(r, here, labels, if op.Sub? then !negate else negate, flipped, offset, exports);
    case _ =>
  }

  lemma {:induction false} DeltaIsDegree(e: Expr, here: Word, labels: Labels, offset: Word, exports: Env)
    requires NoExternals(e, labels)
    ensures Delta(e, here, labels, offset, exports) == TrueDegree(e, here, labels) * offset
  {
    hide ValueIn, Factor, LocalEnv, Value, Weigh;
    match e
    case Un(_, a) =>
      DeltaIsDegree(a, here, labels, offset, exports);
      Distribute(-1, TrueDegree(a, here, labels), 0, offset);
    case Bin(op, l, r) =>
      DeltaIsDegree(l, here, labels, offset, exports);
      DeltaIsDegree(r, here, labels, offset, exports);
      WeighScales(op, TrueDegree(l, here, labels) == 0,
                  ValueIn(l, here, labels), ValueIn(r, here, labels), Factor(r, here, labels),
                  TrueDegree(l, here, labels), TrueDegree(r, here, labels), offset);
    case _ =>
  }

  lemma Distribute(a: int, x: int, y: int, o: int)
    ensures (a * x + y) * o == a * (x * o) + y * o && (x * a) * o == (x * o) * a && (a * x) * o == a * (x * o)
    ensures 0 * o == 0
  {
    assert (a * x) * o == a * (x * o);
  }

  lemma SteadyStays(e: Expr, here: Word, labels: Labels, offset: Word, exports: Env)
    requires Steady(e, here, labels)
    ensures Delta(e, here, labels, offset, exports) == 0
  {
    DeltaIsDegree(e, here, labels, offset, exports);
    Distribute(0, 0, 0, offset);
  }

  lemma WrapIs(x: int) returns (q: int)
    ensures Wrap(x) == x - q * 0x1_0000_0000
  {
    q := x / 0x1_0000_0000;
  }

  /** Equal up to whole multiples of 2^32. */
  lemma SameWrap(x: int, y: int, k: int)
    requires x == y + k * 0x1_0000_0000
    ensures Wrap(x) == Wrap(y)
  {
    WrapMultiple(y, k);
  }

  lemma UnaryMoves(op: UnOp, a: Word, d: int)
    ensures UnValue(op, Wrap(a + d)) == Wrap(UnValue(op, a) - d)
  {
    var q := WrapIs(a + d);
    var p := WrapIs(0 - a);
    hide Wrap;
    if op.Minus1? {
      SameWrap(0 - Wrap(a + d), Wrap(0 - a) - d, q + p);
    } else {
      SameWrap(0xffff_ffff - Wrap(a + d), 0xffff_ffff - a - d, q);
      WrapSmall(0xffff_ffff - Wrap(a + d));
    }
  }

  lemma SumMoves(a: Word, d: int, b: Word, f: int)
    ensures Plus(Wrap(a + d), Wrap(b + f)) == Wrap(Plus(a, b) + (d + f))
    ensures Minus(Wrap(a + d), Wrap(b + f)) == Wrap(Minus(a, b) + (d - f))
  {
    var q := WrapIs(a + d);
    var r := WrapIs(b + f);
    var s := WrapIs(a + b);
    var t := WrapIs(a - b);
    hide Wrap;
    SameWrap(Wrap(a + d) + Wrap(b + f), Wrap(a + b) + (d + f), s - q - r);
    SameWrap(Wrap(a + d) - Wrap(b + f), Wrap(a - b) + (d - f), t - q + r);
  }

  lemma ProductMoves(k: Word, b: Word, f: int)
    ensures Times(k, Wrap(b + f)) == Wrap(Times(k, b) + k * f) && Times(Wrap(b + f), k) == Wrap(Times(b, k) + f * k)
  {
    var r := WrapIs(b + f);
    var t := WrapIs(k * b);
    hide Wrap;
    assert k * (b + f - r * 0x1_0000_0000) == k * b + k * f - k * r * 0x1_0000_0000;
    SameWrap(k * Wrap(b + f), Wrap(k * b) + k * f, t - k * r);
    assert k * b == b * k && k * f == f * k && k * Wrap(b + f) == Wrap(b + f) * k;
  }

  lemma ShiftMoves(a: Word, d: int, n: nat)
    ensures Shl(Wrap(a + d), n) == Wrap(Shl(a, n) + d * Pow2(n))
  {
    hide Wrap, Shl, Pow2;
    ShlValue(a, n);
    ShlValue(Wrap(a + d), n);
    var r := WrapIs(a + d);
    var t := WrapIs(a * Pow2(n));
    var p := Pow2(n);
    assert (a + d - r * 0x1_0000_0000) * p == a * p + d * p - r * p * 0x1_0000_0000;
    SameWrap(Wrap(a + d) * p, Wrap(a * p) + d * p, t - r * p);
  }

  /** Linking does move the value by that much. */
  lemma {:induction false} Moves(e: Expr, here: Word, labels: Labels, offset: Word, exports: Env)
    requires Linear(e, here, labels) && Value(e, here, LocalEnv(labels)).Some?
    ensures var final := Value(e, Plus(here, offset), FinalEnv(labels, offset, exports));
            && final.Some?
            && final.value == Wrap(Value(e, here, LocalEnv(labels)).value + Delta(e, here, labels, offset, exports))
  {
    hide BinValue, UnValue, Wrap, NoExternals, TrueDegree;
    match e
    case Imm(i) => WrapSmall(i);
    case Here =>
    case Sym(n) => if n !in labels { WrapSmall(exports(n)); }
    case Un(op, a) =>
      Moves(a, here, labels, offset, exports);
      UnaryMoves(op, Value(a, here, LocalEnv(labels)).value, Delta(a, here, labels, offset, exports));
    case Bin(op, l, r) =>
      Moves(l, here, labels, offset, exports);
      Moves(r, here, labels, offset, exports);
      var a, b := Value(l, here, LocalEnv(labels)).value, Value(r, here, LocalEnv(labels)).value;
      var d, f := Delta(l, here, labels, offset, exports), Delta(r, here, labels, offset, exports);
      if Steady(l, here, labels) { SteadyStays(l, here, labels, offset, exports); WrapSmall(a); }
      if Steady(r, here, labels) { SteadyStays(r, here, labels, offset, exports); WrapSmall(b); }
      hide Steady;
      BinaryMoves(op, a, d, b, f);
      if BinValue(op, a, b).Some? { WrapSmall(BinValue(op, a, b).value); }
  }

  lemma BinaryMoves(op: BinOp, a: Word, d: int, b: Word, f: int)
    requires BinValue(op, a, b).Some?
    ensures op.Add? ==> BinValue(op, Wrap(a + d), Wrap(b + f)) == Some(Wrap(BinValue(op, a, b).value + (d + f)))
    ensures op.Sub? ==> BinValue(op, Wrap(a + d), Wrap(b + f)) == Some(Wrap(BinValue(op, a, b).value + (d - f)))
    ensures op.Mul? ==> BinValue(op, a, Wrap(b + f)) == Some(Wrap(BinValue(op, a, b).value + a * f))
    ensures op.Mul? ==> BinValue(op, Wrap(a + d), b) == Some(Wrap(BinValue(op, a, b).value + d * b))
    ensures op.Lsh? ==> BinValue(op, Wrap(a + d), b) == Some(Wrap(BinValue(op, a, b).value + d * Pow2(b)))
  {
    SumMoves(a, d, b, f);
    ProductMoves(a, b, f);
    ProductMoves(b, a, d);
    if op.Lsh? { ShiftMoves(a, d, b); }
    hide Plus, Minus, Times, Shl, Wrap, Pow2;
  }

  /** What the linker adds is the movement, as often as the value counts, and the error. */
  lemma {:induction false} TotalIs(
      e: Expr, here: Word, labels: Labels, addr: Word, width: nat, negate: bool, times: int, offset: Word, exports: Env)
    requires Linear(e, here, labels)
    ensures Total(RelocList(e, labels, addr, width, negate), offset, exports)
         == times * Delta(e, here, labels, offset, exports) + Error(e, here, labels, negate, times, offset, exports)
  {
    hide Total, RelocList, Adjustment, ValueIn, Factor, Weigh, Shares, Steady;
    match e
    case Un(_, a) =>
      TotalUn(e, labels, addr, width, negate, offset, exports);
      TotalIs(a, here, labels, addr, width, negate, 0 - times, offset, exports);
      Opposite(times, Delta(a, here, labels, offset, exports));
    case Bin(op, l, r) =>
      TotalBin(e, labels, addr, width, negate, offset, exports);
      var (p, q) := SharesOf(op, l, r, here, labels, times);
      TotalIs(l, here, labels, addr, width, negate, p, offset, exports);
      TotalIs(r, here, labels, addr, width, if op.Sub? then !negate else negate, q, offset, exports);
      if Steady(l, here, labels) { SteadyStays(l, here, labels, offset, exports); }
      if Steady(r, here, labels) { SteadyStays(r, here, labels, offset, exports); }
      SharesAdd(op, Steady(l, here, labels),
                ValueIn(l, here, labels), ValueIn(r, here, labels), Factor(r, here, labels), times,
                Delta(l, here, labels, offset, exports), Delta(r, here, labels, offset, exports));
    case Imm(_) =>
      TotalAtom(e, labels, addr, width, negate, offset, exports);
      Opposite(times, 0);
    case Here =>
      TotalAtom(e, labels, addr, width, negate, offset, exports);
      Opposite(times, offset);
    case Sym(n) =>
      TotalAtom(e, labels, addr, width, negate, offset, exports);
      Opposite(times, if n in labels then offset else exports(n));
  }

  lemma Opposite(times: int, x: int)
    ensures (0 - times) * x == times * (0 - x) == 0 - times * x
    ensures (1 - times) * x == x - times * x && (-1 - times) * x == 0 - x - times * x
  {
  }

  lemma TotalAtom(e: Expr, labels: Labels, addr: Word, width: nat, negate: bool, offset: Word, exports: Env)
    requires e.Imm? || e.Here? || e.Sym?
    ensures Total(RelocList(e, labels, addr, width, negate), offset, exports)
         == if e.Imm? then 0 else if e.Sym? && e.name !in labels then exports(e.name) else Sign(negate) * offset
  {
    if !e.Imm? {
      var name := if e.Sym? && e.name !in labels then Some(e.name) else None;
      SingleTotal(name, addr, width, negate, offset, exports);
    }
  }

  ghost predicate Preserved(
      e: Expr, labels: Labels, addr: Word, width: nat, negate: bool, offset: Word, exports: Env)
  {
    var local := Value(e, addr, LocalEnv(labels));
    var final := Value(e, Plus(addr, offset), FinalEnv(labels, offset, exports));
    && local.Some? && final.Some?
    && Accounts(local.value, final.value, negate, Total(RelocList(e, labels, addr, width, negate), offset, exports))
  }

  lemma AccountsExactly(local: Word, delta: int, negate: bool, error: int)
    ensures Accounts(local, Wrap(local + delta), negate, Sign(negate) * delta + error) <==> Wrap(error) == 0
  {
    var q := WrapIs(local + delta);
    var s := Sign(negate);
    var moved := s * (Wrap(local + delta) - local);
    assert moved == s * delta - s * q * 0x1_0000_0000;
    var k := Congruent(moved, s * delta + error);
    hide Sign;
    if Wrap(moved) == Wrap(s * delta + error) {
      SameWrap(error, 0, 0 - k - s * q);
    }
    var j := WrapIs(error);
    if Wrap(error) == 0 {
      SameWrap(s * delta + error, moved, j + s * q);
    }
  }

  /** The exact condition: the adjustments make up the change in value if and only if the error
      vanishes modulo 2^32. */
  lemma PreservedExactly(
      e: Expr, labels: Labels, addr: Word, width: nat, negate: bool, offset: Word, exports: Env)
    requires Linear(e, addr, labels) && Value(e, addr, LocalEnv(labels)).Some?
    ensures Preserved(e, labels, addr, width, negate, offset, exports)
       <==> Wrap(Error(e, addr, labels, negate, Sign(negate), offset, exports)) == 0
    ensures Additive(e) ==>
              Error(e, addr, labels, negate, Sign(negate), offset, exports)
              == 2 * Wrong(e, labels, negate, false, offset, exports)
  {
    hide Total, RelocList, Value, Accounts, Linear, Delta, Error, Wrong, Wrap, Additive;
    Moves(e, addr, labels, offset, exports);
    TotalIs(e, addr, labels, addr, width, negate, Sign(negate), offset, exports);
    AccountsExactly(Value(e, addr, LocalEnv(labels)).value, Delta(e, addr, labels, offset, exports), negate,
                    Error(e, addr, labels, negate, Sign(negate), offset, exports));
    if Additive(e) { ErrorInSum(e, addr, labels, negate, false, offset, exports); }
  }

  /** Well-degreed expressions are linked without error. */
  lemma {:induction false} WellDegreedIsRight(
      e: Expr, here: Word, labels: Labels, negate: bool, offset: Word, exports: Env)
    requires WellDegreed(e, labels, negate)
    ensures Linear(e, here, labels) && TrueDegree(e, here, labels) == Degree(e, labels)
    ensures Error(e, here, labels, negate, Sign(negate), offset, exports) == 0
  {
    hide ValueIn, Factor;
    match e
    case Un(_, a) =>
      WellDegreedIsRight(a, here, labels, negate, offset, exports);
      FixedIsRight(a, here, labels, negate, 0 - Sign(negate), offset, exports);
    case Bin(op, l, r) =>
      WellDegreedIsRight(l, here, labels, negate, offset, exports);
      WellDegreedIsRight(r, here, labels, if op.Sub? then !negate else negate, offset, exports);
      if !op.Add? && !op.Sub? {
        var (p, q) := SharesOf(op, l, r, here, labels, Sign(negate));
        FixedIsRight(l, here, labels, negate, p, offset, exports);
        FixedIsRight(r, here, labels, negate, q, offset, exports);
      }
    case _ =>
  }

  /** A fixed expression is linked without error however often it enters. */
  lemma FixedIsRight(e: Expr, here: Word, labels: Labels, negate: bool, times: int, offset: Word, exports: Env)
    requires Fixed(e, labels) && Linear(e, here, labels) && TrueDegree(e, here, labels) == 0
    ensures Error(e, here, labels, negate, times, offset, exports) == 0
  {
    hide Total, RelocList, Linear, TrueDegree, Error, Delta;
    DeltaIsDegree(e, here, labels, offset, exports);
    Distribute(0, 0, 0, offset);
    Distribute(0, 0, 0, times);
    TotalIs(e, here, labels, 0, 0, negate, times, offset, exports);
    TotalIsDegree(e, labels, 0, 0, negate, offset, exports);
  }

  /** Relocation preserves meaning: the adjustments make up exactly the difference between
      an expression's value in its unit and its value at final addresses. */
  lemma RelocationPreservesMeaning(
      e: Expr, labels: Labels, addr: Word, width: nat, negate: bool, offset: Word, exports: Env)
    requires WellDegreed(e, labels, negate)
    requires Value(e, addr, LocalEnv(labels)).Some?
    ensures var final := Value(e, Plus(addr, offset), FinalEnv(labels, offset, exports));
            && final.Some?
            && Accounts(Value(e, addr, LocalEnv(labels)).value, final.value, negate,
                        Total(RelocList(e, labels, addr, width, negate), offset, exports))
  {
    hide Total, RelocList, Value, Accounts, WellDegreed, Linear, Error;
    WellDegreedIsRight(e, addr, labels, negate, offset, exports);
    PreservedExactly(e, labels, addr, width, negate, offset, exports);
  }

  /** A fixed expression is worth the same before and after linking, and adds nothing. */
  lemma FixedKeepsValue(
      e: Expr, labels: Labels, addr: Word, width: nat, negate: bool, offset: Word, exports: Env)
    requires Fixed(e, labels) && Preserved(e, labels, addr, width, negate, offset, exports)
    ensures Total(RelocList(e, labels, addr, width, negate), offset, exports) == 0
    ensures Value(e, Plus(addr, offset), FinalEnv(labels, offset, exports)) == Value(e, addr, LocalEnv(labels))
  {
    hide Total, RelocList, Value, Degree, NoExternals, FinalEnv, LocalEnv;
    TotalIsDegree(e, labels, addr, width, negate, offset, exports);
    assert Degree(e, labels) * offset == 0;
  }

  lemma EmptyTotal(offset: Word, exports: Env)
    ensures Total([], offset, exports) == 0
  {
  }

  /** A subtracted external name is added instead: right only if twice its address vanishes. */
  lemma SubtractedExternal(
      k: Word, n: string, labels: Labels, addr: Word, width: nat, offset: Word, exports: Env)
    requires n !in labels
    ensures Preserved(Bin(Sub, Imm(k), Sym(n)), labels, addr, width, false, offset, exports)
       <==> Wrap(2 * exports(n)) == 0
  {
    hide Preserved;
    var e := Bin(Sub, Imm(k), Sym(n));
    assert Value(Imm(k), addr, LocalEnv(labels)).Some? && Value(Sym(n), addr, LocalEnv(labels)).Some?;
    assert Linear(Imm(k), addr, labels) && Linear(Sym(n), addr, labels);
    PreservedExactly(e, labels, addr, width, false, offset, exports);
    assert Error(Imm(k), addr, labels, false, 1, offset, exports) == 0;
    assert Error(Sym(n), addr, labels, true, -1, offset, exports) == 2 * exports(n);
  }

  /** Negating `.` emits its relocation unnegated: right only if twice the offset vanishes. */
  lemma NegatedLabel(labels: Labels, addr: Word, width: nat, offset: Word, exports: Env)
    ensures Preserved(Un(Minus1, Here), labels, addr, width, false, offset, exports) <==> Wrap(2 * offset) == 0
  {
    hide Preserved;
    var e := Un(Minus1, Here);
    assert Value(Here, addr, LocalEnv(labels)).Some? && Linear(Here, addr, labels);
    PreservedExactly(e, labels, addr, width, false, offset, exports);
    assert Error(Here, addr, labels, false, -1, offset, exports) == 2 * offset;
  }

  /** A product adds its operand once: of a constant times anything linear the error is the
      movement missing, and the operand's own error. */
  lemma ProductError(k: Word, r: Expr, labels: Labels, addr: Word, offset: Word, exports: Env)
    requires Linear(Bin(Mul, Imm(k), r), addr, labels)
    ensures Linear(r, addr, labels)
    ensures Error(Bin(Mul, Imm(k), r), addr, labels, false, 1, offset, exports)
         == (1 - k) * Delta(r, addr, labels, offset, exports) + Error(r, addr, labels, false, 1, offset, exports)
  {
    assert Value(Imm(k), addr, LocalEnv(labels)) == Some(k);
    assert Linear(Imm(k), addr, labels) && Steady(Imm(k), addr, labels);
    assert Error(Imm(k), addr, labels, false, 0, offset, exports) == 0;
    assert Error(Bin(Mul, Imm(k), r), addr, labels, false, 1, offset, exports)
        == Error(r, addr, labels, false, k, offset, exports);
    hide Error, Delta, Linear, Value;
    TotalIs(r, addr, labels, 0, 0, false, 1, offset, exports);
    TotalIs(r, addr, labels, 0, 0, false, k, offset, exports);
    Opposite(k, Delta(r, addr, labels, offset, exports));
  }

  lemma ConstantTimes(
      k: Word, r: Expr, labels: Labels, addr: Word, width: nat, offset: Word, exports: Env)
    requires Linear(r, addr, labels) && Value(r, addr, LocalEnv(labels)).Some?
    ensures Preserved(Bin(Mul, Imm(k), r), labels, addr, width, false, offset, exports)
       <==> Wrap((1 - k) * Delta(r, addr, labels, offset, exports) + Error(r, addr, labels, false, 1, offset, exports)) == 0
  {
    hide Preserved;
    var e := Bin(Mul, Imm(k), r);
    assert Value(Imm(k), addr, LocalEnv(labels)) == Some(k);
    assert Linear(Imm(k), addr, labels) && Steady(Imm(k), addr, labels);
    PreservedExactly(e, labels, addr, width, false, offset, exports);
    ProductError(k, r, labels, addr, offset, exports);
  }

  /** The smallest such failure: `2 * .` is linked right only in a unit that does not move. */
  lemma DoubledHere(labels: Labels, addr: Word, width: nat, offset: Word, exports: Env)
    ensures Preserved(Bin(Mul, Imm(2), Here), labels, addr, width, false, offset, exports) <==> offset == 0
  {
    hide Preserved;
    ConstantTimes(2, Here, labels, addr, width, offset, exports);
    assert Error(Here, addr, labels, false, 1, offset, exports) == 0 * offset;
  }
}
