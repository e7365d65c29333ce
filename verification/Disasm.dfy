/** print_disassembly (src/asm.c) and the grammar that reads its output back
    (src/parser.y), on tokens. */
module Disasm {
  import opened Options
  import opened Words
  import opened Isa
  import opened Syntax

  datatype Token =
    | REG(n: RegNo)
    | INT(i: nat)          // decimal numeral
    | BITS(w: Word)        // hexadecimal numeral
    | OP(op: Op)           // a native operator; `+` and `-` also have other roles
    | GT | LE
    | TILDE
    | LBRACKET | RBRACKET
    | LARROW | RARROW
    | NEWLINE

  const PLUS := OP(OpAdd)
  const MINUS := OP(OpSub)

  // ----- Printing -----

  /** A signed decimal or a 32-bit hexadecimal numeral. */
  function Numeral(v: Word, hex: bool): seq<Token> {
    if hex then [BITS(v)]
    else if v < 0x8000_0000 then [INT(v)]
    else [MINUS, INT(0x1_0000_0000 - v)]
  }

  /** Which operands to print, the operator, and the first operand. */
  datatype Layout = Layout(show1: bool, show2: bool, show3: bool, op: Token, first: seq<Token>)

  function Count(a: bool, b: bool, c: bool): nat {
    (if a then 1 else 0) + (if b then 1 else 0) + (if c then 1 else 0)
  }

  /** The edge cases for an instruction whose type could not be inferred from what is shown. */
  function Disambiguate(i: Insn, l: Layout): Layout
    requires i.WellFormed() && i.Small?
  {
    var all := l.(show1 := true, show2 := true, show3 := true);
    if i.op.OpSub? && i.p == 1 then all
    else if i.p == 0 then
      (if i.op.OpSub? && i.x == 0 then l.(first := [], show3 := true)
       else if i.op.OpOrn? && i.x == 0 then l.(op := TILDE, first := [], show3 := true)
       else if i.op.OpOr? && (if i.x != 0 then i.y == 0 && i.imm != 0 else i.y != 0) then all
       else l)
    else if i.p == 1 then
      (if !i.op.OpOr? && !i.op.OpAdd? && i.y == 0 then l.(show1 := true, show2 := true)
       else if i.x == 0 || i.y != 0 || i.op.OpOr? then all
       else l)
    else
      (if i.op.OpSub? && i.imm == 0 then l.(first := [])
       else if i.op.OpOrn? && i.imm == 0 then l.(op := TILDE, first := [])
       else if !i.op.OpOr? && i.y == 0 then l.(show1 := true, show2 := true)
       else if i.imm == 0 || (i.op.OpOr? && i.x == 0) then all
       else l)
  }

  function SmallLayout(i: Insn, verbose: bool): Layout
    requires i.WellFormed() && i.Small?
  {
    var mid := if i.p == 0 then i.y else if i.p == 2 then i.x else 0;
    var show1 := verbose || (if i.p > 1 then i.imm != 0 else i.x != 0) || !i.op.OpOr?;
    var show2 := verbose || (if i.p == 1 then i.imm != 0 else mid != 0) || !i.op.OpOr?;
    var show3 := verbose || (if i.p == 0 then i.imm != 0 else i.y != 0);
    var first := if i.p == 2 then Numeral(SignExtend12(i.imm), verbose) else [REG(i.x)];
    var l := Layout(show1, show2, show3, OP(i.op), first);
    var m := if Count(show1, show2, show3) < 3 then Disambiguate(i, l) else l;
    if !m.show1 && !m.show2 && !m.show3 && i.p != 0 then m.(show1 := true, show2 := true, show3 := true) else m
  }

  /** The combinations print_disassembly has a format for; the others are fatal. */
  function Arrange(l: Layout, second: seq<Token>, third: seq<Token>): Option<seq<Token>> {
    match (l.show1, l.show2, l.show3)
    case (false, false, false) => Some([INT(0)])
    case (false, false, true) => Some(third)
    case (false, true, true) => Some(second + [PLUS] + third)
    case (true, false, false) => Some(l.first)
    case (true, true, false) => Some(l.first + [l.op] + second)
    case (true, true, true) => Some(l.first + [l.op] + second + [PLUS] + third)
    case _ => None
  }

  function PrintRhs(i: Insn, verbose: bool): Option<seq<Token>>
    requires i.WellFormed()
  {
    if i.Medium? then
      var l := Layout(false, verbose || i.x != 0, true, PLUS, []);
      Arrange(l, [REG(i.x)], [BITS(SignExtend20(i.imm))])
    else
      var k := Numeral(SignExtend12(i.imm), verbose);
      var l := SmallLayout(i, verbose);
      if i.p == 0 then Arrange(l, [REG(i.y)], k)
      else if i.p == 1 then Arrange(l, k, [REG(i.y)])
      else Arrange(l, [REG(i.x)], [REG(i.y)])
  }

  function Bracket(deref: bool, ts: seq<Token>): seq<Token> {
    if deref then [LBRACKET] + ts + [RBRACKET] else ts
  }

  function PrintInsn(i: Insn, verbose: bool): Option<seq<Token>>
    requires i.WellFormed()
  {
    var rhs := PrintRhs(i, verbose);
    if rhs.None? then None
    else Some(Bracket(i.dd == 2, [REG(i.z)]) + [if i.dd == 1 then RARROW else LARROW]
              + Bracket(i.dd % 2 == 1, rhs.value))
  }

  // ----- Parsing -----

  /** A constant: a numeral under any number of prefix operators. */
  function ParseAtom(ts: seq<Token>): Option<(Const, seq<Token>)> {
    if ts == [] then None
    else match ts[0]
      case INT(n) => Some((Const(Wrap(n), false), ts[1..]))
      case BITS(w) => Some((Const(w, true), ts[1..]))
      case TILDE =>
        var a := ParseAtom(ts[1..]);
        if a.None? then None else Some((Const(Not(a.value.0.v), a.value.0.bits), a.value.1))
      case OP(op) =>
        if !op.OpSub? then None
        else
          var a := ParseAtom(ts[1..]);
          if a.None? then None else Some((Const(Minus(0, a.value.0.v), a.value.0.bits), a.value.1))
      case _ => None
  }

  function ParseBinop(t: Token): Option<Binop> {
    match t
    case OP(op) => Some(Native(op))
    case GT => Some(Greater)
    case LE => Some(LessEqual)
    case _ => None
  }

  /** After `x binop`. */
  function ParseAfterReg(x: RegNo, op: Binop, ts: seq<Token>): Option<Rhs> {
    if ts != [] && ts[0].REG? then
      if |ts| == 1 then Some(RegReg(x, op, ts[0].n))
      else if ts[1] != PLUS && ts[1] != MINUS then None
      else
        var a := ParseAtom(ts[2..]);
        if a.None? || a.value.1 != [] then None
        else Some(RegRegConst(x, op, ts[0].n, ts[1] == MINUS, a.value.0))
    else
      var a := ParseAtom(ts);
      if a.None? then None
      else if a.value.1 == [] then Some(RegConst(x, op, a.value.0))
      else if |a.value.1| == 2 && a.value.1[0] == PLUS && a.value.1[1].REG? then
        Some(RegConstReg(x, op, a.value.0, a.value.1[1].n))
      else None
  }

  /** After a prefix operator and a register. */
  function ParseAfterUnary(op: Unop, x: RegNo, ts: seq<Token>): Option<Rhs> {
    if ts == [] then Some(Unary(op, x))
    else if |ts| == 2 && ts[0] == PLUS && ts[1].REG? then Some(UnaryReg(op, x, ts[1].n))
    else if ts[0] != PLUS && ts[0] != MINUS then None
    else
      var a := ParseAtom(ts[1..]);
      if a.None? || a.value.1 != [] then None
      else Some(UnaryConst(op, x, ts[0] == MINUS, a.value.0))
  }

  /** After a constant. */
  function ParseAfterConst(k: Const, ts: seq<Token>): Option<Rhs> {
    if ts == [] then Some(JustConst(k))
    else
      var op := ParseBinop(ts[0]);
      if op.None? || |ts| == 1 || !ts[1].REG? then None
      else if |ts| == 2 then Some(ConstReg(k, op.value, ts[1].n))
      else if |ts| == 4 && ts[2] == PLUS && ts[3].REG? then Some(ConstRegReg(k, op.value, ts[1].n, ts[3].n))
      else None
  }

  /** rhs_plain. */
  function ParseRhs(ts: seq<Token>): Option<Rhs> {
    if ts == [] then None
    else if ts[0].REG? then
      if |ts| == 1 then Some(Rhs.Reg(ts[0].n))
      else
        var op := ParseBinop(ts[1]);
        if op.None? then None else ParseAfterReg(ts[0].n, op.value, ts[2..])
    else if (ts[0] == TILDE || ts[0] == MINUS) && |ts| > 1 && ts[1].REG? then
      ParseAfterUnary(if ts[0] == TILDE then Complement else Negate, ts[1].n, ts[2..])
    else
      var a := ParseAtom(ts);
      if a.None? then None else ParseAfterConst(a.value.0, a.value.1)
  }

  /** lhs arrow rhs. */
  function ParseStmt(ts: seq<Token>): Option<Stmt> {
    var deref := ts != [] && ts[0] == LBRACKET;
    var at := if deref then 3 else 1;
    if |ts| < at + 2 || !ts[at - (if deref then 2 else 1)].REG? || (deref && ts[2] != RBRACKET) then None
    else if ts[at] != LARROW && ts[at] != RARROW then None
    else
      var z := ts[at - (if deref then 2 else 1)].n;
      var body := ts[at + 1..];
      var bracketed := body[0] == LBRACKET && body[|body| - 1] == RBRACKET && |body| > 2;
      var rhs := ParseRhs(if bracketed then body[1..|body| - 1] else body);
      if rhs.None? then None else Some(Stmt(z, deref, ts[at] == RARROW, bracketed, rhs.value))
  }

  /** One line of assembly to an instruction word. */
  function AssembleLine(ts: seq<Token>): Option<Word> {
    var t := ParseStmt(ts);
    if t.None? then None
    else
      var i := AssembleStmt(t.value);
      if i.None? then None else Some(Encode(i.value))
  }

  // ----- The grammar, read the other way -----

  /** A constant as it is written: a numeral under prefix operators. */
  datatype Atom = Decimal(n: nat) | Hexadecimal(w: Word) | Inverted(a: Atom) | Negated(a: Atom)

  function AtomTokens(a: Atom): seq<Token> {
    match a
    case Decimal(n) => [INT(n)]
    case Hexadecimal(w) => [BITS(w)]
    case Inverted(b) => [TILDE] + AtomTokens(b)
    case Negated(b) => [MINUS] + AtomTokens(b)
  }

  /** Its value, and whether it counts as a bit string. */
  function AtomConst(a: Atom): Const {
    match a
    case Decimal(n) => Const(n % 0x1_0000_0000, false)
    case Hexadecimal(w) => Const(w, true)
    case Inverted(b) => Const(0xffff_ffff - AtomConst(b).v, AtomConst(b).bits)
    case Negated(b) => Const((0x1_0000_0000 - AtomConst(b).v) % 0x1_0000_0000, AtomConst(b).bits)
  }

  lemma {:induction false} AtomReads(a: Atom, rest: seq<Token>)
    ensures ParseAtom(AtomTokens(a) + rest) == Some((AtomConst(a), rest))
  {
    hide Wrap, Minus, Not;
    match a
    case Decimal(n) =>
      AtomOfToken(INT(n), rest);
      WrapIsRemainder(n);
    case Hexadecimal(w) => AtomOfToken(BITS(w), rest);
    case Inverted(b) =>
      AtomReads(b, rest);
      PrefixValues(AtomConst(b).v);
      assert (AtomTokens(a) + rest)[0] == TILDE && (AtomTokens(a) + rest)[1..] == AtomTokens(b) + rest;
    case Negated(b) =>
      AtomReads(b, rest);
      PrefixValues(AtomConst(b).v);
      assert (AtomTokens(a) + rest)[0] == MINUS && (AtomTokens(a) + rest)[1..] == AtomTokens(b) + rest;
  }

  lemma WrapIsRemainder(n: int)
    ensures Wrap(n) == n % 0x1_0000_0000
  {
  }

  lemma PrefixValues(v: Word)
    ensures Not(v) == 0xffff_ffff - v && Minus(0, v) == (0x1_0000_0000 - v) % 0x1_0000_0000
  {
  }

  function OpToken(op: Binop): Token {
    match op
    case Native(o) => OP(o)
    case Greater => GT
    case LessEqual => LE
  }

  function UnopToken(op: Unop): Token {
    if op.Complement? then TILDE else MINUS
  }

  function SignToken(minus: bool): Token {
    if minus then MINUS else PLUS
  }

  /** How each production of rhs_plain is written, with `k` for its constant. */
  function RhsTokens(e: Rhs, k: seq<Token>): seq<Token> {
    match e
    case RegRegConst(x, op, y, minus, _) => [REG(x), OpToken(op), REG(y), SignToken(minus)] + k
    case RegReg(x, op, y) => [REG(x), OpToken(op), REG(y)]
    case Reg(x) => [REG(x)]
    case RegConstReg(x, op, _, y) => [REG(x), OpToken(op)] + k + [PLUS, REG(y)]
    case RegConst(x, op, _) => [REG(x), OpToken(op)] + k
    case ConstRegReg(_, op, x, y) => k + [OpToken(op), REG(x), PLUS, REG(y)]
    case ConstReg(_, op, x) => k + [OpToken(op), REG(x)]
    case JustConst(_) => k
    case UnaryConst(op, x, minus, _) => [UnopToken(op), REG(x), SignToken(minus)] + k
    case UnaryReg(op, x, y) => [UnopToken(op), REG(x), PLUS, REG(y)]
    case Unary(op, x) => [UnopToken(op), REG(x)]
  }

  /** `k` writes the constant of the form, if it has one. */
  predicate Writes(k: Atom, e: Rhs) {
    e.RegReg? || e.Reg? || e.UnaryReg? || e.Unary? || e.k == AtomConst(k)
  }

  /** `[Z] <- rhs` and so on. */
  function StmtTokens(t: Stmt, k: Atom): seq<Token> {
    Bracket(t.lhsDeref, [REG(t.z)]) + [if t.right then RARROW else LARROW]
    + Bracket(t.rhsDeref, RhsTokens(t.rhs, AtomTokens(k)))
  }

  lemma AtomStarts(a: Atom)
    ensures AtomTokens(a) != [] && !AtomTokens(a)[0].REG? && AtomTokens(a)[0] != LBRACKET
    ensures AtomTokens(a)[0] in {TILDE, MINUS} ==> |AtomTokens(a)| > 1 && !AtomTokens(a)[1].REG?
  {
    match a
    case Inverted(b) => AtomStarts(b);
    case Negated(b) => AtomStarts(b);
    case _ =>
  }

  lemma AtomEnds(a: Atom)
    ensures ParseAtom(AtomTokens(a)) == Some((AtomConst(a), []))
  {
    AtomReads(a, []);
    assert AtomTokens(a) + [] == AtomTokens(a);
  }

  /** Whatever is written is read as what was meant, for every production, operator and constant. */
  lemma RhsReads(e: Rhs, k: Atom)
    requires Writes(k, e)
    ensures ParseRhs(RhsTokens(e, AtomTokens(k))) == Some(e)
  {
    hide ParseAtom, AtomTokens, AtomConst;
    var a, ts := AtomTokens(k), RhsTokens(e, AtomTokens(k));
    AtomEnds(k);
    AtomStarts(k);
    match e {
      case RegRegConst(x, op, y, minus, _) =>
        assert ts[2..] == [REG(y), SignToken(minus)] + a && ts[2..][2..] == a;
      case RegConstReg(x, op, _, y) =>
        AtomReads(k, [PLUS, REG(y)]);
        assert ts[2..] == a + [PLUS, REG(y)];
      case RegConst(x, op, _) =>
        assert ts[2..] == a;
      case ConstRegReg(_, op, x, y) =>
        AtomReads(k, [OpToken(op), REG(x), PLUS, REG(y)]);
      case ConstReg(_, op, x) =>
        AtomReads(k, [OpToken(op), REG(x)]);
      case UnaryConst(op, x, minus, _) =>
        assert ts[2..] == [SignToken(minus)] + a && ts[2..][1..] == a;
      case _ =>
    }
  }

  /** Every statement is read as it is written: brackets, arrow and right-hand side. */
  lemma StmtReads(t: Stmt, k: Atom)
    requires Writes(k, t.rhs)
    ensures ParseStmt(StmtTokens(t, k)) == Some(t)
  {
    hide ParseRhs, RhsTokens, Bracket;
    var rhs := RhsTokens(t.rhs, AtomTokens(k));
    RhsReads(t.rhs, k);
    ParsedStart(rhs);
    BracketedBody(t.rhsDeref, rhs);
    ParseParts(t.z, t.lhsDeref, if t.right then RARROW else LARROW, Bracket(t.rhsDeref, rhs));
  }

  /** A line assembles exactly when its arrow and its constant are acceptable, and then to a word
      that does what the statement says wherever that says anything and its constant survives. */
  lemma LineMeans(t: Stmt, k: Atom, s: State)
    requires Writes(k, t.rhs)
    ensures AssembleLine(StmtTokens(t, k)).Some? <==> ArrowOk(t) && Accepted(Choose(t.rhs))
    ensures AssembleLine(StmtTokens(t, k)).Some? && s.regs[0] == 0 && Survives(Choose(t.rhs))
            && HasMeaning(t.rhs, s.regs[P := Plus(s.regs[P], 1)]) ==>
              Execute(s, Decode(AssembleLine(StmtTokens(t, k)).value)) == Effect(t, s)
  {
    hide StmtTokens, ParseStmt, Choose, Accepted, ToInsn, Encode, Decode, Execute, Effect, Survives, HasMeaning, ArrowOk;
    StmtReads(t, k);
    AssemblesWhen(t);
    if AssembleStmt(t).Some? && s.regs[0] == 0 && Survives(Choose(t.rhs))
       && HasMeaning(t.rhs, s.regs[P := Plus(s.regs[P], 1)]) {
      StatementMeaning(t, s);
    }
  }

  lemma AssemblesWhen(t: Stmt)
    ensures AssembleStmt(t).Some? <==> ArrowOk(t) && Accepted(Choose(t.rhs))
  {
    hide Choose, Accepted, ToInsn;
  }

  // ----- Round trip, one right-hand side -----

  lemma AtomOfNumeral(v: Word, hex: bool, rest: seq<Token>)
    ensures ParseAtom(Numeral(v, hex) + rest) == Some((Const(v, hex), rest))
  {
    if hex || v < 0x8000_0000 {
      AtomOfToken(Numeral(v, hex)[0], rest);
    } else {
      AtomOfNegated(0x1_0000_0000 - v, rest);
      WrapMultiple(v - 0x1_0000_0000, 1);
      WrapSmall(v);
      hide ParseAtom;
    }
  }

  lemma AtomOfToken(t: Token, rest: seq<Token>)
    requires t.INT? || t.BITS?
    ensures ParseAtom([t] + rest) == Some((if t.INT? then Const(Wrap(t.i), false) else Const(t.w, true), rest))
  {
    var ts := [t] + rest;
    assert ts[0] == t && ts[1..] == rest;
  }

  lemma AtomOfNegated(m: Word, rest: seq<Token>)
    ensures ParseAtom([MINUS, INT(m)] + rest) == Some((Const(Minus(0, m), false), rest))
  {
    hide Minus;
    var ts := [MINUS, INT(m)] + rest;
    assert ts[0] == MINUS && ts[1..] == [INT(m)] + rest;
    AtomOfToken(INT(m), rest);
  }

  function Joined(l: Layout, second: seq<Token>, third: seq<Token>): seq<Token> {
    l.first + [l.op] + second + [PLUS] + third
  }

  lemma ParseRegForms(x: RegNo, op: Op, y: RegNo, v: Word, hex: bool)
    ensures ParseRhs([REG(x)]) == Some(Rhs.Reg(x))
    ensures ParseRhs([REG(x)] + [OP(op)] + [REG(y)]) == Some(RegReg(x, Native(op), y))
    ensures ParseRhs([REG(x)] + [OP(op)] + [REG(y)] + [PLUS] + Numeral(v, hex))
         == Some(RegRegConst(x, Native(op), y, false, Const(v, hex)))
  {
    hide ParseAtom, Numeral;
    var ts := [REG(x)] + [OP(op)] + [REG(y)] + [PLUS] + Numeral(v, hex);
    assert ts[2..] == [REG(y), PLUS] + Numeral(v, hex);
    assert ts[2..][2..] == Numeral(v, hex) + [];
    AtomOfNumeral(v, hex, []);
  }

  lemma ParseRegConstForms(x: RegNo, op: Op, y: RegNo, v: Word, hex: bool)
    ensures ParseRhs([REG(x)] + [OP(op)] + Numeral(v, hex)) == Some(RegConst(x, Native(op), Const(v, hex)))
    ensures ParseRhs([REG(x)] + [OP(op)] + Numeral(v, hex) + [PLUS] + [REG(y)])
         == Some(RegConstReg(x, Native(op), Const(v, hex), y))
  {
    hide ParseAtom;
    var ts := [REG(x)] + [OP(op)] + Numeral(v, hex);
    assert ts[2..] == Numeral(v, hex) + [];
    AtomOfNumeral(v, hex, []);
    var us := [REG(x)] + [OP(op)] + Numeral(v, hex) + [PLUS] + [REG(y)];
    assert us[2..] == Numeral(v, hex) + [PLUS, REG(y)];
    AtomOfNumeral(v, hex, [PLUS, REG(y)]);
  }

  lemma ParseConstForms(v: Word, hex: bool, op: Op, x: RegNo, y: RegNo)
    ensures ParseRhs(Numeral(v, hex)) == Some(JustConst(Const(v, hex)))
    ensures ParseRhs(Numeral(v, hex) + [OP(op)] + [REG(x)]) == Some(ConstReg(Const(v, hex), Native(op), x))
    ensures ParseRhs(Numeral(v, hex) + [OP(op)] + [REG(x)] + [PLUS] + [REG(y)])
         == Some(ConstRegReg(Const(v, hex), Native(op), x, y))
  {
    hide ParseAtom;
    assert Numeral(v, hex) == Numeral(v, hex) + [];
    AtomOfNumeral(v, hex, []);
    assert Numeral(v, hex) + [OP(op)] + [REG(x)] == Numeral(v, hex) + [OP(op), REG(x)];
    AtomOfNumeral(v, hex, [OP(op), REG(x)]);
    assert Numeral(v, hex) + [OP(op)] + [REG(x)] + [PLUS] + [REG(y)] == Numeral(v, hex) + [OP(op), REG(x), PLUS, REG(y)];
    AtomOfNumeral(v, hex, [OP(op), REG(x), PLUS, REG(y)]);
  }

  lemma ParseUnaryForms(t: Token, x: RegNo, y: RegNo, v: Word, hex: bool)
    requires t == TILDE || t == MINUS
    ensures var op := if t == TILDE then Complement else Negate;
            && ParseRhs([] + [t] + [REG(x)]) == Some(Unary(op, x))
            && ParseRhs([] + [t] + [REG(x)] + [PLUS] + [REG(y)]) == Some(UnaryReg(op, x, y))
            && ParseRhs([] + [t] + [REG(x)] + [PLUS] + Numeral(v, hex)) == Some(UnaryConst(op, x, false, Const(v, hex)))
  {
    hide ParseAtom;
    var ts := [] + [t] + [REG(x)] + [PLUS] + Numeral(v, hex);
    assert ts[2..] == [PLUS] + Numeral(v, hex);
    assert ts[2..][1..] == Numeral(v, hex) + [];
    AtomOfNumeral(v, hex, []);
  }

  /** The printed right-hand side is read as the same instruction. */
  ghost predicate ReadsBack(i: Insn, verbose: bool)
    requires i.WellFormed()
  {
    var ts := PrintRhs(i, verbose);
    && ts.Some? && ParseRhs(ts.value).Some? && ParsesTo(ParseRhs(ts.value).value, i)
  }

  ghost predicate ParsesTo(e: Rhs, i: Insn)
    requires i.WellFormed()
  {
    var c := Choose(e);
    c.kind < 4 && Accepted(c) && ToInsn(i.dd, i.z, c) == i
  }

  lemma SmallField(imm: nat)
    requires imm < 0x1000
    ensures Fits12(SignExtend12(imm)) && SignExtend12(imm) % 0x1000 == imm
  {
  }

  lemma MediumReadsBack(i: Insn, verbose: bool)
    requires i.WellFormed() && i.Medium?
    ensures ReadsBack(i, verbose)
  {
    hide ParseRhs;
    var v := SignExtend20(i.imm);
    assert Fits20(v) && v % 0x10_0000 == i.imm;
    ParseRegConstForms(i.x, OpAdd, 0, v, true);
    ParseConstForms(v, true, OpAdd, 0, 0);
    assert Numeral(v, true) == [BITS(v)];
  }

  lemma Type0ReadsBack(i: Insn, verbose: bool)
    requires i.WellFormed() && i.Small? && i.p == 0
    ensures ReadsBack(i, verbose)
  {
    hide ParseRhs, Numeral;
    var v := SignExtend12(i.imm);
    SmallField(i.imm);
    ParseRegForms(i.x, i.op, i.y, v, verbose);
    ParseConstForms(v, verbose, i.op, i.x, i.y);
    ParseConstForms(0, false, i.op, i.x, i.y);
    ParseUnaryForms(TILDE, i.y, 0, v, verbose);
    ParseUnaryForms(MINUS, i.y, 0, v, verbose);
    assert Numeral(0, false) == [INT(0)] by { NumeralZero(); }
  }

  lemma NumeralZero()
    ensures Numeral(0, false) == [INT(0)]
  {
  }

  lemma Type1ReadsBack(i: Insn, verbose: bool)
    requires i.WellFormed() && i.Small? && i.p == 1
    ensures ReadsBack(i, verbose)
  {
    hide ParseRhs, Numeral;
    SmallField(i.imm);
    ParseRegForms(i.x, i.op, i.y, 0, false);
    ParseRegConstForms(i.x, i.op, i.y, SignExtend12(i.imm), verbose);
  }

  lemma Type2ReadsBack(i: Insn, verbose: bool)
    requires i.WellFormed() && i.Small? && i.p == 2
    ensures ReadsBack(i, verbose)
  {
    hide ParseRhs, Numeral;
    var v := SignExtend12(i.imm);
    SmallField(i.imm);
    ParseConstForms(v, verbose, i.op, i.x, i.y);
    ParseUnaryForms(TILDE, i.x, i.y, v, verbose);
    ParseUnaryForms(MINUS, i.x, i.y, v, verbose);
  }

  lemma RhsReadsBack(i: Insn, verbose: bool)
    requires i.WellFormed()
    ensures ReadsBack(i, verbose)
  {
    hide ReadsBack;
    if i.Medium? { MediumReadsBack(i, verbose); }
    else if i.p == 0 { Type0ReadsBack(i, verbose); }
    else if i.p == 1 { Type1ReadsBack(i, verbose); }
    else { Type2ReadsBack(i, verbose); }
  }

  // ----- Round trip, whole programs -----

  lemma ParsedStart(ts: seq<Token>)
    requires ParseRhs(ts).Some?
    ensures ts != [] && ts[0] != LBRACKET
  {
  }

  /** ParseStmt takes apart what PrintInsn put together. */
  lemma ParsePrinted(z: RegNo, dd: Deref, rhs: seq<Token>)
    requires ParseRhs(rhs).Some?
    ensures ParseStmt(Bracket(dd == 2, [REG(z)]) + [if dd == 1 then RARROW else LARROW] + Bracket(dd % 2 == 1, rhs))
         == Some(Stmt(z, dd == 2, dd == 1, dd % 2 == 1, ParseRhs(rhs).value))
  {
    hide ParseRhs;
    ParsedStart(rhs);
    var arrow := if dd == 1 then RARROW else LARROW;
    var body := Bracket(dd % 2 == 1, rhs);
    BracketedBody(dd % 2 == 1, rhs);
    hide Bracket;
    ParseParts(z, dd == 2, arrow, body);
  }

  lemma BracketedBody(deref: bool, rhs: seq<Token>)
    requires rhs != [] && rhs[0] != LBRACKET
    ensures var body := Bracket(deref, rhs);
            && |body| >= |rhs|
            && (body[0] == LBRACKET && body[|body| - 1] == RBRACKET && |body| > 2) == deref
            && (if deref then body[1..|body| - 1] else body) == rhs
  {
    var body := Bracket(deref, rhs);
    if deref { assert body[1..|body| - 1] == rhs; }
  }

  /** The destination and the arrow, in front of any body. */
  lemma ParseParts(z: RegNo, deref: bool, arrow: Token, body: seq<Token>)
    requires body != [] && arrow in {LARROW, RARROW}
    ensures var bracketed := body[0] == LBRACKET && body[|body| - 1] == RBRACKET && |body| > 2;
            var rhs := ParseRhs(if bracketed then body[1..|body| - 1] else body);
            ParseStmt(Bracket(deref, [REG(z)]) + [arrow] + body)
            == if rhs.None? then None else Some(Stmt(z, deref, arrow == RARROW, bracketed, rhs.value))
  {
    hide ParseRhs;
    var ts := Bracket(deref, [REG(z)]) + [arrow] + body;
    if deref {
      assert ts == [LBRACKET, REG(z), RBRACKET, arrow] + body;
      assert ts[4..] == body;
    } else {
      assert ts == [REG(z), arrow] + body;
      assert ts[2..] == body;
    }
  }

  /** Disassembling a word and assembling the line gives the word back, in both modes. */
  lemma LineRoundTrip(w: Word, verbose: bool)
    ensures PrintInsn(Decode(w), verbose).Some?
    ensures AssembleLine(PrintInsn(Decode(w), verbose).value) == Some(w)
  {
    hide PrintRhs, ParseRhs, ParseStmt, Encode, Decode, Choose, Accepted, ToInsn, Bracket;
    var i := Decode(w);
    RhsReadsBack(i, verbose);
    var rhs := PrintRhs(i, verbose).value;
    ParsePrinted(i.z, i.dd, rhs);
    EncodeDecode(w);
    var e := ParseRhs(rhs).value;
    DerefRoundTrip(i.z, i.dd, e);
  }

  lemma DerefRoundTrip(z: RegNo, dd: Deref, e: Rhs)
    ensures var t := Stmt(z, dd == 2, dd == 1, dd % 2 == 1, e);
            ArrowOk(t) && DerefBits(t) == dd
  {
  }

  predicate OneLine(ts: seq<Token>) {
    NEWLINE !in ts
  }

  lemma ArrangedOneLine(l: Layout, second: seq<Token>, third: seq<Token>)
    requires OneLine(l.first) && l.op != NEWLINE && OneLine(second) && OneLine(third)
    ensures Arrange(l, second, third).Some? ==> OneLine(Arrange(l, second, third).value)
  {
  }

  lemma LayoutOneLine(i: Insn, verbose: bool)
    requires i.WellFormed() && i.Small?
    ensures OneLine(SmallLayout(i, verbose).first) && SmallLayout(i, verbose).op != NEWLINE
  {
    hide Numeral;
    NumeralOneLine(SignExtend12(i.imm), verbose);
  }

  lemma NumeralOneLine(v: Word, hex: bool)
    ensures OneLine(Numeral(v, hex))
  {
  }

  lemma PrintedOneLine(i: Insn, verbose: bool)
    requires i.WellFormed() && PrintInsn(i, verbose).Some?
    ensures OneLine(PrintInsn(i, verbose).value)
  {
    hide SmallLayout, Arrange, Numeral;
    if i.Medium? {
      ArrangedOneLine(Layout(false, verbose || i.x != 0, true, PLUS, []), [REG(i.x)], [BITS(SignExtend20(i.imm))]);
    } else {
      var k := Numeral(SignExtend12(i.imm), verbose);
      NumeralOneLine(SignExtend12(i.imm), verbose);
      LayoutOneLine(i, verbose);
      var l := SmallLayout(i, verbose);
      ArrangedOneLine(l, [REG(i.y)], k);
      ArrangedOneLine(l, k, [REG(i.y)]);
      ArrangedOneLine(l, [REG(i.x)], [REG(i.y)]);
    }
    assert OneLine(PrintRhs(i, verbose).value);
  }

  /** do_disassembly with line-oriented output. */
  function DisassembleAll(ws: seq<Word>, verbose: bool): Option<seq<Token>> {
    if ws == [] then Some([])
    else
      var line := PrintInsn(Decode(ws[0]), verbose);
      var rest := DisassembleAll(ws[1..], verbose);
      if line.None? || rest.None? then None else Some(line.value + [NEWLINE] + rest.value)
  }

  /** The tokens up to the first line end. */
  function FirstLine(ts: seq<Token>): (n: nat)
    ensures n <= |ts|
  {
    if ts == [] || ts[0] == NEWLINE then 0 else 1 + FirstLine(ts[1..])
  }

  /** program: elements separated by line ends. */
  function AssembleAll(ts: seq<Token>): Option<seq<Word>>
    decreases |ts|
  {
    if ts == [] then Some([])
    else
      var n := FirstLine(ts);
      var word := AssembleLine(ts[..n]);
      var rest := if n < |ts| then AssembleAll(ts[n + 1..]) else Some([]);
      if word.None? || rest.None? then None else Some([word.value] + rest.value)
  }

  lemma {:induction false} FirstLineAt(line: seq<Token>, rest: seq<Token>)
    requires OneLine(line)
    ensures FirstLine(line + [NEWLINE] + rest) == |line|
  {
    var ts := line + [NEWLINE] + rest;
    if line != [] {
      assert line[0] in line && ts[0] == line[0];
      assert ts[1..] == line[1..] + [NEWLINE] + rest;
      FirstLineAt(line[1..], rest);
    }
  }

  /** Disassemble then assemble is the identity on every program, in both modes. */
  lemma {:induction false} ProgramRoundTrip(ws: seq<Word>, verbose: bool)
    ensures DisassembleAll(ws, verbose).Some?
    ensures AssembleAll(DisassembleAll(ws, verbose).value) == Some(ws)
  {
    hide AssembleLine, PrintInsn, Decode, OneLine, FirstLine;
    if ws != [] {
      LineRoundTrip(ws[0], verbose);
      ProgramRoundTrip(ws[1..], verbose);
      var line := PrintInsn(Decode(ws[0]), verbose).value;
      PrintedOneLine(Decode(ws[0]), verbose);
      var rest := DisassembleAll(ws[1..], verbose).value;
      FirstLineAt(line, rest);
      var ts := line + [NEWLINE] + rest;
      assert ts[..|line|] == line && ts[|line| + 1..] == rest;
      assert ws == [ws[0]] + ws[1..];
    }
  }

  /** The loop of do_disassembly. */
  method DoDisassembly(ws: seq<Word>, verbose: bool) returns (out: seq<Token>)
    ensures AssembleAll(out) == Some(ws)
  {
    hide AssembleAll, PrintInsn, Decode, AssembleLine;
    ProgramRoundTrip(ws, verbose);
    out := [];
    for k := 0 to |ws|
      invariant DisassembleAll(ws[k..], verbose).Some?
      invariant out + DisassembleAll(ws[k..], verbose).value == DisassembleAll(ws, verbose).value
    {
      assert ws[k..][0] == ws[k] && ws[k..][1..] == ws[k + 1..];
      LineRoundTrip(ws[k], verbose);
      out := out + PrintInsn(Decode(ws[k]), verbose).value + [NEWLINE];
    }
    assert ws[|ws|..] == [];
    assert out + [] == out;
  }
}
