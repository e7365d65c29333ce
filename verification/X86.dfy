/** The x86 subset that src/jit.cc emits, and the code generator itself. */
module X86 {
  import opened Words
  import opened Isa

  /** The four virtual registers of buildInstruction. */
  type Var = n: nat | n < 4
  const X: Var := 0
  const Y: Var := 1
  const I: Var := 2
  const T: Var := 3

  datatype Cond = NotZero | Less | Equal | GreaterEqual
  datatype Flags = Flags(zf: bool, cf: bool, sf: bool, of: bool)

  datatype Src = V(n: Var) | K(k: Word)
  datatype Alu = Add | Sub | And | Or | Xor | Imul
  datatype ShiftKind = Shr | Sar | Sal

  datatype Instr =
    | Mov(d: Var, s: Src)
    | LoadReg(d: Var, reg: RegNo)
    | StoreReg(reg: RegNo, d: Var)
    | Arith(alu: Alu, d: Var, s: Src)
    | NotVar(d: Var)
    | Shift(kind: ShiftKind, d: Var, s: Src)
    | Bt(d: Var, s: Src)
    | Sbb(d: Var, s: Src)
    | Cmp(d: Var, s: Src)
    | Cmov(c: Cond, d: Var, s: Src)
    | CallFetch(addr: Var, d: Var)
    | CallStore(addr: Var, d: Var)

  type Vars = v: seq<Word> | |v| == 4 witness [0, 0, 0, 0]

  /** Virtual registers and flags, with the guest's register array and bus behind them. */
  datatype Host = Host(v: Vars, flags: Flags, regs: Regs, mem: Memory)

  predicate Negative(w: Word) {
    w >= 0x8000_0000
  }

  function SubFlags(a: Word, b: Word): Flags {
    var r := Minus(a, b);
    Flags(r == 0, a < b, Negative(r), Negative(a) != Negative(b) && Negative(r) != Negative(a))
  }

  predicate Holds(c: Cond, f: Flags) {
    match c
    case NotZero => !f.zf
    case Equal => f.zf
    case Less => f.sf != f.of
    case GreaterEqual => f.sf == f.of
  }

  function Put(h: Host, d: Var, w: Word): Host {
    h.(v := h.v[d := w])
  }

  function Value(h: Host, s: Src): Word {
    if s.V? then h.v[s.n] else s.k
  }

  function AluResult(alu: Alu, a: Word, b: Word): Word {
    match alu
    case Add => Plus(a, b)
    case Sub => Minus(a, b)
    case And => Words.And(a, b)
    case Or => Words.Or(a, b)
    case Xor => Words.Xor(a, b)
    case Imul => Times(a, b)
  }

  /** Addition's flags are never read by the emitted code; imul leaves ZF and SF undefined. */
  function AluFlags(alu: Alu, a: Word, b: Word, u: Flags): Flags {
    var r := AluResult(alu, a, b);
    match alu
    case Sub => SubFlags(a, b)
    case Imul => u
    case Add => Flags(r == 0, a + b >= 0x1_0000_0000, Negative(r),
                      Negative(a) == Negative(b) && Negative(r) != Negative(a))
    case _ => Flags(r == 0, false, Negative(r), false)
  }

  function ShiftResult(kind: ShiftKind, a: Word, n: nat): Word {
    match kind
    case Shr => Words.Shr(a, n)
    case Sar => Words.Sar(a, n)
    case Sal => Words.Shl(a, n)
  }

  /** One instruction. `u` is whatever the processor leaves in flags it does not define. */
  function Exec(i: Instr, h: Host, u: Flags): Host {
    match i
    case Mov(d, s) => Put(h, d, Value(h, s))
    case LoadReg(d, n) => Put(h, d, h.regs[n])
    case StoreReg(n, s) => h.(regs := h.regs[n := h.v[s]])
    case Arith(alu, d, s) =>
      Put(h, d, AluResult(alu, h.v[d], Value(h, s))).(flags := AluFlags(alu, h.v[d], Value(h, s), u))
    case NotVar(d) => Put(h, d, Not(h.v[d]))
    // shift counts are taken modulo 32, and a zero count leaves the flags alone
    case Shift(kind, d, s) =>
      var n := Value(h, s) % 32;
      Put(h, d, ShiftResult(kind, h.v[d], n)).(flags := if n == 0 then h.flags else u)
    case Bt(d, s) => h.(flags := Flags(h.flags.zf, Bit(h.v[d], Value(h, s) % 32), u.sf, u.of))
    case Sbb(d, s) => Put(h, d, Minus(Minus(h.v[d], Value(h, s)), if h.flags.cf then 1 else 0)).(flags := u)
    case Cmp(d, s) => h.(flags := SubFlags(h.v[d], Value(h, s)))
    case Cmov(c, d, s) => if Holds(c, h.flags) then Put(h, d, Value(h, s)) else h
    // the callbacks drop bus errors: a failed fetch returns no particular value
    case CallFetch(a, d) => (if h.v[a] in h.mem then Put(h, d, h.mem[h.v[a]]) else h).(flags := u)
    case CallStore(a, d) =>
      h.(mem := if h.v[a] in h.mem then h.mem[h.v[a] := h.v[d]] else h.mem, flags := u)
  }

  function Run(p: seq<Instr>, h: Host, u: Flags): Host {
    if p == [] then h else Run(p[1..], Exec(p[0], h, u), u)
  }

  lemma {:induction false} RunAppend(p: seq<Instr>, q: seq<Instr>, h: Host, u: Flags)
    ensures Run(p + q, h, u) == Run(q, Run(p, h, u), u)
  {
    if p == [] {
      assert p + q == q;
    } else {
      assert (p + q)[0] == p[0] && (p + q)[1..] == p[1..] + q;
      RunAppend(p[1..], q, Exec(p[0], h, u), u);
    }
  }

  lemma Run1(a: Instr, h: Host, u: Flags)
    ensures Run([a], h, u) == Exec(a, h, u)
  {
    assert [a][1..] == [];
  }

  lemma Run2(a: Instr, b: Instr, h: Host, u: Flags)
    ensures Run([a, b], h, u) == Exec(b, Exec(a, h, u), u)
  {
    assert [a, b] == [a] + [b];
    RunAppend([a], [b], h, u);
    Run1(a, h, u);
    Run1(b, Exec(a, h, u), u);
  }

  lemma Run3(a: Instr, b: Instr, c: Instr, h: Host, u: Flags)
    ensures Run([a, b, c], h, u) == Exec(c, Exec(b, Exec(a, h, u), u), u)
  {
    assert [a, b, c] == [a, b] + [c];
    RunAppend([a, b], [c], h, u);
    Run2(a, b, h, u);
    Run1(c, Exec(b, Exec(a, h, u), u), u);
  }

  lemma Run4(a: Instr, b: Instr, c: Instr, d: Instr, h: Host, u: Flags)
    ensures Run([a, b, c, d], h, u) == Exec(d, Exec(c, Exec(b, Exec(a, h, u), u), u), u)
  {
    assert [a, b, c, d] == [a, b, c] + [d];
    RunAppend([a, b, c], [d], h, u);
    Run3(a, b, c, h, u);
    Run1(d, Exec(c, Exec(b, Exec(a, h, u), u), u), u);
  }
}
