/** The Forth of the forth/ directory: a recursive semantics of words, and the
    indirect-threaded inner interpreter that runs them. */
module Forth {
  import opened Options
  import opened Words
  import opened Isa

  datatype Prim =
    | Binop(op: Op)
    | Swap | Rot | Over | Tuck | Dup | Drop | Nip
    | ToR | FromR | FetchR

  /** A word, with the words its definition names in place of their addresses. */
  datatype Definition = Primitive(p: Prim) | Colon(body: seq<Item>)
  datatype Item = Call(word: Definition) | Literal(n: Word)

  /** Stacks, top first. */
  type Stack = seq<Word>
  datatype Stacks = Stacks(ds: Stack, rs: Stack)

  // ----- Recursive semantics -----

  /** The stack diagrams of the primitives; nothing on underflow or an undefined shift. */
  function Effect(p: Prim, t: Stacks): Option<Stacks> {
    var ds, rs := t.ds, t.rs;
    match p
    case Binop(op) =>
      if |ds| < 2 || !Defined(op, ds[0]) then None else Some(Stacks([Rhs(op, ds[1], ds[0], 0)] + ds[2..], rs))
    case Swap => if |ds| < 2 then None else Some(Stacks([ds[1], ds[0]] + ds[2..], rs))
    case Rot => if |ds| < 3 then None else Some(Stacks([ds[2], ds[0], ds[1]] + ds[3..], rs))
    case Over => if |ds| < 2 then None else Some(Stacks([ds[1]] + ds, rs))
    case Tuck => if |ds| < 2 then None else Some(Stacks([ds[0], ds[1], ds[0]] + ds[2..], rs))
    case Dup => if |ds| < 1 then None else Some(Stacks([ds[0]] + ds, rs))
    case Drop => if |ds| < 1 then None else Some(Stacks(ds[1..], rs))
    case Nip => if |ds| < 2 then None else Some(Stacks([ds[0]] + ds[2..], rs))
    case ToR => if |ds| < 1 then None else Some(Stacks(ds[1..], [ds[0]] + rs))
    case FromR => if |rs| < 1 then None else Some(Stacks([rs[0]] + ds, rs[1..]))
    case FetchR => if |rs| < 1 then None else Some(Stacks([rs[0]] + ds, rs))
  }

  /** Room on the two stacks. */
  datatype Room = Room(data: nat, ret: nat)

  predicate Within(t: Stacks, depth: nat, room: Room) {
    |t.ds| <= room.data && depth + |t.rs| <= room.ret
  }

  /** A definition run with `depth` cells below its own part of the return stack. A colon
      definition starts with an empty part of its own, and must leave it empty. */
  function Run(w: Definition, t: Stacks, depth: nat, room: Room): Option<Stacks> {
    match w
    case Primitive(p) =>
      var u := Effect(p, t);
      if u.None? || !Within(u.value, depth, room) then None else u
    case Colon(body) =>
      if depth + |t.rs| + 1 > room.ret then None
      else
        var u := RunBody(body, Stacks(t.ds, []), depth + |t.rs| + 1, room);
        if u.None? || u.value.rs != [] then None else Some(Stacks(u.value.ds, t.rs))
  }

  function RunItem(it: Item, t: Stacks, depth: nat, room: Room): Option<Stacks> {
    match it
    case Literal(n) => if |t.ds| + 1 > room.data then None else Some(Stacks([n] + t.ds, t.rs))
    case Call(w) => Run(w, t, depth, room)
  }

  function RunBody(body: seq<Item>, t: Stacks, depth: nat, room: Room): Option<Stacks> {
    if body == [] then Some(t)
    else
      var u := RunItem(body[0], t, depth, room);
      if u.None? then None else RunBody(body[1..], u.value, depth, room)
  }

  /** Where the stacks have room nothing is undefined for want of it: a literal needs one more
      cell, a primitive what its result takes, and a colon definition one return cell. */
  lemma RoomExactly(n: Word, p: Prim, body: seq<Item>, t: Stacks, depth: nat, room: Room)
    ensures RunItem(Literal(n), t, depth, room).Some? <==> |t.ds| < room.data
    ensures Run(Primitive(p), t, depth, room).Some?
       <==> Effect(p, t).Some? && |Effect(p, t).value.ds| <= room.data && depth + |Effect(p, t).value.rs| <= room.ret
    ensures Run(Colon(body), t, depth, room).Some?
       <==> && depth + |t.rs| < room.ret
            && var u := RunBody(body, Stacks(t.ds, []), depth + |t.rs| + 1, room); u.Some? && u.value.rs == []
  {
    hide Effect, RunBody;
  }

  // ----- The machine -----

  /** The Forth registers and memory; K holds X, M holds W, and the temporaries follow. */
  datatype Machine = Machine(i: Word, w: Word, x: Word, s: Word, r: Word, t0: Word, t1: Word, t2: Word, mem: Memory)

  datatype Routine = EnterCode | ExitCode | LiteralCode | PrimCode(p: Prim)

  /** Where things are: the load address, the machine code, and the two stack areas, which
      grow down from their base to their limit. */
  datatype Config = Config(
    zero: Word, code: map<Word, Routine>,
    sBase: Word, sLimit: Word, rBase: Word, rLimit: Word)

  function Rel(cfg: Config, x: Word): Word {
    Plus(x, cfg.zero)
  }

  /** NEXT, up to the jump: fetch the next cell of the thread and its code field. */
  function NextCell(cfg: Config, m: Machine): Option<Machine> {
    if m.i !in m.mem then None
    else
      var w := Rel(cfg, m.mem[m.i]);
      if w !in m.mem then None
      else Some(m.(w := w, i := Plus(m.i, 1), x := m.mem[w]))
  }

  /** The statements of each routine, from its first instruction to `goto(NEXT)`. */
  function Body(m: Machine, c: Routine): Option<Machine> {
    match c
    case EnterCode =>
      if m.r !in m.mem then None
      else Some(m.(mem := m.mem[m.r := m.i], r := Minus(m.r, 1), i := Plus(m.w, 1)))
    case ExitCode =>
      var r := Plus(m.r, 1);
      if r !in m.mem then None else Some(m.(r := r, i := m.mem[r]))
    case LiteralCode =>
      if m.i !in m.mem || m.s !in m.mem then None
      else
        var w := m.mem[m.i];
        Some(m.(w := w, i := Plus(m.i, 1), mem := m.mem[m.s := w], s := Minus(m.s, 1)))
    case PrimCode(p) => PrimBody(m, p)
  }

  function PrimBody(m: Machine, p: Prim): Option<Machine> {
    var s1, s2, s3, r1 := Plus(m.s, 1), Plus(m.s, 2), Plus(m.s, 3), Plus(m.r, 1);
    match p
    case Binop(op) =>
      if s1 !in m.mem || s2 !in m.mem || !Defined(op, m.mem[s1]) then None
      else
        var t0, t1 := m.mem[s2], m.mem[s1];
        var w := Rhs(op, t0, t1, 0);
        Some(m.(t0 := t0, t1 := t1, w := w, s := s1, mem := m.mem[s2 := w]))
    case Swap =>
      if s1 !in m.mem || s2 !in m.mem then None
      else
        var t0, t1 := m.mem[s2], m.mem[s1];
        Some(m.(t0 := t0, t1 := t1, mem := m.mem[s2 := t1][s1 := t0]))
    case Rot =>
      if s1 !in m.mem || s2 !in m.mem || s3 !in m.mem then None
      else
        var t0, t1, t2 := m.mem[s3], m.mem[s2], m.mem[s1];
        Some(m.(t0 := t0, t1 := t1, t2 := t2, mem := m.mem[s3 := t1][s2 := t2][s1 := t0]))
    case Over =>
      if m.s !in m.mem || s2 !in m.mem then None
      else
        var w := m.mem[s2];
        Some(m.(s := Minus(m.s, 1), w := w, mem := m.mem[m.s := w]))
    case Tuck =>
      if m.s !in m.mem || s1 !in m.mem || s2 !in m.mem then None
      else
        var t0, t1 := m.mem[s2], m.mem[s1];
        Some(m.(t0 := t0, t1 := t1, s := Minus(m.s, 1), mem := m.mem[s2 := t1][s1 := t0][m.s := t1]))
    case Dup =>
      if m.s !in m.mem || s1 !in m.mem then None
      else
        var w := m.mem[s1];
        Some(m.(w := w, s := Minus(m.s, 1), mem := m.mem[m.s := w]))
    case Drop => Some(m.(s := s1))
    case Nip =>
      if s1 !in m.mem || s2 !in m.mem then None
      else Some(m.(w := m.mem[s1], mem := m.mem[s2 := m.mem[s1]], s := s1))
    case ToR =>
      if s1 !in m.mem || m.r !in m.mem then None
      else Some(m.(w := m.mem[s1], mem := m.mem[m.r := m.mem[s1]], r := Minus(m.r, 1), s := s1))
    case FromR =>
      if r1 !in m.mem || m.s !in m.mem then None
      else Some(m.(w := m.mem[r1], r := r1, s := Minus(m.s, 1), mem := m.mem[m.s := m.mem[r1]]))
    case FetchR =>
      if r1 !in m.mem || m.s !in m.mem then None
      else Some(m.(w := m.mem[r1], s := Minus(m.s, 1), mem := m.mem[m.s := m.mem[r1]]))
  }

  /** NEXT, the jump, and the routine it jumps to. */
  function Inner(cfg: Config, m: Machine): Option<Machine> {
    var n := NextCell(cfg, m);
    if n.None? || n.value.x !in cfg.code then None
    else Body(n.value, cfg.code[n.value.x])
  }

  function Iterate(cfg: Config, m: Machine, n: nat): Option<Machine> {
    if n == 0 then Some(m)
    else
      var r := Iterate(cfg, m, n - 1);
      if r.None? then None else Inner(cfg, r.value)
  }

  lemma {:induction false} IterateAdd(cfg: Config, m: Machine, a: nat, b: nat)
    requires Iterate(cfg, m, a).Some?
    ensures Iterate(cfg, m, a + b) == Iterate(cfg, Iterate(cfg, m, a).value, b)
  {
    hide Inner;
    if b > 0 { IterateAdd(cfg, m, a, b - 1); }
  }

  // ----- Stacks in memory -----

  ghost predicate ConfigOk(cfg: Config) {
    && cfg.sLimit < cfg.sBase < 0xffff_fff0 && cfg.rLimit < cfg.rBase < 0xffff_fff0
    && (cfg.sBase <= cfg.rLimit || cfg.rBase <= cfg.sLimit)
  }

  ghost function RoomOf(cfg: Config): Room
    requires ConfigOk(cfg)
  {
    Room(cfg.sBase - cfg.sLimit, cfg.rBase - cfg.rLimit)
  }

  ghost predicate InStacks(cfg: Config, a: Word) {
    cfg.sLimit < a <= cfg.sBase || cfg.rLimit < a <= cfg.rBase
  }

  /** Memory is the loaded image everywhere outside the stack areas. */
  ghost predicate SameImage(cfg: Config, image: Memory, mem: Memory) {
    && (forall a: Word :: InStacks(cfg, a) ==> a in mem)
    && (forall a <- image :: !InStacks(cfg, a) ==> a in mem && mem[a] == image[a])
  }

  ghost predicate CellIs(mem: Memory, a: int, x: Word) {
    0 <= a < 0x1_0000_0000 && a in mem && mem[a] == x
  }

  /** `xs` lies in the cells just above `p` and reaches up to `base`. */
  ghost predicate Holds(mem: Memory, p: Word, base: Word, xs: Stack)
    decreases xs
  {
    if xs == [] then p == base
    else p < base && CellIs(mem, p + 1, xs[0]) && Holds(mem, p + 1, base, xs[1..])
  }

  lemma {:induction false} HoldsElsewhere(mem: Memory, p: Word, base: Word, xs: Stack, a: Word, x: Word)
    requires Holds(mem, p, base, xs) && !(p < a <= base)
    ensures Holds(mem[a := x], p, base, xs)
    decreases xs
  {
    if xs != [] { HoldsElsewhere(mem, p + 1, base, xs[1..], a, x); }
  }

  lemma {:induction false} HoldsAt(mem: Memory, p: Word, base: Word, xs: Stack, k: nat)
    requires Holds(mem, p, base, xs) && k < |xs|
    ensures p + 1 + k <= base && CellIs(mem, p + 1 + k, xs[k])
    decreases xs
  {
    if k > 0 { HoldsAt(mem, p + 1, base, xs[1..], k - 1); }
  }

  lemma {:induction false} HoldsUpdate(mem: Memory, p: Word, base: Word, xs: Stack, k: nat, x: Word)
    requires Holds(mem, p, base, xs) && k < |xs| && p + 1 + k < 0x1_0000_0000
    ensures Holds(mem[p + 1 + k := x], p, base, xs[k := x])
    decreases xs
  {
    if k == 0 {
      HoldsElsewhere(mem, p + 1, base, xs[1..], p + 1, x);
      assert xs[0 := x][1..] == xs[1..];
    } else {
      HoldsUpdate(mem, p + 1, base, xs[1..], k - 1, x);
      assert xs[k := x][1..] == xs[1..][k - 1 := x];
    }
  }

  lemma {:induction false} HoldsLength(mem: Memory, p: Word, base: Word, xs: Stack)
    requires Holds(mem, p, base, xs)
    ensures p + |xs| == base
    decreases xs
  {
    if xs != [] { HoldsLength(mem, p + 1, base, xs[1..]); }
  }

  /** The two pointers and memory hold these stacks, and the loaded image is intact. */
  ghost predicate Laid(cfg: Config, image: Memory, mem: Memory, s: Word, r: Word, t: Stacks) {
    && ConfigOk(cfg) && SameImage(cfg, image, mem)
    && Within(t, 0, RoomOf(cfg))
    && Holds(mem, s, cfg.sBase, t.ds) && Holds(mem, r, cfg.rBase, t.rs)
  }

  lemma ImageKept(cfg: Config, image: Memory, mem: Memory, a: Word, x: Word)
    requires SameImage(cfg, image, mem) && InStacks(cfg, a)
    ensures SameImage(cfg, image, mem[a := x])
  {
  }

  lemma PeekData(cfg: Config, image: Memory, mem: Memory, s: Word, r: Word, t: Stacks, k: nat)
    requires Laid(cfg, image, mem, s, r, t) && k < |t.ds|
    ensures Plus(s, k + 1) == s + k + 1 && CellIs(mem, s + k + 1, t.ds[k])
  {
    hide SameImage, Holds;
    HoldsAt(mem, s, cfg.sBase, t.ds, k);
  }

  lemma PeekReturn(cfg: Config, image: Memory, mem: Memory, s: Word, r: Word, t: Stacks)
    requires Laid(cfg, image, mem, s, r, t) && |t.rs| > 0
    ensures Plus(r, 1) == r + 1 && CellIs(mem, r + 1, t.rs[0])
  {
    hide SameImage, Holds;
    HoldsAt(mem, r, cfg.rBase, t.rs, 0);
  }

  lemma PokeData(cfg: Config, image: Memory, mem: Memory, s: Word, r: Word, t: Stacks, k: nat, x: Word)
    requires Laid(cfg, image, mem, s, r, t) && k < |t.ds|
    ensures Plus(s, k + 1) == s + k + 1
    ensures Laid(cfg, image, mem[Plus(s, k + 1) := x], s, r, Stacks(t.ds[k := x], t.rs))
  {
    hide SameImage, Holds;
    HoldsAt(mem, s, cfg.sBase, t.ds, k);
    HoldsLength(mem, s, cfg.sBase, t.ds);
    HoldsLength(mem, r, cfg.rBase, t.rs);
    HoldsUpdate(mem, s, cfg.sBase, t.ds, k, x);
    HoldsElsewhere(mem, r, cfg.rBase, t.rs, s + 1 + k, x);
    ImageKept(cfg, image, mem, s + 1 + k, x);
  }

  lemma PushData(cfg: Config, image: Memory, mem: Memory, s: Word, r: Word, t: Stacks, x: Word)
    requires Laid(cfg, image, mem, s, r, t) && |t.ds| < RoomOf(cfg).data
    ensures s in mem && Minus(s, 1) == s - 1
    ensures Laid(cfg, image, mem[s := x], Minus(s, 1), r, Stacks([x] + t.ds, t.rs))
  {
    HoldsLength(mem, s, cfg.sBase, t.ds);
    HoldsLength(mem, r, cfg.rBase, t.rs);
    HoldsElsewhere(mem, s, cfg.sBase, t.ds, s, x);
    HoldsElsewhere(mem, r, cfg.rBase, t.rs, s, x);
    assert s in mem by { assert InStacks(cfg, s); }
    ImageKept(cfg, image, mem, s, x);
    hide SameImage;
    assert ([x] + t.ds)[1..] == t.ds;
  }

  lemma PushReturn(cfg: Config, image: Memory, mem: Memory, s: Word, r: Word, t: Stacks, x: Word)
    requires Laid(cfg, image, mem, s, r, t) && |t.rs| < RoomOf(cfg).ret
    ensures r in mem && Minus(r, 1) == r - 1
    ensures Laid(cfg, image, mem[r := x], s, Minus(r, 1), Stacks(t.ds, [x] + t.rs))
  {
    HoldsLength(mem, s, cfg.sBase, t.ds);
    HoldsLength(mem, r, cfg.rBase, t.rs);
    HoldsElsewhere(mem, s, cfg.sBase, t.ds, r, x);
    HoldsElsewhere(mem, r, cfg.rBase, t.rs, r, x);
    assert r in mem by { assert InStacks(cfg, r); }
    ImageKept(cfg, image, mem, r, x);
    hide SameImage;
    assert ([x] + t.rs)[1..] == t.rs;
  }

  lemma PopData(cfg: Config, image: Memory, mem: Memory, s: Word, r: Word, t: Stacks)
    requires Laid(cfg, image, mem, s, r, t) && |t.ds| > 0
    ensures Laid(cfg, image, mem, Plus(s, 1), r, Stacks(t.ds[1..], t.rs))
  {
    hide SameImage;
  }

  lemma PopReturn(cfg: Config, image: Memory, mem: Memory, s: Word, r: Word, t: Stacks)
    requires Laid(cfg, image, mem, s, r, t) && |t.rs| > 0
    ensures Laid(cfg, image, mem, s, Plus(r, 1), Stacks(t.ds, t.rs[1..]))
  {
    hide SameImage;
  }

  // ----- Primitives -----

  lemma RotCorrect(cfg: Config, image: Memory, m: Machine, t: Stacks)
    requires Laid(cfg, image, m.mem, m.s, m.r, t) && |t.ds| > 2
    ensures PrimBody(m, Rot).Some?
    ensures var n := PrimBody(m, Rot).value;
            n.i == m.i && Laid(cfg, image, n.mem, n.s, n.r, Effect(Rot, t).value)
  {
    hide Laid, Rhs, Plus, Minus;
    var mem, s, r, ds, rs := m.mem, m.s, m.r, t.ds, t.rs;
    PeekData(cfg, image, mem, s, r, t, 0);
    PeekData(cfg, image, mem, s, r, t, 1);
    PeekData(cfg, image, mem, s, r, t, 2);
    PokeData(cfg, image, mem, s, r, t, 2, ds[1]);
    var mem1, ds1 := mem[Plus(s, 3) := ds[1]], ds[2 := ds[1]];
    PokeData(cfg, image, mem1, s, r, Stacks(ds1, rs), 1, ds[0]);
    PokeData(cfg, image, mem1[Plus(s, 2) := ds[0]], s, r, Stacks(ds1[1 := ds[0]], rs), 0, ds[2]);
    assert ds1[1 := ds[0]][0 := ds[2]] == Effect(Rot, t).value.ds;
  }

  lemma TuckCorrect(cfg: Config, image: Memory, m: Machine, t: Stacks)
    requires Laid(cfg, image, m.mem, m.s, m.r, t) && 1 < |t.ds| < RoomOf(cfg).data
    ensures PrimBody(m, Tuck).Some?
    ensures var n := PrimBody(m, Tuck).value;
            n.i == m.i && Laid(cfg, image, n.mem, n.s, n.r, Effect(Tuck, t).value)
  {
    hide Laid, Rhs, Plus, Minus, RoomOf, ConfigOk;
    var mem, s, r, ds, rs := m.mem, m.s, m.r, t.ds, t.rs;
    PeekData(cfg, image, mem, s, r, t, 0);
    PeekData(cfg, image, mem, s, r, t, 1);
    PokeData(cfg, image, mem, s, r, t, 1, ds[0]);
    var mem1, ds1 := mem[Plus(s, 2) := ds[0]], ds[1 := ds[0]];
    PokeData(cfg, image, mem1, s, r, Stacks(ds1, rs), 0, ds[1]);
    PushData(cfg, image, mem1[Plus(s, 1) := ds[1]], s, r, Stacks(ds1[0 := ds[1]], rs), ds[0]);
    assert [ds[0]] + ds1[0 := ds[1]] == Effect(Tuck, t).value.ds;
  }

  /** Each primitive's code does what its stack diagram says. */
  lemma PrimCorrect(cfg: Config, image: Memory, m: Machine, p: Prim, t: Stacks)
    requires Laid(cfg, image, m.mem, m.s, m.r, t)
    requires Effect(p, t).Some? && Within(Effect(p, t).value, 0, RoomOf(cfg))
    ensures PrimBody(m, p).Some?
    ensures var n := PrimBody(m, p).value;
            n.i == m.i && Laid(cfg, image, n.mem, n.s, n.r, Effect(p, t).value)
  {
    hide Laid, Rhs, Plus, Minus;
    var mem, s, r, ds, rs := m.mem, m.s, m.r, t.ds, t.rs;
    var u := Effect(p, t).value;
    hide RoomOf, ConfigOk;
    if |ds| > 0 && !p.FromR? && !p.FetchR? { PeekData(cfg, image, mem, s, r, t, 0); }
    match p
    case Binop(op) =>
      PeekData(cfg, image, mem, s, r, t, 1);
      var x := Rhs(op, ds[1], ds[0], 0);
      PokeData(cfg, image, mem, s, r, t, 1, x);
      PopData(cfg, image, mem[Plus(s, 2) := x], s, r, Stacks(ds[1 := x], rs));
      assert ds[1 := x][1..] == u.ds;
    case Swap =>
      PeekData(cfg, image, mem, s, r, t, 1);
      PokeData(cfg, image, mem, s, r, t, 1, ds[0]);
      PokeData(cfg, image, mem[Plus(s, 2) := ds[0]], s, r, Stacks(ds[1 := ds[0]], rs), 0, ds[1]);
      assert ds[1 := ds[0]][0 := ds[1]] == u.ds;
    case Rot =>
      RotCorrect(cfg, image, m, t);
    case Over =>
      PeekData(cfg, image, mem, s, r, t, 1);
      PushData(cfg, image, mem, s, r, t, ds[1]);
    case Tuck =>
      TuckCorrect(cfg, image, m, t);
    case Dup =>
      PushData(cfg, image, mem, s, r, t, ds[0]);
    case Drop =>
      PopData(cfg, image, mem, s, r, t);
    case Nip =>
      PeekData(cfg, image, mem, s, r, t, 1);
      PokeData(cfg, image, mem, s, r, t, 1, ds[0]);
      PopData(cfg, image, mem[Plus(s, 2) := ds[0]], s, r, Stacks(ds[1 := ds[0]], rs));
      assert ds[1 := ds[0]][1..] == u.ds;
    case ToR =>
      PushReturn(cfg, image, mem, s, r, t, ds[0]);
      PopData(cfg, image, mem[r := ds[0]], s, Minus(r, 1), Stacks(ds, [ds[0]] + rs));
    case FromR =>
      PeekReturn(cfg, image, mem, s, r, t);
      PushData(cfg, image, mem, s, r, t, rs[0]);
      PopReturn(cfg, image, mem[s := rs[0]], Minus(s, 1), r, Stacks([rs[0]] + ds, rs));
    case FetchR =>
      PeekReturn(cfg, image, mem, s, r, t);
      PushData(cfg, image, mem, s, r, t, rs[0]);
  }

  // ----- Threads in memory -----

  /** A cell of the dictionary, out of the way of the stacks. */
  ghost predicate Fixed(cfg: Config, image: Memory, a: Word) {
    a in image && !InStacks(cfg, a)
  }

  /** The code field at `a` leads to routine `c`. */
  ghost predicate CodeField(cfg: Config, image: Memory, a: Word, c: Routine) {
    Fixed(cfg, image, a) && image[a] in cfg.code && cfg.code[image[a]] == c
  }

  /** A dictionary definition laid out at `a`. */
  ghost predicate Stored(cfg: Config, image: Memory, a: Word, w: Definition)
    decreases w
  {
    match w
    case Primitive(p) => CodeField(cfg, image, a, PrimCode(p))
    case Colon(body) => CodeField(cfg, image, a, EnterCode) && Thread(cfg, image, Plus(a, 1), body)
  }

  /** The cells of a body, up to and including the cell naming EXIT. */
  ghost predicate Thread(cfg: Config, image: Memory, a: Word, body: seq<Item>)
    decreases body
  {
    && Fixed(cfg, image, a)
    && if body == [] then CodeField(cfg, image, Rel(cfg, image[a]), ExitCode)
       else StoredItem(cfg, image, a, body[0]) && Thread(cfg, image, Plus(a, Width(body[0])), body[1..])
  }

  ghost predicate StoredItem(cfg: Config, image: Memory, a: Word, it: Item)
    decreases it
  {
    && Fixed(cfg, image, a)
    && match it
       case Call(w) => Stored(cfg, image, Rel(cfg, image[a]), w)
       case Literal(n) =>
         && CodeField(cfg, image, Rel(cfg, image[a]), LiteralCode)
         && Fixed(cfg, image, Plus(a, 1)) && image[Plus(a, 1)] == n
  }

  function Width(it: Item): nat {
    if it.Call? then 1 else 2
  }

  function BodyWidth(body: seq<Item>): nat {
    if body == [] then 0 else Width(body[0]) + BodyWidth(body[1..])
  }

  /** Passes of the inner interpreter spent on a word, its ENTER and EXIT included. */
  function Steps(w: Definition): nat {
    match w
    case Primitive(_) => 1
    case Colon(body) => 1 + BodySteps(body) + 1
  }

  function ItemSteps(it: Item): nat {
    match it
    case Call(w) => Steps(w)
    case Literal(_) => 1
  }

  function BodySteps(body: seq<Item>): nat {
    if body == [] then 0 else ItemSteps(body[0]) + BodySteps(body[1..])
  }

  // ----- The inner interpreter refines the semantics -----

  /** What lies under a word's own part of the return stack is out of its reach. */
  function Upon(t: Stacks, outer: Stack): Stacks {
    Stacks(t.ds, t.rs + outer)
  }

  lemma EffectUpon(p: Prim, t: Stacks, outer: Stack)
    requires Effect(p, t).Some?
    ensures Effect(p, Upon(t, outer)) == Some(Upon(Effect(p, t).value, outer))
  {
    hide Rhs;
    if |t.rs| > 0 {
      assert (t.rs + outer)[1..] == t.rs[1..] + outer;
    }
    if p.ToR? {
      assert [t.ds[0]] + t.rs + outer == [t.ds[0]] + (t.rs + outer);
    }
  }

  lemma PlusTwice(a: Word, j: nat, k: nat)
    ensures Plus(a, 0) == a && Plus(Plus(a, j), k) == Plus(a, j + k)
  {
    WrapPlus(a + j, k);
  }

  ghost predicate At(cfg: Config, image: Memory, m: Machine, i: Word, t: Stacks) {
    m.i == i && Laid(cfg, image, m.mem, m.s, m.r, t)
  }

  /** Fetching a cell that names a code field leaves W at that field and X at its routine. */
  lemma NextReaches(cfg: Config, image: Memory, m: Machine, i: Word, t: Stacks, c: Routine)
    requires At(cfg, image, m, i, t)
    requires Fixed(cfg, image, i) && CodeField(cfg, image, Rel(cfg, image[i]), c)
    ensures var w := Rel(cfg, image[i]);
            Inner(cfg, m) == Body(m.(w := w, i := Plus(i, 1), x := image[w]), c)
  {
    hide Body, InStacks, Plus, Holds;
  }

  lemma RunPrim(cfg: Config, image: Memory, m: Machine, i: Word, p: Prim, t: Stacks, outer: Stack)
    requires ConfigOk(cfg) && At(cfg, image, m, i, Upon(t, outer))
    requires Fixed(cfg, image, i) && Stored(cfg, image, Rel(cfg, image[i]), Primitive(p))
    requires Run(Primitive(p), t, |outer|, RoomOf(cfg)).Some?
    ensures Inner(cfg, m).Some?
    ensures At(cfg, image, Inner(cfg, m).value, Plus(i, 1),
               Upon(Run(Primitive(p), t, |outer|, RoomOf(cfg)).value, outer))
  {
    var w := Rel(cfg, image[i]);
    assert w in image;
    hide PrimBody, Effect, Inner, Laid, Plus, CodeField, Fixed;
    NextReaches(cfg, image, m, i, Upon(t, outer), PrimCode(p));
    EffectUpon(p, t, outer);
    PrimCorrect(cfg, image, m.(w := w, i := Plus(i, 1), x := image[w]), p, Upon(t, outer));
  }

  lemma RunLiteral(cfg: Config, image: Memory, m: Machine, i: Word, n: Word, t: Stacks)
    requires ConfigOk(cfg) && At(cfg, image, m, i, t)
    requires StoredItem(cfg, image, i, Literal(n)) && |t.ds| < RoomOf(cfg).data
    ensures Inner(cfg, m).Some?
    ensures At(cfg, image, Inner(cfg, m).value, Plus(i, 2), Stacks([n] + t.ds, t.rs))
  {
    hide Inner, CodeField, InStacks, Holds, ConfigOk, Plus, Minus;
    assert Plus(i, 1) in m.mem && m.mem[Plus(i, 1)] == n;
    hide Fixed, Laid;
    NextReaches(cfg, image, m, i, t, LiteralCode);
    PushData(cfg, image, m.mem, m.s, m.r, t, n);
    PlusTwice(i, 1, 1);
  }

  /** ENTER saves the caller's place on the return stack and starts the body. */
  lemma RunEnter(cfg: Config, image: Memory, m: Machine, i: Word, t: Stacks)
    requires ConfigOk(cfg) && At(cfg, image, m, i, t)
    requires Fixed(cfg, image, i) && CodeField(cfg, image, Rel(cfg, image[i]), EnterCode)
    requires |t.rs| < RoomOf(cfg).ret
    ensures Inner(cfg, m).Some?
    ensures At(cfg, image, Inner(cfg, m).value, Plus(Rel(cfg, image[i]), 1), Stacks(t.ds, [Plus(i, 1)] + t.rs))
  {
    NextReaches(cfg, image, m, i, t, EnterCode);
    PushReturn(cfg, image, m.mem, m.s, m.r, t, Plus(i, 1));
    hide Inner, Laid, CodeField, Fixed;
  }

  /** EXIT takes the place on top of the return stack. */
  lemma RunExit(cfg: Config, image: Memory, m: Machine, i: Word, t: Stacks)
    requires At(cfg, image, m, i, t) && |t.rs| > 0
    requires Thread(cfg, image, i, [])
    ensures Inner(cfg, m).Some?
    ensures At(cfg, image, Inner(cfg, m).value, t.rs[0], Stacks(t.ds, t.rs[1..]))
  {
    NextReaches(cfg, image, m, i, t, ExitCode);
    PeekReturn(cfg, image, m.mem, m.s, m.r, t);
    PopReturn(cfg, image, m.mem, m.s, m.r, t);
    hide Inner, Laid, CodeField, Fixed;
  }

  lemma IterateOnce(cfg: Config, m: Machine)
    ensures Iterate(cfg, m, 1) == Inner(cfg, m)
  {
    assert Iterate(cfg, m, 0) == Some(m);
  }

  lemma IterateAround(cfg: Config, m: Machine, m1: Machine, m2: Machine, n: Machine, body: seq<Item>)
    requires Inner(cfg, m) == Some(m1) && Inner(cfg, m2) == Some(n)
    requires Iterate(cfg, m1, BodySteps(body)) == Some(m2)
    ensures Iterate(cfg, m, Steps(Colon(body))) == Some(n)
  {
    hide Inner;
    assert Iterate(cfg, m, 0) == Some(m) && Iterate(cfg, m, 1) == Some(m1);
    IterateAdd(cfg, m, 1, BodySteps(body));
  }

  lemma ColonMeaning(body: seq<Item>, t: Stacks, outer: Stack, room: Room)
    requires Run(Colon(body), t, |outer|, room).Some?
    ensures |t.rs + outer| < room.ret
    ensures var u := RunBody(body, Stacks(t.ds, []), |t.rs + outer| + 1, room);
            u.Some? && u.value.rs == []
            && Upon(Run(Colon(body), t, |outer|, room).value, outer) == Stacks(u.value.ds, t.rs + outer)
  {
    hide RunBody;
  }

  /** The main theorem: the inner interpreter, started at a cell that names a stored word,
      comes back to the next cell after exactly `Steps(w)` passes with the word's meaning
      applied to the stacks, everything under the word's own part of the return stack as it
      was, and the dictionary intact. */
  lemma {:induction false} RunWord(cfg: Config, image: Memory, m: Machine, i: Word, w: Definition,
                                   t: Stacks, outer: Stack) returns (n: Machine)
    requires ConfigOk(cfg) && At(cfg, image, m, i, Upon(t, outer))
    requires Fixed(cfg, image, i) && Stored(cfg, image, Rel(cfg, image[i]), w)
    requires Run(w, t, |outer|, RoomOf(cfg)).Some?
    ensures Iterate(cfg, m, Steps(w)) == Some(n)
    ensures At(cfg, image, n, Plus(i, 1), Upon(Run(w, t, |outer|, RoomOf(cfg)).value, outer))
    decreases w
  {
    hide Inner, At, ConfigOk, Fixed, CodeField, Plus, Rel, Run, RunBody, Iterate, RoomOf, Stored;
    match w
    case Primitive(p) =>
      RunPrim(cfg, image, m, i, p, t, outer);
      n := Inner(cfg, m).value;
      IterateOnce(cfg, m);
    case Colon(body) =>
      ColonMeaning(body, t, outer, RoomOf(cfg));
      n := RunColon(cfg, image, m, i, body, t.ds, t.rs + outer);
  }

  lemma UponNothing(ds: Stack, outer: Stack)
    ensures Upon(Stacks(ds, []), outer) == Stacks(ds, outer)
  {
    assert [] + outer == outer;
  }

  lemma {:induction false} RunColon(cfg: Config, image: Memory, m: Machine, i: Word, body: seq<Item>,
                                    ds: Stack, outer: Stack) returns (n: Machine)
    requires ConfigOk(cfg) && At(cfg, image, m, i, Stacks(ds, outer))
    requires Fixed(cfg, image, i) && Stored(cfg, image, Rel(cfg, image[i]), Colon(body))
    requires |outer| < RoomOf(cfg).ret
    requires RunBody(body, Stacks(ds, []), |outer| + 1, RoomOf(cfg)).Some?
    requires RunBody(body, Stacks(ds, []), |outer| + 1, RoomOf(cfg)).value.rs == []
    ensures Iterate(cfg, m, Steps(Colon(body))) == Some(n)
    ensures At(cfg, image, n, Plus(i, 1),
               Stacks(RunBody(body, Stacks(ds, []), |outer| + 1, RoomOf(cfg)).value.ds, outer))
    decreases body, 1
  {
    var start := Plus(Rel(cfg, image[i]), 1);
    assert CodeField(cfg, image, Rel(cfg, image[i]), EnterCode) && Thread(cfg, image, start, body);
    hide Inner, At, ConfigOk, Fixed, CodeField, Plus, Rel, Thread, Run, Iterate, RoomOf, RunBody, BodyWidth;
    hide Steps, BodySteps, Stored, Upon;
    var saved := [Plus(i, 1)] + outer;
    RunEnter(cfg, image, m, i, Stacks(ds, outer));
    var m1 := Inner(cfg, m).value;
    UponNothing(ds, saved);
    var m2 := RunThread(cfg, image, m1, start, body, Stacks(ds, []), saved);
    ThreadEnd(cfg, image, start, body);
    var u := RunBody(body, Stacks(ds, []), |saved|, RoomOf(cfg)).value;
    UponNothing(u.ds, saved);
    RunExit(cfg, image, m2, Plus(start, BodyWidth(body)), Stacks(u.ds, saved));
    n := Inner(cfg, m2).value;
    IterateAround(cfg, m, m1, m2, n, body);
    assert saved[1..] == outer;
  }

  lemma {:induction false} ThreadEnd(cfg: Config, image: Memory, a: Word, body: seq<Item>)
    requires Thread(cfg, image, a, body)
    ensures Thread(cfg, image, Plus(a, BodyWidth(body)), [])
    decreases body
  {
    hide Fixed, StoredItem, CodeField, Plus;
    if body == [] {
      PlusTwice(a, 0, 0);
    } else {
      ThreadEnd(cfg, image, Plus(a, Width(body[0])), body[1..]);
      PlusTwice(a, Width(body[0]), BodyWidth(body[1..]));
    }
  }

  lemma {:induction false} RunThread(cfg: Config, image: Memory, m: Machine, i: Word, body: seq<Item>,
                                     t: Stacks, outer: Stack) returns (n: Machine)
    requires ConfigOk(cfg) && At(cfg, image, m, i, Upon(t, outer))
    requires Thread(cfg, image, i, body)
    requires RunBody(body, t, |outer|, RoomOf(cfg)).Some?
    ensures Iterate(cfg, m, BodySteps(body)) == Some(n)
    ensures At(cfg, image, n, Plus(i, BodyWidth(body)), Upon(RunBody(body, t, |outer|, RoomOf(cfg)).value, outer))
    decreases body, 0
  {
    hide Inner, At, ConfigOk, Fixed, CodeField, Run, RunItem, Plus, StoredItem, RoomOf;
    PlusTwice(i, 0, 0);
    if body == [] { return m; }
    var u := RunItem(body[0], t, |outer|, RoomOf(cfg)).value;
    var m1 := RunOne(cfg, image, m, i, body[0], t, outer);
    n := RunThread(cfg, image, m1, Plus(i, Width(body[0])), body[1..], u, outer);
    IterateAdd(cfg, m, ItemSteps(body[0]), BodySteps(body[1..]));
    PlusTwice(i, Width(body[0]), BodyWidth(body[1..]));
  }

  lemma {:induction false} RunOne(cfg: Config, image: Memory, m: Machine, i: Word, it: Item,
                                  t: Stacks, outer: Stack) returns (n: Machine)
    requires ConfigOk(cfg) && At(cfg, image, m, i, Upon(t, outer))
    requires StoredItem(cfg, image, i, it)
    requires RunItem(it, t, |outer|, RoomOf(cfg)).Some?
    ensures Iterate(cfg, m, ItemSteps(it)) == Some(n)
    ensures At(cfg, image, n, Plus(i, Width(it)), Upon(RunItem(it, t, |outer|, RoomOf(cfg)).value, outer))
    decreases it
  {
    hide Inner, At, ConfigOk, Fixed, CodeField, Run;
    match it
    case Call(w) =>
      n := RunWord(cfg, image, m, i, w, t, outer);
    case Literal(k) =>
      RunLiteral(cfg, image, m, i, k, Upon(t, outer));
      n := Inner(cfg, m).value;
      assert Iterate(cfg, m, 0) == Some(m);
  }

  // ----- Position independence -----

  /** The same dictionary k cells higher, with the load address raised as much, and clear of the
      stack areas. */
  ghost predicate Moved(cfg: Config, image: Memory, k: nat, high: Config, copy: Memory) {
    && high.zero == Plus(cfg.zero, k) && high.code == cfg.code
    && forall a <- image :: MovedCell(image, a, k, high, copy)
  }

  ghost predicate MovedCell(image: Memory, a: Word, k: nat, high: Config, copy: Memory)
    requires a in image
  {
    Fixed(high, copy, Plus(a, k)) && copy[Plus(a, k)] == image[a]
  }

  lemma PlusSwap(a: Word, j: int, k: int)
    ensures Plus(Plus(a, j), k) == Plus(Plus(a, k), j)
  {
    WrapPlus(a + j, k);
    WrapPlus(a + k, j);
    hide Wrap;
  }

  lemma CodeFieldMoved(cfg: Config, image: Memory, k: nat, high: Config, copy: Memory, a: Word, c: Routine)
    requires Moved(cfg, image, k, high, copy) && CodeField(cfg, image, a, c)
    ensures CodeField(high, copy, Plus(a, k), c)
  {
    hide Plus;
    assert MovedCell(image, a, k, high, copy);
  }

  /** Cells name their words by distance from the load address, so they name the moved words. */
  lemma CellMoved(cfg: Config, image: Memory, k: nat, high: Config, copy: Memory, a: Word)
    requires Moved(cfg, image, k, high, copy) && Fixed(cfg, image, a)
    ensures Fixed(high, copy, Plus(a, k)) && copy[Plus(a, k)] == image[a]
    ensures Rel(high, copy[Plus(a, k)]) == Plus(Rel(cfg, image[a]), k)
  {
    assert MovedCell(image, a, k, high, copy);
    var x, zero := image[a], cfg.zero;
    WrapPlus(x, zero + k);
    WrapPlus(x + zero, k);
    assert Plus(x, Plus(zero, k)) == Wrap(x + (zero + k)) by { hide Wrap; }
    hide Wrap, Fixed;
  }

  lemma {:induction false} StoredMoved(
      cfg: Config, image: Memory, k: nat, high: Config, copy: Memory, a: Word, w: Definition)
    requires Moved(cfg, image, k, high, copy) && Stored(cfg, image, a, w)
    ensures Stored(high, copy, Plus(a, k), w)
    decreases w, 1
  {
    hide CodeField, Plus, Moved, Fixed;
    match w
    case Primitive(p) => CodeFieldMoved(cfg, image, k, high, copy, a, PrimCode(p));
    case Colon(body) =>
      CodeFieldMoved(cfg, image, k, high, copy, a, EnterCode);
      ThreadMoved(cfg, image, k, high, copy, Plus(a, 1), body);
      PlusSwap(a, 1, k);
  }

  lemma {:induction false} ThreadMoved(
      cfg: Config, image: Memory, k: nat, high: Config, copy: Memory, a: Word, body: seq<Item>)
    requires Moved(cfg, image, k, high, copy) && Thread(cfg, image, a, body)
    ensures Thread(high, copy, Plus(a, k), body)
    decreases body, 0
  {
    hide CodeField, Plus, Moved, Rel, StoredItem, InStacks;
    CellMoved(cfg, image, k, high, copy, a);
    if body == [] {
      CodeFieldMoved(cfg, image, k, high, copy, Rel(cfg, image[a]), ExitCode);
    } else {
      ItemMoved(cfg, image, k, high, copy, a, body[0]);
      ThreadMoved(cfg, image, k, high, copy, Plus(a, Width(body[0])), body[1..]);
      PlusSwap(a, Width(body[0]), k);
    }
  }

  lemma {:induction false} ItemMoved(
      cfg: Config, image: Memory, k: nat, high: Config, copy: Memory, a: Word, it: Item)
    requires Moved(cfg, image, k, high, copy) && StoredItem(cfg, image, a, it)
    ensures StoredItem(high, copy, Plus(a, k), it)
    decreases it, 0
  {
    hide CodeField, Plus, Moved, Rel, InStacks;
    CellMoved(cfg, image, k, high, copy, a);
    match it
    case Call(w) => StoredMoved(cfg, image, k, high, copy, Rel(cfg, image[a]), w);
    case Literal(n) =>
      CodeFieldMoved(cfg, image, k, high, copy, Rel(cfg, image[a]), LiteralCode);
      CellMoved(cfg, image, k, high, copy, Plus(a, 1));
      PlusSwap(a, 1, k);
  }

  /** The same dictionary loaded anywhere else runs to the same stacks in as many passes. */
  lemma PositionIndependent(
      cfg: Config, image: Memory, k: nat, high: Config, copy: Memory, low: Machine, m: Machine, i: Word,
      w: Definition, t: Stacks, outer: Stack) returns (n: Machine, o: Machine)
    requires ConfigOk(cfg) && ConfigOk(high) && RoomOf(cfg) == RoomOf(high) && Moved(cfg, image, k, high, copy)
    requires Fixed(cfg, image, i) && Stored(cfg, image, Rel(cfg, image[i]), w)
    requires At(cfg, image, low, i, Upon(t, outer)) && At(high, copy, m, Plus(i, k), Upon(t, outer))
    requires Run(w, t, |outer|, RoomOf(cfg)).Some?
    ensures Iterate(cfg, low, Steps(w)) == Some(n) && Iterate(high, m, Steps(w)) == Some(o)
    ensures var u := Upon(Run(w, t, |outer|, RoomOf(cfg)).value, outer);
            At(cfg, image, n, Plus(i, 1), u) && At(high, copy, o, Plus(Plus(i, 1), k), u)
  {
    hide At, ConfigOk, InStacks, Stored, Rel, Plus, Run, Iterate, Steps, Upon, Moved, RoomOf;
    n := RunWord(cfg, image, low, i, w, t, outer);
    CellMoved(cfg, image, k, high, copy, i);
    StoredMoved(cfg, image, k, high, copy, Rel(cfg, image[i]), w);
    o := RunWord(high, copy, m, Plus(i, k), w, t, outer);
    PlusSwap(i, 1, k);
  }

  // ----- What lies under the data stack is untouched -----

  lemma EffectUnder(p: Prim, t: Stacks, rest: Stack)
    requires Effect(p, t).Some?
    ensures Effect(p, Stacks(t.ds + rest, t.rs))
            == Some(Stacks(Effect(p, t).value.ds + rest, Effect(p, t).value.rs))
  {
    hide Rhs;
    var ds := t.ds;
    match p
    case Binop(op) => DropUnder([Rhs(op, ds[1], ds[0], 0)], ds, 2, rest);
    case Swap => DropUnder([ds[1], ds[0]], ds, 2, rest);
    case Rot => DropUnder([ds[2], ds[0], ds[1]], ds, 3, rest);
    case Over => DropUnder([ds[1]], ds, 0, rest);
    case Tuck => DropUnder([ds[0], ds[1], ds[0]], ds, 2, rest);
    case Dup => DropUnder([ds[0]], ds, 0, rest);
    case Drop => DropUnder([], ds, 1, rest);
    case Nip => DropUnder([ds[0]], ds, 2, rest);
    case ToR => DropUnder([], ds, 1, rest);
    case FromR => DropUnder([t.rs[0]], ds, 0, rest);
    case FetchR => DropUnder([t.rs[0]], ds, 0, rest);
  }

  lemma DropUnder(top: Stack, ds: Stack, k: nat, rest: Stack)
    requires k <= |ds|
    ensures top + ds[k..] + rest == top + (ds + rest)[k..]
    ensures [] + ds[k..] == ds[k..] && [] + (ds + rest)[k..] == (ds + rest)[k..]
    ensures k == 0 ==> ds[k..] == ds && (ds + rest)[k..] == ds + rest
  {
  }

  /** A word that succeeds on a stack succeeds, with the same effect, on a deeper one. */
  lemma {:induction false} RunUnder(w: Definition, t: Stacks, rest: Stack, depth: nat, room: Room)
    requires |rest| <= room.data && Run(w, t, depth, Room(room.data - |rest|, room.ret)).Some?
    ensures var u := Run(w, t, depth, Room(room.data - |rest|, room.ret)).value;
            Run(w, Stacks(t.ds + rest, t.rs), depth, room) == Some(Stacks(u.ds + rest, u.rs))
  {
    hide Effect, RunBody;
    match w
    case Primitive(p) => EffectUnder(p, t, rest);
    case Colon(body) => RunBodyUnder(body, Stacks(t.ds, []), rest, depth + |t.rs| + 1, room);
  }

  lemma {:induction false} RunBodyUnder(body: seq<Item>, t: Stacks, rest: Stack, depth: nat, room: Room)
    requires |rest| <= room.data && RunBody(body, t, depth, Room(room.data - |rest|, room.ret)).Some?
    ensures var u := RunBody(body, t, depth, Room(room.data - |rest|, room.ret)).value;
            RunBody(body, Stacks(t.ds + rest, t.rs), depth, room) == Some(Stacks(u.ds + rest, u.rs))
  {
    hide Run;
    if body != [] {
      var u := RunItem(body[0], t, depth, Room(room.data - |rest|, room.ret)).value;
      RunItemUnder(body[0], t, rest, depth, room);
      hide RunItem;
      RunBodyUnder(body[1..], u, rest, depth, room);
    }
  }

  lemma {:induction false} RunItemUnder(it: Item, t: Stacks, rest: Stack, depth: nat, room: Room)
    requires |rest| <= room.data && RunItem(it, t, depth, Room(room.data - |rest|, room.ret)).Some?
    ensures var u := RunItem(it, t, depth, Room(room.data - |rest|, room.ret)).value;
            RunItem(it, Stacks(t.ds + rest, t.rs), depth, room) == Some(Stacks(u.ds + rest, u.rs))
  {
    hide Run;
    match it
    case Call(w) => RunUnder(w, t, rest, depth, room);
    case Literal(n) => assert [n] + t.ds + rest == [n] + (t.ds + rest);
  }

  // ----- 2DUP, 2SWAP and 2OVER -----

  const TWO_DUP := Colon([Call(Primitive(Over)), Call(Primitive(Over))])

  const TWO_SWAP := Colon([
    Call(Primitive(ToR)), Call(Primitive(Rot)), Call(Primitive(Rot)),
    Call(Primitive(FromR)), Call(Primitive(Rot)), Call(Primitive(Rot))])

  const TWO_OVER := Colon([
    Call(TWO_SWAP), Call(TWO_DUP), Call(Primitive(ToR)), Call(Primitive(ToR)),
    Call(TWO_SWAP), Call(Primitive(FromR)), Call(Primitive(FromR))])

  lemma RunCons(it: Item, body: seq<Item>, t: Stacks, depth: nat, room: Room)
    ensures RunBody([it] + body, t, depth, room) ==
            var u := RunItem(it, t, depth, room);
            if u.None? then None else RunBody(body, u.value, depth, room)
  {
    assert ([it] + body)[1..] == body;
  }

  lemma RunPrimCons(p: Prim, body: seq<Item>, t: Stacks, depth: nat, room: Room, u: Stacks)
    requires Effect(p, t) == Some(u) && Within(u, depth, room)
    ensures RunBody([Call(Primitive(p))] + body, t, depth, room) == RunBody(body, u, depth, room)
  {
    hide Effect, RunBody;
    RunCons(Call(Primitive(p)), body, t, depth, room);
  }

  lemma RunNothing(t: Stacks, depth: nat, room: Room)
    ensures RunBody([], t, depth, room) == Some(t)
  {
  }

  lemma RotOn(x1: Word, x2: Word, x3: Word, rest: Stack, rs: Stack)
    ensures Effect(Rot, Stacks([x3, x2, x1] + rest, rs)) == Some(Stacks([x1, x3, x2] + rest, rs))
  {
    assert ([x3, x2, x1] + rest)[3..] == rest;
  }

  lemma ToROn(x: Word, rest: Stack, rs: Stack)
    ensures Effect(ToR, Stacks([x] + rest, rs)) == Some(Stacks(rest, [x] + rs))
  {
    assert ([x] + rest)[1..] == rest;
  }

  lemma FromROn(x: Word, ds: Stack, rest: Stack)
    ensures Effect(FromR, Stacks(ds, [x] + rest)) == Some(Stacks([x] + ds, rest))
  {
    assert ([x] + rest)[1..] == rest;
  }

  /** ( x1 x2 -- x1 x2 x1 x2 ) */
  lemma TwoDupDiagram(x1: Word, x2: Word, rest: Stack, rs: Stack, depth: nat, room: Room)
    requires |rest| + 4 <= room.data && depth + |rs| + 1 <= room.ret
    ensures Run(TWO_DUP, Stacks([x2, x1] + rest, rs), depth, room) == Some(Stacks([x2, x1, x2, x1] + rest, rs))
  {
    var d, small := depth + |rs| + 1, Room(room.data - |rest|, room.ret);
    var t0, t1, t2 := Stacks([x2, x1], []), Stacks([x1, x2, x1], []), Stacks([x2, x1, x2, x1], []);
    var over := Call(Primitive(Over));
    assert [x1] + t0.ds == t1.ds && [x2] + t1.ds == t2.ds;
    hide RunBody;
    RunPrimCons(Over, [over], t0, d, small, t1);
    RunPrimCons(Over, [], t1, d, small, t2);
    assert [over] + [over] == TWO_DUP.body && [over] + [] == [over];
    RunNothing(t2, d, small);
    RunBodyUnder(TWO_DUP.body, t0, rest, d, room);
  }

  /** ( x1 x2 x3 x4 -- x3 x4 x1 x2 ), section 6.1.0430 of ANS Forth */
  lemma TwoSwapDiagram(x1: Word, x2: Word, x3: Word, x4: Word, rest: Stack, rs: Stack, depth: nat, room: Room)
    requires |rest| + 4 <= room.data && depth + |rs| + 2 <= room.ret
    ensures Run(TWO_SWAP, Stacks([x4, x3, x2, x1] + rest, rs), depth, room)
            == Some(Stacks([x2, x1, x4, x3] + rest, rs))
  {
    var d, small := depth + |rs| + 1, Room(room.data - |rest|, room.ret);
    var t0, t1 := Stacks([x4, x3, x2, x1], []), Stacks([x3, x2, x1], [x4]);
    var t2, t3 := Stacks([x1, x3, x2], [x4]), Stacks([x2, x1, x3], [x4]);
    var t4, t5, t6 := Stacks([x4, x2, x1, x3], []), Stacks([x1, x4, x2, x3], []), Stacks([x2, x1, x4, x3], []);
    TwoSwapEffects(x1, x2, x3, x4);
    hide Effect;
    TwoSwapChain(d, small, t0, t1, t2, t3, t4, t5, t6);
    hide RunBody;
    RunBodyUnder(TWO_SWAP.body, t0, rest, d, room);
  }

  lemma TwoSwapEffects(x1: Word, x2: Word, x3: Word, x4: Word)
    ensures Effect(ToR, Stacks([x4, x3, x2, x1], [])) == Some(Stacks([x3, x2, x1], [x4]))
    ensures Effect(Rot, Stacks([x3, x2, x1], [x4])) == Some(Stacks([x1, x3, x2], [x4]))
    ensures Effect(Rot, Stacks([x1, x3, x2], [x4])) == Some(Stacks([x2, x1, x3], [x4]))
    ensures Effect(FromR, Stacks([x2, x1, x3], [x4])) == Some(Stacks([x4, x2, x1, x3], []))
    ensures Effect(Rot, Stacks([x4, x2, x1, x3], [])) == Some(Stacks([x1, x4, x2, x3], []))
    ensures Effect(Rot, Stacks([x1, x4, x2, x3], [])) == Some(Stacks([x2, x1, x4, x3], []))
  {
    ToROn(x4, [x3, x2, x1], []);
    RotOn(x1, x2, x3, [], [x4]);
    RotOn(x2, x3, x1, [], [x4]);
    FromROn(x4, [x2, x1, x3], []);
    RotOn(x1, x2, x4, [x3], []);
    RotOn(x2, x4, x1, [x3], []);
    hide Effect;
    assert [x4] + [x3, x2, x1] == [x4, x3, x2, x1] && [x4] + [x2, x1, x3] == [x4, x2, x1, x3] && [x4] + [] == [x4];
    assert [x3, x2, x1] + [] == [x3, x2, x1] && [x1, x3, x2] + [] == [x1, x3, x2] && [x2, x1, x3] + [] == [x2, x1, x3];
    assert [x4, x2, x1] + [x3] == [x4, x2, x1, x3] && [x1, x4, x2] + [x3] == [x1, x4, x2, x3];
    assert [x2, x1, x4] + [x3] == [x2, x1, x4, x3];
  }

  lemma TwoSwapChain(d: nat, room: Room, t0: Stacks, t1: Stacks, t2: Stacks, t3: Stacks, t4: Stacks,
                     t5: Stacks, t6: Stacks)
    requires Effect(ToR, t0) == Some(t1) && Effect(Rot, t1) == Some(t2) && Effect(Rot, t2) == Some(t3)
    requires Effect(FromR, t3) == Some(t4) && Effect(Rot, t4) == Some(t5) && Effect(Rot, t5) == Some(t6)
    requires Within(t1, d, room) && Within(t2, d, room) && Within(t3, d, room)
    requires Within(t4, d, room) && Within(t5, d, room) && Within(t6, d, room)
    ensures RunBody(TWO_SWAP.body, t0, d, room) == Some(t6)
  {
    var toR, rot, fromR := Call(Primitive(ToR)), Call(Primitive(Rot)), Call(Primitive(FromR));
    hide RunBody, Effect, Within;
    RunPrimCons(ToR, [rot, rot, fromR, rot, rot], t0, d, room, t1);
    RunPrimCons(Rot, [rot, fromR, rot, rot], t1, d, room, t2);
    RunPrimCons(Rot, [fromR, rot, rot], t2, d, room, t3);
    RunPrimCons(FromR, [rot, rot], t3, d, room, t4);
    RunPrimCons(Rot, [rot], t4, d, room, t5);
    RunPrimCons(Rot, [], t5, d, room, t6);
    RunNothing(t6, d, room);
    assert TWO_SWAP.body == [toR] + [rot, rot, fromR, rot, rot];
    assert [rot, rot, fromR, rot, rot] == [rot] + [rot, fromR, rot, rot];
    assert [rot, fromR, rot, rot] == [rot] + [fromR, rot, rot];
    assert [fromR, rot, rot] == [fromR] + [rot, rot];
    assert [rot, rot] == [rot] + [rot] && [rot] == [rot] + [];
  }

  /** ( x1 x2 x3 x4 -- x1 x2 x3 x4 x1 x2 ), section 6.1.0400 of ANS Forth */
  lemma TwoOverDiagram(x1: Word, x2: Word, x3: Word, x4: Word, rest: Stack, rs: Stack, depth: nat, room: Room)
    requires |rest| + 6 <= room.data && depth + |rs| + 5 <= room.ret
    ensures Run(TWO_OVER, Stacks([x4, x3, x2, x1] + rest, rs), depth, room)
            == Some(Stacks([x2, x1, x4, x3, x2, x1] + rest, rs))
  {
    var d, small := depth + |rs| + 1, Room(room.data - |rest|, room.ret);
    var t0, t1 := Stacks([x4, x3, x2, x1], []), Stacks([x2, x1, x4, x3], []);
    var t2, t3 := Stacks([x2, x1, x2, x1, x4, x3], []), Stacks([x1, x2, x1, x4, x3], [x2]);
    var t4, t5 := Stacks([x2, x1, x4, x3], [x1, x2]), Stacks([x4, x3, x2, x1], [x1, x2]);
    var t6, t7 := Stacks([x1, x4, x3, x2, x1], [x2]), Stacks([x2, x1, x4, x3, x2, x1], []);
    hide RunBody, Effect;
    TwoOverEffects(x1, x2, x3, x4);
    TwoOverCalls(x1, x2, x3, x4, d, small);
    TwoOverChain(d, small, t0, t1, t2, t3, t4, t5, t6, t7);
    RunBodyUnder(TWO_OVER.body, t0, rest, d, room);
  }

  lemma TwoOverEffects(x1: Word, x2: Word, x3: Word, x4: Word)
    ensures Effect(ToR, Stacks([x2, x1, x2, x1, x4, x3], [])) == Some(Stacks([x1, x2, x1, x4, x3], [x2]))
    ensures Effect(ToR, Stacks([x1, x2, x1, x4, x3], [x2])) == Some(Stacks([x2, x1, x4, x3], [x1, x2]))
    ensures Effect(FromR, Stacks([x4, x3, x2, x1], [x1, x2])) == Some(Stacks([x1, x4, x3, x2, x1], [x2]))
    ensures Effect(FromR, Stacks([x1, x4, x3, x2, x1], [x2])) == Some(Stacks([x2, x1, x4, x3, x2, x1], []))
  {
    ToROn(x2, [x1, x2, x1, x4, x3], []);
    ToROn(x1, [x2, x1, x4, x3], [x2]);
    FromROn(x1, [x4, x3, x2, x1], [x2]);
    FromROn(x2, [x1, x4, x3, x2, x1], []);
    hide Effect;
    assert [x2] + [x1, x2, x1, x4, x3] == [x2, x1, x2, x1, x4, x3] && [x2] + [] == [x2];
    assert [x1] + [x2, x1, x4, x3] == [x1, x2, x1, x4, x3] && [x1] + [x2] == [x1, x2];
    assert [x1] + [x4, x3, x2, x1] == [x1, x4, x3, x2, x1];
    assert [x2] + [x1, x4, x3, x2, x1] == [x2, x1, x4, x3, x2, x1];
  }

  lemma TwoOverCalls(x1: Word, x2: Word, x3: Word, x4: Word, d: nat, room: Room)
    requires 6 <= room.data && d + 4 <= room.ret
    ensures Run(TWO_SWAP, Stacks([x4, x3, x2, x1], []), d, room) == Some(Stacks([x2, x1, x4, x3], []))
    ensures Run(TWO_DUP, Stacks([x2, x1, x4, x3], []), d, room) == Some(Stacks([x2, x1, x2, x1, x4, x3], []))
    ensures Run(TWO_SWAP, Stacks([x2, x1, x4, x3], [x1, x2]), d, room) == Some(Stacks([x4, x3, x2, x1], [x1, x2]))
  {
    TwoSwapDiagram(x1, x2, x3, x4, [], [], d, room);
    TwoDupDiagram(x1, x2, [x4, x3], [], d, room);
    TwoSwapDiagram(x3, x4, x1, x2, [], [x1, x2], d, room);
    hide Run;
    assert [x2, x1] + [x4, x3] == [x2, x1, x4, x3] && [x2, x1, x2, x1] + [x4, x3] == [x2, x1, x2, x1, x4, x3];
    assert [x4, x3, x2, x1] + [] == [x4, x3, x2, x1] && [x2, x1, x4, x3] + [] == [x2, x1, x4, x3];
  }

  lemma TwoOverChain(d: nat, room: Room, t0: Stacks, t1: Stacks, t2: Stacks, t3: Stacks, t4: Stacks,
                     t5: Stacks, t6: Stacks, t7: Stacks)
    requires Run(TWO_SWAP, t0, d, room) == Some(t1) && Run(TWO_DUP, t1, d, room) == Some(t2)
    requires Effect(ToR, t2) == Some(t3) && Effect(ToR, t3) == Some(t4)
    requires Run(TWO_SWAP, t4, d, room) == Some(t5)
    requires Effect(FromR, t5) == Some(t6) && Effect(FromR, t6) == Some(t7)
    requires Within(t3, d, room) && Within(t4, d, room) && Within(t6, d, room) && Within(t7, d, room)
    ensures RunBody(TWO_OVER.body, t0, d, room) == Some(t7)
  {
    var toR, fromR, swap2, dup2 := Call(Primitive(ToR)), Call(Primitive(FromR)), Call(TWO_SWAP), Call(TWO_DUP);
    hide RunBody, Effect, Run, Within;
    RunCons(swap2, [dup2, toR, toR, swap2, fromR, fromR], t0, d, room);
    RunCons(dup2, [toR, toR, swap2, fromR, fromR], t1, d, room);
    RunPrimCons(ToR, [toR, swap2, fromR, fromR], t2, d, room, t3);
    RunPrimCons(ToR, [swap2, fromR, fromR], t3, d, room, t4);
    RunCons(swap2, [fromR, fromR], t4, d, room);
    RunPrimCons(FromR, [fromR], t5, d, room, t6);
    RunPrimCons(FromR, [], t6, d, room, t7);
    RunNothing(t7, d, room);
    assert TWO_OVER.body == [swap2] + [dup2, toR, toR, swap2, fromR, fromR];
    assert [dup2, toR, toR, swap2, fromR, fromR] == [dup2] + [toR, toR, swap2, fromR, fromR];
    assert [toR, toR, swap2, fromR, fromR] == [toR] + [toR, swap2, fromR, fromR];
    assert [toR, swap2, fromR, fromR] == [toR] + [swap2, fromR, fromR];
    assert [swap2, fromR, fromR] == [swap2] + [fromR, fromR];
    assert [fromR, fromR] == [fromR] + [fromR] && [fromR] == [fromR] + [];
  }

  /** 2OVER on the machine, wherever the dictionary and the stacks are. */
  lemma TwoOverRuns(cfg: Config, image: Memory, m: Machine, i: Word,
                    x1: Word, x2: Word, x3: Word, x4: Word, rest: Stack, rs: Stack) returns (n: Machine)
    requires ConfigOk(cfg) && At(cfg, image, m, i, Stacks([x4, x3, x2, x1] + rest, rs))
    requires Fixed(cfg, image, i) && Stored(cfg, image, Rel(cfg, image[i]), TWO_OVER)
    requires |rest| + 6 <= RoomOf(cfg).data && |rs| + 5 <= RoomOf(cfg).ret
    ensures Iterate(cfg, m, Steps(TWO_OVER)) == Some(n)
    ensures At(cfg, image, n, Plus(i, 1), Stacks([x2, x1, x4, x3, x2, x1] + rest, rs))
  {
    hide At, Fixed, ConfigOk, RoomOf, Iterate, Run, Stored, Steps;
    TwoOverDiagram(x1, x2, x3, x4, rest, [], |rs|, RoomOf(cfg));
    UponNothing([x4, x3, x2, x1] + rest, rs);
    UponNothing([x2, x1, x4, x3, x2, x1] + rest, rs);
    n := RunWord(cfg, image, m, i, TWO_OVER, Stacks([x4, x3, x2, x1] + rest, []), rs);
  }

  // ----- The machine, register by register -----

  /** The Forth registers and memory, updated by the assembly of NEXT and of each routine. */
  class Engine {
    const cfg: Config
    var i: Word
    var w: Word
    var x: Word
    var s: Word
    var r: Word
    var t0: Word
    var t1: Word
    var t2: Word
    var mem: Memory

    constructor (cfg: Config, m: Machine)
      ensures this.cfg == cfg && State() == m
    {
      this.cfg := cfg;
      i, w, x, s, r, t0, t1, t2, mem := m.i, m.w, m.x, m.s, m.r, m.t0, m.t1, m.t2, m.mem;
    }

    ghost function State(): Machine
      reads this
    {
      Machine(i, w, x, s, r, t0, t1, t2, mem)
    }

    /** NEXT, up to its jump. */
    method FetchNext() returns (ok: bool)
      modifies this
      ensures ok == old(NextCell(cfg, State())).Some?
      ensures ok ==> State() == old(NextCell(cfg, State())).value
    {
      if i !in mem { return false; }
      w := mem[i];
      w := Rel(cfg, w);
      if w !in mem { return false; }
      i := Plus(i, 1);
      x := mem[w];
      ok := true;
    }

    method Enter() returns (ok: bool)
      modifies this
      ensures ok == old(Body(State(), EnterCode)).Some?
      ensures ok ==> State() == old(Body(State(), EnterCode)).value
    {
      if r !in mem { return false; }
      mem := mem[r := i];
      r := Minus(r, 1);
      i := Plus(w, 1);
      ok := true;
    }

    method Exit() returns (ok: bool)
      modifies this
      ensures ok == old(Body(State(), ExitCode)).Some?
      ensures ok ==> State() == old(Body(State(), ExitCode)).value
    {
      if Plus(r, 1) !in mem { return false; }
      r := Plus(r, 1);
      i := mem[r];
      ok := true;
    }

    method PushLiteral() returns (ok: bool)
      modifies this
      ensures ok == old(Body(State(), LiteralCode)).Some?
      ensures ok ==> State() == old(Body(State(), LiteralCode)).value
    {
      if i !in mem || s !in mem { return false; }
      w := mem[i];
      i := Plus(i, 1);
      mem := mem[s := w];
      s := Minus(s, 1);
      ok := true;
    }

    method BinaryOperator(op: Op) returns (ok: bool)
      modifies this
      ensures ok == old(Body(State(), PrimCode(Binop(op)))).Some?
      ensures ok ==> State() == old(Body(State(), PrimCode(Binop(op)))).value
    {
      hide Rhs, Plus, Minus;
      if Plus(s, 1) !in mem || Plus(s, 2) !in mem || !Defined(op, mem[Plus(s, 1)]) { return false; }
      t0 := mem[Plus(s, 2)];
      t1 := mem[Plus(s, 1)];
      w := Rhs(op, t0, t1, 0);
      StepsOfPointer(s);
      s := Plus(s, 1);
      mem := mem[Plus(s, 1) := w];
      ok := true;
    }

    method ShuffleStack(p: Prim) returns (ok: bool)
      requires p.Swap? || p.Rot? || p.Tuck? || p.Nip?
      modifies this
      ensures ok == old(Body(State(), PrimCode(p))).Some?
      ensures ok ==> State() == old(Body(State(), PrimCode(p))).value
    {
      hide Plus, Minus, Rhs;
      StepsOfPointer(s);
      if Plus(s, 1) !in mem || Plus(s, 2) !in mem { return false; }
      ok := true;
      match p
      case Swap =>
        t0, t1 := mem[Plus(s, 2)], mem[Plus(s, 1)];
        mem := mem[Plus(s, 2) := t1];
        mem := mem[Plus(s, 1) := t0];
      case Rot =>
        if Plus(s, 3) !in mem { return false; }
        t0, t1, t2 := mem[Plus(s, 3)], mem[Plus(s, 2)], mem[Plus(s, 1)];
        mem := mem[Plus(s, 3) := t1];
        mem := mem[Plus(s, 2) := t2];
        mem := mem[Plus(s, 1) := t0];
      case Tuck =>
        if s !in mem { return false; }
        t0, t1 := mem[Plus(s, 2)], mem[Plus(s, 1)];
        s := Minus(s, 1);
        mem := mem[Plus(s, 3) := t1];
        mem := mem[Plus(s, 2) := t0];
        mem := mem[Plus(s, 1) := t1];
      case Nip =>
        w := mem[Plus(s, 1)];
        mem := mem[Plus(s, 2) := w];
        s := Plus(s, 1);
    }

    method CopyOrMove(p: Prim) returns (ok: bool)
      requires !(p.Binop? || p.Swap? || p.Rot? || p.Tuck? || p.Nip?)
      modifies this
      ensures ok == old(Body(State(), PrimCode(p))).Some?
      ensures ok ==> State() == old(Body(State(), PrimCode(p))).value
    {
      hide Plus, Minus, Rhs;
      StepsOfPointer(s);
      ok := true;
      match p
      case Over =>
        if s !in mem || Plus(s, 2) !in mem { return false; }
        s := Minus(s, 1);
        w := mem[Plus(s, 3)];
        mem := mem[Plus(s, 1) := w];
      case Dup =>
        if s !in mem || Plus(s, 1) !in mem { return false; }
        w := mem[Plus(s, 1)];
        s := Minus(s, 1);
        mem := mem[Plus(s, 1) := w];
      case Drop =>
        s := Plus(s, 1);
      case ToR =>
        if r !in mem || Plus(s, 1) !in mem { return false; }
        w := mem[Plus(s, 1)];
        mem := mem[r := w];
        r := Minus(r, 1);
        s := Plus(s, 1);
      case FromR =>
        if s !in mem || Plus(r, 1) !in mem { return false; }
        w := mem[Plus(r, 1)];
        r := Plus(r, 1);
        s := Minus(s, 1);
        mem := mem[Plus(s, 1) := w];
      case FetchR =>
        if s !in mem || Plus(r, 1) !in mem { return false; }
        w := mem[Plus(r, 1)];
        s := Minus(s, 1);
        mem := mem[Plus(s, 1) := w];
    }

    /** NEXT and whatever it jumps to. */
    method Pass() returns (ok: bool)
      modifies this
      ensures ok == old(Inner(cfg, State())).Some?
      ensures ok ==> State() == old(Inner(cfg, State())).value
    {
      hide NextCell, Body;
      ok := FetchNext();
      if !ok || x !in cfg.code { return false; }
      match cfg.code[x]
      case EnterCode => ok := Enter();
      case ExitCode => ok := Exit();
      case LiteralCode => ok := PushLiteral();
      case PrimCode(p) =>
        match p
        case Binop(op) => ok := BinaryOperator(op);
        case Swap | Rot | Tuck | Nip => ok := ShuffleStack(p);
        case _ => ok := CopyOrMove(p);
    }

    /** The interpreter loop, for a given number of passes. */
    method Interpret(passes: nat) returns (ok: bool)
      modifies this
      ensures ok == old(Iterate(cfg, State(), passes)).Some?
      ensures ok ==> State() == old(Iterate(cfg, State(), passes)).value
    {
      hide Inner;
      ghost var start := State();
      ok := true;
      for n := 0 to passes
        invariant ok && Iterate(cfg, start, n) == Some(State())
      {
        ok := Pass();
        if !ok {
          Stuck(cfg, start, n + 1, passes);
          return;
        }
      }
    }
  }

  lemma {:induction false} Stuck(cfg: Config, m: Machine, a: nat, b: nat)
    requires a <= b && Iterate(cfg, m, a).None?
    ensures Iterate(cfg, m, b).None?
  {
    hide Inner;
    if a < b { Stuck(cfg, m, a, b - 1); }
  }

  lemma StepsOfPointer(s: Word)
    ensures Plus(Plus(s, 1), 1) == Plus(s, 2)
    ensures Plus(Minus(s, 1), 1) == s && Plus(Minus(s, 1), 2) == Plus(s, 1) && Plus(Minus(s, 1), 3) == Plus(s, 2)
  {
    WrapPlus(s + 1, 1);
    WrapPlus(s - 1, 1);
    WrapPlus(s - 1, 2);
    WrapPlus(s - 1, 3);
    hide Wrap;
    WrapSmall(s);
  }
}
