/** jit_run_sim: hooks that watch the interpreter, cache hot blocks and compile them. */
module Jit {
  import opened Options
  import opened Words
  import opened Isa
  import opened X86
  import opened JitCompiler

  /** struct basic_block; it is filed under its base address. */
  datatype BasicBlock = BasicBlock(
    runCount: nat, complete: bool, len: nat,
    compiled: Option<seq<Instr>>, cache: Option<seq<Word>>)

  // ----- What the guest program must not do -----

  /** Step n runs an instruction that writes P. */
  ghost predicate Jumps(init: State, n: nat) {
    var pc := StepN(init, n).regs[P];
    pc in init.mem && WritesP(Decode(init.mem[pc]))
  }

  /** The step at which the block of step n was entered. */
  ghost function Start(init: State, n: nat): (m: nat)
    ensures m <= n
  {
    if n == 0 || Jumps(init, n - 1) then n else Start(init, n - 1)
  }

  /** How often, before step n, the interpreter entered a block at `base`. */
  ghost function Entered(init: State, base: Word, n: nat): nat {
    if n == 0 then 0
    else Entered(init, base, n - 1) + if Start(init, n - 1) == n - 1 && StepN(init, n - 1).regs[P] == base then 1 else 0
  }

  /** Step n lies in a block that was entered more than `threshold` times before. */
  ghost predicate Hot(init: State, threshold: nat, n: nat) {
    var m := Start(init, n);
    Entered(init, StepN(init, m).regs[P], m) > threshold
  }

  /** The n-th step of the interpreter stops at the end address, or runs the word that was
      there at the start, and in a hot block that instruction is one compiled code agrees on. */
  ghost predicate Proceeds(init: State, threshold: nat, n: nat) {
    var t := StepN(init, n);
    var pc := t.regs[P];
    pc != END_ADDRESS ==>
      && pc in init.mem && pc in t.mem && t.mem[pc] == init.mem[pc] && Execute(t, Decode(init.mem[pc])).Next?
      && (Hot(init, threshold, n) ==> Agreeable(t, Decode(init.mem[pc])))
  }

  ghost predicate WellBehaved(init: State, threshold: nat) {
    init.regs[0] == 0 && forall n: nat :: Proceeds(init, threshold, n)
  }

  /** Within a block nothing else is entered. */
  lemma {:induction false} EnteredWithin(init: State, base: Word, n: nat)
    ensures var m := Start(init, n);
            Entered(init, base, n + 1) == Entered(init, base, m) + if StepN(init, m).regs[P] == base then 1 else 0
  {
    hide StepN, Jumps;
    if Start(init, n) != n { EnteredWithin(init, base, n - 1); }
  }

  /** One more step ends the block, and just that block has then been entered once more, or goes
      on with it. */
  lemma StepCounts(init: State, n: nat, base: Word, pc: Word)
    requires StepN(init, n).regs[P] == pc && pc in init.mem && StepN(init, Start(init, n)).regs[P] == base
    ensures if WritesP(Decode(init.mem[pc])) then
              Start(init, n + 1) == n + 1
              && forall b :: Entered(init, b, n + 1) == Entered(init, b, Start(init, n)) + if b == base then 1 else 0
            else Start(init, n + 1) == Start(init, n)
  {
    hide Decode, WritesP, StepN, Entered;
    forall b: Word
      ensures Entered(init, b, n + 1) == Entered(init, b, Start(init, n)) + if b == base then 1 else 0
    {
      EnteredWithin(init, b, n);
    }
  }

  // ----- Blocks of the program text -----

  /** The word at `a` is there and leaves P to run on to the next one. */
  ghost predicate FallsAt(text: Memory, a: int) {
    0 <= a < END_ADDRESS && a in text && !WritesP(Decode(text[a]))
  }

  /** `n` words from `base` that do not write P. */
  ghost predicate Falls(text: Memory, base: Word, n: nat) {
    forall a | base <= a < base + n :: FallsAt(text, a)
  }

  ghost predicate JumpsAt(text: Memory, a: int) {
    0 <= a < END_ADDRESS && a in text && WritesP(Decode(text[a]))
  }

  /** The one straight-line block that starts at `base`, if there is one. */
  ghost predicate IsBlock(text: Memory, base: Word, len: nat) {
    len > 0 && Falls(text, base, len - 1) && JumpsAt(text, base + len - 1)
  }

  /** A block's length is fixed by the text. */
  lemma BlockLength(text: Memory, base: Word, len: nat, n: nat)
    requires IsBlock(text, base, len) && Falls(text, base, n)
    ensures n < len
    ensures JumpsAt(text, base + n) ==> n + 1 == len
  {
    assert n < len || FallsAt(text, base + len - 1);
    assert n + 1 < len ==> FallsAt(text, base + n);
  }

  /** Word k of a block. */
  ghost function BlockWord(text: Memory, base: Word, len: nat, k: nat): (w: Word)
    requires IsBlock(text, base, len) && k < len
    ensures base + k < END_ADDRESS && base + k in text && w == text[base + k]
    ensures WritesP(Decode(w)) <==> k == len - 1
  {
    assert k < len - 1 ==> FallsAt(text, base + k);
    text[base + k]
  }

  ghost function BlockCode(text: Memory, base: Word, len: nat): (code: seq<Insn>)
    requires IsBlock(text, base, len)
    ensures |code| == len && StraightLine(code)
  {
    seq(len, k requires 0 <= k < len => Decode(BlockWord(text, base, len, k)))
  }

  /** Entering a block, the interpreter goes through every instruction of it in turn, and in a
      hot one compiled code agrees on each. */
  lemma {:induction false} FlowsThrough(init: State, threshold: nat, n: nat, base: Word, len: nat, k: nat)
    requires WellBehaved(init, threshold) && IsBlock(init.mem, base, len) && k < len
    requires Start(init, n) == n && StepN(init, n).regs[P] == base
    ensures StepN(init, n + k).regs[P] == base + k && Start(init, n + k) == n
    ensures Jumps(init, n + k) <==> k == len - 1
    ensures Entered(init, base, n) > threshold ==> Agreeable(StepN(init, n + k), BlockCode(init.mem, base, len)[k])
  {
    hide Execute, Decode, RhsAgrees, StepN;
    if k > 0 {
      FlowsThrough(init, threshold, n, base, len, k - 1);
      assert Proceeds(init, threshold, n + k - 1);
      NextP(init, threshold, n + k - 1);
    }
    assert Proceeds(init, threshold, n + k);
    var w := BlockWord(init.mem, base, len, k);
  }

  lemma NextP(init: State, threshold: nat, n: nat)
    requires Proceeds(init, threshold, n) && StepN(init, n).regs[P] != END_ADDRESS
    ensures var t := StepN(init, n);
            && Step(t).Next? && StepN(init, n + 1) == Step(t).state
            && (!WritesP(Decode(init.mem[t.regs[P]])) ==> StepN(init, n + 1).regs[P] == t.regs[P] + 1)
  {
    hide Execute, Decode, RhsAgrees, WritesP;
    var t := StepN(init, n);
    if !WritesP(Decode(init.mem[t.regs[P]])) {
      RunsOn(t, Decode(init.mem[t.regs[P]]));
    }
  }

  lemma RunsOn(s: State, i: Insn)
    requires i.WellFormed() && !WritesP(i) && Execute(s, i).Next? && s.regs[P] != END_ADDRESS
    ensures Execute(s, i).state.regs[P] == s.regs[P] + 1
  {
    hide Rhs, Operands;
  }

  /** Compiled-block correctness along the run. */
  lemma CompiledBlock(init: State, threshold: nat, n: nat, base: Word, len: nat, h: Host, u: Flags)
    requires WellBehaved(init, threshold) && IsBlock(init.mem, base, len)
    requires Start(init, n) == n && Entered(init, base, n) > threshold
    requires StepN(init, n) == State(h.regs, h.mem) && h.regs[P] == base
    ensures var r := Run(GenCode(BlockCode(init.mem, base, len), len), h, u);
            State(r.regs, r.mem) == StepN(init, n + len)
  {
    assert init.regs[0] == 0;
    hide Run, GenCode, Decode, Agreeable, StraightLine, Entered, Start, WellBehaved, Jumps;
    var s := StepN(init, n);
    var code := BlockCode(init.mem, base, len);
    forall k | 0 <= k < len
      ensures Agreeable(StepN(s, k), code[k])
    {
      FlowsThrough(init, threshold, n, base, len, k);
      StepNAdd(init, n, k);
    }
    RegisterAStaysZero(init, n);
    BlockCorrect(code, s, h, u);
    StepNAdd(init, n, len);
  }

  /** After a block the next one starts, and it counts as entered. */
  lemma BlockEnds(init: State, threshold: nat, n: nat, base: Word, len: nat)
    requires WellBehaved(init, threshold) && IsBlock(init.mem, base, len)
    requires Start(init, n) == n && StepN(init, n).regs[P] == base
    ensures Start(init, n + len) == n + len
    ensures forall b :: Entered(init, b, n + len) == Entered(init, b, n) + if b == base then 1 else 0
  {
    hide Decode, Agreeable, StraightLine, Entered, StepN, WellBehaved;
    FlowsThrough(init, threshold, n, base, len, len - 1);
    forall b: Word
      ensures Entered(init, b, n + len) == Entered(init, b, n) + if b == base then 1 else 0
    {
      EnteredWithin(init, b, n + len - 1);
    }
  }

  // ----- Code generation from the cache -----

  ghost predicate CachedAt(text: Memory, base: Word, cache: seq<Word>, k: int) {
    0 <= k < |cache| && base + k < END_ADDRESS && base + k in text && cache[k] == text[base + k]
  }

  ghost predicate CacheHolds(text: Memory, base: Word, cache: seq<Word>, n: nat) {
    forall k | 0 <= k < n :: CachedAt(text, base, cache, k)
  }

  lemma ExtendCache(text: Memory, base: Word, cache: seq<Word>, n: nat)
    requires CacheHolds(text, base, cache, n) && n < |cache|
    requires base + n < END_ADDRESS && base + n in text
    ensures CacheHolds(text, base, cache[n := text[base + n]], n + 1)
  {
    var longer := cache[n := text[base + n]];
    forall k | 0 <= k < n + 1
      ensures CachedAt(text, base, longer, k)
    {
      assert k < n ==> CachedAt(text, base, cache, k);
    }
  }

  /** jit_gen_block: append the code of each cached word in turn. */
  method JitGenBlock(len: nat, instructions: seq<Word>, ghost text: Memory, ghost base: Word)
    returns (code: seq<Instr>)
    requires |instructions| == len && IsBlock(text, base, len) && CacheHolds(text, base, instructions, len)
    ensures code == GenCode(BlockCode(text, base, len), len)
  {
    hide BuildInstruction, Decode;
    ghost var insns := BlockCode(text, base, len);
    code := [];
    for i := 0 to len
      invariant code == GenCode(insns, i)
    {
      assert CachedAt(text, base, instructions, i);
      var insn := Decode(instructions[i]);
      assert insn == insns[i];
      code := code + BuildInstruction(insn, i);
    }
  }

  // ----- The runner -----

  const DEFAULT_THRESHOLD: nat := 10

  function Threshold(setting: int): nat {
    if setting > 1 then setting else DEFAULT_THRESHOLD
  }

  class JitState {
    const sim: Simulator
    const runCountThreshold: nat
    var blocks: map<Word, BasicBlock>
    /** Base address of the block being recorded or about to run. */
    var currBB: Option<Word>
    /** The machine as it was handed over. */
    ghost const init: State

    ghost predicate BlockOk(base: Word, bb: BasicBlock) {
      && (bb.runCount > 0 ==> bb.complete)
      && (bb.complete ==> IsBlock(init.mem, base, bb.len))
      && (bb.cache.Some? ==> bb.complete && |bb.cache.value| == bb.len)
      && (bb.compiled.Some? ==>
            bb.complete && bb.runCount > runCountThreshold && bb.compiled.value == GenCode(BlockCode(init.mem, base, bb.len), bb.len))
      && (bb.compiled.None? && bb.runCount > runCountThreshold ==>
            bb.cache.Some? && CacheHolds(init.mem, base, bb.cache.value, bb.len))
    }

    /** The current block is recorded up to `pc`; only an uncompiled one is ever half done. */
    ghost predicate CurrentOk(base: Word, bb: BasicBlock, pc: Word) {
      && base <= pc && Falls(init.mem, base, pc - base)
      && (pc > base ==> Recorded(base, bb, pc - base))
    }

    ghost predicate Recorded(base: Word, bb: BasicBlock, n: nat) {
      && bb.compiled.None? && bb.runCount <= runCountThreshold
      && (bb.runCount == runCountThreshold ==>
            bb.cache.Some? && CacheHolds(init.mem, base, bb.cache.value, n))
    }

    ghost predicate BlocksOk()
      reads this
    {
      forall b <- blocks :: BlockOk(b, blocks[b])
    }

    /** Every block counts how often the interpreter has entered it and left it; one without a
        record has not been entered. */
    ghost predicate CountsOk(n: nat)
      reads this`blocks
    {
      forall b: Word :: (if b in blocks then blocks[b].runCount else 0) == Entered(init, b, Start(init, n))
    }

    /** Between blocks, or as far into the current one as P says. */
    ghost predicate Placed(n: nat)
      reads this`currBB
    {
      var m, pc := Start(init, n), StepN(init, n).regs[P];
      match currBB
      case None => m == n
      case Some(base) => m + pc == n + base && StepN(init, m).regs[P] == base
    }

    /** The machine is where the pure interpreter is after as many instructions. */
    ghost predicate InStep()
      reads this, sim
    {
      sim.Machine() == StepN(init, sim.insnsExecuted)
    }

    ghost predicate Valid()
      reads this, sim
    {
      && runCountThreshold > 1 && WellBehaved(init, runCountThreshold) && InStep() && BlocksOk()
      && CountsOk(sim.insnsExecuted) && Placed(sim.insnsExecuted)
      && (currBB.Some? ==>
            currBB.value in blocks && CurrentOk(currBB.value, blocks[currBB.value], sim.regs[P]))
    }

    /** jit_init, with the threshold parameter: values below 2 are ignored. */
    constructor (s: Simulator, setting: int)
      requires WellBehaved(s.Machine(), Threshold(setting)) && s.insnsExecuted == 0
      ensures Valid() && sim == s && init == s.Machine()
      ensures runCountThreshold == Threshold(setting) == (if setting >= 2 then setting else 10)
      ensures blocks == map[] && currBB == None
    {
      sim := s;
      init := s.Machine();
      runCountThreshold := Threshold(setting);
      blocks := map[];
      currBB := None;
    }

    /** Keep the word being interpreted, in a buffer as long as the block was last time. */
    method CacheInsn(base: Word, bb: BasicBlock, reladdr: Word, word: Word)
      requires runCountThreshold > 1 && BlocksOk() && base in blocks && blocks[base] == bb
      requires bb.runCount == runCountThreshold && bb.compiled.None?
      requires CurrentOk(base, bb, reladdr) && reladdr < END_ADDRESS && reladdr in init.mem && word == init.mem[reladdr]
      modifies this`blocks
      ensures BlocksOk() && blocks.Keys == old(blocks.Keys)
      ensures forall b <- blocks :: blocks[b].runCount == old(blocks)[b].runCount
      ensures Recorded(base, blocks[base], reladdr - base + 1)
    {
      hide GenCode, BlockCode, Decode, StepN, JumpsAt, FallsAt;
      BlockLength(init.mem, base, bb.len, reladdr - base);
      var cache: seq<Word> := if bb.cache.Some? then bb.cache.value else seq(bb.len, _ => 0);
      ExtendCache(init.mem, base, cache, reladdr - base);
      blocks := blocks[base := bb.(cache := Some(cache[(reladdr - base) := word]))];
    }

    /** pre_insn_hook; true tells the runner to leave the interpreter and use compiled code. */
    method PreInsnHook() returns (stop: bool)
      requires Valid() && sim.regs[P] != END_ADDRESS && sim.regs[P] in sim.mem
      modifies this
      ensures Valid() && currBB.Some?
      ensures stop ==> blocks[currBB.value].compiled.Some? && sim.regs[P] == currBB.value
      ensures !stop ==> Recorded(currBB.value, blocks[currBB.value], sim.regs[P] - currBB.value + 1)
    {
      hide GenCode, Decode, WellBehaved, StepN, BlockCode, Start, Entered, FallsAt, JumpsAt, CachedAt, Execute;
      var reladdr := sim.regs[P];
      if currBB == None {
        if reladdr !in blocks {
          blocks := blocks[reladdr := BasicBlock(0, false, 0, None, None)];
        }
        currBB := Some(reladdr);
      }
      var base := currBB.value;
      var bb := blocks[base];
      if bb.compiled.Some? { return true; }
      if bb.runCount == runCountThreshold {
        FetchedWord();
        CacheInsn(base, bb, reladdr, sim.mem[reladdr]);
      } else if bb.runCount > runCountThreshold {
        var code := JitGenBlock(bb.len, bb.cache.value, init.mem, base);
        blocks := blocks[base := bb.(compiled := Some(code), cache := None)];
        return true;
      }
      stop := false;
    }

    /** What the interpreter fetches is still the word of the original text. */
    lemma FetchedWord()
      requires Valid() && sim.regs[P] != END_ADDRESS
      ensures var pc := sim.regs[P];
              && pc in init.mem && pc in sim.mem && sim.mem[pc] == init.mem[pc]
              && Step(sim.Machine()).Next?
    {
      hide Decode, Execute, BlockOk, CurrentOk, Start, Entered, CountsOk, Placed;
      assert Proceeds(init, runCountThreshold, sim.insnsExecuted);
      NextP(init, runCountThreshold, sim.insnsExecuted);
    }

    /** post_insn_hook, after the instruction `i` at `reladdr`; true ends the interpreter's turn. */
    method PostInsnHook(i: Insn, reladdr: Word) returns (stop: bool)
      requires runCountThreshold > 1 && BlocksOk() && reladdr < END_ADDRESS
      requires currBB.Some? && currBB.value in blocks && currBB.value <= reladdr
      requires var bb := blocks[currBB.value];
               Falls(init.mem, currBB.value, reladdr - currBB.value) && Recorded(currBB.value, bb, reladdr - currBB.value + 1)
      requires reladdr in init.mem && i == Decode(init.mem[reladdr])
      modifies this, sim`insnsExecuted
      ensures BlocksOk() && sim.insnsExecuted == old(sim.insnsExecuted) + 1
      ensures stop == WritesP(i) && (stop ==> currBB == None)
      ensures !stop ==> currBB == old(currBB) && blocks == old(blocks)
      ensures stop ==> blocks.Keys == old(blocks.Keys)
      ensures stop ==> forall b <- blocks ::
                blocks[b].runCount == old(blocks)[b].runCount + if b == old(currBB.value) then 1 else 0
    {
      hide GenCode, Decode, BlockCode;
      sim.insnsExecuted := sim.insnsExecuted + 1;
      if (i.dd == 0 || i.dd == 3) && i.z == 15 {
        var base := currBB.value;
        var bb := blocks[base];
        if bb.complete { BlockLength(init.mem, base, bb.len, reladdr - base); }
        blocks := blocks[base := bb.(len := reladdr - base + 1, complete := true, runCount := bb.runCount + 1)];
        currBB := None;
        return true;
      }
      stop := false;
    }

    /** The interpreter's loop body with both hooks: -1 at the end, 0 when a hook says stop,
        2 to carry on. */
    method HookedStep() returns (rc: int)
      requires Valid()
      modifies this, sim
      ensures Valid() && rc in {-1, 0, 2}
      ensures rc == -1 ==> sim.regs[P] == END_ADDRESS && sim.insnsExecuted == old(sim.insnsExecuted)
      ensures rc == 2 ==> sim.insnsExecuted == old(sim.insnsExecuted) + 1
      ensures rc == 0 ==>
                if currBB.Some? then
                  blocks[currBB.value].compiled.Some? && sim.regs[P] == currBB.value
                  && sim.insnsExecuted == old(sim.insnsExecuted)
                else sim.insnsExecuted == old(sim.insnsExecuted) + 1
    {
      hide Decode, Execute, BlockOk, Start, Entered;
      if sim.regs[P] == END_ADDRESS { return -1; }
      FetchedWord();
      var stop := PreInsnHook();
      if stop { return 0; }
      FetchedWord();
      var reladdr := sim.regs[P];
      var i := Decode(sim.mem[reladdr]);
      var n := sim.insnsExecuted;
      NextP(init, runCountThreshold, n) by { assert Proceeds(init, runCountThreshold, n); }
      var fault := sim.RunInstruction(i);
      assert !fault;
      StepCounts(init, n, currBB.value, reladdr);
      stop := PostInsnHook(i, reladdr);
      if stop { return 0; }
      rc := 2;
    }

    ghost predicate ReadyToRun()
      reads this, sim
    {
      && currBB.Some? && currBB.value in blocks
      && blocks[currBB.value].compiled.Some? && sim.regs[P] == currBB.value
    }

    /** A compiled block is only ever current before its first instruction. */
    lemma CompiledAtStart()
      requires Valid()
      ensures currBB.Some? ==> currBB.value in blocks
      ensures currBB.Some? && blocks[currBB.value].compiled.Some? ==> ReadyToRun()
    {
    }

    /** interp_run_sim under the hooks, for at most `fuel` instructions. */
    method InterpRunSim(fuel: nat) returns (rc: int)
      requires Valid()
      modifies this, sim
      ensures Valid() && rc in {-1, 0, 2}
      ensures rc == -1 ==> sim.regs[P] == END_ADDRESS
      ensures rc == 2 ==> sim.insnsExecuted == old(sim.insnsExecuted) + fuel
      ensures sim.insnsExecuted >= old(sim.insnsExecuted)
      ensures rc == 0 && sim.insnsExecuted == old(sim.insnsExecuted) ==>
                ReadyToRun()
    {
      rc := 2;
      for done := 0 to fuel
        invariant Valid() && rc == 2 && sim.insnsExecuted == old(sim.insnsExecuted) + done
      {
        rc := HookedStep();
        if rc != 2 { return; }
      }
    }

    /** The compiled function called on the register file, with whatever the host's own
        registers and flags happen to hold. */
    method RunCompiled()
      requires Valid() && ReadyToRun()
      modifies this, sim
      ensures Valid() && sim.insnsExecuted > old(sim.insnsExecuted)
    {
      hide Decode, GenCode, Run, BlockCode, WellBehaved, StepN, IsBlock, Falls, CachedAt, Start, Entered;
      var base := currBB.value;
      var bb := blocks[base];
      var v: Vars := *;
      var u: Flags := *;
      var h := Host(v, u, sim.regs, sim.mem);
      ghost var n := sim.insnsExecuted;
      CompiledBlock(init, runCountThreshold, n, base, bb.len, h, u);
      BlockEnds(init, runCountThreshold, n, base, bb.len);
      var r := Run(bb.compiled.value, h, u);
      sim.regs := r.regs;
      sim.mem := r.mem;
      sim.insnsExecuted := sim.insnsExecuted + bb.len;
      blocks := blocks[base := bb.(runCount := bb.runCount + 1)];
      currBB := None;
    }

    /** jit_run_sim, cut off once `fuel` instructions are done: compiled blocks and the
        interpreter take turns until the interpreter reports the end. However far it gets,
        Valid() says the machine is in a state of the pure interpreter's run. */
    method JitRunSim(fuel: nat) returns (ended: bool)
      requires Valid()
      modifies this, sim
      ensures Valid()
      ensures ended ==> sim.regs[P] == END_ADDRESS
      ensures !ended ==> sim.insnsExecuted >= old(sim.insnsExecuted) + fuel
    {
      hide BlocksOk, InStep, CurrentOk, WellBehaved, InStep;
      ghost var target := sim.insnsExecuted + fuel;
      ended := false;
      var left := fuel;
      while left > 0
        invariant Valid() && !ended
        invariant 0 <= left <= fuel
        invariant left > 0 ==> sim.insnsExecuted + left == target
        invariant left == 0 ==> sim.insnsExecuted >= target
        decreases left, if ReadyToRun() then 0 else 1
      {
        CompiledAtStart();
        var before := sim.insnsExecuted;
        if currBB.Some? && blocks[currBB.value].compiled.Some? {
          RunCompiled();
        }
        var rc := InterpRunSim(left);
        if rc == -1 { return true; }
        var done := sim.insnsExecuted - before;
        left := if done >= left then 0 else left - done;
      }
    }
  }
}
