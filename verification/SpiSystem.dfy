/** One SD card on the SPI master: a 56-bit transfer carries a command and its answer. */
module SpiSystem {
  import opened Options
  import opened Words
  import opened Spi
  import M = SpiMaster
  import C = SdCard

  /** The card acts on what the master does to it. */
  function Feed(c: C.Card, es: seq<M.Event>): Option<C.Card>
    decreases |es|
  {
    if es == [] then Some(c)
    else
      var i := match es[0] case Selects(_, on) => C.Chip(on) case Clocks(_, selected, push) => C.Tick(selected, push);
      var d := C.Apply(c, i);
      if d.None? then None else Feed(d.value, es[1..])
  }

  datatype System = System(m: M.Master, c: C.Card, pulls: seq<bool>)

  /** One SPI cycle; the bit pulled is the one on the card's output line. `pulls` is kept
      for the record. */
  function Cycle(s: System, k: nat): Option<System>
    requires M.Shiftable(s.m)
  {
    var pull := C.OutBit(s.c);
    var (m, es) := M.Cycle(s.m, k, pull);
    var c := Feed(s.c, es);
    if c.None? then None else Some(System(m, c.value, s.pulls + [pull]))
  }

  function Run(s: System, k: nat, n: nat): (r: Option<System>)
    requires M.Shiftable(s.m)
    ensures r.Some? ==> M.Shiftable(r.value.m)
  {
    if n == 0 then Some(s)
    else
      var r := Run(s, k, n - 1);
      if r.None? then None
      else
        M.ShiftableKept(r.value.m, k, if r.value.m.phase != M.Idle then M.PushBit(r.value.m) else false, C.OutBit(r.value.c));
        Cycle(r.value, k)
  }

  /** The master in the system is the master with those bits pulled. */
  lemma {:induction false} RunIsCycles(s: System, k: nat, n: nat)
    requires M.Shiftable(s.m) && s.pulls == [] && Run(s, k, n).Some?
    ensures |Run(s, k, n).value.pulls| == n
    ensures Run(s, k, n).value.m == M.Cycles(s.m, k, Run(s, k, n).value.pulls)
  {
    hide M.Cycle, Feed;
    if n > 0 {
      RunIsCycles(s, k, n - 1);
      var p, q := Run(s, k, n - 1).value.pulls, Run(s, k, n).value.pulls;
      assert q[..|q| - 1] == p;
    }
  }

  /** A started command transfer: 56 bits, high bit first, automatic selection. */
  ghost predicate CommandStarted(m: M.Master) {
    && M.Inv(m) && m.phase == M.Started
    && CharLen(m.raw) == 56 && !Lsb(m.raw) && AutoSelect(m.raw)
  }

  /** The command in the upper 48 of the 56 bits. */
  function Frame(raw: Regs7): nat {
    C.Num(FrameBits(raw))
  }

  function FrameBits(raw: Regs7): seq<bool> {
    seq(48, n requires 0 <= n < 48 => Data(raw)[55 - n])
  }

  // ----- The card's side of the transfer -----

  lemma FeedOne(c: C.Card, e: M.Event)
    ensures Feed(c, [e]) == C.Apply(c, match e case Selects(_, on) => C.Chip(on) case Clocks(_, sel, push) => C.Tick(sel, push))
    ensures Feed(c, []) == Some(c)
  {
    assert [e][1..] == [];
  }

  /** Selection starts a new command in the card. */
  lemma Chosen(s: System, k: nat)
    requires CommandStarted(s.m) && s.pulls == []
    ensures Run(s, k, 1).Some?
    ensures var r := Run(s, k, 1).value;
            r.m == s.m.(phase := M.Chosen, cyc := Plus(s.m.cyc, 1), dividend := 0) && r.c == s.c.(bitCount := 0)
            && r.pulls == [C.OutBit(s.c)]
  {
    hide C.OutBit;
    assert Run(s, k, 0) == Some(s);
    FeedOne(s.c, M.Selects(k, true));
  }

  /** Nothing reaches the card while the master waits. */
  lemma {:induction false} Waiting(s: System, k: nat, n: nat)
    requires CommandStarted(s.m) && s.pulls == [] && 1 <= n
    requires n - 1 < M.Wait(Plus(s.m.cyc, 1))
    ensures Run(s, k, n).Some?
    ensures var r := Run(s, k, n).value;
            r.m == s.m.(phase := M.Chosen, cyc := Plus(s.m.cyc, n), dividend := 0) && r.c == s.c.(bitCount := 0)
  {
    hide C.OutBit, Plus, M.PushBit, Pow2;
    if n == 1 {
      Chosen(s, k);
    } else {
      Waiting(s, k, n - 1);
      M.NextCount(s.m.cyc, n - 1);
      StillWaiting(s.m.cyc, n - 1);
      StillChosen(Run(s, k, n - 1).value, k);
    }
  }

  lemma StillChosen(s: System, k: nat)
    requires M.Shiftable(s.m) && s.m.phase == M.Chosen && s.m.cyc <= M.INIT_CYCLES
    ensures Cycle(s, k).Some?
    ensures Cycle(s, k).value.m == s.m.(cyc := Plus(s.m.cyc, 1), dividend := 0) && Cycle(s, k).value.c == s.c
  {
    hide C.OutBit, Plus, M.PushBit, Pow2;
    FeedOne(s.c, M.Selects(k, true));
  }

  lemma StillWaiting(cyc: Word, n: nat)
    requires 1 <= n < M.Wait(Plus(cyc, 1))
    ensures Plus(cyc, n) <= M.INIT_CYCLES
  {
  }

  lemma Begin(s: System, k: nat)
    requires CommandStarted(s.m) && s.pulls == []
    ensures var w := M.Wait(Plus(s.m.cyc, 1));
            && Run(s, k, w + 1).Some?
            && Run(s, k, w + 1).value.c == s.c.(bitCount := 0)
            && Run(s, k, w + 1).value.m.raw == s.m.raw && Run(s, k, w + 1).value.m.phase == M.Busy
            && Run(s, k, w + 1).value.m.remaining == 56
  {
    hide C.OutBit;
    var w := M.Wait(Plus(s.m.cyc, 1));
    Waiting(s, k, w);
    FeedOne(s.c, M.Selects(k, true));
    LastWait(s.m.cyc);
  }

  lemma LastWait(cyc: Word)
    ensures Plus(cyc, M.Wait(Plus(cyc, 1))) > M.INIT_CYCLES
  {
  }

  /** The character in the order it is pushed. */
  function Character(raw: Regs7): (b: seq<bool>)
    ensures |b| == 56
  {
    seq(56, n requires 0 <= n < 56 => Data(raw)[55 - n])
  }

  lemma {:induction false} ClocksAppend(c: C.Card, a: seq<bool>, b: seq<bool>)
    requires C.Clocks(c, a).Some?
    ensures C.Clocks(c, a + b) == C.Clocks(C.Clocks(c, a).value, b)
    decreases |b|
  {
    hide C.Clock;
    if b == [] {
      assert a + b == a;
    } else {
      var d := b[..|b| - 1];
      assert (a + b)[..|a + b| - 1] == a + d && (a + b)[|a + b| - 1] == b[|b| - 1];
      ClocksAppend(c, a, d);
    }
  }

  function AnswerOf(c: C.Card, raw: Regs7): nat {
    C.Answer(c.(cycles := c.cycles + 48), Frame(raw))
  }

  /** The card goes through all 56 bits; its output during the last eight is the answer. */
  lemma CardThrough(c: C.Card, raw: Regs7, n: nat)
    requires c.bitCount == 0 && C.Command(Frame(raw)) && n <= 56
    ensures C.Clocks(c, Character(raw)[..n]).Some?
    ensures 48 <= n < 56 ==> C.OutBit(C.Clocks(c, Character(raw)[..n]).value) == Bit(AnswerOf(c, raw), 55 - n)
    ensures 48 <= n ==>
              C.Clocks(c, Character(raw)[..n]).value.status == C.Handle(c.(cycles := c.cycles + 48), Frame(raw)).status
  {
    hide C.Clock, C.Handle, C.Answer, C.Command, C.OutBit, Data, Bit, C.Clocks, C.Num;
    var bits := Character(raw);
    assert bits[..48] == FrameBits(raw);
    if n < 48 {
      C.Collecting(c, bits[..n]);
    } else {
      C.Answers(c, bits[..48]);
      var d := C.Clocks(c, bits[..48]).value;
      AnswerSmall(c.(cycles := c.cycles + 48), Frame(raw));
      C.ShiftsOut(d, bits[48..n]);
      assert bits[..n] == bits[..48] + bits[48..n];
      ClocksAppend(c, bits[..48], bits[48..n]);
      StatusKept(d, bits[48..n]);
    }
  }

  lemma AnswerSmall(c: C.Card, frame: nat)
    ensures C.Answer(c, frame) < 0x100
  {
  }

  lemma {:induction false} StatusKept(c: C.Card, bits: seq<bool>)
    requires c.bitCount == 0 && |bits| < 48
    ensures C.Clocks(c, bits).Some? && C.Clocks(c, bits).value.status == c.status
  {
    C.Collecting(c, bits);
  }

  /** n bits into the character. */
  ghost predicate Underway(s: System, r: System, n: nat)
    requires n <= 56 && C.Clocks(s.c.(bitCount := 0), Character(s.m.raw)[..n]).Some?
  {
    var from := M.Wait(Plus(s.m.cyc, 1)) + 1;
    && r.m.phase == (if n == 56 then M.Done else M.Busy) && r.m.remaining == 56 - n
    && r.m.raw[4..] == s.m.raw[4..] && |r.pulls| == from + n
    && Data(r.m.raw) == M.ShiftAll(Data(s.m.raw), false, 56, r.pulls[from..])
    && r.c == C.Clocks(s.c.(bitCount := 0), Character(s.m.raw)[..n]).value
  }

  lemma ExchangeBit(s: System, r: System, k: nat, n: nat)
    requires CommandStarted(s.m) && C.Command(Frame(s.m.raw)) && n < 56
    requires C.Clocks(s.c.(bitCount := 0), Character(s.m.raw)[..n]).Some?
    requires C.Clocks(s.c.(bitCount := 0), Character(s.m.raw)[..n + 1]).Some?
    requires Underway(s, r, n) && M.Shiftable(r.m)
    ensures Cycle(r, k).Some? && Underway(s, Cycle(r, k).value, n + 1)
    ensures Cycle(r, k).value.pulls == r.pulls + [C.OutBit(r.c)]
  {
    hide C.Clock, C.OutBit, Data, OneShift, Plus, C.Command, Shifted, M.ShiftAll;
    var from := M.Wait(Plus(s.m.cyc, 1)) + 1;
    var pull := C.OutBit(r.c);
    M.RegsAbove(r.m.raw, s.m.raw);
    OneShiftIs(r.m.raw, pull);
    M.PushBitIs(r.m);
    M.AfterShifts(Data(s.m.raw), false, 56, r.pulls[from..], 55);
    FeedOne(r.c, M.Clocks(k, true, M.PushBit(r.m)));
    var q := r.pulls + [pull];
    assert q[from..][..n] == r.pulls[from..] && q[from..][n] == pull;
    var bits := Character(s.m.raw)[..n + 1];
    assert bits[..n] == Character(s.m.raw)[..n];
    ShiftAllStep(Data(s.m.raw), q[from..]);
  }

  lemma ShiftAllStep(d: seq<bool>, pulls: seq<bool>)
    requires |d| == 128 && pulls != []
    ensures M.ShiftAll(d, false, 56, pulls)
         == Shifted(M.ShiftAll(d, false, 56, pulls[..|pulls| - 1]), false, 56, pulls[|pulls| - 1])
  {
  }

  predicate AnswerBit(pulls: seq<bool>, answer: nat, i: nat) {
    i < 56 && i < |pulls| && pulls[i] == Bit(answer, 55 - i)
  }

  /** Of the first n bits pulled, those from the 48th on are the answer's. */
  predicate AnswersSoFar(pulls: seq<bool>, answer: nat, n: nat) {
    forall i | 48 <= i < n :: AnswerBit(pulls, answer, i)
  }

  lemma ExtendAnswers(pulls: seq<bool>, b: bool, answer: nat, n: nat)
    requires AnswersSoFar(pulls, answer, n) && |pulls| == n < 56
    requires 48 <= n ==> b == Bit(answer, 55 - n)
    ensures AnswersSoFar(pulls + [b], answer, n + 1)
  {
    hide Bit;
    forall i | 48 <= i < n + 1
      ensures AnswerBit(pulls + [b], answer, i)
    {
      assert i < n ==> AnswerBit(pulls, answer, i);
    }
  }

  lemma {:induction false} Exchanging(s: System, k: nat, n: nat)
    requires CommandStarted(s.m) && s.pulls == [] && C.Command(Frame(s.m.raw)) && n <= 56
    ensures var from := M.Wait(Plus(s.m.cyc, 1)) + 1;
            var c := s.c.(bitCount := 0);
            && C.Clocks(c, Character(s.m.raw)[..n]).Some?
            && Run(s, k, from + n).Some? && Underway(s, Run(s, k, from + n).value, n)
            && AnswersSoFar(Run(s, k, from + n).value.pulls[from..], AnswerOf(c, s.m.raw), n)
  {
    hide C.Clocks, C.OutBit, Data, Plus, C.Command, M.ShiftAll, Cycle, Bit, AnswerOf, M.Wait, AnswersSoFar, Character;
    var from := M.Wait(Plus(s.m.cyc, 1)) + 1;
    var c := s.c.(bitCount := 0);
    CardThrough(c, s.m.raw, n);
    if n == 0 {
      Begin(s, k);
      RunIsCycles(s, k, from);
      assert Run(s, k, from).value.pulls[from..] == [];
      Unstarted(s, AnswerOf(c, s.m.raw));
    } else {
      hide Run;
      Exchanging(s, k, n - 1);
      CardThrough(c, s.m.raw, n - 1);
      var r := Run(s, k, from + n - 1).value;
      ExchangeBit(s, r, k, n - 1);
      ExtendAnswers(r.pulls[from..], C.OutBit(r.c), AnswerOf(c, s.m.raw), n - 1);
      assert (r.pulls + [C.OutBit(r.c)])[from..] == r.pulls[from..] + [C.OutBit(r.c)];
      RunNext(s, k, from + n - 1);
    }
  }

  lemma RunNext(s: System, k: nat, j: nat)
    requires M.Shiftable(s.m) && Run(s, k, j).Some?
    ensures Run(s, k, j + 1) == Cycle(Run(s, k, j).value, k)
  {
    hide Cycle;
  }

  lemma Unstarted(s: System, answer: nat)
    ensures AnswersSoFar([], answer, 0)
    ensures C.Clocks(s.c.(bitCount := 0), Character(s.m.raw)[..0]) == Some(s.c.(bitCount := 0))
    ensures M.ShiftAll(Data(s.m.raw), false, 56, []) == Data(s.m.raw)
  {
  }

  // ----- End to end -----

  /** End-to-end command: when GO_BSY goes down, the low byte of Rx0 is the R1 byte implied
      by the card's status, and the card has acted on the command. */
  lemma CommandAnswered(s: System, k: nat)
    requires CommandStarted(s.m) && s.pulls == [] && C.Command(Frame(s.m.raw))
    ensures Run(s, k, M.TransferTime(s.m)).Some?
    ensures var r := Run(s, k, M.TransferTime(s.m)).value;
            && r.m.phase == M.Idle && !Go(r.m.raw)
            && r.m.raw[0] % 0x100 == AnswerOf(s.c, s.m.raw)
            && r.c.status == C.Handle(s.c.(cycles := s.c.cycles + 48), Frame(s.m.raw)).status
  {
    hide C.Clocks, C.OutBit, Data, Plus, C.Command, M.ShiftAll, Bit, AnswerOf, M.Wait, C.Handle, OneShift, M.ClearGo;
    var from := M.Wait(Plus(s.m.cyc, 1)) + 1;
    var c := s.c.(bitCount := 0);
    Exchanging(s, k, 56);
    var b := Run(s, k, from + 56).value;
    CardThrough(c, s.m.raw, 56);
    FeedOne(b.c, M.Selects(k, false));
    M.RegsAbove(b.m.raw, s.m.raw);
    var r := Run(s, k, from + 57).value;
    M.Finished(s.m.raw, b.m.raw);
    assert r.m.raw == M.ClearGo(b.m.raw);
    LowByte(s, r.m.raw, b.pulls[from..]);
    StatusIgnores(s.c, Frame(s.m.raw));
  }

  /** Selecting the card resets its bit count, which its answers do not depend on. */
  lemma StatusIgnores(c: C.Card, frame: nat)
    ensures var a, b := c.(cycles := c.cycles + 48), c.(bitCount := 0).(cycles := c.cycles + 48);
            C.Handle(a, frame).status == C.Handle(b, frame).status && C.Answer(a, frame) == C.Answer(b, frame)
  {
  }

  lemma LowByte(s: System, raw: Regs7, pulls: seq<bool>)
    requires |pulls| == 56 && Data(raw) == M.ShiftAll(Data(s.m.raw), false, 56, pulls)
    requires AnswersSoFar(pulls, AnswerOf(s.c.(bitCount := 0), s.m.raw), 56)
    ensures raw[0] % 0x100 == AnswerOf(s.c, s.m.raw)
  {
    hide Data, M.ShiftAll, AnswerOf, Frame;
    var answer := AnswerOf(s.c.(bitCount := 0), s.m.raw);
    forall j | 0 <= j < 8
      ensures Bit(raw[0] % 0x100, j) == Bit(answer, j)
    {
      M.Exchange(Data(s.m.raw), false, 56, pulls, 55 - j);
      assert AnswerBit(pulls, answer, 55 - j);
      DataAt(raw, j);
      BitOfByte(raw[0], 8, j);
    }
    SameAnswer(s);
    assert Pow2(8) == 0x100;
    BitsDetermine(raw[0] % 0x100, answer, 8);
  }

  lemma SameAnswer(s: System)
    ensures AnswerOf(s.c.(bitCount := 0), s.m.raw) == AnswerOf(s.c, s.m.raw) < 0x100
  {
    StatusIgnores(s.c, Frame(s.m.raw));
    AnswerSmall(s.c.(cycles := s.c.cycles + 48), Frame(s.m.raw));
  }

  // ----- The same on the bus -----

  /** One bus cycle of the whole device, with the card as slave k. */
  function BusCycle(s: System, k: nat, attached: set<nat>): Option<System>
    requires M.Shiftable(s.m)
  {
    var r := M.EmuCycle(s.m, attached, C.OutBit(s.c));
    if r.None? then None
    else
      var c := Feed(s.c, M.EventsOf(r.value.1, k));
      if c.None? then None else Some(System(r.value.0, c.value, s.pulls))
  }

  function BusRun(s: System, k: nat, attached: set<nat>, n: nat): (r: Option<System>)
    requires M.Shiftable(s.m)
    ensures r.Some? ==> M.Shiftable(r.value.m)
  {
    if n == 0 then Some(s)
    else
      var r := BusRun(s, k, attached, n - 1);
      if r.None? then None else BusCycle(r.value, k, attached)
  }

  lemma {:induction false} BusRunAdd(s: System, k: nat, attached: set<nat>, a: nat, b: nat)
    requires M.Shiftable(s.m) && BusRun(s, k, attached, a).Some?
    ensures BusRun(s, k, attached, a + b) == BusRun(BusRun(s, k, attached, a).value, k, attached, b)
  {
    hide BusCycle;
    if b > 0 { BusRunAdd(s, k, attached, a, b - 1); }
  }

  /** Up to the bus cycle that makes an SPI cycle, only the divider counts. */
  lemma {:induction false} Counting(s: System, k: nat, attached: set<nat>, n: nat)
    requires M.Shiftable(s.m) && n < M.ToFirst(s.m)
    ensures s.m.dividend + n < 0x1_0000_0000
    ensures BusRun(s, k, attached, n) == Some(s.(m := s.m.(dividend := s.m.dividend + n)))
  {
    if n == 0 {
      assert s.m.(dividend := s.m.dividend + 0) == s.m;
    } else {
      Counting(s, k, attached, n - 1);
      M.CountsOn(s.m, n - 1, attached, C.OutBit(s.c));
      hide M.EmuCycle, M.ToFirst, C.OutBit, BusCycle;
      QuietCycle(s.(m := s.m.(dividend := s.m.dividend + n - 1)), k, attached, s.m.(dividend := s.m.dividend + n));
    }
  }

  lemma QuietCycle(s: System, k: nat, attached: set<nat>, m: M.Master)
    requires M.Shiftable(s.m) && M.EmuCycle(s.m, attached, C.OutBit(s.c)) == Some((m, []))
    ensures BusCycle(s, k, attached) == Some(s.(m := m))
  {
    hide M.EmuCycle, C.OutBit;
  }

  lemma OnePeriod(s: System, k: nat, attached: set<nat>)
    requires M.Shiftable(s.m) && M.OneSlave(s.m, attached, k) && Cycle(s, k).Some?
    ensures BusRun(s, k, attached, M.ToFirst(s.m)) == Some(Cycle(s, k).value.(pulls := s.pulls))
    ensures var t := Cycle(s, k).value;
            && M.Shiftable(t.m) && M.OneSlave(t.m, attached, k) && t.m.dividend == 0 && M.Period(t.m) == M.Period(s.m)
  {
    hide M.EmuCycle, M.SpiCycle, M.EventsOf, C.OutBit, M.Cycle, M.OneSlave, M.Period, Feed;
    var n := M.ToFirst(s.m) - 1;
    var pull := C.OutBit(s.c);
    Counting(s, k, attached, n);
    M.CountsOn(s.m, n, attached, pull);
    M.CycleIs(s.m, k, attached, pull);
    M.CycleKeepsPeriod(s.m, k, pull);
    hide M.ToFirst;
    Beat(s, k, attached, s.m.dividend + n);
    LastBeat(s, k, attached, n);
  }

  lemma LastBeat(s: System, k: nat, attached: set<nat>, n: nat)
    requires M.Shiftable(s.m) && s.m.dividend + n < 0x1_0000_0000
    requires BusRun(s, k, attached, n) == Some(s.(m := s.m.(dividend := s.m.dividend + n)))
    ensures BusRun(s, k, attached, n + 1) == BusCycle(s.(m := s.m.(dividend := s.m.dividend + n)), k, attached)
  {
    hide BusCycle;
  }

  /** The bus cycle that makes an SPI cycle. */
  lemma Beat(s: System, k: nat, attached: set<nat>, v: Word)
    requires M.Shiftable(s.m) && Cycle(s, k).Some?
    requires var r := M.EmuCycle(s.m.(dividend := v), attached, C.OutBit(s.c));
             r.Some? && (r.value.0, M.EventsOf(r.value.1, k)) == M.Cycle(s.m, k, C.OutBit(s.c))
    ensures BusCycle(s.(m := s.m.(dividend := v)), k, attached) == Some(Cycle(s, k).value.(pulls := s.pulls))
  {
    hide M.EmuCycle, M.Cycle, M.EventsOf, C.OutBit, Feed;
  }

  lemma {:induction false} BusRunIs(s: System, k: nat, attached: set<nat>, j: nat)
    requires M.Shiftable(s.m) && M.OneSlave(s.m, attached, k) && Run(s, k, j).Some?
    ensures BusRun(s, k, attached, M.BusTime(s.m, j)) == Some(Run(s, k, j).value.(pulls := s.pulls))
    ensures var t := Run(s, k, j).value;
            M.OneSlave(t.m, attached, k) && M.Period(t.m) == M.Period(s.m) && (j > 0 ==> t.m.dividend == 0)
  {
    hide Cycle, M.OneSlave, BusCycle, M.Period, M.ToFirst, M.BusTime;
    if j > 0 {
      BusRunIs(s, k, attached, j - 1);
      var t := Run(s, k, j - 1).value;
      var u := t.(pulls := s.pulls);
      PullsIgnored(t, k, s.pulls);
      OnePeriod(u, k, attached);
      M.FirstOfNext(s.m, u.m, j);
      BusRunAdd(s, k, attached, M.BusTime(s.m, j - 1), M.ToFirst(u.m));
    } else {
      M.NoBusCycles(s.m, attached, []);
      assert s.(pulls := s.pulls) == s;
    }
  }

  lemma PullsIgnored(s: System, k: nat, pulls: seq<bool>)
    requires M.Shiftable(s.m) && Cycle(s, k).Some?
    ensures Cycle(s.(pulls := pulls), k).Some?
    ensures Cycle(s.(pulls := pulls), k).value.(pulls := pulls) == Cycle(s, k).value.(pulls := pulls)
  {
  }

  ghost predicate Answered(s: System, r: System) {
    && r.m.phase == M.Idle && !Go(r.m.raw)
    && r.m.raw[0] % 0x100 == AnswerOf(s.c, s.m.raw)
    && r.c.status == C.Handle(s.c.(cycles := s.c.cycles + 48), Frame(s.m.raw)).status
  }

  function CommandTime(m: M.Master): nat {
    M.BusTime(m, M.TransferTime(m))
  }

  /** End to end on the bus, with the card alone selected: whatever the divider count, the
      answer is in Rx0 and GO_BSY down after the wait for the first SPI cycle and 2 * (DIVIDER + 1)
      bus cycles for each of the others. */
  lemma CommandOnBus(s: System, k: nat, attached: set<nat>)
    requires CommandStarted(s.m) && s.pulls == [] && C.Command(Frame(s.m.raw))
    requires M.OneSlave(s.m, attached, k)
    ensures CommandTime(s.m) == M.ToFirst(s.m) + M.Period(s.m) * (M.TransferTime(s.m) - 1)
    ensures CommandTime(s.m) <= M.Period(s.m) * M.TransferTime(s.m)
    ensures BusRun(s, k, attached, CommandTime(s.m)).Some?
    ensures Answered(s, BusRun(s, k, attached, CommandTime(s.m)).value)
  {
    hide Run, BusRun, M.Period, M.ToFirst, M.OneSlave, AnswerOf, C.Handle;
    CommandAnswered(s, k);
    BusRunIs(s, k, attached, M.TransferTime(s.m));
    assert M.TransferTime(s.m) > 0;
    M.BusTimeBound(s.m, M.TransferTime(s.m));
  }

  // ----- From the bus writes on -----

  /** A bus write to the whole device, with the card as slave k. */
  function BusWrite(s: System, k: nat, attached: set<nat>, data: Word, reg: M.RegNo): Option<System> {
    var r := M.BusOp(s.m, M.Write(data), reg, attached);
    if r.Breakpoint? then None
    else
      var c := Feed(s.c, M.EventsOf(r.events, k));
      if c.None? then None else Some(System(r.m, c.value, s.pulls))
  }

  function BusWrites(s: System, k: nat, attached: set<nat>, ws: seq<(Word, M.RegNo)>): Option<System> {
    if ws == [] then Some(s)
    else
      var r := BusWrites(s, k, attached, ws[..|ws| - 1]);
      if r.None? then None else BusWrite(r.value, k, attached, ws[|ws| - 1].0, ws[|ws| - 1].1)
  }

  /** 56 bits, high bit first, automatic selection. */
  const SETTINGS: Word := 0x2038
  const GO: Word := 0x2138

  /** How a driver sends a command: the frame in the upper 48 of 56 bits, then the slave, the
      settings, and GO_BSY. */
  function CommandWrites(frame: nat, fill: nat, k: nat): seq<(Word, M.RegNo)>
    requires frame < 0x1_0000_0000_0000 && fill < 0x100 && k < M.NINST
  {
    SmallSelect(k);
    [(frame % 0x100_0000 * 0x100 + fill, 0), (frame / 0x100_0000, 1), (Pow2(k), 6), (SETTINGS, 4), (GO, 4)]
  }

  lemma SmallSelect(k: nat)
    requires k < M.NINST
    ensures Pow2(k) < 0x100
  {
    M.Pow2OneHot(k);
  }

  /** A write while nothing is in progress reaches that register, and at most selects the card. */
  lemma WriteReaches(s: System, k: nat, attached: set<nat>, data: Word, reg: M.RegNo)
    requires M.Inv(s.m) && s.m.phase == M.Idle && (reg == 4 ==> data / 0x100 % 2 == 0)
    ensures var r := BusWrite(s, k, attached, data, reg);
            && r.Some? && r.value.m == s.m.(raw := s.m.raw[reg := data]) && M.Inv(r.value.m)
            && r.value.c.(bitCount := 0) == s.c.(bitCount := 0) && r.value.pulls == s.pulls
  {
    hide M.SelectEvents, M.EventsOf, Feed, M.Inv;
    M.QuietWrite(s.m, data, reg, attached);
    M.SelectSeen(s.m, data, reg, attached, k);
    FeedOne(s.c, M.Selects(k, Bit(data, k)));
    FeedNone(s.c);
  }

  lemma FeedNone(c: C.Card)
    ensures Feed(c, []) == Some(c)
  {
  }

  lemma WritesNext(s: System, k: nat, attached: set<nat>, ws: seq<(Word, M.RegNo)>, w: (Word, M.RegNo))
    requires BusWrites(s, k, attached, ws).Some?
    ensures BusWrites(s, k, attached, ws + [w]) == BusWrite(BusWrites(s, k, attached, ws).value, k, attached, w.0, w.1)
  {
    hide BusWrite;
    assert (ws + [w])[..|ws + [w]| - 1] == ws;
  }

  /** The master the writes start. */
  function Commanded(m: M.Master, frame: nat, fill: nat, k: nat): M.Master
    requires frame < 0x1_0000_0000_0000 && fill < 0x100 && k < M.NINST
  {
    SmallSelect(k);
    M.Master(M.Started, m.dividend, m.cyc, 56,
             [frame % 0x100_0000 * 0x100 + fill, frame / 0x100_0000, m.raw[2], m.raw[3], GO, m.raw[5], Pow2(k)])
  }

  lemma WritesReach(s: System, k: nat, attached: set<nat>, frame: nat, fill: nat)
    requires M.Inv(s.m) && s.m.phase == M.Idle && k < M.NINST && frame < 0x1_0000_0000_0000 && fill < 0x100
    ensures var r := BusWrites(s, k, attached, CommandWrites(frame, fill, k));
            && r.Some? && r.value.m == Commanded(s.m, frame, fill, k)
            && r.value.c.(bitCount := 0) == s.c.(bitCount := 0) && r.value.pulls == s.pulls
  {
    hide M.Inv, BusWrite, BusWrites, Pow2;
    SmallSelect(k);
    var ws := CommandWrites(frame, fill, k);
    assert BusWrites(s, k, attached, []) == Some(s) by { NoWrites(s, k, attached); }
    WriteReaches(s, k, attached, ws[0].0, 0);
    WritesNext(s, k, attached, [], ws[0]);
    var s1 := BusWrites(s, k, attached, [] + [ws[0]]).value;
    WriteReaches(s1, k, attached, ws[1].0, 1);
    WritesNext(s, k, attached, [] + [ws[0]], ws[1]);
    var s2 := BusWrites(s, k, attached, [] + [ws[0]] + [ws[1]]).value;
    WriteReaches(s2, k, attached, ws[2].0, 6);
    WritesNext(s, k, attached, [] + [ws[0]] + [ws[1]], ws[2]);
    var s3 := BusWrites(s, k, attached, [] + [ws[0]] + [ws[1]] + [ws[2]]).value;
    WriteReaches(s3, k, attached, SETTINGS, 4);
    WritesNext(s, k, attached, [] + [ws[0]] + [ws[1]] + [ws[2]], ws[3]);
    var s4 := BusWrites(s, k, attached, [] + [ws[0]] + [ws[1]] + [ws[2]] + [ws[3]]).value;
    GoReaches(s4, k, attached);
    WritesNext(s, k, attached, [] + [ws[0]] + [ws[1]] + [ws[2]] + [ws[3]], ws[4]);
    assert [] + [ws[0]] + [ws[1]] + [ws[2]] + [ws[3]] + [ws[4]] == ws;
    assert s4.m.raw[4 := GO] == Commanded(s.m, frame, fill, k).raw;
  }

  lemma NoWrites(s: System, k: nat, attached: set<nat>)
    ensures BusWrites(s, k, attached, []) == Some(s)
  {
  }

  lemma GoReaches(s: System, k: nat, attached: set<nat>)
    requires M.Inv(s.m) && s.m.phase == M.Idle && s.m.raw[4] == SETTINGS
    ensures BusWrite(s, k, attached, GO, 4)
         == Some(s.(m := s.m.(phase := M.Started, remaining := 56, raw := s.m.raw[4 := GO])))
  {
    FeedNone(s.c);
  }

  // ----- The frame in the registers -----

  lemma {:induction false} BitOfQuotient(x: nat, q: nat, n: nat, j: nat)
    requires q == x / Pow2(n)
    ensures Bit(q, j) == Bit(x, n + j)
  {
    if n > 0 {
      QuotientByHalves(x, Pow2(n - 1));
      BitOfQuotient(x / 2, q, n - 1, j);
    }
  }

  lemma {:induction false} NumOfBits(x: nat, n: nat, bits: seq<bool>)
    requires |bits| == n && forall i | 0 <= i < n :: bits[i] == Bit(x, n - 1 - i)
    ensures C.Num(bits) == x % Pow2(n)
  {
    if n > 0 {
      var front := bits[..n - 1];
      forall i | 0 <= i < n - 1
        ensures front[i] == Bit(x / 2, n - 2 - i)
      {
        assert bits[i] == Bit(x, n - 1 - i);
      }
      NumOfBits(x / 2, n - 1, front);
      ModHalf(x, Pow2(n - 1));
      assert bits[n - 1] == Bit(x, 0);
    }
  }

  /** The frame is what was written. */
  lemma FrameIs(m: M.Master, frame: nat, fill: nat, k: nat)
    requires frame < 0x1_0000_0000_0000 && fill < 0x100 && k < M.NINST
    ensures Frame(Commanded(m, frame, fill, k).raw) == frame
  {
    var raw := Commanded(m, frame, fill, k).raw;
    forall n | 0 <= n < 48
      ensures FrameBits(raw)[n] == Bit(frame, 47 - n)
    {
      FrameBit(m, frame, fill, k, n);
    }
    hide Bit, Data, Pow2;
    NumOfBits(frame, 48, FrameBits(raw));
    C.Pow2Of48();
  }

  lemma FrameBit(m: M.Master, frame: nat, fill: nat, k: nat, n: nat)
    requires frame < 0x1_0000_0000_0000 && fill < 0x100 && k < M.NINST && n < 48
    ensures Data(Commanded(m, frame, fill, k).raw)[55 - n] == Bit(frame, 47 - n)
  {
    hide Bit, Data, Pow2;
    var raw := Commanded(m, frame, fill, k).raw;
    SomePowers();
    DataAt(raw, 55 - n);
    if n < 24 {
      BitOfQuotient(frame, frame / 0x100_0000, 24, 23 - n);
    } else {
      var low := frame % 0x100_0000;
      assert (low * 0x100 + fill) / 0x100 == low;
      BitOfQuotient(low * 0x100 + fill, low, 8, 47 - n);
      BitOfByte(frame, 24, 47 - n);
    }
  }

  lemma SomePowers()
    ensures Pow2(8) == 0x100 && Pow2(24) == 0x100_0000
  {
    assert Pow2(8) == 0x100;
    assert Pow2(16) == 0x1_0000;
  }

  /** End to end from the driver's writes on, for a card with any history: when the bus cycles of
      the transfer are over, Rx0 reads with its low byte the answer that the history implies. */
  lemma CommandFromWrites(
      s: System, k: nat, attached: set<nat>, ins: seq<C.Input>, frame: nat, fill: nat)
    requires M.Inv(s.m) && s.m.phase == M.Idle && s.pulls == [] && k < M.NINST && k in attached
    requires C.ApplyAll(C.POWER_UP, ins) == Some(s.c) && C.Command(frame) && fill < 0x100
    ensures var w := BusWrites(s, k, attached, CommandWrites(frame, fill, k));
            && w.Some? && w.value.m.phase == M.Started && M.Shiftable(w.value.m)
            && var r := BusRun(w.value, k, attached, CommandTime(w.value.m));
               && r.Some? && r.value.m.phase == M.Idle
               && M.BusOp(r.value.m, M.Read, 0, attached).Reply?
               && M.BusOp(r.value.m, M.Read, 0, attached).data % 0x100
                  == if frame / 0x100_0000_0000 % 32 == 0 then
                       (if frame / 2 % 128 == 0x4a || C.Accepted(ins).Some? then 1 else 8)
                     else if C.LongReset(C.Accepted(ins), C.Ticks(ins) + 48) then 0 else 1
  {
    hide M.Inv, BusWrites, BusRun, C.Command, C.Answer, C.ApplyAll, C.Accepted, C.Handle, CommandTime, M.OneSlave, C.Ticks, C.LongReset;
    assert frame < 0x1_0000_0000_0000 by { FrameSmall(frame); }
    WritesReach(s, k, attached, frame, fill);
    var w := BusWrites(s, k, attached, CommandWrites(frame, fill, k)).value;
    FrameIs(s.m, frame, fill, k);
    CommandedOk(s.m, frame, fill, k, attached);
    CommandOnBus(w, k, attached);
    SameStatus(w.c, s.c, frame);
    C.AnswerIs(ins, frame);
  }

  lemma FrameSmall(frame: nat)
    requires C.Command(frame)
    ensures frame < 0x1_0000_0000_0000
  {
  }

  lemma CommandedOk(m: M.Master, frame: nat, fill: nat, k: nat, attached: set<nat>)
    requires frame < 0x1_0000_0000_0000 && fill < 0x100 && k < M.NINST && k in attached
    ensures var c := Commanded(m, frame, fill, k);
            CommandStarted(c) && M.OneSlave(c, attached, k) && M.Shiftable(c)
  {
    SmallSelect(k);
    hide Pow2;
  }

  /** Answers do not depend on the bit count. */
  lemma SameStatus(a: C.Card, b: C.Card, frame: nat)
    requires a.(bitCount := 0) == b.(bitCount := 0)
    ensures C.Answer(a.(cycles := a.cycles + 48), frame) == C.Answer(b.(cycles := b.cycles + 48), frame)
  {
    assert a.cycles == a.(bitCount := 0).cycles && a.status == a.(bitCount := 0).status;
    assert a.lastReset == a.(bitCount := 0).lastReset;
  }
}
