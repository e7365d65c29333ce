/** Transfers of the SPI master: the protocol, the bus interface, and the master itself. */
module SpiMaster {
  import opened Options
  import opened Words
  import opened Spi

  // ----- A whole character -----

  function ShiftAll(d: seq<bool>, lsb: bool, width: nat, pulls: seq<bool>): (r: seq<bool>)
    requires |d| == 128 && 0 < width <= 128
    ensures |r| == 128
  {
    if pulls == [] then d
    else Shifted(ShiftAll(d, lsb, width, pulls[..|pulls| - 1]), lsb, width, pulls[|pulls| - 1])
  }

  /** Where the n-th bit of a character is: counted from the bottom or from the top. */
  function Place(lsb: bool, width: nat, n: nat): nat
    requires n < width
  {
    if lsb then n else width - 1 - n
  }

  /** After some shifts: what was pulled, and what has not yet been pushed. */
  lemma {:induction false} AfterShifts(d: seq<bool>, lsb: bool, width: nat, pulls: seq<bool>, i: nat)
    requires |d| == 128 && 0 < width <= 128 && |pulls| <= width && i < width
    ensures var n := |pulls|;
            ShiftAll(d, lsb, width, pulls)[i]
            == if lsb then (if i < width - n then d[i + n] else pulls[i - (width - n)])
               else (if i < n then pulls[n - 1 - i] else d[i - n])
    decreases |pulls|
  {
    if pulls != [] {
      var n := |pulls|;
      var before := pulls[..n - 1];
      if lsb {
        if i < width - 1 { AfterShifts(d, lsb, width, before, i + 1); }
      } else {
        if i > 0 { AfterShifts(d, lsb, width, before, i - 1); }
      }
    }
  }

  /** SPI exchange: the bits pushed are the original character in order, and the character
      that remains is exactly what was pulled. */
  lemma Exchange(d: seq<bool>, lsb: bool, width: nat, pulls: seq<bool>, n: nat)
    requires |d| == 128 && 0 < width <= 128 && |pulls| == width && n < width
    ensures Pushed(ShiftAll(d, lsb, width, pulls[..n]), lsb, width) == d[Place(lsb, width, n)]
    ensures ShiftAll(d, lsb, width, pulls)[Place(lsb, width, n)] == pulls[n]
  {
    AfterShifts(d, lsb, width, pulls[..n], if lsb then 0 else width - 1);
    AfterShifts(d, lsb, width, pulls, Place(lsb, width, n));
  }

  /** A slave that answers every bit with itself leaves the character as it was. */
  lemma Echo(d: seq<bool>, lsb: bool, width: nat, pulls: seq<bool>)
    requires |d| == 128 && 0 < width <= 128 && |pulls| == width
    requires forall n | 0 <= n < width :: pulls[n] == Pushed(ShiftAll(d, lsb, width, pulls[..n]), lsb, width)
    ensures ShiftAll(d, lsb, width, pulls)[..width] == d[..width]
  {
    forall i | 0 <= i < width
      ensures ShiftAll(d, lsb, width, pulls)[i] == d[i]
    {
      Exchange(d, lsb, width, pulls, Place(lsb, width, i));
    }
  }

  // ----- The protocol -----

  datatype Phase = Idle | Started | Chosen | Busy | Done

  datatype Master = Master(phase: Phase, dividend: Word, cyc: Word, remaining: nat, raw: Regs7)

  /** What a slave sees: its select line changing, or a clock. */
  datatype Event = Selects(inst: nat, on: bool) | Clocks(inst: nat, selected: bool, push: bool)

  const NINST: nat := 8
  const INIT_CYCLES: nat := 3

  function Length(raw: Regs7): nat {
    if CharLen(raw) == 0 then 128 else CharLen(raw)
  }

  /** GO_BSY is up exactly during a transfer, and the bits left to go are accounted for. */
  ghost predicate Inv(m: Master) {
    && (Go(m.raw) <==> m.phase != Idle)
    && (m.phase in {Started, Chosen} ==> m.remaining == Length(m.raw))
    && (m.phase == Busy ==> 0 < m.remaining <= Length(m.raw))
    && (m.phase == Done ==> m.remaining == 0)
  }

  /** The shift code takes CHAR_LEN as it stands, so zero (for 128) has no meaning there. */
  predicate Shiftable(m: Master) {
    m.phase != Idle ==> CharLen(m.raw) > 0
  }

  predicate OneHot(ss: nat) {
    And(ss % 0x100, Wrap(ss % 0x100 - 1)) == 0
  }

  /** The bit on the wire: computed from the register words as the source does. */
  function PushBit(m: Master): bool
    requires CharLen(m.raw) > 0
  {
    if Lsb(m.raw) then m.raw[0] % 2 == 1
    else Bit(m.raw[(CharLen(m.raw) - 1) / 32], (CharLen(m.raw) - 1) % 32)
  }

  lemma PushBitIs(m: Master)
    requires CharLen(m.raw) > 0
    ensures PushBit(m) == Pushed(Data(m.raw), Lsb(m.raw), CharLen(m.raw))
  {
    hide Data;
    DataAt(m.raw, if Lsb(m.raw) then 0 else CharLen(m.raw) - 1);
    assert Bit(m.raw[0], 0) == (m.raw[0] % 2 == 1);
  }

  function ClearGo(raw: Regs7): Regs7 {
    if Go(raw) then raw[4 := raw[4] - 0x100] else raw
  }

  /** The attached slave `inst`, if its select bit is set. */
  function VisitSelected(m: Master, inst: nat, push: bool, pull: bool): (Master, seq<Event>)
    requires Shiftable(m)
  {
    match m.phase
    case Idle => (m, [])
    case Started => (m.(phase := Chosen), if AutoSelect(m.raw) then [Selects(inst, true)] else [])
    case Chosen => (if m.cyc > INIT_CYCLES then m.(phase := Busy) else m, [])
    case Busy =>
      var left := if m.remaining > 0 then m.remaining - 1 else 0xffff_ffff;
      (m.(raw := OneShift(m.raw, pull), remaining := left, phase := if left == 0 then Done else Busy),
       [Clocks(inst, true, push)])
    case Done =>
      (m.(phase := Idle, raw := ClearGo(m.raw)), if AutoSelect(m.raw) then [Selects(inst, false)] else [])
  }

  function VisitOther(m: Master, inst: nat, push: bool): seq<Event> {
    if m.phase == Chosen then [Clocks(inst, false, push)] else []
  }

  /** The loop over slaves 0..n-1; `ss` is the select register on entry. */
  function VisitAll(m: Master, ss: nat, attached: set<nat>, push: bool, pull: bool, n: nat): (r: (Master, seq<Event>))
    requires Shiftable(m)
    ensures Shiftable(r.0)
  {
    if n == 0 then (m, [])
    else
      var (m1, es) := VisitAll(m, ss, attached, push, pull, n - 1);
      var inst := n - 1;
      if inst !in attached then (m1, es)
      else if Bit(ss, inst) then
        ShiftableKept(m1, inst, push, pull);
        var (m2, fs) := VisitSelected(m1, inst, push, pull);
        (m2, es + fs)
      else (m1, es + VisitOther(m1, inst, push))
  }

  lemma ShiftableKept(m: Master, inst: nat, push: bool, pull: bool)
    requires Shiftable(m)
    ensures Shiftable(VisitSelected(m, inst, push, pull).0)
  {
    hide OneShift;
    if m.phase == Busy { OneShiftIs(m.raw, pull); RegsAbove(OneShift(m.raw, pull), m.raw); }
  }

  lemma RegsAbove(a: Regs7, b: Regs7)
    requires a[4..] == b[4..]
    ensures a[4] == b[4] && a[5] == b[5] && a[6] == b[6]
  {
    assert a[4] == a[4..][0] && a[5] == a[4..][1] && a[6] == a[4..][2];
    assert b[4] == b[4..][0] && b[5] == b[4..][1] && b[6] == b[4..][2];
  }

  /** spi_slave_cycle; nothing for the fatal case of several select bits in a transfer. */
  function SlaveCycle(m: Master, attached: set<nat>, pull: bool): Option<(Master, seq<Event>)>
    requires Shiftable(m)
  {
    if m.phase != Idle && !OneHot(Select(m.raw)) then None
    else
      var push := if m.phase != Idle then PushBit(m) else false;
      Some(VisitAll(m, Select(m.raw), attached, push, pull, NINST))
  }

  /** One SPI cycle: the slaves, then the cycle counter. */
  function SpiCycle(m: Master, attached: set<nat>, pull: bool): Option<(Master, seq<Event>)>
    requires Shiftable(m)
  {
    var r := SlaveCycle(m, attached, pull);
    if r.None? then None
    else Some((r.value.0.(cyc := Plus(r.value.0.cyc, 1), dividend := 0), r.value.1))
  }

  /** spi_emu_cycle: an SPI cycle every 2 * (DIVIDER + 1) bus cycles. */
  function EmuCycle(m: Master, attached: set<nat>, pull: bool): Option<(Master, seq<Event>)>
    requires Shiftable(m)
  {
    if m.dividend >= (Divider(m.raw) + 1) * 2 - 1 then SpiCycle(m, attached, pull)
    else Some((m.(dividend := Plus(m.dividend, 1)), []))
  }

  // ----- The invariant over protocol steps -----

  lemma GoCleared(raw: Regs7)
    ensures !Go(ClearGo(raw)) && CharLen(ClearGo(raw)) == CharLen(raw)
    ensures ClearGo(raw)[..4] == raw[..4] && ClearGo(raw)[5] == raw[5] && ClearGo(raw)[6] == raw[6]
  {
  }

  lemma VisitKeepsInv(m: Master, inst: nat, push: bool, pull: bool)
    requires Shiftable(m) && Inv(m)
    ensures Inv(VisitSelected(m, inst, push, pull).0)
  {
    hide OneShift;
    if m.phase == Busy { OneShiftIs(m.raw, pull); RegsAbove(OneShift(m.raw, pull), m.raw); }
    if m.phase == Done { GoCleared(m.raw); }
  }

  lemma {:induction false} VisitAllKeepsInv(m: Master, ss: nat, attached: set<nat>, push: bool, pull: bool, n: nat)
    requires Shiftable(m) && Inv(m)
    ensures Inv(VisitAll(m, ss, attached, push, pull, n).0)
  {
    hide Inv, VisitSelected;
    if n > 0 {
      VisitAllKeepsInv(m, ss, attached, push, pull, n - 1);
      VisitKeepsInv(VisitAll(m, ss, attached, push, pull, n - 1).0, n - 1, push, pull);
    }
  }

  /** Every bus cycle keeps the invariant. */
  lemma CycleKeepsInv(m: Master, attached: set<nat>, pull: bool)
    requires Shiftable(m) && Inv(m)
    ensures var r := EmuCycle(m, attached, pull);
            r.Some? ==> Inv(r.value.0) && Shiftable(r.value.0)
  {
    hide VisitAll;
    var push := if m.phase != Idle then PushBit(m) else false;
    VisitAllKeepsInv(m, Select(m.raw), attached, push, pull, NINST);
  }

  // ----- The bus -----

  datatype Access = Read | Write(data: Word)
  datatype Reply = Reply(m: Master, data: Word, events: seq<Event>) | Breakpoint

  function WithoutGo(ctrl: Word): Word {
    if ctrl / 0x100 % 2 == 1 then ctrl - 0x100 else ctrl
  }

  /** Select callbacks for the bits of SS that change, when selection is not automatic. */
  function SelectEvents(was: nat, ss: nat, attached: set<nat>, n: nat): seq<Event> {
    if n == 0 then []
    else SelectEvents(was, ss, attached, n - 1)
         + (if n - 1 in attached && Bit(was, n - 1) != Bit(ss, n - 1) then [Selects(n - 1, Bit(ss, n - 1))] else [])
  }

  /** spi_op on register `reg` (seven registers, four addresses apart). */
  function BusOp(m: Master, a: Access, reg: nat, attached: set<nat>): Reply
    requires reg < 7
  {
    if a.Read? || m.phase != Idle then Reply(m, m.raw[reg], [])
    else if reg == 4 then
      var go := a.data / 0x100 % 2 == 1;
      if go != Go(m.raw) && WithoutGo(a.data) != WithoutGo(m.raw[4]) then Breakpoint
      else if go then Reply(m.(phase := Started, remaining := Length(m.raw), raw := m.raw[4 := a.data]), a.data, [])
      else Reply(m.(raw := m.raw[4 := a.data]), a.data, [])
    else if reg == 6 && !AutoSelect(m.raw) then
      Reply(m.(raw := m.raw[6 := a.data]), a.data, SelectEvents(Select(m.raw), a.data, attached, NINST))
    else Reply(m.(raw := m.raw[reg := a.data]), a.data, [])
  }

  /** No bus access changes anything during a transfer, and none breaks the invariant. */
  lemma BusKeepsInv(m: Master, a: Access, reg: nat, attached: set<nat>)
    requires reg < 7 && Inv(m)
    ensures var r := BusOp(m, a, reg, attached);
            && (m.phase != Idle ==> r == Reply(m, m.raw[reg], []))
            && (r.Reply? ==> Inv(r.m))
            && (r.Reply? && a.Read? ==> r.m == m && r.data == m.raw[reg])
  {
    if a.Write? && reg == 4 { SameOthers(a.data, m.raw[4]); }
  }

  lemma SameOthers(a: Word, b: Word)
    ensures WithoutGo(a) == WithoutGo(b) ==> a % 0x80 == b % 0x80
  {
  }

  // ----- One selected slave -----

  /** Slave k is attached and alone selected. */
  ghost predicate OneSlave(m: Master, attached: set<nat>, k: nat) {
    k < NINST && k in attached && Select(m.raw) == Pow2(k) && CharLen(m.raw) > 0
  }

  lemma {:induction false} BitOfPow2(k: nat, i: nat)
    ensures Bit(Pow2(k), i) <==> i == k
  {
    if k > 0 && i > 0 {
      BitOfPow2(k - 1, i - 1);
    } else if i > 0 {
      BitOfZero(i - 1);
    }
  }

  lemma {:induction false} BitOfZero(i: nat)
    ensures !Bit(0, i)
  {
    if i > 0 { BitOfZero(i - 1); }
  }

  lemma Pow2OneHot(k: nat)
    requires k < NINST
    ensures Pow2(k) < 0x100 && OneHot(Pow2(k))
  {
    hide BitOp;
    Pow2Monotone(k, 7);
    assert Pow2(7) == 128;
    SingleBitMask(Pow2(k), k);
  }

  lemma SingleBitMask(p: Word, k: nat)
    requires k < 32 && p == Pow2(k)
    ensures And(p, Wrap(p - 1)) == 0
  {
    hide BitOp;
    AndLowMask(p, k, 32);
    ModUnique(p, p, 1, 0);
  }

  /** Visiting all slaves comes to visiting the selected one; the others are at most
      clocked without being selected. */
  lemma {:induction false} OnlyTheSelected(m: Master, k: nat, attached: set<nat>, push: bool, pull: bool, n: nat)
    requires Shiftable(m) && k in attached
    ensures VisitAll(m, Pow2(k), attached, push, pull, n).0
         == if k < n then VisitSelected(m, k, push, pull).0 else m
    ensures EventsOf(VisitAll(m, Pow2(k), attached, push, pull, n).1, k)
         == if k < n then VisitSelected(m, k, push, pull).1 else []
  {
    if n > 0 {
      hide VisitSelected, VisitAll;
      OnlyTheSelected(m, k, attached, push, pull, n - 1);
      NextVisited(m, k, attached, push, pull, n);
      var fs := VisitSelected(m, k, push, pull).1;
      assert [] + fs == fs && fs + [] == fs;
    }
  }

  lemma NextVisited(m: Master, k: nat, attached: set<nat>, push: bool, pull: bool, n: nat)
    requires Shiftable(m) && k in attached && n > 0
    ensures var (m1, es) := VisitAll(m, Pow2(k), attached, push, pull, n - 1);
            var (m2, fs) := VisitAll(m, Pow2(k), attached, push, pull, n);
            && m2 == (if n - 1 == k then VisitSelected(m1, k, push, pull).0 else m1)
            && EventsOf(fs, k) == EventsOf(es, k) + (if n - 1 == k then VisitSelected(m1, k, push, pull).1 else [])
  {
    hide Pow2, Bit, VisitSelected, VisitOther, EventsOf;
    BitOfPow2(k, n - 1);
    var (m1, es) := VisitAll(m, Pow2(k), attached, push, pull, n - 1);
    OwnEvents(m1, n - 1, k, push, pull);
    EventsAppend(es, VisitSelected(m1, n - 1, push, pull).1, k);
    EventsAppend(es, VisitOther(m1, n - 1, push), k);
    assert EventsOf(es, k) + [] == EventsOf(es, k);
  }

  lemma OwnEvents(m: Master, inst: nat, k: nat, push: bool, pull: bool)
    requires Shiftable(m)
    ensures inst == k ==> EventsOf(VisitSelected(m, inst, push, pull).1, k) == VisitSelected(m, inst, push, pull).1
    ensures inst != k ==> EventsOf(VisitOther(m, inst, push), k) == []
  {
    hide OneShift, Bit;
  }

  /** What the slaves that are not selected see of a cycle: one clock, marked as not selected,
      while the master stands in its second state when their turn comes, and nothing else ever. */
  lemma {:induction false} OthersSee(
      m: Master, k: nat, attached: set<nat>, push: bool, pull: bool, n: nat, other: nat)
    requires Shiftable(m) && k in attached && other != k
    ensures EventsOf(VisitAll(m, Pow2(k), attached, push, pull, n).1, other)
         == if other < n && other in attached
               && (if other < k then m.phase else VisitSelected(m, k, push, pull).0.phase) == Chosen
            then [Clocks(other, false, push)] else []
  {
    if n > 0 {
      hide VisitAll, VisitSelected, EventsOf;
      OthersSee(m, k, attached, push, pull, n - 1, other);
      OnlyTheSelected(m, k, attached, push, pull, n - 1);
      NextOther(m, k, attached, push, pull, n, other);
      assert [] + [Clocks(other, false, push)] == [Clocks(other, false, push)];
    }
  }

  lemma NextOther(m: Master, k: nat, attached: set<nat>, push: bool, pull: bool, n: nat, other: nat)
    requires Shiftable(m) && k in attached && other != k && n > 0
    ensures var (m1, es) := VisitAll(m, Pow2(k), attached, push, pull, n - 1);
            EventsOf(VisitAll(m, Pow2(k), attached, push, pull, n).1, other)
            == EventsOf(es, other)
               + (if n - 1 == other && other in attached && m1.phase == Chosen then [Clocks(other, false, push)] else [])
  {
    hide Pow2, Bit, VisitAll, VisitSelected, VisitOther, EventsOf;
    VisitNext(m, k, attached, push, pull, n);
    var (m1, es) := VisitAll(m, Pow2(k), attached, push, pull, n - 1);
    OwnOnly(m1, n - 1, other, push, pull);
    assert EventsOf(es, other) + [] == EventsOf(es, other);
    if n - 1 == k {
      EventsAppend(es, VisitSelected(m1, n - 1, push, pull).1, other);
    } else {
      EventsAppend(es, VisitOther(m1, n - 1, push), other);
    }
  }

  lemma VisitNext(m: Master, k: nat, attached: set<nat>, push: bool, pull: bool, n: nat)
    requires Shiftable(m) && k in attached && n > 0
    ensures var (m1, es) := VisitAll(m, Pow2(k), attached, push, pull, n - 1);
            VisitAll(m, Pow2(k), attached, push, pull, n).1
            == if n - 1 !in attached then es
               else if n - 1 == k then es + VisitSelected(m1, k, push, pull).1
               else es + VisitOther(m1, n - 1, push)
  {
    hide Pow2, Bit, VisitSelected, VisitOther;
    BitOfPow2(k, n - 1);
  }

  lemma OwnOnly(m: Master, inst: nat, other: nat, push: bool, pull: bool)
    requires Shiftable(m)
    ensures inst != other ==> EventsOf(VisitSelected(m, inst, push, pull).1, other) == []
    ensures EventsOf(VisitOther(m, inst, push), other)
         == if inst == other && m.phase == Chosen then [Clocks(other, false, push)] else []
  {
    hide OneShift, Bit;
  }

  /** The events one slave sees. */
  function EventsOf(es: seq<Event>, k: nat): seq<Event> {
    if es == [] then [] else (if es[0].inst == k then [es[0]] else []) + EventsOf(es[1..], k)
  }

  lemma {:induction false} EventsAppend(a: seq<Event>, b: seq<Event>, k: nat)
    ensures EventsOf(a + b, k) == EventsOf(a, k) + EventsOf(b, k)
  {
    if a == [] {
      assert a + b == b;
    } else {
      assert (a + b)[0] == a[0] && (a + b)[1..] == a[1..] + b;
      EventsAppend(a[1..], b, k);
      var own := if a[0].inst == k then [a[0]] else [];
      assert own + (EventsOf(a[1..], k) + EventsOf(b, k)) == (own + EventsOf(a[1..], k)) + EventsOf(b, k);
    }
  }

  /** An SPI cycle as the one selected slave brings it about. */
  function Cycle(m: Master, k: nat, pull: bool): (Master, seq<Event>)
    requires Shiftable(m)
  {
    var push := if m.phase != Idle then PushBit(m) else false;
    var (n, es) := VisitSelected(m, k, push, pull);
    (n.(cyc := Plus(n.cyc, 1), dividend := 0), es)
  }

  lemma CycleIs(m: Master, k: nat, attached: set<nat>, pull: bool)
    requires Shiftable(m) && OneSlave(m, attached, k)
    ensures var r := SpiCycle(m, attached, pull);
            && r.Some? && r.value.0 == Cycle(m, k, pull).0
            && EventsOf(r.value.1, k) == Cycle(m, k, pull).1
    ensures OneSlave(Cycle(m, k, pull).0, attached, k) && Shiftable(Cycle(m, k, pull).0)
  {
    hide OneShift, VisitAll, EventsOf, PushBit, Bit;
    var push := if m.phase != Idle then PushBit(m) else false;
    Pow2OneHot(k);
    OnlyTheSelected(m, k, attached, push, pull, NINST);
    KeepsRegisters(m, k, push, pull);
  }

  lemma CycleKeepsPeriod(m: Master, k: nat, pull: bool)
    requires Shiftable(m)
    ensures Cycle(m, k, pull).0.dividend == 0 && Period(Cycle(m, k, pull).0) == Period(m)
  {
    hide VisitSelected, PushBit;
    KeepsRegisters(m, k, if m.phase != Idle then PushBit(m) else false, pull);
  }

  lemma KeepsRegisters(m: Master, k: nat, push: bool, pull: bool)
    requires Shiftable(m)
    ensures var r := VisitSelected(m, k, push, pull).0.raw;
            && CharLen(r) == CharLen(m.raw) && r[5] == m.raw[5] && r[6] == m.raw[6]
            && (m.phase != Done ==> r[4] == m.raw[4])
  {
    hide OneShift;
    if m.phase == Busy { OneShiftIs(m.raw, pull); RegsAbove(OneShift(m.raw, pull), m.raw); }
    if m.phase == Done { GoCleared(m.raw); }
  }

  // ----- A transfer from start to finish -----

  function Cycles(m: Master, k: nat, pulls: seq<bool>): (r: Master)
    requires Shiftable(m)
    ensures Shiftable(r)
    decreases |pulls|
  {
    if pulls == [] then m
    else
      var n := Cycles(m, k, pulls[..|pulls| - 1]);
      ShiftableKept(n, k, if n.phase != Idle then PushBit(n) else false, pulls[|pulls| - 1]);
      Cycle(n, k, pulls[|pulls| - 1]).0
  }

  lemma {:induction false} CyclesAppend(m: Master, k: nat, a: seq<bool>, b: seq<bool>)
    requires Shiftable(m)
    ensures Cycles(m, k, a + b) == Cycles(Cycles(m, k, a), k, b)
    decreases |b|
  {
    hide Cycle;
    if b == [] {
      assert a + b == a;
    } else {
      var c := b[..|b| - 1];
      assert (a + b)[..|a + b| - 1] == a + c && (a + b)[|a + b| - 1] == b[|b| - 1];
      CyclesAppend(m, k, a, c);
    }
  }

  lemma CyclesOne(m: Master, k: nat, pull: bool)
    requires Shiftable(m)
    ensures Cycles(m, k, [pull]) == Cycle(m, k, pull).0
  {
    assert [pull][..0] == [];
    assert Cycles(m, k, []) == m;
  }

  /** SPI cycles spent waiting for the start-up count, including the one that moves on. */
  function Wait(cyc: Word): nat {
    if cyc > INIT_CYCLES then 1 else INIT_CYCLES + 2 - cyc
  }

  lemma {:induction false} Waiting(m: Master, k: nat, pulls: seq<bool>)
    requires Shiftable(m) && m.phase == Chosen && |pulls| == Wait(m.cyc)
    ensures Cycles(m, k, pulls) == m.(phase := Busy, cyc := Plus(m.cyc, Wait(m.cyc)), dividend := 0)
    decreases |pulls|
  {
    var first, rest := pulls[..1], pulls[1..];
    assert pulls == first + rest;
    CyclesAppend(m, k, first, rest);
    var n := Cycle(m, k, pulls[0]).0;
    assert first == [pulls[0]];
    CyclesOne(m, k, pulls[0]);
    WaitOnce(m, k, pulls[0]);
    assert Cycles(n, k, []) == n;
    hide Cycle, Cycles;
    if m.cyc <= INIT_CYCLES {
      Waiting(n, k, rest);
    } else {
      assert rest == [];
    }
  }

  lemma WaitOnce(m: Master, k: nat, pull: bool)
    requires Shiftable(m) && m.phase == Chosen
    ensures Cycle(m, k, pull).0 == m.(phase := if m.cyc > INIT_CYCLES then Busy else Chosen,
                                      cyc := Plus(m.cyc, 1), dividend := 0)
    ensures m.cyc <= INIT_CYCLES ==>
              && Plus(m.cyc, 1) == m.cyc + 1 && Wait(Plus(m.cyc, 1)) == Wait(m.cyc) - 1
              && Plus(Plus(m.cyc, 1), Wait(m.cyc) - 1) == Plus(m.cyc, Wait(m.cyc))
  {
    hide PushBit;
  }

  /** In the shifting phase every cycle exchanges one bit. */
  lemma {:induction false} Shifting(m: Master, k: nat, pulls: seq<bool>)
    requires Shiftable(m) && m.phase == Busy && 0 < |pulls| <= m.remaining
    ensures var r := Cycles(m, k, pulls);
            && Data(r.raw) == ShiftAll(Data(m.raw), Lsb(m.raw), CharLen(m.raw), pulls)
            && r.raw[4..] == m.raw[4..]
            && r.phase == (if |pulls| == m.remaining then Done else Busy) && r.remaining == m.remaining - |pulls|
            && r.cyc == Plus(m.cyc, |pulls|)
    decreases |pulls|
  {
    hide OneShift, Data;
    var before := pulls[..|pulls| - 1];
    if before != [] { Shifting(m, k, before); }
    var n := Cycles(m, k, before);
    if before == [] { assert n == m; }
    RegsAbove(n.raw, m.raw);
    OneShiftIs(n.raw, pulls[|pulls| - 1]);
    WrapPlus(m.cyc + |before|, 1);
    NextCount(m.cyc, |before|);
  }

  lemma NextCount(c: Word, n: nat)
    ensures Plus(Plus(c, n), 1) == Plus(c, n + 1)
  {
    WrapPlus(c + n, 1);
  }

  /** How many SPI cycles a transfer takes: one to select, the start-up wait, one a bit, and
      one to finish. */
  function TransferTime(m: Master): nat {
    Wait(Plus(m.cyc, 1)) + CharLen(m.raw) + 2
  }

  /** At most CHAR_LEN + 6, except exactly when the cycle counter wraps just then: it is
      CHAR_LEN + 7 in that case. */
  lemma TransferBound(m: Master)
    ensures TransferTime(m) <= CharLen(m.raw) + 6 <==> m.cyc != 0xffff_ffff
    ensures m.cyc == 0xffff_ffff ==> TransferTime(m) == CharLen(m.raw) + 7
  {
  }

  /** A started transfer runs to its end in exactly that time: the character is exchanged,
      GO_BSY is down, and every other register bit is as before. */
  lemma Transfer(m: Master, k: nat, pulls: seq<bool>)
    requires Inv(m) && Shiftable(m) && m.phase == Started && |pulls| == TransferTime(m)
    ensures var r := Cycles(m, k, pulls);
            var from := 1 + Wait(Plus(m.cyc, 1));
            && r.phase == Idle && Inv(r)
            && Data(r.raw) == ShiftAll(Data(m.raw), Lsb(m.raw), CharLen(m.raw), pulls[from..from + CharLen(m.raw)])
            && r.raw[4..] == ClearGo(m.raw)[4..]
  {
    hide OneShift, ShiftAll, CharLen, BitsN, ClearGo, Cycles, Data, Lsb, Go;
    var w, len := Wait(Plus(m.cyc, 1)), CharLen(m.raw);
    var a, b, c, d := pulls[..1], pulls[1..1 + w], pulls[1 + w..1 + w + len], pulls[1 + w + len..];
    assert pulls == a + b + c + d;
    var m1 := Cycles(m, k, a);
    assert a == [pulls[0]];
    CyclesOne(m, k, pulls[0]);
    Waiting(m1, k, b);
    var m2 := Cycles(m1, k, b);
    Shifting(m2, k, c);
    var m3 := Cycles(m2, k, c);
    var m4 := Cycles(m3, k, d);
    assert d == [d[0]];
    CyclesOne(m3, k, d[0]);
    CyclesAppend(m, k, a, b);
    CyclesAppend(m, k, a + b, c);
    CyclesAppend(m, k, a + b + c, d);
    RegsAbove(m3.raw, m.raw);
    Finished(m.raw, m3.raw);
  }

  lemma Finished(before: Regs7, after: Regs7)
    requires after[4..] == before[4..]
    ensures ClearGo(after)[4..] == ClearGo(before)[4..] && !Go(ClearGo(after))
    ensures Data(ClearGo(after)) == Data(after)
  {
    hide BitsN;
    RegsAbove(after, before);
    GoCleared(after);
    GoCleared(before);
    assert forall i | 0 <= i < 4 :: ClearGo(after)[i] == after[i];
  }

  // ----- Bus cycles -----

  /** Any number of bus cycles, with the bit on the slave's output line during each of them. */
  function BusCycles(m: Master, attached: set<nat>, bits: seq<bool>): (r: Option<(Master, seq<Event>)>)
    requires Shiftable(m)
    ensures r.Some? ==> Shiftable(r.value.0)
    decreases |bits|
  {
    if bits == [] then Some((m, []))
    else
      var r := BusCycles(m, attached, bits[..|bits| - 1]);
      if r.None? then None
      else
        var q := EmuCycle(r.value.0, attached, bits[|bits| - 1]);
        if q.None? then None else Some((q.value.0, r.value.1 + q.value.1))
  }

  function Period(m: Master): nat {
    2 * (Divider(m.raw) + 1)
  }

  /** Bus cycles up to the next SPI cycle. Nothing resets the divider count when a transfer is
      started, and a smaller DIVIDER may have left it past the end. */
  function ToFirst(m: Master): (n: nat)
    ensures 1 <= n <= Period(m)
  {
    if m.dividend >= Period(m) - 1 then 1 else Period(m) - m.dividend
  }

  /** Whatever the divider count, an SPI cycle happens on exactly that bus cycle, and nothing
      before it. */
  lemma {:induction false} BusCyclesAre(m: Master, attached: set<nat>, bits: seq<bool>)
    requires Shiftable(m) && |bits| <= ToFirst(m)
    ensures |bits| < ToFirst(m) ==> m.dividend + |bits| < 0x1_0000_0000
    ensures BusCycles(m, attached, bits)
         == if |bits| < ToFirst(m) then Some((m.(dividend := m.dividend + |bits|), []))
            else SpiCycle(m, attached, bits[|bits| - 1])
    decreases |bits|
  {
    hide SpiCycle;
    if bits != [] {
      BusCyclesAre(m, attached, bits[..|bits| - 1]);
      CountsOn(m, |bits| - 1, attached, bits[|bits| - 1]);
      var r := SpiCycle(m, attached, bits[|bits| - 1]);
      var quiet: seq<Event> := [];
      assert quiet + quiet == quiet && (r.Some? ==> quiet + r.value.1 == r.value.1);
    } else {
      assert m.(dividend := m.dividend + 0) == m;
    }
  }

  lemma CountsOn(m: Master, n: nat, attached: set<nat>, pull: bool)
    requires Shiftable(m) && n < ToFirst(m)
    ensures m.dividend + n < 0x1_0000_0000 && (n + 1 < ToFirst(m) ==> m.dividend + n + 1 < 0x1_0000_0000)
    ensures EmuCycle(m.(dividend := m.dividend + n), attached, pull)
         == if n + 1 < ToFirst(m) then Some((m.(dividend := m.dividend + n + 1), []))
            else SpiCycle(m, attached, pull)
  {
    hide SpiCycle;
    SpiCycleIgnores(m, m.dividend + n, attached, pull);
  }

  lemma SpiCycleIgnores(m: Master, v: Word, attached: set<nat>, pull: bool)
    requires Shiftable(m)
    ensures SpiCycle(m.(dividend := v), attached, pull) == SpiCycle(m, attached, pull)
  {
    hide VisitAll, OneHot;
    DividendIgnored(m, v, Select(m.raw), attached, if m.phase != Idle then PushBit(m) else false, pull, NINST);
  }

  lemma {:induction false} DividendIgnored(
      m: Master, v: Word, ss: nat, attached: set<nat>, push: bool, pull: bool, n: nat)
    requires Shiftable(m)
    ensures var (a, es) := VisitAll(m, ss, attached, push, pull, n);
            VisitAll(m.(dividend := v), ss, attached, push, pull, n) == (a.(dividend := v), es)
  {
    hide OneShift, Bit, VisitSelected;
    if n > 0 {
      DividendIgnored(m, v, ss, attached, push, pull, n - 1);
      SelectedIgnores(VisitAll(m, ss, attached, push, pull, n - 1).0, v, n - 1, push, pull);
    }
  }

  lemma SelectedIgnores(m: Master, v: Word, inst: nat, push: bool, pull: bool)
    requires Shiftable(m)
    ensures var (a, es) := VisitSelected(m, inst, push, pull);
            VisitSelected(m.(dividend := v), inst, push, pull) == (a.(dividend := v), es)
  {
    hide OneShift;
  }

  lemma {:induction false} BusCyclesAppend(m: Master, attached: set<nat>, a: seq<bool>, b: seq<bool>)
    requires Shiftable(m) && BusCycles(m, attached, a).Some?
    ensures var n := BusCycles(m, attached, a).value.0;
            && BusCycles(m, attached, a + b).Some? == BusCycles(n, attached, b).Some?
            && (BusCycles(n, attached, b).Some? ==>
                  BusCycles(m, attached, a + b).value.0 == BusCycles(n, attached, b).value.0)
    decreases |b|
  {
    hide EmuCycle;
    if b == [] {
      assert a + b == a;
    } else {
      var c := b[..|b| - 1];
      assert (a + b)[..|a + b| - 1] == a + c && (a + b)[|a + b| - 1] == b[|b| - 1];
      BusCyclesAppend(m, attached, a, c);
    }
  }

  /** Bus cycles that make j SPI cycles. */
  function BusTime(m: Master, j: nat): nat {
    if j == 0 then 0 else Evenly(ToFirst(m), Period(m), j)
  }

  function Evenly(first: nat, period: nat, j: nat): nat
    requires j > 0
  {
    first + period * (j - 1)
  }

  /** At most 2 * (DIVIDER + 1) bus cycles each. */
  lemma BusTimeBound(m: Master, j: nat)
    ensures BusTime(m, j) <= Period(m) * j
    ensures BusTime(m, j + 1) == BusTime(m, j) + (if j == 0 then ToFirst(m) else Period(m))
  {
    if j > 0 {
      assert Period(m) * j == Period(m) * (j - 1) + Period(m);
    }
  }

  /** The bits that the first j SPI cycles pull, of those on the line. */
  function Pulled(m: Master, bits: seq<bool>, j: nat): (r: seq<bool>)
    requires BusTime(m, j) <= |bits|
    ensures |r| == j
  {
    if j == 0 then []
    else
      BusTimeBound(m, j - 1);
      Pulled(m, bits, j - 1) + [bits[BusTime(m, j) - 1]]
  }

  /** On the bus, too, the one selected slave decides everything. */
  lemma {:induction false} OnBusIs(m: Master, k: nat, attached: set<nat>, bits: seq<bool>, j: nat)
    requires Shiftable(m) && OneSlave(m, attached, k) && BusTime(m, j) <= |bits|
    ensures BusCycles(m, attached, bits[..BusTime(m, j)]).Some?
    ensures var n := Cycles(m, k, Pulled(m, bits, j));
            && BusCycles(m, attached, bits[..BusTime(m, j)]).value.0 == n
            && OneSlave(n, attached, k) && Period(n) == Period(m) && (j > 0 ==> n.dividend == 0)
  {
    hide OneSlave, Cycle, BusCycles, Period, ToFirst, BusTime;
    if j == 0 {
      NoBusCycles(m, attached, bits);
    } else {
      BusTimeBound(m, j - 1);
      OnBusIs(m, k, attached, bits, j - 1);
      var pulls := Pulled(m, bits, j);
      var n := Cycles(m, k, pulls[..j - 1]);
      var front, part := bits[..BusTime(m, j - 1)], bits[BusTime(m, j - 1)..BusTime(m, j)];
      assert bits[..BusTime(m, j)] == front + part && pulls[..j - 1] == Pulled(m, bits, j - 1);
      FirstOfNext(m, n, j);
      OneOnBus(n, k, attached, part);
      BusCyclesAppend(m, attached, front, part);
    }
  }

  lemma NoBusCycles(m: Master, attached: set<nat>, bits: seq<bool>)
    requires Shiftable(m)
    ensures BusTime(m, 0) == 0 && bits[..0] == [] && BusCycles(m, attached, []) == Some((m, []))
  {
  }

  lemma FirstOfNext(m: Master, n: Master, j: nat)
    requires j > 0 && Period(n) == Period(m) && (if j == 1 then n == m else n.dividend == 0)
    ensures BusTime(m, j) == BusTime(m, j - 1) + ToFirst(n)
  {
    BusTimeBound(m, j - 1);
  }

  lemma OneOnBus(m: Master, k: nat, attached: set<nat>, bits: seq<bool>)
    requires Shiftable(m) && OneSlave(m, attached, k) && |bits| == ToFirst(m)
    ensures var r, pull := BusCycles(m, attached, bits), bits[|bits| - 1];
            r.Some? && r.value.0 == Cycle(m, k, pull).0 && EventsOf(r.value.1, k) == Cycle(m, k, pull).1
    ensures var n := Cycle(m, k, bits[|bits| - 1]).0;
            OneSlave(n, attached, k) && n.dividend == 0 && Period(n) == Period(m)
  {
    var pull := bits[|bits| - 1];
    KeepsRegisters(m, k, if m.phase != Idle then PushBit(m) else false, pull);
    hide OneSlave, SpiCycle, BusCycles, EventsOf, VisitSelected, PushBit;
    BusCyclesAre(m, attached, bits);
    CycleIs(m, k, attached, pull);
  }

  /** A started transfer on the bus, whatever the divider count and the bits on the line: back
      in the idle state, the character exchanged, after the wait for the first SPI cycle and
      2 * (DIVIDER + 1) bus cycles for each of the others. */
  lemma TransferOnBus(m: Master, k: nat, attached: set<nat>, bits: seq<bool>)
    requires Inv(m) && Shiftable(m) && m.phase == Started && OneSlave(m, attached, k)
    requires |bits| == ToFirst(m) + Period(m) * (TransferTime(m) - 1)
    ensures |bits| == BusTime(m, TransferTime(m)) <= Period(m) * TransferTime(m)
    ensures BusCycles(m, attached, bits).Some?
    ensures var r := BusCycles(m, attached, bits).value.0;
            var from := 1 + Wait(Plus(m.cyc, 1));
            var pulls := Pulled(m, bits, TransferTime(m));
            && r.phase == Idle && !Go(r.raw)
            && Data(r.raw) == ShiftAll(Data(m.raw), Lsb(m.raw), CharLen(m.raw), pulls[from..from + CharLen(m.raw)])
  {
    hide BusCycles, Cycles, OneSlave, ShiftAll, Data, ToFirst, Period;
    BusTimeBound(m, TransferTime(m));
    assert bits[..|bits|] == bits;
    OnBusIs(m, k, attached, bits, TransferTime(m));
    Transfer(m, k, Pulled(m, bits, TransferTime(m)));
  }

  // ----- Whole histories -----

  type RegNo = r: nat | r < 7

  /** What can happen to the device: a bus access, or a bus cycle with a bit on the line. */
  datatype Step = Op(access: Access, reg: RegNo) | Beat(pull: bool)

  const RESET := Master(Idle, 0, 0, 0, [0, 0, 0, 0, 0, 0xffff, 0])

  /** Nothing after a breakpoint, and for a bus cycle in a transfer of CHAR_LEN zero. */
  function Happen(m: Master, attached: set<nat>, s: Step): Option<Master> {
    match s
    case Op(a, reg) =>
      var r := BusOp(m, a, reg, attached);
      if r.Breakpoint? then None else Some(r.m)
    case Beat(pull) =>
      if !Shiftable(m) then None
      else
        var r := EmuCycle(m, attached, pull);
        if r.None? then None else Some(r.value.0)
  }

  function History(m: Master, attached: set<nat>, steps: seq<Step>): Option<Master> {
    if steps == [] then Some(m)
    else
      var r := History(m, attached, steps[..|steps| - 1]);
      if r.None? then None else Happen(r.value, attached, steps[|steps| - 1])
  }

  lemma HappenKeepsInv(m: Master, attached: set<nat>, s: Step)
    requires Inv(m)
    ensures Happen(m, attached, s).Some? ==> Inv(Happen(m, attached, s).value)
  {
    hide Inv, EmuCycle, BusOp;
    match s
    case Op(a, reg) => BusKeepsInv(m, a, reg, attached);
    case Beat(pull) => if Shiftable(m) { CycleKeepsInv(m, attached, pull); }
  }

  /** In every state that accesses and bus cycles lead to from reset, whatever the slaves answer,
      GO_BSY is up exactly during a transfer and the bits left to go are accounted for. */
  lemma {:induction false} AlwaysInv(attached: set<nat>, steps: seq<Step>)
    requires History(RESET, attached, steps).Some?
    ensures Inv(History(RESET, attached, steps).value)
  {
    hide Happen;
    if steps != [] {
      AlwaysInv(attached, steps[..|steps| - 1]);
      HappenKeepsInv(History(RESET, attached, steps[..|steps| - 1]).value, attached, steps[|steps| - 1]);
    }
  }

  /** No attached slave is selected. */
  ghost predicate Deselected(m: Master, attached: set<nat>) {
    forall k: nat | k < NINST && k in attached :: !Bit(Select(m.raw), k)
  }

  /** The same transfer, at the same point. */
  predicate SamePoint(m: Master, n: Master) {
    n.phase == m.phase && n.raw == m.raw && n.remaining == m.remaining
  }

  lemma {:induction false} VisitsNone(m: Master, attached: set<nat>, push: bool, pull: bool, n: nat)
    requires Shiftable(m) && Deselected(m, attached) && n <= NINST
    ensures VisitAll(m, Select(m.raw), attached, push, pull, n).0 == m
  {
    hide Bit, VisitSelected;
    if n > 0 { VisitsNone(m, attached, push, pull, n - 1); }
  }

  lemma StuckStep(m: Master, attached: set<nat>, s: Step)
    requires m.phase != Idle && Deselected(m, attached)
    ensures Happen(m, attached, s).Some? ==> SamePoint(m, Happen(m, attached, s).value)
  {
    hide Bit, VisitAll, OneHot;
    if s.Beat? && Shiftable(m) {
      VisitsNone(m, attached, PushBit(m), s.pull, NINST);
    }
  }

  /** Without an attached slave selected a transfer stays where it is, whatever happens. */
  lemma {:induction false} Stuck(m: Master, attached: set<nat>, steps: seq<Step>)
    requires m.phase != Idle && Deselected(m, attached) && History(m, attached, steps).Some?
    ensures SamePoint(m, History(m, attached, steps).value)
  {
    hide Happen, Bit;
    if steps != [] {
      Stuck(m, attached, steps[..|steps| - 1]);
      StuckStep(History(m, attached, steps[..|steps| - 1]).value, attached, steps[|steps| - 1]);
    }
  }

  function Beats(bits: seq<bool>): seq<Step> {
    seq(|bits|, i requires 0 <= i < |bits| => Beat(bits[i]))
  }

  lemma {:induction false} BeatsAreCycles(m: Master, attached: set<nat>, bits: seq<bool>)
    requires Shiftable(m) && BusCycles(m, attached, bits).Some?
    ensures History(m, attached, Beats(bits)) == Some(BusCycles(m, attached, bits).value.0)
    decreases |bits|
  {
    hide EmuCycle, Shiftable;
    if bits != [] {
      var before := bits[..|bits| - 1];
      assert Beats(bits)[..|bits| - 1] == Beats(before);
      BeatsAreCycles(m, attached, before);
    }
  }

  lemma {:induction false} AndSelf(x: nat, n: nat)
    requires x < Pow2(n)
    ensures BitOp(AndOp, x, x, n) == x
  {
    if n > 0 { AndSelf(x / 2, n - 1); }
  }

  lemma {:induction false} OneBitOnly(x: nat, k: nat, n: nat)
    requires 0 < x < Pow2(n) && BitOp(AndOp, x, x - 1, n) == 0 && Bit(x, k)
    ensures x == Pow2(k)
  {
    if x % 2 == 1 {
      AndSelf(x / 2, n - 1);
      if k > 0 { BitOfZero(k - 1); }
    } else {
      OneBitOnly(x / 2, k - 1, n - 1);
    }
  }

  lemma {:induction false} SomeBit(x: nat) returns (k: nat)
    requires x > 0
    ensures Bit(x, k)
  {
    if x % 2 == 1 {
      k := 0;
    } else {
      k := SomeBit(x / 2);
      k := k + 1;
    }
  }

  lemma {:induction false} TwoBits(x: nat, n: nat) returns (j: nat, k: nat)
    requires 0 < x < Pow2(n) && BitOp(AndOp, x, x - 1, n) != 0
    ensures j < k && Bit(x, j) && Bit(x, k)
  {
    if x % 2 == 1 {
      AndSelf(x / 2, n - 1);
      k := SomeBit(x / 2);
      j, k := 0, k + 1;
    } else {
      j, k := TwoBits(x / 2, n - 1);
      j, k := j + 1, k + 1;
    }
  }

  lemma {:induction false} HighBits(x: nat, n: nat, k: nat)
    requires x < Pow2(n) && Bit(x, k)
    ensures k < n
  {
    if n == 0 { BitOfZero(k); } else if k > 0 { HighBits(x / 2, n - 1, k - 1); }
  }

  /** An SPI cycle stops the simulation exactly during a transfer with two select bits set. */
  lemma FatalSelect(m: Master, attached: set<nat>, pull: bool)
    requires Shiftable(m)
    ensures SpiCycle(m, attached, pull).None?
       <==> m.phase != Idle && exists j, k :: 0 <= j < k < 8 && Bit(m.raw[6], j) && Bit(m.raw[6], k)
  {
    OneHotExactly(m.raw[6]);
    hide OneHot, VisitAll, Bit;
  }

  lemma OneHotExactly(ss: Word)
    ensures !OneHot(ss % 0x100) <==> exists j, k :: 0 <= j < k < 8 && Bit(ss, j) && Bit(ss, k)
  {
    hide Bit, BitOp, Pow2, Wrap;
    var x := ss % 0x100;
    EightBits();
    assert x % 0x100 == x;
    if x == 0 {
      ZeroOneHot();
      forall j | 0 <= j < 8 ensures !Bit(ss, j) {
        BitOfByte(ss, 8, j);
        BitOfZero(j);
      }
    } else {
      WrapSmall(x - 1);
      if OneHot(x) {
        forall j, k | 0 <= j < k < 8 && Bit(ss, j) && Bit(ss, k) ensures false {
          BitOfByte(ss, 8, j);
          BitOfByte(ss, 8, k);
          OneBitOnly(x, j, 32);
          BitOfPow2(j, k);
        }
      } else {
        var j, k := TwoBits(x, 32);
        HighBits(x, 8, k);
        BitOfByte(ss, 8, j);
        BitOfByte(ss, 8, k);
      }
    }
  }

  lemma EightBits()
    ensures Pow2(8) == 0x100 && Pow2(32) == 0x1_0000_0000
  {
    Pow2Of32();
  }

  lemma ZeroOneHot()
    ensures OneHot(0)
  {
    hide BitOp;
    AndZero(Wrap(0 - 1), 32);
  }

  /** With one-hot select bits a slave whose bit is set is the one slave. */
  lemma SelectedAlone(m: Master, attached: set<nat>, k: nat)
    requires CharLen(m.raw) > 0 && OneHot(Select(m.raw)) && k < NINST && k in attached && Bit(Select(m.raw), k)
    ensures OneSlave(m, attached, k)
  {
    hide Bit, BitOp, Pow2, Wrap;
    var x := Select(m.raw);
    if x == 0 { BitOfZero(k); }
    WrapSmall(x - 1);
    Pow2Of32();
    assert x % 0x100 == x;
    OneBitOnly(x, k, 32);
  }

  /** A started transfer with one-hot select bits can end if and only if an attached slave is
      selected; no access can stop it otherwise. */
  lemma EndsExactly(m: Master, attached: set<nat>)
    requires Inv(m) && Shiftable(m) && m.phase == Started && OneHot(Select(m.raw))
    ensures (exists steps :: History(m, attached, steps).Some? && History(m, attached, steps).value.phase == Idle)
       <==> !Deselected(m, attached)
  {
    hide Bit, OneHot, OneSlave, BusCycles, BusTime;
    if Deselected(m, attached) {
      forall steps | History(m, attached, steps).Some?
        ensures History(m, attached, steps).value.phase != Idle
      {
        Stuck(m, attached, steps);
      }
    } else {
      var k: nat :| k < NINST && k in attached && Bit(Select(m.raw), k);
      SelectedAlone(m, attached, k);
      var n := BusTime(m, TransferTime(m));
      var bits: seq<bool> := seq(n, _ => false);
      TransferTakes(m, k, attached, bits);
      BeatsAreCycles(m, attached, bits);
    }
  }

  lemma TransferTakes(m: Master, k: nat, attached: set<nat>, bits: seq<bool>)
    requires Inv(m) && Shiftable(m) && m.phase == Started && OneSlave(m, attached, k)
    requires |bits| == BusTime(m, TransferTime(m))
    ensures BusCycles(m, attached, bits).Some? && BusCycles(m, attached, bits).value.0.phase == Idle
  {
    hide BusCycles, OneSlave, Pulled;
    TransferOnBus(m, k, attached, bits);
  }

  // ----- From the bus writes on -----

  /** A register write while no transfer is in progress: it stops the simulation exactly when it
      sets GO_BSY together with other changes to CTRL, and otherwise that register, and no other,
      reads as written; the transfer is started exactly by GO_BSY, with CHAR_LEN bits to go. */
  lemma WriteIs(m: Master, data: Word, reg: RegNo, attached: set<nat>)
    requires Inv(m) && m.phase == Idle
    ensures var r := BusOp(m, Write(data), reg, attached);
            && (r.Breakpoint? <==> reg == 4 && Bit(data, 8) && data - 0x100 != m.raw[4])
            && (r.Reply? ==>
                  && r.data == data
                  && (forall i: RegNo :: BusOp(r.m, Read, i, attached)
                                         == Reply(r.m, if i == reg then data else m.raw[i], []))
                  && r.m.dividend == m.dividend && r.m.cyc == m.cyc
                  && (if reg == 4 && Bit(data, 8)
                      then r.m.phase == Started && r.m.remaining == (if data % 128 == 0 then 128 else data % 128)
                      else r.m.phase == Idle && r.m.remaining == m.remaining))
  {
    BitValue(data, 8);
    assert Pow2(8) == 256;
    hide SelectEvents, Bit, Pow2;
    if reg == 4 { SameOthers(data, m.raw[4]); }
  }

  /** Who hears of a write: with automatic selection off, an attached slave whose select bit
      changes is told its new value, and no one else is told anything. */
  lemma SelectSeen(m: Master, data: Word, reg: RegNo, attached: set<nat>, k: nat)
    requires Inv(m) && m.phase == Idle && BusOp(m, Write(data), reg, attached).Reply?
    ensures EventsOf(BusOp(m, Write(data), reg, attached).events, k)
         == if reg == 6 && !Bit(m.raw[4], 13) && k in attached && k < 8 && Bit(m.raw[6], k) != Bit(data, k)
            then [Selects(k, Bit(data, k))] else []
  {
    BitValue(m.raw[4], 13);
    assert Pow2(8) == 256 && Pow2(13) == 0x2000;
    hide Bit, Pow2, SelectEvents, EventsOf;
    NoEvents(k);
    SelectEventsOf(Select(m.raw), data, attached, NINST, k);
    if k < 8 { BitOfByte(m.raw[6], 8, k); }
  }

  lemma NoEvents(k: nat)
    ensures EventsOf([], k) == []
  {
  }

  lemma {:induction false} SelectEventsOf(was: nat, ss: nat, attached: set<nat>, n: nat, k: nat)
    ensures EventsOf(SelectEvents(was, ss, attached, n), k)
         == if k < n && k in attached && Bit(was, k) != Bit(ss, k) then [Selects(k, Bit(ss, k))] else []
  {
    hide Bit;
    if n > 0 {
      SelectEventsOf(was, ss, attached, n - 1, k);
      var last := if n - 1 in attached && Bit(was, n - 1) != Bit(ss, n - 1) then [Selects(n - 1, Bit(ss, n - 1))] else [];
      EventsAppend(SelectEvents(was, ss, attached, n - 1), last, k);
      assert last != [] ==> last[1..] == [];
    }
  }

  /** How a driver starts a transfer: the character, the slave, the settings, then GO_BSY. */
  function Setup(tx: seq<Word>, ss: Word, ctrl: Word): seq<Step>
    requires |tx| == 4 && !Bit(ctrl, 8)
  {
    [Op(Write(tx[0]), 0), Op(Write(tx[1]), 1), Op(Write(tx[2]), 2), Op(Write(tx[3]), 3), Op(Write(ss), 6),
     Op(Write(ctrl), 4), Op(Write(WithGo(ctrl)), 4)]
  }

  function WithGo(ctrl: Word): Word
    requires !Bit(ctrl, 8)
  {
    BitValue(ctrl, 8);
    assert Pow2(8) == 256;
    ctrl + 0x100
  }

  lemma GoIs(ctrl: Word)
    requires !Bit(ctrl, 8)
    ensures ctrl / 0x100 % 2 == 0 && WithGo(ctrl) / 0x100 % 2 == 1
    ensures WithGo(ctrl) % 0x80 == ctrl % 0x80 && WithGo(ctrl) / 0x800 == ctrl / 0x800 && WithGo(ctrl) - 0x100 == ctrl
  {
    BitValue(ctrl, 8);
    assert Pow2(8) == 256;
    hide Pow2, Bit;
    GoFields(ctrl);
  }

  lemma GoFields(c: Word)
    requires c / 0x100 % 2 == 0
    ensures (c + 0x100) / 0x100 % 2 == 1 && (c + 0x100) % 0x80 == c % 0x80 && (c + 0x100) / 0x800 == c / 0x800
  {
    GoHigh(c);
    GoAbove(c / 0x100);
    Above(c);
    Above(c + 0x100);
    GoLow(c);
  }

  lemma GoHigh(c: nat)
    ensures (c + 0x100) / 0x100 == c / 0x100 + 1
  {
  }

  lemma GoAbove(q: nat)
    requires q % 2 == 0
    ensures (q + 1) / 8 == q / 8 && (q + 1) % 2 == 1
  {
  }

  lemma Above(c: nat)
    ensures c / 0x800 == c / 0x100 / 8
  {
  }

  lemma GoLow(c: Word)
    ensures (c + 0x100) % 0x80 == c % 0x80
  {
  }

  lemma HistoryNext(m: Master, attached: set<nat>, steps: seq<Step>, s: Step)
    requires History(m, attached, steps).Some?
    ensures History(m, attached, steps + [s]) == Happen(History(m, attached, steps).value, attached, s)
  {
    hide Happen;
    assert (steps + [s])[..|steps + [s]| - 1] == steps;
  }

  lemma {:induction false} HistoryAppend(m: Master, attached: set<nat>, a: seq<Step>, b: seq<Step>)
    requires History(m, attached, a).Some?
    ensures History(m, attached, a + b) == History(History(m, attached, a).value, attached, b)
    decreases |b|
  {
    hide Happen;
    if b == [] {
      assert a + b == a;
    } else {
      assert (a + b)[..|a + b| - 1] == a + b[..|b| - 1];
      HistoryAppend(m, attached, a, b[..|b| - 1]);
    }
  }

  /** The master that such writes start, whatever was in its registers before. */
  function StartedBy(m: Master, tx: seq<Word>, ss: Word, ctrl: Word): Master
    requires |tx| == 4 && !Bit(ctrl, 8)
  {
    var len := if ctrl % 128 == 0 then 128 else ctrl % 128;
    Master(Started, m.dividend, m.cyc, len, [tx[0], tx[1], tx[2], tx[3], WithGo(ctrl), m.raw[5], ss])
  }

  lemma QuietWrite(m: Master, data: Word, reg: RegNo, attached: set<nat>)
    requires Inv(m) && m.phase == Idle && (reg == 4 ==> data / 0x100 % 2 == 0)
    ensures Happen(m, attached, Op(Write(data), reg)) == Some(m.(raw := m.raw[reg := data]))
    ensures Inv(m.(raw := m.raw[reg := data]))
  {
    hide SelectEvents;
  }

  lemma GoWrite(m: Master, attached: set<nat>, ctrl: Word)
    requires Inv(m) && m.phase == Idle && !Bit(ctrl, 8) && m.raw[4] == ctrl
    ensures Happen(m, attached, Op(Write(WithGo(ctrl)), 4))
         == Some(m.(phase := Started, remaining := if ctrl % 128 == 0 then 128 else ctrl % 128, raw := m.raw[4 := WithGo(ctrl)]))
  {
    GoIs(ctrl);
    hide Bit, WithGo;
  }

  lemma SetUp(m: Master, attached: set<nat>, tx: seq<Word>, ss: Word, ctrl: Word)
    requires Inv(m) && m.phase == Idle && |tx| == 4 && !Bit(ctrl, 8)
    ensures History(m, attached, Setup(tx, ss, ctrl)) == Some(StartedBy(m, tx, ss, ctrl))
  {
    hide Inv, Happen, History, Bit, WithGo;
    GoIs(ctrl);
    var s := Setup(tx, ss, ctrl);
    assert History(m, attached, []) == Some(m) by { NoHistory(m, attached); }
    QuietWrite(m, tx[0], 0, attached);
    HistoryNext(m, attached, [], s[0]);
    var m1 := m.(raw := m.raw[0 := tx[0]]);
    QuietWrite(m1, tx[1], 1, attached);
    HistoryNext(m, attached, [] + [s[0]], s[1]);
    var m2 := m1.(raw := m1.raw[1 := tx[1]]);
    QuietWrite(m2, tx[2], 2, attached);
    HistoryNext(m, attached, [] + [s[0]] + [s[1]], s[2]);
    var m3 := m2.(raw := m2.raw[2 := tx[2]]);
    QuietWrite(m3, tx[3], 3, attached);
    HistoryNext(m, attached, [] + [s[0]] + [s[1]] + [s[2]], s[3]);
    var m4 := m3.(raw := m3.raw[3 := tx[3]]);
    QuietWrite(m4, ss, 6, attached);
    HistoryNext(m, attached, [] + [s[0]] + [s[1]] + [s[2]] + [s[3]], s[4]);
    var m5 := m4.(raw := m4.raw[6 := ss]);
    QuietWrite(m5, ctrl, 4, attached);
    HistoryNext(m, attached, [] + [s[0]] + [s[1]] + [s[2]] + [s[3]] + [s[4]], s[5]);
    var m6 := m5.(raw := m5.raw[4 := ctrl]);
    GoWrite(m6, attached, ctrl);
    HistoryNext(m, attached, [] + [s[0]] + [s[1]] + [s[2]] + [s[3]] + [s[4]] + [s[5]], s[6]);
    assert [] + [s[0]] + [s[1]] + [s[2]] + [s[3]] + [s[4]] + [s[5]] + [s[6]] == s;
    assert m6.raw[4 := WithGo(ctrl)] == StartedBy(m, tx, ss, ctrl).raw;
  }

  lemma NoHistory(m: Master, attached: set<nat>)
    ensures History(m, attached, []) == Some(m)
  {
  }

  lemma StartedInv(m: Master, k: nat, attached: set<nat>, tx: seq<Word>, ss: Word, ctrl: Word)
    requires |tx| == 4 && !Bit(ctrl, 8) && ctrl % 128 > 0
    ensures Inv(StartedBy(m, tx, ss, ctrl)) && Shiftable(StartedBy(m, tx, ss, ctrl))
    ensures k < NINST && k in attached && ss % 256 == Pow2(k) ==> OneSlave(StartedBy(m, tx, ss, ctrl), attached, k)
    ensures CharLen(StartedBy(m, tx, ss, ctrl).raw) == ctrl % 128
    ensures Lsb(StartedBy(m, tx, ss, ctrl).raw) == (ctrl / 0x800 % 2 == 1)
  {
    GoIs(ctrl);
    hide Bit, WithGo, Pow2;
  }

  /** A whole transfer from the driver's writes on: after the wait for the first SPI cycle and the
      periods of the others GO_BSY is down, and Rx reads as the character written shifted through
      with the bits that were on the line. */
  lemma TransferFromWrites(
      m: Master, k: nat, attached: set<nat>, tx: seq<Word>, ss: Word, ctrl: Word, bits: seq<bool>)
    requires Inv(m) && m.phase == Idle && |tx| == 4 && !Bit(ctrl, 8) && ctrl % 128 > 0
    requires k < NINST && k in attached && ss % 256 == Pow2(k)
    requires |bits| == BusTime(StartedBy(m, tx, ss, ctrl), TransferTime(StartedBy(m, tx, ss, ctrl)))
    ensures var started := StartedBy(m, tx, ss, ctrl);
            var h := History(m, attached, Setup(tx, ss, ctrl) + Beats(bits));
            var from := 1 + Wait(Plus(m.cyc, 1));
            var pulls := Pulled(started, bits, TransferTime(started));
            && TransferTime(started) == from + ctrl % 128 + 1
            && h.Some? && h.value.phase == Idle && !Go(h.value.raw)
            && Data(h.value.raw) == ShiftAll(Data(started.raw), ctrl / 0x800 % 2 == 1, ctrl % 128, pulls[from..from + ctrl % 128])
  {
    hide Inv, Bit, OneSlave, History, BusCycles, Pulled, Data, ShiftAll, Shiftable, Setup, BusTime, Lsb, CharLen, Go, Wait, Plus, Pow2;
    var started := StartedBy(m, tx, ss, ctrl);
    SetUp(m, attached, tx, ss, ctrl);
    StartedInv(m, k, attached, tx, ss, ctrl);
    BusTimeIs(started, TransferTime(started));
    TransferOnBus(started, k, attached, bits);
    BeatsAreCycles(started, attached, bits);
    HistoryAppend(m, attached, Setup(tx, ss, ctrl), Beats(bits));
  }

  lemma BusTimeIs(m: Master, j: nat)
    requires j > 0
    ensures BusTime(m, j) == ToFirst(m) + Period(m) * (j - 1)
  {
  }
}
