/** struct spi_state and the functions that update it (src/devices/spi.c). */
module SpiState {
  import opened Options
  import opened Words
  import opened Spi
  import opened SpiMaster

  class State {
    var phase: Phase
    var dividend: Word
    var cyc: Word
    var remaining: nat
    const raw: array<Word>

    ghost predicate Valid()
      reads this
    {
      raw.Length == 7
    }

    function Now(): Master
      requires Valid()
      reads this, raw
    {
      Master(phase, dividend, cyc, remaining, raw[..])
    }

    /** spi_emu_init and spi_reset_defaults. */
    constructor ()
      ensures Valid() && fresh(raw)
      ensures Now() == Master(Idle, 0, 0, 0, [0, 0, 0, 0, 0, 0xffff, 0]) && Inv(Now())
    {
      phase, dividend, cyc, remaining := Idle, 0, 0, 0;
      raw := new Word[7][0, 0, 0, 0, 0, 0xffff, 0];
    }

    method DoOneShift(width: nat, pull: bool)
      requires Valid() && width == CharLen(raw[..]) && width > 0
      modifies raw
      ensures raw[..] == OneShift(old(raw[..]), pull)
    {
      hide ShiftDown, ShiftUp, InsertBit;
      ghost var start: Regs7 := raw[..];
      if Lsb(raw[..]) {
        for i := 0 to 4
          invariant forall j | 0 <= j < i :: raw[j] == WordsDown(start)[j]
          invariant forall j | i <= j < 7 :: raw[j] == start[j]
        {
          raw[i] := ShiftDown(raw[i], i < 3 && raw[i + 1] % 2 == 1);
        }
        assert raw[..] == WordsDown(start);
        raw[(width - 1) / 32] := InsertBit(raw[(width - 1) / 32], (width - 1) % 32, pull);
      } else {
        for i := 4 downto 0
          invariant forall j | i <= j < 4 :: raw[j] == WordsUp(start)[j]
          invariant forall j | 4 <= j < 7 :: raw[j] == start[j]
          invariant forall j | 0 <= j < i :: raw[j] == start[j]
        {
          raw[i] := ShiftUp(raw[i], i > 0 && raw[i - 1] >= 0x8000_0000);
        }
        assert raw[..] == WordsUp(start);
        raw[0] := InsertBit(raw[0], 0, pull);
      }
    }

    /** The switch for a slave whose select bit is set. */
    method Visit(inst: nat, push: bool, pull: bool) returns (events: seq<Event>)
      requires Valid() && Shiftable(Now())
      modifies this, raw
      ensures (Now(), events) == VisitSelected(old(Now()), inst, push, pull)
    {
      hide OneShift;
      events := [];
      match phase
      case Idle =>
      case Started =>
        if AutoSelect(raw[..]) { events := [Selects(inst, true)]; }
        phase := Chosen;
      case Chosen =>
        if cyc > INIT_CYCLES { phase := Busy; }
      case Busy =>
        DoOneShift(CharLen(raw[..]), pull);
        remaining := if remaining > 0 then remaining - 1 else 0xffff_ffff;
        events := [Clocks(inst, true, push)];
        if remaining == 0 { phase := Done; }
      case Done =>
        if AutoSelect(raw[..]) { events := [Selects(inst, false)]; }
        phase := Idle;
        ghost var before := raw[..];
        if Go(raw[..]) { raw[4] := raw[4] - 0x100; }
        assert raw[..] == ClearGo(before);
    }

    method SlaveCycle(attached: set<nat>, pull: bool) returns (events: seq<Event>, fatal: bool)
      requires Valid() && Shiftable(Now())
      modifies this, raw
      ensures fatal == SpiMaster.SlaveCycle(old(Now()), attached, pull).None?
      ensures !fatal ==> SpiMaster.SlaveCycle(old(Now()), attached, pull) == Some((Now(), events))
    {
      hide VisitSelected, OneHot, Bit, PushBit;
      ghost var start := Now();
      events, fatal := [], false;
      var push := false;
      var ss := Select(raw[..]);
      if phase != Idle {
        if !OneHot(ss) { return events, true; }
        push := PushBit(Now());
      }
      for inst := 0 to NINST
        invariant Valid() && Shiftable(Now())
        invariant (Now(), events) == VisitAll(start, ss, attached, push, pull, inst)
      {
        if inst in attached {
          if Bit(ss, inst) {
            ShiftableKept(Now(), inst, push, pull);
            var es := Visit(inst, push, pull);
            events := events + es;
          } else {
            events := events + VisitOther(Now(), inst, push);
          }
        }
      }
    }

    /** spi_emu_cycle, with the update of the counters the source makes around the slaves. */
    method EmuCycle(attached: set<nat>, pull: bool) returns (events: seq<Event>, fatal: bool)
      requires Valid() && Shiftable(Now()) && Inv(Now())
      modifies this, raw
      ensures fatal == SpiMaster.EmuCycle(old(Now()), attached, pull).None?
      ensures !fatal ==> SpiMaster.EmuCycle(old(Now()), attached, pull) == Some((Now(), events)) && Inv(Now())
    {
      hide VisitAll, OneHot, PushBit, Inv;
      ghost var start := Now();
      CycleKeepsInv(start, attached, pull);
      events, fatal := [], false;
      if dividend >= (Divider(raw[..]) + 1) * 2 - 1 {
        events, fatal := SlaveCycle(attached, pull);
        if fatal { return; }
        cyc := Plus(cyc, 1);
        dividend := 0;
      } else {
        dividend := Plus(dividend, 1);
      }
    }

    /** spi_op. */
    method SpiOp(a: Access, reg: nat, attached: set<nat>) returns (data: Word, events: seq<Event>, fatal: bool)
      requires Valid() && reg < 7 && Inv(Now())
      modifies this, raw
      ensures fatal == (BusOp(old(Now()), a, reg, attached) == Breakpoint)
      ensures !fatal ==> BusOp(old(Now()), a, reg, attached) == Reply(Now(), data, events) && Inv(Now())
    {
      hide SelectEvents, Inv;
      ghost var start := Now();
      BusKeepsInv(start, a, reg, attached);
      events, fatal := [], false;
      data := raw[reg];
      if phase == Idle && a.Write? {
        data := a.data;
        if reg == 4 {
          var newGo := data / 0x100 % 2 == 1;
          if !(newGo == Go(raw[..]) || WithoutGo(data) == WithoutGo(raw[4])) { return data, events, true; }
          if newGo {
            phase := Started;
            remaining := Length(raw[..]);
          }
        } else if reg == 6 {
          if !AutoSelect(raw[..]) { events := SelectEvents(Select(raw[..]), data, attached, NINST); }
        }
        raw[reg] := data;
        assert raw[..] == start.raw[reg := data];
      }
    }
  }
}
