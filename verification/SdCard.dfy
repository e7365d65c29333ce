/** The SD card behind the SPI master (src/devices/spisd.c), in the SPI mode of the SD
    Physical Layer Simplified Specification: command format of section 7.3.1.1, response
    R1 of section 7.3.2.1. */
module SdCard {
  import opened Options
  import opened Words

  datatype Status = Invalid | Uninitialised | Initialising | Ready

  type Word64 = w: int | 0 <= w < 0x1_0000_0000_0000_0000

  datatype Card = Card(
    status: Status, shiftIn: Word64, shiftOut: Word64, outLen: nat,
    bitCount: nat, cycles: nat, lastReset: nat)

  const POWER_UP := Card(Uninitialised, 0, 0, 0, 0, 0, 0)
  const RESET_CYCLES: nat := 50

  /** R1 with only its idle bit, and with only its CRC error bit. */
  const R1_IDLE: nat := 1
  const R1_CRC_ERROR: nat := 8

  function Wrap64(x: int): Word64 {
    x % 0x1_0000_0000_0000_0000
  }

  // ----- Commands -----

  /** The five bits the source takes for the six-bit command index. */
  function Index(frame: nat): nat { frame / 0x100_0000_0000 % 32 }
  function Crc(frame: nat): nat { frame / 2 % 128 }

  /** Start bit, transmission bit and end bit. */
  predicate Framed(frame: nat) {
    frame / 0x8000_0000_0000 % 2 == 0 && frame / 0x4000_0000_0000 % 2 == 1 && frame % 2 == 1
  }

  /** spisd_cycle_handler: initialisation ends once enough clocks have gone by. */
  function Settle(c: Card): Card {
    if c.status.Initialising? && c.cycles - c.lastReset > RESET_CYCLES then c.(status := Ready) else c
  }

  predicate AcceptsReset(c: Card, frame: nat) {
    Crc(frame) == 0x4a || !c.status.Uninitialised?
  }

  function GoIdle(c: Card, frame: nat): Card {
    if AcceptsReset(c, frame) then
      c.(status := Initialising, lastReset := c.cycles, shiftOut := R1_IDLE, outLen := 8)
    else c.(status := Uninitialised, shiftOut := R1_CRC_ERROR, outLen := 8)
  }

  function SendOpCond(c: Card): Card {
    c.(shiftOut := if c.status.Ready? then 0 else R1_IDLE, outLen := 8)
  }

  function Handle(c: Card, frame: nat): Card {
    var s := Settle(c);
    if Index(frame) == 0 then GoIdle(s, frame)
    else if Index(frame) == 1 then SendOpCond(s)
    else s
  }

  // ----- Inputs -----

  /** The bit on the card's output line. Before the first response the register is empty,
      and the bit is zero wherever it is looked for. */
  function OutBit(c: Card): bool {
    c.outLen > 0 && Bit(c.shiftOut, c.outLen - 1)
  }

  function ShiftedCard(c: Card, bit: bool): Card {
    c.(cycles := c.cycles + 1,
       shiftIn := Wrap64(2 * c.shiftIn + (if bit then 1 else 0)),
       shiftOut := Wrap64(2 * c.shiftOut),
       bitCount := c.bitCount + 1)
  }

  /** spisd_spi_clock while selected; nothing for a frame whose fixed bits are wrong. */
  function Clock(c: Card, bit: bool): Option<Card> {
    var s := ShiftedCard(c, bit);
    if s.bitCount != 48 then Some(s)
    else if !Framed(s.shiftIn) then None
    else Some(Handle(s, s.shiftIn).(bitCount := 0))
  }

  datatype Input = Chip(on: bool) | Tick(selected: bool, bit: bool)

  function Apply(c: Card, i: Input): Option<Card> {
    match i
    case Chip(on) => Some(if on then c.(bitCount := 0) else c)
    case Tick(selected, bit) => if selected then Clock(c, bit) else Some(c.(cycles := c.cycles + 1))
  }

  function ApplyAll(c: Card, ins: seq<Input>): Option<Card> {
    if ins == [] then Some(c)
    else
      var d := ApplyAll(c, ins[..|ins| - 1]);
      if d.None? then None else Apply(d.value, ins[|ins| - 1])
  }

  // ----- How the card gets ready -----

  /** Input number i completes a GO_IDLE_STATE that the card accepts. */
  ghost predicate ResetAt(c: Card, ins: seq<Input>, i: nat)
    requires i < |ins|
  {
    var before := ApplyAll(c, ins[..i]);
    && before.Some? && ins[i].Tick? && ins[i].selected
    && ApplyAll(c, ins[..i + 1]).Some?
    && before.value.bitCount == 47
    && var s := ShiftedCard(before.value, ins[i].bit);
       Index(s.shiftIn) == 0 && AcceptsReset(Settle(s), s.shiftIn)
       && ApplyAll(c, ins[..i + 1]).value.lastReset == s.cycles
  }

  function Ticks(ins: seq<Input>): nat {
    if ins == [] then 0 else Ticks(ins[..|ins| - 1]) + (if ins[|ins| - 1].Tick? then 1 else 0)
  }

  lemma {:induction false} CyclesCount(c: Card, ins: seq<Input>)
    requires ApplyAll(c, ins).Some?
    ensures ApplyAll(c, ins).value.cycles == c.cycles + Ticks(ins)
  {
    if ins != [] { CyclesCount(c, ins[..|ins| - 1]); }
  }

  /** The clock at which the card last accepted a reset. */
  ghost predicate Since(c: Card, ins: seq<Input>, i: nat)
    requires ApplyAll(c, ins).Some?
  {
    i < |ins| && ResetAt(c, ins, i) && ApplyAll(c, ins).value.lastReset == c.cycles + Ticks(ins[..i + 1])
  }

  lemma SincePersists(c: Card, ins: seq<Input>, i: nat)
    requires |ins| > 0 && ApplyAll(c, ins).Some? && i < |ins| - 1
    requires Since(c, ins[..|ins| - 1], i)
    requires ApplyAll(c, ins).value.lastReset == ApplyAll(c, ins[..|ins| - 1]).value.lastReset
    ensures Since(c, ins, i)
  {
    hide Apply;
    assert ins[..|ins| - 1][..i] == ins[..i] && ins[..|ins| - 1][..i + 1] == ins[..i + 1];
  }

  /** Anything beyond power-up goes back to an accepted reset. */
  lemma {:induction false} LastReset(ins: seq<Input>) returns (i: nat)
    requires ApplyAll(POWER_UP, ins).Some?
    ensures var c := ApplyAll(POWER_UP, ins).value;
            && (c.status in {Initialising, Ready} ==> Since(POWER_UP, ins, i))
            && (c.status.Ready? ==> c.cycles - c.lastReset > RESET_CYCLES)
            && !c.status.Invalid?
  {
    hide Index, Crc, Framed, ResetAt;
    i := 0;
    if ins != [] {
      var before := ins[..|ins| - 1];
      i := LastReset(before);
      var b, c := ApplyAll(POWER_UP, before).value, ApplyAll(POWER_UP, ins).value;
      if c.lastReset != b.lastReset || (b.status.Uninitialised? && !c.status.Uninitialised?) {
        i := |ins| - 1;
        JustReset(ins);
      } else if c.status in {Initialising, Ready} {
        SincePersists(POWER_UP, ins, i);
      }
    }
  }

  lemma JustReset(ins: seq<Input>)
    requires ins != [] && ApplyAll(POWER_UP, ins).Some?
    requires var b, c := ApplyAll(POWER_UP, ins[..|ins| - 1]).value, ApplyAll(POWER_UP, ins).value;
             c.lastReset != b.lastReset || (b.status.Uninitialised? && !c.status.Uninitialised?)
    ensures Since(POWER_UP, ins, |ins| - 1)
    ensures ApplyAll(POWER_UP, ins).value.status.Initialising?
  {
    hide Index, Crc, Framed, Apply, Clock, AcceptsReset;
    var n := |ins| - 1;
    assert ins[..n + 1] == ins;
    CyclesCount(POWER_UP, ins[..n]);
    ResetInput(ApplyAll(POWER_UP, ins[..n]).value, ins[n], ApplyAll(POWER_UP, ins).value);
  }

  /** Only an accepted reset moves the reset time or takes the card out of its first state. */
  lemma ResetInput(b: Card, i: Input, c: Card)
    requires Apply(b, i) == Some(c)
    requires c.lastReset != b.lastReset || (b.status.Uninitialised? && !c.status.Uninitialised?)
    ensures i.Tick? && i.selected && b.bitCount == 47 && c.status.Initialising? && c.lastReset == b.cycles + 1
    ensures var s := ShiftedCard(b, i.bit);
            Index(s.shiftIn) == 0 && AcceptsReset(Settle(s), s.shiftIn)
  {
    hide Index, Crc, Framed;
  }

  /** READY is reachable only after an accepted GO_IDLE_STATE and more than 50 later clocks. */
  lemma ReadyNeedsReset(ins: seq<Input>) returns (i: nat)
    requires ApplyAll(POWER_UP, ins).Some? && ApplyAll(POWER_UP, ins).value.status.Ready?
    ensures i < |ins| && ResetAt(POWER_UP, ins, i) && Ticks(ins) - Ticks(ins[..i + 1]) > RESET_CYCLES
  {
    hide ApplyAll, ResetAt, Ticks;
    i := LastReset(ins);
    CyclesCount(POWER_UP, ins);
  }

  // ----- One command and its answer -----

  /** Bits to a number, first bit highest. */
  function Num(bits: seq<bool>): nat {
    if bits == [] then 0 else 2 * Num(bits[..|bits| - 1]) + (if bits[|bits| - 1] then 1 else 0)
  }

  function Clocks(c: Card, bits: seq<bool>): Option<Card> {
    if bits == [] then Some(c)
    else
      var d := Clocks(c, bits[..|bits| - 1]);
      if d.None? then None else Clock(d.value, bits[|bits| - 1])
  }

  /** Fewer than 48 bits are only collected. */
  lemma {:induction false} Collecting(c: Card, bits: seq<bool>)
    requires c.bitCount == 0 && |bits| < 48
    ensures Clocks(c, bits).Some?
    ensures var d := Clocks(c, bits).value;
            && d.bitCount == |bits| && d.cycles == c.cycles + |bits| && d.status == c.status
            && d.lastReset == c.lastReset && d.shiftIn % Pow2(|bits|) == Num(bits)
  {
    hide Handle, Framed;
    if bits != [] {
      var before := bits[..|bits| - 1];
      Collecting(c, before);
      LowBitsDouble(Clocks(c, before).value.shiftIn, bits[|bits| - 1], |before|);
    } else {
      assert Pow2(0) == 1;
    }
  }

  lemma LowBitsDouble(s: Word64, b: bool, n: nat)
    requires n < 64
    ensures Wrap64(2 * s + (if b then 1 else 0)) % Pow2(n + 1) == 2 * (s % Pow2(n)) + (if b then 1 else 0)
  {
    var x := 2 * s + (if b then 1 else 0);
    Pow2Of64();
    Pow2Split(n + 1, 64);
    ModOfMod(x, Pow2(64 - (n + 1)), Pow2(n + 1));
    ModHalf(x, Pow2(n));
    assert x % 2 == (if b then 1 else 0) && x / 2 == s;
  }

  lemma Pow2Of48()
    ensures Pow2(48) == 0x1_0000_0000_0000
  {
    Pow2Of32();
    assert Pow2(8) == 0x100;
    assert Pow2(16) == 0x1_0000;
    Pow2Split(32, 48);
  }

  lemma Pow2Of64()
    ensures Pow2(64) == 0x1_0000_0000_0000_0000
  {
    Pow2Of32();
    Pow2Split(32, 64);
  }

  /** What the card answers to a frame: R1 as its status implies. */
  function Answer(c: Card, frame: nat): nat {
    var s := Settle(c);
    if Index(frame) == 0 then (if AcceptsReset(s, frame) then R1_IDLE else R1_CRC_ERROR)
    else if s.status.Ready? then 0
    else R1_IDLE
  }

  /** A well-formed 48-bit command whose index reads as 0 or 1 in five bits. */
  predicate Command(frame: nat) {
    frame < 0x1_0000_0000_0000 && Framed(frame) && Index(frame) < 2
  }

  lemma FrameFields(s: Word64, frame: nat)
    requires s % 0x1_0000_0000_0000 == frame
    ensures Framed(s) == Framed(frame) && Index(s) == Index(frame) && Crc(s) == Crc(frame)
  {
    var q := s / 0x1_0000_0000_0000;
    FieldsOf(q, frame);
    IndexOf(q, frame);
    AddMultiple(frame / 0x8000_0000_0000, q, 2);
    AddMultiple(frame / 0x4000_0000_0000, q * 2, 2);
    AddMultiple(frame / 0x100_0000_0000, q * 8, 32);
    AddMultiple(frame / 2, q * 0x100_0000_0000, 128);
  }

  lemma AddMultiple(x: int, k: int, p: nat)
    requires p > 0
    ensures (k * p + x) % p == x % p
  {
    ModShift(x, k, p);
  }

  lemma FieldsOf(q: nat, frame: nat)
    ensures var s := q * 0x1_0000_0000_0000 + frame;
            && s / 0x8000_0000_0000 == q * 2 + frame / 0x8000_0000_0000
            && s / 0x4000_0000_0000 == q * 4 + frame / 0x4000_0000_0000
            && s % 2 == frame % 2
  {
  }

  lemma IndexOf(q: nat, frame: nat)
    ensures var s := q * 0x1_0000_0000_0000 + frame;
            && s / 0x100_0000_0000 == q * 256 + frame / 0x100_0000_0000
            && s / 2 == q * 0x8000_0000_0000 + frame / 2
  {
  }

  /** The handlers look at the frame's fields and at the card's status and clocks. */
  lemma HandleAnswers(s: Card, c: Card, frame: nat)
    requires s.status == c.status && s.cycles == c.cycles && s.lastReset == c.lastReset
    requires Index(s.shiftIn) == Index(frame) < 2 && Crc(s.shiftIn) == Crc(frame)
    ensures var d := Handle(s, s.shiftIn);
            && d.outLen == 8 && d.shiftOut == Answer(c, frame) && d.status == Handle(c, frame).status
            && d.lastReset == Handle(c, frame).lastReset
  {
    hide Index, Crc;
  }

  /** After a whole command the card's output register holds the answer. */
  lemma Answers(c: Card, bits: seq<bool>)
    requires c.bitCount == 0 && |bits| == 48 && Command(Num(bits))
    ensures Clocks(c, bits).Some?
    ensures var d := Clocks(c, bits).value;
            && d.bitCount == 0 && d.outLen == 8
            && d.shiftOut == Answer(c.(cycles := c.cycles + 48), Num(bits))
            && d.status == Handle(c.(cycles := c.cycles + 48), Num(bits)).status
            && d.lastReset == Handle(c.(cycles := c.cycles + 48), Num(bits)).lastReset
  {
    hide Framed, Crc, Index, Handle, Answer, Num, Pow2, Wrap64;
    var before := bits[..47];
    Collecting(c, before);
    var b := Clocks(c, before).value;
    LowBitsDouble(b.shiftIn, bits[47], 47);
    var s := ShiftedCard(b, bits[47]);
    Pow2Of48();
    NumLast(bits);
    FrameFields(s.shiftIn, Num(bits));
    HandleAnswers(s, c.(cycles := c.cycles + 48), Num(bits));
  }

  lemma NumLast(bits: seq<bool>)
    requires bits != []
    ensures Num(bits) == 2 * Num(bits[..|bits| - 1]) + (if bits[|bits| - 1] then 1 else 0)
  {
  }

  /** Eight more clocks bring the answer out, highest bit first. */
  lemma {:induction false} ShiftsOut(c: Card, bits: seq<bool>)
    requires c.bitCount == 0 && c.outLen == 8 && c.shiftOut < 0x100 && |bits| <= 8
    ensures Clocks(c, bits).Some?
    ensures var d := Clocks(c, bits).value;
            && d.bitCount == |bits| && d.outLen == 8 && d.shiftOut == c.shiftOut * Pow2(|bits|)
            && (|bits| < 8 ==> OutBit(d) == Bit(c.shiftOut, 7 - |bits|))
  {
    hide Handle, Framed, Pow2, Bit, Wrap64;
    if bits != [] {
      var before := bits[..|bits| - 1];
      ShiftsOut(c, before);
      SmallProduct(c.shiftOut, |before|);
    } else {
      TimesOne(c.shiftOut);
    }
    if |bits| < 8 { BitOfShifted(c.shiftOut, |bits|, 7); }
  }

  lemma TimesOne(w: nat)
    ensures w * Pow2(0) == w
  {
  }

  lemma SmallProduct(w: nat, n: nat)
    requires w < 0x100 && n < 8
    ensures w * Pow2(n) < 0x1_0000_0000_0000_0000
    ensures Wrap64(2 * (w * Pow2(n))) == w * Pow2(n + 1)
  {
    Pow2Monotone(n, 8);
    assert Pow2(8) == 256 && Pow2(n + 1) == 2 * Pow2(n);
    var p := Pow2(n);
    hide Pow2;
    MulAtMost(w, 0x100, p);
    var product := w * p;
    assert w * (2 * p) == 2 * product;
    assert 0 <= 2 * product < 0x1_0000_0000_0000_0000;
  }

  lemma {:induction false} BitOfShifted(w: nat, n: nat, k: nat)
    requires n <= k
    ensures Bit(w * Pow2(n), k) == Bit(w, k - n)
  {
    if n > 0 {
      assert w * Pow2(n) == 2 * (w * Pow2(n - 1));
      BitOfShifted(w, n - 1, k - 1);
    }
  }

  // ----- What a history comes to -----

  /** The 48 bits that the last input of a history completes, with whatever came before them. */
  function LastFrame(ins: seq<Input>): Option<nat> {
    if ins == [] then None
    else
      var b, i := ApplyAll(POWER_UP, ins[..|ins| - 1]), ins[|ins| - 1];
      if b.Some? && i.Tick? && i.selected && b.value.bitCount == 47 then
        Some(b.value.shiftIn * 2 % 0x1_0000_0000_0000_0000 + (if i.bit then 1 else 0))
      else None
  }

  /** The clock of the last accepted reset: a frame of index 0, with the CRC of a reset unless one
      was accepted before. */
  function Accepted(ins: seq<Input>): Option<nat> {
    if ins == [] then None
    else
      var before, f := Accepted(ins[..|ins| - 1]), LastFrame(ins);
      if f.Some? && f.value / 0x100_0000_0000 % 32 == 0 && (f.value / 2 % 128 == 0x4a || before.Some?) then Some(Ticks(ins))
      else before
  }

  /** A reset was accepted, and more than 50 clocks have gone by since the last one. */
  predicate LongReset(reset: Option<nat>, now: nat) {
    reset.Some? && now - reset.value > 50
  }

  /** The card's status, read off the history. */
  lemma {:induction false} StatusIs(ins: seq<Input>)
    requires ApplyAll(POWER_UP, ins).Some?
    ensures var c := ApplyAll(POWER_UP, ins).value;
            && c.cycles == Ticks(ins) && !c.status.Invalid?
            && (c.status.Uninitialised? <==> Accepted(ins).None?)
            && (Accepted(ins).Some? ==> c.lastReset == Accepted(ins).value)
            && (c.status.Ready? ==> LongReset(Accepted(ins), Ticks(ins)))
    ensures LastFrame(ins).Some? ==>
              var c, f := ApplyAll(POWER_UP, ins).value, LastFrame(ins).value;
              c.status.Ready? <==> f / 0x100_0000_0000 % 32 != 0 && LongReset(Accepted(ins), Ticks(ins))
  {
    if ins != [] {
      StatusIs(ins[..|ins| - 1]);
      LastInput(ins);
      hide Index, Crc, Framed;
    }
  }

  lemma LastInput(ins: seq<Input>)
    requires ins != [] && ApplyAll(POWER_UP, ins).Some?
    ensures var b, i := ApplyAll(POWER_UP, ins[..|ins| - 1]), ins[|ins| - 1];
            && b.Some? && Apply(b.value, i) == ApplyAll(POWER_UP, ins)
            && (LastFrame(ins).Some? ==> LastFrame(ins).value == ShiftedCard(b.value, i.bit).shiftIn)
  {
    hide Apply;
    var b := ApplyAll(POWER_UP, ins[..|ins| - 1]);
    ShiftedIn(b.value.shiftIn, ins[|ins| - 1].Tick? && ins[|ins| - 1].bit);
  }

  lemma ShiftedIn(w: Word64, bit: bool)
    ensures Wrap64(2 * w + (if bit then 1 else 0)) == w * 2 % 0x1_0000_0000_0000_0000 + (if bit then 1 else 0)
  {
  }

  /** What a completed frame is answered: 1 for an accepted reset and 8, the CRC error, for any
      other; asked for its operating condition the card answers 0 once long reset, and 1 before. */
  lemma FrameAnswered(ins: seq<Input>)
    requires ApplyAll(POWER_UP, ins).Some? && LastFrame(ins).Some?
    ensures var c, f, reset := ApplyAll(POWER_UP, ins).value, LastFrame(ins).value, Accepted(ins[..|ins| - 1]);
            && (f / 0x100_0000_0000 % 32 < 2 ==> c.outLen == 8)
            && (f / 0x100_0000_0000 % 32 == 0 ==> c.shiftOut == if f / 2 % 128 == 0x4a || reset.Some? then 1 else 8)
            && (f / 0x100_0000_0000 % 32 == 1 ==> c.shiftOut == if LongReset(reset, Ticks(ins)) then 0 else 1)
  {
    StatusIs(ins[..|ins| - 1]);
    LastInput(ins);
    hide ApplyAll, Accepted, Framed;
  }

  /** The same for a frame yet to be sent, 48 clocks from now. */
  lemma AnswerIs(ins: seq<Input>, frame: nat)
    requires ApplyAll(POWER_UP, ins).Some? && Command(frame)
    ensures var c := ApplyAll(POWER_UP, ins).value;
            Answer(c.(cycles := c.cycles + 48), frame)
            == if frame / 0x100_0000_0000 % 32 == 0 then
                 (if frame / 2 % 128 == 0x4a || Accepted(ins).Some? then 1 else 8)
               else if LongReset(Accepted(ins), Ticks(ins) + 48) then 0 else 1
  {
    StatusIs(ins);
    hide ApplyAll, Accepted, Framed;
  }

  /** The fixed bits of a frame, and when a wrong one stops the simulation. */
  lemma FatalExactly(c: Card, bit: bool)
    ensures var f := ShiftedCard(c, bit).shiftIn;
            Clock(c, bit).None? <==> c.bitCount == 47 && (Bit(f, 47) || !Bit(f, 46) || !Bit(f, 0))
  {
    var f := ShiftedCard(c, bit).shiftIn;
    BitValue(f, 47);
    BitValue(f, 46);
    BitValue(f, 0);
    Pow2Of48();
    assert Pow2(48) == 2 * Pow2(47) && Pow2(47) == 2 * Pow2(46) && Pow2(0) == 1;
    hide Pow2, Bit, Handle, Wrap64;
  }

  // ----- The sixth bit of the index -----

  /** The whole command index. */
  function SixBits(frame: nat): nat { frame / 0x100_0000_0000 % 64 }

  /** What the card would do if it looked at the whole index. */
  function HandleSix(c: Card, frame: nat): Card {
    var s := Settle(c);
    if SixBits(frame) == 0 then GoIdle(s, frame)
    else if SixBits(frame) == 1 then SendOpCond(s)
    else s
  }

  function ClockSix(c: Card, bit: bool): Option<Card> {
    var s := ShiftedCard(c, bit);
    if s.bitCount != 48 then Some(s)
    else if !Framed(s.shiftIn) then None
    else Some(HandleSix(s, s.shiftIn).(bitCount := 0))
  }

  /** Five bits of the index are the whole index exactly below 32. */
  lemma IndexExact(frame: nat)
    ensures Index(frame) == SixBits(frame) % 32
    ensures Index(frame) == SixBits(frame) <==> SixBits(frame) < 32
  {
    var n := frame / 0x100_0000_0000;
    assert Index(frame) == n % 32;
    hide Index;
    ModOfMod(n, 2, 32);
  }

  /** A reset changes nothing. */
  predicate ResetIdle(s: Card, frame: nat) {
    s.outLen == 8
    && if AcceptsReset(s, frame) then s.status.Initialising? && s.lastReset == s.cycles && s.shiftOut == R1_IDLE
       else s.shiftOut == R1_CRC_ERROR
  }

  /** Nor does asking for the operating condition. */
  predicate OpCondIdle(s: Card) {
    s.outLen == 8 && s.shiftOut == if s.status.Ready? then 0 else R1_IDLE
  }

  /** For every frame and every card: the card does what the whole index asks for unless that
      is 32, taken for a reset that shows, or 33, taken for an operating condition that shows. */
  lemma HandleExact(c: Card, frame: nat)
    ensures Handle(c, frame) == HandleSix(c, frame)
       <==> (SixBits(frame) == 32 ==> ResetIdle(Settle(c), frame)) && (SixBits(frame) == 33 ==> OpCondIdle(Settle(c)))
  {
    IndexExact(frame);
    assert 0 <= SixBits(frame) < 64;
    hide Index, SixBits;
    var s := Settle(c);
    assert GoIdle(s, frame) == s <==> ResetIdle(s, frame);
    assert SendOpCond(s) == s <==> OpCondIdle(s);
  }

  /** The output register has been shifted once for every bit of the frame so far. */
  predicate Emptied(c: Card) {
    c.bitCount < 48 && c.shiftOut % Pow2(c.bitCount) == 0
  }

  lemma EmptiedMore(w: Word64, n: nat)
    requires n < 64 && w % Pow2(n) == 0
    ensures Wrap64(2 * w) % Pow2(n + 1) == 0
  {
    LowBitsDouble(w, false, n);
  }

  lemma {:induction false} AlwaysEmptied(ins: seq<Input>)
    requires ApplyAll(POWER_UP, ins).Some?
    ensures Emptied(ApplyAll(POWER_UP, ins).value)
  {
    assert Pow2(0) == 1;
    if ins != [] {
      AlwaysEmptied(ins[..|ins| - 1]);
      var c := ApplyAll(POWER_UP, ins[..|ins| - 1]).value;
      EmptiedMore(c.shiftOut, c.bitCount);
      hide Pow2, Handle, Framed, Wrap64;
    }
  }

  /** Over every history from power-up: one more clock leaves the card as the whole index would,
      unless it ends a frame with index 32, or one with index 33 for which the card is not both
      ready and long silent. Command 32 always shows. */
  lemma ClockExact(ins: seq<Input>, bit: bool)
    requires ApplyAll(POWER_UP, ins).Some?
    ensures var c := ApplyAll(POWER_UP, ins).value;
            var s := ShiftedCard(c, bit);
            Clock(c, bit) != ClockSix(c, bit)
            <==> (&& c.bitCount == 47 && Framed(s.shiftIn)
                  && (SixBits(s.shiftIn) == 32
                      || (SixBits(s.shiftIn) == 33 && !(Settle(s).status.Ready? && s.outLen == 8 && s.shiftOut == 0))))
  {
    hide SixBits, Index, Framed, Handle, HandleSix, Settle, Wrap64, Pow2;
    var c := ApplyAll(POWER_UP, ins).value;
    var s := ShiftedCard(c, bit);
    AlwaysEmptied(ins);
    EmptiedMore(c.shiftOut, c.bitCount);
    HandleExact(s, s.shiftIn);
    if c.bitCount == 47 {
      Pow2Of48();
      HandleCount(s, s.shiftIn);
      SettleKeeps(s);
    }
  }

  lemma HandleCount(s: Card, frame: nat)
    ensures Handle(s, frame).bitCount == HandleSix(s, frame).bitCount == s.bitCount
  {
    hide Index, SixBits;
  }

  lemma SettleKeeps(s: Card)
    ensures Settle(s).shiftOut == s.shiftOut && Settle(s).outLen == s.outLen
  {
  }

  /** A whole frame of index 32 resets the card, whatever it was doing: at power-up if it has the
      reset's CRC, afterwards always. */
  lemma ThirtyTwoResets(c: Card, bits: seq<bool>)
    requires c.bitCount == 0 && |bits| == 48 && Framed(Num(bits)) && SixBits(Num(bits)) == 32
    requires Crc(Num(bits)) == 0x4a || !c.status.Uninitialised?
    ensures Clocks(c, bits).Some?
    ensures var d := Clocks(c, bits).value;
            d.status.Initialising? && d.lastReset == c.cycles + 48 && d.shiftOut == R1_IDLE && d.outLen == 8
  {
    hide Num, Framed, Crc, Index, SixBits;
    IndexExact(Num(bits));
    NumBelow(bits);
    Pow2Of48();
    Answers(c, bits);
  }

  lemma {:induction false} NumBelow(bits: seq<bool>)
    ensures Num(bits) < Pow2(|bits|)
  {
    if bits != [] { NumBelow(bits[..|bits| - 1]); }
  }

  /** Such a frame: index 32, no argument, the CRC of a reset. */
  lemma ThirtyTwoFrame()
    ensures Framed(0x6000_0000_0095) && SixBits(0x6000_0000_0095) == 32 && Crc(0x6000_0000_0095) == 0x4a
  {
  }

  // ----- struct spisd_state -----

  class CardState {
    var status: Status
    var shiftIn: Word64
    var shiftOut: Word64
    var outLen: nat
    var bitCount: nat
    var cycles: nat
    var lastReset: nat

    function Now(): Card
      reads this
    {
      Card(status, shiftIn, shiftOut, outLen, bitCount, cycles, lastReset)
    }

    /** spisd_spi_init */
    constructor ()
      ensures Now() == POWER_UP
    {
      status, shiftIn, shiftOut, outLen := Uninitialised, 0, 0, 0;
      bitCount, cycles, lastReset := 0, 0, 0;
    }

    /** spisd_spi_select */
    method Select(on: bool)
      modifies this
      ensures Apply(old(Now()), Chip(on)) == Some(Now())
    {
      if on { bitCount := 0; }
    }

    method GoIdleHandler(crc: nat)
      requires crc == Crc(shiftIn)
      modifies this
      ensures Now() == GoIdle(old(Now()), shiftIn) && shiftIn == old(shiftIn)
    {
      if crc == 0x4a || status != Uninitialised {
        status := Initialising;
        lastReset := cycles;
        shiftOut := R1_IDLE;
      } else {
        status := Uninitialised;
        shiftOut := R1_CRC_ERROR;
      }
      outLen := 8;
    }

    method SendOpHandler()
      modifies this
      ensures Now() == SendOpCond(old(Now()))
    {
      var ready := match status case Ready => true case _ => false;
      shiftOut := if ready then 0 else R1_IDLE;
      outLen := 8;
    }

    method CycleHandler()
      modifies this
      ensures Now() == Settle(old(Now()))
    {
      var ready := cycles - lastReset > RESET_CYCLES;
      if status == Initialising && ready { status := Ready; }
    }

    /** spisd_spi_clock; `out` is driven only while selected. */
    method SpiClock(selected: bool, bit: bool) returns (out: Option<bool>, fatal: bool)
      modifies this
      ensures fatal == Apply(old(Now()), Tick(selected, bit)).None?
      ensures !fatal ==> Apply(old(Now()), Tick(selected, bit)) == Some(Now())
      ensures out == if selected then Some(OutBit(old(Now()))) else None
    {
      hide Framed, Index, Crc, Bit;
      cycles := cycles + 1;
      if !selected { return None, false; }
      shiftIn := Wrap64(2 * shiftIn + (if bit then 1 else 0));
      bitCount := bitCount + 1;
      out := Some(outLen > 0 && Bit(shiftOut, outLen - 1));
      shiftOut := Wrap64(2 * shiftOut);
      fatal := false;
      if bitCount == 48 {
        if !Framed(shiftIn) { return out, true; }
        var index, crc := Index(shiftIn), Crc(shiftIn);
        CycleHandler();
        if index == 0 { GoIdleHandler(crc); } else if index == 1 { SendOpHandler(); }
        bitCount := 0;
      }
    }
  }
}
