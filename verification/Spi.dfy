/** The SPI master (src/devices/spi.c): its shift register, its transfer protocol and its
    bus interface. */
module Spi {
  import opened Words

  // ----- Words as bits, least significant first -----

  function BitsN(w: nat, n: nat): (b: seq<bool>)
    ensures |b| == n
  {
    if n == 0 then [] else [w % 2 == 1] + BitsN(w / 2, n - 1)
  }

  function Bits(w: Word): seq<bool> {
    BitsN(w, 32)
  }

  /** Replace one bit. */
  function PutBit(w: nat, k: nat, b: bool): nat {
    if k == 0 then w - w % 2 + (if b then 1 else 0) else w % 2 + 2 * PutBit(w / 2, k - 1, b)
  }

  lemma {:induction false} BitsPut(w: nat, k: nat, b: bool, n: nat)
    requires k < n
    ensures BitsN(PutBit(w, k, b), n) == BitsN(w, n)[k := b]
  {
    if k == 0 {
      assert PutBit(w, 0, b) / 2 == w / 2;
    } else {
      BitsPut(w / 2, k - 1, b, n - 1);
      var p := PutBit(w / 2, k - 1, b);
      assert (w % 2 + 2 * p) / 2 == p && (w % 2 + 2 * p) % 2 == w % 2;
    }
  }

  lemma {:induction false} BitsAt(w: nat, n: nat, k: nat)
    requires k < n
    ensures BitsN(w, n)[k] == Bit(w, k)
  {
    if k > 0 { BitsAt(w / 2, n - 1, k - 1); }
  }

  /** `w & ~(1 << k) | b << k` */
  lemma {:induction false} MaskedPut(w: nat, k: nat, b: bool, n: nat)
    requires k < n && w < Pow2(n)
    ensures Pow2(k) < Pow2(n)
    ensures BitOp(OrOp, BitOp(AndOp, w, Pow2(n) - 1 - Pow2(k), n), if b then Pow2(k) else 0, n) == PutBit(w, k, b)
  {
    if k == 0 {
      Pow2Monotone(1, n);
      MaskedPut0(w, b, n);
    } else {
      MaskedPut(w / 2, k - 1, b, n - 1);
      var m := Pow2(n - 1) - 1 - Pow2(k - 1);
      MaskedPutUp(w, k, b, n, m, if b then Pow2(k - 1) else 0);
      assert Pow2(k) == 2 * Pow2(k - 1) && Pow2(n) - 1 - Pow2(k) == 2 * m + 1;
    }
  }

  lemma MaskedPutUp(w: nat, k: nat, b: bool, n: nat, m: nat, p: nat)
    requires 0 < k && 0 < n
    requires BitOp(OrOp, BitOp(AndOp, w / 2, m, n - 1), p, n - 1) == PutBit(w / 2, k - 1, b)
    ensures BitOp(OrOp, BitOp(AndOp, w, 2 * m + 1, n), 2 * p, n) == PutBit(w, k, b)
  {
    AndOddMask(w, m + 1, n);
    OrUp(w % 2, BitOp(AndOp, w / 2, m, n - 1), p, n);
  }

  lemma MaskedPut0(w: nat, b: bool, n: nat)
    requires 0 < n && w < Pow2(n)
    ensures Pow2(n) >= 2
    ensures BitOp(OrOp, BitOp(AndOp, w, Pow2(n) - 2, n), if b then 1 else 0, n) == PutBit(w, 0, b)
  {
    Pow2Monotone(1, n);
    AndAllOnes(w / 2, n - 1);
    MaskedDown(w, n);
    hide Pow2;
    OrZero(w / 2, n - 1);
    OrFirst(w / 2, b, n);
  }

  lemma OrUp(bit: nat, x: nat, y: nat, n: nat)
    requires bit < 2 && n > 0
    ensures BitOp(OrOp, bit + 2 * x, 2 * y, n) == bit + 2 * BitOp(OrOp, x, y, n - 1)
  {
    assert (bit + 2 * x) / 2 == x && (bit + 2 * x) % 2 == bit;
  }

  lemma OrFirst(x: nat, b: bool, n: nat)
    requires n > 0 && BitOp(OrOp, x, 0, n - 1) == x
    ensures BitOp(OrOp, 2 * x, if b then 1 else 0, n) == 2 * x + (if b then 1 else 0)
  {
  }

  lemma MaskedDown(w: nat, n: nat)
    requires 0 < n && BitOp(AndOp, w / 2, Pow2(n - 1) - 1, n - 1) == w / 2
    ensures Pow2(n) >= 2 && BitOp(AndOp, w, Pow2(n) - 2, n) == 2 * (w / 2)
  {
    var m := Pow2(n) - 2;
    assert m % 2 == 0 && m / 2 == Pow2(n - 1) - 1;
    hide Pow2;
  }

  function InsertBit(w: Word, k: nat, b: bool): Word
    requires k < 32
  {
    Or(And(w, Not(OneBit(k))), if b then OneBit(k) else 0)
  }

  lemma InsertBitPuts(w: Word, k: nat, b: bool)
    requires k < 32
    ensures Bits(InsertBit(w, k, b)) == Bits(w)[k := b]
  {
    hide BitOp, BitsN, PutBit;
    Pow2Of32();
    MaskedPut(w, k, b, 32);
    BitsPut(w, k, b, 32);
  }

  // ----- Shifting a word by one -----

  /** `w << 1 & ~1 | carry` */
  function ShiftUp(w: Word, carry: bool): Word {
    Or(Shl(w, 1), if carry then 1 else 0)
  }

  /** `w >> 1 & ~(1 << 31) | carry << 31` */
  function ShiftDown(w: Word, carry: bool): Word {
    Or(Shr(w, 1), if carry then 0x8000_0000 else 0)
  }

  lemma ShiftUpValue(w: Word, carry: bool)
    ensures ShiftUp(w, carry) == w * 2 % 0x1_0000_0000 + (if carry then 1 else 0)
  {
    var s := w * 2 % 0x1_0000_0000;
    assert Shl(w, 1) == s;
    Pow2Of32();
    assert Pow2(1) == 2;
    hide Pow2, Shl, BitOp;
    assert s / 2 * 2 == s;
    OrDisjoint(s / 2, if carry then 1 else 0, 1, 32);
  }

  lemma ShiftDownValue(w: Word, carry: bool)
    ensures ShiftDown(w, carry) == w / 2 + (if carry then 0x8000_0000 else 0)
  {
    assert Shr(w, 1) == w / 2;
    Pow2Of32();
    assert Pow2(31) == 0x8000_0000;
    var c := if carry then 1 else 0;
    OrDisjoint(c, w / 2, 31, 32);
    OrCommutes(c * 0x8000_0000, w / 2, 32);
  }

  lemma {:induction false} BitsDouble(w: nat, c: nat, n: nat)
    requires c < 2
    ensures BitsN(2 * w + c, n + 1) == [c == 1] + BitsN(w, n)
  {
  }

  lemma {:induction false} BitsMod(w: nat, n: nat)
    ensures BitsN(w % Pow2(n), n) == BitsN(w, n)
  {
    if n > 0 {
      ModHalf(w, Pow2(n - 1));
      BitsMod(w / 2, n - 1);
      var m := w / 2 % Pow2(n - 1);
      assert (w % 2 + 2 * m) / 2 == m && (w % 2 + 2 * m) % 2 == w % 2;
    }
  }

  lemma {:induction false} BitsPrefix(w: nat, n: nat)
    ensures BitsN(w, n + 1)[..n] == BitsN(w, n)
  {
    if n > 0 {
      BitsPrefix(w / 2, n - 1);
      assert BitsN(w, n + 1)[..n] == [w % 2 == 1] + BitsN(w / 2, n)[..n - 1];
    }
  }

  /** The low bit enters, the high bit is lost. */
  lemma ShiftUpBits(w: Word, carry: bool)
    ensures Bits(ShiftUp(w, carry)) == [carry] + Bits(w)[..31]
  {
    hide ShiftUp;
    ShiftUpValue(w, carry);
    var c := if carry then 1 else 0;
    assert w * 2 % 0x1_0000_0000 == 2 * (w % 0x8000_0000);
    Pow2Of32();
    assert Pow2(31) == 0x8000_0000;
    hide Pow2, BitsN;
    BitsDouble(w % 0x8000_0000, c, 31);
    BitsMod(w, 31);
    BitsPrefix(w, 31);
  }

  /** The high bit enters, the low bit is lost. */
  lemma ShiftDownBits(w: Word, carry: bool)
    ensures Bits(ShiftDown(w, carry)) == Bits(w)[1..] + [carry]
  {
    ShiftDownValue(w, carry);
    Pow2Of32();
    assert Pow2(31) == 0x8000_0000;
    TopBit(w / 2, carry, 31);
  }

  lemma {:induction false} TopBit(w: nat, carry: bool, n: nat)
    requires w < Pow2(n)
    ensures BitsN(w + (if carry then Pow2(n) else 0), n + 1) == BitsN(w, n) + [carry]
  {
    if n > 0 {
      TopBit(w / 2, carry, n - 1);
      var t := if carry then Pow2(n) else 0;
      assert (w + t) % 2 == w % 2 && (w + t) / 2 == w / 2 + (if carry then Pow2(n - 1) else 0);
    }
  }

  // ----- The 128-bit shift register -----

  type Regs7 = r: seq<Word> | |r| == 7 witness [0, 0, 0, 0, 0, 0, 0]

  /** Rx0 to Rx3 as 128 bits. */
  function Data(raw: Regs7): (d: seq<bool>)
    ensures |d| == 128
  {
    Bits(raw[0]) + Bits(raw[1]) + Bits(raw[2]) + Bits(raw[3])
  }

  /** One shift as it is meant: the pulled bit enters at the bottom, or at the top of the
      character when the low bit goes first. */
  function Shifted(d: seq<bool>, lsb: bool, width: nat, pull: bool): (r: seq<bool>)
    requires |d| == 128 && 0 < width <= 128
    ensures |r| == 128
  {
    if lsb then (d[1..] + [false])[width - 1 := pull] else [pull] + d[..127]
  }

  function Pushed(d: seq<bool>, lsb: bool, width: nat): bool
    requires |d| == 128 && 0 < width <= 128
  {
    if lsb then d[0] else d[width - 1]
  }

  lemma DataAt(raw: Regs7, k: nat)
    requires k < 128
    ensures Data(raw)[k] == Bit(raw[k / 32], k % 32)
  {
    hide BitsN;
    var w := raw[k / 32];
    BitsAt(w, 32, k % 32);
    if k < 32 {
    } else if k < 64 {
    } else if k < 96 {
    } else {
    }
  }

  lemma DataInsert(raw: Regs7, k: nat, b: bool)
    requires k < 128
    ensures Data(raw[k / 32 := InsertBit(raw[k / 32], k % 32, b)]) == Data(raw)[k := b]
  {
    hide BitsN, InsertBit;
    InsertBitPuts(raw[k / 32], k % 32, b);
    if k < 32 {
    } else if k < 64 {
    } else if k < 96 {
    } else {
    }
  }

  function Lsb(raw: Regs7): bool { raw[4] / 0x800 % 2 == 1 }
  function CharLen(raw: Regs7): nat { raw[4] % 0x80 }
  function Go(raw: Regs7): bool { raw[4] / 0x100 % 2 == 1 }
  function AutoSelect(raw: Regs7): bool { raw[4] / 0x2000 % 2 == 1 }
  function Divider(raw: Regs7): nat { raw[5] % 0x1_0000 }
  function Select(raw: Regs7): nat { raw[6] % 0x100 }

  /** Which bits of the registers they are. */
  lemma FieldBits(raw: Regs7)
    ensures (Go(raw) <==> Bit(raw[4], 8)) && (Lsb(raw) <==> Bit(raw[4], 11)) && (AutoSelect(raw) <==> Bit(raw[4], 13))
    ensures CharLen(raw) == raw[4] % 128 && Divider(raw) == raw[5] % 65536 && Select(raw) == raw[6] % 256
  {
    BitValue(raw[4], 8);
    BitValue(raw[4], 11);
    BitValue(raw[4], 13);
    assert Pow2(8) == 256 && Pow2(11) == 2048 && Pow2(13) == 8192;
    hide Pow2, Bit;
  }

  /** The four words after one whole shift, before the pulled bit goes in. */
  function WordsDown(raw: Regs7): Regs7 {
    raw[0 := ShiftDown(raw[0], raw[1] % 2 == 1)][1 := ShiftDown(raw[1], raw[2] % 2 == 1)]
       [2 := ShiftDown(raw[2], raw[3] % 2 == 1)][3 := ShiftDown(raw[3], false)]
  }

  function WordsUp(raw: Regs7): Regs7 {
    raw[3 := ShiftUp(raw[3], raw[2] >= 0x8000_0000)][2 := ShiftUp(raw[2], raw[1] >= 0x8000_0000)]
       [1 := ShiftUp(raw[1], raw[0] >= 0x8000_0000)][0 := ShiftUp(raw[0], false)]
  }

  lemma DownShifts(raw: Regs7)
    ensures Data(WordsDown(raw)) == Data(raw)[1..] + [false]
  {
    hide ShiftDown;
    ShiftDownBits(raw[0], raw[1] % 2 == 1);
    ShiftDownBits(raw[1], raw[2] % 2 == 1);
    ShiftDownBits(raw[2], raw[3] % 2 == 1);
    ShiftDownBits(raw[3], false);
    LowBit(raw[1]);
    LowBit(raw[2]);
    LowBit(raw[3]);
    JoinDown(Bits(raw[0]), Bits(raw[1]), Bits(raw[2]), Bits(raw[3]));
  }

  lemma JoinDown(a: seq<bool>, b: seq<bool>, c: seq<bool>, d: seq<bool>)
    requires |a| == |b| == |c| == |d| == 32
    ensures (a[1..] + [b[0]]) + (b[1..] + [c[0]]) + (c[1..] + [d[0]]) + (d[1..] + [false])
         == (a + b + c + d)[1..] + [false]
  {
  }

  lemma LowBit(w: Word)
    ensures Bits(w)[0] == (w % 2 == 1)
  {
  }

  lemma HighBit(w: Word)
    ensures Bits(w)[31] == (w >= 0x8000_0000)
  {
    Pow2Of32();
    assert Pow2(31) == 0x8000_0000;
    var top := w >= 0x8000_0000;
    TopBit(if top then w - 0x8000_0000 else w, top, 31);
  }

  lemma UpShifts(raw: Regs7)
    ensures Data(WordsUp(raw)) == [false] + Data(raw)[..127]
  {
    hide ShiftUp, BitsN;
    ShiftUpBits(raw[0], false);
    ShiftUpBits(raw[1], raw[0] >= 0x8000_0000);
    ShiftUpBits(raw[2], raw[1] >= 0x8000_0000);
    ShiftUpBits(raw[3], raw[2] >= 0x8000_0000);
    HighBit(raw[0]);
    HighBit(raw[1]);
    HighBit(raw[2]);
    JoinUp(Bits(raw[0]), Bits(raw[1]), Bits(raw[2]), Bits(raw[3]));
  }

  lemma JoinUp(a: seq<bool>, b: seq<bool>, c: seq<bool>, d: seq<bool>)
    requires |a| == |b| == |c| == |d| == 32
    ensures ([false] + a[..31]) + ([a[31]] + b[..31]) + ([b[31]] + c[..31]) + ([c[31]] + d[..31])
         == [false] + (a + b + c + d)[..127]
  {
  }

  /** do_one_shift on the register file. */
  function OneShift(raw: Regs7, pull: bool): Regs7
    requires 0 < CharLen(raw)
  {
    if Lsb(raw) then
      var top := CharLen(raw) - 1;
      var r := WordsDown(raw);
      r[top / 32 := InsertBit(r[top / 32], top % 32, pull)]
    else
      var r := WordsUp(raw);
      r[0 := InsertBit(r[0], 0, pull)]
  }

  lemma OneShiftIs(raw: Regs7, pull: bool)
    requires 0 < CharLen(raw)
    ensures Data(OneShift(raw, pull)) == Shifted(Data(raw), Lsb(raw), CharLen(raw), pull)
    ensures OneShift(raw, pull)[4..] == raw[4..]
  {
    hide InsertBit, ShiftUp, ShiftDown, Data;
    if Lsb(raw) {
      DownShifts(raw);
      DataInsert(WordsDown(raw), CharLen(raw) - 1, pull);
    } else {
      UpShifts(raw);
      DataInsert(WordsUp(raw), 0, pull);
      assert ([false] + Data(raw)[..127])[0 := pull] == [pull] + Data(raw)[..127];
    }
  }
}
