/** The variable-length integers of section 1.6 of the SQLite Database File Format, as written
    and read by src/common/base/Serialization.cpp: up to eight bytes of seven bits each, most
    significant first, the high bit set on all but the last; a ninth byte carries eight bits. */
module Varint {

  type Byte = bv8
  type Bytes = seq<bv8>

  const SLOT_2_0: bv32 := 0x001fc07f
  const SLOT_4_2_0: bv32 := 0xf01fc07f

  // ---------------------------------------------------------------- the plain format

  predicate More(b: Byte) {
    b & 0x80 != 0
  }

  function Join7(acc: bv64, b: Byte): bv64 {
    (acc << 7) | ((b & 0x7f) as bv64)
  }

  function Last(acc: bv64, b: Byte): bv64 {
    (acc << 8) | (b as bv64)
  }

  function Digit(acc: bv64, base: bv64, digit: bv64): bv64 {
    acc * base + digit
  }

  lemma Digit7(acc: bv64, b: Byte)
    ensures (acc << 7) | ((b & 0x7f) as bv64) == Digit(acc, 0x80, (b % 0x80) as bv64)
  {
  }

  lemma Digit8(acc: bv64, b: Byte)
    ensures (acc << 8) | (b as bv64) == Digit(acc, 0x100, b as bv64)
  {
  }

  lemma MoreIs(b: Byte)
    ensures More(b) <==> b >= 0x80
  {
  }

  /** As numbers: a byte is not the last exactly when it is at least 128, each of the first eight gives one
      more digit in base 128, and the ninth one in base 256. */
  lemma Digits(acc: bv64, b: Byte)
    ensures More(b) <==> b >= 0x80
    ensures Join7(acc, b) == Digit(acc, 0x80, (b % 0x80) as bv64)
    ensures Last(acc, b) == Digit(acc, 0x100, b as bv64)
  {
    hide Digit, More;
    MoreIs(b);
    Digit7(acc, b);
    Digit8(acc, b);
  }

  /** The plain reader, after `i` bytes that stand for `acc`: the length and the value, or length
      0 if the bytes end before the number does. */
  function Fold(data: Bytes, offset: nat, i: nat, acc: bv64): (r: (nat, bv64))
    requires i <= 8
    decreases 9 - i
  {
    if offset + i >= |data| then (0, 0)
    else
      var b := data[offset + i];
      if i == 8 then (9, Last(acc, b))
      else if More(b) then Fold(data, offset, i + 1, Join7(acc, b))
      else (i + 1, Join7(acc, b))
  }

  function Decode(data: Bytes, offset: nat): (nat, bv64) {
    Fold(data, offset, 0, 0)
  }

  // ---------------------------------------------------------------- the unrolled reader

  // The operations on the reader's 32-bit registers `a` and `b` and its 64-bit register `s`.

  function Reg(b: Byte): bv32 { b as bv32 }

  function Shl(x: bv32, n: bv32): bv32
    requires n < 32
  {
    x << n
  }

  function Shr(x: bv32, n: bv32): bv32
    requires n < 32
  {
    x >> n
  }

  function Or(x: bv32, y: bv32): bv32 { x | y }

  function And(x: bv32, mask: bv32): bv32 { x & mask }

  function Widen(x: bv32): bv64 { x as bv64 }

  function WideShl(x: bv64, n: bv64): bv64
    requires n < 64
  {
    x << n
  }

  function WideShr(x: bv64, n: bv64): bv64
    requires n < 64
  {
    x >> n
  }

  function WideOr(x: bv64, y: bv64): bv64 { x | y }

  predicate High(x: bv32) { x & 0x80 != 0 }

  function Join4(p0: Byte, p1: Byte, p2: Byte, p3: Byte): bv64 {
    Join7(Join7(Join7(Join7(0, p0), p1), p2), p3)
  }

  /** The even and odd registers once four bytes are in. */
  function Even4(p0: Byte, p2: Byte): bv32 {
    And(Or(Shl(Reg(p0), 14), Reg(p2)), SLOT_2_0)
  }

  function Odd4(p1: Byte, p3: Byte): bv32 {
    And(Or(Shl(Reg(p1), 14), Reg(p3)), SLOT_2_0)
  }

  /** A register's test bit is the high bit of the byte that came in last. */
  lemma HighBit(x: bv32, b: Byte)
    ensures High(Or(Shl(x, 14), Reg(b))) <==> More(b)
    ensures High(Reg(b)) <==> More(b)
  {
  }

  function Pair(x: Byte, y: Byte): bv32 {
    (((x & 0x7f) as bv32) << 14) | ((y & 0x7f) as bv32)
  }

  lemma MaskedPair(x: Byte, y: Byte)
    ensures And(Or(Shl(Reg(x), 14), Reg(y)), SLOT_2_0) == Pair(x, y)
  {
  }

  lemma PairsNarrow(p0: Byte, p1: Byte, p2: Byte, p3: Byte)
    ensures Widen(Or(Shl(Pair(p0, p2), 7), Pair(p1, p3))) == Join7(Join7(Join7(Join7(0, p0), p1), p2), p3)
  {
  }

  lemma PairsWide(p0: Byte, p1: Byte, p2: Byte, p3: Byte)
    ensures WideOr(WideShl(Widen(Pair(p0, p2)), 7), Widen(Pair(p1, p3))) == Join7(Join7(Join7(Join7(0, p0), p1), p2), p3)
  {
  }

  lemma Join1(p0: Byte)
    requires !More(p0)
    ensures Widen(Reg(p0)) == Join7(0, p0)
  {
  }

  lemma Join2(p0: Byte, p1: Byte)
    requires !More(p1)
    ensures Widen(Or(Shl(And(Reg(p0), 0x7f), 7), Reg(p1))) == Join7(Join7(0, p0), p1)
  {
  }

  lemma Join3(p0: Byte, p1: Byte, p2: Byte)
    requires !More(p2)
    ensures Widen(Or(Even4(p0, p2), Shl(And(Reg(p1), 0x7f), 7))) == Join7(Join7(Join7(0, p0), p1), p2)
  {
    Registers4(p0, p1, p2, p2);
    hide *;
    MaskedPair(p0, p2);
    PairThree(p0, p1, p2);
  }

  lemma PairThree(p0: Byte, p1: Byte, p2: Byte)
    ensures Widen(Or(Pair(p0, p2), Shl(And(Reg(p1), 0x7f), 7))) == Join7(Join7(Join7(0, p0), p1), p2)
  {
  }

  lemma Join4Narrow(p0: Byte, p1: Byte, p2: Byte, p3: Byte)
    ensures Widen(Or(Shl(Even4(p0, p2), 7), Odd4(p1, p3))) == Join4(p0, p1, p2, p3)
  {
    Registers4(p0, p1, p2, p3);
    hide *;
    MaskedPair(p0, p2);
    MaskedPair(p1, p3);
    PairsNarrow(p0, p1, p2, p3);
  }

  lemma Join4Wide(p0: Byte, p1: Byte, p2: Byte, p3: Byte)
    ensures WideOr(WideShl(Widen(Even4(p0, p2)), 7), Widen(Odd4(p1, p3))) == Join4(p0, p1, p2, p3)
  {
    Registers4(p0, p1, p2, p3);
    hide *;
    MaskedPair(p0, p2);
    MaskedPair(p1, p3);
    PairsWide(p0, p1, p2, p3);
  }

  lemma Join5(p0: Byte, p1: Byte, p2: Byte, p3: Byte, p4: Byte)
    requires !More(p4)
    ensures var a := Or(Or(Shl(Even4(p0, p2), 14), Reg(p4)), Shl(Odd4(p1, p3), 7));
            WideOr(WideShl(WideShr(Widen(Even4(p0, p2)), 18), 32), Widen(a)) == Join7(Join4(p0, p1, p2, p3), p4)
  {
  }

  lemma Join6(p0: Byte, p1: Byte, p2: Byte, p3: Byte, p4: Byte, p5: Byte)
    requires !More(p5)
    ensures var a := Shl(And(Or(Shl(Even4(p0, p2), 14), Reg(p4)), SLOT_2_0), 7);
            var b := Or(Shl(Odd4(p1, p3), 14), Reg(p5));
            WideOr(WideShl(WideShr(Join4(p0, p1, p2, p3), 18), 32), Widen(Or(a, b)))
              == Join7(Join7(Join4(p0, p1, p2, p3), p4), p5)
  {
  }

  lemma Join7th(p0: Byte, p1: Byte, p2: Byte, p3: Byte, p4: Byte, p5: Byte, p6: Byte)
    requires !More(p6)
    ensures var a := And(Or(Shl(Or(Shl(Even4(p0, p2), 14), Reg(p4)), 14), Reg(p6)), SLOT_4_2_0);
            var b := Shl(And(Or(Shl(Odd4(p1, p3), 14), Reg(p5)), SLOT_2_0), 7);
            WideOr(WideShl(WideShr(Join4(p0, p1, p2, p3), 11), 32), Widen(Or(a, b)))
              == Join7(Join7(Join7(Join4(p0, p1, p2, p3), p4), p5), p6)
  {
  }

  lemma Join8(p0: Byte, p1: Byte, p2: Byte, p3: Byte, p4: Byte, p5: Byte, p6: Byte, p7: Byte)
    requires !More(p7)
    ensures var a := Shl(And(Or(Shl(Or(Shl(Even4(p0, p2), 14), Reg(p4)), 14), Reg(p6)), SLOT_2_0), 7);
            var b := And(Or(Shl(Or(Shl(Odd4(p1, p3), 14), Reg(p5)), 14), Reg(p7)), SLOT_4_2_0);
            WideOr(WideShl(WideShr(Join4(p0, p1, p2, p3), 4), 32), Widen(Or(a, b)))
              == Join7(Join7(Join7(Join7(Join4(p0, p1, p2, p3), p4), p5), p6), p7)
  {
  }

  /** The low word of a nine-byte number; the masks have dropped the first four bytes. */
  function LowWord9(p4: Byte, p5: Byte, p6: Byte, p7: Byte, p8: Byte): bv32 {
    (((p4 & 0x7f) as bv32) << 29) | (((p5 & 0x7f) as bv32) << 22) | (((p6 & 0x7f) as bv32) << 15)
    | (((p7 & 0x7f) as bv32) << 8) | (p8 as bv32)
  }

  lemma Join9Low(e: bv32, o: bv32, p4: Byte, p5: Byte, p6: Byte, p7: Byte, p8: Byte)
    ensures var a := Or(Shl(And(Or(Shl(Or(Shl(e, 14), Reg(p4)), 14), Reg(p6)), SLOT_2_0), 15), Reg(p8));
            var b := Shl(And(Or(Shl(Or(Shl(o, 14), Reg(p5)), 14), Reg(p7)), SLOT_2_0), 8);
            Or(a, b) == LowWord9(p4, p5, p6, p7, p8)
  {
  }

  lemma Join9(head: bv64, p4: Byte, p5: Byte, p6: Byte, p7: Byte, p8: Byte)
    ensures var s := WideOr(WideShl(head, 4), Widen(Shr(And(Reg(p4), 0x7f), 3)));
            WideOr(WideShl(s, 32), Widen(LowWord9(p4, p5, p6, p7, p8)))
              == Last(Join7(Join7(Join7(Join7(head, p4), p5), p6), p7), p8)
  {
  }

  lemma FoldStep(data: Bytes, offset: nat, i: nat, acc: bv64)
    requires i < 8
    ensures offset + i >= |data| ==> Fold(data, offset, i, acc) == (0, 0)
    ensures offset + i < |data| && !More(data[offset + i]) ==>
              Fold(data, offset, i, acc) == (i + 1, Join7(acc, data[offset + i]))
    ensures offset + i < |data| && More(data[offset + i]) ==>
              Fold(data, offset, i, acc) == Fold(data, offset, i + 1, Join7(acc, data[offset + i]))
  {
  }

  lemma FoldLast(data: Bytes, offset: nat, acc: bv64)
    ensures offset + 8 >= |data| ==> Fold(data, offset, 8, acc) == (0, 0)
    ensures offset + 8 < |data| ==> Fold(data, offset, 8, acc) == (9, Last(acc, data[offset + 8]))
  {
  }

  lemma Registers4(p0: Byte, p1: Byte, p2: Byte, p3: Byte)
    ensures Even4(p0, p2) == And(Or(Shl(Reg(p0), 14), Reg(p2)), SLOT_2_0)
    ensures Odd4(p1, p3) == And(Or(Shl(Reg(p1), 14), Reg(p3)), SLOT_2_0)
    ensures Join4(p0, p1, p2, p3) == Join7(Join7(Join7(Join7(0, p0), p1), p2), p3)
  {
  }

  /** `getVarint`: the split 32-bit arithmetic, byte by byte, equals the plain reader on every
      byte string and offset. */
  method GetVarint(data: Bytes, offset: nat) returns (length: nat, value: bv64)
    ensures (length, value) == Decode(data, offset)
  {
    assert Decode(data, offset) == Fold(data, offset, 0, 0);
    hide *;
    FoldStep(data, offset, 0, 0);
    if offset + 1 > |data| { return 0, 0; }
    var p0 := data[offset];
    var a := Reg(p0);
    HighBit(a, p0);
    if !High(a) {
      Join1(p0);
      return 1, Widen(a);
    }

    ghost var acc := Join7(0, p0);
    FoldStep(data, offset, 1, acc);
    if offset + 2 > |data| { return 0, 0; }
    var p1 := data[offset + 1];
    var b := Reg(p1);
    HighBit(b, p1);
    if !High(b) {
      a := And(a, 0x7f);
      a := Shl(a, 7);
      a := Or(a, b);
      Join2(p0, p1);
      return 2, Widen(a);
    }

    acc := Join7(acc, p1);
    FoldStep(data, offset, 2, acc);
    if offset + 3 > |data| { return 0, 0; }
    var p2 := data[offset + 2];
    HighBit(a, p2);
    Registers4(p0, p1, p2, p2);
    a := Shl(a, 14);
    a := Or(a, Reg(p2));
    if !High(a) {
      a := And(a, SLOT_2_0);
      b := And(b, 0x7f);
      b := Shl(b, 7);
      a := Or(a, b);
      Join3(p0, p1, p2);
      return 3, Widen(a);
    }

    a := And(a, SLOT_2_0);
    acc := Join7(acc, p2);
    FoldStep(data, offset, 3, acc);
    if offset + 4 > |data| { return 0, 0; }
    var p3 := data[offset + 3];
    HighBit(b, p3);
    Registers4(p0, p1, p2, p3);
    b := Shl(b, 14);
    b := Or(b, Reg(p3));
    if !High(b) {
      b := And(b, SLOT_2_0);
      a := Shl(a, 7);
      a := Or(a, b);
      Join4Narrow(p0, p1, p2, p3);
      return 4, Widen(a);
    }

    b := And(b, SLOT_2_0);
    var s := Widen(a);
    length, value := GetVarintTail(data, offset, p0, p1, p2, p3, a, b, s);
  }

  /** `getVarint` from the fifth byte on. */
  method GetVarintTail(data: Bytes, offset: nat, ghost p0: Byte, ghost p1: Byte, ghost p2: Byte, ghost p3: Byte,
                       a4: bv32, b4: bv32, s4: bv64)
    returns (length: nat, value: bv64)
    requires offset + 4 <= |data| && a4 == Even4(p0, p2) && b4 == Odd4(p1, p3) && s4 == Widen(a4)
    ensures (length, value) == Fold(data, offset, 4, Join4(p0, p1, p2, p3))
  {
    hide *;
    var a, b, s := a4, b4, s4;
    ghost var acc := Join4(p0, p1, p2, p3);
    FoldStep(data, offset, 4, acc);
    if offset + 5 > |data| { return 0, 0; }
    var p4 := data[offset + 4];
    HighBit(a, p4);
    a := Shl(a, 14);
    a := Or(a, Reg(p4));
    if !High(a) {
      b := Shl(b, 7);
      a := Or(a, b);
      s := WideShr(s, 18);
      Join5(p0, p1, p2, p3, p4);
      return 5, WideOr(WideShl(s, 32), Widen(a));
    }

    s := WideShl(s, 7);
    s := WideOr(s, Widen(b));
    Join4Wide(p0, p1, p2, p3);
    acc := Join7(acc, p4);
    FoldStep(data, offset, 5, acc);
    if offset + 6 > |data| { return 0, 0; }
    var p5 := data[offset + 5];
    HighBit(b, p5);
    b := Shl(b, 14);
    b := Or(b, Reg(p5));
    if !High(b) {
      a := And(a, SLOT_2_0);
      a := Shl(a, 7);
      a := Or(a, b);
      s := WideShr(s, 18);
      Join6(p0, p1, p2, p3, p4, p5);
      return 6, WideOr(WideShl(s, 32), Widen(a));
    }

    length, value := GetVarintEnd(data, offset, p0, p1, p2, p3, p4, p5, a, b, s);
  }

  /** `getVarint` from the seventh byte on. */
  method GetVarintEnd(data: Bytes, offset: nat, ghost p0: Byte, ghost p1: Byte, ghost p2: Byte, ghost p3: Byte,
                      ghost p4: Byte, ghost p5: Byte, a6: bv32, b6: bv32, s6: bv64)
    returns (length: nat, value: bv64)
    requires offset + 6 <= |data| && data[offset + 4] == p4 && s6 == Join4(p0, p1, p2, p3)
    requires a6 == Or(Shl(Even4(p0, p2), 14), Reg(p4)) && b6 == Or(Shl(Odd4(p1, p3), 14), Reg(p5))
    ensures (length, value) == Fold(data, offset, 6, Join7(Join7(Join4(p0, p1, p2, p3), p4), p5))
  {
    hide *;
    var a, b, s := a6, b6, s6;
    ghost var acc := Join7(Join7(Join4(p0, p1, p2, p3), p4), p5);
    FoldStep(data, offset, 6, acc);
    if offset + 7 > |data| { return 0, 0; }
    var p6 := data[offset + 6];
    HighBit(a, p6);
    a := Shl(a, 14);
    a := Or(a, Reg(p6));
    if !High(a) {
      a := And(a, SLOT_4_2_0);
      b := And(b, SLOT_2_0);
      b := Shl(b, 7);
      a := Or(a, b);
      s := WideShr(s, 11);
      Join7th(p0, p1, p2, p3, p4, p5, p6);
      return 7, WideOr(WideShl(s, 32), Widen(a));
    }

    a := And(a, SLOT_2_0);
    acc := Join7(acc, p6);
    FoldStep(data, offset, 7, acc);
    if offset + 8 > |data| { return 0, 0; }
    var p7 := data[offset + 7];
    HighBit(b, p7);
    b := Shl(b, 14);
    b := Or(b, Reg(p7));
    if !High(b) {
      b := And(b, SLOT_4_2_0);
      a := Shl(a, 7);
      a := Or(a, b);
      s := WideShr(s, 4);
      Join8(p0, p1, p2, p3, p4, p5, p6, p7);
      return 8, WideOr(WideShl(s, 32), Widen(a));
    }

    acc := Join7(acc, p7);
    FoldLast(data, offset, acc);
    if offset + 9 > |data| { return 0, 0; }
    var p8 := data[offset + 8];
    a := Shl(a, 15);
    a := Or(a, Reg(p8));
    Join9Low(Even4(p0, p2), Odd4(p1, p3), p4, p5, p6, p7, p8);
    b := And(b, SLOT_2_0);
    b := Shl(b, 8);
    a := Or(a, b);
    s := WideShl(s, 4);
    b := Reg(data[offset + 4]);
    b := And(b, 0x7f);
    b := Shr(b, 3);
    s := WideOr(s, Widen(b));
    Join9(Join4(p0, p1, p2, p3), p4, p5, p6, p7, p8);
    return 9, WideOr(WideShl(s, 32), Widen(a));
  }

  // ---------------------------------------------------------------- the writer

  function Low7(v: bv64): Byte {
    (v & 0x7f) as bv8
  }

  function Cont(v: bv64): Byte {
    Low7(v) | 0x80
  }

  function Rest(v: bv64): bv64 {
    v >> 7
  }

  /** The lowest `n` groups of seven bits, most significant first, all marked to be continued. */
  function Conts(v: bv64, n: nat): (r: Bytes)
    ensures |r| == n
  {
    if n == 0 then [] else Conts(Rest(v), n - 1) + [Cont(v)]
  }

  /** The first number that `n` groups cannot hold. */
  function Bound(n: nat): bv64
    requires n <= 8
  {
    match n
    case 0 => 0x1
    case 1 => 0x80
    case 2 => 0x4000
    case 3 => 0x20_0000
    case 4 => 0x1000_0000
    case 5 => 0x8_0000_0000
    case 6 => 0x400_0000_0000
    case 7 => 0x2_0000_0000_0000
    case 8 => 0x100_0000_0000_0000
  }

  /** The number fits into `n` groups of seven bits. */
  predicate Fits(v: bv64, n: nat)
    requires n <= 8
  {
    v < Bound(n)
  }

  /** How many groups of seven bits a number needs. */
  function Groups(v: bv64): (n: nat)
    ensures n >= 1
    decreases v
  {
    if Fits(v, 1) then 1 else 1 + Groups(Rest(v))
  }

  /** Seven bits a group do not suffice for eight groups. */
  predicate Wide(v: bv64) {
    v & 0xff00_0000_0000_0000 != 0
  }

  function High56(v: bv64): bv64 {
    v >> 8
  }

  function Low8(v: bv64): Byte {
    (v & 0xff) as bv8
  }

  function Encode(v: bv64): Bytes {
    if Wide(v) then Conts(High56(v), 8) + [Low8(v)]
    else Conts(Rest(v), Groups(v) - 1) + [Low7(v)]
  }

  // Facts about single numbers, proved on their bits.

  lemma RestFits(v: bv64, n: nat)
    requires 1 <= n <= 8
    ensures Fits(v, n) <==> Fits(Rest(v), n - 1)
  {
  }

  lemma FitsMore(v: bv64, m: nat, n: nat)
    requires m <= n <= 8 && Fits(v, m)
    ensures Fits(v, n)
  {
  }

  lemma FitsNone(v: bv64)
    ensures Fits(v, 0) <==> v == 0
  {
  }

  lemma WideFits(v: bv64)
    ensures Wide(v) <==> !Fits(v, 8)
  {
  }

  lemma Rejoin(v: bv64)
    ensures More(Cont(v)) && Join7(Rest(v), Cont(v)) == v
    ensures !More(Low7(v)) && Join7(Rest(v), Low7(v)) == v
  {
  }

  lemma RejoinLast(v: bv64)
    ensures Last(High56(v), Low8(v)) == v && Fits(High56(v), 8)
  {
  }

  lemma JoinFits(acc: bv64, b: Byte, i: nat)
    requires i < 8 && Fits(acc, i)
    ensures Fits(Join7(acc, b), i + 1)
  {
  }

  lemma GroupsStep(v: bv64)
    ensures Groups(v) == if Fits(v, 1) then 1 else 1 + Groups(Rest(v))
  {
  }

  lemma {:induction false} GroupsExact(v: bv64, n: nat)
    requires 1 <= n <= 8
    ensures Fits(v, n) <==> Groups(v) <= n
    decreases n
  {
    hide *;
    GroupsStep(v);
    if Fits(v, 1) {
      FitsMore(v, 1, n);
    } else if n > 1 {
      RestFits(v, n);
      GroupsExact(Rest(v), n - 1);
    }
  }

  // ---------------------------------------------------------------- round trip

  /** `bytes` stand in the data at `offset`. */
  predicate At(data: Bytes, offset: nat, bytes: Bytes) {
    offset + |bytes| <= |data| && data[offset..offset + |bytes|] == bytes
  }

  lemma AtParts(data: Bytes, offset: nat, x: Bytes, c: Byte)
    requires At(data, offset, x + [c])
    ensures At(data, offset, x) && offset + |x| < |data| && data[offset + |x|] == c
  {
    assert x == (x + [c])[..|x|] && c == (x + [c])[|x|];
  }

  lemma ContsStep(v: bv64, n: nat)
    ensures n > 0 ==> Conts(v, n) == Conts(Rest(v), n - 1) + [Cont(v)]
  {
  }

  /** Reading continued groups accumulates the number they came from. */
  lemma {:induction false} ReadConts(data: Bytes, offset: nat, v: bv64, n: nat)
    requires n <= 8 && Fits(v, n) && At(data, offset, Conts(v, n))
    ensures Fold(data, offset, 0, 0) == Fold(data, offset, n, v)
    decreases n
  {
    hide *;
    if n == 0 {
      FitsNone(v);
    } else {
      ContsStep(v, n);
      AtParts(data, offset, Conts(Rest(v), n - 1), Cont(v));
      RestFits(v, n);
      ReadConts(data, offset, Rest(v), n - 1);
      Rejoin(v);
      FoldStep(data, offset, n - 1, Rest(v));
    }
  }

  lemma RoundTripWide(data: Bytes, offset: nat, v: bv64)
    requires At(data, offset, Conts(High56(v), 8) + [Low8(v)])
    ensures Fold(data, offset, 0, 0) == (9, v)
  {
    hide *;
    AtParts(data, offset, Conts(High56(v), 8), Low8(v));
    RejoinLast(v);
    ReadConts(data, offset, High56(v), 8);
    FoldLast(data, offset, High56(v));
  }

  lemma RoundTripNarrow(data: Bytes, offset: nat, v: bv64)
    requires Fits(v, 8) && At(data, offset, Conts(Rest(v), Groups(v) - 1) + [Low7(v)])
    ensures Fold(data, offset, 0, 0) == (Groups(v), v) && Groups(v) <= 8
  {
    hide *;
    var n := Groups(v);
    GroupsExact(v, 8);
    GroupsExact(v, n);
    RestFits(v, n);
    AtParts(data, offset, Conts(Rest(v), n - 1), Low7(v));
    ReadConts(data, offset, Rest(v), n - 1);
    Rejoin(v);
    FoldStep(data, offset, n - 1, Rest(v));
  }

  lemma EncodeIs(v: bv64)
    ensures Wide(v) ==> Encode(v) == Conts(High56(v), 8) + [Low8(v)] && |Encode(v)| == 9
    ensures !Wide(v) ==> Encode(v) == Conts(Rest(v), Groups(v) - 1) + [Low7(v)] && |Encode(v)| == Groups(v)
  {
  }

  /** Round trip: wherever the encoding of a number stands, whatever comes before and after, the
      reader returns that number and the length of its encoding, at most nine bytes. */
  lemma RoundTrip(data: Bytes, offset: nat, v: bv64)
    requires At(data, offset, Encode(v))
    ensures Decode(data, offset) == (|Encode(v)|, v) && 1 <= |Encode(v)| <= 9
  {
    assert Decode(data, offset) == Fold(data, offset, 0, 0);
    hide *;
    EncodeIs(v);
    WideFits(v);
    if Wide(v) {
      RoundTripWide(data, offset, v);
    } else {
      RoundTripNarrow(data, offset, v);
    }
  }

  lemma {:induction false} FoldFits(data: Bytes, offset: nat, i: nat, acc: bv64)
    requires i <= 8 && Fits(acc, i)
    ensures var (n, v) := Fold(data, offset, i, acc); n <= 9 && (0 < n < 9 ==> Fits(v, n))
    decreases 9 - i
  {
    hide *;
    if i == 8 {
      FoldLast(data, offset, acc);
    } else {
      FoldStep(data, offset, i, acc);
      if offset + i < |data| {
        JoinFits(acc, data[offset + i], i);
        if More(data[offset + i]) { FoldFits(data, offset, i + 1, Join7(acc, data[offset + i])); }
      }
    }
  }

  /** The writer is optimal: no bytes that read as a number are shorter than its encoding. */
  lemma EncodingIsShortest(data: Bytes, offset: nat)
    requires Decode(data, offset).0 > 0
    ensures var (n, v) := Decode(data, offset); |Encode(v)| <= n
  {
    var (n, v) := Decode(data, offset);
    assert Fold(data, offset, 0, 0) == (n, v);
    hide *;
    FitsNone(0);
    FoldFits(data, offset, 0, 0);
    EncodeIs(v);
    WideFits(v);
    if n < 9 {
      FitsMore(v, n, 8);
      GroupsExact(v, n);
    } else {
      GroupsExact(v, 8);
    }
  }

  /** The reader reports length 0 exactly when the bytes end before the number does. */
  lemma TruncatedExactly(data: Bytes, offset: nat)
    ensures Decode(data, offset).0 == 0 <==> |data| - offset < 9 && forall k :: offset <= k < |data| ==> More(data[k])
  {
    if offset <= |data| {
      TruncatedFrom(data, offset, 0, 0);
    }
  }

  lemma {:induction false} TruncatedFrom(data: Bytes, offset: nat, i: nat, acc: bv64)
    requires i <= 8 && offset + i <= |data|
    ensures Fold(data, offset, i, acc).0 == 0 <==>
              |data| - offset < 9 && forall k :: offset + i <= k < |data| ==> More(data[k])
    decreases 9 - i
  {
    if offset + i < |data| && i < 8 && More(data[offset + i]) {
      TruncatedFrom(data, offset, i + 1, Join7(acc, data[offset + i]));
    }
  }

  // ---------------------------------------------------------------- the writer's loops

  lemma ShortForms(v: bv64)
    ensures v <= 0x7f ==> Encode(v) == [Low7(v)]
    ensures 0x7f < v <= 0x3fff ==> Encode(v) == [Cont(Rest(v)), Low7(v)]
  {
    if v <= 0x7f {
      assert !Wide(v) && Fits(v, 1);
    } else if v <= 0x3fff {
      ShortBits(v);
      assert Conts(Rest(v), 1) == Conts(Rest(Rest(v)), 0) + [Cont(Rest(v))];
    }
  }

  lemma ShortBits(v: bv64)
    requires 0x7f < v <= 0x3fff
    ensures !Wide(v) && Groups(v) == 2
  {
    assert !Fits(v, 1) && Fits(Rest(v), 1);
  }

  lemma RestOfLast(v: bv64)
    requires Rest(v) == 0
    ensures Fits(v, 1)
  {
  }

  lemma RestMore(v: bv64)
    requires Rest(v) != 0
    ensures !Fits(v, 1)
  {
  }

  lemma ClearMark(v: bv64)
    ensures Cont(v) & 0x7f == Low7(v)
  {
  }

  /** The groups of a buffer that was filled lowest first, highest first. */
  function HighestFirst(groups: Bytes): (r: Bytes)
    ensures |r| == |groups|
  {
    if groups == [] then [] else [groups[|groups| - 1]] + HighestFirst(groups[..|groups| - 1])
  }

  lemma OneMoreGroup(groups: Bytes, c: Byte)
    ensures HighestFirst(groups + [c]) == [c] + HighestFirst(groups)
  {
    assert (groups + [c])[..|groups|] == groups;
  }

  lemma {:induction false} GroupFromTheEnd(groups: Bytes, k: nat)
    requires k < |groups|
    ensures HighestFirst(groups)[k] == groups[|groups| - 1 - k]
  {
    if k > 0 {
      GroupFromTheEnd(groups[..|groups| - 1], k - 1);
    }
  }

  /** The nine-byte form, filled from its end. */
  method WriteWide(p: array<Byte>, pos: nat, value: bv64) returns (length: nat)
    requires pos + 9 <= p.Length
    modifies p
    ensures length == 9 && At(p[..], pos, Conts(High56(value), 8) + [Low8(value)])
    ensures p[..pos] == old(p[..pos])
  {
    p[pos + 8] := Low8(value);
    var v := High56(value);
    ghost var all := Conts(v, 8);
    assert all == Conts(v, 8) + p[pos + 8..pos + 8];
    for i := 8 downto 0
      invariant all == Conts(v, i) + p[pos + i..pos + 8]
      invariant p[pos + 8] == Low8(value) && p[..pos] == old(p[..pos])
    {
      ContsStep(v, i + 1);
      ghost var tail := p[pos + i + 1..pos + 8];
      p[pos + i] := Cont(v);
      assert p[pos + i..pos + 8] == [Cont(v)] + tail;
      v := Rest(v);
    }
    assert Conts(v, 0) == [];
    assert p[..][pos..pos + 9] == p[pos..pos + 8] + [p[pos + 8]];
    length := 9;
  }

  /** The groups of seven bits, lowest first. */
  method CollectGroups(value: bv64) returns (buf: Bytes)
    ensures |buf| == Groups(value) && HighestFirst(buf) == Conts(value, Groups(value))
  {
    hide *;
    var v := value;
    ghost var g := Groups(value);
    buf := [];
    GroupsStep(v);
    ContsStep(v, g);
    OneMoreGroup([], Cont(v));
    NoGroups();
    buf := buf + [Cont(v)];
    if Rest(v) == 0 { RestOfLast(v); } else { RestMore(v); }
    v := Rest(v);
    while v != 0
      invariant 1 <= |buf| <= g && g == |buf| + (if v == 0 then 0 else Groups(v))
      invariant Conts(value, g) == Conts(v, g - |buf|) + HighestFirst(buf)
      decreases g - |buf|
    {
      GroupsStep(v);
      ContsStep(v, g - |buf|);
      OneMoreGroup(buf, Cont(v));
      buf := buf + [Cont(v)];
      if Rest(v) == 0 { RestOfLast(v); } else { RestMore(v); }
      v := Rest(v);
    }
    ContsNone(v);
  }

  lemma NoGroups()
    ensures HighestFirst([]) == []
  {
  }

  lemma ContsNone(v: bv64)
    ensures Conts(v, 0) == []
  {
  }

  /** What the buffer reads highest first, once the lowest group is unmarked. */
  lemma Unmarked(value: bv64, buf: Bytes, k: nat)
    requires HighestFirst(buf) == Conts(value, Groups(value)) && k < |buf| && |buf| == Groups(value)
    ensures (Conts(Rest(value), Groups(value) - 1) + [Low7(value)])[k] == buf[0 := buf[0] & 0x7f][|buf| - 1 - k]
  {
    hide *;
    ContsStep(value, Groups(value));
    GroupFromTheEnd(buf, k);
    ClearMark(value);
  }

  /** The short form: the groups collected lowest first, the lowest unmarked, and copied out in
      reverse. */
  method WriteGroups(p: array<Byte>, pos: nat, value: bv64) returns (length: nat)
    requires pos + 9 <= p.Length && !Wide(value)
    modifies p
    ensures length == Groups(value) <= 8 && At(p[..], pos, Conts(Rest(value), Groups(value) - 1) + [Low7(value)])
    ensures p[..pos] == old(p[..pos])
  {
    hide *;
    WideFits(value);
    GroupsExact(value, 8);
    ghost var all := Conts(Rest(value), Groups(value) - 1) + [Low7(value)];
    var buf := CollectGroups(value);
    forall k | 0 <= k < |buf| ensures all[k] == buf[0 := buf[0] & 0x7f][|buf| - 1 - k] {
      Unmarked(value, buf, k);
    }
    buf := buf[0 := buf[0] & 0x7f];
    var n := |buf|;
    for i := 0 to n
      invariant forall k :: 0 <= k < i ==> p[pos + k] == all[k]
      invariant p[..pos] == old(p[..pos])
    {
      p[pos + i] := buf[n - 1 - i];
    }
    assert p[..][pos..pos + n] == all;
    AtSlice(p[..], pos, all);
    length := n;
  }

  lemma AtSlice(data: Bytes, offset: nat, bytes: Bytes)
    requires offset + |bytes| <= |data| && data[offset..offset + |bytes|] == bytes
    ensures At(data, offset, bytes)
  {
  }

  /** `putVarint` once there is room: the bytes land at `pos`, everything else stays. */
  method WriteVarint(p: array<Byte>, pos: nat, value: bv64) returns (length: nat)
    requires pos + 9 <= p.Length
    modifies p
    ensures length == |Encode(value)| && 1 <= length <= 9 && At(p[..], pos, Encode(value))
    ensures p[..pos] == old(p[..pos])
  {
    hide *;
    ShortForms(value);
    EncodeIs(value);
    if value <= 0x7f {
      p[pos] := Low7(value);
      assert p[..][pos..pos + 1] == Encode(value);
      AtSlice(p[..], pos, Encode(value));
      length := 1;
    } else if value <= 0x3fff {
      p[pos] := Cont(Rest(value));
      p[pos + 1] := Low7(value);
      assert p[..][pos..pos + 2] == Encode(value);
      AtSlice(p[..], pos, Encode(value));
      length := 2;
    } else if Wide(value) {
      length := WriteWide(p, pos, value);
    } else {
      length := WriteGroups(p, pos, value);
    }
  }
}
