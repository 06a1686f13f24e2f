/** The two CRC-8 routines of quantum/crc.c: the table-driven one for the polynomial 0x07 and the
    bit-by-bit one for 0x31, both starting from 0xFF. */
module Crc8 {
  const POLY_TABLE: bv8 := 0x07
  const POLY_BITS: bv8 := 0x31
  const START: bv8 := 0xFF

  // ---------------------------------------------------------------- division by a polynomial

  /** Subtraction of polynomials over two elements. */
  function Plus(a: bv8, b: bv8): bv8 {
    a ^ b
  }

  predicate TopBit(crc: bv8) {
    crc & 0x80 != 0
  }

  function Double(crc: bv8): bv8 {
    crc << 1
  }

  /** One turn of the inner loop: shift, and subtract the polynomial if a one falls out. */
  function Shift(crc: bv8, poly: bv8): bv8 {
    if TopBit(crc) then Plus(Double(crc), poly) else Double(crc)
  }

  /** A whole byte: eight turns. */
  function Step(crc: bv8, poly: bv8): bv8 {
    Shift(Shift(Shift(Shift(Shift(Shift(Shift(Shift(crc, poly), poly), poly), poly), poly), poly), poly), poly)
  }

  /** The register after the data, bit by bit. */
  function Crc(start: bv8, data: seq<bv8>, poly: bv8): bv8 {
    if data == [] then start else Step(Plus(Crc(start, data[..|data| - 1], poly), data[|data| - 1]), poly)
  }

  // ---------------------------------------------------------------- the table

  /** The sixteen lines of crc_table, by the low half of the index. */
  function Row0(l: bv8): bv8 {
    match l
    case 0 => 0x00 case 1 => 0x07 case 2 => 0x0E case 3 => 0x09
    case 4 => 0x1C case 5 => 0x1B case 6 => 0x12 case 7 => 0x15
    case 8 => 0x38 case 9 => 0x3F case 10 => 0x36 case 11 => 0x31
    case 12 => 0x24 case 13 => 0x23 case 14 => 0x2A case _ => 0x2D
  }

  function Row1(l: bv8): bv8 {
    match l
    case 0 => 0x70 case 1 => 0x77 case 2 => 0x7E case 3 => 0x79
    case 4 => 0x6C case 5 => 0x6B case 6 => 0x62 case 7 => 0x65
    case 8 => 0x48 case 9 => 0x4F case 10 => 0x46 case 11 => 0x41
    case 12 => 0x54 case 13 => 0x53 case 14 => 0x5A case _ => 0x5D
  }

  function Row2(l: bv8): bv8 {
    match l
    case 0 => 0xE0 case 1 => 0xE7 case 2 => 0xEE case 3 => 0xE9
    case 4 => 0xFC case 5 => 0xFB case 6 => 0xF2 case 7 => 0xF5
    case 8 => 0xD8 case 9 => 0xDF case 10 => 0xD6 case 11 => 0xD1
    case 12 => 0xC4 case 13 => 0xC3 case 14 => 0xCA case _ => 0xCD
  }

  function Row3(l: bv8): bv8 {
    match l
    case 0 => 0x90 case 1 => 0x97 case 2 => 0x9E case 3 => 0x99
    case 4 => 0x8C case 5 => 0x8B case 6 => 0x82 case 7 => 0x85
    case 8 => 0xA8 case 9 => 0xAF case 10 => 0xA6 case 11 => 0xA1
    case 12 => 0xB4 case 13 => 0xB3 case 14 => 0xBA case _ => 0xBD
  }

  function Row4(l: bv8): bv8 {
    match l
    case 0 => 0xC7 case 1 => 0xC0 case 2 => 0xC9 case 3 => 0xCE
    case 4 => 0xDB case 5 => 0xDC case 6 => 0xD5 case 7 => 0xD2
    case 8 => 0xFF case 9 => 0xF8 case 10 => 0xF1 case 11 => 0xF6
    case 12 => 0xE3 case 13 => 0xE4 case 14 => 0xED case _ => 0xEA
  }

  function Row5(l: bv8): bv8 {
    match l
    case 0 => 0xB7 case 1 => 0xB0 case 2 => 0xB9 case 3 => 0xBE
    case 4 => 0xAB case 5 => 0xAC case 6 => 0xA5 case 7 => 0xA2
    case 8 => 0x8F case 9 => 0x88 case 10 => 0x81 case 11 => 0x86
    case 12 => 0x93 case 13 => 0x94 case 14 => 0x9D case _ => 0x9A
  }

  function Row6(l: bv8): bv8 {
    match l
    case 0 => 0x27 case 1 => 0x20 case 2 => 0x29 case 3 => 0x2E
    case 4 => 0x3B case 5 => 0x3C case 6 => 0x35 case 7 => 0x32
    case 8 => 0x1F case 9 => 0x18 case 10 => 0x11 case 11 => 0x16
    case 12 => 0x03 case 13 => 0x04 case 14 => 0x0D case _ => 0x0A
  }

  function Row7(l: bv8): bv8 {
    match l
    case 0 => 0x57 case 1 => 0x50 case 2 => 0x59 case 3 => 0x5E
    case 4 => 0x4B case 5 => 0x4C case 6 => 0x45 case 7 => 0x42
    case 8 => 0x6F case 9 => 0x68 case 10 => 0x61 case 11 => 0x66
    case 12 => 0x73 case 13 => 0x74 case 14 => 0x7D case _ => 0x7A
  }

  function Row8(l: bv8): bv8 {
    match l
    case 0 => 0x89 case 1 => 0x8E case 2 => 0x87 case 3 => 0x80
    case 4 => 0x95 case 5 => 0x92 case 6 => 0x9B case 7 => 0x9C
    case 8 => 0xB1 case 9 => 0xB6 case 10 => 0xBF case 11 => 0xB8
    case 12 => 0xAD case 13 => 0xAA case 14 => 0xA3 case _ => 0xA4
  }

  function Row9(l: bv8): bv8 {
    match l
    case 0 => 0xF9 case 1 => 0xFE case 2 => 0xF7 case 3 => 0xF0
    case 4 => 0xE5 case 5 => 0xE2 case 6 => 0xEB case 7 => 0xEC
    case 8 => 0xC1 case 9 => 0xC6 case 10 => 0xCF case 11 => 0xC8
    case 12 => 0xDD case 13 => 0xDA case 14 => 0xD3 case _ => 0xD4
  }

  function RowA(l: bv8): bv8 {
    match l
    case 0 => 0x69 case 1 => 0x6E case 2 => 0x67 case 3 => 0x60
    case 4 => 0x75 case 5 => 0x72 case 6 => 0x7B case 7 => 0x7C
    case 8 => 0x51 case 9 => 0x56 case 10 => 0x5F case 11 => 0x58
    case 12 => 0x4D case 13 => 0x4A case 14 => 0x43 case _ => 0x44
  }

  function RowB(l: bv8): bv8 {
    match l
    case 0 => 0x19 case 1 => 0x1E case 2 => 0x17 case 3 => 0x10
    case 4 => 0x05 case 5 => 0x02 case 6 => 0x0B case 7 => 0x0C
    case 8 => 0x21 case 9 => 0x26 case 10 => 0x2F case 11 => 0x28
    case 12 => 0x3D case 13 => 0x3A case 14 => 0x33 case _ => 0x34
  }

  function RowC(l: bv8): bv8 {
    match l
    case 0 => 0x4E case 1 => 0x49 case 2 => 0x40 case 3 => 0x47
    case 4 => 0x52 case 5 => 0x55 case 6 => 0x5C case 7 => 0x5B
    case 8 => 0x76 case 9 => 0x71 case 10 => 0x78 case 11 => 0x7F
    case 12 => 0x6A case 13 => 0x6D case 14 => 0x64 case _ => 0x63
  }

  function RowD(l: bv8): bv8 {
    match l
    case 0 => 0x3E case 1 => 0x39 case 2 => 0x30 case 3 => 0x37
    case 4 => 0x22 case 5 => 0x25 case 6 => 0x2C case 7 => 0x2B
    case 8 => 0x06 case 9 => 0x01 case 10 => 0x08 case 11 => 0x0F
    case 12 => 0x1A case 13 => 0x1D case 14 => 0x14 case _ => 0x13
  }

  function RowE(l: bv8): bv8 {
    match l
    case 0 => 0xAE case 1 => 0xA9 case 2 => 0xA0 case 3 => 0xA7
    case 4 => 0xB2 case 5 => 0xB5 case 6 => 0xBC case 7 => 0xBB
    case 8 => 0x96 case 9 => 0x91 case 10 => 0x98 case 11 => 0x9F
    case 12 => 0x8A case 13 => 0x8D case 14 => 0x84 case _ => 0x83
  }

  function RowF(l: bv8): bv8 {
    match l
    case 0 => 0xDE case 1 => 0xD9 case 2 => 0xD0 case 3 => 0xD7
    case 4 => 0xC2 case 5 => 0xC5 case 6 => 0xCC case 7 => 0xCB
    case 8 => 0xE6 case 9 => 0xE1 case 10 => 0xE8 case 11 => 0xEF
    case 12 => 0xFA case 13 => 0xFD case 14 => 0xF4 case _ => 0xF3
  }

  /** crc_table[i] */
  function Table(i: bv8): bv8 {
    var l := i & 0xF;
    match i >> 4
    case 0 => Row0(l)
    case 1 => Row1(l)
    case 2 => Row2(l)
    case 3 => Row3(l)
    case 4 => Row4(l)
    case 5 => Row5(l)
    case 6 => Row6(l)
    case 7 => Row7(l)
    case 8 => Row8(l)
    case 9 => Row9(l)
    case 10 => RowA(l)
    case 11 => RowB(l)
    case 12 => RowC(l)
    case 13 => RowD(l)
    case 14 => RowE(l)
    case _ => RowF(l)
  }

  // ---------------------------------------------------------------- linearity

  /** Both polynomials divide without ambiguity: their constant term is one. */
  predicate Proper(poly: bv8) {
    poly == POLY_TABLE || poly == POLY_BITS
  }

  lemma PlusCommutes(a: bv8, b: bv8)
    ensures Plus(a, b) == Plus(b, a)
  {
  }

  lemma PlusAssociates(a: bv8, b: bv8, c: bv8)
    ensures Plus(Plus(a, b), c) == Plus(a, Plus(b, c))
  {
  }

  lemma PlusZero(a: bv8, b: bv8)
    ensures Plus(a, b) == 0 <==> a == b
  {
  }

  lemma PlusNothing(a: bv8)
    ensures Plus(a, 0) == a && Plus(0, a) == a
  {
  }

  lemma Regroup(a: bv8, b: bv8, c: bv8, d: bv8)
    ensures Plus(Plus(a, b), Plus(c, d)) == Plus(Plus(a, c), Plus(b, d))
  {
    hide Plus;
    PlusAssociates(a, b, Plus(c, d));
    PlusAssociates(b, c, d);
    PlusCommutes(b, c);
    PlusAssociates(c, b, d);
    PlusAssociates(a, c, Plus(b, d));
  }

  lemma TopBitAdds(a: bv8, b: bv8)
    ensures TopBit(Plus(a, b)) <==> TopBit(a) != TopBit(b)
  {
  }

  lemma DoubleAdds(a: bv8, b: bv8)
    ensures Double(Plus(a, b)) == Plus(Double(a), Double(b))
  {
  }

  lemma ShiftIsLinear(a: bv8, b: bv8, poly: bv8)
    ensures Shift(Plus(a, b), poly) == Plus(Shift(a, poly), Shift(b, poly))
  {
    hide Plus, TopBit, Double;
    TopBitAdds(a, b);
    DoubleAdds(a, b);
    var x, y := Double(a), Double(b);
    Regroup(x, poly, y, poly);
    PlusZero(poly, poly);
    PlusNothing(Plus(x, y));
    PlusAssociates(x, y, poly);
    PlusAssociates(x, poly, y);
    PlusCommutes(poly, y);
  }

  lemma StepIsLinear(a: bv8, b: bv8, poly: bv8)
    ensures Step(Plus(a, b), poly) == Plus(Step(a, poly), Step(b, poly))
  {
    hide Shift, Plus;
    var a1, b1 := Shift(a, poly), Shift(b, poly);
    var a2, b2 := Shift(a1, poly), Shift(b1, poly);
    var a3, b3 := Shift(a2, poly), Shift(b2, poly);
    var a4, b4 := Shift(a3, poly), Shift(b3, poly);
    var a5, b5 := Shift(a4, poly), Shift(b4, poly);
    var a6, b6 := Shift(a5, poly), Shift(b5, poly);
    var a7, b7 := Shift(a6, poly), Shift(b6, poly);
    ShiftIsLinear(a, b, poly);
    ShiftIsLinear(a1, b1, poly);
    ShiftIsLinear(a2, b2, poly);
    ShiftIsLinear(a3, b3, poly);
    ShiftIsLinear(a4, b4, poly);
    ShiftIsLinear(a5, b5, poly);
    ShiftIsLinear(a6, b6, poly);
    ShiftIsLinear(a7, b7, poly);
  }

  /** Byte by byte exclusive or. */
  function PlusAll(a: seq<bv8>, b: seq<bv8>): (r: seq<bv8>)
    requires |a| == |b|
    ensures |r| == |a|
  {
    seq(|a|, i requires 0 <= i < |a| => Plus(a[i], b[i]))
  }

  lemma {:induction false} CrcIsLinear(x: bv8, a: seq<bv8>, y: bv8, b: seq<bv8>, poly: bv8)
    requires |a| == |b|
    ensures Crc(Plus(x, y), PlusAll(a, b), poly) == Plus(Crc(x, a, poly), Crc(y, b, poly))
  {
    hide Step, Plus;
    if a != [] {
      var n := |a| - 1;
      var a', b' := a[..n], b[..n];
      CrcIsLinear(x, a', y, b', poly);
      assert PlusAll(a, b)[..n] == PlusAll(a', b') && PlusAll(a, b)[n] == Plus(a[n], b[n]);
      var c, d := Crc(x, a', poly), Crc(y, b', poly);
      Regroup(c, d, a[n], b[n]);
      StepIsLinear(Plus(c, a[n]), Plus(d, b[n]), poly);
    }
  }

  // ---------------------------------------------------------------- the table is division

  function Part(i: bv8, bit: bv8, remainder: bv8): bv8 {
    if i & bit != 0 then remainder else 0
  }

  function SumOfLow(i: bv8): bv8 {
    Part(i, 1, 0x07) ^ Part(i, 2, 0x0E) ^ Part(i, 4, 0x1C) ^ Part(i, 8, 0x38)
  }

  function SumOfHigh(i: bv8): bv8 {
    Part(i, 16, 0x70) ^ Part(i, 32, 0xE0) ^ Part(i, 64, 0xC7) ^ Part(i, 128, 0x89)
  }

  lemma StepOfLow(i: bv8)
    ensures Step(i & 0x0F, POLY_TABLE) == SumOfLow(i)
  {
  }

  lemma StepOfHigh(i: bv8)
    ensures Step(i & 0xF0, POLY_TABLE) == SumOfHigh(i)
  {
  }

  lemma Halves(i: bv8)
    ensures Plus(i & 0x0F, i & 0xF0) == i
  {
  }

  lemma FirstRowsAreSums(i: bv8)
    requires i < 0x80
    ensures Table(i) == Plus(SumOfLow(i), SumOfHigh(i))
  {
  }

  lemma LastRowsAreSums(i: bv8)
    requires i >= 0x80
    ensures Table(i) == Plus(SumOfLow(i), SumOfHigh(i))
  {
  }

  /** The table is as linear as division: an entry is the sum of the remainders of the bits of its index. */
  lemma TableIsSum(i: bv8)
    ensures Table(i) == Plus(SumOfLow(i), SumOfHigh(i))
  {
    hide Table, Plus, SumOfLow, SumOfHigh;
    if i < 0x80 { FirstRowsAreSums(i); } else { LastRowsAreSums(i); }
  }

  /** Every entry of the table is the division of its index. */
  lemma TableIsStep(i: bv8)
    ensures Table(i) == Step(i, POLY_TABLE)
  {
    hide Step, Table, Plus, SumOfLow, SumOfHigh;
    Halves(i);
    StepIsLinear(i & 0x0F, i & 0xF0, POLY_TABLE);
    StepOfLow(i);
    StepOfHigh(i);
    TableIsSum(i);
  }

  // ---------------------------------------------------------------- error detection

  lemma StepOfZero(poly: bv8)
    ensures Step(0, poly) == 0
  {
  }

  lemma ShiftIsInjective(a: bv8, poly: bv8)
    requires Proper(poly) && a != 0
    ensures Shift(a, poly) != 0
  {
  }

  lemma StepIsInjective(a: bv8, poly: bv8)
    requires Proper(poly) && a != 0
    ensures Step(a, poly) != 0
  {
    hide Shift, Proper;
    var a1 := Shift(a, poly);
    var a2 := Shift(a1, poly);
    var a3 := Shift(a2, poly);
    var a4 := Shift(a3, poly);
    var a5 := Shift(a4, poly);
    var a6 := Shift(a5, poly);
    var a7 := Shift(a6, poly);
    ShiftIsInjective(a, poly);
    ShiftIsInjective(a1, poly);
    ShiftIsInjective(a2, poly);
    ShiftIsInjective(a3, poly);
    ShiftIsInjective(a4, poly);
    ShiftIsInjective(a5, poly);
    ShiftIsInjective(a6, poly);
    ShiftIsInjective(a7, poly);
  }

  /** Appending its own CRC to the data leaves no remainder. */
  lemma ResidueIsZero(data: seq<bv8>, poly: bv8)
    ensures Crc(START, data + [Crc(START, data, poly)], poly) == 0
  {
    hide Step;
    var crc := Crc(START, data, poly);
    assert (data + [crc])[..|data|] == data;
    PlusZero(crc, crc);
    StepOfZero(poly);
  }

  /** A remainder that is not zero stays so over further zero bytes, and a zero one stays zero. */
  lemma {:induction false} ZerosKeep(e: seq<bv8>, n: nat, poly: bv8)
    requires Proper(poly) && n <= |e| && forall i :: n <= i < |e| ==> e[i] == 0
    ensures Crc(0, e, poly) == 0 <==> Crc(0, e[..n], poly) == 0
    decreases |e|
  {
    hide Step, Proper;
    if n < |e| {
      var m := |e| - 1;
      ZerosKeep(e[..m], n, poly);
      assert e[..m][..n] == e[..n];
      var c := Crc(0, e[..m], poly);
      StepOfZero(poly);
      if c != 0 { StepIsInjective(c, poly); }
      PlusNothing(c);
    } else {
      assert e[..n] == e;
    }
  }

  /** An eight-bit pattern that reaches `k` bits into the first of two bytes from the second. */
  lemma BurstLeavesRemainder(burst: bv8, k: bv8, poly: bv8)
    requires Proper(poly) && burst != 0 && k <= 8
    ensures Step(burst >> (8 - k), poly) != burst << k
  {
  }

  /** Two messages of one length have the same CRC exactly when their difference is divisible. */
  lemma SameCrc(a: seq<bv8>, b: seq<bv8>, poly: bv8)
    requires |a| == |b|
    ensures Crc(START, a, poly) == Crc(START, b, poly) <==> Crc(0, PlusAll(a, b), poly) == 0
  {
    hide Plus, Step, Crc;
    CrcIsLinear(START, a, START, b, poly);
    PlusZero(START, START);
    PlusZero(Crc(START, a, poly), Crc(START, b, poly));
  }

  lemma {:induction false} ZerosLeaveZero(e: seq<bv8>, poly: bv8)
    requires forall i :: 0 <= i < |e| ==> e[i] == 0
    ensures Crc(0, e, poly) == 0
  {
    hide Step;
    if e != [] {
      ZerosLeaveZero(e[..|e| - 1], poly);
      PlusNothing(0);
      StepOfZero(poly);
    }
  }

  /** Equal-length messages that differ in exactly one byte have different CRCs. */
  lemma OneByteIsDetected(a: seq<bv8>, b: seq<bv8>, i: nat, poly: bv8)
    requires Proper(poly) && |a| == |b| && i < |a| && a[i] != b[i]
    requires forall k :: 0 <= k < |a| && k != i ==> a[k] == b[k]
    ensures Crc(START, a, poly) != Crc(START, b, poly)
  {
    hide Plus, Step, Proper;
    var e := PlusAll(a, b);
    forall k | 0 <= k < |a| ensures e[k] == 0 <==> a[k] == b[k] { PlusZero(a[k], b[k]); }
    SameCrc(a, b, poly);
    ZerosKeep(e, i + 1, poly);
    ZerosLeaveZero(e[..i], poly);
    assert e[..i + 1][..i] == e[..i];
    PlusNothing(e[i]);
    StepIsInjective(e[i], poly);
  }

  /** So do messages whose differences all lie within eight consecutive bits, across a byte boundary
      too. */
  lemma BurstIsDetected(a: seq<bv8>, b: seq<bv8>, i: nat, burst: bv8, k: bv8, poly: bv8)
    requires Proper(poly) && |a| == |b| && i + 1 < |a| && burst != 0 && k <= 8
    requires Plus(a[i], b[i]) == burst >> (8 - k) && Plus(a[i + 1], b[i + 1]) == burst << k
    requires forall j :: 0 <= j < |a| && j != i && j != i + 1 ==> a[j] == b[j]
    ensures Crc(START, a, poly) != Crc(START, b, poly)
  {
    hide Plus, Step, Proper;
    var e := PlusAll(a, b);
    forall j | 0 <= j < |a| && j != i && j != i + 1 ensures e[j] == 0 { PlusZero(a[j], b[j]); }
    SameCrc(a, b, poly);
    ZerosKeep(e, i + 2, poly);
    ZerosLeaveZero(e[..i], poly);
    assert e[..i + 2][..i + 1] == e[..i + 1] && e[..i + 1][..i] == e[..i];
    PlusNothing(e[i]);
    BurstLeavesRemainder(burst, k, poly);
    var r := Plus(Step(e[i], poly), e[i + 1]);
    PlusZero(Step(e[i], poly), e[i + 1]);
    StepIsInjective(r, poly);
    assert Crc(0, e[..i + 1], poly) == Step(e[i], poly);
    assert Crc(0, e[..i + 2], poly) == Step(r, poly);
  }

  // ---------------------------------------------------------------- the loops

  /** crc8 with the table: it computes the division by 0x07. */
  method Crc8WithTable(data: seq<bv8>) returns (crc: bv8)
    ensures crc == Crc(START, data, POLY_TABLE)
  {
    hide Step, Plus, Table;
    crc := 0xFF;
    var d := 0;
    while d < |data|
      invariant 0 <= d <= |data| && crc == Crc(START, data[..d], POLY_TABLE)
    {
      assert data[..d + 1][..d] == data[..d];
      TableIsStep(Plus(crc, data[d]));
      crc := Table(Plus(crc, data[d]));
      d := d + 1;
    }
    assert data[..d] == data;
  }

  /** crc8 without the table, bit by bit, for the polynomial 0x31. */
  method Crc8Bitwise(data: seq<bv8>) returns (crc: bv8)
    ensures crc == Crc(START, data, POLY_BITS)
  {
    hide Plus, TopBit, Double, Shift;
    crc := 0xFF;
    for i := 0 to |data|
      invariant crc == Crc(START, data[..i], POLY_BITS)
    {
      assert data[..i + 1][..i] == data[..i];
      crc := Plus(crc, data[i]);
      crc := EightShifts(crc);
    }
    assert data[..|data|] == data;
  }

  /** The inner loop of the bitwise routine. */
  method EightShifts(start: bv8) returns (crc: bv8)
    ensures crc == Step(start, POLY_BITS)
  {
    hide Plus, TopBit, Double;
    crc := start;
    for j := 0 to 8
      invariant crc == Shifts(start, POLY_BITS, j)
    {
      if TopBit(crc) {
        crc := Plus(Double(crc), 0x31);
      } else {
        crc := Double(crc);
      }
    }
    StepIsShifts(start, POLY_BITS);
  }

  function Shifts(crc: bv8, poly: bv8, n: nat): bv8 {
    if n == 0 then crc else Shift(Shifts(crc, poly, n - 1), poly)
  }

  lemma StepIsShifts(crc: bv8, poly: bv8)
    ensures Step(crc, poly) == Shifts(crc, poly, 8)
  {
    hide Shift;
    var a, b := Shifts(crc, poly, 2), Shifts(crc, poly, 4);
    assert Shifts(crc, poly, 1) == Shift(Shifts(crc, poly, 0), poly) == Shift(crc, poly);
    assert a == Shift(Shift(crc, poly), poly);
    assert Shifts(crc, poly, 3) == Shift(a, poly);
    assert b == Shift(Shift(a, poly), poly);
    assert Shifts(crc, poly, 5) == Shift(b, poly);
    assert Shifts(crc, poly, 6) == Shift(Shift(b, poly), poly);
    assert Shifts(crc, poly, 7) == Shift(Shift(Shift(b, poly), poly), poly);
  }
}
