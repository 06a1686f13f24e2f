/** Records of the Intel Hexadecimal Object File Format Specification written out as text, and the
    proof that the converter reads them back as what they mean. */
module IntelHexText {
  import opened Words
  import opened Uf2
  import opened Uf2Theorems
  import opened IntelHex
  import opened IntelHexTheorems

  /** Data Record, Extended Linear Address Record, Extended Segment Address Record, End of File Record. */
  datatype HexRecord = Data(offset: Word16, bytes: Bytes) | Linear(base: Word16) | Segment(base: Word16) | EndOfFile

  function Big16(x: Word16): Bytes {
    [x / 256, x % 256]
  }

  function Fields(r: HexRecord): Bytes
    requires r.Data? ==> |r.bytes| < 256
  {
    match r
    case Data(offset, bytes) => [|bytes|] + Big16(offset) + [0] + bytes
    case Linear(base) => [2, 0, 0, 4] + Big16(base)
    case Segment(base) => [2, 0, 0, 2] + Big16(base)
    case EndOfFile => [0, 0, 0, 1]
  }

  function Sum(b: Bytes): nat {
    if b == [] then 0 else b[0] + Sum(b[1..])
  }

  function Checksum(b: Bytes): Byte {
    (256 - Sum(b) % 256) % 256
  }

  function Digit(n: nat): char
    requires n < 16
  {
    "0123456789ABCDEF"[n]
  }

  function HexText(b: Bytes): string {
    if b == [] then "" else [Digit(b[0] / 16), Digit(b[0] % 16)] + HexText(b[1..])
  }

  /** A record as a line of text, with or without a carriage return at its end. */
  function Line(r: HexRecord, cr: bool): string
    requires r.Data? ==> |r.bytes| < 256
  {
    ":" + (HexText(Fields(r) + [Checksum(Fields(r))]) + if cr then "\r" else "")
  }

  /** What a record means to a reader that has got this far. */
  function Meaning(rd: Reader, r: HexRecord): Reader {
    match r
    case Data(offset, bytes) =>
      var addr := rd.upper + offset;
      rd.(appstart := if rd.appstart == None then Some(addr) else rd.appstart,
          writes := rd.writes + WritesAt(addr, bytes))
    case Linear(base) => rd.(upper := base as int * 0x1_0000)
    case Segment(base) => rd.(upper := base as int * 16)
    case EndOfFile => rd.(done := true)
  }

  lemma DigitReads(n: nat)
    requires n < 16
    ensures HexDigit(Digit(n)) == Some(n)
  {
  }

  lemma {:induction false} TextStarts(b: Bytes, end: string)
    requires b != []
    ensures var s := HexText(b) + end;
      |s| >= 2 && s[0] == Digit(b[0] / 16) && s[1] == Digit(b[0] % 16) && s[2..] == HexText(b[1..]) + end
  {
    hide Digit;
    var x, y, rest := Digit(b[0] / 16), Digit(b[0] % 16), HexText(b[1..]);
    assert HexText(b) == [x, y] + rest;
    hide HexText;
    PairInFront(x, y, rest, end);
  }

  lemma PairInFront(x: char, y: char, rest: string, end: string)
    ensures var s := [x, y] + rest + end; s[0] == x && s[1] == y && s[2..] == rest + end
  {
  }

  lemma {:induction false} TextReads(b: Bytes, end: string)
    requires |end| < 2
    ensures ParsePairs(HexText(b) + end) == Ok(b)
    decreases |b|
  {
    hide Digit, PairValue;
    if b == [] {
      assert HexText(b) + end == end;
    } else {
      hide HexText;
      TextStarts(b, end);
      PairReads(b[0]);
      TextReads(b[1..], end);
      assert [b[0]] + b[1..] == b;
    }
  }

  lemma PairReads(x: Byte)
    ensures PairValue(Digit(x / 16), Digit(x % 16)) == Some(x)
  {
    hide HexDigit, Digit;
    DigitReads(x / 16);
    DigitReads(x % 16);
  }

  lemma RecordReads(rd: Reader, r: HexRecord, sum: Byte)
    requires r.Data? ==> |r.bytes| < 256
    ensures ApplyRecord(rd, Fields(r) + [sum]) == Ok(Meaning(rd, r))
  {
    var rec := Fields(r) + [sum];
    if r.Data? { assert rec[4..|rec| - 1] == r.bytes; }
  }

  /** The converter reads a printed record as what it means. */
  lemma LineReads(rd: Reader, r: HexRecord, cr: bool)
    requires r.Data? ==> |r.bytes| < 256
    ensures ReadLine(rd, Line(r, cr)) == Ok(Meaning(rd, r))
  {
    hide Fields, HexText, Meaning, ApplyRecord, Checksum;
    TextReads(Fields(r) + [Checksum(Fields(r))], if cr then "\r" else "");
    assert Line(r, cr)[1..] == HexText(Fields(r) + [Checksum(Fields(r))]) + if cr then "\r" else "";
    RecordReads(rd, r, Checksum(Fields(r)));
  }

  lemma PrintedBytesRead(rd: Reader, b: Bytes, cr: bool)
    ensures ReadLine(rd, ":" + (HexText(b) + if cr then "\r" else "")) == ApplyRecord(rd, b)
  {
    hide HexText, ApplyRecord;
    var line := ":" + (HexText(b) + if cr then "\r" else "");
    TextReads(b, if cr then "\r" else "");
    assert line[1..] == HexText(b) + if cr then "\r" else "";
  }

  /** Any bytes at all, printed as a line: fewer than four of them, or fewer than six for an address record, end
      the conversion; an end-of-file record ends the file; a data record is written to its address whatever
      its byte count and checksum say, all but its last byte; and a record of any other type is skipped. */
  lemma AnyBytesRead(rd: Reader, b: Bytes, cr: bool)
    ensures
      var read := ReadLine(rd, ":" + (HexText(b) + if cr then "\r" else ""));
      if |b| < 4 then read == Err(IndexError)
      else if b[3] == 0 then
        var addr := rd.upper + b[1] as int * 256 + b[2];
        read == Ok(rd.(appstart := if rd.appstart.Some? then rd.appstart else Some(addr),
                       writes := rd.writes + WritesAt(addr, if |b| == 4 then [] else b[4..|b| - 1])))
      else if b[3] == 1 then read == Ok(rd.(done := true))
      else if b[3] != 2 && b[3] != 4 then read == Ok(rd)
      else if |b| < 6 then read == Err(IndexError)
      else read == Ok(rd.(upper := (b[4] as int * 256 + b[5]) * if b[3] == 4 then 0x1_0000 else 16))
  {
    hide HexText, WritesAt, ReadLine;
    PrintedBytesRead(rd, b, cr);
  }

  lemma {:induction false} TextThenPair(b: Bytes, c: char, d: char)
    ensures ParsePairs(HexText(b) + [c, d]) ==
      if PairValue(c, d) == None then Err(ValueError) else Ok(b + [PairValue(c, d).value])
    decreases |b|
  {
    hide Digit, PairValue;
    if b == [] {
      var pair: string := [c, d];
      assert HexText(b) + [c, d] == pair && pair[2..] == [];
      assert ParsePairs(pair[2..]) == Ok([]);
      if PairValue(c, d).Some? { assert [PairValue(c, d).value] + [] == b + [PairValue(c, d).value]; }
    } else {
      hide HexText;
      TextStarts(b, [c, d]);
      PairReads(b[0]);
      TextThenPair(b[1..], c, d);
      if PairValue(c, d).Some? { assert [b[0]] + (b[1..] + [PairValue(c, d).value]) == b + [PairValue(c, d).value]; }
    }
  }

  /** A line with an odd number of digits before its carriage return, or a carriage return before its last
      digit, has that digit as its last byte; two of them, or a colon, are no byte. */
  lemma LastPairRead(rd: Reader, b: Bytes, n: nat)
    requires n < 16
    ensures ReadLine(rd, ":" + (HexText(b) + [Digit(n), '\r'])) == ApplyRecord(rd, b + [n])
    ensures ReadLine(rd, ":" + (HexText(b) + ['\r', Digit(n)])) == ApplyRecord(rd, b + [n])
    ensures ReadLine(rd, ":" + (HexText(b) + ['\r', '\r'])) == Err(ValueError)
    ensures ReadLine(rd, ":" + (HexText(b) + [':', Digit(n)])) == Err(ValueError)
    ensures ReadLine(rd, ":" + (HexText(b) + [Digit(n), ':'])) == Err(ValueError)
  {
    hide HexText, ApplyRecord, ParsePairs;
    forall c, d ensures (":" + (HexText(b) + [c, d]))[1..] == HexText(b) + [c, d] {}
    DigitReads(n);
    TextThenPair(b, Digit(n), '\r');
    TextThenPair(b, '\r', Digit(n));
    TextThenPair(b, '\r', '\r');
    TextThenPair(b, ':', Digit(n));
    TextThenPair(b, Digit(n), ':');
  }

  /** The same character but for the case of a hexadecimal digit. */
  predicate SameDigit(c: char, d: char) {
    || c == d
    || ('A' <= c <= 'F' && d as int == c as int + 32)
    || ('A' <= d <= 'F' && c as int == d as int + 32)
  }

  lemma {:induction false} PairsInAnyCase(s: string, t: string)
    requires |s| == |t| && forall i :: 0 <= i < |s| ==> SameDigit(s[i], t[i])
    ensures ParsePairs(s) == ParsePairs(t)
    decreases |s|
  {
    hide PairValue;
    if |s| >= 2 {
      PairInAnyCase(s[0], s[1], t[0], t[1]);
      PairsInAnyCase(s[2..], t[2..]);
    }
  }

  lemma PairInAnyCase(c: char, d: char, c': char, d': char)
    requires SameDigit(c, c') && SameDigit(d, d')
    ensures PairValue(c, d) == PairValue(c', d')
  {
  }

  /** Digits are read the same in upper and in lower case. */
  lemma LineInAnyCase(rd: Reader, s: string, t: string)
    requires |s| == |t| && forall i :: 0 <= i < |s| ==> SameDigit(s[i], t[i])
    ensures ReadLine(rd, s) == ReadLine(rd, t)
  {
    hide ApplyRecord, ParsePairs;
    if s != [] { PairsInAnyCase(s[1..], t[1..]); }
  }

  /** An empty line ends the conversion, and a line that does not start with a colon is skipped. */
  lemma OtherLinesRead(rd: Reader, line: string)
    ensures line == "" ==> ReadLine(rd, line) == Err(IndexError)
    ensures line != "" && line[0] != ':' ==> ReadLine(rd, line) == Ok(rd)
  {
  }

  function Lines(rs: seq<HexRecord>, cr: bool): (ls: seq<string>)
    requires forall i :: 0 <= i < |rs| ==> rs[i].Data? ==> |rs[i].bytes| < 256
    ensures |ls| == |rs| && forall i :: 0 <= i < |rs| ==> ls[i] == Line(rs[i], cr)
  {
    seq(|rs|, i requires 0 <= i < |rs| => Line(rs[i], cr))
  }

  function MeaningOf(rd: Reader, rs: seq<HexRecord>): Reader
    decreases |rs|
  {
    if rs == [] then rd else MeaningOf(Meaning(rd, rs[0]), rs[1..])
  }

  /** A whole file: everything up to the end-of-file record is read as it is meant, and nothing behind
      that record is looked at. */
  lemma {:induction false} FileReads(rd: Reader, rs: seq<HexRecord>, cr: bool, rest: seq<string>)
    requires !rd.done && forall i :: 0 <= i < |rs| ==> !rs[i].EndOfFile? && (rs[i].Data? ==> |rs[i].bytes| < 256)
    ensures ReadLines(rd, Lines(rs, cr) + [Line(EndOfFile, cr)] + rest) == Ok(MeaningOf(rd, rs).(done := true))
    decreases |rs|
  {
    hide ReadLine, Line;
    var all := Lines(rs, cr) + [Line(EndOfFile, cr)] + rest;
    if rs == [] {
      assert all[0] == Line(EndOfFile, cr);
      LineReads(rd, EndOfFile, cr);
      assert ReadLines(rd.(done := true), all[1..]) == Ok(rd.(done := true));
    } else {
      assert all[0] == Line(rs[0], cr);
      LineReads(rd, rs[0], cr);
      assert all[1..] == Lines(rs[1..], cr) + [Line(EndOfFile, cr)] + rest;
      FileReads(Meaning(rd, rs[0]), rs[1..], cr, rest);
    }
  }

  lemma {:induction false} StartStays(rd: Reader, rs: seq<HexRecord>)
    requires rd.appstart.Some?
    ensures MeaningOf(rd, rs).appstart == rd.appstart
    decreases |rs|
  {
    if rs != [] { StartStays(Meaning(rd, rs[0]), rs[1..]); }
  }

  /** The start address of a file is the address of its first data record. */
  lemma {:induction false} StartIsFirstRecord(rd: Reader, before: seq<HexRecord>, offset: Word16, bytes: Bytes,
      after: seq<HexRecord>)
    requires rd.appstart == None && forall i :: 0 <= i < |before| ==> !before[i].Data?
    ensures MeaningOf(rd, before + [Data(offset, bytes)] + after).appstart
         == Some(MeaningOf(rd, before).upper + offset)
    decreases |before|
  {
    var all := before + [Data(offset, bytes)] + after;
    if before == [] {
      assert all[0] == Data(offset, bytes) && all[1..] == after;
      StartStays(Meaning(rd, all[0]), after);
    } else {
      assert all[0] == before[0] && all[1..] == before[1..] + [Data(offset, bytes)] + after;
      StartIsFirstRecord(Meaning(rd, before[0]), before[1..], offset, bytes, after);
    }
  }

  /** The conversion of a whole file returns it, unless an address does not fit 32 bits. */
  lemma ConversionReturnsStart(before: seq<HexRecord>, offset: Word16, bytes: Bytes, after: seq<HexRecord>,
      cr: bool, rest: seq<string>, family: Word32, device: Word32)
    requires forall i :: 0 <= i < |before| ==> !before[i].Data? && !before[i].EndOfFile?
    requires forall i :: 0 <= i < |after| ==> !after[i].EndOfFile? && (after[i].Data? ==> |after[i].bytes| < 256)
    requires |bytes| < 256
    ensures var all := before + [Data(offset, bytes)] + after;
      var uf2 := HexToUf2(Lines(all, cr) + [Line(EndOfFile, cr)] + rest, family, device);
      var ws := MeaningOf(START, all).writes;
      && (uf2.Ok? <==> |Collect(ws, |ws|)| < 0x1_0000_0000 && forall i :: 0 <= i < |ws| ==> ws[i].addr < 0x1_0000_0000)
      && uf2 == if uf2.Ok? then Ok((uf2.value.0, Some(MeaningOf(START, before).upper + offset))) else Err(PackError)
  {
    hide Line, ReadLines, MeaningOf, Sectors, Collect, Packable;
    var all := before + [Data(offset, bytes)] + after;
    FileReads(START, all, cr, rest);
    StartIsFirstRecord(START, before, offset, bytes, after);
    PacksIfItFits(MeaningOf(START, all).writes, |MeaningOf(START, all).writes|);
  }

  // ---------------------------------------------------------------- a file that goes back

  /** One byte on page one, then one on page zero. */
  const GOING_BACK := [Data(0x100, [0x55]), Data(0, [0xAA])]

  /** The file of these two records is converted, but the result does not decode. */
  lemma GoingBackDoesNotDecode(family: Word32, device: Word32, familyid: Word32, appstart: Option<int>)
    requires familyid == 0 || familyid == family
    ensures var uf2 := HexToUf2(Lines(GOING_BACK, false) + [Line(EndOfFile, false)], family, device);
      uf2.Ok? && uf2.value.1 == Some(0x100) && Decode(uf2.value.0, familyid, appstart) == Err(OutOfOrder)
  {
    hide Line, Lines, ReadLines, Decode, Sectors, Assemble;
    var lines := Lines(GOING_BACK, false) + [Line(EndOfFile, false)];
    FileReads(START, GOING_BACK, false, []);
    assert lines + [] == lines;
    var ws := [Write(0x100, 0x55), Write(0, 0xAA)];
    GoingBackMeans();
    var ps := Collect(ws, 2);
    assert Collect(ws, 0) == [];
    assert Collect(ws, 1) == [NewPage(ws[0])];
    assert ps == [NewPage(ws[0]), NewPage(ws[1])];
    DecodeIsAssemble(ps, family, device, familyid, appstart);
    DoesNotAssemble(ps);
  }

  lemma GoingBackMeans()
    ensures var r := MeaningOf(START, GOING_BACK);
      r.writes == [Write(0x100, 0x55), Write(0, 0xAA)] && r.appstart == Some(0x100)
  {
    var r := Meaning(START, GOING_BACK[0]);
    assert r.writes == [Write(0x100, 0x55)];
    assert GOING_BACK[1..] == [GOING_BACK[1]] && GOING_BACK[1..][1..] == [];
    assert MeaningOf(START, GOING_BACK) == MeaningOf(r, GOING_BACK[1..]) == Meaning(r, GOING_BACK[1]);
  }

  lemma DoesNotAssemble(ps: seq<Page>)
    requires FullPages(ps) && |ps| == 2 && ps[1].addr < ps[0].addr
    ensures Assemble(ps, 2) == Err(OutOfOrder)
  {
    assert Assemble(ps, 0) == Ok([]);
    assert Assemble(ps, 1) == Ok(ps[0].bytes);
  }
}
