/** util/uf2conv.py as it runs: the three conversions with their loops, the globals they share, and the
    Block objects that the HEX conversion fills in place. */
module Uf2Converter {
  import opened Words
  import opened Uf2
  import opened Uf2Theorems
  import opened IntelHex

  /** Block: a page under construction. */
  class Block {
    const addr: nat
    const bytes: array<Byte>

    constructor (addr: nat)
      ensures this.addr == addr && fresh(bytes) && Model() == Page(addr, Zeros(256))
    {
      this.addr := addr;
      bytes := new Byte[256](_ => 0);
      new;
      assert bytes[..] == Zeros(256);
    }

    ghost function Model(): Page
      reads bytes
    {
      Page(addr, bytes[..])
    }

    /** `self.bytes[i] = byte` */
    method Put(i: nat, byte: Byte)
      requires i < bytes.Length
      modifies bytes
      ensures Model() == old(Model()).(bytes := old(Model()).bytes[i := byte])
    {
      bytes[i] := byte;
    }

    /** Block.encode */
    method Encode(no: Word32, total: Word32, familyid: Word32, devicetype: Word32) returns (r: Result<Bytes>)
      requires bytes.Length == 256
      ensures r == if addr < 0x1_0000_0000 then Ok(Sector(Model(), no, total, familyid, devicetype)) else Err(PackError)
    {
      hide Header, Le32;
      if addr >= 0x1_0000_0000 { return Err(PackError); }
      var flags := 0;
      if familyid != 0 { flags := flags + FLAG_FAMILY; }
      if devicetype != 0 { flags := flags + FLAG_EXTENSION; }
      var hd := Header(flags, addr, no, total, familyid);
      hd := hd + bytes[0..256];
      ghost var data := hd;
      assert bytes[0..256] == bytes[..];
      ghost var tag: Bytes := [];
      if devicetype != 0 {
        hd := hd + [0x08, 0x29, 0xA7, 0xC8];
        hd := hd + Le32(devicetype);
        tag := [0x08, 0x29, 0xA7, 0xC8] + Le32(devicetype);
      }
      while |hd| < 512 - 4
        invariant |data + tag| <= |hd| <= 508 && hd == data + (tag + Zeros(|hd| - |data + tag|))
      {
        hd := hd + [0];
      }
      assert tag + Zeros(508 - |data + tag|) == Trailer(devicetype);
      return Ok(hd + Le32(MAGIC_END));
    }
  }

  class Converter {
    var appstartaddr: Option<int>
    const familyid: Word32
    const devicetype: Word32

    constructor (familyid: Word32, devicetype: Word32)
      ensures this.familyid == familyid && this.devicetype == devicetype && appstartaddr == Some(0x2000)
    {
      this.familyid, this.devicetype, appstartaddr := familyid, devicetype, Some(0x2000);
    }

    /** The padding loop of convert_to_uf2. */
    static method PadChunk(data: Bytes) returns (chunk: Bytes)
      requires |data| <= 256
      ensures chunk == data + Zeros(256 - |data|)
    {
      chunk := data;
      while |chunk| < 256
        invariant |data| <= |chunk| <= 256 && chunk == data + Zeros(|chunk| - |data|)
      {
        chunk := chunk + [0];
      }
    }

    method ConvertToUf2(fileContent: Bytes) returns (r: Result<Bytes>)
      requires appstartaddr.Some?
      ensures r == ToUf2(fileContent, appstartaddr.value, familyid)
    {
      hide Header, Le32;
      var base := appstartaddr.value;
      var datapadding: Bytes := [];
      while |datapadding| < 512 - 256 - 32 - 4
        invariant |datapadding| % 4 == 0 && |datapadding| <= 220 && datapadding == Zeros(|datapadding|)
      {
        datapadding := datapadding + [0, 0, 0, 0];
      }
      var numblocks := (|fileContent| + 255) / 256;
      var outp: Bytes := [];
      for blockno := 0 to numblocks
        invariant BaseFits(base, blockno) && (blockno > 0 ==> numblocks < 0x1_0000_0000)
        invariant outp == SectorsSoFar(fileContent, base, familyid, blockno)
      {
        var ptr := 256 * blockno;
        var chunk := fileContent[ptr..if ptr + 256 <= |fileContent| then ptr + 256 else |fileContent|];
        if !(0 <= ptr + base < 0x1_0000_0000) || numblocks >= 0x1_0000_0000 { return Err(PackError); }
        var flags := 0;
        if familyid != 0 { flags := flags + FLAG_FAMILY; }
        var hd := Header(flags, ptr + base, blockno, numblocks, familyid);
        chunk := PadChunk(chunk);
        var block := hd + chunk + datapadding + Le32(MAGIC_END);
        assert chunk == Chunk(fileContent, blockno) && datapadding == Trailer(0);
        assert block == Sector(Page(ptr + base, Chunk(fileContent, blockno)), blockno, numblocks, familyid, 0);
        outp := outp + block;
      }
      AllSectors(fileContent, base, familyid, numblocks);
      return Ok(outp);
    }

    /** The padding loop of convert_from_uf2. */
    static method Pad(out: Bytes, gap: nat) returns (outp: Bytes)
      requires gap % 4 == 0
      ensures outp == out + Zeros(gap)
    {
      outp := out;
      var padding: int := gap;
      while padding > 0
        invariant 0 <= padding <= gap && padding % 4 == 0 && outp == out + Zeros(gap - padding)
      {
        padding := padding - 4;
        outp := outp + [0, 0, 0, 0];
        assert Zeros(gap - padding) == Zeros(gap - padding - 4) + [0, 0, 0, 0];
      }
    }

    /** The loop body of convert_from_uf2 for a block that is for flash. The locals are passed in and
        out; appstartaddr is the global. */
    method TakeBlock(block: Bytes, d: Decoder) returns (r: Result<Decoder>)
      requires |block| == 512 && d.appstart == appstartaddr
      modifies this
      ensures r == DecodeBlock(d, block, familyid)
      ensures r.Ok? ==> r.value.appstart == appstartaddr
    {
      hide WordAt, HasFamily;
      var curraddr, currfamilyid, families, outp := d.curraddr, d.currfamily, d.families, d.out;
      var flags, newaddr, datalen, family := WordAt(block, 2), WordAt(block, 3), WordAt(block, 4), WordAt(block, 7);
      if datalen > 476 { return Err(DataTooLong); }
      if HasFamily(flags) && currfamilyid == None { currfamilyid := Some(family); }
      if curraddr == None || (HasFamily(flags) && Some(family) != currfamilyid) {
        currfamilyid := Some(family);
        curraddr := Some(newaddr);
        if familyid == 0 || familyid == family { appstartaddr := Some(newaddr); }
      }
      var padding := newaddr - curraddr.value;
      if padding < 0 { return Err(OutOfOrder); }
      if padding > MAX_PADDING { return Err(TooMuchPadding); }
      if padding % 4 != 0 { return Err(NonWordPadding); }
      outp := Pad(outp, padding);
      assert outp + [] == outp;
      if familyid == 0 || (HasFamily(flags) && familyid == family) { outp := outp + block[32..32 + datalen]; }
      curraddr := Some(newaddr + datalen);
      if HasFamily(flags) {
        if family in families {
          if families[family] > newaddr { families := families[family := newaddr]; }
        } else {
          families := families[family := newaddr];
        }
      }
      return Ok(Decoder(curraddr, currfamilyid, appstartaddr, families, outp));
    }

    /** convert_from_uf2; the summary it prints is left out. */
    method ConvertFromUf2(buf: Bytes) returns (r: Result<Bytes>)
      modifies this
      ensures match Decode(buf, familyid, old(appstartaddr))
        case Err(e) => r == Err(e)
        case Ok(d) => r == Ok(d.0) && appstartaddr == d.1
    {
      hide WordAt, DecodeBlock, BlockAt, DecodeBlocks;
      var numblocks := |buf| / 512;
      ghost var start := appstartaddr;
      var d := Decoder(None, None, appstartaddr, map[], []);
      var outp: Bytes := [];
      FirstBlocks(buf, familyid, start);
      for blockno := 0 to numblocks
        invariant DecodeBlocks(buf, blockno, familyid, start) == Ok(d)
        invariant blockno < numblocks ==> outp == d.out && appstartaddr == d.appstart
        invariant blockno == numblocks ==> Decode(buf, familyid, start) == Ok((outp, appstartaddr))
      {
        var block := BlockAt(buf, blockno);
        NextBlock(buf, blockno, familyid, start);
        if DecodeBlocks(buf, blockno + 1, familyid, start).Err? {
          ErrorsStay(buf, blockno + 1, numblocks, familyid, start);
        }
        if WordAt(block, 0) != MAGIC_START0 || WordAt(block, 1) != MAGIC_START1 { return Err(BadMagic); }
        if WordAt(block, 2) % 2 == 1 { continue; }
        var next := TakeBlock(block, d);
        if next.Err? { return Err(next.error); }
        d := next.value;
        outp := d.out;
        if blockno == numblocks - 1 && |d.families| > 1 && familyid == 0 {
          outp := [];
          appstartaddr := Some(0);
        }
      }
      return Ok(outp);
    }

    /** The characters of one line as bytes, two by two. */
    method ParseLine(line: string) returns (r: Result<Bytes>)
      requires line != ""
      ensures r == ParsePairs(line[1..])
    {
      hide PairValue;
      var i := 1;
      var rec: Bytes := [];
      PrependParts([], [], ParsePairs(line[1..]));
      while i < |line| - 1
        invariant 1 <= i <= |line|
        invariant ParsePairs(line[1..]) == Prepend(rec, ParsePairs(line[i..]))
      {
        assert line[i..][0] == line[i] && line[i..][1] == line[i + 1] && line[i..][2..] == line[i + 2..];
        var x := PairValue(line[i], line[i + 1]);
        if x == None { return Err(ValueError); }
        PrependParts(rec, [x.value], ParsePairs(line[i + 2..]));
        rec := rec + [x.value];
        i := i + 2;
      }
      assert rec + [] == rec;
      return Ok(rec);
    }

    /** The innermost loop body of convert_from_hex_to_uf2: one data byte into the current block, or
        into a new one. */
    method StoreByte(blocks: seq<Block>, addr: nat, byte: Byte) returns (blocks': seq<Block>)
      requires Distinct(blocks)
      modifies if blocks == [] then {} else {blocks[|blocks| - 1].bytes}
      ensures Distinct(blocks') && FullPages(old(Models(blocks)))
      ensures Models(blocks') == AddWrite(old(Models(blocks)), Write(addr, byte))
      ensures forall b :: b in blocks' ==> b in blocks || (fresh(b) && fresh(b.bytes))
    {
      hide Models;
      blocks' := blocks;
      if blocks == [] || blocks[|blocks| - 1].addr != PageAddr(addr) {
        var block := new Block(PageAddr(addr));
        blocks' := blocks + [block];
      }
      var currblock := blocks'[|blocks'| - 1];
      currblock.Put(addr % 256, byte);
    }

    /** The loop over the data bytes of a record. */
    method StoreData(rec: Bytes, base: nat, blocks: seq<Block>, ghost before: seq<Write>) returns (blocks': seq<Block>)
      requires |rec| >= 4 && Distinct(blocks) && Models(blocks) == Collect(before, |before|)
      modifies set i | 0 <= i < |blocks| :: blocks[i].bytes
      ensures var ws := before + WritesAt(base, if |rec| > 4 then rec[4..|rec| - 1] else []);
        Distinct(blocks') && Models(blocks') == Collect(ws, |ws|)
      ensures forall b :: b in blocks' ==> b in blocks || (fresh(b) && fresh(b.bytes))
    {
      hide Collect, AddWrite, FullPages, WritesAt, Models, Distinct;
      blocks' := blocks;
      var addr, i := base, 4;
      ghost var ws := before;
      NoWritesAt(base);
      assert before + [] == before;
      while i < |rec| - 1
        invariant 4 <= i <= |rec| && (i < |rec| || |rec| == 4) && addr == base + (i - 4)
        invariant Distinct(blocks') && forall b :: b in blocks' ==> b in blocks || (fresh(b) && fresh(b.bytes))
        invariant ws == before + WritesAt(base, rec[4..i]) && Models(blocks') == Collect(ws, |ws|)
      {
        DataSoFar(before, base, rec, i);
        ws := ws + [Write(addr, rec[i])];
        blocks' := StoreByte(blocks', addr, rec[i]);
        addr := addr + 1;
        i := i + 1;
      }
    }

    /** What convert_from_hex_to_uf2 does with one record: its error or whether it is the last, and the
        locals it changes. */
    method TakeRecord(rec: Bytes, blocks: seq<Block>, upper: nat, ghost rd: Reader)
      returns (done: Result<bool>, blocks': seq<Block>, upper': nat)
      requires Distinct(blocks) && !rd.done && Represents(appstartaddr, blocks, upper, rd)
      modifies this, set i | 0 <= i < |blocks| :: blocks[i].bytes
      ensures done.Err? ==> ApplyRecord(rd, rec) == Err(done.error)
      ensures done.Ok? ==> ApplyRecord(rd, rec).Ok? && ApplyRecord(rd, rec).value.done == done.value
      ensures done.Ok? ==> Distinct(blocks') && Represents(appstartaddr, blocks', upper', ApplyRecord(rd, rec).value)
      ensures forall b :: b in blocks' ==> b in blocks || (fresh(b) && fresh(b.bytes))
    {
      hide Collect, AddWrite, FullPages, WritesAt, Models, Distinct;
      blocks', upper' := blocks, upper;
      if |rec| < 4 { return Err(IndexError), blocks, upper; }
      var tp := rec[3];
      if tp == 4 || tp == 2 {
        if |rec| < 6 { return Err(IndexError), blocks, upper; }
        upper' := (rec[4] as int * 256 + rec[5]) * if tp == 4 then 0x1_0000 else 16;
      } else if tp == 1 {
        return Ok(true), blocks, upper;
      } else if tp == 0 {
        var addr: nat := upper + rec[1] as int * 256 + rec[2];
        if appstartaddr == None { appstartaddr := Some(addr); }
        blocks' := StoreData(rec, addr, blocks, rd.writes);
      }
      return Ok(false), blocks', upper';
    }

    /** The body of the loop over the lines. */
    method TakeLine(line: string, blocks: seq<Block>, upper: nat, ghost rd: Reader)
      returns (done: Result<bool>, blocks': seq<Block>, upper': nat)
      requires Distinct(blocks) && !rd.done && Represents(appstartaddr, blocks, upper, rd)
      modifies this, set i | 0 <= i < |blocks| :: blocks[i].bytes
      ensures done.Err? ==> ReadLine(rd, line) == Err(done.error)
      ensures done.Ok? ==> ReadLine(rd, line).Ok? && ReadLine(rd, line).value.done == done.value
      ensures done.Ok? ==> Distinct(blocks') && Represents(appstartaddr, blocks', upper', ReadLine(rd, line).value)
      ensures forall b :: b in blocks' ==> b in blocks || (fresh(b) && fresh(b.bytes))
    {
      hide ApplyRecord, Collect, ParsePairs, Represents, Distinct;
      if line == "" { return Err(IndexError), blocks, upper; }
      if line[0] != ':' { return Ok(false), blocks, upper; }
      var rec := ParseLine(line);
      if rec.Err? { return Err(rec.error), blocks, upper; }
      done, blocks', upper' := TakeRecord(rec.value, blocks, upper, rd);
    }

    /** convert_from_hex_to_uf2, given the lines of the text. */
    method ConvertFromHexToUf2(lines: seq<string>) returns (r: Result<Bytes>)
      modifies this
      ensures match HexToUf2(lines, familyid, devicetype)
        case Err(e) => r == Err(e)
        case Ok(f) => r == Ok(f.0) && appstartaddr == f.1
    {
      hide ReadLine, Collect, Represents, Distinct, Models, Sectors, Packable, FullPages;
      var blocks: seq<Block> := [];
      ghost var rd := START;
      appstartaddr := None;
      var upper: nat, n, done := 0, 0, false;
      assert lines[0..] == lines;
      NothingRead();
      while n < |lines| && !done
        invariant 0 <= n <= |lines| && done == rd.done
        invariant ReadLines(START, lines) == ReadLines(rd, lines[n..])
        invariant Distinct(blocks) && forall b :: b in blocks ==> fresh(b) && fresh(b.bytes)
        invariant Represents(appstartaddr, blocks, upper, rd)
      {
        assert lines[n..][0] == lines[n] && lines[n..][1..] == lines[n + 1..];
        ghost var next := ReadLine(rd, lines[n]);
        var last;
        last, blocks, upper := TakeLine(lines[n], blocks, upper, rd);
        if last.Err? { return Err(last.error); }
        done, rd, n := last.value, next.value, n + 1;
      }
      RepresentsPages(appstartaddr, blocks, upper, rd);
      r := EncodeBlocks(blocks);
    }

    /** The loop that writes the blocks out. */
    method EncodeBlocks(blocks: seq<Block>) returns (r: Result<Bytes>)
      requires Distinct(blocks)
      ensures FullPages(Models(blocks))
      ensures var ps := Models(blocks);
        r == if Packable(ps) then Ok(Sectors(ps, |ps|, familyid, devicetype)) else Err(PackError)
    {
      hide Sector;
      var numblocks := |blocks|;
      ghost var ps := Models(blocks);
      var resfile: Bytes := [];
      if numblocks >= 0x1_0000_0000 { return Err(PackError); }
      for i := 0 to numblocks
        invariant forall k :: 0 <= k < i ==> ps[k].addr < 0x1_0000_0000
        invariant Packable(ps) ==> resfile == Sectors(ps, i, familyid, devicetype)
      {
        var b := blocks[i].Encode(i, numblocks, familyid, devicetype);
        if b.Err? { return Err(PackError); }
        resfile := resfile + b.value;
      }
      return Ok(resfile);
    }
  }

  /** The locals of convert_from_hex_to_uf2 and the global stand for the reader. */
  ghost predicate Represents(appstart: Option<int>, blocks: seq<Block>, upper: nat, rd: Reader)
    reads set i | 0 <= i < |blocks| :: blocks[i].bytes
  {
    rd.appstart == appstart && rd.upper == upper && Models(blocks) == Collect(rd.writes, |rd.writes|)
  }

  lemma NoWritesAt(base: nat)
    ensures WritesAt(base, []) == []
  {
  }

  lemma WritesSnoc(base: nat, data: Bytes, b: Byte)
    ensures WritesAt(base, data + [b]) == WritesAt(base, data) + [Write(base + |data|, b)]
  {
  }

  /** One more data byte of a record. */
  lemma DataSoFar(before: seq<Write>, base: nat, rec: Bytes, i: nat)
    requires 4 <= i < |rec|
    ensures var ws := before + WritesAt(base, rec[4..i]); var w := Write(base + (i - 4), rec[i]);
      && ws + [w] == before + WritesAt(base, rec[4..i + 1])
      && Collect(ws + [w], |ws| + 1) == AddWrite(Collect(ws, |ws|), w)
  {
    hide Collect, AddWrite, WritesAt;
    var ws, w := before + WritesAt(base, rec[4..i]), Write(base + (i - 4), rec[i]);
    CollectSnoc(ws, w);
    WritesSnoc(base, rec[4..i], rec[i]);
    assert rec[4..i + 1] == rec[4..i] + [rec[i]];
  }

  lemma RepresentsPages(appstart: Option<int>, blocks: seq<Block>, upper: nat, rd: Reader)
    requires Represents(appstart, blocks, upper, rd)
    ensures rd.appstart == appstart && Models(blocks) == Collect(rd.writes, |rd.writes|)
  {
  }

  lemma NothingRead()
    ensures Distinct([]) && Represents(None, [], 0, START)
  {
  }

  lemma {:induction false} CollectPrefix(ws: seq<Write>, more: seq<Write>, n: nat)
    requires n <= |ws|
    ensures Collect(ws + more, n) == Collect(ws, n)
    decreases n
  {
    hide AddWrite;
    if n > 0 { CollectPrefix(ws, more, n - 1); }
  }

  lemma CollectSnoc(ws: seq<Write>, w: Write)
    ensures Collect(ws + [w], |ws| + 1) == AddWrite(Collect(ws, |ws|), w)
  {
    hide AddWrite;
    CollectPrefix(ws, [w], |ws|);
  }

  ghost predicate Distinct(blocks: seq<Block>) {
    && (forall i :: 0 <= i < |blocks| ==> blocks[i].bytes.Length == 256)
    && (forall i, j :: 0 <= i < j < |blocks| ==> blocks[i].bytes != blocks[j].bytes)
  }

  ghost function Models(blocks: seq<Block>): (ps: seq<Page>)
    reads set i | 0 <= i < |blocks| :: blocks[i].bytes
    ensures |ps| == |blocks| && forall i :: 0 <= i < |ps| ==> ps[i] == blocks[i].Model()
  {
    if blocks == [] then [] else Models(blocks[..|blocks| - 1]) + [blocks[|blocks| - 1].Model()]
  }

  lemma PrependParts(a: Bytes, b: Bytes, r: Result<Bytes>)
    ensures Prepend(a, Prepend(b, r)) == Prepend(a + b, r) && Prepend([], r) == r
  {
    if r.Ok? { assert a + (b + r.value) == a + b + r.value && [] + r.value == r.value; }
  }

  lemma FirstBlocks(buf: Bytes, familyid: Word32, appstart: Option<int>)
    ensures DecodeBlocks(buf, 0, familyid, appstart) == Ok(Decoder(None, None, appstart, map[], []))
  {
  }

  lemma NextBlock(buf: Bytes, n: nat, familyid: Word32, appstart: Option<int>)
    requires 512 * n + 512 <= |buf|
    ensures var d := DecodeBlocks(buf, n, familyid, appstart); var block := BlockAt(buf, n);
      DecodeBlocks(buf, n + 1, familyid, appstart) ==
        if d.Err? then d
        else if BadBlock(block) then Err(BadMagic)
        else if NotForFlash(block) then d
        else DecodeBlock(d.value, block, familyid)
  {
  }

  lemma {:induction false} ErrorsStay(buf: Bytes, n: nat, m: nat, familyid: Word32, appstart: Option<int>)
    requires n <= m && 512 * m <= |buf| && DecodeBlocks(buf, n, familyid, appstart).Err?
    ensures DecodeBlocks(buf, m, familyid, appstart) == DecodeBlocks(buf, n, familyid, appstart)
    decreases m
  {
    hide DecodeBlock, BadBlock, NotForFlash;
    if n < m {
      ErrorsStay(buf, n, m - 1, familyid, appstart);
      NextBlock(buf, m - 1, familyid, appstart);
    }
  }

  predicate BaseFits(base: int, n: nat) {
    n == 0 || (0 <= base && base + 256 * (n - 1) < 0x1_0000_0000)
  }

  /** What convert_to_uf2 has put out after `n` blocks. */
  function SectorsSoFar(content: Bytes, base: int, family: Word32, n: nat): Bytes
    requires n <= BlockCount(content) && BaseFits(base, n) && (n > 0 ==> BlockCount(content) < 0x1_0000_0000)
  {
    if n == 0 then []
    else
      var page := Page(base + 256 * (n - 1), Chunk(content, n - 1));
      SectorsSoFar(content, base, family, n - 1) + Sector(page, n - 1, BlockCount(content), family, 0)
  }

  lemma {:induction false} AllSectors(content: Bytes, base: int, family: Word32, n: nat)
    requires n <= BlockCount(content) && AddressesFit(content, base) && BaseFits(base, n)
    ensures var ps := PagesOf(content, base, BlockCount(content));
      SectorsSoFar(content, base, family, n) == Sectors(ps, n, family, 0)
    decreases n
  {
    hide Sector, Chunk;
    if n > 0 { AllSectors(content, base, family, n - 1); }
  }
}
