/** The UF2 side of util/uf2conv.py on values: 512-byte sectors as the two encoders write them, and the
    decoder's pass over a file. */
module Uf2 {
  import opened Words

  type Bytes = seq<Byte>

  datatype Option<T> = None | Some(value: T)

  const MAGIC_START0: Word32 := 0x0A324655
  const MAGIC_START1: Word32 := 0x9E5D5157
  const MAGIC_END: Word32 := 0x0AB16F30
  const FLAG_FAMILY := 0x2000
  const FLAG_EXTENSION := 0x8000
  const MAX_PADDING := 10 * 1024 * 1024

  /** The exceptions that stop a conversion. (The decoder's messages join a string and a number, so what
      Python raises where these are reported is a TypeError.) */
  datatype Error =
    | BadMagic | DataTooLong | OutOfOrder | TooMuchPadding | NonWordPadding | PackError | IndexError | ValueError

  datatype Result<T> = Ok(value: T) | Err(error: Error)

  function Zeros(n: nat): (z: Bytes)
    ensures |z| == n && forall i :: 0 <= i < n ==> z[i] == 0
  {
    seq(n, _ => 0)
  }

  // ---------------------------------------------------------------- little-endian words

  /** struct.pack("<I", x) */
  function Le32(x: Word32): (b: Bytes)
    ensures |b| == 4
  {
    [x % 0x100, x / 0x100 % 0x100, x / 0x1_0000 % 0x100, x / 0x100_0000]
  }

  /** One word of struct.unpack("<IIIIIIII", ...): the word number `i`. */
  function WordAt(b: Bytes, i: nat): Word32
    requires 4 * i + 4 <= |b|
  {
    b[4 * i] as int + b[4 * i + 1] as int * 0x100 + b[4 * i + 2] as int * 0x1_0000 + b[4 * i + 3] as int * 0x100_0000
  }

  lemma WordOfLe32(x: Word32)
    ensures WordAt(Le32(x), 0) == x
  {
    var y := x / 0x100;
    assert x == y * 0x100 + x % 0x100;
    var z := y / 0x100;
    assert y == z * 0x100 + y % 0x100;
    assert z == z / 0x100 * 0x100 + z % 0x100;
    assert z == x / 0x1_0000 && z / 0x100 == x / 0x100_0000;
  }

  lemma WordAtOffset(a: Bytes, x: Word32, b: Bytes, i: nat)
    requires |a| == 4 * i
    ensures WordAt(a + Le32(x) + b, i) == x
  {
    WordOfLe32(x);
  }

  // ---------------------------------------------------------------- sectors

  /** A page of 256 bytes and its target address. */
  datatype Page = Page(addr: nat, bytes: Bytes)

  ghost predicate FullPage(p: Page) {
    |p.bytes| == 256
  }

  ghost predicate FullPages(ps: seq<Page>) {
    forall i :: 0 <= i < |ps| ==> FullPage(ps[i])
  }

  /** Whether struct.pack accepts every address and the number of pages. */
  predicate Packable(ps: seq<Page>) {
    |ps| < 0x1_0000_0000 && forall i :: 0 <= i < |ps| ==> ps[i].addr < 0x1_0000_0000
  }

  function Flags(family: Word32, device: Word32): Word32 {
    (if family != 0 then FLAG_FAMILY else 0) + (if device != 0 then FLAG_EXTENSION else 0)
  }

  function Header(flags: Word32, addr: Word32, no: Word32, total: Word32, family: Word32): (b: Bytes)
    ensures |b| == 32
  {
    Le32(MAGIC_START0) + Le32(MAGIC_START1) + Le32(flags) + Le32(addr)
    + Le32(256) + Le32(no) + Le32(total) + Le32(family)
  }

  /** What follows the data of a sector: the device type extension, if any, and zeros. */
  function Trailer(device: Word32): (b: Bytes)
    ensures |b| == 220
  {
    if device != 0 then [0x08, 0x29, 0xA7, 0xC8] + Le32(device) + Zeros(212) else Zeros(220)
  }

  /** One sector: Block.encode, and with device 0 also the loop body of convert_to_uf2. */
  function Sector(p: Page, no: Word32, total: Word32, family: Word32, device: Word32): (b: Bytes)
    requires FullPage(p) && p.addr < 0x1_0000_0000
    ensures |b| == 512
  {
    Header(Flags(family, device), p.addr, no, total, family) + p.bytes + Trailer(device) + Le32(MAGIC_END)
  }

  /** The sectors of the pages from number `i` on. */
  function Sectors(ps: seq<Page>, n: nat, family: Word32, device: Word32): (b: Bytes)
    requires n <= |ps| && FullPages(ps) && Packable(ps)
    ensures |b| == 512 * n
  {
    if n == 0 then [] else Sectors(ps, n - 1, family, device) + Sector(ps[n - 1], n - 1, |ps|, family, device)
  }

  lemma HeaderWords(flags: Word32, addr: Word32, no: Word32, total: Word32, family: Word32)
    ensures var h := Header(flags, addr, no, total, family);
      && WordAt(h, 0) == MAGIC_START0 && WordAt(h, 1) == MAGIC_START1 && WordAt(h, 2) == flags && WordAt(h, 3) == addr
      && WordAt(h, 4) == 256 && WordAt(h, 5) == no && WordAt(h, 6) == total && WordAt(h, 7) == family
  {
    hide WordAt, Le32;
    var h := Header(flags, addr, no, total, family);
    var w := [MAGIC_START0, MAGIC_START1, flags, addr, 256, no, total, family];
    forall i | 0 <= i < 8 ensures WordAt(h, i) == w[i] {
      assert h == h[..4 * i] + Le32(w[i]) + h[4 * i + 4..];
      WordAtOffset(h[..4 * i], w[i], h[4 * i + 4..], i);
    }
  }

  /** A sector field by field, as the UF2 file format lays it out: two magic words, flags that tell whether
      there is a family (0x2000) and a device type extension (0x8000), address, 256 bytes, block number,
      number of blocks, family; the data from byte 32; behind it the extension 08 29 A7 C8 and the device
      type, or nothing; zeros; and the final magic word. */
  lemma SectorFields(p: Page, no: Word32, total: Word32, family: Word32, device: Word32)
    requires FullPage(p) && p.addr < 0x1_0000_0000
    ensures var s := Sector(p, no, total, family, device);
      && WordAt(s, 0) == 0x0A324655 && WordAt(s, 1) == 0x9E5D5157
      && WordAt(s, 2) == Flags(family, device)
      && Flags(family, device) == (if family != 0 then 0x2000 else 0) + (if device != 0 then 0x8000 else 0)
      && WordAt(s, 3) == p.addr && WordAt(s, 4) == 256 && WordAt(s, 5) == no && WordAt(s, 6) == total
      && WordAt(s, 7) == family && s[32..288] == p.bytes
      && (if device == 0 then s[288..296] == Zeros(8)
          else s[288..292] == [0x08, 0x29, 0xA7, 0xC8] && WordAt(s, 73) == device)
      && (forall i :: 296 <= i < 508 ==> s[i] == 0) && WordAt(s, 127) == 0x0AB16F30
  {
    hide Header, Le32, WordAt, Trailer;
    var flags := Flags(family, device);
    var h := Header(flags, p.addr, no, total, family);
    HeaderWords(flags, p.addr, no, total, family);
    var s := Sector(p, no, total, family, device);
    var rest := p.bytes + Trailer(device) + Le32(MAGIC_END);
    assert s == h + rest;
    SameWords(h, rest);
    assert s[32..288] == p.bytes;
    LastWord(h + p.bytes + Trailer(device), MAGIC_END);
    TrailerStands(h + p.bytes, device, Le32(MAGIC_END));
  }

  lemma SameWords(h: Bytes, rest: Bytes)
    requires |h| == 32
    ensures forall i :: 0 <= i < 8 ==> WordAt(h + rest, i) == WordAt(h, i)
  {
    hide WordAt;
    forall i | 0 <= i < 8 ensures WordAt(h + rest, i) == WordAt(h, i) { SameWord(h, rest, i); }
  }

  lemma LastWord(before: Bytes, x: Word32)
    requires |before| == 508
    ensures WordAt(before + Le32(x), 127) == x
  {
    hide WordAt, Le32;
    WordAtOffset(before, x, [], 127);
    assert before + Le32(x) + [] == before + Le32(x);
  }

  lemma SameWord(h: Bytes, rest: Bytes, i: nat)
    requires 4 * i + 4 <= |h|
    ensures WordAt(h + rest, i) == WordAt(h, i)
  {
  }

  lemma TrailerStands(before: Bytes, device: Word32, end: Bytes)
    requires |before| == 288 && |end| == 4
    ensures var s := before + Trailer(device) + end;
      && (if device == 0 then s[288..296] == Zeros(8)
          else s[288..292] == [0x08, 0x29, 0xA7, 0xC8] && WordAt(s, 73) == device)
      && (forall i :: 296 <= i < 508 ==> s[i] == 0)
  {
    hide WordAt, Le32;
    if device != 0 {
      var tag: Bytes := [0x08, 0x29, 0xA7, 0xC8];
      WordAtOffset(before + tag, device, Zeros(212) + end, 73);
      assert before + Trailer(device) + end == before + tag + Le32(device) + (Zeros(212) + end);
    }
  }

  // ---------------------------------------------------------------- the decoder

  /** The local variables of convert_from_uf2 and the global it sets. */
  datatype Decoder = Decoder(
    curraddr: Option<int>, currfamily: Option<Word32>, appstart: Option<int>, families: map<Word32, Word32>, out: Bytes)

  predicate HasFamily(flags: Word32) {
    flags / FLAG_FAMILY % 2 == 1
  }

  /** The loop body of convert_from_uf2 for one block that is not marked as not for flash. */
  function DecodeBlock(d: Decoder, block: Bytes, familyid: Word32): Result<Decoder>
    requires |block| == 512
  {
    var flags, newaddr, datalen, family := WordAt(block, 2), WordAt(block, 3), WordAt(block, 4), WordAt(block, 7);
    if datalen > 476 then Err(DataTooLong)
    else
      var currfamily := if HasFamily(flags) && d.currfamily == None then Some(family) else d.currfamily;
      var restart := d.curraddr == None || (HasFamily(flags) && Some(family) != currfamily);
      var curraddr := if restart then newaddr else d.curraddr.value;
      var appstart := if restart && (familyid == 0 || familyid == family) then Some(newaddr) else d.appstart;
      var padding := newaddr - curraddr;
      if padding < 0 then Err(OutOfOrder)
      else if padding > MAX_PADDING then Err(TooMuchPadding)
      else if padding % 4 != 0 then Err(NonWordPadding)
      else
        var data := if familyid == 0 || (HasFamily(flags) && familyid == family) then block[32..32 + datalen] else [];
        var families :=
          if !HasFamily(flags) || (family in d.families && d.families[family] <= newaddr) then d.families
          else d.families[family := newaddr];
        Ok(Decoder(Some(newaddr + datalen), if restart then Some(family) else currfamily, appstart, families,
                   d.out + Zeros(padding) + data))
  }

  predicate BadBlock(block: Bytes)
    requires |block| == 512
  {
    WordAt(block, 0) != MAGIC_START0 || WordAt(block, 1) != MAGIC_START1
  }

  predicate NotForFlash(block: Bytes)
    requires |block| == 512
  {
    WordAt(block, 2) % 2 == 1
  }

  function BlockAt(buf: Bytes, n: nat): (b: Bytes)
    requires 512 * (n + 1) <= |buf|
    ensures |b| == 512
  {
    buf[512 * n..512 * n + 512]
  }

  /** The first `n` turns of the loop of convert_from_uf2. */
  function DecodeBlocks(buf: Bytes, n: nat, familyid: Word32, appstart: Option<int>): Result<Decoder>
    requires 512 * n <= |buf|
  {
    if n == 0 then Ok(Decoder(None, None, appstart, map[], []))
    else
      var d := DecodeBlocks(buf, n - 1, familyid, appstart);
      var block := BlockAt(buf, n - 1);
      if d.Err? then d
      else if BadBlock(block) then Err(BadMagic)
      else if NotForFlash(block) then d
      else DecodeBlock(d.value, block, familyid)
  }

  /** convert_from_uf2: the bytes it returns and the appstartaddr it leaves. When the last block is for
      flash and several families were found while none was asked for, both are cleared. */
  function Decode(buf: Bytes, familyid: Word32, appstart: Option<int>): Result<(Bytes, Option<int>)> {
    var n := |buf| / 512;
    var d := DecodeBlocks(buf, n, familyid, appstart);
    if d.Err? then Err(d.error)
    else if n > 0 && !NotForFlash(BlockAt(buf, n - 1)) && |d.value.families| > 1 && familyid == 0 then Ok(([], Some(0)))
    else Ok((d.value.out, d.value.appstart))
  }

  /** The bytes of a file are its blocks: each carries its own number, counted from zero, and the number of
      blocks in the file. */
  ghost predicate Numbered(file: Bytes, blocks: nat) {
    && |file| == 512 * blocks
    && forall i :: 0 <= i < blocks ==> WordAt(BlockAt(file, i), 5) == i && WordAt(BlockAt(file, i), 6) == blocks
  }
}
