/** Decoding what the encoders write: the exact outcome for every list of pages, the flat image behind
    it, and the round trip of binary files. */
module Uf2Theorems {
  import opened Words
  import opened Uf2

  /** The first `n` pages laid out one after the other, with zeros in the gaps; it fails as the decoder
      does when a page starts before the end of the one before it or too far behind it. */
  function Assemble(ps: seq<Page>, n: nat): Result<Bytes>
    requires n <= |ps|
  {
    if n == 0 then Ok([])
    else
      var before := Assemble(ps, n - 1);
      if before.Err? then before
      else if n == 1 then Ok(ps[0].bytes)
      else
        var gap := ps[n - 1].addr - (ps[n - 2].addr + |ps[n - 2].bytes|);
        if gap < 0 then Err(OutOfOrder)
        else if gap > MAX_PADDING then Err(TooMuchPadding)
        else if gap % 4 != 0 then Err(NonWordPadding)
        else Ok(before.value + Zeros(gap) + ps[n - 1].bytes)
  }

  // ---------------------------------------------------------------- decoder after encoder

  lemma {:induction false} SectorsAt(ps: seq<Page>, n: nat, i: nat, family: Word32, device: Word32)
    requires FullPages(ps) && Packable(ps) && i < n <= |ps|
    ensures BlockAt(Sectors(ps, n, family, device), i) == Sector(ps[i], i, |ps|, family, device)
    decreases n
  {
    hide Sector;
    var all := Sectors(ps, n, family, device);
    var init := Sectors(ps, n - 1, family, device);
    var last := Sector(ps[n - 1], n - 1, |ps|, family, device);
    assert all == init + last;
    if i < n - 1 {
      SectorsAt(ps, n - 1, i, family, device);
      assert BlockAt(all, i) == BlockAt(init, i);
    } else {
      assert BlockAt(all, i) == last;
    }
  }

  /** Every file of the encoders has its blocks numbered. */
  lemma SectorsAreNumbered(ps: seq<Page>, family: Word32, device: Word32)
    requires FullPages(ps) && Packable(ps)
    ensures Numbered(Sectors(ps, |ps|, family, device), |ps|)
  {
    hide Sector, Sectors, BlockAt, WordAt, Flags;
    forall i | 0 <= i < |ps|
      ensures 512 * (i + 1) <= |Sectors(ps, |ps|, family, device)|
      ensures WordAt(BlockAt(Sectors(ps, |ps|, family, device), i), 5) == i
           && WordAt(BlockAt(Sectors(ps, |ps|, family, device), i), 6) == |ps|
    {
      SectorsAt(ps, |ps|, i, family, device);
      SectorFields(ps[i], i, |ps|, family, device);
    }
  }

  lemma FlagsOf(family: Word32, device: Word32)
    ensures Flags(family, device) % 2 == 0 && (HasFamily(Flags(family, device)) <==> family != 0)
  {
  }

  /** A block of anybody's making that brings these bytes to this address: at most 476 of them, for flash, and
      tagged with a family or not. Block numbers, and whatever is behind the data, do not matter. */
  ghost predicate Carries(block: Bytes, p: Page, tagged: bool, family: Word32)
    requires |block| == 512
  {
    && WordAt(block, 0) == 0x0A324655 && WordAt(block, 1) == 0x9E5D5157
    && WordAt(block, 2) % 2 == 0 && (WordAt(block, 2) / 0x2000 % 2 == 1 <==> tagged)
    && WordAt(block, 3) == p.addr && WordAt(block, 4) == |p.bytes| <= 476
    && (tagged ==> WordAt(block, 7) == family) && block[32..32 + |p.bytes|] == p.bytes
  }

  /** The decoder's state after `n` blocks of one family, or of none, and it keeps them. */
  ghost predicate Decoded(r: Result<Decoder>, ps: seq<Page>, n: nat, tagged: bool, family: Word32,
      appstart: Option<int>)
    requires n <= |ps|
  {
    match Assemble(ps, n)
    case Err(e) => r == Err(e)
    case Ok(out) =>
      && r.Ok?
      && r.value.out == out && r.value.families.Keys == (if n > 0 && tagged then {family} else {})
      && (if n == 0 then r.value == Decoder(None, None, appstart, map[], [])
          else
            && r.value.curraddr == Some(ps[n - 1].addr + |ps[n - 1].bytes|)
            && (tagged ==> r.value.currfamily == Some(family)) && r.value.appstart == Some(ps[0].addr))
  }

  /** The decoder keeps blocks of this kind. */
  predicate Keeps(tagged: bool, family: Word32, familyid: Word32) {
    familyid == 0 || (tagged && familyid == family)
  }

  lemma DecodeOne(r: Result<Decoder>, block: Bytes, ps: seq<Page>, n: nat,
      tagged: bool, family: Word32, familyid: Word32, appstart: Option<int>)
    requires n < |ps| && |block| == 512 && Carries(block, ps[n], tagged, family) && Keeps(tagged, family, familyid)
    requires Decoded(r, ps, n, tagged, family, appstart) && r.Ok?
    ensures !BadBlock(block) && !NotForFlash(block)
    ensures Decoded(DecodeBlock(r.value, block, familyid), ps, n + 1, tagged, family, appstart)
  {
    hide WordAt;
    var d := DecodeBlock(r.value, block, familyid);
    if n == 0 && d.Ok? {
      assert d.value.out == Zeros(0) + ps[0].bytes == ps[0].bytes;
    }
  }

  lemma {:induction false} DecodeMany(buf: Bytes, ps: seq<Page>, n: nat, tagged: bool, family: Word32,
      familyid: Word32, appstart: Option<int>)
    requires n <= |ps| && 512 * |ps| <= |buf| && Keeps(tagged, family, familyid)
    requires forall i :: 0 <= i < |ps| ==> Carries(BlockAt(buf, i), ps[i], tagged, family)
    ensures Decoded(DecodeBlocks(buf, n, familyid, appstart), ps, n, tagged, family, appstart)
    decreases n
  {
    hide Carries, DecodeBlock, BadBlock, NotForFlash, BlockAt;
    if n > 0 {
      DecodeMany(buf, ps, n - 1, tagged, family, familyid, appstart);
      var r := DecodeBlocks(buf, n - 1, familyid, appstart);
      if r.Ok? { DecodeOne(r, BlockAt(buf, n - 1), ps, n - 1, tagged, family, familyid, appstart); }
    }
  }

  /** A file of anybody's making whose blocks are all for flash and all of one family, or all of none: decoding
      succeeds exactly when the data can be assembled, fails with the same error otherwise, and then returns
      the assembled bytes and the first address. Bytes behind the last whole block do not matter. */
  lemma DecodeAnyFile(buf: Bytes, ps: seq<Page>, tagged: bool, family: Word32, familyid: Word32, appstart: Option<int>)
    requires |ps| == |buf| / 512 && Keeps(tagged, family, familyid)
    requires forall i :: 0 <= i < |ps| ==> Carries(BlockAt(buf, i), ps[i], tagged, family)
    ensures Decode(buf, familyid, appstart) ==
      match Assemble(ps, |ps|)
      case Err(e) => Err(e)
      case Ok(out) => Ok((out, if ps == [] then appstart else Some(ps[0].addr)))
  {
    hide Carries, Assemble, DecodeBlocks, NotForFlash, BlockAt;
    DecodeMany(buf, ps, |ps|, tagged, family, familyid, appstart);
    var r := DecodeBlocks(buf, |ps|, familyid, appstart);
    if r.Ok? { FewFamilies(r.value.families, family); }
  }

  lemma SectorCarries(p: Page, no: Word32, total: Word32, family: Word32, device: Word32)
    requires FullPage(p) && p.addr < 0x1_0000_0000
    ensures Carries(Sector(p, no, total, family, device), p, family != 0, family)
  {
    hide Sector, WordAt;
    SectorFields(p, no, total, family, device);
    FlagsOf(family, device);
  }

  /** In particular the sectors of any pages. */
  lemma DecodeIsAssemble(ps: seq<Page>, family: Word32, device: Word32, familyid: Word32, appstart: Option<int>)
    requires FullPages(ps) && Packable(ps) && (familyid == 0 || familyid == family)
    ensures Decode(Sectors(ps, |ps|, family, device), familyid, appstart) ==
      match Assemble(ps, |ps|)
      case Err(e) => Err(e)
      case Ok(out) => Ok((out, if ps == [] then appstart else Some(ps[0].addr)))
  {
    hide Sector, Sectors, Assemble, Decode, Carries, BlockAt;
    var buf := Sectors(ps, |ps|, family, device);
    forall i | 0 <= i < |ps| ensures Carries(BlockAt(buf, i), ps[i], family != 0, family) {
      SectorsAt(ps, |ps|, i, family, device);
      assert FullPage(ps[i]);
      SectorCarries(ps[i], i, |ps|, family, device);
    }
    DecodeAnyFile(buf, ps, family != 0, family, familyid, appstart);
  }

  lemma FewFamilies(m: map<Word32, Word32>, family: Word32)
    requires m.Keys <= {family}
    ensures |m| <= 1
  {
    if family in m { assert m.Keys == {family}; } else { assert m.Keys == {}; }
    assert |m| == |m.Keys|;
  }

  // ---------------------------------------------------------------- the flat image

  /** The pages follow each other, at multiples of four bytes and with gaps of at most 10 MB. */
  ghost predicate Ascending(ps: seq<Page>, n: nat)
    requires n <= |ps|
  {
    forall i :: 0 < i < n ==> 0 <= Gap(ps, i) <= MAX_PADDING && Gap(ps, i) % 4 == 0
  }

  function Gap(ps: seq<Page>, i: nat): int
    requires 0 < i < |ps|
  {
    ps[i].addr - (ps[i - 1].addr + 256)
  }

  /** The byte of the pages at address `a`, or zero. */
  function ByteAt(ps: seq<Page>, n: nat, a: int): Byte
    requires n <= |ps| && FullPages(ps)
  {
    if n == 0 then 0
    else
      assert FullPage(ps[n - 1]);
      if ps[n - 1].addr <= a < ps[n - 1].addr + 256 then ps[n - 1].bytes[a - ps[n - 1].addr]
      else ByteAt(ps, n - 1, a)
  }

  lemma {:induction false} NothingBehind(ps: seq<Page>, n: nat, a: int)
    requires FullPages(ps) && 0 < n <= |ps| && Ascending(ps, n) && a >= ps[n - 1].addr + 256
    ensures ByteAt(ps, n, a) == 0
    decreases n
  {
    if n > 1 {
      assert 0 <= Gap(ps, n - 1);
      NothingBehind(ps, n - 1, a);
    }
  }

  /** Pages can be assembled exactly when they ascend, and the result is the flat image of memory from
      the first page to the end of the last, zero where there is no page. */
  lemma {:induction false} AssembleIsFlat(ps: seq<Page>, n: nat)
    requires FullPages(ps) && n <= |ps|
    ensures Assemble(ps, n).Ok? <==> Ascending(ps, n)
    ensures Ascending(ps, n) ==> var out := Assemble(ps, n).value;
      if n == 0 then out == []
      else
        && |out| == ps[n - 1].addr + 256 - ps[0].addr
        && forall k :: 0 <= k < |out| ==> out[k] == ByteAt(ps, n, ps[0].addr + k)
    decreases n
  {
    hide ByteAt;
    if n > 1 {
      AssembleIsFlat(ps, n - 1);
      assert Ascending(ps, n) ==> Ascending(ps, n - 1);
      if Ascending(ps, n) {
        assert 0 <= Gap(ps, n - 1);
        var out, before := Assemble(ps, n).value, Assemble(ps, n - 1).value;
        forall k | 0 <= k < |out| ensures out[k] == ByteAt(ps, n, ps[0].addr + k) {
          ByteOfLast(ps, n, ps[0].addr + k);
          if |before| <= k < |before| + Gap(ps, n - 1) { NothingBehind(ps, n - 1, ps[0].addr + k); }
        }
      } else if Ascending(ps, n - 1) {
        assert !(0 <= Gap(ps, n - 1) <= MAX_PADDING && Gap(ps, n - 1) % 4 == 0);
      }
    } else if n == 1 {
      forall k | 0 <= k < 256 ensures ps[0].bytes[k] == ByteAt(ps, 1, ps[0].addr + k) {
        ByteOfLast(ps, 1, ps[0].addr + k);
      }
    }
  }

  lemma ByteOfLast(ps: seq<Page>, n: nat, a: int)
    requires FullPages(ps) && 0 < n <= |ps|
    ensures ByteAt(ps, n, a) ==
      if ps[n - 1].addr <= a < ps[n - 1].addr + 256 then ps[n - 1].bytes[a - ps[n - 1].addr]
      else ByteAt(ps, n - 1, a)
  {
  }

  // ---------------------------------------------------------------- binary files

  /** The content padded with zeros to a multiple of 256 bytes. */
  function Padded(content: Bytes): (b: Bytes) {
    content + Zeros((256 - |content| % 256) % 256)
  }

  function BlockCount(content: Bytes): nat {
    (|content| + 255) / 256
  }

  /** The 256 bytes at page `i` of the content, zero-padded. */
  function Chunk(content: Bytes, i: nat): (b: Bytes)
    requires i < BlockCount(content)
    ensures |b| == 256
  {
    var chunk := content[256 * i..if 256 * i + 256 <= |content| then 256 * i + 256 else |content|];
    chunk + Zeros(256 - |chunk|)
  }

  /** Whether all sector addresses fit struct.pack's unsigned 32 bits. */
  predicate AddressesFit(content: Bytes, base: int) {
    content == [] || (0 <= base && base + 256 * (BlockCount(content) - 1) < 0x1_0000_0000)
  }

  /** The pages of convert_to_uf2. */
  function PagesOf(content: Bytes, base: int, n: nat): (ps: seq<Page>)
    requires n <= BlockCount(content) && AddressesFit(content, base)
    ensures |ps| == n
    ensures forall i :: 0 <= i < n ==> ps[i] == Page(base + 256 * i, Chunk(content, i))
  {
    if n == 0 then [] else PagesOf(content, base, n - 1) + [Page(base + 256 * (n - 1), Chunk(content, n - 1))]
  }

  /** convert_to_uf2 */
  function ToUf2(content: Bytes, base: int, family: Word32): Result<Bytes>
  {
    if !AddressesFit(content, base) then Err(PackError)
    else
      var ps := PagesOf(content, base, BlockCount(content));
      Ok(Sectors(ps, |ps|, family, 0))
  }

  lemma PaddedLength(content: Bytes)
    ensures |Padded(content)| == 256 * BlockCount(content)
  {
  }

  lemma ChunkIsPart(content: Bytes, i: nat)
    requires i < BlockCount(content)
    ensures 256 * i + 256 <= |Padded(content)|
    ensures Chunk(content, i) == Padded(content)[256 * i..256 * i + 256]
  {
    PaddedLength(content);
  }

  lemma {:induction false} ChunksMakeContent(content: Bytes, base: int, n: nat)
    requires 0 < n <= BlockCount(content) && AddressesFit(content, base)
    ensures var ps := PagesOf(content, base, BlockCount(content));
      Assemble(ps, n) == Ok(Padded(content)[..256 * n])
    ensures 256 * n <= |Padded(content)|
    decreases n
  {
    hide Chunk, Padded;
    var ps, all := PagesOf(content, base, BlockCount(content)), Padded(content);
    PaddedLength(content);
    ChunkIsPart(content, n - 1);
    if n > 1 {
      ChunksMakeContent(content, base, n - 1);
      assert all[..256 * (n - 1)] + Zeros(0) + all[256 * (n - 1)..256 * n] == all[..256 * n];
    }
  }

  /** A conversion works exactly if the content is empty or the pages of its first and last byte have 32-bit
      addresses. */
  lemma ConvertsIfItFits(content: Bytes, base: int, family: Word32)
    ensures ToUf2(content, base, family).Ok?
       <==> content == [] || (base >= 0 && base + (|content| - 1) / 256 * 256 <= 0xFFFF_FFFF)
    ensures ToUf2(content, base, family).Err? ==> ToUf2(content, base, family).error == PackError
  {
    hide PagesOf, Sectors;
  }

  /** convert_to_uf2 numbers its blocks, and block `i` carries page `i` of the content, its address and the
      family. */
  lemma ContentIsNumbered(content: Bytes, base: int, family: Word32, i: nat)
    requires ToUf2(content, base, family).Ok? && i < BlockCount(content)
    ensures var file := ToUf2(content, base, family).value;
      && Numbered(file, BlockCount(content))
      && WordAt(BlockAt(file, i), 3) == base + 256 * i && WordAt(BlockAt(file, i), 7) == family
      && 256 * i + 256 <= |Padded(content)| && BlockAt(file, i)[32..288] == Padded(content)[256 * i..256 * i + 256]
  {
    hide Sector, Sectors, BlockAt, WordAt, Flags, Numbered, Chunk, Padded;
    var ps := PagesOf(content, base, BlockCount(content));
    SectorsAreNumbered(ps, family, 0);
    SectorsAt(ps, |ps|, i, family, 0);
    SectorFields(ps[i], i, |ps|, family, 0);
    ChunkIsPart(content, i);
  }

  /** Round trip: converting any content to UF2 and back gives it zero-padded to whole pages and, unless
      it was empty, the base address again, whether the decoder is asked for the encoder's family or for
      any. Every sector is 512 bytes. */
  lemma RoundTrip(content: Bytes, base: int, family: Word32, familyid: Word32, appstart: Option<int>)
    requires ToUf2(content, base, family).Ok? && (familyid == 0 || familyid == family)
    ensures |ToUf2(content, base, family).value| == 512 * BlockCount(content)
    ensures Decode(ToUf2(content, base, family).value, familyid, appstart)
         == Ok((Padded(content), if content == [] then appstart else Some(base)))
  {
    hide Sectors, Decode, Assemble, Chunk;
    var ps := PagesOf(content, base, BlockCount(content));
    DecodeIsAssemble(ps, family, 0, familyid, appstart);
    if content != [] {
      ChunksMakeContent(content, base, BlockCount(content));
      assert Padded(content)[..256 * BlockCount(content)] == Padded(content);
    } else {
      AssembleIsFlat(ps, 0);
    }
  }
}
