/** Files that hold sectors of two families: what the decoder of util/uf2conv.py makes of them when it
    is asked for one of the two, or for none. */
module Uf2Families {
  import opened Words
  import opened Uf2
  import opened Uf2Theorems

  /** The sum of the gaps between the first `n` pages. */
  function GapSum(ps: seq<Page>, n: nat): int
    requires n <= |ps|
  {
    if n < 2 then 0 else GapSum(ps, n - 1) + Gap(ps, n - 1)
  }

  lemma {:induction false} GapSumIsPositive(ps: seq<Page>, n: nat)
    requires n <= |ps| && FullPages(ps) && Assemble(ps, n).Ok?
    ensures GapSum(ps, n) >= 0
    decreases n
  {
    if n >= 2 { GapSumIsPositive(ps, n - 1); }
  }

  /** The gaps are all empty exactly when the pages are contiguous. */
  lemma {:induction false} NoGaps(ps: seq<Page>, n: nat)
    requires n <= |ps| && FullPages(ps) && Assemble(ps, n).Ok?
    ensures GapSum(ps, n) == 0 <==> forall i :: 0 < i < n ==> Gap(ps, i) == 0
    decreases n
  {
    if n >= 2 {
      NoGaps(ps, n - 1);
      GapSumIsPositive(ps, n - 1);
      GapSumIsPositive(ps, n);
      assert Gap(ps, n - 1) >= 0;
    }
  }

  /** What the decoder writes for the first `n` pages of a family: their bytes and the gaps between them
      if the family is wanted, and only the gaps if it is not. */
  function Kept(ps: seq<Page>, n: nat, wanted: bool): (b: Bytes)
    requires n <= |ps| && FullPages(ps) && Assemble(ps, n).Ok?
  {
    GapSumIsPositive(ps, n);
    if wanted then Assemble(ps, n).value else Zeros(GapSum(ps, n))
  }

  predicate Wanted(family: Word32, familyid: Word32) {
    familyid == 0 || familyid == family
  }

  // ---------------------------------------------------------------- one part of the file

  /** The decoder has met nothing yet, or last a sector of another family. */
  predicate StartsAfresh(d: Decoder, family: Word32) {
    if d.curraddr == None then d.currfamily == None else d.currfamily.Some? && d.currfamily != Some(family)
  }

  /** The decoder's state after `n` pages of a family, met in state `d`. */
  ghost predicate After(r: Result<Decoder>, d: Decoder, ps: seq<Page>, n: nat, family: Word32, familyid: Word32)
    requires n <= |ps| && FullPages(ps)
  {
    match Assemble(ps, n)
    case Err(e) => r == Err(e)
    case Ok(_) =>
      if n == 0 then r == Ok(d)
      else
        && r.Ok? && r.value.curraddr == Some(ps[n - 1].addr + 256) && r.value.currfamily == Some(family)
        && r.value.families.Keys == d.families.Keys + {family}
        && r.value.appstart == (if Wanted(family, familyid) then Some(ps[0].addr) else d.appstart)
        && r.value.out == d.out + Kept(ps, n, Wanted(family, familyid))
  }

  /** One sector of a family, met in any state. */
  lemma OneSector(d: Decoder, block: Bytes, p: Page, no: Word32, total: Word32,
      family: Word32, device: Word32, familyid: Word32)
    requires FullPage(p) && p.addr < 0x1_0000_0000 && block == Sector(p, no, total, family, device)
    requires family != 0 && (d.curraddr == None <==> d.currfamily == None)
    ensures !BadBlock(block) && !NotForFlash(block)
    ensures var restart := d.curraddr == None || d.currfamily != Some(family);
      var gap := if restart then 0 else p.addr - d.curraddr.value;
      var r := DecodeBlock(d, block, familyid);
      if gap < 0 then r == Err(OutOfOrder)
      else if gap > MAX_PADDING then r == Err(TooMuchPadding)
      else if gap % 4 != 0 then r == Err(NonWordPadding)
      else
        && r.Ok? && r.value.curraddr == Some(p.addr + 256) && r.value.currfamily == Some(family)
        && r.value.families.Keys == d.families.Keys + {family}
        && r.value.appstart == (if restart && Wanted(family, familyid) then Some(p.addr) else d.appstart)
        && r.value.out == d.out + Zeros(gap) + if Wanted(family, familyid) then p.bytes else []
  {
    hide Sector, WordAt, Flags, HasFamily;
    SectorFields(p, no, total, family, device);
    FlagsOf(family, device);
    assert block[32..32 + 256] == p.bytes;
  }

  /** How assembling one more page goes. */
  lemma AssembleNext(ps: seq<Page>, n: nat)
    requires n < |ps| && FullPages(ps) && Assemble(ps, n).Ok?
    ensures var gap := if n == 0 then 0 else Gap(ps, n); var next := Assemble(ps, n + 1);
      if gap < 0 then next == Err(OutOfOrder)
      else if gap > MAX_PADDING then next == Err(TooMuchPadding)
      else if gap % 4 != 0 then next == Err(NonWordPadding)
      else next.Ok? && forall wanted ::
        Kept(ps, n + 1, wanted) == Kept(ps, n, wanted) + Zeros(gap) + if wanted then ps[n].bytes else []
  {
    GapSumIsPositive(ps, n);
    if n > 0 { assert FullPage(ps[n - 1]); }
    if n == 0 { assert [] + Zeros(0) + ps[0].bytes == ps[0].bytes; }
  }

  lemma PartStep(r: Result<Decoder>, d: Decoder, block: Bytes, ps: seq<Page>, n: nat,
      family: Word32, device: Word32, familyid: Word32)
    requires FullPages(ps) && Packable(ps) && n < |ps| && family != 0 && StartsAfresh(d, family)
    requires After(r, d, ps, n, family, familyid) && r.Ok? && block == Sector(ps[n], n, |ps|, family, device)
    ensures !BadBlock(block) && !NotForFlash(block)
    ensures After(DecodeBlock(r.value, block, familyid), d, ps, n + 1, family, familyid)
  {
    hide Sector, DecodeBlock, BadBlock, NotForFlash, Assemble, GapSum, Zeros, Kept;
    OneSector(r.value, block, ps[n], n, |ps|, family, device, familyid);
    AssembleNext(ps, n);
    if n == 0 { KeptNothing(ps); }
    var wanted := Wanted(family, familyid);
    if Assemble(ps, n + 1).Ok? {
      var gap := if n == 0 then 0 else Gap(ps, n);
      Regroup(d.out, Kept(ps, n, wanted), Zeros(gap), if wanted then ps[n].bytes else []);
    }
  }

  lemma KeptNothing(ps: seq<Page>)
    requires FullPages(ps)
    ensures Assemble(ps, 0).Ok? && forall wanted :: Kept(ps, 0, wanted) == []
  {
  }

  lemma Regroup(a: Bytes, b: Bytes, c: Bytes, e: Bytes)
    ensures a + b + c + e == a + (b + c + e)
    ensures b == [] ==> a + b == a
  {
  }

  /** A stretch of a file that holds the sectors of one family, after `m` sectors of others. */
  lemma {:induction false} PartDecodes(buf: Bytes, m: nat, d: Decoder, ps: seq<Page>, n: nat,
      family: Word32, device: Word32, familyid: Word32, appstart: Option<int>)
    requires FullPages(ps) && Packable(ps) && n <= |ps| && family != 0 && StartsAfresh(d, family)
    requires 512 * (m + |ps|) <= |buf| && DecodeBlocks(buf, m, familyid, appstart) == Ok(d)
    requires forall i :: 0 <= i < |ps| ==> BlockAt(buf, m + i) == Sector(ps[i], i, |ps|, family, device)
    ensures After(DecodeBlocks(buf, m + n, familyid, appstart), d, ps, n, family, familyid)
    decreases n
  {
    hide Sector, DecodeBlock, BadBlock, NotForFlash, BlockAt, Kept, StartsAfresh, Packable, FullPages;
    if n > 0 {
      PartDecodes(buf, m, d, ps, n - 1, family, device, familyid, appstart);
      var r := DecodeBlocks(buf, m + n - 1, familyid, appstart);
      if r.Ok? { PartStep(r, d, BlockAt(buf, m + (n - 1)), ps, n - 1, family, device, familyid); }
    }
  }

  // ---------------------------------------------------------------- files of any stretches

  /** Sectors of one family that stand together in the file. */
  datatype Stretch = Stretch(pages: seq<Page>, family: Word32)

  ghost predicate Good(s: Stretch) {
    s.pages != [] && FullPages(s.pages) && Packable(s.pages) && s.family != 0
  }

  /** Stretches as a file falls into them: where one ends, another family begins. */
  ghost predicate WellFormed(ss: seq<Stretch>) {
    && (forall i :: 0 <= i < |ss| ==> Good(ss[i]))
    && (forall i :: 0 < i < |ss| ==> ss[i - 1].family != ss[i].family)
  }

  /** The number of sectors in the first `n` stretches. */
  function Count(ss: seq<Stretch>, n: nat): nat
    requires n <= |ss|
  {
    if n == 0 then 0 else Count(ss, n - 1) + |ss[n - 1].pages|
  }

  /** The file of the first `n` stretches. */
  function FileOf(ss: seq<Stretch>, n: nat, device: Word32): (b: Bytes)
    requires n <= |ss| && WellFormed(ss)
    ensures |b| == 512 * Count(ss, n)
  {
    if n == 0 then []
    else
      var s := ss[n - 1];
      assert Good(s);
      FileOf(ss, n - 1, device) + Sectors(s.pages, |s.pages|, s.family, device)
  }

  /** What the stretches make together: of each one what is kept of it, one after the other. */
  function Combined(ss: seq<Stretch>, n: nat, familyid: Word32): Result<Bytes>
    requires n <= |ss| && WellFormed(ss)
  {
    if n == 0 then Ok([])
    else
      var before, s := Combined(ss, n - 1, familyid), ss[n - 1];
      assert Good(s);
      if before.Err? then before
      else if Assemble(s.pages, |s.pages|).Err? then Err(Assemble(s.pages, |s.pages|).error)
      else Ok(before.value + Kept(s.pages, |s.pages|, Wanted(s.family, familyid)))
  }

  /** The address of the last stretch that is wanted. */
  function LastWanted(ss: seq<Stretch>, n: nat, familyid: Word32, appstart: Option<int>): Option<int>
    requires n <= |ss| && WellFormed(ss)
  {
    if n == 0 then appstart
    else if Wanted(ss[n - 1].family, familyid) then (assert Good(ss[n - 1]); Some(ss[n - 1].pages[0].addr))
    else LastWanted(ss, n - 1, familyid, appstart)
  }

  function Families(ss: seq<Stretch>, n: nat): set<Word32>
    requires n <= |ss|
  {
    if n == 0 then {} else Families(ss, n - 1) + {ss[n - 1].family}
  }

  lemma {:induction false} CountGrows(ss: seq<Stretch>, m: nat, n: nat)
    requires m <= n <= |ss|
    ensures Count(ss, m) <= Count(ss, n)
    decreases n
  {
    if m < n { CountGrows(ss, m, n - 1); }
  }

  lemma BlockBefore(a: Bytes, b: Bytes, i: nat)
    requires 512 * (i + 1) <= |a|
    ensures BlockAt(a + b, i) == BlockAt(a, i)
  {
  }

  lemma BlockBehind(a: Bytes, b: Bytes, m: nat, i: nat)
    requires |a| == 512 * m && 512 * (i + 1) <= |b|
    ensures BlockAt(a + b, m + i) == BlockAt(b, i)
  {
  }

  /** Where the sectors of a stretch stand in the file. */
  lemma {:induction false} BlocksOfFile(ss: seq<Stretch>, n: nat, i: nat, j: nat, device: Word32)
    requires WellFormed(ss) && i < n <= |ss| && Good(ss[i]) && j < |ss[i].pages|
    ensures 512 * (Count(ss, i) + j + 1) <= |FileOf(ss, n, device)|
    ensures BlockAt(FileOf(ss, n, device), Count(ss, i) + j)
         == Sector(ss[i].pages[j], j, |ss[i].pages|, ss[i].family, device)
    decreases n
  {
    hide Sector, Sectors, BlockAt;
    CountGrows(ss, i + 1, n);
    var s := ss[n - 1];
    assert Good(s);
    var a, b := FileOf(ss, n - 1, device), Sectors(s.pages, |s.pages|, s.family, device);
    if i < n - 1 {
      BlocksOfFile(ss, n - 1, i, j, device);
      BlockBefore(a, b, Count(ss, i) + j);
    } else {
      BlockBehind(a, b, Count(ss, i), j);
      SectorsAt(s.pages, |s.pages|, j, s.family, device);
    }
  }

  lemma BlocksOfStretch(ss: seq<Stretch>, i: nat, device: Word32)
    requires WellFormed(ss) && i < |ss| && Good(ss[i])
    ensures 512 * (Count(ss, i) + |ss[i].pages|) <= |FileOf(ss, |ss|, device)|
    ensures forall j :: 0 <= j < |ss[i].pages| ==>
      BlockAt(FileOf(ss, |ss|, device), Count(ss, i) + j)
      == Sector(ss[i].pages[j], j, |ss[i].pages|, ss[i].family, device)
  {
    hide Sector, BlockAt, FileOf;
    CountGrows(ss, i + 1, |ss|);
    forall j | 0 <= j < |ss[i].pages|
      ensures BlockAt(FileOf(ss, |ss|, device), Count(ss, i) + j)
           == Sector(ss[i].pages[j], j, |ss[i].pages|, ss[i].family, device)
    {
      BlocksOfFile(ss, |ss|, i, j, device);
    }
  }

  /** The decoder's state after the first `n` stretches. */
  ghost predicate AfterStretches(r: Result<Decoder>, ss: seq<Stretch>, n: nat, familyid: Word32, appstart: Option<int>)
    requires n <= |ss| && WellFormed(ss)
  {
    match Combined(ss, n, familyid)
    case Err(e) => r == Err(e)
    case Ok(out) =>
      && r.Ok? && r.value.out == out && r.value.families.Keys == Families(ss, n)
      && r.value.appstart == LastWanted(ss, n, familyid, appstart)
      && (if n == 0 then r.value.curraddr == None && r.value.currfamily == None
          else r.value.curraddr.Some? && r.value.currfamily == Some(ss[n - 1].family))
  }

  lemma {:induction false} StretchesDecode(ss: seq<Stretch>, n: nat, device: Word32, familyid: Word32,
      appstart: Option<int>)
    requires WellFormed(ss) && n <= |ss| && 512 * Count(ss, n) <= |FileOf(ss, |ss|, device)|
    ensures AfterStretches(DecodeBlocks(FileOf(ss, |ss|, device), Count(ss, n), familyid, appstart),
                           ss, n, familyid, appstart)
    decreases n
  {
    hide Sector, DecodeBlock, BadBlock, NotForFlash, BlockAt, FileOf, Kept, Wanted, Assemble, Packable, FullPages;
    if n > 0 {
      var buf, s, m := FileOf(ss, |ss|, device), ss[n - 1], Count(ss, n - 1);
      assert Good(s);
      CountGrows(ss, n, |ss|);
      hide DecodeBlocks;
      StretchesDecode(ss, n - 1, device, familyid, appstart);
      var r := DecodeBlocks(buf, m, familyid, appstart);
      if r.Ok? {
        BlocksOfStretch(ss, n - 1, device);
        PartDecodes(buf, m, r.value, s.pages, |s.pages|, s.family, device, familyid, appstart);
      } else {
        ErrorStays(buf, m, m + |s.pages|, familyid, appstart);
      }
    }
  }

  lemma {:induction false} ErrorStays(buf: Bytes, m: nat, n: nat, familyid: Word32, appstart: Option<int>)
    requires m <= n && 512 * n <= |buf| && DecodeBlocks(buf, m, familyid, appstart).Err?
    ensures DecodeBlocks(buf, n, familyid, appstart) == DecodeBlocks(buf, m, familyid, appstart)
    decreases n
  {
    hide DecodeBlock, BadBlock, NotForFlash;
    if m < n { ErrorStays(buf, m, n - 1, familyid, appstart); }
  }

  lemma ForFlash(p: Page, no: Word32, total: Word32, family: Word32, device: Word32)
    requires FullPage(p) && p.addr < 0x1_0000_0000
    ensures !NotForFlash(Sector(p, no, total, family, device))
  {
    hide Sector, WordAt, Flags;
    SectorFields(p, no, total, family, device);
    FlagsOf(family, device);
  }

  lemma LastIsForFlash(ss: seq<Stretch>, device: Word32)
    requires WellFormed(ss) && ss != []
    ensures Count(ss, |ss|) > 0 && !NotForFlash(BlockAt(FileOf(ss, |ss|, device), Count(ss, |ss|) - 1))
  {
    hide Sector, BlockAt, NotForFlash, FileOf;
    var i := |ss| - 1;
    assert Good(ss[i]);
    var j := |ss[i].pages| - 1;
    BlocksOfFile(ss, |ss|, i, j, device);
    ForFlash(ss[i].pages[j], j, |ss[i].pages|, ss[i].family, device);
  }

  /** Two stretches that follow each other are of two families. */
  lemma ManyFamilies(ss: seq<Stretch>, m: map<Word32, Word32>)
    requires WellFormed(ss) && m.Keys == Families(ss, |ss|)
    ensures |m| > 1 <==> |ss| > 1
  {
    assert |m| == |m.Keys|;
    var n := |ss|;
    if n > 1 {
      var two := {ss[n - 2].family, ss[n - 1].family};
      assert two <= m.Keys && |two| == 2;
      assert m.Keys == two + (m.Keys - two);
    } else if n == 1 {
      assert Families(ss, 1) == {ss[0].family};
    }
  }

  /** A file that holds sectors of any families in any number of stretches, whatever family is asked for.
      It fails as the first of the stretches does that fails. Otherwise, asked for no family when it holds
      several stretches, the decoder returns nothing and address zero; or else it returns what is kept of
      each stretch, one after the other: the image of a stretch that is wanted, without the gap to the one
      before it, and for any other stretch one zero for every byte of gap between its pages. The address
      it leaves is that of the last stretch that is wanted. */
  lemma DecodeStretches(ss: seq<Stretch>, device: Word32, familyid: Word32, appstart: Option<int>)
    requires WellFormed(ss)
    ensures Decode(FileOf(ss, |ss|, device), familyid, appstart) ==
      match Combined(ss, |ss|, familyid)
      case Err(e) => Err(e)
      case Ok(out) =>
        if familyid == 0 && |ss| > 1 then Ok(([], Some(0))) else Ok((out, LastWanted(ss, |ss|, familyid, appstart)))
  {
    hide DecodeBlocks, Combined, BlockAt, NotForFlash, FileOf, LastWanted, Families;
    StretchesDecode(ss, |ss|, device, familyid, appstart);
    var r := DecodeBlocks(FileOf(ss, |ss|, device), Count(ss, |ss|), familyid, appstart);
    if r.Ok? { ManyFamilies(ss, r.value.families); }
    if ss != [] { LastIsForFlash(ss, device); }
  }

  // ---------------------------------------------------------------- when a family comes out exactly

  /** All pages of a family, in the order of the file. */
  function OwnPages(ss: seq<Stretch>, n: nat, family: Word32): (ps: seq<Page>)
    requires n <= |ss| && WellFormed(ss)
    ensures FullPages(ps)
  {
    if n == 0 then []
    else
      assert Good(ss[n - 1]);
      OwnPages(ss, n - 1, family) + if ss[n - 1].family == family then ss[n - 1].pages else []
  }

  ghost predicate Contiguous(ps: seq<Page>) {
    forall i :: 0 < i < |ps| ==> Gap(ps, i) == 0
  }

  /** The family stands in one stretch at most. */
  ghost predicate InOneStretch(ss: seq<Stretch>, n: nat, family: Word32)
    requires n <= |ss|
  {
    forall i, j :: 0 <= i < j < n ==> ss[i].family != family || ss[j].family != family
  }

  /** No stretch of another family has a gap between its pages. */
  ghost predicate OthersContiguous(ss: seq<Stretch>, n: nat, family: Word32)
    requires n <= |ss|
  {
    forall i :: 0 <= i < n && ss[i].family != family ==> Contiguous(ss[i].pages)
  }

  /** None of the first `n` stretches is of the family. */
  ghost predicate NoneOf(ss: seq<Stretch>, n: nat, family: Word32)
    requires n <= |ss|
  {
    forall i :: 0 <= i < n ==> ss[i].family != family
  }

  lemma {:induction false} NoneYet(ss: seq<Stretch>, n: nat, family: Word32)
    requires WellFormed(ss) && n <= |ss|
    ensures OwnPages(ss, n, family) == [] <==> NoneOf(ss, n, family)
    decreases n
  {
    if n > 0 {
      NoneYet(ss, n - 1, family);
      assert Good(ss[n - 1]);
    }
  }

  /** What comes out of the first `n` stretches for a family in one stretch: its image, and as many bytes
      more as the others have gaps. */
  ghost predicate OneStretchOut(ss: seq<Stretch>, n: nat, family: Word32, appstart: Option<int>)
    requires n <= |ss| && WellFormed(ss) && Combined(ss, n, family).Ok?
  {
    var own := OwnPages(ss, n, family); var out := Combined(ss, n, family).value;
      && Assemble(own, |own|).Ok?
      && |out| >= |Assemble(own, |own|).value|
      && (OthersContiguous(ss, n, family) ==> out == Assemble(own, |own|).value)
      && (|out| == |Assemble(own, |own|).value| ==> OthersContiguous(ss, n, family))
      && LastWanted(ss, n, family, appstart) == if own == [] then appstart else Some(own[0].addr)
  }

  lemma OtherStretch(ss: seq<Stretch>, n: nat, family: Word32, appstart: Option<int>)
    requires WellFormed(ss) && 0 < n <= |ss| && family != 0 && ss[n - 1].family != family
    requires Combined(ss, n, family).Ok? && OneStretchOut(ss, n - 1, family, appstart)
    ensures OneStretchOut(ss, n, family, appstart)
  {
    hide Assemble, Gap, GapSum, Zeros, WellFormed;
    var s, own, before := ss[n - 1], OwnPages(ss, n - 1, family), Combined(ss, n - 1, family).value;
    IsGood(ss, n - 1);
    assert own + [] == own;
    NoGaps(s.pages, |s.pages|);
    GapSumIsPositive(s.pages, |s.pages|);
    ZerosBehind(before, GapSum(s.pages, |s.pages|));
    OthersGrow(ss, n, family);
    assert Combined(ss, n, family).value == before + Zeros(GapSum(s.pages, |s.pages|));
  }

  lemma OwnStretch(ss: seq<Stretch>, n: nat, family: Word32, appstart: Option<int>)
    requires WellFormed(ss) && 0 < n <= |ss| && family != 0 && ss[n - 1].family == family
    requires InOneStretch(ss, n, family)
    requires Combined(ss, n, family).Ok? && OneStretchOut(ss, n - 1, family, appstart)
    ensures OneStretchOut(ss, n, family, appstart)
  {
    hide Assemble, Gap, GapSum, Zeros, WellFormed;
    var s, own, before := ss[n - 1], OwnPages(ss, n - 1, family), Combined(ss, n - 1, family).value;
    IsGood(ss, n - 1);
    NoneYet(ss, n - 1, family);
    NothingAssembled();
    assert own == [] && own + s.pages == s.pages;
    OthersGrow(ss, n, family);
    var image := Assemble(s.pages, |s.pages|).value;
    assert Combined(ss, n, family).value == before + image;
    if before == [] { assert before + image == image; }
  }

  lemma OthersGrow(ss: seq<Stretch>, n: nat, family: Word32)
    requires 0 < n <= |ss|
    ensures OthersContiguous(ss, n, family) <==>
      OthersContiguous(ss, n - 1, family) && (ss[n - 1].family != family ==> Contiguous(ss[n - 1].pages))
  {
    hide Contiguous;
  }

  lemma IsGood(ss: seq<Stretch>, i: nat)
    requires WellFormed(ss) && i < |ss|
    ensures Good(ss[i])
  {
  }

  lemma {:induction false} OneStretch(ss: seq<Stretch>, n: nat, family: Word32, appstart: Option<int>)
    requires WellFormed(ss) && n <= |ss| && family != 0 && InOneStretch(ss, n, family) && Combined(ss, n, family).Ok?
    ensures OneStretchOut(ss, n, family, appstart)
    decreases n
  {
    if n == 0 {
      NothingAssembled();
    } else {
      OneStretch(ss, n - 1, family, appstart);
      hide OneStretchOut, Combined;
      if ss[n - 1].family == family {
        OwnStretch(ss, n, family, appstart);
      } else {
        OtherStretch(ss, n, family, appstart);
      }
    }
  }

  lemma NothingAssembled()
    ensures Assemble([], 0) == Ok([])
  {
  }

  lemma ZerosBehind(out: Bytes, n: nat)
    ensures out + Zeros(n) == out <==> n == 0
    ensures Zeros(n) + out == out <==> n == 0
  {
    assert |out + Zeros(n)| == |Zeros(n) + out| == |out| + n;
    if n == 0 { assert out + Zeros(0) == out == Zeros(0) + out; }
  }

  /** Where the family's last stretch starts among its pages. */
  function LastStart(ss: seq<Stretch>, n: nat, family: Word32): nat
    requires n <= |ss| && WellFormed(ss)
  {
    if n == 0 then 0
    else if ss[n - 1].family == family then |OwnPages(ss, n - 1, family)|
    else LastStart(ss, n - 1, family)
  }

  lemma SomePage(front: seq<Page>, pages: seq<Page>)
    requires pages != []
    ensures (front + pages)[|front|] == pages[0]
  {
  }

  /** The address returned is that of the first page there. */
  lemma {:induction false} LastStartAddress(ss: seq<Stretch>, n: nat, family: Word32, appstart: Option<int>)
    requires WellFormed(ss) && n <= |ss| && family != 0 && OwnPages(ss, n, family) != []
    ensures var k, own := LastStart(ss, n, family), OwnPages(ss, n, family);
      k < |own| && LastWanted(ss, n, family, appstart) == Some(own[k].addr)
    decreases n
  {
    hide WellFormed, FullPages, Packable;
    IsGood(ss, n - 1);
    if ss[n - 1].family == family {
      SomePage(OwnPages(ss, n - 1, family), ss[n - 1].pages);
    } else {
      assert OwnPages(ss, n - 1, family) + [] == OwnPages(ss, n - 1, family);
      LastStartAddress(ss, n - 1, family, appstart);
    }
  }

  /** It is the family's first page exactly if the family has one stretch. */
  lemma {:induction false} LastStartIsFirst(ss: seq<Stretch>, n: nat, family: Word32)
    requires WellFormed(ss) && n <= |ss|
    ensures LastStart(ss, n, family) == 0 <==> InOneStretch(ss, n, family)
    decreases n
  {
    hide WellFormed, OwnPages, NoneOf;
    if n > 0 {
      hide InOneStretch;
      NoneYet(ss, n - 1, family);
      OneMoreStretch(ss, n, family);
      LastStartIsFirst(ss, n - 1, family);
    }
  }

  lemma OneMoreStretch(ss: seq<Stretch>, n: nat, family: Word32)
    requires 0 < n <= |ss|
    ensures InOneStretch(ss, n, family) <==>
      InOneStretch(ss, n - 1, family)
      && (ss[n - 1].family == family ==> NoneOf(ss, n - 1, family))
    ensures NoneOf(ss, n - 1, family) ==> InOneStretch(ss, n - 1, family)
  {
  }

  lemma {:induction false} AscendingAddresses(ps: seq<Page>, k: nat)
    requires FullPages(ps) && k < |ps| && Assemble(ps, |ps|).Ok?
    ensures ps[0].addr <= ps[k].addr && (k > 0 ==> ps[0].addr < ps[k].addr)
    decreases k
  {
    AssembleIsFlat(ps, |ps|);
    if k > 0 {
      AscendingAddresses(ps, k - 1);
      assert 0 <= Gap(ps, k);
    }
  }

  /** Picking one family out of a file gives what a file of that family's sectors alone gives, exactly if
      every stretch decodes, the family stands in one stretch at most, and the pages of every stretch of
      another family are contiguous. */
  lemma SelectionIsExact(ss: seq<Stretch>, family: Word32, device: Word32, appstart: Option<int>)
    requires WellFormed(ss) && family != 0 && Packable(OwnPages(ss, |ss|, family))
    ensures var own := OwnPages(ss, |ss|, family); var r := Decode(FileOf(ss, |ss|, device), family, appstart);
      r.Ok? && r == Decode(Sectors(own, |own|, family, device), family, appstart)
      <==>
      && (forall i :: 0 <= i < |ss| ==> Assemble(ss[i].pages, |ss[i].pages|).Ok?)
      && InOneStretch(ss, |ss|, family) && OthersContiguous(ss, |ss|, family)
  {
    hide Decode, FileOf, Sectors, Assemble, Combined, LastWanted, OwnPages, InOneStretch, OthersContiguous, Packable;
    var own, n := OwnPages(ss, |ss|, family), |ss|;
    DecodeStretches(ss, device, family, appstart);
    DecodeIsAssemble(own, family, device, family, appstart);
    CombinedSucceeds(ss, n, family);
    if Combined(ss, n, family).Ok? {
      if InOneStretch(ss, n, family) {
        OneStretch(ss, n, family, appstart);
      } else {
        if own == [] { NoneIsOne(ss, n, family); }
        LastStartAddress(ss, n, family, appstart);
        LastStartIsFirst(ss, n, family);
        if Assemble(own, |own|).Ok? { AscendingAddresses(own, LastStart(ss, n, family)); }
      }
    }
  }

  lemma NoneIsOne(ss: seq<Stretch>, n: nat, family: Word32)
    requires WellFormed(ss) && n <= |ss| && OwnPages(ss, n, family) == []
    ensures InOneStretch(ss, n, family)
  {
    NoneYet(ss, n, family);
  }

  lemma {:induction false} CombinedSucceeds(ss: seq<Stretch>, n: nat, familyid: Word32)
    requires WellFormed(ss) && n <= |ss|
    ensures Combined(ss, n, familyid).Ok? <==> forall i :: 0 <= i < n ==> Assemble(ss[i].pages, |ss[i].pages|).Ok?
    decreases n
  {
    hide Assemble, Kept;
    if n > 0 { CombinedSucceeds(ss, n - 1, familyid); }
  }

  // ---------------------------------------------------------------- files of two stretches

  /** The file: all sectors of one family, then all of another. */
  function TwoParts(ps: seq<Page>, qs: seq<Page>, family: Word32, other: Word32, device: Word32): (b: Bytes)
    requires FullPages(ps) && Packable(ps) && FullPages(qs) && Packable(qs)
    ensures |b| == 512 * (|ps| + |qs|)
  {
    Sectors(ps, |ps|, family, device) + Sectors(qs, |qs|, other, device)
  }

  lemma TwoStretches(ps: seq<Page>, qs: seq<Page>, family: Word32, other: Word32, device: Word32,
      familyid: Word32, appstart: Option<int>)
    requires ps != [] && qs != [] && FullPages(ps) && Packable(ps) && FullPages(qs) && Packable(qs)
    requires family != 0 && other != 0 && family != other
    ensures var ss := [Stretch(ps, family), Stretch(qs, other)];
      && WellFormed(ss) && FileOf(ss, 2, device) == TwoParts(ps, qs, family, other, device)
      && Combined(ss, 2, familyid) ==
         (match (Assemble(ps, |ps|), Assemble(qs, |qs|))
          case (Err(e), _) => Err(e)
          case (Ok(_), Err(e)) => Err(e)
          case (Ok(_), Ok(_)) =>
            Ok(Kept(ps, |ps|, Wanted(family, familyid)) + Kept(qs, |qs|, Wanted(other, familyid))))
      && LastWanted(ss, 2, familyid, appstart) ==
         (if Wanted(other, familyid) then Some(qs[0].addr)
          else if Wanted(family, familyid) then Some(ps[0].addr) else appstart)
  {
    hide Sectors, Assemble, Kept, Wanted, FullPages, Packable;
    var ss := [Stretch(ps, family), Stretch(qs, other)];
    assert FileOf(ss, 0, device) == [];
    assert FileOf(ss, 1, device) == Sectors(ps, |ps|, family, device);
    assert Combined(ss, 0, familyid) == Ok([]);
    assert LastWanted(ss, 0, familyid, appstart) == appstart;
    if Assemble(ps, |ps|).Ok? {
      var kept := Kept(ps, |ps|, Wanted(family, familyid));
      assert [] + kept == kept;
      assert Combined(ss, 1, familyid) == Ok(Kept(ps, |ps|, Wanted(family, familyid)));
    }
  }

  /** A file with one stretch of each of two families, whatever family is asked for. It fails as the first part
      does, or else as the second does. Otherwise, asked for none, the decoder returns nothing and address
      zero; asked for one, it returns that family's image, but for the family that is not wanted it still
      writes one zero for every byte of gap between its pages, in the place of that family's part; and the
      address it leaves is that of the last part that was wanted. */
  lemma TwoFamilies(ps: seq<Page>, qs: seq<Page>, family: Word32, other: Word32, device: Word32,
      familyid: Word32, appstart: Option<int>)
    requires ps != [] && qs != [] && FullPages(ps) && Packable(ps) && FullPages(qs) && Packable(qs)
    requires family != 0 && other != 0 && family != other
    ensures Decode(TwoParts(ps, qs, family, other, device), familyid, appstart) ==
      match (Assemble(ps, |ps|), Assemble(qs, |qs|))
      case (Err(e), _) => Err(e)
      case (Ok(_), Err(e)) => Err(e)
      case (Ok(_), Ok(_)) =>
        if familyid == 0 then Ok(([], Some(0)))
        else
          Ok((Kept(ps, |ps|, familyid == family) + Kept(qs, |qs|, familyid == other),
              if familyid == other then Some(qs[0].addr)
              else if familyid == family then Some(ps[0].addr) else appstart))
  {
    hide Decode, Combined, FileOf, LastWanted, Assemble, Kept, TwoParts, FullPages, Packable, WellFormed;
    TwoStretches(ps, qs, family, other, device, familyid, appstart);
    DecodeStretches([Stretch(ps, family), Stretch(qs, other)], device, familyid, appstart);
  }

  /** With one stretch of each, picking a family out of the file gives what that family's own file gives
      exactly when the other family's pages are contiguous, whichever of the two comes first. */
  lemma TwoSelectionsAreExact(ps: seq<Page>, qs: seq<Page>, family: Word32, other: Word32, device: Word32,
      appstart: Option<int>)
    requires ps != [] && qs != [] && FullPages(ps) && Packable(ps) && FullPages(qs) && Packable(qs)
    requires Assemble(ps, |ps|).Ok? && Assemble(qs, |qs|).Ok? && family != 0 && other != 0 && family != other
    ensures Decode(TwoParts(ps, qs, family, other, device), family, appstart)
         == Decode(Sectors(ps, |ps|, family, device), family, appstart)
       <==> forall i :: 0 < i < |qs| ==> Gap(qs, i) == 0
    ensures Decode(TwoParts(ps, qs, family, other, device), other, appstart)
         == Decode(Sectors(qs, |qs|, other, device), other, appstart)
       <==> forall i :: 0 < i < |ps| ==> Gap(ps, i) == 0
  {
    hide Sectors, Decode, Assemble, TwoParts, FullPages, Packable, GapSum, Gap;
    TwoFamilies(ps, qs, family, other, device, family, appstart);
    TwoFamilies(ps, qs, family, other, device, other, appstart);
    DecodeIsAssemble(ps, family, device, family, appstart);
    DecodeIsAssemble(qs, other, device, other, appstart);
    NoGaps(ps, |ps|);
    NoGaps(qs, |qs|);
    GapSumIsPositive(ps, |ps|);
    GapSumIsPositive(qs, |qs|);
    ZerosBehind(Assemble(ps, |ps|).value, GapSum(qs, |qs|));
    ZerosBehind(Assemble(qs, |qs|).value, GapSum(ps, |ps|));
  }

  /** The family stored second comes out behind the first one's gaps, although the address returned is
      that of its own first page: the byte for address `a` stands as many places too far back. */
  lemma SecondIsDisplaced(ps: seq<Page>, qs: seq<Page>, family: Word32, other: Word32, device: Word32,
      appstart: Option<int>, k: nat)
    requires ps != [] && qs != [] && FullPages(ps) && Packable(ps) && FullPages(qs) && Packable(qs)
    requires Assemble(ps, |ps|).Ok? && Assemble(qs, |qs|).Ok? && family != 0 && other != 0 && family != other
    ensures var r := Decode(TwoParts(ps, qs, family, other, device), other, appstart); var shift := GapSum(ps, |ps|);
      && r.Ok? && r.value.1 == Some(qs[0].addr) && shift >= 0
      && |r.value.0| == shift + (qs[|qs| - 1].addr + 256 - qs[0].addr)
      && (k < |r.value.0| ==>
            r.value.0[k] == if k < shift then 0 else ByteAt(qs, |qs|, qs[0].addr + (k - shift)))
  {
    hide Decode, Assemble, TwoParts, FullPages, Packable, GapSum, ByteAt;
    TwoFamilies(ps, qs, family, other, device, other, appstart);
    GapSumIsPositive(ps, |ps|);
    AssembleIsFlat(qs, |qs|);
  }

  // ---------------------------------------------------------------- a file that is not taken apart exactly

  const ONES: Bytes := seq(256, _ => 0xFF)
  /** Two pages with a page-sized gap between them. */
  const APART := [Page(0, ONES), Page(512, ONES)]
  const ALONE := [Page(0x1000, ONES)]

  lemma ApartAssembles()
    ensures FullPages(APART) && Packable(APART) && FullPages(ALONE) && Packable(ALONE)
    ensures Assemble(APART, 2).Ok? && GapSum(APART, 2) == 256 && Assemble(ALONE, 1) == Ok(ONES)
  {
    assert Assemble(APART, 0) == Ok([]);
    assert Assemble(APART, 1) == Ok(ONES);
    assert Assemble(ALONE, 0) == Ok([]);
    assert GapSum(APART, 1) == 0 && Gap(APART, 1) == 256;
  }

  /** One page of family 2 with the two pages of family 1 before it or behind it in the file: it comes out
      with 256 zeros before it or behind it. */
  lemma SelectionCanMiss(appstart: Option<int>)
    ensures FullPages(APART) && Packable(APART) && FullPages(ALONE) && Packable(ALONE)
    ensures Decode(TwoParts(APART, ALONE, 1, 2, 0), 2, appstart) == Ok((Zeros(256) + ONES, Some(0x1000)))
    ensures Decode(TwoParts(ALONE, APART, 2, 1, 0), 2, appstart) == Ok((ONES + Zeros(256), Some(0x1000)))
    ensures Decode(Sectors(ALONE, 1, 2, 0), 2, appstart) == Ok((ONES, Some(0x1000)))
  {
    hide Decode, Sectors, TwoParts, Packable, FullPages, GapSum, Assemble, Zeros;
    ApartAssembles();
    TwoFamilies(APART, ALONE, 1, 2, 0, 2, appstart);
    TwoFamilies(ALONE, APART, 2, 1, 0, 2, appstart);
    DecodeIsAssemble(ALONE, 2, 0, 2, appstart);
  }

  /** A page of family 1, one of family 2, and another of family 1. */
  function Interleaved(a: Page, b: Page, c: Page): seq<Stretch> {
    [Stretch([a], 1), Stretch([b], 2), Stretch([c], 1)]
  }

  predicate Sendable(p: Page) {
    |p.bytes| == 256 && p.addr < 0x1_0000_0000
  }

  lemma InterleavedIsWellFormed(a: Page, b: Page, c: Page)
    requires Sendable(a) && Sendable(b) && Sendable(c)
    ensures WellFormed(Interleaved(a, b, c)) && OthersContiguous(Interleaved(a, b, c), 3, 1)
  {
    var ss := Interleaved(a, b, c);
    assert Good(ss[0]) && Good(ss[1]) && Good(ss[2]);
  }

  lemma InterleavedPages(a: Page, b: Page, c: Page)
    requires WellFormed(Interleaved(a, b, c))
    ensures OwnPages(Interleaved(a, b, c), 3, 1) == [a, c]
  {
    hide WellFormed;
    var ss := Interleaved(a, b, c);
    assert OwnPages(ss, 0, 1) == [] && OwnPages(ss, 1, 1) == [a] && OwnPages(ss, 2, 1) == [a];
  }

  lemma InterleavedCombined(a: Page, b: Page, c: Page, appstart: Option<int>)
    requires Sendable(a) && Sendable(b) && Sendable(c) && WellFormed(Interleaved(a, b, c))
    ensures Combined(Interleaved(a, b, c), 3, 1) == Ok(a.bytes + c.bytes)
    ensures LastWanted(Interleaved(a, b, c), 3, 1, appstart) == Some(c.addr)
  {
    hide WellFormed, Kept, Assemble, Zeros;
    var ss := Interleaved(a, b, c);
    OnePage(a);
    OnePage(b);
    OnePage(c);
    ZerosBehind(a.bytes, 0);
    assert [] + a.bytes == a.bytes;
    assert Combined(ss, 0, 1) == Ok([]);
    assert Combined(ss, 1, 1) == Ok(a.bytes);
    assert Combined(ss, 2, 1) == Ok(a.bytes);
  }

  lemma TwoPages(a: Page, c: Page)
    requires Sendable(a) && Sendable(c)
    requires 0 <= c.addr - (a.addr + 256) <= MAX_PADDING && (c.addr - a.addr) % 4 == 0
    ensures FullPages([a, c]) && Packable([a, c])
    ensures Assemble([a, c], 2) == Ok(a.bytes + Zeros(c.addr - (a.addr + 256)) + c.bytes)
  {
    hide Zeros;
    assert Assemble([a, c], 0) == Ok([]);
    assert Assemble([a, c], 1) == Ok(a.bytes);
  }

  /** Two pages of family 1 with a page of family 2 between them in the file: family 1 comes out without
      the gap between its pages, if there is one, and always with the address of its second page. */
  lemma InterleavedIsMissed(a: Page, b: Page, c: Page, appstart: Option<int>)
    requires Sendable(a) && Sendable(b) && Sendable(c)
    requires 0 <= c.addr - (a.addr + 256) <= MAX_PADDING && (c.addr - a.addr) % 4 == 0
    ensures var ss := Interleaved(a, b, c); var gap := c.addr - (a.addr + 256);
      && WellFormed(ss) && OthersContiguous(ss, 3, 1) && OwnPages(ss, 3, 1) == [a, c]
      && FullPages([a, c]) && Packable([a, c])
      && Decode(FileOf(ss, 3, 0), 1, appstart) == Ok((a.bytes + c.bytes, Some(c.addr)))
      && Decode(Sectors([a, c], 2, 1, 0), 1, appstart) == Ok((a.bytes + Zeros(gap) + c.bytes, Some(a.addr)))
  {
    hide Decode, FileOf, Sectors, Zeros, WellFormed, Combined, LastWanted, OwnPages, OthersContiguous, Assemble;
    InterleavedIsWellFormed(a, b, c);
    InterleavedPages(a, b, c);
    InterleavedCombined(a, b, c, appstart);
    DecodeStretches(Interleaved(a, b, c), 0, 1, appstart);
    TwoPages(a, c);
    DecodeIsAssemble([a, c], 1, 0, 1, appstart);
  }

  lemma OnePage(p: Page)
    requires FullPage(p) && p.addr < 0x1_0000_0000
    ensures FullPages([p]) && Packable([p]) && Assemble([p], 1) == Ok(p.bytes)
    ensures Kept([p], 1, true) == p.bytes && Kept([p], 1, false) == Zeros(0)
  {
    assert Assemble([p], 0) == Ok([]);
  }
}
