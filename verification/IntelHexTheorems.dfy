/** From Intel HEX text to UF2 and back to binary: when it works, and that it gives the memory image. */
module IntelHexTheorems {
  import opened Words
  import opened Uf2
  import opened Uf2Theorems
  import opened IntelHex

  // ---------------------------------------------------------------- the memory image

  /** The byte that the first `n` writes leave at address `a`: the last one written there, or zero. */
  function LastWrite(ws: seq<Write>, n: nat, a: int): Byte
    requires n <= |ws|
  {
    if n == 0 then 0
    else if ws[n - 1].addr == a then ws[n - 1].byte
    else LastWrite(ws, n - 1, a)
  }

  /** Consecutive writes stay in their page or move on to a later one at most 10 MB further. */
  ghost predicate PagesAscend(ws: seq<Write>, n: nat)
    requires n <= |ws|
  {
    forall i :: 0 < i < n ==> Moves(ws, i)
  }

  predicate Moves(ws: seq<Write>, i: nat)
    requires 0 < i < |ws|
  {
    var gap := PageAddr(ws[i].addr) - (PageAddr(ws[i - 1].addr) + 256);
    gap == -256 || 0 <= gap <= MAX_PADDING
  }

  lemma PageMultiple(a: nat)
    ensures PageAddr(a) % 256 == 0 && PageAddr(a) <= a < PageAddr(a) + 256 && a % 256 == a - PageAddr(a)
  {
  }

  lemma PageGap(a: nat, b: nat)
    requires PageAddr(a) != PageAddr(b)
    ensures var gap := PageAddr(b) - (PageAddr(a) + 256); gap != -256 && gap % 4 == 0
  {
    hide PageAddr;
    PageNumber(a);
    PageNumber(b);
    assert PageAddr(b) - (PageAddr(a) + 256) == 4 * (64 * (b / 256 - a / 256 - 1));
  }

  lemma PageNumber(a: nat)
    ensures PageAddr(a) == 256 * (a / 256)
  {
  }

  /** The blocks ascend exactly when the writes do. */
  lemma {:induction false} CollectAscends(ws: seq<Write>, n: nat)
    requires n <= |ws|
    ensures Ascending(Collect(ws, n), |Collect(ws, n)|) <==> PagesAscend(ws, n)
    decreases n
  {
    hide Gap, Ascending, PageAddr, AddWrite;
    if n > 1 {
      CollectAscends(ws, n - 1);
      var before, ps := Collect(ws, n - 1), Collect(ws, n);
      SameAddresses(before, ws[n - 1]);
      AscendingExtends(before, ps);
      if |ps| > |before| {
        NewGap(ps);
        PageGap(ws[n - 2].addr, ws[n - 1].addr);
        assert Moves(ws, n - 1) <==> 0 <= Gap(ps, |before|) <= MAX_PADDING && Gap(ps, |before|) % 4 == 0;
      }
      assert PagesAscend(ws, n) <==> PagesAscend(ws, n - 1) && Moves(ws, n - 1);
    } else {
      OnePageAscends(Collect(ws, n));
    }
  }

  lemma OnePageAscends(ps: seq<Page>)
    requires |ps| <= 1
    ensures Ascending(ps, |ps|)
  {
  }

  lemma SameAddresses(ps: seq<Page>, w: Write)
    requires FullPages(ps)
    ensures var r := AddWrite(ps, w);
      && (forall i :: 0 <= i < |ps| ==> r[i].addr == ps[i].addr)
      && |r| == (if ps == [] || ps[|ps| - 1].addr != PageAddr(w.addr) then |ps| + 1 else |ps|)
      && r[|r| - 1].addr == PageAddr(w.addr)
  {
  }

  lemma AscendingExtends(ps: seq<Page>, r: seq<Page>)
    requires |ps| <= |r| <= |ps| + 1 && forall i :: 0 <= i < |ps| ==> r[i].addr == ps[i].addr
    ensures Ascending(r, |r|) <==>
      Ascending(ps, |ps|) && (|r| > |ps| > 0 ==> 0 <= Gap(r, |ps|) <= MAX_PADDING && Gap(r, |ps|) % 4 == 0)
  {
    forall i | 0 < i < |ps| ensures Gap(r, i) == Gap(ps, i) {}
  }

  lemma NewGap(ps: seq<Page>)
    requires |ps| > 1
    ensures Gap(ps, |ps| - 1) == ps[|ps| - 1].addr - (ps[|ps| - 2].addr + 256)
  {
  }

  lemma {:induction false} ByteAtPrefix(ps: seq<Page>, qs: seq<Page>, n: nat, a: int)
    requires FullPages(ps) && FullPages(qs) && n <= |ps| && n <= |qs| && ps[..n] == qs[..n]
    ensures ByteAt(ps, n, a) == ByteAt(qs, n, a)
    decreases n
  {
    if n > 0 {
      assert ps[..n][n - 1] == qs[..n][n - 1];
      assert ps[..n - 1] == ps[..n][..n - 1] && qs[..n - 1] == qs[..n][..n - 1];
      ByteAtPrefix(ps, qs, n - 1, a);
    }
  }

  lemma LastPage(ps: seq<Page>, w: Write)
    requires FullPages(ps)
    ensures var r := AddWrite(ps, w); var m := |r| - 1;
      && m <= |ps| && r[..m] == ps[..m]
      && FullPage(r[m])
      && forall k :: 0 <= k < 256 ==>
           r[m].bytes[k] == if k == w.addr % 256 then w.byte
                            else if m < |ps| then (assert FullPage(ps[m]); ps[m].bytes[k])
                            else 0
  {
  }

  /** One more write changes the image at its own address only. */
  lemma AddWriteByte(ps: seq<Page>, w: Write, a: int)
    requires FullPages(ps) && Ascending(AddWrite(ps, w), |AddWrite(ps, w)|)
    ensures var r := AddWrite(ps, w);
      ByteAt(r, |r|, a) == if a == w.addr then w.byte else ByteAt(ps, |ps|, a)
  {
    hide ByteAt, Gap, AddWrite, FullPages, Ascending;
    var r := AddWrite(ps, w);
    var m := |r| - 1;
    PageMultiple(w.addr);
    SameAddresses(ps, w);
    LastPage(ps, w);
    ByteOfLast(r, |r|, a);
    ByteAtPrefix(r, ps, m, a);
    if m < |ps| {
      ByteOfLast(ps, |ps|, a);
    } else if ps == [] {
      NoPages(ps, a);
    } else if r[m].addr <= a < r[m].addr + 256 {
      AscendingExtends(ps, r);
      NewGap(r);
      NothingBehind(ps, |ps|, a);
    }
  }

  lemma NoPages(ps: seq<Page>, a: int)
    requires FullPages(ps)
    ensures ByteAt(ps, 0, a) == 0
  {
  }

  /** When the pages ascend, the blocks hold at every address the last byte written there. */
  lemma {:induction false} CollectIsImage(ws: seq<Write>, n: nat, a: int)
    requires n <= |ws| && PagesAscend(ws, n)
    ensures ByteAt(Collect(ws, n), |Collect(ws, n)|, a) == LastWrite(ws, n, a)
    decreases n
  {
    hide ByteAt;
    var ps := Collect(ws, n);
    if n > 0 {
      SameAddresses(Collect(ws, n - 1), ws[n - 1]);
      CollectIsImage(ws, n - 1, a);
      CollectAscends(ws, n);
      AddWriteByte(Collect(ws, n - 1), ws[n - 1], a);
    } else {
      NoPages(ps, a);
    }
  }

  /** The blocks can be packed exactly if every byte written has a 32-bit address, and there are fewer blocks
      than 2^32. */
  lemma {:induction false} PacksIfItFits(ws: seq<Write>, n: nat)
    requires n <= |ws|
    ensures var ps := Collect(ws, n);
      Packable(ps) <==> |ps| < 0x1_0000_0000 && forall i :: 0 <= i < n ==> ws[i].addr < 0x1_0000_0000
    decreases n
  {
    hide AddWrite, PageAddr;
    if n > 0 {
      var before, ps := Collect(ws, n - 1), Collect(ws, n);
      PacksIfItFits(ws, n - 1);
      SameAddresses(before, ws[n - 1]);
      PageFits(ws[n - 1].addr);
      assert forall i :: 0 <= i < |before| ==> ps[i].addr == before[i].addr;
      if n > 1 { PageFits(ws[n - 2].addr); }
    }
  }

  lemma PageFits(a: nat)
    ensures PageAddr(a) < 0x1_0000_0000 <==> a < 0x1_0000_0000
  {
  }

  lemma {:induction false} FirstPage(ws: seq<Write>, n: nat)
    requires 0 < n <= |ws|
    ensures Collect(ws, n)[0].addr == PageAddr(ws[0].addr)
    decreases n
  {
    if n > 1 { FirstPage(ws, n - 1); }
  }

  /** HEX to UF2 to binary. The UF2 file decodes exactly when the pages of the data bytes never go back
      and never leave a gap of more than 10 MB; then the result is the memory image from the start of
      the first page to the end of the last, with the last byte written to each address and zero where
      none was. */
  lemma HexToUf2ToBinary(lines: seq<string>, family: Word32, device: Word32, familyid: Word32, appstart: Option<int>)
    requires HexToUf2(lines, family, device).Ok? && (familyid == 0 || familyid == family)
    requires ReadLines(START, lines).value.writes != []
    ensures ReadLines(START, lines).Ok?
    ensures var ws := ReadLines(START, lines).value.writes; var n := |ws|;
      var r := Decode(HexToUf2(lines, family, device).value.0, familyid, appstart); var first := PageAddr(ws[0].addr);
      && (r.Ok? <==> PagesAscend(ws, n))
      && (r.Ok? ==>
            && r.value.1 == Some(first)
            && |r.value.0| == PageAddr(ws[n - 1].addr) + 256 - first
            && forall k :: 0 <= k < |r.value.0| ==> r.value.0[k] == LastWrite(ws, n, first + k))
  {
    hide ReadLines, Sectors, Decode, Assemble, ByteAt, Ascending, PagesAscend;
    var ws := ReadLines(START, lines).value.writes;
    var ps := Collect(ws, |ws|);
    DecodeIsAssemble(ps, family, device, familyid, appstart);
    AssembleIsFlat(ps, |ps|);
    CollectAscends(ws, |ws|);
    FirstPage(ws, |ws|);
    if PagesAscend(ws, |ws|) {
      forall a: int ensures ByteAt(ps, |ps|, a) == LastWrite(ws, |ws|, a) { CollectIsImage(ws, |ws|, a); }
    }
  }

  /** The converter numbers the blocks of the file that it makes of HEX records. */
  lemma HexIsNumbered(lines: seq<string>, family: Word32, device: Word32)
    requires HexToUf2(lines, family, device).Ok?
    ensures ReadLines(START, lines).Ok?
    ensures var ws := ReadLines(START, lines).value.writes;
      Numbered(HexToUf2(lines, family, device).value.0, |Collect(ws, |ws|)|)
  {
    hide ReadLines, Sectors, Collect, Numbered;
    var ws := ReadLines(START, lines).value.writes;
    SectorsAreNumbered(Collect(ws, |ws|), family, device);
  }
}
