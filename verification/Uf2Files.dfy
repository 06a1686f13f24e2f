/** Decoding files of anybody's making: which block stops it, and what blocks that are not for flash do. */
module Uf2Files {
  import opened Words
  import opened Uf2
  import opened Uf2Theorems

  // ---------------------------------------------------------------- blocks that stop the decoder

  lemma {:induction false} ErrorStays(buf: Bytes, k: nat, n: nat, familyid: Word32, appstart: Option<int>)
    requires k <= n && 512 * n <= |buf| && DecodeBlocks(buf, k, familyid, appstart).Err?
    ensures DecodeBlocks(buf, n, familyid, appstart) == DecodeBlocks(buf, k, familyid, appstart)
    decreases n
  {
    hide DecodeBlock, BadBlock, NotForFlash, BlockAt;
    if k < n { ErrorStays(buf, k, n - 1, familyid, appstart); }
  }

  /** The first block that cannot be decoded ends the conversion: with the one error if either of its two magic
      words is wrong, and with another if it is for flash and says that it has more than 476 bytes. */
  lemma BadBlockStops(buf: Bytes, k: nat, familyid: Word32, appstart: Option<int>)
    requires 512 * (k + 1) <= |buf| && DecodeBlocks(buf, k, familyid, appstart).Ok?
    ensures
      var b := BlockAt(buf, k); var magic := WordAt(b, 0) == 0x0A324655 && WordAt(b, 1) == 0x9E5D5157;
      && (!magic ==> Decode(buf, familyid, appstart) == Err(BadMagic))
      && (magic && WordAt(b, 2) % 2 == 0 && WordAt(b, 4) > 476 ==> Decode(buf, familyid, appstart) == Err(DataTooLong))
  {
    hide WordAt, BlockAt;
    var n := |buf| / 512;
    if DecodeBlocks(buf, k + 1, familyid, appstart).Err? { ErrorStays(buf, k + 1, n, familyid, appstart); }
  }

  // ---------------------------------------------------------------- blocks not for flash

  /** Every block starts with the two magic words. */
  ghost predicate WellMarked(buf: Bytes, n: nat)
    requires 512 * n <= |buf|
  {
    forall i :: 0 <= i < n ==> WordAt(BlockAt(buf, i), 0) == 0x0A324655 && WordAt(BlockAt(buf, i), 1) == 0x9E5D5157
  }

  /** The first `n` blocks without those whose lowest flag says that they are not for flash. */
  function ForFlash(buf: Bytes, n: nat): (b: Bytes)
    requires 512 * n <= |buf|
    ensures |b| % 512 == 0
  {
    if n == 0 then []
    else if WordAt(BlockAt(buf, n - 1), 2) % 2 == 1 then ForFlash(buf, n - 1)
    else ForFlash(buf, n - 1) + BlockAt(buf, n - 1)
  }

  /** Decoding blocks looks at them only. */
  lemma {:induction false} SameBlocks(buf: Bytes, rest: Bytes, n: nat, familyid: Word32, appstart: Option<int>)
    requires 512 * n <= |buf|
    ensures DecodeBlocks(buf + rest, n, familyid, appstart) == DecodeBlocks(buf, n, familyid, appstart)
    decreases n
  {
    hide DecodeBlock, BadBlock, NotForFlash;
    if n > 0 {
      SameBlocks(buf, rest, n - 1, familyid, appstart);
      assert BlockAt(buf + rest, n - 1) == BlockAt(buf, n - 1);
    }
  }

  lemma {:induction false} SkippedBlocks(buf: Bytes, n: nat, familyid: Word32, appstart: Option<int>)
    requires 512 * n <= |buf| && WellMarked(buf, n)
    ensures var flash := ForFlash(buf, n);
      DecodeBlocks(buf, n, familyid, appstart) == DecodeBlocks(flash, |flash| / 512, familyid, appstart)
    decreases n
  {
    hide DecodeBlock, BlockAt, WordAt;
    if n > 0 {
      SkippedBlocks(buf, n - 1, familyid, appstart);
      var before, flash, block := ForFlash(buf, n - 1), ForFlash(buf, n), BlockAt(buf, n - 1);
      if WordAt(block, 2) % 2 == 0 {
        SameBlocks(before, block, |before| / 512, familyid, appstart);
        LastBlock(before, block);
      }
    }
  }

  lemma LastBlock(before: Bytes, block: Bytes)
    requires |before| % 512 == 0 && |block| == 512
    ensures |before + block| / 512 == |before| / 512 + 1 && BlockAt(before + block, |before| / 512) == block
  {
  }

  /** Blocks that are not for flash might as well not be there; but where a file of several families would be
      cleared because none was asked for, one such block at its end keeps it from that. */
  lemma DecodeSkips(buf: Bytes, familyid: Word32, appstart: Option<int>)
    requires |buf| >= 512 && WellMarked(buf, |buf| / 512)
    ensures
      var n := |buf| / 512; var flash := ForFlash(buf, n);
      Decode(buf, familyid, appstart) ==
        if WordAt(BlockAt(buf, n - 1), 2) % 2 == 0 then Decode(flash, familyid, appstart)
        else match DecodeBlocks(flash, |flash| / 512, familyid, appstart)
             case Err(e) => Err(e)
             case Ok(d) => Ok((d.out, d.appstart))
  {
    hide DecodeBlocks, BlockAt, WordAt;
    var n := |buf| / 512;
    SkippedBlocks(buf, n, familyid, appstart);
    var before, block := ForFlash(buf, n - 1), BlockAt(buf, n - 1);
    if WordAt(block, 2) % 2 == 0 { LastBlock(before, block); }
  }
}
