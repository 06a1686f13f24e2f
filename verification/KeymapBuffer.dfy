/** Bulk access to the keymap area of quantum/dynamic_keymap.c: what a buffer read returns and what a
    buffer write stores while the keyboard is locked. */
module KeymapBuffer {
  import opened Words
  import opened KeymapLayout

  /** dynamic_keymap_get_buffer: the bytes of the area, zero beyond its end. */
  function ReadBuffer(l: Layout, m: Memory, offset: nat, size: nat): (data: seq<Byte>)
    requires Fits(l, |m|)
    ensures |data| == size
  {
    seq(size, i requires 0 <= i < size =>
      if offset + i < KeymapSize(l) then (hide Fits; AreaInMemory(l, |m|); m[l.start + offset + i]) else 0)
  }

  lemma AreaInMemory(l: Layout, size: nat)
    requires Fits(l, size)
    ensures 0 <= KeymapSize(l) && l.start + KeymapSize(l) <= size && KeymapSize(l) < 0x1_0000
  {
    assert 0 <= l.encoders * l.layers;
    assert 0 <= l.layers * l.rows;
    assert 0 <= l.layers * l.rows * l.cols;
  }

  /** A buffer read is the map written out, two bytes a key, high byte first, in layer, row, column
      order, followed by zeros. */
  lemma ReadIsTheMap(l: Layout, m: Memory, offset: nat, size: nat, i: nat) returns (layer: Byte, row: Byte, col: Byte)
    requires Fits(l, |m|) && i < size
    ensures var byte := ReadBuffer(l, m, offset, size)[i]; var k := offset + i;
      if k < KeymapSize(l) then
        && InRange(l, Key(layer, row, col)) && KeyIndex(l, layer, row, col) == k / 2
        && byte == if k % 2 == 0 then Get(l, m, Key(layer, row, col)) / 256 else Get(l, m, Key(layer, row, col)) % 256
      else byte == 0
  {
    hide Fits, Address, KeyIndex, Get;
    layer, row, col := 0, 0, 0;
    var k := offset + i;
    if k < KeymapSize(l) {
      HalfSize(l, k);
      layer, row, col := EveryCellIsAKey(l, k / 2);
      KeyBytes(l, m, layer, row, col);
    }
  }

  /** The two bytes of a key's cell are the halves of its keycode. */
  lemma KeyBytes(l: Layout, m: Memory, layer: Byte, row: Byte, col: Byte)
    requires Fits(l, |m|) && InRange(l, Key(layer, row, col))
    ensures var at := l.start + 2 * KeyIndex(l, layer, row, col); var keycode := Get(l, m, Key(layer, row, col));
      at + 1 < |m| && m[at] == keycode / 256 && m[at + 1] == keycode % 256
  {
    hide Fits, Address, KeyIndex;
    KeyAddress(l, layer, row, col);
    CellInMemory(l, |m|, Key(layer, row, col));
  }

  lemma HalfSize(l: Layout, k: nat)
    requires k < KeymapSize(l)
    ensures k / 2 < l.layers * l.rows * l.cols
  {
  }

  // ---------------------------------------------------------------- writes

  /** The memory with `data` written over it from `at` on. */
  function Written(m: Memory, at: nat, data: seq<Byte>): (want: Memory)
    requires at + |data| <= |m|
    ensures |want| == |m|
    ensures forall a :: 0 <= a < |m| ==> want[a] == if at <= a < at + |data| then data[a - at] else m[a]
  {
    m[..at] + data + m[at + |data|..]
  }

  /** The keymap area as a range of memory: an even number of bytes from `start` on. */
  ghost predicate IsArea(start: nat, area: nat, size: nat) {
    start + area <= size && area % 2 == 0
  }

  lemma KeymapIsArea(l: Layout, size: nat)
    requires Fits(l, size)
    ensures KeymapSize(l) >= 0 && IsArea(l.start, KeymapSize(l), size) && KeymapSize(l) < 0x1_0000
  {
    AreaInMemory(l, size);
  }

  predicate Accepted(area: nat, offset: nat, size: nat) {
    offset < area && size <= area - offset
  }

  /** The two-byte cell that the byte at offset `k` of the area belongs to. */
  function CellOf(start: nat, k: nat): nat {
    start + k / 2 * 2
  }

  /** What a locked keyboard stores at address `a` when `n` bytes from offset `offset` on are written
      and `want` is the memory that was asked for. */
  function Censored(start: nat, offset: nat, n: nat, want: Memory, a: nat): Byte
    requires a < |want|
  {
    if start + offset <= a < start + offset + n && CellOf(start, a - start) + 1 < |want|
       && Cell(want, CellOf(start, a - start)) == QK_BOOT
    then 0xFF
    else want[a]
  }

  /** dynamic_keymap_set_buffer: refused out of range, verbatim when unlocked, and otherwise with 0xFF
      for every written byte of a cell that would have become QK_BOOT. */
  function WriteBuffer(start: nat, area: nat, m: Memory, offset: nat, data: seq<Byte>, unlocked: bool): (m': Memory)
    requires IsArea(start, area, |m|)
    ensures |m'| == |m|
  {
    if !Accepted(area, offset, |data|) then m
    else
      var want := Written(m, start + offset, data);
      if unlocked then want
      else seq(|m|, a requires 0 <= a < |m| => Censored(start, offset, |data|, want, a))
  }

  /** The bytes of cell number `c` once censored. */
  ghost predicate CensoredPair(start: nat, offset: nat, n: nat, want: Memory, c: nat)
    requires start + 2 * c + 1 < |want|
  {
    var at := start + 2 * c; var boot := Cell(want, at) == QK_BOOT;
      && Censored(start, offset, n, want, at) == (if boot && offset <= 2 * c < offset + n then 0xFF else want[at])
      && Censored(start, offset, n, want, at + 1)
         == (if boot && offset <= 2 * c + 1 < offset + n then 0xFF else want[at + 1])
  }

  lemma CensoredCell(start: nat, offset: nat, n: nat, want: Memory, c: nat)
    requires start + 2 * c + 1 < |want|
    ensures CensoredPair(start, offset, n, want, c)
  {
    assert CellOf(start, 2 * c) == start + 2 * c && CellOf(start, 2 * c + 1) == start + 2 * c;
  }

  /** Cell by cell: a cell of the area with a written byte holds what was asked for, unless that is
      QK_BOOT, 0x7C00, and the keyboard is locked, and then its written bytes are 0xFF and it holds something
      else; other cells keep theirs. */
  lemma CellAfterWrite(start: nat, area: nat, m: Memory, offset: nat, data: seq<Byte>, unlocked: bool, c: nat)
    requires IsArea(start, area, |m|) && offset < area && offset + |data| <= area && 2 * c + 1 < area
    ensures var m' := WriteBuffer(start, area, m, offset, data, unlocked);
      var at := start + 2 * c; var wanted := Cell(Written(m, start + offset, data), at);
      if data == [] || 2 * c + 1 < offset || offset + |data| <= 2 * c then Cell(m', at) == Cell(m, at)
      else if !unlocked && wanted == 0x7C00 then
        && m'[at] == (if offset <= 2 * c then 0xFF else 0x7C)
        && m'[at + 1] == (if 2 * c + 1 < offset + |data| then 0xFF else 0x00)
        && Cell(m', at) != 0x7C00
      else Cell(m', at) == wanted
  {
    hide Written, CellOf;
    var want := Written(m, start + offset, data);
    CensoredCell(start, offset, |data|, want, c);
    var m' := WriteBuffer(start, area, m, offset, data, unlocked);
    var at := start + 2 * c;
    assert !unlocked ==>
      && m'[at] == Censored(start, offset, |data|, want, at)
      && m'[at + 1] == Censored(start, offset, |data|, want, at + 1);
  }

  /** For every position of the map: a key with a byte in the written range gets the keycode asked for,
      unless that is QK_BOOT and the keyboard is locked, and then it gets some other keycode. All other
      keys, and all encoders, keep theirs. */
  lemma LockedWriteStoresNoBoot(l: Layout, m: Memory, offset: nat, data: seq<Byte>, unlocked: bool, p: Position)
    requires Fits(l, |m|) && InRange(l, p)
    requires 0 <= KeymapSize(l) && IsArea(l.start, KeymapSize(l), |m|)
    requires offset < KeymapSize(l) && offset + |data| <= KeymapSize(l)
    ensures var m' := WriteBuffer(l.start, KeymapSize(l), m, offset, data, unlocked);
      var wanted := Get(l, Written(m, l.start + offset, data), p);
      if data == [] || Address(l, p) + 1 < l.start + offset || l.start + offset + |data| <= Address(l, p) then
        Get(l, m', p) == Get(l, m, p)
      else p.Key? && if !unlocked && wanted == 0x7C00 then Get(l, m', p) != 0x7C00 else Get(l, m', p) == wanted
  {
    hide Address, Fits, KeymapSize, WriteBuffer, Written, KeyIndex;
    CellInMemory(l, |m|, p);
    CellInArea(l, p);
    if p.Key? {
      KeyAddress(l, p.layer, p.row, p.col);
      CellAfterWrite(l.start, KeymapSize(l), m, offset, data, unlocked, KeyIndex(l, p.layer, p.row, p.col));
    } else {
      BeyondArea(l.start, KeymapSize(l), m, offset, data, unlocked);
    }
  }

  /** A write that starts behind the area or does not end inside it is refused as a whole. */
  lemma RefusedWrite(start: nat, area: nat, m: Memory, offset: nat, data: seq<Byte>, unlocked: bool)
    requires IsArea(start, area, |m|) && (offset >= area || offset + |data| > area)
    ensures WriteBuffer(start, area, m, offset, data, unlocked) == m
  {
  }

  /** Nothing outside the written range changes. */
  lemma BeyondArea(start: nat, area: nat, m: Memory, offset: nat, data: seq<Byte>, unlocked: bool)
    requires IsArea(start, area, |m|)
    ensures var m' := WriteBuffer(start, area, m, offset, data, unlocked);
      forall a :: 0 <= a < |m| && (a < start + offset || start + offset + |data| <= a) ==> m'[a] == m[a]
    ensures var m' := WriteBuffer(start, area, m, offset, data, unlocked);
      forall a :: start + area <= a < |m| ==> m'[a] == m[a]
  {
  }
}
