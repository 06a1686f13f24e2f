/** Where quantum/dynamic_keymap.c keeps keymap and encoder map in EEPROM, as a flat byte sequence that
    stands for a map from positions to 16-bit keycodes. */
module KeymapLayout {
  import opened Words

  const QK_BOOT: Word16 := 0x7C00

  /** The configuration: number of layers, matrix size, number of encoders and the start address. */
  datatype Layout = Layout(layers: Byte, rows: Byte, cols: Byte, encoders: Byte, start: nat)

  datatype Position =
    | Key(layer: Byte, row: Byte, col: Byte)
    | Encoder(layer: Byte, id: Byte, clockwise: bool)

  function KeymapSize(l: Layout): int {
    l.layers * l.rows * l.cols * 2
  }

  function EncoderStart(l: Layout): int {
    l.start + KeymapSize(l)
  }

  function EncoderSize(l: Layout): int {
    l.encoders * l.layers * 2 * 2
  }

  /** The static assertions of the source: the areas and 100 bytes of macros fit in a 16-bit EEPROM. */
  ghost predicate Fits(l: Layout, size: nat) {
    l.start + KeymapSize(l) + EncoderSize(l) + 100 < size <= 0x1_0000
  }

  predicate InRange(l: Layout, p: Position) {
    match p
    case Key(layer, row, col) => layer < l.layers && row < l.rows && col < l.cols
    case Encoder(layer, id, _) => layer < l.layers && id < l.encoders
  }

  /** dynamic_keymap_key_to_eeprom_address and dynamic_keymap_encoder_to_eeprom_address */
  function Address(l: Layout, p: Position): int {
    match p
    case Key(layer, row, col) => l.start + layer * l.rows * l.cols * 2 + row * l.cols * 2 + col * 2
    case Encoder(layer, id, clockwise) =>
      EncoderStart(l) + layer * l.encoders * 2 * 2 + id * 2 * 2 + (if clockwise then 0 else 2)
  }

  // ---------------------------------------------------------------- mixed-radix indices

  lemma MulMono(a: nat, b: nat, c: nat)
    requires a <= b
    ensures a * c <= b * c
  {
  }

  /** A two-digit number is below the product of its radices, and digits are determined by it. */
  lemma TwoDigits(hi: nat, lo: nat, n: nat, radix: nat)
    requires hi < n && lo < radix
    ensures hi * radix + lo < n * radix
  {
    MulMono(hi + 1, n, radix);
    assert (hi + 1) * radix == hi * radix + radix;
  }

  lemma DigitsDiffer(hi: nat, lo: nat, hi': nat, lo': nat, radix: nat)
    requires lo < radix && lo' < radix && (hi != hi' || lo != lo')
    ensures hi * radix + lo != hi' * radix + lo'
  {
    if hi < hi' {
      MulMono(hi + 1, hi', radix);
      assert (hi + 1) * radix == hi * radix + radix;
    } else if hi' < hi {
      MulMono(hi' + 1, hi, radix);
      assert (hi' + 1) * radix == hi' * radix + radix;
    }
  }

  /** The number of a key in layer, row, column order. */
  function KeyIndex(l: Layout, layer: nat, row: nat, col: nat): nat {
    (layer * l.rows + row) * l.cols + col
  }

  function EncoderIndex(l: Layout, layer: nat, id: nat): nat {
    layer * l.encoders + id
  }

  lemma KeyAddress(l: Layout, layer: Byte, row: Byte, col: Byte)
    requires InRange(l, Key(layer, row, col))
    ensures Address(l, Key(layer, row, col)) == l.start + 2 * KeyIndex(l, layer, row, col)
    ensures KeyIndex(l, layer, row, col) < l.layers * l.rows * l.cols
  {
    var hi := layer * l.rows + row;
    assert hi * l.cols == layer * l.rows * l.cols + row * l.cols;
    TwoDigits(layer, row, l.layers, l.rows);
    TwoDigits(hi, col, l.layers * l.rows, l.cols);
  }

  lemma EncoderAddress(l: Layout, layer: Byte, id: Byte, clockwise: bool)
    requires InRange(l, Encoder(layer, id, clockwise))
    ensures Address(l, Encoder(layer, id, clockwise))
         == EncoderStart(l) + 4 * EncoderIndex(l, layer, id) + (if clockwise then 0 else 2)
    ensures EncoderIndex(l, layer, id) < l.layers * l.encoders
    ensures EncoderSize(l) == 4 * (l.layers * l.encoders)
  {
    TwoDigits(layer, id, l.layers, l.encoders);
  }

  /** The cell of a position lies in its own area. */
  lemma CellInArea(l: Layout, p: Position)
    requires InRange(l, p)
    ensures if p.Key? then l.start <= Address(l, p) && Address(l, p) + 2 <= EncoderStart(l)
            else EncoderStart(l) <= Address(l, p) && Address(l, p) + 2 <= EncoderStart(l) + EncoderSize(l)
  {
    match p
    case Key(layer, row, col) => KeyAddress(l, layer, row, col);
    case Encoder(layer, id, clockwise) => EncoderAddress(l, layer, id, clockwise);
  }

  lemma IndicesDiffer(hi: nat, mid: nat, lo: nat, hi': nat, mid': nat, lo': nat, radix: nat, radix': nat)
    requires mid < radix && mid' < radix && lo < radix' && lo' < radix' && (hi != hi' || mid != mid' || lo != lo')
    ensures (hi * radix + mid) * radix' + lo != (hi' * radix + mid') * radix' + lo'
  {
    if hi != hi' || mid != mid' { DigitsDiffer(hi, mid, hi', mid', radix); }
    DigitsDiffer(hi * radix + mid, lo, hi' * radix + mid', lo', radix');
  }

  /** Distinct positions, keys and encoder directions alike, never share a byte. */
  lemma CellsAreDisjoint(l: Layout, p: Position, q: Position)
    requires InRange(l, p) && InRange(l, q) && p != q
    ensures Address(l, p) + 2 <= Address(l, q) || Address(l, q) + 2 <= Address(l, p)
  {
    hide Address;
    if p.Key? && q.Key? {
      KeyAddress(l, p.layer, p.row, p.col);
      KeyAddress(l, q.layer, q.row, q.col);
      IndicesDiffer(p.layer, p.row, p.col, q.layer, q.row, q.col, l.rows, l.cols);
    } else if p.Encoder? && q.Encoder? {
      EncoderAddress(l, p.layer, p.id, p.clockwise);
      EncoderAddress(l, q.layer, q.id, q.clockwise);
      if p.layer != q.layer || p.id != q.id { DigitsDiffer(p.layer, p.id, q.layer, q.id, l.encoders); }
    } else {
      CellInArea(l, p);
      CellInArea(l, q);
    }
  }

  lemma Split(index: nat, n: nat, radix: nat)
    requires index < n * radix
    ensures radix > 0 && index / radix < n && index / radix * radix + index % radix == index
  {
    if radix > 0 && n <= index / radix { MulMono(n, index / radix, radix); }
  }

  /** Every two-byte cell of the keymap area belongs to some key. */
  lemma EveryCellIsAKey(l: Layout, index: nat) returns (layer: Byte, row: Byte, col: Byte)
    requires index < l.layers * l.rows * l.cols
    ensures InRange(l, Key(layer, row, col)) && KeyIndex(l, layer, row, col) == index
  {
    var hi, lo := SplitDigits(index, l.layers * l.rows, l.cols);
    var top, mid := SplitDigits(hi, l.layers, l.rows);
    layer, row, col := top, mid, lo;
  }

  lemma SplitDigits(index: nat, n: nat, radix: nat) returns (hi: nat, lo: nat)
    requires index < n * radix
    ensures hi < n && lo < radix && hi * radix + lo == index
  {
    Split(index, n, radix);
    hi, lo := index / radix, index % radix;
  }

  lemma EncodersTakeRoom(l: Layout)
    ensures 0 <= EncoderSize(l)
  {
    assert 0 <= l.encoders * l.layers;
  }

  /** A position's cell lies in memory. */
  lemma CellInMemory(l: Layout, size: nat, p: Position)
    requires Fits(l, size) && InRange(l, p)
    ensures l.start <= Address(l, p) && Address(l, p) + 2 <= size
    ensures Address(l, p) + 2 <= EncoderStart(l) + EncoderSize(l)
  {
    hide Address, InRange, KeymapSize, EncoderSize;
    CellInArea(l, p);
    KeysTakeRoom(l);
    EncodersTakeRoom(l);
  }

  lemma KeysTakeRoom(l: Layout)
    ensures 0 <= KeymapSize(l)
  {
    assert 0 <= l.layers * l.rows;
    assert 0 <= l.layers * l.rows * l.cols;
  }

  // ---------------------------------------------------------------- reading and writing cells

  type Memory = seq<Byte>

  /** The keycode at an address, big-endian. */
  function Cell(m: Memory, address: nat): Word16
    requires address + 1 < |m|
  {
    m[address] as int * 256 + m[address + 1]
  }

  function StoreCell(m: Memory, address: nat, keycode: Word16): (m': Memory)
    requires address + 1 < |m|
    ensures |m'| == |m|
  {
    m[address := keycode / 256][address + 1 := keycode % 256]
  }

  /** dynamic_keymap_get_keycode and dynamic_keymap_get_encoder: KC_NO outside the map. */
  function Get(l: Layout, m: Memory, p: Position): Word16
    requires Fits(l, |m|)
  {
    if !InRange(l, p) then 0 else (hide Address, Fits; CellInMemory(l, |m|, p); Cell(m, Address(l, p)))
  }

  /** dynamic_keymap_set_keycode and dynamic_keymap_set_encoder: nothing outside the map. */
  function Set(l: Layout, m: Memory, p: Position, keycode: Word16): (m': Memory)
    requires Fits(l, |m|)
    ensures |m'| == |m|
  {
    if !InRange(l, p) then m else (hide Address, Fits; CellInMemory(l, |m|, p); StoreCell(m, Address(l, p), keycode))
  }

  /** The byte sequence behaves as a map: a set is seen by gets of its own position and by no other,
      and touches nothing outside its cell. */
  lemma SetThenGet(l: Layout, m: Memory, p: Position, keycode: Word16, q: Position)
    requires Fits(l, |m|)
    ensures Get(l, Set(l, m, p, keycode), q) == if p == q && InRange(l, p) then keycode else Get(l, m, q)
    ensures forall a :: 0 <= a < |m| && Set(l, m, p, keycode)[a] != m[a] ==>
              InRange(l, p) && Address(l, p) <= a < Address(l, p) + 2
  {
    hide Address, Fits;
    if InRange(l, p) {
      CellInMemory(l, |m|, p);
      if InRange(l, q) {
        CellInMemory(l, |m|, q);
        if p != q { CellsAreDisjoint(l, p, q); }
      }
    }
  }

  /** A position outside the map reads as KC_NO, and cannot be set. */
  lemma OutsideTheMap(l: Layout, m: Memory, p: Position, keycode: Word16)
    requires Fits(l, |m|) && !InRange(l, p)
    ensures Get(l, m, p) == 0 && Set(l, m, p, keycode) == m
  {
  }

  function SetAll(l: Layout, m: Memory, sets: seq<(Position, Word16)>): (m': Memory)
    requires Fits(l, |m|)
    ensures |m'| == |m|
    decreases |sets|
  {
    if sets == [] then m else SetAll(l, Set(l, m, sets[0].0, sets[0].1), sets[1..])
  }

  /** The last keycode set for `p`, or `before`. */
  function LastSet(sets: seq<(Position, Word16)>, p: Position, before: Word16): Word16 {
    if sets == [] then before
    else if sets[|sets| - 1].0 == p then sets[|sets| - 1].1
    else LastSet(sets[..|sets| - 1], p, before)
  }

  lemma {:induction false} LastSetHead(sets: seq<(Position, Word16)>, p: Position, before: Word16)
    requires sets != []
    ensures LastSet(sets, p, before) == LastSet(sets[1..], p, if sets[0].0 == p then sets[0].1 else before)
    decreases |sets|
  {
    var n := |sets| - 1;
    if n > 0 && sets[n].0 != p {
      LastSetHead(sets[..n], p, before);
      assert sets[..n][1..] == sets[1..][..n - 1];
    }
  }

  /** After any sequence of sets, a get returns the last keycode set for its position. */
  lemma {:induction false} GetReturnsLastSet(l: Layout, m: Memory, sets: seq<(Position, Word16)>, p: Position)
    requires Fits(l, |m|) && InRange(l, p)
    ensures Get(l, SetAll(l, m, sets), p) == LastSet(sets, p, Get(l, m, p))
    decreases |sets|
  {
    hide Get, Set, InRange;
    if sets != [] {
      SetThenGet(l, m, sets[0].0, sets[0].1, p);
      GetReturnsLastSet(l, Set(l, m, sets[0].0, sets[0].1), sets[1..], p);
      LastSetHead(sets, p, Get(l, m, p));
    }
  }
}
