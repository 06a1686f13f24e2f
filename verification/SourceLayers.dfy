/** The source layer cache of quantum/action_layer.c: which layer a key event is resolved on, and the
    bit-sliced memory that lets a release find the layer of its press. */
module SourceLayers {
  import opened RowBits

  const MAX_LAYER := 32
  const MAX_LAYER_BITS := 5
  const CHAR_BIT := 8

  type Layer = x: nat | x < MAX_LAYER

  // ---------------------------------------------------------------- layer resolution

  datatype KeyPos = KeyPos(row: nat, col: nat)

  /** What layer_switch_get_layer looks at: the active layers, default layers included, and which
      positions are transparent on which layer. */
  datatype Layers = Layers(active: Row, transparent: (Layer, KeyPos) -> bool)

  predicate Counts(ls: Layers, key: KeyPos, i: Layer) {
    On(ls.active, i) && !ls.transparent(i, key)
  }

  /** The loop of layer_switch_get_layer over the layers below `n`, from the top down. */
  function TopBelow(ls: Layers, key: KeyPos, n: nat): Layer
    requires n <= MAX_LAYER
  {
    if n == 0 then 0
    else if Counts(ls, key, n - 1) then n - 1
    else TopBelow(ls, key, n - 1)
  }

  /** layer_switch_get_layer */
  function TopLayer(ls: Layers, key: KeyPos): Layer {
    TopBelow(ls, key, MAX_LAYER)
  }

  /** The layer found is the highest that is active and not transparent at the key; layer 0 stands in
      when there is none. */
  lemma {:induction false} TopBelowIsHighest(ls: Layers, key: KeyPos, n: nat)
    requires n <= MAX_LAYER
    ensures var t := TopBelow(ls, key, n);
      && (forall i: Layer :: t < i < n ==> !Counts(ls, key, i))
      && (n > 0 && !Counts(ls, key, t) ==> t == 0 && forall i: Layer :: i < n ==> !Counts(ls, key, i))
  {
    hide Counts;
    if n > 0 && !Counts(ls, key, n - 1) { TopBelowIsHighest(ls, key, n - 1); }
  }

  /** `t` is what layer_switch_get_layer looks for: active and not transparent at the key, with no higher
      layer that is, among all 32; or layer 0 if there is none at all. */
  ghost predicate IsTop(ls: Layers, key: KeyPos, t: nat) {
    if exists i: Layer :: On(ls.active, i) && !ls.transparent(i, key) then
      && t < MAX_LAYER && On(ls.active, t) && !ls.transparent(t, key)
      && forall i: Layer :: t < i ==> !(On(ls.active, i) && !ls.transparent(i, key))
    else t == 0
  }

  lemma TopLayerIsTop(ls: Layers, key: KeyPos)
    ensures IsTop(ls, key, TopLayer(ls, key))
  {
    hide On;
    TopBelowIsHighest(ls, key, MAX_LAYER);
    forall i: Layer ensures Counts(ls, key, i) <==> On(ls.active, i) && !ls.transparent(i, key) {}
  }

  // ---------------------------------------------------------------- layers as bits

  function Pow2(b: nat): (p: nat)
    ensures p > 0
  {
    if b == 0 then 1 else 2 * Pow2(b - 1)
  }

  /** `layer & (1U << b)` */
  predicate LayerBit(layer: nat, b: nat) {
    layer / Pow2(b) % 2 == 1
  }

  /** What reading the first `n` bits puts together; the bits are disjoint, so or-ing adds. */
  function FromBits(bits: nat -> bool, n: nat): nat {
    if n == 0 then 0 else FromBits(bits, n - 1) + if bits(n - 1) then Pow2(n - 1) else 0
  }

  lemma OneMore(a: nat, b: nat, m: nat)
    requires a > b
    ensures a * m >= b * m + m
  {
    var d := a - b - 1;
    assert a * m == b * m + m + d * m;
  }

  lemma Remainder(x: nat, k: nat, m: nat, r: nat)
    requires m > 0 && x == k * m + r && r < m
    ensures x % m == r
  {
    var q := x / m;
    assert x == q * m + x % m;
    if q > k { OneMore(q, k, m); } else if q < k { OneMore(k, q, m); }
  }

  lemma ModDouble(x: nat, p: nat)
    requires p > 0
    ensures x % (2 * p) == x % p + if x / p % 2 == 1 then p else 0
  {
    var q := x / p;
    assert x == q * p + x % p;
    var half, odd := q / 2, q % 2;
    assert q * p == half * (2 * p) + odd * p by { assert q == half * 2 + odd; }
    Remainder(x, half, 2 * p, odd * p + x % p);
  }

  /** Reading the bits of a layer back gives the layer modulo 2^n. */
  lemma {:induction false} BitsMakeLayer(layer: nat, bits: nat -> bool, n: nat)
    requires forall b :: 0 <= b < n ==> (bits(b) <==> LayerBit(layer, b))
    ensures FromBits(bits, n) == layer % Pow2(n)
  {
    if n > 0 {
      BitsMakeLayer(layer, bits, n - 1);
      ModDouble(layer, Pow2(n - 1));
      assert bits(n - 1) <==> LayerBit(layer, n - 1);
    }
  }

  // ---------------------------------------------------------------- the cache

  /** A cell of the cache, one byte per layer bit for eight entries, as the 32-bit word that C's
      integer promotions make of it. */
  type Cells = seq<seq<Row>>

  predicate Sized(cells: Cells, entries: nat) {
    |cells| == (entries + CHAR_BIT - 1) / CHAR_BIT && forall i :: 0 <= i < |cells| ==> |cells[i]| == MAX_LAYER_BITS
  }

  lemma InCells(cells: Cells, entries: nat, entry: nat)
    requires Sized(cells, entries) && entry < entries
    ensures entry / CHAR_BIT < |cells| && |cells[entry / CHAR_BIT]| == MAX_LAYER_BITS
  {
  }

  /** Bit `b` of the layer remembered for `entry`. */
  predicate Remembered(cells: Cells, entries: nat, entry: nat, b: nat)
    requires Sized(cells, entries)
  {
    && entry < entries && b < MAX_LAYER_BITS
    && (InCells(cells, entries, entry); On(cells[entry / CHAR_BIT][b], entry % CHAR_BIT))
  }

  function BitsOf(cells: Cells, entries: nat, entry: nat): nat -> bool
    requires Sized(cells, entries)
  {
    (b: nat) => Remembered(cells, entries, entry, b)
  }

  /** read_source_layers_cache_impl */
  function ReadCache(cells: Cells, entries: nat, entry: nat): nat
    requires Sized(cells, entries)
  {
    FromBits(BitsOf(cells, entries, entry), MAX_LAYER_BITS)
  }

  /** `-bit ^ cell` */
  function Flips(cell: Row, bit: bool): Row {
    (if bit then 0xFFFF_FFFF else 0) ^ cell
  }

  /** The cell after `cell ^= (-bit ^ cell) & mask`. */
  function WriteBit(cell: Row, mask: Row, bit: bool): Row {
    cell ^ (Flips(cell, bit) & mask)
  }

  lemma WriteBitHere(cell: Row, mask: Row, bit: bool)
    requires Single(mask)
    ensures Hits(WriteBit(cell, mask, bit), mask) <==> bit
  {
  }

  lemma WriteBitElsewhere(cell: Row, mask: Row, bit: bool, other: Row)
    requires Disjoint(mask, other) && Single(other)
    ensures Hits(WriteBit(cell, mask, bit), other) <==> Hits(cell, other)
  {
    hide Hits, Disjoint, Single, Flips;
    FlipElsewhere(cell, Flips(cell, bit), mask, other);
  }

  /** Flipping bits under a mask leaves the bits outside it alone. */
  lemma FlipElsewhere(cell: Row, flip: Row, mask: Row, other: Row)
    requires Disjoint(mask, other) && Single(other)
    ensures Hits(cell ^ (flip & mask), other) <==> Hits(cell, other)
  {
    hide Hits, Disjoint, Single;
    Misses(flip, mask, other);
    XorBit(cell, flip & mask, other);
  }

  lemma Misses(y: Row, mask: Row, other: Row)
    requires Disjoint(mask, other)
    ensures !Hits(y & mask, other)
  {
    AndAssociates(y, mask, other);
    NothingUnderZero(y);
  }

  lemma AndAssociates(a: Row, b: Row, c: Row)
    ensures a & b & c == a & (b & c)
  {
  }

  lemma NothingUnderZero(y: Row)
    ensures y & 0 == 0
  {
  }

  lemma WriteColumn(cell: Row, col: nat, bit: bool, c: nat)
    requires col < COLS_MAX && c < COLS_MAX
    ensures On(WriteBit(cell, Mask(col), bit), c) <==> if c == col then bit else On(cell, c)
  {
    hide Mask, Hits, Single, WriteBit, Disjoint;
    MaskGrows(c, c);
    if c == col {
      WriteBitHere(cell, Mask(c), bit);
    } else {
      MasksDisjoint(col, c);
      WriteBitElsewhere(cell, Mask(col), bit, Mask(c));
    }
  }

  /** update_source_layers_cache_impl */
  function WriteCache(cells: Cells, entries: nat, entry: nat, layer: Layer): (r: Cells)
    requires Sized(cells, entries) && entry < entries
    ensures Sized(r, entries)
  {
    InCells(cells, entries, entry);
    var i := entry / CHAR_BIT;
    cells[i := seq(MAX_LAYER_BITS, b requires 0 <= b < MAX_LAYER_BITS =>
      WriteBit(cells[i][b], Mask(entry % CHAR_BIT), LayerBit(layer, b)))]
  }

  lemma WriteRemembered(cells: Cells, entries: nat, entry: nat, layer: Layer, e: nat, b: nat)
    requires Sized(cells, entries) && entry < entries && b < MAX_LAYER_BITS
    ensures Remembered(WriteCache(cells, entries, entry, layer), entries, e, b)
       <==> if e == entry then LayerBit(layer, b) else Remembered(cells, entries, e, b)
  {
    hide On, Mask, WriteBit, LayerBit;
    if e < entries {
      InCells(cells, entries, entry);
      InCells(cells, entries, e);
      if e / CHAR_BIT == entry / CHAR_BIT {
        WriteColumn(cells[entry / CHAR_BIT][b], entry % CHAR_BIT, LayerBit(layer, b), e % CHAR_BIT);
      }
    }
  }

  lemma {:induction false} SameBits(f: nat -> bool, g: nat -> bool, n: nat)
    requires forall b :: 0 <= b < n ==> f(b) == g(b)
    ensures FromBits(f, n) == FromBits(g, n)
  {
    if n > 0 { SameBits(f, g, n - 1); }
  }

  lemma LayerFits(layer: Layer)
    ensures layer % Pow2(MAX_LAYER_BITS) == layer
  {
    assert Pow2(3) == 8 && Pow2(5) == 32;
  }

  /** The bit-sliced cache is a plain table: an update is read back at its entry and seen nowhere else,
      although eight entries share every byte. */
  lemma WriteThenRead(cells: Cells, entries: nat, entry: nat, layer: Layer, e: nat)
    requires Sized(cells, entries) && entry < entries
    ensures ReadCache(WriteCache(cells, entries, entry, layer), entries, e)
         == if e == entry then layer else ReadCache(cells, entries, e)
  {
    hide Remembered, WriteCache, LayerBit;
    var after := WriteCache(cells, entries, entry, layer);
    forall b | 0 <= b < MAX_LAYER_BITS
      ensures Remembered(after, entries, e, b) <==>
        if e == entry then LayerBit(layer, b) else Remembered(cells, entries, e, b)
    {
      WriteRemembered(cells, entries, entry, layer, e, b);
    }
    if e == entry {
      BitsMakeLayer(layer, BitsOf(after, entries, e), MAX_LAYER_BITS);
      LayerFits(layer);
    } else {
      SameBits(BitsOf(after, entries, e), BitsOf(cells, entries, e), MAX_LAYER_BITS);
    }
  }
}
