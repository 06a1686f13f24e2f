/** The source layer cache and the layer lookup of quantum/action_layer.c as they run: byte cells updated
    in place, one bit per layer bit and entry. */
module LayerCache {
  import opened RowBits
  import opened SourceLayers
  import opened LayerRuns

  /** One cache array. */
  class Cache {
    const entries: nat
    const cells: array2<Row>

    ghost predicate Valid() {
      cells.Length0 == (entries + CHAR_BIT - 1) / CHAR_BIT && cells.Length1 == MAX_LAYER_BITS
    }

    ghost function Contents(): (c: Cells)
      requires Valid()
      reads cells
      ensures Sized(c, entries)
      ensures forall i, b :: 0 <= i < cells.Length0 && 0 <= b < MAX_LAYER_BITS ==> c[i][b] == cells[i, b]
    {
      seq(cells.Length0, i requires 0 <= i < cells.Length0 && Valid() reads cells =>
        seq(MAX_LAYER_BITS, b requires 0 <= b < MAX_LAYER_BITS && Valid() reads cells => cells[i, b]))
    }

    constructor (entries: nat)
      ensures Valid() && this.entries == entries && fresh(cells) && Contents() == Blank(entries)
    {
      this.entries := entries;
      cells := new Row[(entries + CHAR_BIT - 1) / CHAR_BIT, MAX_LAYER_BITS]((i, b) => 0);
      new;
      forall i | 0 <= i < |Contents()| ensures Contents()[i] == Blank(entries)[i] {}
    }

    /** update_source_layers_cache_impl */
    method Update(layer: Layer, entry: nat)
      requires Valid() && entry < entries
      modifies cells
      ensures Contents() == WriteCache(old(Contents()), entries, entry, layer)
    {
      hide WriteBit, LayerBit, Mask;
      var storageIdx, storageBit := entry / CHAR_BIT, entry % CHAR_BIT;
      ghost var goal := WriteCache(Contents(), entries, entry, layer);
      for bit := 0 to MAX_LAYER_BITS
        invariant forall i, b | 0 <= i < cells.Length0 && 0 <= b < MAX_LAYER_BITS && (i != storageIdx || b >= bit) ::
          cells[i, b] == old(cells[i, b])
        invariant forall b :: 0 <= b < bit ==>
          cells[storageIdx, b] == WriteBit(old(cells[storageIdx, b]), Mask(storageBit), LayerBit(layer, b))
      {
        cells[storageIdx, bit] := WriteBit(cells[storageIdx, bit], Mask(storageBit), LayerBit(layer, bit));
      }
      forall i | 0 <= i < |goal| ensures Contents()[i] == goal[i] {}
    }

    /** read_source_layers_cache_impl */
    method Read(entry: nat) returns (layer: nat)
      requires Valid() && entry < entries
      ensures layer == ReadCache(Contents(), entries, entry)
    {
      hide On, Pow2;
      var storageIdx, storageBit := entry / CHAR_BIT, entry % CHAR_BIT;
      layer := 0;
      for bit := 0 to MAX_LAYER_BITS
        invariant layer == FromBits(BitsOf(Contents(), entries, entry), bit)
      {
        if On(cells[storageIdx, bit], storageBit) { layer := layer + Pow2(bit); }
      }
    }
  }

  class LayerEngine {
    const cfg: Config
    const matrix: Cache
    const encoders: Cache
    /** layer_state | default_layer_state, and the keymap. */
    var layers: Layers
    ghost var trace: seq<Resolution>

    ghost predicate Valid() {
      matrix.Valid() && encoders.Valid() && matrix.entries == cfg.rows * cfg.cols && encoders.entries == cfg.encoders
      && matrix.cells != encoders.cells
    }

    ghost function Model(): (s: State)
      requires Valid()
      reads this, matrix.cells, encoders.cells
      ensures LayerRuns.Valid(cfg, s)
    {
      State(layers, matrix.Contents(), encoders.Contents(), trace)
    }

    constructor (cfg: Config, layers: Layers)
      ensures Valid() && this.cfg == cfg && fresh(matrix.cells) && fresh(encoders.cells)
      ensures Model() == Initial(cfg, layers)
    {
      this.cfg, this.layers, trace := cfg, layers, [];
      matrix := new Cache(cfg.rows * cfg.cols);
      encoders := new Cache(cfg.encoders);
    }

    /** layer_switch_get_layer */
    method LayerSwitchGetLayer(key: KeyPos) returns (layer: Layer)
      ensures layer == TopLayer(layers, key)
    {
      var i := MAX_LAYER;
      while i > 0
        invariant 0 <= i <= MAX_LAYER && TopLayer(layers, key) == TopBelow(layers, key, i)
      {
        i := i - 1;
        if On(layers.active, i) && !layers.transparent(i, key) { return i; }
      }
      return 0;
    }

    method UpdateSourceLayersCache(key: KeyPos, layer: Layer)
      requires Valid() && GoodKey(cfg, key)
      modifies matrix.cells, encoders.cells
      ensures Model() == LayerRuns.Update(cfg, old(Model()), key, layer)
    {
      hide WriteCache, Sized;
      if key.row == VIAL_MATRIX_MAGIC { return; }
      if key.row < cfg.rows && key.col < cfg.cols {
        MatrixEntry(cfg, key);
        matrix.Update(layer, key.row * cfg.cols + key.col);
      } else if key.row == KEYLOC_ENCODER_CW || key.row == KEYLOC_ENCODER_CCW {
        encoders.Update(layer, key.col);
      }
    }

    method ReadSourceLayersCache(key: KeyPos) returns (layer: nat)
      requires Valid() && GoodKey(cfg, key)
      ensures layer == LayerRuns.Read(cfg, Model(), SlotOf(cfg, key))
    {
      hide ReadCache, Sized;
      if key.row == VIAL_MATRIX_MAGIC { return 0; }
      if key.row < cfg.rows && key.col < cfg.cols {
        MatrixEntry(cfg, key);
        layer := matrix.Read(key.row * cfg.cols + key.col);
      } else if key.row == KEYLOC_ENCODER_CW || key.row == KEYLOC_ENCODER_CCW {
        layer := encoders.Read(key.col);
      } else {
        return 0;
      }
    }

    /** store_or_get_action: the layer that the action is taken from. */
    method StoreOrGetAction(pressed: bool, key: KeyPos) returns (layer: nat)
      requires Valid() && GoodKey(cfg, key)
      modifies this`trace, matrix.cells, encoders.cells
      ensures Model() == StoreOrGet(cfg, old(Model()), pressed, key)
      ensures trace != [] && layer == trace[|trace| - 1].layer
    {
      hide TopLayer, SlotOf, LayerRuns.Read, LayerRuns.Update;
      ghost var top := TopLayer(layers, key);
      if pressed {
        layer := LayerSwitchGetLayer(key);
        UpdateSourceLayersCache(key, layer);
      } else {
        layer := ReadSourceLayersCache(key);
      }
      trace := trace + [Resolution(pressed, key, layer, top)];
    }
  }
}
