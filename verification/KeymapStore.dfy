/** The keymap part of quantum/dynamic_keymap.c as it runs: EEPROM bytes read and written in place, and
    the caller's buffer edited on the way. */
module KeymapStore {
  import opened Words
  import opened KeymapLayout
  import opened KeymapBuffer

  class Store {
    const layout: Layout
    const eeprom: array<Byte>
    var vialUnlocked: bool

    ghost predicate Valid() {
      Fits(layout, eeprom.Length)
    }

    constructor (layout: Layout, eeprom: array<Byte>)
      requires Fits(layout, eeprom.Length)
      ensures Valid() && this.layout == layout && this.eeprom == eeprom && !vialUnlocked
    {
      this.layout, this.eeprom, vialUnlocked := layout, eeprom, false;
    }

    /** dynamic_keymap_get_keycode and dynamic_keymap_get_encoder */
    method GetKeycode(p: Position) returns (keycode: Word16)
      requires Valid()
      ensures keycode == Get(layout, eeprom[..], p)
    {
      hide Address, Fits;
      if !InRange(layout, p) { return 0; }
      CellInMemory(layout, eeprom.Length, p);
      var address := Address(layout, p);
      return eeprom[address] as int * 256 + eeprom[address + 1];
    }

    /** dynamic_keymap_set_keycode and dynamic_keymap_set_encoder */
    method SetKeycode(p: Position, keycode: Word16)
      requires Valid()
      modifies eeprom
      ensures eeprom[..] == Set(layout, old(eeprom[..]), p, keycode)
    {
      hide Address, Fits;
      if !InRange(layout, p) { return; }
      CellInMemory(layout, eeprom.Length, p);
      var address := Address(layout, p);
      eeprom[address] := keycode / 256;
      eeprom[address + 1] := keycode % 256;
    }

    method GetBuffer(offset: Word16, size: Word16, data: array<Byte>)
      requires Valid() && size <= data.Length && data != eeprom
      modifies data
      ensures data[..size] == ReadBuffer(layout, eeprom[..], offset, size)
      ensures data[size..] == old(data[size..])
    {
      hide Fits, KeymapSize;
      KeymapIsArea(layout, eeprom.Length);
      var i := 0;
      while i < size
        invariant 0 <= i <= size
        invariant data[..i] == ReadBuffer(layout, eeprom[..], offset, size)[..i]
        invariant data[size..] == old(data[size..])
        invariant eeprom[..] == old(eeprom[..])
      {
        if offset + i < KeymapSize(layout) {
          data[i] := eeprom[layout.start + offset + i];
        } else {
          data[i] := 0x00;
        }
        assert data[..i + 1] == data[..i] + [data[i]];
        i := i + 1;
      }
    }

    /** The loop of dynamic_keymap_set_buffer that replaces QK_BOOT in whole cells of the buffer. */
    method CensorCells(offset: nat, size: nat, data: array<Byte>, chkOffset: nat, chkSz: nat, ghost want: Memory)
      requires chkOffset <= chkSz <= size <= data.Length && (offset + chkOffset) % 2 == 0 == (offset + chkSz) % 2
      requires layout.start + offset + size <= |want|
      requires forall j :: chkOffset <= j < chkSz ==> data[j] == want[layout.start + offset + j]
      modifies data
      ensures forall j :: chkOffset <= j < chkSz ==>
        data[j] == Censored(layout.start, offset, size, want, layout.start + offset + j)
      ensures forall j :: 0 <= j < chkOffset || chkSz <= j < data.Length ==> data[j] == old(data[j])
    {
      hide Censored;
      var i := chkOffset;
      while i < chkSz
        invariant chkOffset <= i <= chkSz && (offset + i) % 2 == 0
        invariant forall j :: chkOffset <= j < i ==>
          data[j] == Censored(layout.start, offset, size, want, layout.start + offset + j)
        invariant forall j :: 0 <= j < chkOffset || i <= j < data.Length ==> data[j] == old(data[j])
      {
        CensoredCell(layout.start, offset, size, want, (offset + i) / 2);
        var kc := data[i] as int * 256 + data[i + 1];
        if kc == QK_BOOT {
          data[i] := 0xFF;
          data[i + 1] := 0xFF;
        }
        i := i + 2;
      }
    }

    /** The part of dynamic_keymap_set_buffer that keeps QK_BOOT out of a locked keyboard, by editing
        the caller's buffer: the cells it covers by half first, then the others. */
    method CensorBuffer(area: nat, offset: nat, size: nat, data: array<Byte>, ghost want: Memory)
      requires IsArea(layout.start, area, eeprom.Length) && Accepted(area, offset, size)
      requires 0 < size <= data.Length && data != eeprom
      requires |want| == eeprom.Length
      requires forall a :: 0 <= a < |want| ==>
        want[a] == if layout.start + offset <= a < layout.start + offset + size
                   then data[a - layout.start - offset] else eeprom[a]
      modifies data
      ensures forall i :: 0 <= i < size ==>
        data[i] == Censored(layout.start, offset, size, want, layout.start + offset + i)
      ensures forall i :: size <= i < data.Length ==> data[i] == old(data[i])
    {
      hide Censored;
      var target := layout.start + offset;
      var chkOffset, chkSz := 0, size;
      if offset % 2 != 0 {
        CensoredCell(layout.start, offset, size, want, offset / 2);
        var kc := eeprom[target - 1] as int * 256 + data[0];
        if kc == QK_BOOT { data[0] := 0xFF; }
        chkOffset := 1;
      }
      if (offset + size) % 2 != 0 {
        CensoredCell(layout.start, offset, size, want, (offset + size) / 2);
        var kc := data[size - 1] as int * 256 + eeprom[target + size];
        if kc == QK_BOOT { data[size - 1] := 0xFF; }
        chkSz := size - 1;
      }
      CensorCells(offset, size, data, chkOffset, chkSz, want);
    }

    /** dynamic_keymap_set_buffer. (The source does not guard against an empty write at an odd offset
        of the area while locked.) */
    method SetBuffer(offset: Word16, size: Word16, data: array<Byte>)
      requires Valid() && size <= data.Length && data != eeprom
      requires size == 0 && offset % 2 == 1 ==> vialUnlocked || offset >= KeymapSize(layout)
      modifies eeprom, data
      ensures 0 <= KeymapSize(layout) && IsArea(layout.start, KeymapSize(layout), eeprom.Length)
      ensures eeprom[..]
           == WriteBuffer(layout.start, KeymapSize(layout), old(eeprom[..]), offset, old(data[..size]), vialUnlocked)
      ensures data[size..] == old(data[size..])
    {
      hide Fits, KeymapSize, Censored;
      KeymapIsArea(layout, eeprom.Length);
      if offset >= KeymapSize(layout) || KeymapSize(layout) - offset < size { return; }
      ghost var want := Written(eeprom[..], layout.start + offset, data[..size]);
      ghost var goal := WriteBuffer(layout.start, KeymapSize(layout), eeprom[..], offset, data[..size], vialUnlocked);
      BeyondArea(layout.start, KeymapSize(layout), eeprom[..], offset, data[..size], vialUnlocked);
      if !vialUnlocked && size > 0 {
        CensorBuffer(KeymapSize(layout), offset, size, data, want);
      }
      assert forall j :: 0 <= j < size ==> data[j] == goal[layout.start + offset + j];
      CopyIn(layout.start + offset, size, data);
      assert eeprom[..] == goal;
    }

    /** The copying loop. */
    method CopyIn(target: nat, size: nat, data: array<Byte>)
      requires target + size <= eeprom.Length && size <= data.Length && data != eeprom
      modifies eeprom
      ensures forall a :: 0 <= a < eeprom.Length ==>
        eeprom[a] == if target <= a < target + size then data[a - target] else old(eeprom[a])
    {
      var i := 0;
      while i < size
        invariant 0 <= i <= size
        invariant forall a :: 0 <= a < eeprom.Length ==>
          eeprom[a] == if target <= a < target + i then data[a - target] else old(eeprom[a])
      {
        eeprom[target + i] := data[i];
        i := i + 1;
      }
    }

    /** The keymap and encoder part of dynamic_keymap_reset: afterwards every position reads as it does
        in flash, whether QK_BOOT or not, and nothing else has changed. */
    method Reset(flash: Position -> Word16)
      requires Valid()
      modifies this`vialUnlocked, eeprom
      ensures forall p :: InRange(layout, p) ==> Get(layout, eeprom[..], p) == flash(p)
      ensures OnlyMap(layout, old(eeprom[..]), eeprom[..])
      ensures vialUnlocked == old(vialUnlocked)
    {
      hide Get, Address, Fits, EncoderStart, EncoderSize, InRange;
      var vialUnlockedPrev := vialUnlocked;
      vialUnlocked := true;
      for layer := 0 to layout.layers
        invariant Done(layout, eeprom[..], flash, layer, 0, 0, 0) && OnlyMap(layout, old(eeprom[..]), eeprom[..])
      {
        for row := 0 to layout.rows
          invariant Done(layout, eeprom[..], flash, layer, row, 0, 0) && OnlyMap(layout, old(eeprom[..]), eeprom[..])
        {
          for col := 0 to layout.cols
            invariant Done(layout, eeprom[..], flash, layer, row, col, 0)
            invariant OnlyMap(layout, old(eeprom[..]), eeprom[..])
          {
            var p := Key(layer, row, col);
            SetKeepsDone(layout, old(eeprom[..]), eeprom[..], flash, p, layer, row, col, 0);
            SetKeycode(p, flash(p));
          }
          NextRow(layout, eeprom[..], flash, layer, row);
        }
        for id := 0 to layout.encoders
          invariant Done(layout, eeprom[..], flash, layer, layout.rows, 0, id)
          invariant OnlyMap(layout, old(eeprom[..]), eeprom[..])
        {
          var p, q := Encoder(layer, id, true), Encoder(layer, id, false);
          SetKeepsDone(layout, old(eeprom[..]), eeprom[..], flash, p, layer, layout.rows, 0, id);
          SetKeycode(p, flash(p));
          SetKeepsDone(layout, old(eeprom[..]), eeprom[..], flash, q, layer, layout.rows, 0, id);
          SetKeycode(q, flash(q));
          NextEncoder(layout, eeprom[..], flash, layer, id);
        }
        NextLayer(layout, eeprom[..], flash, layer);
      }
      AllDone(layout, old(eeprom[..]), eeprom[..], flash);
      vialUnlocked := vialUnlockedPrev;
    }
  }

  /** `p` comes before the given key, or before the given encoder of the layer, in the order of reset. */
  predicate Before(p: Position, layer: nat, row: nat, col: nat, id: nat) {
    match p
    case Key(y, r, c) => y < layer || (y == layer && (r < row || (r == row && c < col)))
    case Encoder(y, i, _) => y < layer || (y == layer && i < id)
  }

  ghost predicate Done(l: Layout, m: Memory, flash: Position -> Word16, layer: nat, row: nat, col: nat, id: nat)
    requires Fits(l, |m|)
  {
    forall p :: InRange(l, p) && Before(p, layer, row, col, id) ==> Get(l, m, p) == flash(p)
  }

  /** Only bytes of the keymap and encoder areas differ. */
  ghost predicate OnlyMap(l: Layout, m: Memory, m': Memory) {
    && |m'| == |m|
    && forall a :: 0 <= a < |m| && (a < l.start || EncoderStart(l) + EncoderSize(l) <= a) ==> m'[a] == m[a]
  }

  lemma SetKeepsDone(l: Layout, m0: Memory, m: Memory, flash: Position -> Word16, p: Position,
      layer: nat, row: nat, col: nat, id: nat)
    requires Fits(l, |m|) && Done(l, m, flash, layer, row, col, id) && OnlyMap(l, m0, m)
    ensures var m' := Set(l, m, p, flash(p));
      && Done(l, m', flash, layer, row, col, id) && OnlyMap(l, m0, m')
      && (InRange(l, p) ==> Get(l, m', p) == flash(p))
      && forall q :: q != p ==> Get(l, m', q) == Get(l, m, q)
  {
    hide Get, Set, Address, Fits, Before, EncoderStart, EncoderSize;
    forall q: Position
      ensures Get(l, Set(l, m, p, flash(p)), q) == if p == q && InRange(l, p) then flash(p) else Get(l, m, q)
    {
      SetThenGet(l, m, p, flash(p), q);
    }
    SetThenGet(l, m, p, flash(p), p);
    if InRange(l, p) { CellInMemory(l, |m|, p); }
  }

  lemma NextRow(l: Layout, m: Memory, flash: Position -> Word16, layer: nat, row: nat)
    requires Fits(l, |m|) && Done(l, m, flash, layer, row, l.cols, 0)
    ensures Done(l, m, flash, layer, row + 1, 0, 0)
  {
    hide Get, Address, Fits;
  }

  lemma NextEncoder(l: Layout, m: Memory, flash: Position -> Word16, layer: Byte, id: Byte)
    requires Fits(l, |m|) && Done(l, m, flash, layer, l.rows, 0, id)
    requires forall d :: InRange(l, Encoder(layer, id, d)) ==>
               Get(l, m, Encoder(layer, id, d)) == flash(Encoder(layer, id, d))
    ensures Done(l, m, flash, layer, l.rows, 0, id + 1)
  {
    hide Get, Address, Fits;
  }

  lemma NextLayer(l: Layout, m: Memory, flash: Position -> Word16, layer: nat)
    requires Fits(l, |m|) && Done(l, m, flash, layer, l.rows, 0, l.encoders)
    ensures Done(l, m, flash, layer + 1, 0, 0, 0)
  {
    hide Get, Address, Fits;
  }

  lemma AllDone(l: Layout, m0: Memory, m: Memory, flash: Position -> Word16)
    requires Fits(l, |m|) && Done(l, m, flash, l.layers, 0, 0, 0)
    ensures forall p :: InRange(l, p) ==> Get(l, m, p) == flash(p)
  {
    hide Get, Address, Fits;
  }
}
