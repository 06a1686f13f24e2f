/** store_or_get_action of quantum/action_layer.c over whole runs: a release is resolved on the layer of
    its press, whatever has happened to the layers in between. */
module LayerRuns {
  import opened RowBits
  import opened SourceLayers

  const VIAL_MATRIX_MAGIC := 240
  const KEYLOC_ENCODER_CW := 253
  const KEYLOC_ENCODER_CCW := 252

  datatype Config = Config(rows: nat, cols: nat, encoders: nat)

  /** Which cache, and which entry of it, a position uses. The two directions of an encoder share one;
      Vial's own position and any other one outside the matrix have none. */
  datatype Slot = MatrixSlot(entry: nat) | EncoderSlot(entry: nat) | NoSlot

  function SlotOf(cfg: Config, key: KeyPos): Slot {
    if key.row == VIAL_MATRIX_MAGIC then NoSlot
    else if key.row < cfg.rows && key.col < cfg.cols then MatrixSlot(key.row * cfg.cols + key.col)
    else if key.row == KEYLOC_ENCODER_CW || key.row == KEYLOC_ENCODER_CCW then EncoderSlot(key.col)
    else NoSlot
  }

  /** The entry of an encoder event is one of the configured encoders. */
  predicate GoodKey(cfg: Config, key: KeyPos) {
    SlotOf(cfg, key).EncoderSlot? ==> key.col < cfg.encoders
  }

  lemma MatrixEntry(cfg: Config, key: KeyPos)
    requires SlotOf(cfg, key).MatrixSlot?
    ensures SlotOf(cfg, key).entry < cfg.rows * cfg.cols
  {
    OneMore(cfg.rows, key.row, cfg.cols);
  }

  /** Different matrix positions have different entries. */
  lemma MatrixSlotsDiffer(cfg: Config, key: KeyPos, other: KeyPos)
    requires SlotOf(cfg, key).MatrixSlot? && SlotOf(cfg, other) == SlotOf(cfg, key)
    ensures key == other
  {
    if key.row > other.row { OneMore(key.row, other.row, cfg.cols); }
    else if key.row < other.row { OneMore(other.row, key.row, cfg.cols); }
  }

  // ---------------------------------------------------------------- the machine

  /** A key event, the layer it was resolved on, and the layer that was on top at the time. */
  datatype Resolution = Resolution(pressed: bool, key: KeyPos, layer: nat, top: Layer)

  datatype State = State(layers: Layers, matrix: Cells, encoders: Cells, trace: seq<Resolution>)

  predicate Valid(cfg: Config, s: State) {
    Sized(s.matrix, cfg.rows * cfg.cols) && Sized(s.encoders, cfg.encoders)
  }

  /** read_source_layers_cache */
  function Read(cfg: Config, s: State, slot: Slot): nat
    requires Valid(cfg, s)
  {
    match slot
    case MatrixSlot(e) => ReadCache(s.matrix, cfg.rows * cfg.cols, e)
    case EncoderSlot(e) => ReadCache(s.encoders, cfg.encoders, e)
    case NoSlot => 0
  }

  /** update_source_layers_cache */
  function Update(cfg: Config, s: State, key: KeyPos, layer: Layer): (t: State)
    requires Valid(cfg, s) && GoodKey(cfg, key)
    ensures Valid(cfg, t) && t.layers == s.layers && t.trace == s.trace
  {
    match SlotOf(cfg, key)
    case MatrixSlot(e) => MatrixEntry(cfg, key); s.(matrix := WriteCache(s.matrix, cfg.rows * cfg.cols, e, layer))
    case EncoderSlot(e) => s.(encoders := WriteCache(s.encoders, cfg.encoders, e, layer))
    case NoSlot => s
  }

  /** store_or_get_action, up to the layer it resolves on. */
  function StoreOrGet(cfg: Config, s: State, pressed: bool, key: KeyPos): (t: State)
    requires Valid(cfg, s) && GoodKey(cfg, key)
    ensures Valid(cfg, t)
  {
    var top := TopLayer(s.layers, key);
    if pressed then Update(cfg, s, key, top).(trace := s.trace + [Resolution(true, key, top, top)])
    else s.(trace := s.trace + [Resolution(false, key, Read(cfg, s, SlotOf(cfg, key)), top)])
  }

  /** Between key events the layers and the keymap may change in any way. */
  datatype Step = Change(layers: Layers) | KeyEvent(pressed: bool, key: KeyPos)

  function Run(cfg: Config, s: State, steps: seq<Step>): (t: State)
    requires Valid(cfg, s) && forall i :: 0 <= i < |steps| && steps[i].KeyEvent? ==> GoodKey(cfg, steps[i].key)
    ensures Valid(cfg, t)
    decreases |steps|
  {
    if steps == [] then s
    else
      var t := match steps[0]
        case Change(ls) => s.(layers := ls)
        case KeyEvent(pressed, key) => (assert steps[0].KeyEvent?; StoreOrGet(cfg, s, pressed, key));
      Run(cfg, t, steps[1..])
  }

  // ---------------------------------------------------------------- pairing

  /** The layer on top when the slot was last pressed; zero if it never was. */
  function LastPress(cfg: Config, trace: seq<Resolution>, slot: Slot): nat {
    if trace == [] then 0
    else
      var r := trace[|trace| - 1];
      if r.pressed && SlotOf(cfg, r.key) == slot then r.top else LastPress(cfg, trace[..|trace| - 1], slot)
  }

  /** A press is resolved on the top layer; a release on the layer of the last press of its slot. */
  ghost predicate Paired(cfg: Config, trace: seq<Resolution>) {
    forall j :: 0 <= j < |trace| ==> PairedAt(cfg, trace, j)
  }

  ghost predicate PairedAt(cfg: Config, trace: seq<Resolution>, j: nat)
    requires j < |trace|
  {
    var slot := SlotOf(cfg, trace[j].key);
    trace[j].layer ==
      if trace[j].pressed then trace[j].top
      else if slot == NoSlot then 0
      else LastPress(cfg, trace[..j], slot)
  }

  /** Every entry of the caches holds the layer of its last press. */
  ghost predicate InStep(cfg: Config, s: State)
    requires Valid(cfg, s)
  {
    forall slot: Slot :: slot != NoSlot ==> Read(cfg, s, slot) == LastPress(cfg, s.trace, slot)
  }

  lemma LastPressSnoc(cfg: Config, trace: seq<Resolution>, r: Resolution, slot: Slot)
    ensures LastPress(cfg, trace + [r], slot)
         == if r.pressed && SlotOf(cfg, r.key) == slot then r.top else LastPress(cfg, trace, slot)
  {
    assert (trace + [r])[..|trace|] == trace;
  }

  lemma UpdateThenRead(cfg: Config, s: State, key: KeyPos, layer: Layer, slot: Slot)
    requires Valid(cfg, s) && GoodKey(cfg, key) && slot != NoSlot
    ensures Read(cfg, Update(cfg, s, key, layer), slot)
         == if slot == SlotOf(cfg, key) then layer else Read(cfg, s, slot)
  {
    hide ReadCache, WriteCache, Sized;
    match SlotOf(cfg, key) {
      case MatrixSlot(e) =>
        MatrixEntry(cfg, key);
        if slot.MatrixSlot? { WriteThenRead(s.matrix, cfg.rows * cfg.cols, e, layer, slot.entry); }
      case EncoderSlot(e) =>
        if slot.EncoderSlot? { WriteThenRead(s.encoders, cfg.encoders, e, layer, slot.entry); }
      case NoSlot =>
    }
  }

  lemma PairedSnoc(cfg: Config, trace: seq<Resolution>, r: Resolution)
    requires Paired(cfg, trace) && PairedAt(cfg, trace + [r], |trace|)
    ensures Paired(cfg, trace + [r])
  {
    forall j | 0 <= j < |trace| ensures PairedAt(cfg, trace + [r], j) {
      assert PairedAt(cfg, trace, j);
      assert (trace + [r])[..j] == trace[..j];
    }
  }

  lemma EventKeeps(cfg: Config, s: State, pressed: bool, key: KeyPos)
    requires Valid(cfg, s) && GoodKey(cfg, key) && InStep(cfg, s) && Paired(cfg, s.trace)
    ensures var t := StoreOrGet(cfg, s, pressed, key); InStep(cfg, t) && Paired(cfg, t.trace)
  {
    hide Read, Update, LastPress, SlotOf, TopLayer, Paired;
    var t := StoreOrGet(cfg, s, pressed, key);
    var r := t.trace[|s.trace|];
    assert t.trace == s.trace + [r];
    forall slot: Slot | slot != NoSlot ensures Read(cfg, t, slot) == LastPress(cfg, t.trace, slot) {
      LastPressSnoc(cfg, s.trace, r, slot);
      TraceIsNotRead(cfg, s, t.trace, slot);
      TraceIsNotRead(cfg, Update(cfg, s, key, TopLayer(s.layers, key)), t.trace, slot);
      UpdateThenRead(cfg, s, key, TopLayer(s.layers, key), slot);
    }
    assert t.trace[..|s.trace|] == s.trace;
    ReadNoSlot(cfg, s);
    PairedSnoc(cfg, s.trace, r);
  }

  lemma TraceIsNotRead(cfg: Config, s: State, trace: seq<Resolution>, slot: Slot)
    requires Valid(cfg, s)
    ensures Read(cfg, s.(trace := trace), slot) == Read(cfg, s, slot)
  {
  }

  lemma ReadNoSlot(cfg: Config, s: State)
    requires Valid(cfg, s)
    ensures Read(cfg, s, NoSlot) == 0
  {
  }

  lemma LayersAreNotRead(cfg: Config, s: State, ls: Layers, slot: Slot)
    requires Valid(cfg, s)
    ensures Read(cfg, s.(layers := ls), slot) == Read(cfg, s, slot)
  {
  }

  /** Over any run with arbitrary layer and keymap changes between the events: each press is resolved
      on the layer that is on top then, and each release of a key or encoder on the layer of its last
      press. */
  lemma {:induction false} ReleaseFindsPress(cfg: Config, s: State, steps: seq<Step>)
    requires Valid(cfg, s) && forall i :: 0 <= i < |steps| && steps[i].KeyEvent? ==> GoodKey(cfg, steps[i].key)
    requires InStep(cfg, s) && Paired(cfg, s.trace)
    ensures var t := Run(cfg, s, steps); InStep(cfg, t) && Paired(cfg, t.trace)
    decreases |steps|
  {
    hide Read, StoreOrGet, LastPress, Paired, GoodKey;
    if steps != [] {
      match steps[0]
      case Change(ls) =>
        forall slot: Slot ensures Read(cfg, s.(layers := ls), slot) == Read(cfg, s, slot) {
          LayersAreNotRead(cfg, s, ls, slot);
        }
        ReleaseFindsPress(cfg, s.(layers := ls), steps[1..]);
      case KeyEvent(pressed, key) =>
        assert GoodKey(cfg, steps[0].key);
        EventKeeps(cfg, s, pressed, key);
        ReleaseFindsPress(cfg, StoreOrGet(cfg, s, pressed, key), steps[1..]);
    }
  }

  /** What the trace says of one key of the matrix: no other key's press can come between. */
  lemma {:induction false} LastPressOfKey(cfg: Config, trace: seq<Resolution>, key: KeyPos, i: nat)
    requires SlotOf(cfg, key).MatrixSlot? && i < |trace| && trace[i].pressed && trace[i].key == key
    requires forall k :: i < k < |trace| && trace[k].pressed ==> trace[k].key != key
    ensures LastPress(cfg, trace, SlotOf(cfg, key)) == trace[i].top
    decreases |trace|
  {
    var n := |trace| - 1;
    if i < n {
      if trace[n].pressed && SlotOf(cfg, trace[n].key) == SlotOf(cfg, key) {
        MatrixSlotsDiffer(cfg, key, trace[n].key);
        assert false;
      }
      LastPressOfKey(cfg, trace[..n], key, i);
    }
  }

  function Blank(entries: nat): (cells: Cells)
    ensures Sized(cells, entries)
  {
    seq((entries + CHAR_BIT - 1) / CHAR_BIT, _ => [0, 0, 0, 0, 0])
  }

  lemma BlankReadsZero(entries: nat, entry: nat)
    ensures ReadCache(Blank(entries), entries, entry) == 0
  {
    forall c | 0 <= c < COLS_MAX ensures !On(0, c) { BlankBit(c); }
    var bits := BitsOf(Blank(entries), entries, entry);
    forall b | 0 <= b < MAX_LAYER_BITS ensures !bits(b) {
      if entry < entries { InCells(Blank(entries), entries, entry); }
    }
    assert FromBits(bits, 1) == 0 && FromBits(bits, 2) == 0 && FromBits(bits, 3) == 0 && FromBits(bits, 4) == 0;
  }

  lemma BlankBit(c: nat)
    requires c < COLS_MAX
    ensures !On(0, c)
  {
  }

  function Initial(cfg: Config, ls: Layers): (s: State)
    ensures Valid(cfg, s)
  {
    State(ls, Blank(cfg.rows * cfg.cols), Blank(cfg.encoders), [])
  }

  lemma InitialIsInStep(cfg: Config, ls: Layers)
    ensures InStep(cfg, Initial(cfg, ls)) && Paired(cfg, Initial(cfg, ls).trace)
  {
    hide Blank, ReadCache;
    forall slot: Slot ensures Read(cfg, Initial(cfg, ls), slot) == 0 {
      match slot
      case MatrixSlot(e) => BlankReadsZero(cfg.rows * cfg.cols, e);
      case EncoderSlot(e) => BlankReadsZero(cfg.encoders, e);
      case NoSlot =>
    }
  }

  /** From the blank cache that the keyboard starts with, every release of a run is resolved on the layer
      of its last press. */
  lemma RunsArePaired(cfg: Config, ls: Layers, steps: seq<Step>)
    requires forall i :: 0 <= i < |steps| && steps[i].KeyEvent? ==> GoodKey(cfg, steps[i].key)
    ensures Paired(cfg, Run(cfg, Initial(cfg, ls), steps).trace)
  {
    hide Run, Paired, InStep, GoodKey;
    InitialIsInStep(cfg, ls);
    ReleaseFindsPress(cfg, Initial(cfg, ls), steps);
  }

  // ---------------------------------------------------------------- key by key

  /** The layers in force after the first `n` steps. */
  function LayersAfter(ls: Layers, steps: seq<Step>, n: nat): Layers
    requires n <= |steps|
  {
    if n == 0 then ls
    else if steps[n - 1].Change? then steps[n - 1].layers
    else LayersAfter(ls, steps, n - 1)
  }

  /** The step, among the first `n`, that was the last press of a key for which `same` holds. */
  function LastPressBefore(steps: seq<Step>, n: nat, same: KeyPos -> bool): (m: int)
    requires n <= |steps|
    ensures -1 <= m < n && (m >= 0 ==> steps[m].KeyEvent? && steps[m].pressed && same(steps[m].key))
    ensures forall k :: m < k < n && steps[k].KeyEvent? && steps[k].pressed ==> !same(steps[k].key)
  {
    if n == 0 then -1
    else if steps[n - 1].KeyEvent? && steps[n - 1].pressed && same(steps[n - 1].key) then n - 1
    else LastPressBefore(steps, n - 1, same)
  }

  ghost predicate GoodSteps(cfg: Config, steps: seq<Step>) {
    forall i :: 0 <= i < |steps| && steps[i].KeyEvent? ==> GoodKey(cfg, steps[i].key)
  }

  lemma GoodPrefix(cfg: Config, steps: seq<Step>, n: nat)
    requires n <= |steps| && GoodSteps(cfg, steps)
    ensures GoodSteps(cfg, steps[..n])
  {
    forall i | 0 <= i < n && steps[..n][i].KeyEvent? ensures GoodKey(cfg, steps[..n][i].key) {
      assert steps[..n][i] == steps[i];
    }
  }

  function After(cfg: Config, s: State, step: Step): (t: State)
    requires Valid(cfg, s) && (step.KeyEvent? ==> GoodKey(cfg, step.key))
    ensures Valid(cfg, t)
  {
    match step
    case Change(ls) => s.(layers := ls)
    case KeyEvent(pressed, key) => StoreOrGet(cfg, s, pressed, key)
  }

  lemma {:induction false} RunSnoc(cfg: Config, s: State, steps: seq<Step>, n: nat)
    requires Valid(cfg, s) && n < |steps| && GoodSteps(cfg, steps)
    requires GoodSteps(cfg, steps[..n]) && GoodSteps(cfg, steps[..n + 1])
    ensures steps[n].KeyEvent? ==> GoodKey(cfg, steps[n].key)
    ensures Run(cfg, s, steps[..n + 1]) == After(cfg, Run(cfg, s, steps[..n]), steps[n])
    decreases n
  {
    hide StoreOrGet, GoodKey;
    if n > 0 {
      assert steps[0].KeyEvent? ==> GoodKey(cfg, steps[0].key);
      var t := After(cfg, s, steps[0]);
      var rest := steps[1..];
      assert GoodSteps(cfg, rest) by {
        forall i | 0 <= i < |rest| && rest[i].KeyEvent? ensures GoodKey(cfg, rest[i].key) {
          assert rest[i] == steps[i + 1];
        }
      }
      GoodPrefix(cfg, rest, n - 1);
      GoodPrefix(cfg, rest, n);
      RunSnoc(cfg, t, rest, n - 1);
      assert steps[..n + 1][1..] == rest[..n] && steps[..n][1..] == rest[..n - 1] && steps[..n + 1][0] == steps[0];
    } else {
      assert steps[..1] == [steps[0]] && steps[..0] == [] && steps[..1][1..] == [];
    }
  }

  /** The state after `n` steps from the start. */
  function StateAt(cfg: Config, ls: Layers, steps: seq<Step>, n: nat): (s: State)
    requires n <= |steps| && GoodSteps(cfg, steps)
    ensures Valid(cfg, s)
  {
    GoodPrefix(cfg, steps, n);
    Run(cfg, Initial(cfg, ls), steps[..n])
  }

  lemma StateAtNext(cfg: Config, ls: Layers, steps: seq<Step>, n: nat)
    requires n < |steps| && GoodSteps(cfg, steps)
    ensures steps[n].KeyEvent? ==> GoodKey(cfg, steps[n].key)
    ensures StateAt(cfg, ls, steps, n + 1) == After(cfg, StateAt(cfg, ls, steps, n), steps[n])
  {
    hide Run, After, GoodKey;
    GoodPrefix(cfg, steps, n);
    GoodPrefix(cfg, steps, n + 1);
    RunSnoc(cfg, Initial(cfg, ls), steps, n);
  }

  lemma {:induction false} LayersAt(cfg: Config, ls: Layers, steps: seq<Step>, n: nat)
    requires n <= |steps| && GoodSteps(cfg, steps)
    ensures StateAt(cfg, ls, steps, n).layers == LayersAfter(ls, steps, n)
    decreases n
  {
    hide Run, Blank, GoodSteps, StateAt, Update, Read;
    if n > 0 {
      LayersAt(cfg, ls, steps, n - 1);
      StateAtNext(cfg, ls, steps, n - 1);
    } else {
      StartsInitial(cfg, ls, steps);
    }
  }

  lemma StartsInitial(cfg: Config, ls: Layers, steps: seq<Step>)
    requires GoodSteps(cfg, steps)
    ensures StateAt(cfg, ls, steps, 0) == Initial(cfg, ls)
  {
    assert steps[..0] == [];
  }

  /** The slot's last press, told by steps. */
  lemma {:induction false} LastPressBySteps(cfg: Config, ls: Layers, steps: seq<Step>, n: nat, slot: Slot,
      same: KeyPos -> bool)
    requires n <= |steps| && GoodSteps(cfg, steps)
    requires forall i :: 0 <= i < n && steps[i].KeyEvent? ==>
      (same(steps[i].key) <==> SlotOf(cfg, steps[i].key) == slot)
    ensures var m := LastPressBefore(steps, n, same);
      LastPress(cfg, StateAt(cfg, ls, steps, n).trace, slot)
      == if m == -1 then 0 else TopLayer(LayersAfter(ls, steps, m), steps[m].key)
    decreases n
  {
    hide Run, Blank, GoodSteps, StateAt, Update, Read, TopLayer, LastPress, SlotOf, GoodKey;
    if n == 0 {
      StartsInitial(cfg, ls, steps);
      NoPressYet(cfg, slot);
    } else {
      LastPressBySteps(cfg, ls, steps, n - 1, slot, same);
      StateAtNext(cfg, ls, steps, n - 1);
      LayersAt(cfg, ls, steps, n - 1);
      var s := StateAt(cfg, ls, steps, n - 1);
      if steps[n - 1].KeyEvent? {
        var t := StateAt(cfg, ls, steps, n);
        LastPressSnoc(cfg, s.trace, t.trace[|s.trace|], slot);
        assert t.trace == s.trace + [t.trace[|s.trace|]];
      }
    }
  }

  lemma NoPressYet(cfg: Config, slot: Slot)
    ensures LastPress(cfg, [], slot) == 0
  {
  }

  /** The layer that the event of step `n` is resolved on. */
  function ResolvedOn(cfg: Config, ls: Layers, steps: seq<Step>, n: nat): nat
    requires n < |steps| && GoodSteps(cfg, steps) && steps[n].KeyEvent?
  {
    var trace := StateAt(cfg, ls, steps, n + 1).trace;
    if trace == [] then 0 else trace[|trace| - 1].layer
  }

  /** How an event is resolved, for a slot told by the keys that share it. */
  lemma ResolvedBySlot(cfg: Config, ls: Layers, steps: seq<Step>, n: nat, slot: Slot, same: KeyPos -> bool)
    requires n < |steps| && GoodSteps(cfg, steps) && steps[n].KeyEvent? && slot == SlotOf(cfg, steps[n].key)
    requires forall i :: 0 <= i < n && steps[i].KeyEvent? ==>
      (same(steps[i].key) <==> SlotOf(cfg, steps[i].key) == slot)
    ensures var m := LastPressBefore(steps, n, same);
      ResolvedOn(cfg, ls, steps, n) ==
      if steps[n].pressed then TopLayer(LayersAfter(ls, steps, n), steps[n].key)
      else if slot == NoSlot || m == -1 then 0
      else TopLayer(LayersAfter(ls, steps, m), steps[m].key)
  {
    hide Run, Blank, GoodSteps, StateAt, Update, Read, TopLayer, LastPress, SlotOf, GoodKey, Paired;
    var s := StateAt(cfg, ls, steps, n);
    StateAtNext(cfg, ls, steps, n);
    LayersAt(cfg, ls, steps, n);
    LastPressBySteps(cfg, ls, steps, n, slot, same);
    StateInStep(cfg, ls, steps, n);
    ReadNoSlot(cfg, s);
  }

  lemma StateInStep(cfg: Config, ls: Layers, steps: seq<Step>, n: nat)
    requires n <= |steps| && GoodSteps(cfg, steps)
    ensures InStep(cfg, StateAt(cfg, ls, steps, n))
  {
    hide Run, InStep, Paired, GoodKey;
    GoodPrefix(cfg, steps, n);
    InitialIsInStep(cfg, ls);
    ReleaseFindsPress(cfg, Initial(cfg, ls), steps[..n]);
  }

  /** Every key of the matrix, by row and column, whatever the layers and the keymap do in between: a press
      is resolved on the layer that is on top for it then, and a release on the layer that was on top at that
      same key's last press, or 0 if there was none. (Row 240 is Vial's own.) */
  lemma KeyIsReleasedOnItsLayer(cfg: Config, ls: Layers, steps: seq<Step>, n: nat)
    requires n < |steps| && GoodSteps(cfg, steps) && steps[n].KeyEvent?
    requires steps[n].key.row < cfg.rows && steps[n].key.col < cfg.cols && steps[n].key.row != 240
    ensures var key := steps[n].key; var m := LastPressBefore(steps, n, (k: KeyPos) => k == key);
      if steps[n].pressed then IsTop(LayersAfter(ls, steps, n), key, ResolvedOn(cfg, ls, steps, n))
      else if m == -1 then ResolvedOn(cfg, ls, steps, n) == 0
      else IsTop(LayersAfter(ls, steps, m), key, ResolvedOn(cfg, ls, steps, n))
  {
    hide ResolvedOn, TopLayer, IsTop, GoodKey;
    var key := steps[n].key;
    var same := (k: KeyPos) => k == key;
    forall i | 0 <= i < n && steps[i].KeyEvent?
      ensures same(steps[i].key) <==> SlotOf(cfg, steps[i].key) == SlotOf(cfg, key)
    {
      if SlotOf(cfg, steps[i].key) == SlotOf(cfg, key) { MatrixSlotsDiffer(cfg, key, steps[i].key); }
    }
    ResolvedBySlot(cfg, ls, steps, n, SlotOf(cfg, key), same);
    var m := LastPressBefore(steps, n, same);
    TopLayerIsTop(LayersAfter(ls, steps, n), key);
    if m >= 0 { TopLayerIsTop(LayersAfter(ls, steps, m), key); }
  }

  /** An event of an encoder, turned either way: clockwise events come from row 253 and the others from row
      252, outside the matrix, and the column is the encoder's number. */
  predicate FromEncoder(cfg: Config, k: KeyPos, id: nat) {
    (k.row == 253 || k.row == 252) && !(k.row < cfg.rows && k.col < cfg.cols) && k.col == id
  }

  /** Every encoder, by number: a release is resolved on the layer that was on top at the last press of the
      same encoder, in either direction, or 0 if there was none. */
  lemma EncoderIsReleasedOnItsLayer(cfg: Config, ls: Layers, steps: seq<Step>, n: nat, id: nat)
    requires n < |steps| && GoodSteps(cfg, steps) && steps[n].KeyEvent? && FromEncoder(cfg, steps[n].key, id)
    ensures var m := LastPressBefore(steps, n, (k: KeyPos) => FromEncoder(cfg, k, id));
      if steps[n].pressed then IsTop(LayersAfter(ls, steps, n), steps[n].key, ResolvedOn(cfg, ls, steps, n))
      else if m == -1 then ResolvedOn(cfg, ls, steps, n) == 0
      else IsTop(LayersAfter(ls, steps, m), steps[m].key, ResolvedOn(cfg, ls, steps, n))
  {
    hide ResolvedOn, TopLayer, IsTop, GoodKey;
    var same := (k: KeyPos) => FromEncoder(cfg, k, id);
    ResolvedBySlot(cfg, ls, steps, n, EncoderSlot(id), same);
    var m := LastPressBefore(steps, n, same);
    TopLayerIsTop(LayersAfter(ls, steps, n), steps[n].key);
    if m >= 0 { TopLayerIsTop(LayersAfter(ls, steps, m), steps[m].key); }
  }

  /** Vial's own row and all other positions that are neither a key of the matrix nor an encoder: a release is
      resolved on layer 0. */
  lemma OtherPositionsAreReleasedOnZero(cfg: Config, ls: Layers, steps: seq<Step>, n: nat)
    requires n < |steps| && GoodSteps(cfg, steps) && steps[n].KeyEvent?
    requires var key := steps[n].key;
      key.row == 240 || (!(key.row < cfg.rows && key.col < cfg.cols) && key.row != 253 && key.row != 252)
    ensures if steps[n].pressed then IsTop(LayersAfter(ls, steps, n), steps[n].key, ResolvedOn(cfg, ls, steps, n))
            else ResolvedOn(cfg, ls, steps, n) == 0
  {
    hide ResolvedOn, TopLayer, IsTop, GoodKey;
    ResolvedBySlot(cfg, ls, steps, n, NoSlot, (k: KeyPos) => SlotOf(cfg, k) == NoSlot);
    TopLayerIsTop(LayersAfter(ls, steps, n), steps[n].key);
  }
}
