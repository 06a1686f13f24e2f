/** Layer keycodes from end to end: quantum/keymap_common.c compiles them to 16-bit action words with the
    encoders of quantum/action_code.h, and quantum/action.c decodes the words and changes the layers. */
module LayerActions {
  import opened ActionCode

  import opened RowBits

  /** layer_state_t, 32 layers wide. */
  type LayerMask = bv32

  // ---------------------------------------------------------------- the compiler

  const QK_LAYER_TAP: bv16 := 0x4000
  const QK_LAYER_MOD: bv16 := 0x5000
  const QK_TO: bv16 := 0x5200
  const QK_MOMENTARY: bv16 := 0x5220
  const QK_DEF_LAYER: bv16 := 0x5240
  const QK_TOGGLE_LAYER: bv16 := 0x5260
  const QK_LAYER_TAP_TOGGLE: bv16 := 0x52C0

  const ON_PRESS: bv16 := 1
  const ON_RELEASE: bv16 := 2

  const OP_BIT_AND: bv16 := 0
  const OP_BIT_OR: bv16 := 1
  const OP_BIT_XOR: bv16 := 2
  const OP_BIT_SET: bv16 := 3

  /** ACTION_LAYER_BITOP */
  function BitOp(op: bv16, part: bv16, bits: bv16, on: bv16): ActionWord {
    (ACT_LAYER << 12) | (op << 10) | (on << 8) | (part << 5) | (bits & 0x1F)
  }

  /** ACTION_LAYER_TAP: layers above 15 spill into the kind bits. */
  function LayerTap(layer: bv16, code: bv16): ActionWord {
    (ACT_LAYER_TAP << 12) | (layer << 8) | code
  }

  /** ACTION_LAYER_MODS: the mods are not cut to the eight bits of their field. */
  function LayerMods(layer: bv16, mods: bv16): ActionWord {
    (ACT_LAYER_MODS << 12) | (layer << 8) | mods
  }

  /** `1 << ((layer) % 4)` */
  function NibbleBit(layer: bv16): bv16 {
    1 << (layer & 3)
  }

  /** Five-bit mods, spread to the eight bits of a modifier report: right-hand ones are the high nibble. */
  function SpreadMods(mods: bv16): bv16 {
    if mods & 0x10 != 0 then mods << 4 else mods
  }

  /** The layer cases of action_for_keycode, with no keys swapped by the magic options; its other cases
      are not layer actions and give Other. One-shot layers are not among them. */
  datatype Compiled = Action(word: ActionWord) | Other

  function ActionForKeycode(keycode: bv16): Compiled {
    var layer := keycode & 0x1F;
    if QK_LAYER_TAP <= keycode <= 0x4FFF then Action(LayerTap((keycode >> 8) & 0xF, keycode & 0xFF))
    else if QK_LAYER_MOD <= keycode <= 0x51FF then
      Action(LayerMods((keycode >> 5) & 0xF, SpreadMods(keycode & 0x1F)))
    else if QK_TO <= keycode <= 0x521F then Action(BitOp(OP_BIT_SET, layer >> 2, NibbleBit(layer), ON_PRESS))
    else if QK_MOMENTARY <= keycode <= 0x523F then Action(LayerTap(layer, OP_ON_OFF))
    else if QK_DEF_LAYER <= keycode <= 0x525F then Action(BitOp(OP_BIT_SET, layer >> 2, NibbleBit(layer), 0))
    else if QK_TOGGLE_LAYER <= keycode <= 0x527F then
      Action(BitOp(OP_BIT_XOR, layer >> 2, NibbleBit(layer), ON_RELEASE))
    else if QK_LAYER_TAP_TOGGLE <= keycode <= 0x52DF then Action(LayerTap(layer, OP_TAP_TOGGLE))
    else Other
  }

  // ---------------------------------------------------------------- the interpreter

  /** layer_state and default_layer_state */
  datatype State = State(layers: LayerMask, defaults: LayerMask)

  function Widen(x: bv16): LayerMask {
    x as bv32
  }

  /** The operand of a bitwise layer operation, `bits | mask`. */
  function Operand(a: ActionWord): LayerMask {
    var shift := Widen((a >> 5) & 7) << 2;
    var bits := Widen(a & 0xF) << shift;
    var mask: LayerMask := if (a >> 4) & 1 != 0 then !((0xF as bv32) << shift) else 0;
    bits | mask
  }

  /** layer_or and layer_on, layer_xor, layer_and, and layer_off, as functions of the old mask. */
  function Or(mask: LayerMask, m: LayerMask): LayerMask { mask | m }
  function Xor(mask: LayerMask, m: LayerMask): LayerMask { mask ^ m }
  function And(mask: LayerMask, m: LayerMask): LayerMask { mask & m }
  function Not(m: LayerMask): LayerMask { !m }
  function Off(mask: LayerMask, m: LayerMask): LayerMask { And(mask, Not(m)) }

  function Combine(op: bv16, state: LayerMask, operand: LayerMask): LayerMask {
    if op == OP_BIT_AND then And(state, operand)
    else if op == OP_BIT_OR then Or(state, operand)
    else if op == OP_BIT_XOR then Xor(state, operand)
    else operand
  }

  /** `(layer_state_t)1 << layer` for the layer field of a layer-tap word. */
  function LayerBit(a: ActionWord): LayerMask {
    1 << Widen((a >> 8) & 0x1F)
  }

  /** layer_on and layer_off. */
  function Switched(mask: LayerMask, m: LayerMask, on: bool): LayerMask {
    if on then Or(mask, m) else Off(mask, m)
  }

  /** The switch of process_action over the code of a layer-tap word, for a record with `taps` taps and
      the setting tapping_toggle, one-shot layers being off. */
  function LayerTapped(mask: LayerMask, a: ActionWord, pressed: bool, taps: nat, toggle: nat): LayerMask {
    if Code(a) == OP_TAP_TOGGLE then
      if (if pressed then taps < toggle else taps <= toggle) then Xor(mask, LayerBit(a)) else mask
    else if Code(a) == OP_ON_OFF || Code(a) == OP_ONESHOT then Switched(mask, LayerBit(a), pressed)
    else if Code(a) == OP_OFF_ON then Switched(mask, LayerBit(a), !pressed)
    else if Code(a) == OP_SET_CLEAR then if pressed then LayerBit(a) else 0
    else if taps == 0 then Switched(mask, LayerBit(a), pressed)
    else mask
  }

  /** `(layer_state_t)1 << layer` for the layer field of a layer-mods word. */
  function ModsLayerBit(a: ActionWord): LayerMask {
    1 << Widen(Mods(a))
  }

  /** What process_action does to the layers. */
  function ProcessAction(s: State, a: ActionWord, pressed: bool, taps: nat, toggle: nat): State {
    if Kind(a) == ACT_LAYER then
      var on, op := (a >> 8) & 3, (a >> 10) & 3;
      if on == 0 then
        if pressed then s else s.(defaults := Combine(op, s.defaults, Operand(a)))
      else if on & (if pressed then ON_PRESS else ON_RELEASE) != 0 then s.(layers := Combine(op, s.layers, Operand(a)))
      else s
    else if Kind(a) == ACT_LAYER_MODS then s.(layers := Switched(s.layers, ModsLayerBit(a), pressed))
    else if Kind(a) == ACT_LAYER_TAP || Kind(a) == ACT_LAYER_TAP_EXT then
      s.(layers := LayerTapped(s.layers, a, pressed, taps, toggle))
    else s
  }

  // ---------------------------------------------------------------- action word to layer effect

  /** Layer `i` is on in a layer mask, as layer_state_cmp tests it. */
  predicate IsOn(mask: LayerMask, i: bv16)
    requires i < 32
  {
    Hits(mask, Bit(i))
  }

  function Bit(layer: bv16): LayerMask
    requires layer < 32
  {
    1 << Widen(layer)
  }

  lemma BitIsSingle(l: bv16)
    requires l < 32
    ensures Single(Bit(l))
  {
  }

  lemma BitsDiffer(l: bv16, i: bv16)
    requires l < 32 && i < 32 && l != i
    ensures Bit(l) != Bit(i)
  {
  }

  lemma OrHits(mask: LayerMask, m: LayerMask, n: LayerMask)
    ensures Hits(Or(mask, m), n) <==> Hits(mask, n) || Hits(m, n)
  {
    hide Hits;
    assert Or(mask, m) == With(mask, m);
    WithHits(mask, m, n);
  }

  lemma OffHits(mask: LayerMask, m: LayerMask, n: LayerMask)
    requires Single(n)
    ensures Hits(Off(mask, m), n) <==> Hits(mask, n) && !Hits(m, n)
  {
    hide Hits, Single, And, Not;
    AndKeeps(mask, Not(m), n);
    NotHits(m, n);
  }

  lemma AndKeeps(x: LayerMask, y: LayerMask, n: LayerMask)
    requires Single(n)
    ensures Hits(And(x, y), n) <==> Hits(x, n) && Hits(y, n)
  {
    hide Hits, Single;
    AndHits(x, y, n);
  }

  lemma XorHits(x: LayerMask, y: LayerMask, n: LayerMask)
    requires Single(n)
    ensures Hits(Xor(x, y), n) <==> Hits(x, n) != Hits(y, n)
  {
    hide Hits, Single;
    XorBit(x, y, n);
  }

  lemma NotHits(m: LayerMask, n: LayerMask)
    requires Single(n)
    ensures Hits(Not(m), n) <==> !Hits(m, n)
  {
    NotIsXor(m);
    XorBit(m, 0xFFFF_FFFF, n);
  }

  lemma NotIsXor(m: LayerMask)
    ensures Not(m) == m ^ 0xFFFF_FFFF
  {
  }

  lemma HitsItself(m: LayerMask)
    requires Single(m)
    ensures Hits(m, m)
  {
  }

  lemma Misses(m: LayerMask, n: LayerMask)
    requires Disjoint(m, n)
    ensures !Hits(m, n)
  {
  }

  lemma BitsOfOps(mask: LayerMask, l: bv16, i: bv16)
    requires l < 32 && i < 32
    ensures IsOn(Or(mask, Bit(l)), i) <==> i == l || IsOn(mask, i)
    ensures IsOn(Off(mask, Bit(l)), i) <==> i != l && IsOn(mask, i)
    ensures IsOn(Xor(mask, Bit(l)), i) <==> if i == l then !IsOn(mask, i) else IsOn(mask, i)
    ensures IsOn(Bit(l), i) <==> i == l
  {
    hide Bit, Hits, Single, Disjoint, Or, Off;
    BitIsSingle(l);
    BitIsSingle(i);
    if i == l {
      HitsItself(Bit(l));
    } else {
      BitsDiffer(l, i);
      SinglesDisjoint(Bit(l), Bit(i));
      Misses(Bit(l), Bit(i));
    }
    OrHits(mask, Bit(l), Bit(i));
    OffHits(mask, Bit(l), Bit(i));
    XorBit(mask, Bit(l), Bit(i));
  }

  /** The operand of a bitwise operation: the four low bits for the layers of its part, and the bit
      behind them for all other layers. */
  lemma OperandBits(a: ActionWord, i: bv16)
    requires i < 32
    ensures IsOn(Operand(a), i) <==> if (a >> 5) & 7 == i >> 2 then (a >> (i & 3)) & 1 == 1 else (a >> 4) & 1 == 1
  {
  }

  lemma {:induction false} CombineBits(op: bv16, x: LayerMask, y: LayerMask, i: bv16)
    requires i < 32 && op < 4
    ensures IsOn(Combine(op, x, y), i) <==>
      if op == 0 then IsOn(x, i) && IsOn(y, i)
      else if op == 1 then IsOn(x, i) || IsOn(y, i)
      else if op == 2 then IsOn(x, i) != IsOn(y, i)
      else IsOn(y, i)
  {
    hide Bit, Hits, Single, And, Or, Xor;
    BitIsSingle(i);
    OrHits(x, y, Bit(i));
    AndKeeps(x, y, Bit(i));
    XorHits(x, y, Bit(i));
  }

  lemma LayerWordKind(a: ActionWord)
    ensures Kind(a) == ACT_LAYER <==> 0x8000 <= a <= 0x8FFF
    ensures (a >> 8) & 3 & ON_PRESS != 0 <==> (a >> 8) & 1 == 1
    ensures (a >> 8) & 3 & ON_RELEASE != 0 <==> (a >> 9) & 1 == 1
  {
  }

  lemma LayerWordState(s: State, a: ActionWord, pressed: bool, taps: nat, toggle: nat)
    requires 0x8000 <= a <= 0x8FFF
    ensures
      var byDefault, op := (a >> 8) & 3 == 0, (a >> 10) & 3;
      var live := if byDefault then !pressed else (if pressed then a >> 8 else a >> 9) & 1 == 1;
      ProcessAction(s, a, pressed, taps, toggle) ==
        if !live then s
        else if byDefault then s.(defaults := Combine(op, s.defaults, Operand(a)))
        else s.(layers := Combine(op, s.layers, Operand(a)))
  {
    hide Operand, Combine, Kind;
    LayerWordKind(a);
  }

  /** Layer words, 0x8000 to 0x8FFF: bits 8 and 9 say whether they act on press or release, or on the
      default layers on release if neither is set; bits 10 and 11 choose and, or, exclusive or, or
      replacement by the operand. Nothing else changes. */
  lemma LayerWordBits(s: State, a: ActionWord, pressed: bool, taps: nat, toggle: nat, i: bv16)
    requires 0x8000 <= a <= 0x8FFF && i < 32
    ensures
      var t := ProcessAction(s, a, pressed, taps, toggle);
      var bit := if (a >> 5) & 7 == i >> 2 then (a >> (i & 3)) & 1 == 1 else (a >> 4) & 1 == 1;
      var byDefault := (a >> 8) & 3 == 0;
      var live := if byDefault then !pressed else (if pressed then a >> 8 else a >> 9) & 1 == 1;
      var was := IsOn(if byDefault then s.defaults else s.layers, i);
      var op := (a >> 10) & 3;
      var now := if op == 0 then was && bit else if op == 1 then was || bit else if op == 2 then was != bit else bit;
      && (IsOn(t.layers, i) <==> if live && !byDefault then now else IsOn(s.layers, i))
      && (IsOn(t.defaults, i) <==> if live && byDefault then now else IsOn(s.defaults, i))
  {
    hide IsOn, Operand, Combine, ProcessAction;
    LayerWordState(s, a, pressed, taps, toggle);
    OperandBits(a, i);
    CombineBits((a >> 10) & 3, s.layers, Operand(a), i);
    CombineBits((a >> 10) & 3, s.defaults, Operand(a), i);
  }

  /** Layer-tap words, 0xA000 to 0xBFFF, act on the layer of bits 8 to 12, by their low byte: 0xF0 flips
      it unless the key was tapped more often than the setting, or as often and is pressed; 0xF1 and 0xF4
      hold it on and 0xF2 off; 0xF3 leaves only it on, and on release no layer at all; any other
      code holds it on if the key was not tapped. Layer-mods words, 0x9000 to 0x9FFF, hold on the layer of
      bits 8 to 11. Words of all other kinds leave the layers as they are, and only layer words change
      the default layers. */
  lemma TapWordBits(s: State, a: ActionWord, pressed: bool, taps: nat, toggle: nat, i: bv16)
    requires !(0x8000 <= a <= 0x8FFF) && i < 32
    ensures
      var t := ProcessAction(s, a, pressed, taps, toggle); var was := IsOn(s.layers, i);
      && t.defaults == s.defaults
      && (IsOn(t.layers, i) <==>
          if 0x9000 <= a <= 0x9FFF then (if (a >> 8) & 0xF == i then pressed else was)
          else if !(0xA000 <= a <= 0xBFFF) then was
          else if a & 0xFF == 0xF3 then pressed && (a >> 8) & 0x1F == i
          else if (a >> 8) & 0x1F != i then was
          else if a & 0xFF == 0xF0 then was != (taps < toggle || (taps == toggle && !pressed))
          else if a & 0xFF == 0xF1 || a & 0xFF == 0xF4 || (taps == 0 && a & 0xFF != 0xF2) then pressed
          else if a & 0xFF == 0xF2 then !pressed
          else was)
  {
    hide IsOn, Bit, Or, Off, Xor, And;
    LayerFields(a);
    NothingOn(i);
    BitsOfOps(s.layers, (a >> 8) & 0x1F, i);
    BitsOfOps(s.layers, (a >> 8) & 0xF, i);
  }

  lemma LayerFields(a: ActionWord)
    ensures LayerBit(a) == Bit((a >> 8) & 0x1F) && ModsLayerBit(a) == Bit((a >> 8) & 0xF)
  {
  }

  lemma NothingOn(i: bv16)
    requires i < 32
    ensures !IsOn(0, i)
  {
  }

  // ---------------------------------------------------------------- keycode to layer effect

  /** The layer keys: momentary, toggle, go-to, set default, tap-toggle, layer-tap with the key it taps, and
      layer-mods with five-bit mods. */
  datatype LayerKey =
    | MO(layer: bv16) | TG(layer: bv16) | TO(layer: bv16) | DF(layer: bv16) | TT(layer: bv16)
    | LT(layer: bv16, code: bv16) | LM(layer: bv16, mods: bv16)

  /** The arguments that fit the keycode. */
  predicate IsKey(k: LayerKey) {
    match k
    case LT(layer, code) => layer < 16 && code < 0x100
    case LM(layer, mods) => layer < 16 && mods < 0x20
    case _ => k.layer < 32
  }

  /** The keycode of a layer key. */
  function Keycode(k: LayerKey): bv16 {
    match k
    case MO(layer) => QK_MOMENTARY | layer
    case TG(layer) => QK_TOGGLE_LAYER | layer
    case TO(layer) => QK_TO | layer
    case DF(layer) => QK_DEF_LAYER | layer
    case TT(layer) => QK_LAYER_TAP_TOGGLE | layer
    case LT(layer, code) => QK_LAYER_TAP | (layer << 8) | code
    case LM(layer, mods) => QK_LAYER_MOD | (layer << 5) | mods
  }

  /** The layer key that a keycode stands for. */
  ghost function KeyOf(keycode: bv16): LayerKey {
    var layer := keycode & 0x1F;
    if keycode <= 0x4FFF then LT((keycode >> 8) & 0xF, keycode & 0xFF)
    else if keycode <= 0x51FF then LM((keycode >> 5) & 0xF, layer)
    else if keycode <= 0x521F then TO(layer)
    else if keycode <= 0x523F then MO(layer)
    else if keycode <= 0x525F then DF(layer)
    else if keycode <= 0x527F then TG(layer)
    else TT(layer)
  }

  /** The keycodes that are compiled to layer actions are those of the layer keys: every one of the two ranges
      is a layer key's, and a layer key's keycode is in them and stands for no other key. */
  lemma LayerKeycodes(keycode: bv16)
    ensures ActionForKeycode(keycode).Action? <==> 0x4000 <= keycode <= 0x527F || 0x52C0 <= keycode <= 0x52DF
    ensures ActionForKeycode(keycode).Action? ==> IsKey(KeyOf(keycode)) && Keycode(KeyOf(keycode)) == keycode
  {
    hide BitOp, LayerTap, NibbleBit, LayerMods, SpreadMods;
    if 0x4000 <= keycode <= 0x4FFF {
      SplitLayerTap(keycode);
    } else if 0x5000 <= keycode <= 0x51FF {
      SplitLayerMods(keycode);
    } else {
      SplitLayer(keycode);
    }
  }

  lemma SplitLayerTap(keycode: bv16)
    requires 0x4000 <= keycode <= 0x4FFF
    ensures QK_LAYER_TAP | (((keycode >> 8) & 0xF) << 8) | (keycode & 0xFF) == keycode
    ensures (keycode >> 8) & 0xF < 16 && keycode & 0xFF < 0x100
  {
  }

  lemma SplitLayerMods(keycode: bv16)
    requires 0x5000 <= keycode <= 0x51FF
    ensures QK_LAYER_MOD | (((keycode >> 5) & 0xF) << 5) | (keycode & 0x1F) == keycode
    ensures (keycode >> 5) & 0xF < 16 && keycode & 0x1F < 0x20
  {
  }

  lemma SplitLayer(keycode: bv16)
    ensures keycode & 0x1F < 32
    ensures 0x5200 <= keycode <= 0x521F ==> QK_TO | (keycode & 0x1F) == keycode
    ensures 0x5220 <= keycode <= 0x523F ==> QK_MOMENTARY | (keycode & 0x1F) == keycode
    ensures 0x5240 <= keycode <= 0x525F ==> QK_DEF_LAYER | (keycode & 0x1F) == keycode
    ensures 0x5260 <= keycode <= 0x527F ==> QK_TOGGLE_LAYER | (keycode & 0x1F) == keycode
    ensures 0x52C0 <= keycode <= 0x52DF ==> QK_LAYER_TAP_TOGGLE | (keycode & 0x1F) == keycode
  {
  }

  lemma KeycodeIsOwn(k: LayerKey)
    requires IsKey(k)
    ensures KeyOf(Keycode(k)) == k && ActionForKeycode(Keycode(k)).Action?
  {
    hide BitOp, LayerTap, NibbleBit, LayerMods, SpreadMods;
    match k
    case LT(l, code) => LayerTapKeycode(l, code);
    case LM(l, mods) => LayerModsKeycode(l, mods);
    case _ => LayerField(k.layer);
  }

  lemma LayerTapKeycode(layer: bv16, code: bv16)
    requires layer < 16 && code < 0x100
    ensures var k := QK_LAYER_TAP | (layer << 8) | code;
      0x4000 <= k <= 0x4FFF && (k >> 8) & 0xF == layer && k & 0xFF == code
  {
  }

  lemma LayerModsKeycode(layer: bv16, mods: bv16)
    requires layer < 16 && mods < 0x20
    ensures var k := QK_LAYER_MOD | (layer << 5) | mods;
      0x5000 <= k <= 0x51FF && (k >> 5) & 0xF == layer && k & 0x1F == mods
  {
  }

  lemma LayerField(layer: bv16)
    requires layer < 32
    ensures 0x5200 <= QK_TO | layer <= 0x521F && (QK_TO | layer) & 0x1F == layer
    ensures 0x5220 <= QK_MOMENTARY | layer <= 0x523F && (QK_MOMENTARY | layer) & 0x1F == layer
    ensures 0x5240 <= QK_DEF_LAYER | layer <= 0x525F && (QK_DEF_LAYER | layer) & 0x1F == layer
    ensures 0x5260 <= QK_TOGGLE_LAYER | layer <= 0x527F && (QK_TOGGLE_LAYER | layer) & 0x1F == layer
    ensures 0x52C0 <= QK_LAYER_TAP_TOGGLE | layer <= 0x52DF && (QK_LAYER_TAP_TOGGLE | layer) & 0x1F == layer
  {
  }

  /** The action word of a layer key, by kind of key. */
  lemma CompiledWord(k: LayerKey)
    requires IsKey(k)
    ensures ActionForKeycode(Keycode(k)) == Action(match k
      case MO(l) => LayerTap(l, OP_ON_OFF)
      case TG(l) => BitOp(OP_BIT_XOR, l >> 2, NibbleBit(l), ON_RELEASE)
      case TO(l) => BitOp(OP_BIT_SET, l >> 2, NibbleBit(l), ON_PRESS)
      case DF(l) => BitOp(OP_BIT_SET, l >> 2, NibbleBit(l), 0)
      case TT(l) => LayerTap(l, OP_TAP_TOGGLE)
      case LT(l, code) => LayerTap(l, code)
      case LM(l, mods) => LayerMods(l, SpreadMods(mods)))
  {
    hide BitOp, LayerTap, NibbleBit, LayerMods, SpreadMods, ActionForKeycode;
    match k
    case LT(l, code) => CompiledLayerTap(l, code);
    case LM(l, mods) => CompiledLayerMods(l, mods);
    case _ => CompiledLayer(k);
  }

  lemma CompiledLayer(k: LayerKey)
    requires !k.LT? && !k.LM? && k.layer < 32
    ensures ActionForKeycode(Keycode(k)) == Action(match k
      case MO(l) => LayerTap(l, OP_ON_OFF)
      case TG(l) => BitOp(OP_BIT_XOR, l >> 2, NibbleBit(l), ON_RELEASE)
      case TO(l) => BitOp(OP_BIT_SET, l >> 2, NibbleBit(l), ON_PRESS)
      case DF(l) => BitOp(OP_BIT_SET, l >> 2, NibbleBit(l), 0)
      case TT(l) => LayerTap(l, OP_TAP_TOGGLE))
  {
    hide BitOp, LayerTap, NibbleBit, LayerMods, SpreadMods;
    LayerField(k.layer);
  }

  lemma CompiledLayerTap(l: bv16, code: bv16)
    requires l < 16 && code < 0x100
    ensures ActionForKeycode(Keycode(LT(l, code))) == Action(LayerTap(l, code))
  {
    hide LayerTap;
    LayerTapKeycode(l, code);
  }

  lemma CompiledLayerMods(l: bv16, mods: bv16)
    requires l < 16 && mods < 0x20
    ensures ActionForKeycode(Keycode(LM(l, mods))) == Action(LayerMods(l, SpreadMods(mods)))
  {
    hide LayerMods, SpreadMods;
    LayerModsKeycode(l, mods);
  }

  /** What the decoder sees in a layer-tap word: one of its two kinds, all five layer bits, and the code. */
  lemma LayerTapWord(layer: bv16, code: bv16)
    requires layer < 32 && code < 0x100
    ensures var a := LayerTap(layer, code);
      && Kind(a) != ACT_LAYER && Kind(a) != ACT_LAYER_MODS && (Kind(a) == ACT_LAYER_TAP || Kind(a) == ACT_LAYER_TAP_EXT)
      && Code(a) == code && LayerBit(a) == Bit(layer)
  {
  }

  /** A layer-mods word has the mods in its low byte, right-hand ones in the high nibble; but the bit that says
      right-hand ends up in its layer field, so that the layer is the odd one of its pair. */
  lemma LayerModsWord(layer: bv16, mods: bv16)
    requires layer < 16 && mods < 0x20
    ensures var a := LayerMods(layer, SpreadMods(mods));
      && 0x9000 <= a <= 0x9FFF && (a >> 8) & 0xF == (if mods & 0x10 != 0 then layer | 1 else layer)
      && a & 0xFF == (if mods & 0x10 != 0 then (mods & 0xF) << 4 else mods)
  {
  }

  /** What the decoder sees in the word of a single layer. */
  lemma BitOpWord(layer: bv16, op: bv16, on: bv16, i: bv16)
    requires layer < 32 && op < 4 && on < 4 && i < 32
    ensures var a := BitOp(op, layer >> 2, NibbleBit(layer), on);
      && 0x8000 <= a <= 0x8FFF && (a >> 8) & 3 == on && (a >> 10) & 3 == op
      && ((if (a >> 5) & 7 == i >> 2 then (a >> (i & 3)) & 1 == 1 else (a >> 4) & 1 == 1) <==> i == layer)
  {
  }

  /** A word of a single layer changes that layer's bit, and replaces the others if it is to replace all. */
  lemma SingleLayerBits(s: State, l: bv16, op: bv16, on: bv16, pressed: bool, taps: nat, toggle: nat, i: bv16)
    requires l < 32 && i < 32 && on < 4 && (op == OP_BIT_XOR || op == OP_BIT_SET)
    ensures
      var t := ProcessAction(s, BitOp(op, l >> 2, NibbleBit(l), on), pressed, taps, toggle);
      var live := if on == 0 then !pressed else on & (if pressed then ON_PRESS else ON_RELEASE) != 0;
      && (IsOn(t.layers, i) <==> if !live || on == 0 then IsOn(s.layers, i)
            else if op == OP_BIT_SET then i == l else IsOn(s.layers, i) != (i == l))
      && (IsOn(t.defaults, i) <==> if !live || on != 0 then IsOn(s.defaults, i)
            else if op == OP_BIT_SET then i == l else IsOn(s.defaults, i) != (i == l))
  {
    hide IsOn, ProcessAction, BitOp, NibbleBit;
    BitOpWord(l, op, on, i);
    LayerWordBits(s, BitOp(op, l >> 2, NibbleBit(l), on), pressed, taps, toggle, i);
    OnBits(on);
  }

  lemma OnBits(on: bv16)
    requires on < 4
    ensures on & ON_PRESS != 0 <==> on == 1 || on == 3
    ensures on & ON_RELEASE != 0 <==> on == 2 || on == 3
  {
  }

  /** A layer-tap word with any code but 0xF2 and 0xF3, which no layer key has. */
  lemma LayerTapBits(s: State, l: bv16, code: bv16, pressed: bool, taps: nat, toggle: nat, i: bv16)
    requires l < 32 && code < 0x100 && i < 32 && code != OP_OFF_ON && code != OP_SET_CLEAR
    ensures
      var t := ProcessAction(s, LayerTap(l, code), pressed, taps, toggle); var was := IsOn(s.layers, i);
      && t.defaults == s.defaults
      && (IsOn(t.layers, i) <==>
          if i != l then was
          else if code == OP_TAP_TOGGLE then was != (taps < toggle || (taps == toggle && !pressed))
          else if code == OP_ON_OFF || code == OP_ONESHOT || taps == 0 then pressed
          else was)
  {
    hide Bit, Hits, Or, Off, Xor, And, Kind, Code, LayerBit, LayerTap;
    LayerTapWord(l, code);
    BitsOfOps(s.layers, l, i);
  }

  lemma LayerModsBits(s: State, l: bv16, mods: bv16, pressed: bool, taps: nat, toggle: nat, i: bv16)
    requires l < 16 && mods < 0x20 && i < 32
    ensures
      var t := ProcessAction(s, LayerMods(l, SpreadMods(mods)), pressed, taps, toggle);
      && t.defaults == s.defaults
      && (IsOn(t.layers, i) <==>
          if i == (if mods & 0x10 != 0 then l | 1 else l) then pressed else IsOn(s.layers, i))
  {
    hide IsOn, ProcessAction, LayerMods, SpreadMods;
    LayerModsWord(l, mods);
    TapWordBits(s, LayerMods(l, SpreadMods(mods)), pressed, taps, toggle, i);
  }

  /** A layer key, pressed or released, does to every single layer what its name says, for all layers and any
      layer state: MO holds its layer on, TG flips it on release, TO leaves only it on, DF leaves only
      it on among the default layers, TT flips it unless it was tapped too often, LT holds it on unless the key
      was tapped. LM with left-hand mods holds it on; with right-hand mods it holds on the odd layer of
      the pair instead. All other layers keep their state. */
  lemma LayerKeysMeanWhatTheySay(s: State, k: LayerKey, pressed: bool, taps: nat, toggle: nat, i: bv16)
    requires IsKey(k) && i < 32
    requires k.LT? ==> k.code < 0xF0 || k.code > 0xF4
    ensures ActionForKeycode(Keycode(k)).Action?
    ensures
      var t := ProcessAction(s, ActionForKeycode(Keycode(k)).word, pressed, taps, toggle);
      var was := IsOn(s.layers, i);
      && (IsOn(t.layers, i) <==> match k
            case MO(l) => if i == l then pressed else was
            case TG(l) => if i == l && !pressed then !was else was
            case TO(l) => if pressed then i == l else was
            case DF(l) => was
            case TT(l) => if i == l && (taps < toggle || (taps == toggle && !pressed)) then !was else was
            case LT(l, _) => if i == l && taps == 0 then pressed else was
            case LM(l, mods) => if i == (if mods & 0x10 != 0 then l | 1 else l) then pressed else was)
      && (IsOn(t.defaults, i) <==> if k.DF? && !pressed then i == k.layer else IsOn(s.defaults, i))
  {
    hide IsOn, ProcessAction, ActionForKeycode, Keycode, LayerTap, BitOp, LayerMods, NibbleBit, SpreadMods;
    CompiledWord(k);
    match k
    case LM(l, mods) => LayerModsBits(s, l, mods, pressed, taps, toggle, i);
    case LT(l, code) => LayerTapBits(s, l, code, pressed, taps, toggle, i);
    case TT(l) => LayerTapBits(s, l, OP_TAP_TOGGLE, pressed, taps, toggle, i);
    case MO(l) => LayerTapBits(s, l, OP_ON_OFF, pressed, taps, toggle, i);
    case TG(l) => SingleLayerBits(s, l, OP_BIT_XOR, ON_RELEASE, pressed, taps, toggle, i);
    case TO(l) => SingleLayerBits(s, l, OP_BIT_SET, ON_PRESS, pressed, taps, toggle, i);
    case DF(l) => SingleLayerBits(s, l, OP_BIT_SET, 0, pressed, taps, toggle, i);
  }

  /** A layer-tap key whose tapped code is an operation code is another layer key. */
  lemma LayerTapOfOperation(l: bv16)
    requires l < 16
    ensures ActionForKeycode(Keycode(LT(l, 0xF0))) == ActionForKeycode(Keycode(TT(l)))
    ensures ActionForKeycode(Keycode(LT(l, 0xF1))) == ActionForKeycode(Keycode(MO(l)))
  {
    hide ActionForKeycode, Keycode, LayerTap;
    CompiledWord(LT(l, 0xF0));
    CompiledWord(TT(l));
    CompiledWord(LT(l, 0xF1));
    CompiledWord(MO(l));
  }

  /** Pressed while its layer is off, LM turns it on if and only if its mods are left-hand ones or the layer is odd. */
  lemma LayerModsHitsItsLayer(s: State, l: bv16, mods: bv16, taps: nat, toggle: nat)
    requires l < 16 && mods < 0x20 && !IsOn(s.layers, l)
    ensures ActionForKeycode(Keycode(LM(l, mods))).Action?
    ensures var t := ProcessAction(s, ActionForKeycode(Keycode(LM(l, mods))).word, true, taps, toggle);
      IsOn(t.layers, l) <==> mods & 0x10 == 0 || l & 1 == 1
  {
    hide IsOn, ProcessAction, ActionForKeycode, Keycode;
    LayerKeysMeanWhatTheySay(s, LM(l, mods), true, taps, toggle, l);
    OddLayer(l);
  }

  lemma OddLayer(l: bv16)
    ensures l == l | 1 <==> l & 1 == 1
  {
  }

  /** LM(2, MOD_RCTL) turns on layer 3, and layer 2 stays off. */
  lemma LayerModsCanMiss()
    ensures var k := LM(2, 0x11); var t := ProcessAction(State(1, 1), ActionForKeycode(Keycode(k)).word, true, 0, 5);
      ActionForKeycode(Keycode(k)).Action? && t.layers == 9
  {
  }

  /** A key pressed and released with tap counts 1 to `n`, as the tap-hold logic counts quick taps. */
  function TapTimes(s: State, a: ActionWord, n: nat, toggle: nat): State {
    if n == 0 then s
    else
      var before := TapTimes(s, a, n - 1, toggle);
      ProcessAction(ProcessAction(before, a, true, n, toggle), a, false, n, toggle)
  }

  /** Tap-toggle from end to end: a hold leaves the layers as they were, and so do fewer taps than the setting
      tapping_toggle; that many or more flip the layer once. */
  lemma {:induction false} TapToggle(s: State, l: bv16, n: nat, toggle: nat, i: bv16)
    requires l < 32 && i < 32 && toggle > 0
    ensures ActionForKeycode(Keycode(TT(l))).Action?
    ensures var a := ActionForKeycode(Keycode(TT(l))).word; var was := IsOn(s.layers, i);
      && (IsOn(ProcessAction(ProcessAction(s, a, true, 0, toggle), a, false, 0, toggle).layers, i) <==> was)
      && (IsOn(TapTimes(s, a, n, toggle).layers, i) <==> if i == l && n >= toggle then !was else was)
  {
    hide IsOn, ProcessAction, ActionForKeycode, Keycode;
    var k := TT(l);
    LayerKeysMeanWhatTheySay(s, k, true, 0, toggle, i);
    var a := ActionForKeycode(Keycode(k)).word;
    LayerKeysMeanWhatTheySay(ProcessAction(s, a, true, 0, toggle), k, false, 0, toggle, i);
    if n > 0 {
      TapToggle(s, l, n - 1, toggle, i);
      var before := TapTimes(s, a, n - 1, toggle);
      LayerKeysMeanWhatTheySay(before, k, true, n, toggle, i);
      LayerKeysMeanWhatTheySay(ProcessAction(before, a, true, n, toggle), k, false, n, toggle, i);
    }
  }

  // ---------------------------------------------------------------- the globals

  /** The two layer masks that process_action updates in place. */
  class LayerGlobals {
    var layerState: LayerMask
    var defaultLayerState: LayerMask

    function Model(): State
      reads this
    {
      State(layerState, defaultLayerState)
    }

    constructor ()
      ensures Model() == State(0, 0)
    {
      layerState, defaultLayerState := 0, 0;
    }

    /** The nested switches of process_action for ACT_LAYER, ACT_LAYER_MODS, ACT_LAYER_TAP and
        ACT_LAYER_TAP_EXT, with one-shot layers off. */
    method Process(a: ActionWord, pressed: bool, taps: nat, toggle: nat)
      modifies this
      ensures Model() == ProcessAction(old(Model()), a, pressed, taps, toggle)
    {
      hide Operand, Or, Xor, And, Off, Kind, Code, LayerBit, ModsLayerBit, Combine;
      if Kind(a) == ACT_LAYER {
        if (a >> 8) & 3 == 0 {
          if !pressed {
            defaultLayerState := Combine((a >> 10) & 3, defaultLayerState, Operand(a));
          }
        } else if (a >> 8) & 3 & (if pressed then ON_PRESS else ON_RELEASE) != 0 {
          layerState := Combine((a >> 10) & 3, layerState, Operand(a));
        }
      } else if Kind(a) == ACT_LAYER_MODS {
        layerState := Switched(layerState, ModsLayerBit(a), pressed);
      } else if Kind(a) == ACT_LAYER_TAP || Kind(a) == ACT_LAYER_TAP_EXT {
        if Code(a) == OP_TAP_TOGGLE {
          if pressed {
            if taps < toggle { layerState := Xor(layerState, LayerBit(a)); }
          } else {
            if taps <= toggle { layerState := Xor(layerState, LayerBit(a)); }
          }
        } else if Code(a) == OP_ON_OFF || Code(a) == OP_ONESHOT {
          layerState := Switched(layerState, LayerBit(a), pressed);
        } else if Code(a) == OP_OFF_ON {
          layerState := Switched(layerState, LayerBit(a), !pressed);
        } else if Code(a) == OP_SET_CLEAR {
          layerState := if pressed then LayerBit(a) else 0;
        } else if taps == 0 {
          layerState := Switched(layerState, LayerBit(a), pressed);
        }
      }
    }
  }
}
