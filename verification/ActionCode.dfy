/** The 16-bit action words of quantum/action_code.h: kinds, bitfields and operation codes.
    Bitfields are laid out from the least significant bit, as the header's note says. */
module ActionCode {
  type ActionWord = bv16

  const ACT_LMODS: bv16 := 0x0
  const ACT_RMODS: bv16 := 0x1
  const ACT_LMODS_TAP: bv16 := 0x2
  const ACT_RMODS_TAP: bv16 := 0x3
  const ACT_SWAP_HANDS: bv16 := 0x6
  const ACT_LAYER: bv16 := 0x8
  const ACT_LAYER_MODS: bv16 := 0x9
  const ACT_LAYER_TAP: bv16 := 0xA
  const ACT_LAYER_TAP_EXT: bv16 := 0xB

  const OP_TAP_TOGGLE: bv16 := 0xF0
  const OP_ON_OFF: bv16 := 0xF1
  const OP_OFF_ON: bv16 := 0xF2
  const OP_SET_CLEAR: bv16 := 0xF3
  const OP_ONESHOT: bv16 := 0xF4
  const OP_SH_TAP_TOGGLE: bv16 := 0xF1

  /** `kind.id`: the top four bits. */
  function Kind(a: ActionWord): bv16 {
    a >> 12
  }

  /** `key.code`, `layer_tap.code` and `swap.code`: the low byte. */
  function Code(a: ActionWord): bv16 {
    a & 0xFF
  }

  /** `key.mods`: bits 8 to 11. */
  function Mods(a: ActionWord): bv16 {
    (a >> 8) & 0xF
  }

  /** KC_LEFT_CTRL to KC_RIGHT_GUI. */
  predicate IsModifierKeycode(code: bv16) {
    0xE0 <= code <= 0xE7
  }

  /** is_tap_action: whether the action behaves differently when tapped and when held. */
  predicate IsTapAction(a: ActionWord) {
    if Kind(a) == ACT_LMODS_TAP || Kind(a) == ACT_RMODS_TAP
       || Kind(a) == ACT_LAYER_TAP || Kind(a) == ACT_LAYER_TAP_EXT then
      Code(a) <= 0xE7 || Code(a) == OP_TAP_TOGGLE || Code(a) == OP_ONESHOT
    else if Kind(a) == ACT_SWAP_HANDS then
      Code(a) <= 0xE7 || Code(a) == OP_SH_TAP_TOGGLE
    else
      false
  }

  /** The action words that are tap-hold, by range: mod-tap words 0x2000 to 0x3FFF and layer-tap words
      0xA000 to 0xBFFF whose low byte is a basic keycode, 0xF0 or 0xF4, and swap-hands words 0x6000 to
      0x6FFF whose low byte is a basic keycode or 0xF1. */
  lemma TapHoldWords(a: ActionWord)
    ensures IsTapAction(a) <==>
      || ((0x2000 <= a <= 0x3FFF || 0xA000 <= a <= 0xBFFF)
          && (a & 0xFF <= 0xE7 || a & 0xFF == 0xF0 || a & 0xFF == 0xF4))
      || (0x6000 <= a <= 0x6FFF && (a & 0xFF <= 0xE7 || a & 0xFF == 0xF1))
  {
  }
}
