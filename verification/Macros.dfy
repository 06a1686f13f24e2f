/** Dynamic macros of quantum/dynamic_keymap.c: how a list of macros is laid out in its EEPROM area and
    what dynamic_keymap_macro_send makes of that area. */
module Macros {
  import opened Words

  const SS_QMK_PREFIX: Byte := 1
  const SS_TAP_CODE: Byte := 1
  const SS_DOWN_CODE: Byte := 2
  const SS_UP_CODE: Byte := 3
  const SS_DELAY_CODE: Byte := 4
  const VIAL_MACRO_EXT_TAP: Byte := 5
  const VIAL_MACRO_EXT_DOWN: Byte := 6
  const VIAL_MACRO_EXT_UP: Byte := 7

  datatype Stroke = Tap | Down | Up

  /** One thing a macro does: type a character, strike a basic or an extended keycode, or wait. */
  datatype Action =
    | Char(c: Byte)
    | Basic(stroke: Stroke, code: Byte)
    | Extended(stroke: Stroke, keycode: Word16)
    | Delay(ms: nat)

  type Macro = seq<Action>

  // ---------------------------------------------------------------- the stored form

  /** decode_keycode: 0xFFhh stands for hh00, because no stored byte may be zero. */
  function DecodeKeycode(kc: Word16): Word16 {
    if kc > 0xFF00 then kc % 256 * 256 else kc
  }

  /** The two stored bytes of an extended keycode, low byte first. */
  function KeycodeBytes(kc: Word16): (Byte, Byte) {
    if kc % 256 == 0 then (kc / 256, 0xFF) else (kc % 256, kc / 256)
  }

  predicate Storable(a: Action) {
    match a
    case Char(c) => c != 0 && c != SS_QMK_PREFIX
    case Basic(_, code) => code != 0
    case Extended(_, kc) => kc / 256 != 0 && (kc % 256 == 0 || kc / 256 != 0xFF)
    case Delay(ms) => ms < 255 * 255
  }

  predicate AllStorable(m: Macro) {
    forall i :: 0 <= i < |m| ==> Storable(m[i])
  }

  /** An extended keycode is storable exactly when some pair of non-zero bytes decodes to it. */
  lemma ExtendedStorable(stroke: Stroke, kc: Word16)
    ensures Storable(Extended(stroke, kc))
       <==> exists lo: Byte, hi: Byte :: lo != 0 && hi != 0 && DecodeKeycode(Pair(lo, hi)) == kc
  {
    if Storable(Extended(stroke, kc)) {
      var (lo, hi) := KeycodeBytes(kc);
      assert DecodeKeycode(Pair(lo, hi)) == kc;
    }
  }

  /** The 16-bit value that memcpy reads from two stored bytes. */
  function Pair(lo: Byte, hi: Byte): Word16 {
    lo as int + hi as int * 256
  }

  function Encode(a: Action): seq<Byte>
    requires Storable(a)
  {
    match a
    case Char(c) => [c]
    case Basic(stroke, code) =>
      [SS_QMK_PREFIX, match stroke case Tap => SS_TAP_CODE case Down => SS_DOWN_CODE case Up => SS_UP_CODE, code]
    case Extended(stroke, kc) =>
      [SS_QMK_PREFIX,
       match stroke case Tap => VIAL_MACRO_EXT_TAP case Down => VIAL_MACRO_EXT_DOWN case Up => VIAL_MACRO_EXT_UP,
       KeycodeBytes(kc).0, KeycodeBytes(kc).1]
    case Delay(ms) => [SS_QMK_PREFIX, SS_DELAY_CODE, ms % 255 + 1, ms / 255 + 1]
  }

  function EncodeAll(m: Macro): seq<Byte>
    requires AllStorable(m)
  {
    if m == [] then [] else Encode(m[0]) + EncodeAll(m[1..])
  }

  ghost predicate WellFormed(macros: seq<Macro>) {
    forall i :: 0 <= i < |macros| ==> AllStorable(macros[i])
  }

  /** All macros, each closed by a zero byte. */
  function Image(macros: seq<Macro>): seq<Byte>
    requires WellFormed(macros)
  {
    if macros == [] then [] else EncodeAll(macros[0]) + [0] + Image(macros[1..])
  }

  /** The area holds exactly these macros, and zeros behind them. */
  ghost predicate Holds(area: seq<Byte>, macros: seq<Macro>) {
    && WellFormed(macros) && Image(macros) <= area
    && forall i :: |Image(macros)| <= i < |area| ==> area[i] == 0
  }

  lemma {:induction false} EncodingHasNoZero(m: Macro)
    requires AllStorable(m)
    ensures forall i :: 0 <= i < |EncodeAll(m)| ==> EncodeAll(m)[i] != 0
  {
    if m != [] { EncodingHasNoZero(m[1..]); }
  }

  /** A non-empty encoding followed by anything starts with its first action. */
  lemma EncodingHead(m: Macro, r: seq<Byte>)
    requires AllStorable(m) && m != []
    ensures EncodeAll(m) + [0] + r == Encode(m[0]) + (EncodeAll(m[1..]) + [0] + r)
    ensures (EncodeAll(m) + [0] + r)[0] != 0
  {
    hide Encode;
    var e, t := Encode(m[0]), EncodeAll(m[1..]);
    EncodeIsNotEmpty(m[0]);
    EncodingHasNoZero(m);
    assert EncodeAll(m) == e + t;
    assert e + t + [0] + r == e + (t + [0] + r);
  }

  lemma EncodeIsNotEmpty(a: Action)
    requires Storable(a)
    ensures Encode(a) != []
  {
  }

  /** The stored form is a prefix code: two encodings, each closed by a zero, that start the same bytes
      are of the same macro. */
  lemma {:induction false} EncodingDetermines(m: Macro, n: Macro, r: seq<Byte>, s: seq<Byte>)
    requires AllStorable(m) && AllStorable(n) && EncodeAll(m) + [0] + r == EncodeAll(n) + [0] + s
    ensures m == n && r == s
    decreases |m|
  {
    hide Encode, EncodeAll;
    if m != [] { EncodingHead(m, r); } else { EmptyEncoding(r); }
    if n != [] { EncodingHead(n, s); } else { EmptyEncoding(s); }
    if m == [] && n == [] {
    } else if m == [] || n == [] {
      assert false;
    } else {
      SameAction(m[0], n[0], EncodeAll(m[1..]) + [0] + r, EncodeAll(n[1..]) + [0] + s);
      EncodingDetermines(m[1..], n[1..], r, s);
    }
  }

  lemma EmptyEncoding(r: seq<Byte>)
    ensures EncodeAll([]) + [0] + r == [0] + r && ([0] + r)[1..] == r
  {
    assert EncodeAll([]) + [0] == [0];
  }

  lemma SameAction(a: Action, b: Action, r: seq<Byte>, s: seq<Byte>)
    requires Storable(a) && Storable(b) && Encode(a) + r == Encode(b) + s
    ensures a == b && r == s
  {
    var x, y := Encode(a) + r, Encode(b) + s;
    assert x[0] == y[0];
    if !a.Char? && !b.Char? {
      assert x[1] == y[1] && x[2] == y[2];
      if |Encode(a)| == 4 { assert x[3] == y[3]; }
    }
    assert |Encode(a)| == |Encode(b)|;
    assert x[|Encode(a)|..] == r && y[|Encode(b)|..] == s;
  }

  /** The area determines the macros it holds. */
  lemma {:induction false} AreaDetermines(macros: seq<Macro>, others: seq<Macro>, r: seq<Byte>, s: seq<Byte>)
    requires WellFormed(macros) && WellFormed(others) && |macros| == |others|
    requires Image(macros) + r == Image(others) + s
    ensures macros == others
    decreases |macros|
  {
    hide EncodeAll;
    if macros != [] {
      var x, y := Image(macros[1..]) + r, Image(others[1..]) + s;
      assert Image(macros) + r == EncodeAll(macros[0]) + [0] + x;
      assert Image(others) + s == EncodeAll(others[0]) + [0] + y;
      EncodingDetermines(macros[0], others[0], x, y);
      AreaDetermines(macros[1..], others[1..], r, s);
    }
  }
}
