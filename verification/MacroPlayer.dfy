/** dynamic_keymap_macro_send of quantum/dynamic_keymap.c as it runs: an address moved over the macro
    area of the EEPROM. The array is the area itself, so reading outside it would not verify. */
module MacroPlayer {
  import opened Words
  import opened Macros
  import opened MacroDecoder

  class Player {
    /** The EEPROM bytes of the macro area and DYNAMIC_KEYMAP_MACRO_COUNT. */
    const area: array<Byte>
    const count: nat
    /** What has been sent to the host, or waited for, so far. */
    var played: seq<Action>

    constructor (area: array<Byte>, count: nat)
      ensures this.area == area && this.count == count && played == []
    {
      this.area, this.count, played := area, count, [];
    }

    method Play(a: Action)
      modifies this`played
      ensures played == old(played) + [a]
    {
      played := played + [a];
    }

    /** Moves past `id` zero bytes; nothing if the area ends before that. */
    method SkipMacros(id: Byte) returns (found: bool, p: nat)
      ensures p <= area.Length && (if found then p else -1) == Skip(area[..], id)
    {
      p := 0;
      var left: nat := id;
      assert area[0..] == area[..];
      while left > 0
        invariant p <= area.Length && left <= id
        invariant Skip(area[..], id) == Further(p, Skip(area[p..], left))
        decreases left, area.Length - p
      {
        if p == area.Length { return false, p; }
        assert area[p..][0] == area[p] && area[p..][1..] == area[p + 1..];
        if area[p] == 0 { left := left - 1; }
        p := p + 1;
      }
      return true, p;
    }

    /** Carries out one macro, decoding bytes from `start` on until it stops. */
    method PlayMacro(start: nat)
      requires start <= area.Length && Sent(area[start..]).Some?
      modifies this`played
      ensures played == old(played) + Sent(area[start..]).value
    {
      hide TurnOf;
      var p: nat := start;
      ghost var all, done: seq<Action> := Sent(area[start..]).value, [];
      while true
        invariant p <= area.Length && Sent(area[p..]).Some?
        invariant played == old(played) + done && done + Sent(area[p..]).value == all
        decreases area.Length - p
      {
        ghost var turn := TurnOf(area[p..]);
        var used, stop := PlayTurn(p);
        if stop { break; }
        assert area[p..][used..] == area[p + used..];
        done := done + turn.actions;
        p := p + used;
      }
    }

    /** The body of the sending loop: the bytes it used up, or that it breaks out of the loop. */
    method PlayTurn(p: nat) returns (used: nat, stop: bool)
      requires p <= area.Length && TurnOf(area[p..]) != Outside
      modifies this`played
      ensures match TurnOf(area[p..])
        case Outside => false
        case Stop => stop && played == old(played)
        case Goes(n, actions) => !stop && used == n && played == old(played) + actions
    {
      ghost var b := area[p..];
      assert forall i :: 0 <= i < |b| ==> b[i] == area[p + i];
      var data0 := area[p];
      if data0 == 0 { return 1, true; }
      if data0 != SS_QMK_PREFIX {
        Play(Char(data0));
        return 1, false;
      }
      var data1 := area[p + 1];
      if data1 == 0 { return 2, true; }
      if data1 == SS_TAP_CODE || data1 == SS_DOWN_CODE || data1 == SS_UP_CODE {
        var data2 := area[p + 2];
        if data2 != 0 { Play(Basic(BasicStroke(data1), data2)); }
        return 3, false;
      } else if data1 == VIAL_MACRO_EXT_TAP || data1 == VIAL_MACRO_EXT_DOWN || data1 == VIAL_MACRO_EXT_UP {
        var data2 := area[p + 2];
        if data2 == 0 { return 3, false; }
        var data3 := area[p + 3];
        if data3 != 0 { Play(Extended(ExtendedStroke(data1), DecodeKeycode(Pair(data2, data3)))); }
        return 4, false;
      } else if data1 == SS_DELAY_CODE {
        var d0, d1 := area[p + 2], area[p + 3];
        if d0 == 0 || d1 == 0 { return 4, true; }
        Play(Delay(DelayOf(d0, d1)));
        return 4, false;
      } else {
        return 2, false;
      }
    }

    /** dynamic_keymap_macro_send: an id out of range sends nothing, nor does an area whose last byte is
        not zero (a write in progress) or that ends before macro `id` starts; otherwise what the bytes
        found there stand for is carried out, well-formed or not, as long as they stay inside the area. */
    method Send(id: Byte)
      requires area.Length > 0 && PlayedBy(area[..], count, id).Some?
      modifies this`played
      ensures played == old(played) + PlayedBy(area[..], count, id).value
      ensures id >= count || area[area.Length - 1] != 0 ==> played == old(played)
    {
      hide Sent, Skip;
      if id >= count { return; }
      if area[area.Length - 1] != 0 { return; }
      var found, p := SkipMacros(id);
      if !found { return; }
      PlayMacro(p);
    }
  }
}
