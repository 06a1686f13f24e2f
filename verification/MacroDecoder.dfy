/** What dynamic_keymap_macro_send of quantum/dynamic_keymap.c makes of any bytes in its macro area: where
    a macro starts, what is sent, and whether every read stays inside the area. */
module MacroDecoder {
  import opened Words
  import opened Macros

  // ---------------------------------------------------------------- where a macro starts

  /** A position counted from `p` on, or the mark for none. */
  function Further(p: nat, i: int): int {
    if i < 0 then -1 else p + i
  }

  /** The position behind the first `id` zero bytes, or -1 if there are not as many. */
  function Skip(area: seq<Byte>, id: nat): (p: int)
    ensures -1 <= p <= |area|
  {
    if id == 0 then 0
    else if area == [] then -1
    else Further(1, Skip(area[1..], if area[0] == 0 then id - 1 else id))
  }

  /** Whether a call gets as far as sending. */
  predicate Sends(area: seq<Byte>, count: nat, id: Byte)
    requires area != []
  {
    id < count && area[|area| - 1] == 0 && Skip(area, id) >= 0
  }

  function ZeroCount(area: seq<Byte>): nat {
    if area == [] then 0 else (if area[0] == 0 then 1 else 0) + ZeroCount(area[1..])
  }

  /** In an area that ends in a zero, macro `id` starts inside the area exactly if there are more than
      `id` zeros; with exactly as many, sending would start behind the last byte; with fewer it stops. */
  lemma {:induction false} SkipStaysInside(area: seq<Byte>, id: nat)
    requires area == [] || area[|area| - 1] == 0
    ensures var p := Skip(area, id);
      && (0 <= p < |area| <==> ZeroCount(area) > id)
      && (p == |area| <==> ZeroCount(area) == id)
      && (p == -1 <==> ZeroCount(area) < id)
  {
    if area != [] {
      if id == 0 {
        LastZeroCounts(area);
      } else {
        SkipStaysInside(area[1..], if area[0] == 0 then id - 1 else id);
      }
    }
  }

  lemma {:induction false} LastZeroCounts(area: seq<Byte>)
    requires area != [] && area[|area| - 1] == 0
    ensures ZeroCount(area) > 0
  {
    if |area| > 1 { LastZeroCounts(area[1..]); }
  }

  lemma {:induction false} SkipOver(bytes: seq<Byte>, n: nat, id: nat)
    requires n < |bytes| && bytes[n] == 0 && (forall i :: 0 <= i < n ==> bytes[i] != 0) && id > 0
    ensures Skip(bytes, id) == Further(n + 1, Skip(bytes[n + 1..], id - 1))
    decreases n
  {
    if n > 0 {
      SkipOver(bytes[1..], n - 1, id);
      assert bytes[1..][n..] == bytes[n + 1..];
    }
  }

  /** An area that holds well-formed macros is one that each of them can be sent from: skipping `id` zeros
      arrives at the bytes of macro `id`. */
  lemma {:induction false} SkipFindsMacro(area: seq<Byte>, macros: seq<Macro>, id: nat)
    requires Holds(area, macros) && id < |macros|
    ensures Skip(area, id) >= 0 && AllStorable(macros[id]) && EncodeAll(macros[id]) + [0] <= area[Skip(area, id)..]
    decreases id
  {
    hide Holds, EncodeAll;
    FirstMacro(area, macros);
    var m := EncodeAll(macros[0]);
    if id == 0 {
      assert area[0..] == area && area[..|m| + 1] == m + [0];
    } else {
      SkipOver(area, |m|, id);
      SkipFindsMacro(area[|m| + 1..], macros[1..], id - 1);
      var p := Skip(area[|m| + 1..], id - 1);
      assert area[|m| + 1..][p..] == area[|m| + 1 + p..];
    }
  }

  /** An area that holds some macros starts with the bytes of the first, a zero behind them, and then
      holds the others. */
  lemma FirstMacro(area: seq<Byte>, macros: seq<Macro>)
    requires Holds(area, macros) && macros != []
    ensures AllStorable(macros[0])
    ensures var m := EncodeAll(macros[0]);
      && |m| < |area| && area[..|m|] == m && area[|m|] == 0
      && Holds(area[|m| + 1..], macros[1..])
      && forall i :: 0 <= i < |m| ==> area[i] != 0
  {
    hide EncodeAll;
    var m := EncodeAll(macros[0]);
    EncodingHasNoZero(macros[0]);
    assert Image(macros) == m + [0] + Image(macros[1..]);
    assert area[..|Image(macros)|] == Image(macros);
    assert area[..|m|] == Image(macros)[..|m|] == m;
    assert area[|m| + 1..][..|Image(macros[1..])|] == Image(macros[1..]);
  }

  /** Bytes that start with an encoded macro start with its first action, or with zero if it has none. */
  lemma NextAction(bytes: seq<Byte>, m: Macro)
    requires AllStorable(m) && EncodeAll(m) + [0] <= bytes
    ensures bytes != [] && (bytes[0] == 0 <==> m == [])
    ensures m != [] ==>
      && Storable(m[0]) && AllStorable(m[1..]) && Encode(m[0]) <= bytes
      && EncodeAll(m[1..]) + [0] <= bytes[|Encode(m[0])|..]
  {
    hide Encode;
    EncodingHasNoZero(m);
    if m != [] {
      EncodeIsNotEmpty(m[0]);
      var e, r := Encode(m[0]), EncodeAll(m[1..]) + [0];
      assert EncodeAll(m) + [0] == e + r;
      assert bytes[..|e| + |r|] == e + r;
      assert bytes[|e|..][..|r|] == r;
    }
  }

  // ---------------------------------------------------------------- what is sent

  /** One turn of the sending loop: it reads past the last byte, or stops, or uses up some bytes and
      carries out at most one action. */
  datatype Turn = Outside | Stop | Goes(used: nat, actions: seq<Action>)

  /** The turn that starts with these bytes. */
  function TurnOf(b: seq<Byte>): (t: Turn)
    ensures t.Goes? ==> 0 < t.used <= |b|
  {
    if b == [] then Outside
    else if b[0] == 0 then Stop
    else if b[0] != SS_QMK_PREFIX then Goes(1, [Char(b[0])])
    else if |b| < 2 then Outside
    else if b[1] == 0 then Stop
    else if b[1] == SS_TAP_CODE || b[1] == SS_DOWN_CODE || b[1] == SS_UP_CODE then
      if |b| < 3 then Outside
      else Goes(3, if b[2] == 0 then [] else [Basic(BasicStroke(b[1]), b[2])])
    else if b[1] == VIAL_MACRO_EXT_TAP || b[1] == VIAL_MACRO_EXT_DOWN || b[1] == VIAL_MACRO_EXT_UP then
      if |b| < 3 then Outside
      else if b[2] == 0 then Goes(3, [])
      else if |b| < 4 then Outside
      else Goes(4, if b[3] == 0 then [] else [Extended(ExtendedStroke(b[1]), DecodeKeycode(Pair(b[2], b[3])))])
    else if b[1] == SS_DELAY_CODE then
      if |b| < 4 then Outside
      else if b[2] == 0 || b[3] == 0 then Stop
      else Goes(4, [Delay(DelayOf(b[2], b[3]))])
    else Goes(2, [])
  }

  function BasicStroke(code: Byte): Stroke {
    if code == SS_TAP_CODE then Tap else if code == SS_DOWN_CODE then Down else Up
  }

  function ExtendedStroke(code: Byte): Stroke {
    if code == VIAL_MACRO_EXT_TAP then Tap else if code == VIAL_MACRO_EXT_DOWN then Down else Up
  }

  function DelayOf(d0: Byte, d1: Byte): nat
    requires d0 != 0 && d1 != 0
  {
    (d0 - 1) + (d1 - 1) * 255
  }

  /** A delay is storable exactly when some pair of non-zero bytes stands for it. */
  lemma DelayStorable(ms: nat)
    ensures Storable(Delay(ms)) <==> exists d0: Byte, d1: Byte :: d0 != 0 && d1 != 0 && DelayOf(d0, d1) == ms
  {
    if Storable(Delay(ms)) { assert DelayOf(ms % 255 + 1, ms / 255 + 1) == ms; }
  }

  datatype Option<T> = None | Some(value: T)

  function Before(actions: seq<Action>, r: Option<seq<Action>>): Option<seq<Action>> {
    if r == None then None else Some(actions + r.value)
  }

  /** Everything that is sent from these bytes, or nothing known if the loop reads past the last one. */
  function Sent(b: seq<Byte>): Option<seq<Action>>
    decreases |b|
  {
    match TurnOf(b)
    case Outside => None
    case Stop => Some([])
    case Goes(used, actions) => Before(actions, Sent(b[used..]))
  }

  lemma ActionIsTurn(a: Action, b: seq<Byte>)
    requires Storable(a) && Encode(a) <= b
    ensures TurnOf(b) == Goes(|Encode(a)|, [a])
  {
    var e := Encode(a);
    assert b[..|e|] == e;
    forall i | 0 <= i < |e| ensures b[i] == e[i] { assert b[..|e|][i] == e[i]; }
  }

  /** Sending inverts the encoding: bytes that start with an encoded macro and a zero are sent as exactly
      that macro, whatever follows, and without a read past the zero. */
  lemma {:induction false} EncodedIsSent(m: Macro, b: seq<Byte>)
    requires AllStorable(m) && EncodeAll(m) + [0] <= b
    ensures Sent(b) == Some(m)
    decreases |m|
  {
    hide Encode, EncodeAll, TurnOf;
    NextAction(b, m);
    if m == [] {
      ZeroStops(b);
    } else {
      ActionIsTurn(m[0], b);
      EncodedIsSent(m[1..], b[|Encode(m[0])|..]);
      assert [m[0]] + m[1..] == m;
    }
  }

  /** So an area that holds well-formed macros sends macro `id` as it was stored. */
  lemma StoredMacroIsSent(area: seq<Byte>, macros: seq<Macro>, id: nat)
    requires Holds(area, macros) && id < |macros|
    ensures Skip(area, id) >= 0 && Sent(area[Skip(area, id)..]) == Some(macros[id])
  {
    hide Holds, Sent, Skip;
    SkipFindsMacro(area, macros, id);
    EncodedIsSent(macros[id], area[Skip(area, id)..]);
  }

  /** An encoded macro is sent before whatever the bytes behind it make the loop do. */
  lemma {:induction false} SentBefore(m: Macro, rest: seq<Byte>)
    requires AllStorable(m)
    ensures Sent(EncodeAll(m) + rest) == Before(m, Sent(rest))
    decreases |m|
  {
    hide Encode, TurnOf;
    var b := EncodeAll(m) + rest;
    if m == [] {
      assert b == rest;
      if Sent(rest).Some? { assert m + Sent(rest).value == Sent(rest).value; }
    } else {
      var e := Encode(m[0]);
      EncodeIsNotEmpty(m[0]);
      assert b == e + (EncodeAll(m[1..]) + rest);
      ActionIsTurn(m[0], b);
      assert b[|e|..] == EncodeAll(m[1..]) + rest;
      SentBefore(m[1..], rest);
      if Sent(rest).Some? { assert [m[0]] + (m[1..] + Sent(rest).value) == m + Sent(rest).value; }
    }
  }

  /** One whole turn behind a macro. */
  lemma TurnAfter(m: Macro, e: seq<Byte>, actions: seq<Action>, rest: seq<Byte>)
    requires AllStorable(m) && TurnOf(e + rest) == Goes(|e|, actions)
    ensures Sent(EncodeAll(m) + (e + rest)) == Before(m + actions, Sent(rest))
  {
    hide TurnOf, EncodeAll;
    SentBefore(m, e + rest);
    assert (e + rest)[|e|..] == rest;
    if Sent(rest).Some? { assert m + (actions + Sent(rest).value) == m + actions + Sent(rest).value; }
  }

  /** A last turn behind a macro. */
  lemma StopAfter(m: Macro, e: seq<Byte>, rest: seq<Byte>)
    requires AllStorable(m) && TurnOf(e + rest) == Stop
    ensures Sent(EncodeAll(m) + (e + rest)) == Some(m)
  {
    hide TurnOf, EncodeAll;
    SentBefore(m, e + rest);
    assert m + [] == m;
  }

  /** The stored form, byte by byte: what follows a macro and comes before any rest. Codes 1 to 3 tap, press
      and release a basic keycode, 5 to 7 an extended one of two bytes, low byte first, and 4 waits. */
  lemma BytesOfActions(m: Macro, x: Byte, y: Byte, rest: seq<Byte>)
    requires AllStorable(m) && x != 0 && y != 0
    ensures var kc: Word16 := if y == 255 then x * 256 else x + y * 256; var b, r := EncodeAll(m), Sent(rest);
      && (x != 1 ==> Sent(b + ([x] + rest)) == Before(m + [Char(x)], r))
      && Sent(b + ([1, 1, x] + rest)) == Before(m + [Basic(Tap, x)], r)
      && Sent(b + ([1, 2, x] + rest)) == Before(m + [Basic(Down, x)], r)
      && Sent(b + ([1, 3, x] + rest)) == Before(m + [Basic(Up, x)], r)
      && Sent(b + ([1, 4, x, y] + rest)) == Before(m + [Delay(x - 1 + (y - 1) * 255)], r)
      && Sent(b + ([1, 5, x, y] + rest)) == Before(m + [Extended(Tap, kc)], r)
      && Sent(b + ([1, 6, x, y] + rest)) == Before(m + [Extended(Down, kc)], r)
      && Sent(b + ([1, 7, x, y] + rest)) == Before(m + [Extended(Up, kc)], r)
  {
    hide Sent, EncodeAll;
    var kc: Word16 := if y == 255 then x * 256 else x + y * 256;
    if x != 1 { TurnAfter(m, [x], [Char(x)], rest); }
    TurnAfter(m, [1, 1, x], [Basic(Tap, x)], rest);
    TurnAfter(m, [1, 2, x], [Basic(Down, x)], rest);
    TurnAfter(m, [1, 3, x], [Basic(Up, x)], rest);
    TurnAfter(m, [1, 4, x, y], [Delay(x - 1 + (y - 1) * 255)], rest);
    TurnAfter(m, [1, 5, x, y], [Extended(Tap, kc)], rest);
    TurnAfter(m, [1, 6, x, y], [Extended(Down, kc)], rest);
    TurnAfter(m, [1, 7, x, y], [Extended(Up, kc)], rest);
  }

  /** An action that is cut short by a zero, behind any macro. Behind the prefix, or in place of a byte of a
      delay, the zero ends the macro. In place of a keycode byte it does not: the action is dropped, and
      what follows the zero is sent too, be it the next macro. A code that means nothing is skipped. */
  lemma CutShort(m: Macro, code: Byte, x: Byte, rest: seq<Byte>)
    requires AllStorable(m) && code != 0
    ensures var b, r := EncodeAll(m), Sent(rest);
      && Sent(b + ([0] + rest)) == Some(m)
      && Sent(b + ([1, 0] + rest)) == Some(m)
      && Sent(b + ([1, 4, x, 0] + rest)) == Some(m)
      && Sent(b + ([1, 4, 0, x] + rest)) == Some(m)
      && (code <= 7 && code != 4 ==> Sent(b + ([1, code, 0] + rest)) == Before(m, r))
      && (5 <= code <= 7 && x != 0 ==> Sent(b + ([1, code, x, 0] + rest)) == Before(m, r))
      && (code > 7 ==> Sent(b + ([1, code] + rest)) == Before(m, r))
  {
    hide Sent, EncodeAll;
    assert m + [] == m;
    StopAfter(m, [0], rest);
    StopAfter(m, [1, 0], rest);
    StopAfter(m, [1, 4, x, 0], rest);
    StopAfter(m, [1, 4, 0, x], rest);
    if code > 7 {
      TurnAfter(m, [1, code], [], rest);
    } else if code != 4 {
      TurnAfter(m, [1, code, 0], [], rest);
      if code >= 5 && x != 0 { TurnAfter(m, [1, code, x, 0], [], rest); }
    }
  }

  /** What a whole call plays: what it sends, or nothing if it does not get that far. */
  function PlayedBy(area: seq<Byte>, count: nat, id: Byte): Option<seq<Action>>
    requires area != []
  {
    if Sends(area, count, id) then Sent(area[Skip(area, id)..]) else Some([])
  }

  /** A call for a macro plays exactly that macro: one with an id in range, of an area that ends in a zero and
      holds well-formed macros up to this one at least, plays macro `id`; and a call with an id out of range
      or of an area that does not end in a zero plays nothing. */
  lemma CallPlaysMacro(area: seq<Byte>, macros: seq<Macro>, count: nat, id: Byte)
    requires area != []
    ensures id < count && area[|area| - 1] == 0 && Holds(area, macros) && id < |macros| ==>
      PlayedBy(area, count, id) == Some(macros[id])
    ensures id >= count || area[|area| - 1] != 0 ==> PlayedBy(area, count, id) == Some([])
  {
    hide Holds, Sent, Skip;
    if Holds(area, macros) && id < |macros| { StoredMacroIsSent(area, macros, id); }
  }

  /** And an area that ends before macro `id` starts, having fewer than `id` zeros, plays nothing either. */
  lemma TooFewZerosPlayNothing(area: seq<Byte>, count: nat, id: Byte)
    requires area != [] && ZeroCount(area) < id
    ensures PlayedBy(area, count, id) == Some([])
  {
    if area[|area| - 1] == 0 { SkipStaysInside(area, id); }
  }

  lemma ZeroStops(b: seq<Byte>)
    requires b != [] && b[0] == 0
    ensures TurnOf(b) == Stop
  {
  }

  // ---------------------------------------------------------------- reads inside the area

  /** The last byte is zero, and so is the one before it. */
  predicate EndsInTwoZeros(b: seq<Byte>) {
    |b| >= 2 && b[|b| - 1] == 0 && b[|b| - 2] == 0
  }

  /** Two zeros at the end stop the loop wherever in the area it starts. */
  lemma {:induction false} TwoZerosStop(b: seq<Byte>)
    requires b == [0] || EndsInTwoZeros(b)
    ensures Sent(b).Some?
    decreases |b|
  {
    var t := TurnOf(b);
    if t.Goes? {
      assert |b| > 2 && t.used < |b|;
      TwoZerosStop(b[t.used..]);
    }
  }

  lemma {:induction false} CharsFirst(n: nat, b: seq<Byte>)
    ensures Sent(Letters(n) + b) == None <==> Sent(b) == None
  {
    var all := Letters(n) + b;
    if n == 0 {
      assert all == b;
    } else {
      assert all[0] == 97 && all[1..] == Letters(n - 1) + b;
      CharsFirst(n - 1, b);
    }
  }

  function Letters(n: nat): (b: seq<Byte>)
    ensures |b| == n && forall i :: 0 <= i < n ==> b[i] == 97
  {
    seq(n, _ => 97)
  }

  /** A last extended keycode whose second byte is the closing zero takes the loop past it. */
  lemma LastZeroIsTaken(x: Byte)
    requires x != 0
    ensures Sent([SS_QMK_PREFIX, VIAL_MACRO_EXT_TAP, x, 0]) == None
  {
    var b := [SS_QMK_PREFIX, VIAL_MACRO_EXT_TAP, x, 0];
    assert TurnOf(b) == Goes(4, []) && b[4..] == [];
    assert Sent([]) == None;
  }

  /** One closing zero is not enough: exactly if the byte before it is zero as well, sending stays inside
      every area that ends in the two, from whatever bytes it starts. */
  lemma ClosingBytes(x: Byte)
    ensures (forall front: seq<Byte> :: Sent(front + [x, 0]) != None) <==> x == 0
  {
    hide Sent;
    if x == 0 {
      forall front: seq<Byte> ensures Sent(front + [x, 0]) != None { TwoZerosStop(front + [x, 0]); }
    } else {
      LastZeroIsTaken(x);
      var front: seq<Byte> := [SS_QMK_PREFIX, VIAL_MACRO_EXT_TAP];
      assert front + [x, 0] == [SS_QMK_PREFIX, VIAL_MACRO_EXT_TAP, x, 0];
      assert Sent(front + [x, 0]) == None;
    }
  }

  /** In an area that ends in two zeros, whatever else it holds, a call that gets as far as sending reads
      inside the area exactly if there are more than `id` zeros. */
  lemma SendStaysInside(area: seq<Byte>, count: nat, id: Byte)
    requires EndsInTwoZeros(area) && Sends(area, count, id)
    ensures Sent(area[Skip(area, id)..]).Some? <==> ZeroCount(area) > id
  {
    hide Sent, Skip;
    var p := Skip(area, id);
    SkipStaysInside(area, id);
    if p < |area| {
      var b := area[p..];
      if p == |area| - 1 { assert b == [0]; } else { assert b[|b| - 2] == area[|area| - 2]; }
      TwoZerosStop(b);
    } else {
      NothingToRead();
      assert area[p..] == [];
    }
  }

  lemma NothingToRead()
    ensures Sent([]) == None
  {
  }

  /** Both ways out of an area as large as the firmware asks for, closed by one zero: macro 1 of an area
      with one macro starts behind the last byte, and macro 0 of an area that ends in an extended keycode
      without its second byte runs past it. */
  lemma SendCanReadOutside()
    ensures var area := Letters(100) + [0];
      Sends(area, 16, 1) && Skip(area, 1) == |area| && Sent(area[Skip(area, 1)..]) == None
    ensures var area := Letters(100) + [SS_QMK_PREFIX, VIAL_MACRO_EXT_TAP, 97, 0];
      Sends(area, 16, 0) && Skip(area, 0) == 0 && Sent(area[Skip(area, 0)..]) == None
  {
    hide Sent, Skip, ZeroCount;
    var one, two := Letters(100) + [0], Letters(100) + [SS_QMK_PREFIX, VIAL_MACRO_EXT_TAP, 97, 0];
    ZerosOfLetters(100);
    SkipStaysInside(one, 1);
    NothingToRead();
    assert one[|one|..] == [];
    SkipNothing(two);
    LastZeroIsTaken(97);
    CharsFirst(100, [SS_QMK_PREFIX, VIAL_MACRO_EXT_TAP, 97, 0]);
    assert two[0..] == two;
  }

  lemma SkipNothing(area: seq<Byte>)
    ensures Skip(area, 0) == 0
  {
  }

  lemma {:induction false} ZerosOfLetters(n: nat)
    ensures ZeroCount(Letters(n) + [0]) == 1
  {
    var area := Letters(n) + [0];
    if n == 0 {
      assert area == [0];
    } else {
      assert area[0] == 97 && area[1..] == Letters(n - 1) + [0];
      ZerosOfLetters(n - 1);
    }
  }
}
