/** A key that is released while a tap-hold key, pressed after it, is still undecided: releases that would
    drop a modifier or a layer wait until the tap-hold key is settled, so that its tap is still modified;
    all others are passed on at once. */
module TapHoldRetained {
  import opened Words
  import opened ActionCode
  import opened TapHold
  import opened TapHoldTheorems
  import opened TapHoldOrder

  /** The action words whose release has to wait, by range, for a release of tap count `count`: modifier
      keys and words of modifiers alone below 0x2000; mod-taps, 0x2000 to 0x3FFF, with a modifier key or
      with modifiers that are held; and layer-taps, 0xA000 to 0xBFFF, with a code below 0xF0 or in 0xF1 to
      0xF3. */
  predicate HoldsState(word: ActionWord, count: nat) {
    var low, mods := word & 0xFF, word & 0x0F00;
    || (word < 0x2000 && (0xE0 <= low <= 0xE7 || (low == 0 && mods != 0)))
    || (0x2000 <= word < 0x4000 && (0xE0 <= low <= 0xE7 || (mods != 0 && count == 0)))
    || (0xA000 <= word < 0xC000 && (low < 0xF0 || 0xF1 <= low <= 0xF3))
  }

  lemma RetainedWords(word: ActionWord, tap: Tap)
    ensures MustRetain(word, tap) <==> HoldsState(word, tap.count)
  {
  }

  /** No press of the key waits: it was pressed before the tap-hold key. */
  ghost predicate PressedBefore(s: State, k: KeyPos) {
    forall i :: 0 <= i < |s.buffer| && s.buffer[i].event.key == k ==> !s.buffer[i].event.pressed
  }

  /** Within the tapping term of a pending key, the release of a key that was pressed before it is refused,
      with everything left as it is, exactly if its action word holds a modifier or a layer; otherwise it is
      passed on at once. */
  lemma EarlierRelease(env: Env, s: State, r: Record)
    requires !s.tk.event.IsTick() && s.tk.event.pressed && s.tk.tap.count == 0
    requires Diff16(r.event.time, s.tk.event.time) < env.tappingTerm(s.world, s.tk)
    requires !r.event.IsTick() && !r.event.pressed && r.event.key != s.tk.event.key && PressedBefore(s, r.event.key)
    ensures Step(env, s, r) ==
      if HoldsState(env.action(s.world, r.event.key), r.tap.count) then Outcome(s, r, false)
      else Outcome(Emit(s, Real(r)), r, true)
  {
    hide MustRetain, HoldsState;
    RetainedWords(env.action(s.world, r.event.key), r.tap);
    assert !Typed(s.buffer, r.event);
  }

  // ---------------------------------------------------------------- a tap rolled over such a key

  /** Column 0 holds the action `word`, all others a layer-tap key; the tapping term is 200 ms and no hold
      option is on. */
  function Rolled(word: ActionWord): Env {
    Env((w: World, k: KeyPos) => if k.col == 0 then word else 0xA104,
        (w: World, r: Record) => 200, (w: World, r: Record) => 200,
        (w: World, r: Record) => false, (w: World, r: Record) => false)
  }

  const S_DOWN := KeyAt(0, 0, true)
  const K_DOWN := KeyAt(1, 10, true)
  const S_UP := KeyAt(0, 20, false)
  const K_UP := KeyAt(1, 30, false)

  lemma RolledStarts(word: ActionWord)
    requires !IsTapAction(word)
    ensures var s := Process(Rolled(word), Process(Rolled(word), INITIAL, S_DOWN), K_DOWN);
      s.tk == Fresh(K_DOWN) && s.buffer == [] && s.world.emitted == [Real(Fresh(S_DOWN))]
  {
    hide IsTapAction;
    var s := Process(Rolled(word), INITIAL, S_DOWN);
    assert s.tk == EMPTY_RECORD && s.buffer == [] && s.world.emitted == [Real(Fresh(S_DOWN))];
    assert IsTapAction(0xA104) by { TapHoldWords(0xA104); }
  }

  lemma RolledRelease(word: ActionWord, s: State)
    requires s.tk == Fresh(K_DOWN) && s.buffer == []
    ensures var t := Process(Rolled(word), s, S_UP);
      && t.tk == s.tk
      && (if HoldsState(word, 0) then t.buffer == [Fresh(S_UP)] && t.world.emitted == s.world.emitted
          else t.buffer == [] && t.world.emitted == s.world.emitted + [Real(Fresh(S_UP))])
  {
    hide Step, HoldsState, IsTapAction;
    var env, s0 := Rolled(word), Called(s);
    EarlierRelease(env, s0, Fresh(S_UP));
    if HoldsState(word, 0) {
      var t := Accept(env, s, S_UP);
      assert t.buffer == [Fresh(S_UP)];
      EarlierRelease(env, t, Fresh(S_UP));
      StepKeepsEvents(env, t, t.buffer[0]);
    }
  }

  lemma RolledTap(word: ActionWord, s: State)
    requires s.tk == Fresh(K_DOWN) && s.buffer == (if HoldsState(word, 0) then [Fresh(S_UP)] else [])
    ensures var t := Process(Rolled(word), s, K_UP); var tap := Tap(false, 1);
      t.world.emitted == s.world.emitted + [Real(Record(K_DOWN, tap))]
        + (if HoldsState(word, 0) then [Real(Fresh(S_UP))] else []) + [Real(Record(K_UP, tap))]
  {
    hide IsTapAction, HoldsState;
    var env := Rolled(word);
    var t := Accept(env, s, K_UP);
    var up := Record(K_UP, Tap(false, 1));
    assert t.tk == Record(K_DOWN, Tap(false, 1)) && t.buffer == s.buffer + [up];
    if HoldsState(word, 0) {
      var u := Turned(env, t);
      assert u.tk == t.tk && u.buffer == [up] && u.world.emitted == t.world.emitted + [Real(Fresh(S_UP))];
      DrainsLast(env, u, up);
      assert Drain(env, t) == Drain(env, u);
    } else {
      DrainsLast(env, t, up);
    }
  }

  lemma DrainsLast(env: Env, u: State, up: Record)
    requires u.tk == Record(K_DOWN, Tap(false, 1)) && up == Record(K_UP, Tap(false, 1)) && u.buffer == [up]
    ensures Drain(env, u).world.emitted == u.world.emitted + [Real(up)]
  {
    var v := Turned(env, u);
    assert v.buffer == [] && Drain(env, u) == Drain(env, v) == v;
  }

  /** A layer-tap key is tapped while another key, pressed before it, comes up in between. A key that holds a
      modifier or a layer is released after the tap, which is therefore still modified by it; any other key
      is released before it. */
  lemma RolledOver(word: ActionWord)
    requires !IsTapAction(word)
    ensures var tap := Tap(false, 1);
      Run(Rolled(word), INITIAL, [S_DOWN, K_DOWN, S_UP, K_UP]).world.emitted ==
      if HoldsState(word, 0) then
        [Real(Fresh(S_DOWN)), Real(Record(K_DOWN, tap)), Real(Fresh(S_UP)), Real(Record(K_UP, tap))]
      else
        [Real(Fresh(S_DOWN)), Real(Fresh(S_UP)), Real(Record(K_DOWN, tap)), Real(Record(K_UP, tap))]
  {
    hide Process, IsTapAction, HoldsState;
    var env, es := Rolled(word), [S_DOWN, K_DOWN, S_UP, K_UP];
    var s1 := Process(env, INITIAL, S_DOWN);
    var s2 := Process(env, s1, K_DOWN);
    var s3 := Process(env, s2, S_UP);
    var s4 := Process(env, s3, K_UP);
    RolledStarts(word);
    RolledRelease(word, s2);
    RolledTap(word, s3);
    assert es[1..] == [K_DOWN, S_UP, K_UP] && es[1..][1..] == [S_UP, K_UP] && es[1..][1..][1..] == [K_UP];
    assert Run(env, s3, [K_UP]) == Run(env, s4, [K_UP][1..]) == s4;
    assert Run(env, INITIAL, es) == Run(env, s1, es[1..]) == Run(env, s2, es[1..][1..]) == Run(env, s3, [K_UP]);
  }

  /** So a tap rolled over Left Shift comes out shifted, and one rolled over the letter A does not wait. */
  lemma ShiftIsKept()
    ensures var tap := Tap(false, 1);
      && Run(Rolled(0x00E1), INITIAL, [S_DOWN, K_DOWN, S_UP, K_UP]).world.emitted
         == [Real(Fresh(S_DOWN)), Real(Record(K_DOWN, tap)), Real(Fresh(S_UP)), Real(Record(K_UP, tap))]
      && Run(Rolled(0x0004), INITIAL, [S_DOWN, K_DOWN, S_UP, K_UP]).world.emitted
         == [Real(Fresh(S_DOWN)), Real(Fresh(S_UP)), Real(Record(K_DOWN, tap)), Real(Record(K_UP, tap))]
  {
    hide Run, IsTapAction;
    TapHoldWords(0x00E1);
    TapHoldWords(0x0004);
    RolledOver(0x00E1);
    RolledOver(0x0004);
  }
}
