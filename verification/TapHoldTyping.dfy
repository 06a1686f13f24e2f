/** What a typist gets: how the tap-hold machine decides between tap and hold, for every keymap, every
    callback and every state it may be typed in. */
module TapHoldTyping {
  import opened TapHold
  import opened TapHoldTrace

  /** Nothing is held back and no tap is being followed. */
  ghost predicate AtRest(s: State) {
    s.tk == EMPTY_RECORD && s.buffer == []
  }

  function Called(w: World): World {
    w.(calls := w.calls + 1)
  }

  function Tapped(e: Event, count: Nibble): Record {
    Record(e, Tap(false, count))
  }

  /** The event is a press of a key that is tap-hold in the world it meets. */
  ghost predicate TapHoldPress(env: Env, w: World, p: Event) {
    !p.IsTick() && p.pressed && IsTapRecord(env, w, Fresh(p))
  }

  lemma DrainNothing(env: Env, s: State)
    requires s.buffer == []
    ensures Drain(env, s) == s
  {
  }

  lemma DrainOne(env: Env, s: State)
    requires |s.buffer| == 1
    ensures var o := Step(env, s, s.buffer[0]);
      && |o.s.buffer| == 1
      && Drain(env, s) == o.s.(buffer := if o.consumed then [] else [o.rec])
  {
    hide Step;
    var o := Step(env, s, s.buffer[0]);
    StepKeepsEvents(env, s, s.buffer[0]);
    if o.consumed {
      assert o.s.buffer[1..] == [];
      DrainNothing(env, o.s.(buffer := o.s.buffer[1..]));
    } else {
      assert o.s.buffer[0 := o.rec] == [o.rec];
    }
  }

  lemma DrainTwo(env: Env, s: State)
    requires |s.buffer| == 2
    ensures var o := Step(env, s, s.buffer[0]);
      && |o.s.buffer| == 2
      && Drain(env, s) ==
         if o.consumed then Drain(env, o.s.(buffer := o.s.buffer[1..])) else o.s.(buffer := o.s.buffer[0 := o.rec])
  {
    hide Step;
    StepKeepsEvents(env, s, s.buffer[0]);
  }

  // ---------------------------------------------------------------- a key on its own

  /** Pressing a tap-hold key at rest holds the press back. */
  lemma PressIsHeldBack(env: Env, s: State, p: Event)
    requires AtRest(s) && TapHoldPress(env, Called(s.world), p)
    ensures Process(env, s, p) == s.(tk := Fresh(p), world := Called(s.world))
  {
    DrainNothing(env, s.(tk := Fresh(p), world := Called(s.world)));
  }

  /** The record that a release settles its own pending press as: a tap within the tapping term, else a
      hold. */
  function Settled(env: Env, w: World, tk: Record, q: Event): Nibble {
    if WithinTappingTerm(env, w, tk, q) then 1 else 0
  }

  lemma ReleaseIsRefused(env: Env, s: State, p: Event, q: Event)
    requires s.tk == Fresh(p) && s.buffer == [] && p.pressed && !p.IsTick()
    requires !q.IsTick() && !q.pressed && q.key == p.key
    ensures var w := Called(s.world); var n := Settled(env, w, s.tk, q); var t := Accept(env, s, q);
      && t.world.emitted == s.world.emitted + [Real(Tapped(p, n))] && t.buffer == [Tapped(q, n)]
      && t.tk == (if n == 1 then Tapped(p, 1) else EMPTY_RECORD)
  {
    hide WithinTappingTerm, Typed;
  }

  lemma ReleaseFollows(env: Env, s: State, p: Event, q: Event, n: Nibble)
    requires n <= 1 && s.buffer == [Tapped(q, n)] && s.tk == (if n == 1 then Tapped(p, 1) else EMPTY_RECORD)
    requires p.pressed && !p.IsTick() && !q.IsTick() && !q.pressed && q.key == p.key
    ensures var t := Drain(env, s);
      t.world.emitted == s.world.emitted + [Real(Tapped(q, n))] && t.buffer == [] && Pending(t.tk) == []
  {
    hide WithinTappingTerm, IsTapRecord;
    DrainOne(env, s);
  }

  /** The rule of the engine: a tap-hold key pressed at rest and then released comes out as a tap, count
      one on press and release alike, when it is released within its tapping term, and as a hold, count
      zero on both, when it is not. */
  lemma TapWithinTermElseHold(env: Env, s: State, p: Event, q: Event)
    requires AtRest(s) && TapHoldPress(env, Called(s.world), p)
    requires !q.IsTick() && !q.pressed && q.key == p.key
    ensures var t := Run(env, s, [p, q]);
      var n := if (q.time - p.time) % 0x1_0000 < env.tappingTerm(Called(Called(s.world)), Fresh(p)) then 1 else 0;
      && t.world.emitted == s.world.emitted + [Real(Tapped(p, n)), Real(Tapped(q, n))]
      && t.buffer == [] && Pending(t.tk) == []
  {
    hide Process, Settled, IsTapRecord;
    var s1 := Process(env, s, p);
    PressIsHeldBack(env, s, p);
    var n := Settled(env, Called(s1.world), s1.tk, q);
    SettledInTime(env, Called(s1.world), p, q);
    ReleaseSettles(env, s1, p, q);
    assert [p, q][1..] == [q] && [q][1..] == [];
    assert Run(env, s, [p, q]) == Run(env, s1, [q]) == Run(env, Process(env, s1, q), []);
    assert s.world.emitted + [Real(Tapped(p, n))] + [Real(Tapped(q, n))]
        == s.world.emitted + [Real(Tapped(p, n)), Real(Tapped(q, n))];
  }

  lemma SettledInTime(env: Env, w: World, p: Event, q: Event)
    ensures Settled(env, w, Fresh(p), q) == if (q.time - p.time) % 0x1_0000 < env.tappingTerm(w, Fresh(p)) then 1 else 0
  {
  }

  lemma ReleaseSettles(env: Env, s: State, p: Event, q: Event)
    requires s.tk == Fresh(p) && s.buffer == [] && p.pressed && !p.IsTick()
    requires !q.IsTick() && !q.pressed && q.key == p.key
    ensures var n := Settled(env, Called(s.world), s.tk, q); var t := Process(env, s, q);
      && t.world.emitted == s.world.emitted + [Real(Tapped(p, n))] + [Real(Tapped(q, n))]
      && t.buffer == [] && Pending(t.tk) == []
  {
    hide Accept, Drain, Settled;
    var n := Settled(env, Called(s.world), s.tk, q);
    SettledIsBit(env, Called(s.world), s.tk, q);
    ReleaseIsRefused(env, s, p, q);
    ReleaseFollows(env, Accept(env, s, q), p, q, n);
  }

  lemma SettledIsBit(env: Env, w: World, tk: Record, q: Event)
    ensures Settled(env, w, tk, q) <= 1
  {
  }

  /** A tick after the tapping term settles the pending key as a hold before it is released and before
      anything that waits behind it; an earlier tick settles nothing. Then the drain loop goes on. */
  lemma LateTickHolds(env: Env, s: State, t: Event)
    requires !s.tk.event.IsTick() && Pending(s.tk) != [] && t.IsTick()
    ensures var r := Process(env, s, t); var w := Called(s.world);
      if (t.time - s.tk.event.time) % 0x1_0000 < env.tappingTerm(w, s.tk) then r == Drain(env, s.(world := w))
      else
        && r == Drain(env, s.(tk := EMPTY_RECORD, world := w.(emitted := w.emitted + [Real(s.tk)])))
        && s.world.emitted + [Real(s.tk)] <= r.world.emitted
    ensures var r := Process(env, s, t); var w := Called(s.world);
      s.buffer == [] ==>
        if (t.time - s.tk.event.time) % 0x1_0000 < env.tappingTerm(w, s.tk) then r == s.(world := w)
        else r.tk == EMPTY_RECORD && r.buffer == [] && r.world.emitted == s.world.emitted + [Real(s.tk)]
  {
    hide Drain;
    var u := Accept(env, s, t);
    DrainExtends(env, u);
    if s.buffer == [] { DrainNothing(env, u); }
  }

  /** Releasing a key that has counted as a tap: the release goes out with the count of the tap. Within the
      tapping term of the press the key is remembered, so that it can be tapped again; after it, it is not. */
  lemma ReleaseOfTap(env: Env, s: State, q: Event)
    requires !s.tk.event.IsTick() && s.tk.event.pressed && s.tk.tap.count > 0 && s.buffer == []
    requires !q.IsTick() && !q.pressed && q.key == s.tk.event.key
    ensures var w := Called(s.world); var r := Record(q, s.tk.tap);
      var inTerm := (q.time - s.tk.event.time) % 0x1_0000 < env.tappingTerm(w, s.tk);
      Process(env, s, q) == Emit(s.(tk := if inTerm then r else EMPTY_RECORD, world := w), Real(r))
  {
    DrainNothing(env, Accept(env, s, q));
  }

  /** So a key that is tapped again after a release that came late starts anew, however soon that is. */
  lemma LateReleaseEndsTapping(env: Env, s: State, q: Event, p: Event)
    requires !s.tk.event.IsTick() && s.tk.event.pressed && s.tk.tap.count > 0 && s.buffer == []
    requires !q.IsTick() && !q.pressed && p.pressed && !p.IsTick() && p.key == q.key == s.tk.event.key
    requires (q.time - s.tk.event.time) % 0x1_0000 >= env.tappingTerm(Called(s.world), s.tk)
    requires TapHoldPress(env, Called(Process(env, s, q).world), p)
    ensures var t := Run(env, s, [q, p]);
      t.world.emitted == s.world.emitted + [Real(Record(q, s.tk.tap))] && t.tk == Fresh(p) && t.buffer == []
  {
    hide Process, TapHoldPress;
    ReleaseOfTap(env, s, q);
    PressIsHeldBack(env, Process(env, s, q), p);
    assert [q, p][1..] == [p] && [p][1..] == [];
    var s1 := Process(env, s, q);
    assert Run(env, s, [q, p]) == Run(env, s1, [p]) == Run(env, Process(env, s1, p), []);
  }

  /** Another key while a tap is being followed. A release, or a press of a key that is not tap-hold, goes out
      at once as it came; such a press disturbs the tap if its key is up and within its term. The press of a
      tap-hold key is held back, and takes over; if the tapped key is still down with a count above one, its
      release is made up first. A tapped key that is up is forgotten when its term is over. */
  lemma OtherKeyAfterTap(env: Env, s: State, e: Event)
    requires !s.tk.event.IsTick() && s.tk.tap.count > 0 && s.buffer == []
    requires !e.IsTick() && e.key != s.tk.event.key
    ensures
      var t := Process(env, s, e); var w := Called(s.world); var em := s.world.emitted; var tk := s.tk;
      var inTerm := (e.time - tk.event.time) % 0x1_0000 < env.tappingTerm(w, tk);
      var madeUp := if tk.event.pressed && tk.tap.count > 1
                    then [Synthetic(Record(Event(tk.event.key, e.time, tk.event.kind, false), tk.tap))] else [];
      var holds := IsTapRecord(env, w, Fresh(e));
      && t.buffer == []
      && t.world.emitted == (if e.pressed && holds then em + madeUp else em + [Real(Fresh(e))])
      && t.tk ==
         if e.pressed && holds then Fresh(e)
         else if tk.event.pressed then tk
         else if !inTerm then EMPTY_RECORD
         else if e.pressed then tk.(tap := tk.tap.(interrupted := true))
         else tk
  {
    hide IsTapRecord;
    var w := Called(s.world);
    assert s.world.emitted + [] == s.world.emitted;
    if !s.tk.event.pressed && (e.time - s.tk.event.time) % 0x1_0000 >= env.tappingTerm(w, s.tk) {
      var u := s.(tk := EMPTY_RECORD, world := w, buffer := [Fresh(e)]);
      assert Accept(env, s, e) == u;
      if e.pressed { StartsAnew(env, u, e); } else { DrainOne(env, u); }
    } else {
      DrainNothing(env, Accept(env, s, e));
    }
  }

  /** Tapping the key again: within both terms and undisturbed the press goes out at once, with the next
      tap count, up to fifteen; within the tapping term otherwise it is held back like a first press; and
      after it the key starts anew, held back if it is a tap-hold key and passed on if it is not. */
  lemma PressAgain(env: Env, s: State, p: Event)
    requires !s.tk.event.IsTick() && !s.tk.event.pressed && s.tk.tap.count > 0 && s.buffer == []
    requires !p.IsTick() && p.pressed && p.key == s.tk.event.key
    ensures
      var t := Process(env, s, p); var w := Called(s.world); var gap := (p.time - s.tk.event.time) % 0x1_0000;
      var inTerm, quick := gap < env.tappingTerm(w, s.tk), gap < env.quickTapTerm(w, s.tk);
      && t.buffer == []
      && if !inTerm && !IsTapRecord(env, w, Fresh(p)) then
           t.tk == EMPTY_RECORD && t.world.emitted == s.world.emitted + [Real(Fresh(p))]
         else if inTerm && quick && !s.tk.tap.interrupted then
           && t.tk.event == p && t.tk.tap.count == (if s.tk.tap.count == 15 then 15 else s.tk.tap.count + 1)
           && t.world.emitted == s.world.emitted + [Real(t.tk)]
         else t.tk == Fresh(p) && t.world.emitted == s.world.emitted
  {
    hide IsTapRecord;
    var w := Called(s.world);
    if WithinTappingTerm(env, w, s.tk, p) {
      DrainNothing(env, Accept(env, s, p));
    } else {
      assert Accept(env, s, p) == s.(tk := EMPTY_RECORD, world := w, buffer := [Fresh(p)]);
      StartsAnew(env, s.(tk := EMPTY_RECORD, world := w, buffer := [Fresh(p)]), p);
    }
  }

  lemma StartsAnew(env: Env, s: State, p: Event)
    requires s.tk == EMPTY_RECORD && s.buffer == [Fresh(p)] && !p.IsTick() && p.pressed
    ensures Drain(env, s) ==
      if IsTapRecord(env, s.world, Fresh(p)) then s.(tk := Fresh(p), buffer := [])
      else Emit(s, Real(Fresh(p))).(buffer := [])
  {
    hide IsTapRecord;
    DrainOne(env, s);
  }

  // ---------------------------------------------------------------- another key meanwhile

  /** The three ways a step leaves a pending tapping key: settled by its own release as a tap, settled
      as a hold, or still pending. */
  datatype Verdict = AsTap | AsHold | StillPending

  /** The verdict as the configuration options promise it: a tap by its own release within the tapping
      term; a hold when the term is over, when PERMISSIVE_HOLD meets the release of a key pressed
      meanwhile, or when HOLD_ON_OTHER_KEY_PRESS meets the press of another event. */
  function Judge(env: Env, s: State, r: Record): Verdict {
    var e := r.event;
    var touched := s.tk.(tap := s.tk.tap.(interrupted := true));
    if (e.time - s.tk.event.time) % 0x1_0000 >= env.tappingTerm(s.world, s.tk) then AsHold
    else if e.IsTick() then StillPending
    else if e.pressed then (if env.holdOnOtherKeyPress(s.world, touched) then AsHold else StillPending)
    else if e.key == s.tk.event.key then AsTap
    else if Typed(s.buffer, e) && env.permissiveHold(s.world, s.tk) then AsHold
    else StillPending
  }

  /** The engine keeps to the verdict: a key is emitted as a tap, or as a hold and given up, or kept
      pending, exactly as judged, and its event is not consumed when it settles. */
  lemma StepFollowsVerdict(env: Env, s: State, r: Record)
    requires !s.tk.event.IsTick() && Pending(s.tk) != []
    ensures var o := Step(env, s, r); var em := s.world.emitted;
      var touched := s.tk.(tap := s.tk.tap.(interrupted := true));
      match Judge(env, s, r)
      case AsTap =>
        && !o.consumed && o.s.tk == s.tk.(tap := s.tk.tap.(count := 1))
        && o.s.world.emitted == em + [Real(o.s.tk)]
      case AsHold =>
        && !o.consumed && o.s.tk == EMPTY_RECORD
        && (o.s.world.emitted == em + [Real(s.tk)] || o.s.world.emitted == em + [Real(touched)])
      case StillPending =>
        Pending(o.s.tk) == [s.tk.event] && (o.s.world.emitted == em || o.s.world.emitted == em + [Real(r)])
  {
    hide Typed, MustRetain;
  }

  /** The pending press `p` once another key has been pressed. */
  function Touched(p: Event): Record {
    Record(p, Tap(true, 0))
  }

  /** The world once the touched key has been passed on as a hold. */
  function AfterHold(w: World, p: Event): World {
    w.(emitted := w.emitted + [Real(Touched(p))])
  }

  /** A key typed inside the tapping term of a pending tap-hold key, whatever the callbacks answer from
      call to call. If HOLD_ON_OTHER_KEY_PRESS says so on the press, the tap-hold key comes out as a hold
      and the other key is treated as if pressed at rest. If PERMISSIVE_HOLD says so on the release, the
      tap-hold key comes out as a hold and the other key after it, as a tap if it is a tap-hold key itself;
      if its own term is over by then, only its press does, and the release waits. If neither says so,
      nothing comes out yet, unless HOLD_ON_OTHER_KEY_PRESS has changed its answer: then the tap-hold key
      alone does. */
  lemma NestedKey(env: Env, s: State, p: Event, a: Event, b: Event)
    requires AtRest(s) && TapHoldPress(env, Called(s.world), p)
    requires !a.IsTick() && a.pressed && !b.IsTick() && !b.pressed && a.key == b.key != p.key
    requires var w2 := Called(Called(s.world)); var w3 := Called(w2);
      && WithinTappingTerm(env, w2, Fresh(p), a) && WithinTappingTerm(env, w2, Touched(p), a)
      && WithinTappingTerm(env, w3, Touched(p), a) && WithinTappingTerm(env, w3, Touched(p), b)
    ensures var w2 := Called(Called(s.world)); var w3 := Called(w2);
      var t := Run(env, s, [p, a, b]); var em := s.world.emitted; var held := Touched(p);
      if env.holdOnOtherKeyPress(w2, held) then
        var w := AfterHold(w2, p);
        var n := if IsTapRecord(env, w, Fresh(a)) then Settled(env, Called(w), Fresh(a), b) else 0;
        && t.world.emitted == em + [Real(held)] + [Real(Tapped(a, n))] + [Real(Tapped(b, n))]
        && t.buffer == [] && Pending(t.tk) == []
      else if env.permissiveHold(w3, held) then
        var w := AfterHold(w3, p);
        if !IsTapRecord(env, w, Fresh(a)) then
          AtRest(t) && t.world.emitted == em + [Real(held)] + [Real(Fresh(a))] + [Real(Fresh(b))]
        else if Settled(env, w, Fresh(a), b) == 1 then
          && t.world.emitted == em + [Real(held)] + [Real(Tapped(a, 1))] + [Real(Tapped(b, 1))]
          && t.buffer == [] && Pending(t.tk) == []
        else
          t.world.emitted == em + [Real(held)] + [Real(Fresh(a))] && t.tk == EMPTY_RECORD && t.buffer == [Fresh(b)]
      else if env.holdOnOtherKeyPress(w3, held) then
        t.world.emitted == em + [Real(held)] && t.tk == EMPTY_RECORD && t.buffer == [Fresh(a), Fresh(b)]
      else
        t.world.emitted == em && t.tk == held && t.buffer == [Fresh(a), Fresh(b)]
  {
    hide Process, IsTapRecord, WithinTappingTerm, Settled;
    var s1 := Process(env, s, p);
    PressIsHeldBack(env, s, p);
    var s2 := Process(env, s1, a);
    OtherPress(env, s1, p, a);
    var s3 := Process(env, s2, b);
    if !env.holdOnOtherKeyPress(Called(s1.world), Touched(p)) {
      OtherRelease(env, s2, p, a, b);
    } else if s2.tk == Fresh(a) {
      ReleaseSettles(env, s2, a, b);
    } else {
      PlainRelease(env, s2, b);
    }
    var es := [p, a, b];
    assert es[1..] == [a, b] && es[1..][1..] == [b] && es[1..][1..][1..] == [];
    assert Run(env, s, es) == Run(env, s1, es[1..]) == Run(env, s2, es[1..][1..]) == Run(env, s3, []);
  }

  lemma OtherPress(env: Env, s: State, p: Event, a: Event)
    requires s.tk == Fresh(p) && s.buffer == [] && p.pressed && !p.IsTick()
    requires !a.IsTick() && a.pressed && a.key != p.key
    requires var w := Called(s.world);
      WithinTappingTerm(env, w, Fresh(p), a) && WithinTappingTerm(env, w, Touched(p), a)
    ensures var w := Called(s.world); var t := Process(env, s, a);
      if !env.holdOnOtherKeyPress(w, Touched(p)) then t == s.(tk := Touched(p), buffer := [Fresh(a)], world := w)
      else if IsTapRecord(env, AfterHold(w, p), Fresh(a)) then t == s.(tk := Fresh(a), world := AfterHold(w, p))
      else AtRest(t) && t.world.emitted == s.world.emitted + [Real(Touched(p))] + [Real(Fresh(a))]
  {
    hide IsTapRecord, WithinTappingTerm;
    var w := Called(s.world);
    if env.holdOnOtherKeyPress(w, Touched(p)) {
      var u := s.(tk := EMPTY_RECORD, buffer := [Fresh(a)], world := AfterHold(w, p));
      assert Accept(env, s, a) == u;
      StartsAnew(env, u, a);
    } else {
      var u := s.(tk := Touched(p), buffer := [Fresh(a)], world := w);
      assert Accept(env, s, a) == u;
      DrainOne(env, u);
    }
  }

  lemma PlainRelease(env: Env, s: State, b: Event)
    requires AtRest(s) && !b.IsTick() && !b.pressed
    ensures var t := Process(env, s, b); AtRest(t) && t.world.emitted == s.world.emitted + [Real(Fresh(b))]
  {
    DrainNothing(env, Accept(env, s, b));
  }

  lemma OtherRelease(env: Env, s: State, p: Event, a: Event, b: Event)
    requires s.tk == Touched(p) && s.buffer == [Fresh(a)] && p.pressed && !p.IsTick()
    requires !a.IsTick() && a.pressed && !b.IsTick() && !b.pressed && a.key == b.key != p.key
    requires var w := Called(s.world);
      WithinTappingTerm(env, w, Touched(p), a) && WithinTappingTerm(env, w, Touched(p), b)
    ensures var w := Called(s.world); var t := Process(env, s, b); var em := s.world.emitted + [Real(Touched(p))];
      if env.permissiveHold(w, Touched(p)) then
        if !IsTapRecord(env, AfterHold(w, p), Fresh(a)) then
          AtRest(t) && t.world.emitted == em + [Real(Fresh(a))] + [Real(Fresh(b))]
        else if Settled(env, AfterHold(w, p), Fresh(a), b) == 1 then
          && t.world.emitted == em + [Real(Tapped(a, 1))] + [Real(Tapped(b, 1))]
          && t.buffer == [] && Pending(t.tk) == []
        else
          t.world.emitted == em + [Real(Fresh(a))] && t.tk == EMPTY_RECORD && t.buffer == [Fresh(b)]
      else if env.holdOnOtherKeyPress(w, Touched(p)) then
        t.world.emitted == em && t.tk == EMPTY_RECORD && t.buffer == [Fresh(a), Fresh(b)]
      else
        t.world.emitted == s.world.emitted && t.tk == Touched(p) && t.buffer == [Fresh(a), Fresh(b)]
  {
    hide IsTapRecord, MustRetain, Drain, Settled, WithinTappingTerm;
    assert s.buffer[0].IsFor(b.key);
    var t := Accept(env, s, b);
    assert t.buffer == [Fresh(a), Fresh(b)];
    if env.permissiveHold(Called(s.world), Touched(p)) {
      assert t.tk == EMPTY_RECORD && t.world == AfterHold(Called(s.world), p);
      if IsTapRecord(env, t.world, Fresh(a)) { TapHoldPair(env, t, a, b); } else { PlainPair(env, t, a, b); }
    } else {
      assert t == s.(buffer := t.buffer, world := Called(s.world));
      var o := Step(env, t, t.buffer[0]);
      assert !o.consumed && o.s.buffer[0 := o.rec] == t.buffer;
      DrainTwo(env, t);
    }
  }

  /** A plain key's press and release drained with no tapping key. */
  lemma PlainPair(env: Env, s: State, a: Event, b: Event)
    requires s.tk == EMPTY_RECORD && s.buffer == [Fresh(a), Fresh(b)] && !IsTapRecord(env, s.world, Fresh(a))
    requires !a.IsTick() && a.pressed && !b.IsTick() && !b.pressed
    ensures var t := Drain(env, s);
      AtRest(t) && t.world.emitted == s.world.emitted + [Real(Fresh(a))] + [Real(Fresh(b))]
  {
    hide IsTapRecord, Drain;
    var u := Emit(s, Real(Fresh(a))).(buffer := [Fresh(b)]);
    assert s.buffer[1..] == [Fresh(b)];
    DrainTwo(env, s);
    DrainOne(env, u);
  }

  /** A tap-hold key's press and release drained with no tapping key. */
  lemma TapHoldPair(env: Env, s: State, a: Event, b: Event)
    requires s.tk == EMPTY_RECORD && s.buffer == [Fresh(a), Fresh(b)] && IsTapRecord(env, s.world, Fresh(a))
    requires !a.IsTick() && a.pressed && !b.IsTick() && !b.pressed && a.key == b.key
    ensures var t := Drain(env, s);
      if Settled(env, s.world, Fresh(a), b) == 1 then
        && t.world.emitted == s.world.emitted + [Real(Tapped(a, 1))] + [Real(Tapped(b, 1))]
        && t.buffer == [] && Pending(t.tk) == []
      else
        t.world.emitted == s.world.emitted + [Real(Fresh(a))] && t.tk == EMPTY_RECORD && t.buffer == [Fresh(b)]
  {
    hide IsTapRecord, Drain, WithinTappingTerm;
    var k := FindRelease(env, s.world, Fresh(a), s.buffer, 0);
    assert !Completes(env, s.world, Fresh(a), s.buffer[0]);
    DrainTwo(env, s);
    if Settled(env, s.world, Fresh(a), b) == 1 {
      assert Completes(env, s.world, Fresh(a), s.buffer[1]) && k == 1;
      var tk := Tapped(a, 1);
      var u := Emit(s.(tk := tk, buffer := [Tapped(b, 1)]), Real(tk));
      assert s.buffer[1 := Tapped(b, 1)][1..] == [Tapped(b, 1)];
      DrainOne(env, u);
    } else {
      assert !Completes(env, s.world, Fresh(a), s.buffer[1]) && k == 2;
      assert s.buffer[1..] == [Fresh(b)];
      DrainOne(env, s.(tk := Fresh(a), buffer := [Fresh(b)]));
    }
  }
}
