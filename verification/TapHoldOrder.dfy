/** Whether each key's presses and releases are passed on in the order they were typed: exactly when they
    are, call by call and over whole runs, and inputs for which they are not. */
module TapHoldOrder {
  import opened Words
  import opened TapHold
  import opened TapHoldTheorems
  import opened TapHoldTrace

  // ---------------------------------------------------------------- the line of a key

  /** The event, if it is one of key `k`. */
  function Own(e: Event, k: KeyPos): seq<Event> {
    if !e.IsTick() && e.key == k then [e] else []
  }

  /** The events of key `k` among `es`. */
  function OfKey(es: seq<Event>, k: KeyPos): seq<Event> {
    if es == [] then [] else OfKey(es[..|es| - 1], k) + Own(es[|es| - 1], k)
  }

  /** The events of key `k` that were fed in and have been passed on. */
  function Passed(em: seq<Emission>, k: KeyPos): seq<Event> {
    if em == [] then []
    else
      Passed(em[..|em| - 1], k) + (match em[|em| - 1] case Real(r) => Own(r.event, k) case Synthetic(_) => [])
  }

  /** What of key `k` has been passed on, and what is held as the tapping key. */
  function Front(s: State, k: KeyPos): seq<Event> {
    Passed(s.world.emitted, k) + OfKey(Pending(s.tk), k)
  }

  function Waiting(s: State, k: KeyPos): seq<Event> {
    OfKey(EventsOf(s.buffer), k)
  }

  /** All events of key `k` in the order in which they have left the engine or are going to. */
  function Line(s: State, k: KeyPos): seq<Event> {
    Front(s, k) + Waiting(s, k)
  }

  lemma PassedSnoc(em: seq<Emission>, r: Record, k: KeyPos)
    ensures Passed(em + [Real(r)], k) == Passed(em, k) + Own(r.event, k)
    ensures Passed(em + [Synthetic(r)], k) == Passed(em, k)
  {
    assert (em + [Real(r)])[..|em|] == em;
    assert (em + [Synthetic(r)])[..|em|] == em;
  }

  lemma OfKeyOne(e: Event, k: KeyPos)
    ensures OfKey([e], k) == Own(e, k)
  {
    assert [e][..0] == [];
  }

  lemma OfKeySnoc(es: seq<Event>, e: Event, k: KeyPos)
    ensures OfKey(es + [e], k) == OfKey(es, k) + Own(e, k)
  {
    assert (es + [e])[..|es|] == es;
  }

  lemma {:induction false} OfKeyHead(es: seq<Event>, k: KeyPos)
    requires es != []
    ensures OfKey(es, k) == Own(es[0], k) + OfKey(es[1..], k)
    decreases |es|
  {
    hide OfKey, Own;
    var n := |es| - 1;
    if n == 0 {
      OfKeyOne(es[0], k);
      OfKeyNone(k);
      assert es == [es[0]] && es[1..] == [];
    } else {
      OfKeyHead(es[..n], k);
      OfKeySnoc(es[..n], es[n], k);
      OfKeySnoc(es[..n][1..], es[n], k);
      assert es[..n] + [es[n]] == es && es[..n][1..] + [es[n]] == es[1..];
    }
  }

  lemma OfKeyNone(k: KeyPos)
    ensures OfKey([], k) == []
  {
  }

  // ---------------------------------------------------------------- one step

  lemma ScanOrder(env: Env, s: State, k: KeyPos)
    ensures Front(ScanTap(env, s), k) == Front(s, k)
  {
    PassedSnoc(s.world.emitted, s.tk.(tap := s.tk.tap.(count := 1)), k);
    OfKeyOne(s.tk.event, k);
  }

  lemma UnsettledOrder(env: Env, s: State, r: Record, k: KeyPos)
    requires s.tk.event.pressed && s.tk.tap.count == 0
    ensures var o := StepUnsettled(env, s, r);
      Front(o.s, k) == Front(s, k) + if o.consumed then Own(r.event, k) else []
  {
    hide Passed, OfKey, Typed, MustRetain;
    OfKeyOne(s.tk.event, k);
    OfKeyNone(k);
    PassedSnoc(s.world.emitted, s.tk, k);
    PassedSnoc(s.world.emitted, s.tk.(tap := s.tk.tap.(count := 1)), k);
    PassedSnoc(s.world.emitted, s.tk.(tap := s.tk.tap.(interrupted := true)), k);
    PassedSnoc(s.world.emitted, r, k);
  }

  lemma SettledOrder(env: Env, s: State, r: Record, within: bool, k: KeyPos)
    requires s.tk.event.pressed && s.tk.tap.count > 0 && ValidRecord(r)
    ensures var o := StepSettled(env, s, r, within);
      o.consumed && Front(o.s, k) == Front(s, k) + Own(r.event, k)
  {
    hide Passed, OfKey, ScanTap, IsTapRecord;
    OfKeyNone(k);
    OfKeyOne(r.event, k);
    PassedSnoc(s.world.emitted, r.(tap := s.tk.tap), k);
    PassedSnoc(s.world.emitted, r, k);
    var made := Emit(s, Synthetic(MadeUpRelease(s.tk, r.event.time)));
    PassedSnoc(s.world.emitted, MadeUpRelease(s.tk, r.event.time), k);
    ScanOrder(env, made.(tk := r), k);
    ScanOrder(env, s.(tk := r), k);
  }

  lemma ReleasedOrder(env: Env, s: State, r: Record, k: KeyPos)
    requires !s.tk.event.pressed && s.tk.tap.count > 0 && ValidRecord(r)
    ensures var o := StepReleased(env, s, r);
      o.consumed && Front(o.s, k) == Front(s, k) + Own(r.event, k)
  {
    hide Passed, OfKey, ScanTap, IsTapRecord, WithinQuickTapTerm;
    OfKeyNone(k);
    OfKeyOne(r.event, k);
    PassedSnoc(s.world.emitted, r, k);
    ScanOrder(env, s.(tk := r), k);
    var count: Nibble := if s.tk.tap.count < 15 then s.tk.tap.count + 1 else s.tk.tap.count;
    PassedSnoc(s.world.emitted, r.(tap := s.tk.tap.(count := count)), k);
  }

  /** A step puts the event it consumes behind everything of its key that has been passed on or is held
      as the tapping key, and changes no other order. */
  lemma StepOrder(env: Env, s: State, r: Record, k: KeyPos)
    requires ValidTappingKey(s.tk) && ValidRecord(r)
    ensures var o := Step(env, s, r);
      Front(o.s, k) == Front(s, k) + if o.consumed then Own(r.event, k) else []
  {
    hide Passed, OfKey, StepUnsettled, StepSettled, StepReleased, ScanTap, IsTapRecord, WithinTappingTerm;
    OfKeyNone(k);
    if s.tk.event.IsTick() {
      OfKeyOne(r.event, k);
      PassedSnoc(s.world.emitted, r, k);
      ScanOrder(env, s.(tk := r), k);
    } else if s.tk.event.pressed && s.tk.tap.count == 0 {
      OfKeyOne(s.tk.event, k);
      UnsettledOrder(env, s, r, k);
      PassedSnoc(s.world.emitted, s.tk, k);
    } else if s.tk.event.pressed {
      SettledOrder(env, s, r, true, k);
      SettledOrder(env, s, r, false, k);
    } else {
      ReleasedOrder(env, s, r, k);
    }
  }

  /** The tapping key is one that has been settled as a tap and that is still being followed: down, or up
      and within its tapping term. */
  predicate Following(env: Env, s: State, e: Event) {
    !s.tk.event.IsTick() && if s.tk.event.pressed then s.tk.tap.count > 0 else WithinTappingTerm(env, s.world, s.tk, e)
  }

  /** Exactly when a real event is taken at once instead of being made to wait: there is no tapping key,
      or it is settled and still followed, or it is pending and the event is the release of another key
      that was pressed before it and carries no modifier or layer. */
  lemma TakenAtOnce(env: Env, s: State, r: Record)
    requires Valid(s) && !r.event.IsTick()
    ensures Step(env, s, r).consumed <==>
      || s.tk.event.IsTick()
      || Following(env, s, r.event)
      || (Pending(s.tk) != [] && WithinTappingTerm(env, s.world, s.tk, r.event)
          && !r.event.pressed && r.event.key != s.tk.event.key && !Typed(s.buffer, r.event)
          && !MustRetain(env.action(s.world, r.event.key), r.tap))
  {
    hide WithinTappingTerm, Typed, MustRetain, ScanTap, IsTapRecord, WithinQuickTapTerm;
  }

  // ---------------------------------------------------------------- the drain loop

  /** The state after one turn of the drain loop. */
  function Turned(env: Env, s: State): State
    requires s.buffer != []
  {
    var o := Step(env, s, s.buffer[0]);
    StepKeepsEvents(env, s, s.buffer[0]);
    o.s.(buffer := if o.consumed then o.s.buffer[1..] else o.s.buffer[0 := o.rec])
  }

  lemma TurnOrder(env: Env, s: State, k: KeyPos)
    requires Valid(s) && s.buffer != []
    ensures Valid(Turned(env, s)) && Line(Turned(env, s), k) == Line(s, k)
  {
    hide Step, Front, Own, OfKey, EventsOf, Valid;
    var r, o, t := s.buffer[0], Step(env, s, s.buffer[0]), Turned(env, s);
    FirstIsValid(s);
    StepKeepsValid(env, s, r);
    StepKeepsEvents(env, s, r);
    TurnIsValid(o.s, o.rec, o.consumed);
    StepOrder(env, s, r, k);
    FrontIs(t, o.s, k);
    WaitingTurns(s.buffer, o.s.buffer, o.rec, k);
    if o.consumed { assert Front(s, k) + Own(r.event, k) + Waiting(t, k) == Front(s, k) + Waiting(s, k); }
  }

  lemma FirstIsValid(s: State)
    requires Valid(s) && s.buffer != []
    ensures ValidRecord(s.buffer[0]) && !s.buffer[0].event.IsTick() && ValidTappingKey(s.tk)
  {
  }

  lemma TurnIsValid(s: State, rec: Record, consumed: bool)
    requires Valid(s) && s.buffer != [] && rec.event == s.buffer[0].event && (!consumed ==> ValidRecord(rec))
    requires !rec.event.IsTick()
    ensures Valid(s.(buffer := if consumed then s.buffer[1..] else s.buffer[0 := rec]))
  {
  }

  lemma FrontIs(t: State, s: State, k: KeyPos)
    requires t.tk == s.tk && t.world == s.world
    ensures Front(t, k) == Front(s, k)
  {
  }

  lemma WaitingTurns(rs: seq<Record>, rs': seq<Record>, rec: Record, k: KeyPos)
    requires rs != [] && EventsOf(rs') == EventsOf(rs) && rec.event == rs[0].event
    ensures |rs'| == |rs|
    ensures OfKey(EventsOf(rs), k) == Own(rs[0].event, k) + OfKey(EventsOf(rs'[1..]), k)
    ensures OfKey(EventsOf(rs), k) == OfKey(EventsOf(rs'[0 := rec]), k)
  {
    hide OfKey, Own;
    OfKeyHead(EventsOf(rs), k);
    assert EventsOf(rs'[1..]) == EventsOf(rs)[1..];
    assert EventsOf(rs'[0 := rec]) == EventsOf(rs);
  }

  /** Handing on what waits never changes the order of any key's events. */
  lemma {:induction false} DrainOrder(env: Env, s: State, k: KeyPos)
    requires Valid(s)
    ensures Line(Drain(env, s), k) == Line(s, k)
    decreases |s.buffer|
  {
    hide Step, Line;
    if s.buffer != [] {
      TurnOrder(env, s, k);
      StepKeepsEvents(env, s, s.buffer[0]);
      if Step(env, s, s.buffer[0]).consumed { DrainOrder(env, Turned(env, s), k); }
    }
  }

  // ---------------------------------------------------------------- one call

  function Called(s: State): State {
    s.(world := s.world.(calls := s.world.calls + 1))
  }

  lemma AcceptOrder(env: Env, s: State, e: Event, k: KeyPos)
    requires Valid(s) && Accept(env, s, e).dropped == s.dropped
    ensures Line(Accept(env, s, e), k) ==
      if Step(env, Called(s), Fresh(e)).consumed then Front(s, k) + Own(e, k) + Waiting(s, k)
      else Line(s, k) + Own(e, k)
  {
    hide Step, Passed, OfKey, EventsOf, Pending;
    var s0 := Called(s);
    var o := Step(env, s0, Fresh(e));
    StepKeepsEvents(env, s0, Fresh(e));
    StepOrder(env, s0, Fresh(e), k);
    if !o.consumed && !e.IsTick() {
      OfKeySnoc(EventsOf(o.s.buffer), e, k);
      assert EventsOf(o.s.buffer + [o.rec]) == EventsOf(o.s.buffer) + [e];
    }
  }

  /** A tick changes no order. */
  lemma TickOrder(env: Env, s: State, t: Event, k: KeyPos)
    requires Valid(s) && t.IsTick()
    ensures Line(Process(env, s, t), k) == Line(s, k)
  {
    hide Step, Drain, Line;
    StepKeepsEvents(env, Called(s), Fresh(t));
    AcceptKeepsValid(env, s, t);
    TickAccepted(env, s, t, k);
    DrainOrder(env, Accept(env, s, t), k);
  }

  lemma TickAccepted(env: Env, s: State, t: Event, k: KeyPos)
    requires Valid(s) && t.IsTick()
    ensures Line(Accept(env, s, t), k) == Line(s, k)
  {
    hide Step, Passed, OfKey, EventsOf, Pending;
    StepKeepsEvents(env, Called(s), Fresh(t));
    AcceptOrder(env, s, t, k);
  }

  /** The next event of a key is the opposite of its last one. */
  ghost predicate Follows(line: seq<Event>, e: Event) {
    line != [] ==> line[|line| - 1].pressed != e.pressed
  }

  /** What a caller can check before the call: nothing of the event's key waits, or a tap-hold key is
      pending, or the last tap's term is over. */
  predicate ArrivesInOrder(env: Env, s: State, e: Event) {
    || Waiting(s, e.key) == []
    || (!s.tk.event.IsTick() && !Following(env, Called(s), e))
  }

  lemma {:induction false} LastOfKey(rs: seq<Record>, k: KeyPos) returns (i: nat)
    requires OfKey(EventsOf(rs), k) != []
    ensures var es := OfKey(EventsOf(rs), k);
      i < |rs| && rs[i].IsFor(k) && rs[i].event == es[|es| - 1]
  {
    var n := |rs| - 1;
    assert EventsOf(rs)[..n] == EventsOf(rs[..n]);
    if Own(rs[n].event, k) != [] {
      i := n;
    } else {
      i := LastOfKey(rs[..n], k);
    }
  }

  /** If the last waiting event of the key is its press, its release counts as typed. */
  lemma WaitingIsTyped(s: State, e: Event)
    requires Waiting(s, e.key) != [] && Follows(Waiting(s, e.key), e)
    ensures Typed(s.buffer, e)
  {
    var i := LastOfKey(s.buffer, e.key);
    assert s.buffer[i].IsFor(e.key);
  }

  /** An event that arrives in order and is taken at once finds nothing of its key waiting. */
  lemma TakenFindsNothing(env: Env, s: State, e: Event)
    requires Valid(s) && !e.IsTick() && Follows(Line(s, e.key), e) && ArrivesInOrder(env, s, e)
    requires Step(env, Called(s), Fresh(e)).consumed
    ensures Waiting(s, e.key) == []
  {
    hide Step, Front, Waiting, Typed, Following, MustRetain, WithinTappingTerm, Valid;
    var k := e.key;
    SameValid(s);
    TakenAtOnce(env, Called(s), Fresh(e));
    if Waiting(s, k) != [] {
      assert Line(s, k)[|Line(s, k)| - 1] == Waiting(s, k)[|Waiting(s, k)| - 1];
      WaitingIsTyped(s, e);
    }
  }

  lemma SwappedDiffers(front: seq<Event>, e: Event, waiting: seq<Event>)
    requires Follows(waiting, e)
    ensures front + [e] + waiting == front + waiting + [e] <==> waiting == []
  {
    if waiting != [] {
      var n := |front| + |waiting|;
      assert (front + [e] + waiting)[n] == waiting[|waiting| - 1];
      assert (front + waiting + [e])[n] == e;
    } else {
      assert front + [e] + waiting == front + [e] == front + waiting + [e];
    }
  }

  /** Exactly when a call keeps its key's events in order: for every event that is the opposite of its
      key's last one and that is not lost, its key's line grows by it at the end if and only if it
      arrives in order. The lines of all other keys stay as they are in any case. */
  lemma OrderKeptExactly(env: Env, s: State, e: Event)
    requires Valid(s) && !e.IsTick() && Process(env, s, e).dropped == s.dropped && Follows(Line(s, e.key), e)
    ensures Line(Process(env, s, e), e.key) == Line(s, e.key) + [e] <==> ArrivesInOrder(env, s, e)
    ensures forall k :: k != e.key ==> Line(Process(env, s, e), k) == Line(s, k)
  {
    hide Step, Drain, Accept, Front, Waiting, Typed, Following, MustRetain, WithinTappingTerm, Valid;
    DrainDropsNothing(env, Accept(env, s, e));
    AcceptKeepsValid(env, s, e);
    forall k ensures Line(Process(env, s, e), k) == Line(Accept(env, s, e), k) {
      DrainOrder(env, Accept(env, s, e), k);
    }
    forall k | k != e.key ensures Line(Accept(env, s, e), k) == Line(s, k) {
      AcceptOrder(env, s, e, k);
      assert Front(s, k) + [] + Waiting(s, k) == Line(s, k) == Line(s, k) + [];
    }
    var k := e.key;
    AcceptOrder(env, s, e, k);
    SameValid(s);
    TakenAtOnce(env, Called(s), Fresh(e));
    assert Follows(Waiting(s, k), e) by {
      if Waiting(s, k) != [] { assert Line(s, k)[|Line(s, k)| - 1] == Waiting(s, k)[|Waiting(s, k)| - 1]; }
    }
    SwappedDiffers(Front(s, k), e, Waiting(s, k));
    if Waiting(s, k) != [] { WaitingIsTyped(s, e); }
  }

  lemma SameValid(s: State)
    ensures Valid(s) ==> Valid(Called(s))
  {
  }

  // ---------------------------------------------------------------- whole runs

  ghost predicate Alternates(line: seq<Event>) {
    forall i :: 0 < i < |line| ==> line[i - 1].pressed != line[i].pressed
  }

  /** After the first `n` events of the run every key's line is its events as typed. */
  ghost predicate InOrderAfter(env: Env, s: State, es: seq<Event>, n: nat)
    requires n <= |es|
  {
    forall k :: Line(Run(env, s, es[..n]), k) == Line(s, k) + OfKey(es[..n], k)
  }

  /** The event number `n` of the run is a tick or arrives in order. */
  ghost predicate ArrivalInOrder(env: Env, s: State, es: seq<Event>, n: nat)
    requires n < |es|
  {
    es[n].IsTick() || ArrivesInOrder(env, Run(env, s, es[..n]), es[n])
  }

  lemma {:induction false} RunSnoc(env: Env, s: State, es: seq<Event>, n: nat)
    requires n < |es|
    ensures Run(env, s, es[..n + 1]) == Process(env, Run(env, s, es[..n]), es[n])
    decreases n
  {
    hide Process;
    var t := Process(env, s, es[0]);
    assert es[..n + 1][1..] == es[1..][..n];
    if n > 0 {
      RunSnoc(env, t, es[1..], n - 1);
      assert es[..n][1..] == es[1..][..n - 1];
    }
  }

  lemma StepDrops(env: Env, s: State, e: Event)
    ensures s.dropped <= Process(env, s, e).dropped
  {
    hide Step, Drain;
    StepKeepsEvents(env, Called(s), Fresh(e));
    DrainDropsNothing(env, Accept(env, s, e));
  }

  /** Once nothing is lost by the end, nothing is lost on the way. */
  lemma {:induction false} NothingLost(env: Env, s: State, es: seq<Event>, n: nat)
    requires n <= |es|
    ensures s.dropped <= Run(env, s, es[..n]).dropped <= Run(env, s, es).dropped
    decreases |es|
  {
    hide Process;
    if es != [] {
      var t := Process(env, s, es[0]);
      StepDrops(env, s, es[0]);
      if n > 0 {
        NothingLost(env, t, es[1..], n - 1);
        assert es[..n][1..] == es[1..][..n - 1];
      } else {
        NothingLost(env, t, es[1..], 0);
      }
    }
  }

  lemma NextFollows(env: Env, s: State, es: seq<Event>, n: nat)
    requires n < |es| && !es[n].IsTick() && InOrderAfter(env, s, es, n)
    requires Alternates(Line(s, es[n].key) + OfKey(es, es[n].key))
    ensures Follows(Line(Run(env, s, es[..n]), es[n].key), es[n])
  {
    hide Run, Line, OfKey, Own;
    var k := es[n].key;
    var before, all := Line(s, k) + OfKey(es[..n], k), Line(s, k) + OfKey(es, k);
    assert es[..n + 1] == es[..n] + [es[n]];
    OfKeySnoc(es[..n], es[n], k);
    OwnIs(es[n]);
    OfKeyPrefix(es, n + 1, k);
    assert before + [es[n]] <= all;
    if before != [] { assert all[|before| - 1] == before[|before| - 1] && all[|before|] == es[n]; }
  }

  lemma OwnIs(e: Event)
    requires !e.IsTick()
    ensures Own(e, e.key) == [e]
  {
  }

  lemma {:induction false} OfKeyPrefix(es: seq<Event>, n: nat, k: KeyPos)
    requires n <= |es|
    ensures OfKey(es[..n], k) <= OfKey(es, k)
    decreases |es| - n
  {
    if n < |es| {
      assert es[..n + 1] == es[..n] + [es[n]];
      OfKeySnoc(es[..n], es[n], k);
      OfKeyPrefix(es, n + 1, k);
    } else {
      assert es[..n] == es;
    }
  }

  lemma OneMoreTyped(s: State, es: seq<Event>, n: nat, k: KeyPos)
    requires n < |es|
    ensures Line(s, k) + OfKey(es[..n + 1], k) == Line(s, k) + OfKey(es[..n], k) + Own(es[n], k)
  {
    hide Line, OfKey;
    assert es[..n + 1] == es[..n] + [es[n]];
    OfKeySnoc(es[..n], es[n], k);
  }

  /** One more event, seen from the state `t` that the events before it lead to. */
  lemma OneMoreLine(env: Env, t: State, e: Event)
    requires Valid(t) && Process(env, t, e).dropped == t.dropped && (!e.IsTick() ==> Follows(Line(t, e.key), e))
    ensures (forall k :: Line(Process(env, t, e), k) == Line(t, k) + Own(e, k))
       <==> e.IsTick() || ArrivesInOrder(env, t, e)
  {
    hide Process, Line, ArrivesInOrder, Valid, Follows;
    if e.IsTick() {
      forall k ensures Line(Process(env, t, e), k) == Line(t, k) { TickOrder(env, t, e, k); }
    } else {
      OrderKeptExactly(env, t, e);
      assert Own(e, e.key) == [e];
      assert forall k :: k != e.key ==> Line(t, k) + Own(e, k) == Line(t, k);
    }
  }

  lemma OneMoreInOrder(env: Env, s: State, es: seq<Event>, n: nat)
    requires Valid(s) && n < |es| && Run(env, s, es).dropped == s.dropped && InOrderAfter(env, s, es, n)
    requires forall k :: Alternates(Line(s, k) + OfKey(es, k))
    ensures InOrderAfter(env, s, es, n + 1) <==> ArrivalInOrder(env, s, es, n)
  {
    hide Run, Process, Line, OfKey, Own, ArrivesInOrder, Valid, Alternates, Follows;
    var t, e := Run(env, s, es[..n]), es[n];
    RunKeepsValid(env, s, es[..n]);
    RunSnoc(env, s, es, n);
    NothingLost(env, s, es, n);
    NothingLost(env, s, es, n + 1);
    if !e.IsTick() { NextFollows(env, s, es, n); }
    OneMoreLine(env, t, e);
    forall k ensures Line(t, k) + Own(e, k) == Line(s, k) + OfKey(es[..n + 1], k) { OneMoreTyped(s, es, n, k); }
  }

  /** Over any run in which every key is pressed and released in turn and nothing is lost to an overflow,
      every key's events are at all times passed on, held and waiting in the order they were typed if and
      only if every event arrived in order. */
  lemma {:induction false} KeysKeepTheirOrder(env: Env, s: State, es: seq<Event>, n: nat)
    requires Valid(s) && n <= |es| && Run(env, s, es).dropped == s.dropped
    requires forall k :: Alternates(Line(s, k) + OfKey(es, k))
    ensures (forall i: nat :: i <= n ==> InOrderAfter(env, s, es, i))
       <==> (forall i: nat :: i < n ==> ArrivalInOrder(env, s, es, i))
    decreases n
  {
    hide InOrderAfter, ArrivalInOrder, Run, Line, OfKey, Valid, Alternates;
    if n == 0 {
      StartsInOrder(env, s, es);
    } else {
      KeysKeepTheirOrder(env, s, es, n - 1);
      if InOrderAfter(env, s, es, n - 1) { OneMoreInOrder(env, s, es, n - 1); }
    }
  }

  lemma StartsInOrder(env: Env, s: State, es: seq<Event>)
    ensures InOrderAfter(env, s, es, 0)
  {
    hide Line;
    assert es[..0] == [];
  }

  /** Then what has been passed on of a key is at all times the beginning of what was typed on it. */
  lemma PassedOnInOrder(env: Env, es: seq<Event>, k: KeyPos)
    requires Run(env, INITIAL, es).dropped == [] && forall k :: Alternates(OfKey(es, k))
    requires forall i: nat :: i < |es| ==> ArrivalInOrder(env, INITIAL, es, i)
    ensures Passed(Run(env, INITIAL, es).world.emitted, k) <= OfKey(es, k)
  {
    hide Run, Alternates, OfKey, ArrivalInOrder, Passed;
    forall j ensures Line(INITIAL, j) + OfKey(es, j) == OfKey(es, j) { NothingAtFirst(j); }
    KeysKeepTheirOrder(env, INITIAL, es, |es|);
    assert es[..|es|] == es && InOrderAfter(env, INITIAL, es, |es|);
  }

  lemma NothingAtFirst(k: KeyPos)
    ensures Line(INITIAL, k) == []
  {
    assert EventsOf([]) == [];
  }

  // ---------------------------------------------------------------- order is not kept

  function KeyAt(col: Byte, time: Word16, pressed: bool): Event {
    Event(KeyPos(col, 0), time, KeyEvent, pressed)
  }

  /** Columns 0 and 1 hold layer-tap keys, all others a plain key; every term is 200 ms. */
  function TwoTapHoldKeys(): Env {
    Env((w: World, k: KeyPos) => if k.col < 2 then 0xA104 else 0x0006,
        (w: World, r: Record) => 200, (w: World, r: Record) => 200,
        (w: World, r: Record) => false, (w: World, r: Record) => false)
  }

  const A_DOWN := KeyAt(0, 0, true)
  const B_DOWN := KeyAt(1, 10, true)
  const C_DOWN := KeyAt(2, 250, true)
  const C_UP := KeyAt(2, 260, false)
  const A_HELD := Record(A_DOWN, Tap(true, 0))

  lemma TwoPressesPending()
    ensures var s := Process(TwoTapHoldKeys(), Process(TwoTapHoldKeys(), INITIAL, A_DOWN), B_DOWN);
      s.tk == A_HELD && s.buffer == [Fresh(B_DOWN)] && s.world.emitted == []
  {
    var s := Process(TwoTapHoldKeys(), INITIAL, A_DOWN);
    assert s.tk == Fresh(A_DOWN) && s.buffer == [] && s.world.emitted == [];
  }

  lemma BothTimeOut(s: State)
    requires s.tk == A_HELD && s.buffer == [Fresh(B_DOWN)] && s.world.emitted == []
    ensures var t := Process(TwoTapHoldKeys(), s, C_DOWN);
      t.tk == EMPTY_RECORD && t.buffer == [Fresh(C_DOWN)] && t.world.emitted == [Real(A_HELD), Real(Fresh(B_DOWN))]
  {
    var env := TwoTapHoldKeys();
    var t := Accept(env, s, C_DOWN);
    assert t.tk == EMPTY_RECORD && t.buffer == [Fresh(B_DOWN), Fresh(C_DOWN)] && t.world.emitted == [Real(A_HELD)];
    var o := Step(env, t, t.buffer[0]);
    assert o.consumed && o.s.tk == Fresh(B_DOWN) && o.s.buffer == t.buffer;
    var u := o.s.(buffer := o.s.buffer[1..]);
    assert u.buffer == [Fresh(C_DOWN)];
    var o' := Step(env, u, u.buffer[0]);
    assert !o'.consumed && o'.s.tk == EMPTY_RECORD;
    assert Drain(env, t) == Drain(env, u) == o'.s.(buffer := o'.s.buffer[0 := o'.rec]);
  }

  lemma ReleaseGoesThrough(s: State)
    requires s.tk == EMPTY_RECORD && s.buffer == [Fresh(C_DOWN)]
    ensures Process(TwoTapHoldKeys(), s, C_UP).world.emitted
         == s.world.emitted + [Real(Fresh(C_UP)), Real(Fresh(C_DOWN))]
  {
    var env := TwoTapHoldKeys();
    var t := Accept(env, s, C_UP);
    assert t.buffer == s.buffer && t.world.emitted == s.world.emitted + [Real(Fresh(C_UP))];
    var u := Step(env, t, t.buffer[0]).s;
    assert u.buffer[1..] == [];
    assert Drain(env, t) == Drain(env, u.(buffer := [])) == u.(buffer := []);
    assert u.world.emitted == s.world.emitted + [Real(Fresh(C_UP)), Real(Fresh(C_DOWN))];
  }

  /** Even one key's press and release can come out the wrong way round, when two pending tap-hold keys
      time out with no tick in between: the drain loop stops with the plain press still waiting and no
      tapping key, and its release goes straight through. */
  lemma ReleaseCanOvertakeItsPress()
    ensures Run(TwoTapHoldKeys(), INITIAL, [A_DOWN, B_DOWN, C_DOWN, C_UP]).world.emitted
         == [Real(A_HELD), Real(Fresh(B_DOWN)), Real(Fresh(C_UP)), Real(Fresh(C_DOWN))]
  {
    hide Process;
    var env := TwoTapHoldKeys();
    var es := [A_DOWN, B_DOWN, C_DOWN, C_UP];
    var s1 := Process(env, INITIAL, A_DOWN);
    var s2 := Process(env, s1, B_DOWN);
    var s3 := Process(env, s2, C_DOWN);
    var s4 := Process(env, s3, C_UP);
    TwoPressesPending();
    BothTimeOut(s2);
    ReleaseGoesThrough(s3);
    assert es[1..] == [B_DOWN, C_DOWN, C_UP] && es[1..][1..] == [C_DOWN, C_UP] && es[1..][1..][1..] == [C_UP];
    assert Run(env, s3, [C_UP]) == Run(env, s4, [C_UP][1..]) == s4;
    assert Run(env, INITIAL, es) == Run(env, s1, es[1..]) == Run(env, s2, es[1..][1..]) == Run(env, s3, [C_UP]);
  }

  // ---------------------------------------------------------------- what can wait behind a released tap

  /** The state after at most `n` turns of the drain loop. */
  function Turns(env: Env, s: State, n: nat): State
    decreases n
  {
    if n == 0 || s.buffer == [] then s
    else
      var o := Step(env, s, s.buffer[0]);
      StepKeepsEvents(env, s, s.buffer[0]);
      if o.consumed then Turns(env, o.s.(buffer := o.s.buffer[1..]), n - 1) else s
  }

  lemma {:induction false} DrainGoesThrough(env: Env, s: State, n: nat)
    ensures Drain(env, s) == Drain(env, Turns(env, s, n))
    decreases n
  {
    hide Step;
    if n > 0 && s.buffer != [] {
      var o := Step(env, s, s.buffer[0]);
      StepKeepsEvents(env, s, s.buffer[0]);
      if o.consumed { DrainGoesThrough(env, o.s.(buffer := o.s.buffer[1..]), n - 1); }
    }
  }

  const B_UP := KeyAt(1, 20, false)
  const C_SOON := KeyAt(2, 30, true)
  const A_UP := KeyAt(0, 40, false)
  const TAPPED := Tap(false, 1)
  const A_TAPPED := Record(A_DOWN, Tap(true, 1))
  const A_RELEASE := Record(A_UP, Tap(true, 1))

  lemma OneMoreWaits(s: State, e: Event)
    requires s.tk == A_HELD && 0 < |s.buffer| < 7 && s.buffer[0] == Fresh(B_DOWN)
    requires !e.IsTick() && e.key != A_DOWN.key && e.time < 200 && (e.pressed || Typed(s.buffer, e))
    ensures var t := Process(TwoTapHoldKeys(), s, e);
      t.tk == A_HELD && t.buffer == s.buffer + [Fresh(e)] && t.world.emitted == s.world.emitted
  {
    hide Typed;
    var env := TwoTapHoldKeys();
    var t := Accept(env, s, e);
    assert t.tk == A_HELD && t.buffer == s.buffer + [Fresh(e)];
    var o := Step(env, t, t.buffer[0]);
    assert !o.consumed && o.s.tk == A_HELD && o.s.buffer[0 := o.rec] == t.buffer;
  }

  /** While A is held back, B is tapped, C goes down, and A comes up: A settles as a tap, and the drain
      loop comes to C with B as the released tapping key and A's release still waiting. */
  lemma BTapIsFound(s: State)
    requires s.tk == A_HELD && s.world.emitted == [] && s.buffer == [Fresh(B_DOWN), Fresh(B_UP), Fresh(C_SOON)]
    ensures var t := Turns(TwoTapHoldKeys(), Accept(TwoTapHoldKeys(), s, A_UP), 2);
      && t.tk == Record(B_UP, TAPPED) && t.buffer == [Fresh(C_SOON), A_RELEASE]
      && t.world.emitted == [Real(A_TAPPED), Real(Record(B_DOWN, TAPPED)), Real(Record(B_UP, TAPPED))]
  {
    var env := TwoTapHoldKeys();
    var t := Accept(env, s, A_UP);
    assert t.tk == A_TAPPED && t.world.emitted == [Real(A_TAPPED)];
    assert t.buffer == [Fresh(B_DOWN), Fresh(B_UP), Fresh(C_SOON), A_RELEASE];
    BStarts(t);
    var o := Step(env, t, t.buffer[0]);
    var u := o.s.(buffer := o.s.buffer[1..]);
    assert u.buffer == [Record(B_UP, TAPPED), Fresh(C_SOON), A_RELEASE];
    var o' := Step(env, u, u.buffer[0]);
    assert o'.consumed && o'.s.tk == Record(B_UP, TAPPED);
    var v := o'.s.(buffer := o'.s.buffer[1..]);
    assert v.buffer == [Fresh(C_SOON), A_RELEASE];
    assert Turns(env, v, 0) == v;
    assert Turns(env, u, 1) == v;
  }

  lemma BStarts(t: State)
    requires t.tk == A_TAPPED && t.buffer == [Fresh(B_DOWN), Fresh(B_UP), Fresh(C_SOON), A_RELEASE]
    ensures var o := Step(TwoTapHoldKeys(), t, t.buffer[0]); var tk := Record(B_DOWN, TAPPED);
      && o.consumed && o.s.tk == tk && o.s.world.emitted == t.world.emitted + [Real(tk)]
      && o.s.buffer == t.buffer[1 := Record(B_UP, TAPPED)]
  {
    var env := TwoTapHoldKeys();
    var s := t.(tk := Fresh(B_DOWN));
    assert FindRelease(env, s.world, s.tk, s.buffer, 0) == 1 by {
      assert !Completes(env, s.world, s.tk, s.buffer[0]) && Completes(env, s.world, s.tk, s.buffer[1]);
    }
  }

  /** So an event can wait where the source's comment expects an empty buffer: five events after which
      the plain press of C marks B's tap as interrupted while A's release is still behind it. */
  lemma EventsCanWaitBehindATap()
    ensures var env := TwoTapHoldKeys();
      var t := Turns(env, Accept(env, Run(env, INITIAL, [A_DOWN, B_DOWN, B_UP, C_SOON]), A_UP), 2);
      var o := Step(env, t, Fresh(C_SOON));
      && !t.tk.event.IsTick() && !t.tk.event.pressed && t.buffer == [Fresh(C_SOON), A_RELEASE]
      && o == StepReleased(env, t, Fresh(C_SOON))
      && o.consumed && o.s.tk == Record(B_UP, Tap(true, 1)) && o.s.buffer[1..] == [A_RELEASE]
  {
    hide Process, Accept, Turns;
    var env := TwoTapHoldKeys();
    var es := [A_DOWN, B_DOWN, B_UP, C_SOON];
    var s1 := Process(env, INITIAL, A_DOWN);
    var s2 := Process(env, s1, B_DOWN);
    var s3 := Process(env, s2, B_UP);
    var s4 := Process(env, s3, C_SOON);
    TwoPressesPending();
    assert s2.buffer[0].IsFor(B_UP.key);
    OneMoreWaits(s2, B_UP);
    OneMoreWaits(s3, C_SOON);
    assert s4.buffer == [Fresh(B_DOWN), Fresh(B_UP), Fresh(C_SOON)];
    assert es[1..] == [B_DOWN, B_UP, C_SOON] && es[1..][1..] == [B_UP, C_SOON];
    assert es[1..][1..][1..] == [C_SOON] && es[1..][1..][1..][1..] == [];
    assert Run(env, INITIAL, es) == Run(env, s1, es[1..]) == Run(env, s2, es[1..][1..])
        == Run(env, s3, [C_SOON]) == Run(env, s4, []);
    BTapIsFound(s4);
  }
}
