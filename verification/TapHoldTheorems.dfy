/** What the tap-hold machine keeps over every run, for every keymap and every callback. */
module TapHoldTheorems {
  import opened TapHold

  // ---------------------------------------------------------------- reachable states

  /** The tapping key is empty, down with 0 to 15 taps, or up with at least one. */
  ghost predicate ValidTappingKey(tk: Record) {
    tk == EMPTY_RECORD || (!tk.event.IsTick() && (!tk.event.pressed ==> tk.tap.count > 0))
  }

  /** A record as action_exec makes it or as the engine may alter it before it is passed on. */
  ghost predicate ValidRecord(r: Record) {
    (r.event.pressed ==> r.tap == NO_TAP)
  }

  ghost predicate Valid(s: State) {
    && ValidTappingKey(s.tk)
    && |s.buffer| < WAITING_BUFFER_SIZE
    && forall i :: 0 <= i < |s.buffer| ==> ValidRecord(s.buffer[i]) && !s.buffer[i].event.IsTick()
  }

  lemma StepKeepsValid(env: Env, s: State, r: Record)
    requires Valid(s) && ValidRecord(r)
    ensures var o := Step(env, s, r); Valid(o.s) && (!o.consumed ==> ValidRecord(o.rec))
  {
    hide StepUnsettled, StepSettled, StepReleased, ScanTap;
    if s.tk.event.IsTick() {
      if !r.event.IsTick() && r.event.pressed { ScanKeepsValid(env, s.(tk := r)); }
    } else if !r.event.IsTick() && s.tk.event.pressed && s.tk.tap.count == 0 {
      UnsettledKeepsValid(env, s, r);
    } else if !r.event.IsTick() && s.tk.event.pressed {
      SettledKeepsValid(env, s, r, true);
      SettledKeepsValid(env, s, r, false);
    } else if !r.event.IsTick() {
      ReleasedKeepsValid(env, s, r);
    }
  }

  lemma ScanKeepsValid(env: Env, s: State)
    requires Valid(s)
    ensures Valid(ScanTap(env, s))
  {
  }

  lemma UnsettledKeepsValid(env: Env, s: State, r: Record)
    requires Valid(s) && ValidRecord(r) && !r.event.IsTick() && s.tk.event.pressed && !s.tk.event.IsTick()
    ensures var o := StepUnsettled(env, s, r); Valid(o.s) && (!o.consumed ==> ValidRecord(o.rec))
  {
  }

  lemma SettledKeepsValid(env: Env, s: State, r: Record, within: bool)
    requires Valid(s) && ValidRecord(r) && !r.event.IsTick() && s.tk.event.pressed && s.tk.tap.count > 0
    ensures var o := StepSettled(env, s, r, within); Valid(o.s) && o.consumed
  {
    hide ScanTap;
    if r.event.pressed {
      ScanKeepsValid(env, s.(tk := r));
      ScanKeepsValid(env, Emit(s, Synthetic(MadeUpRelease(s.tk, r.event.time))).(tk := r));
    }
  }

  lemma ReleasedKeepsValid(env: Env, s: State, r: Record)
    requires Valid(s) && ValidRecord(r) && !r.event.IsTick() && !s.tk.event.pressed && !s.tk.event.IsTick()
    ensures var o := StepReleased(env, s, r); Valid(o.s) && o.consumed
  {
    hide ScanTap;
    if r.event.pressed { ScanKeepsValid(env, s.(tk := r)); }
  }

  lemma {:induction false} DrainKeepsValid(env: Env, s: State)
    requires Valid(s)
    ensures Valid(Drain(env, s))
    decreases |s.buffer|
  {
    if s.buffer != [] {
      var o := Step(env, s, s.buffer[0]);
      StepKeepsValid(env, s, s.buffer[0]);
      StepKeepsEvents(env, s, s.buffer[0]);
      assert EventsOf(o.s.buffer)[0] == EventsOf(s.buffer)[0];
      if o.consumed {
        DrainKeepsValid(env, o.s.(buffer := o.s.buffer[1..]));
      }
    }
  }

  lemma AcceptKeepsValid(env: Env, s: State, e: Event)
    requires Valid(s)
    ensures Valid(Accept(env, s, e))
  {
    hide Step;
    StepKeepsValid(env, s.(world := s.world.(calls := s.world.calls + 1)), Fresh(e));
  }

  /** Every reachable state is valid: at most seven events wait, every waiting press is untouched, and
      the tapping key is never a release without a tap. */
  lemma {:induction false} RunKeepsValid(env: Env, s: State, es: seq<Event>)
    requires Valid(s)
    ensures Valid(Run(env, s, es))
    decreases |es|
  {
    if es != [] {
      AcceptKeepsValid(env, s, es[0]);
      DrainKeepsValid(env, Accept(env, s, es[0]));
      RunKeepsValid(env, Process(env, s, es[0]), es[1..]);
    }
  }

  // ---------------------------------------------------------------- conservation

  /** The fed-in event that an emission passes on, if it is one. */
  function DeliveredBy(e: Emission): multiset<Event> {
    match e
    case Real(r) => multiset{r.event}
    case Synthetic(_) => multiset{}
  }

  /** The events of the fed-in records that process_record has been given. */
  function Delivered(es: seq<Emission>): multiset<Event> {
    if es == [] then multiset{} else Delivered(es[..|es| - 1]) + DeliveredBy(es[|es| - 1])
  }

  lemma DeliveredSnoc(es: seq<Emission>, e: Emission)
    ensures Delivered(es + [e]) == Delivered(es) + DeliveredBy(e)
  {
    assert (es + [e])[..|es|] == es;
  }

  /** Delivered, or held as the tapping key. */
  function Account(s: State): multiset<Event> {
    Delivered(s.world.emitted) + multiset(Pending(s.tk))
  }

  /** Everything the engine has ever taken in. */
  function Total(s: State): multiset<Event> {
    Account(s) + multiset(EventsOf(s.buffer)) + multiset(s.dropped)
  }

  /** The events of a run that are not ticks. */
  function RealInputs(es: seq<Event>): multiset<Event> {
    if es == [] then multiset{} else (if es[0].IsTick() then multiset{} else multiset{es[0]}) + RealInputs(es[1..])
  }

  lemma ScanAccount(env: Env, s: State)
    ensures Account(ScanTap(env, s)) == Account(s)
  {
    if s.tk.tap.count == 0 && s.tk.event.pressed {
      DeliveredSnoc(s.world.emitted, Real(s.tk.(tap := s.tk.tap.(count := 1))));
    }
  }

  lemma EmitAccount(s: State, r: Record, tk: Record)
    requires Pending(s.tk) == [] && Pending(tk) == []
    ensures Account(Emit(s, Real(r)).(tk := tk)) == Account(s) + multiset{r.event}
  {
    hide Delivered, Pending;
    DeliveredSnoc(s.world.emitted, Real(r));
  }

  lemma HoldAccount(s: State, tk: Record)
    requires Pending(s.tk) == [] && Pending(tk) == [tk.event]
    ensures Account(s.(tk := tk)) == Account(s) + multiset{tk.event}
  {
    hide Delivered, Pending;
  }

  lemma SettleAccount(s: State, q: Record, tk: Record)
    requires Pending(s.tk) == [q.event] && Pending(tk) == []
    ensures Account(Emit(s, Real(q)).(tk := tk)) == Account(s)
  {
    hide Delivered, Pending;
    DeliveredSnoc(s.world.emitted, Real(q));
  }

  lemma PassAccount(s: State, r: Record)
    ensures Account(Emit(s, Real(r))) == Account(s) + multiset{r.event}
  {
    hide Delivered, Pending;
    DeliveredSnoc(s.world.emitted, Real(r));
  }

  lemma UnsettledAccount(env: Env, s: State, r: Record)
    requires s.tk.event.pressed && s.tk.tap.count == 0
    ensures var o := StepUnsettled(env, s, r);
      Account(o.s) == Account(s) + (if o.consumed then multiset{r.event} else multiset{})
  {
    hide Account, Typed, MustRetain;
    var tap, touched := s.tk.(tap := s.tk.tap.(count := 1)), s.tk.(tap := s.tk.tap.(interrupted := true));
    SettleAccount(s, tap, tap);
    SettleAccount(s, s.tk, EMPTY_RECORD);
    SettleAccount(s, touched, EMPTY_RECORD);
    PassAccount(s, r);
    SamePending(s, touched);
  }

  lemma SamePending(s: State, tk: Record)
    requires Pending(s.tk) == Pending(tk)
    ensures Account(s.(tk := tk)) == Account(s)
  {
  }

  lemma SettledAccount(env: Env, s: State, r: Record, within: bool)
    requires s.tk.event.pressed && s.tk.tap.count > 0 && ValidRecord(r)
    ensures var o := StepSettled(env, s, r, within);
      o.consumed && Account(o.s) == Account(s) + multiset{r.event}
  {
    hide Delivered, ScanTap, IsTapRecord;
    DeliveredSnoc(s.world.emitted, Real(r.(tap := s.tk.tap)));
    DeliveredSnoc(s.world.emitted, Real(r));
    var made := Emit(s, Synthetic(MadeUpRelease(s.tk, r.event.time)));
    DeliveredSnoc(s.world.emitted, Synthetic(MadeUpRelease(s.tk, r.event.time)));
    ScanAccount(env, made.(tk := r));
    ScanAccount(env, s.(tk := r));
  }

  lemma ReleasedAccount(env: Env, s: State, r: Record)
    requires !s.tk.event.pressed && s.tk.tap.count > 0 && ValidRecord(r)
    ensures var o := StepReleased(env, s, r);
      o.consumed && Account(o.s) == Account(s) + multiset{r.event}
  {
    hide Account, ScanTap, IsTapRecord, WithinQuickTapTerm;
    EmitAccount(s, r, s.tk);
    EmitAccount(s, r, s.tk.(tap := s.tk.tap.(interrupted := true)));
    if r.event.pressed {
      HoldAccount(s, r);
      ScanAccount(env, s.(tk := r));
      var count: Nibble := if s.tk.tap.count < 15 then s.tk.tap.count + 1 else s.tk.tap.count;
      var again := r.(tap := s.tk.tap.(count := count));
      EmitAccount(s, again, again);
    }
  }

  /** One step delivers its record exactly when it consumes it, and otherwise only settles the
      tapping key. */
  lemma StepAccount(env: Env, s: State, r: Record)
    requires ValidTappingKey(s.tk) && ValidRecord(r)
    ensures var o := Step(env, s, r);
      Account(o.s) == Account(s) + (if o.consumed && !r.event.IsTick() then multiset{r.event} else multiset{})
  {
    hide Delivered, StepUnsettled, StepSettled, StepReleased, ScanTap, IsTapRecord, WithinTappingTerm;
    if s.tk.event.IsTick() {
      DeliveredSnoc(s.world.emitted, Real(r));
      ScanAccount(env, s.(tk := r));
    } else if s.tk.event.pressed && s.tk.tap.count == 0 {
      UnsettledAccount(env, s, r);
      DeliveredSnoc(s.world.emitted, Real(s.tk));
    } else if s.tk.event.pressed {
      SettledAccount(env, s, r, true);
      SettledAccount(env, s, r, false);
    } else {
      ReleasedAccount(env, s, r);
    }
  }

  lemma PopEvents(rs: seq<Record>, rs': seq<Record>)
    requires rs != [] && EventsOf(rs') == EventsOf(rs)
    ensures |rs'| == |rs|
    ensures multiset(EventsOf(rs)) == multiset{rs[0].event} + multiset(EventsOf(rs'[1..]))
  {
    assert EventsOf(rs) == [rs[0].event] + EventsOf(rs'[1..]);
  }

  lemma PushEvents(rs: seq<Record>, r: Record)
    ensures multiset(EventsOf(rs + [r])) == multiset(EventsOf(rs)) + multiset{r.event}
  {
    assert EventsOf(rs + [r]) == EventsOf(rs) + [r.event];
  }

  lemma {:induction false} DrainConserves(env: Env, s: State)
    requires Valid(s)
    ensures Total(Drain(env, s)) == Total(s)
    decreases |s.buffer|
  {
    hide Step, Delivered, EventsOf, Pending;
    if s.buffer != [] {
      var r := s.buffer[0];
      var o := Step(env, s, r);
      StepKeepsValid(env, s, r);
      StepKeepsEvents(env, s, r);
      StepAccount(env, s, r);
      PopEvents(s.buffer, o.s.buffer);
      if o.consumed {
        DrainConserves(env, o.s.(buffer := o.s.buffer[1..]));
      } else {
        assert EventsOf(o.s.buffer[0 := o.rec]) == EventsOf(s.buffer);
      }
    }
  }

  lemma EnqueueConserves(s: State, r: Record)
    ensures Total(Enqueue(s, r)) == Total(s) + (if r.event.IsTick() then multiset{} else multiset{r.event})
  {
    hide Delivered, EventsOf;
    PushEvents(s.buffer, r);
    if |s.buffer| + 1 >= WAITING_BUFFER_SIZE {
      assert EventsOf([]) == [];
    }
  }

  lemma AcceptConserves(env: Env, s: State, e: Event)
    requires Valid(s)
    ensures Total(Accept(env, s, e)) == Total(s) + (if e.IsTick() then multiset{} else multiset{e})
  {
    hide Step, Delivered, EventsOf, Enqueue, Pending;
    var s0 := s.(world := s.world.(calls := s.world.calls + 1));
    var o := Step(env, s0, Fresh(e));
    StepKeepsEvents(env, s0, Fresh(e));
    StepAccount(env, s0, Fresh(e));
    EnqueueConserves(o.s, o.rec);
  }

  /** Nothing is lost and nothing is invented: over any run the real events fed in are exactly those
      delivered to process_record, held as the tapping key, waiting, or thrown away on overflow. */
  lemma {:induction false} Conservation(env: Env, s: State, es: seq<Event>)
    requires Valid(s)
    ensures Total(Run(env, s, es)) == Total(s) + RealInputs(es)
    decreases |es|
  {
    hide Step, Delivered, Total, Accept, Drain;
    if es != [] {
      AcceptKeepsValid(env, s, es[0]);
      AcceptConserves(env, s, es[0]);
      DrainKeepsValid(env, Accept(env, s, es[0]));
      DrainConserves(env, Accept(env, s, es[0]));
      Conservation(env, Process(env, s, es[0]), es[1..]);
    }
  }

  // ---------------------------------------------------------------- properties of the trace

  /** A property of the tapping key, the trace and the losses that every step and every overflow keeps. */
  ghost predicate Inductive(env: Env, P: (Record, seq<Emission>, seq<Event>) -> bool) {
    && (forall s: State, r: Record {:trigger Step(env, s, r)} ::
          Valid(s) && ValidRecord(r) && P(s.tk, s.world.emitted, s.dropped)
          ==> var t := Step(env, s, r).s; P(t.tk, t.world.emitted, t.dropped))
    && (forall s: State, r: Record {:trigger Enqueue(s, r)} ::
          Valid(s) && P(s.tk, s.world.emitted, s.dropped)
          ==> var t := Enqueue(s, r); P(t.tk, t.world.emitted, t.dropped))
  }

  ghost predicate Holds(P: (Record, seq<Emission>, seq<Event>) -> bool, s: State) {
    P(s.tk, s.world.emitted, s.dropped)
  }

  lemma {:induction false} DrainKeeps(env: Env, P: (Record, seq<Emission>, seq<Event>) -> bool, s: State)
    requires Valid(s) && Inductive(env, P) && Holds(P, s)
    ensures Holds(P, Drain(env, s))
    decreases |s.buffer|
  {
    hide Step;
    if s.buffer != [] {
      var o := Step(env, s, s.buffer[0]);
      StepKeepsValid(env, s, s.buffer[0]);
      StepKeepsEvents(env, s, s.buffer[0]);
      if o.consumed {
        DrainKeeps(env, P, o.s.(buffer := o.s.buffer[1..]));
      }
    }
  }

  lemma AcceptKeeps(env: Env, P: (Record, seq<Emission>, seq<Event>) -> bool, s: State, e: Event)
    requires Valid(s) && Inductive(env, P) && Holds(P, s)
    ensures Holds(P, Accept(env, s, e))
  {
    hide Step, Enqueue;
    var s0 := s.(world := s.world.(calls := s.world.calls + 1));
    var o := Step(env, s0, Fresh(e));
    StepKeepsValid(env, s0, Fresh(e));
    assert Holds(P, s0) && Holds(P, o.s);
    assert Holds(P, Enqueue(o.s, o.rec));
  }

  lemma {:induction false} RunKeeps(env: Env, P: (Record, seq<Emission>, seq<Event>) -> bool, s: State, es: seq<Event>)
    requires Valid(s) && Inductive(env, P) && Holds(P, s)
    ensures Holds(P, Run(env, s, es))
    decreases |es|
  {
    hide Accept, Drain, Inductive, Holds;
    if es != [] {
      AcceptKeepsValid(env, s, es[0]);
      AcceptKeeps(env, P, s, es[0]);
      DrainKeepsValid(env, Accept(env, s, es[0]));
      DrainKeeps(env, P, Accept(env, s, es[0]));
      RunKeeps(env, P, Process(env, s, es[0]), es[1..]);
    }
  }
}
