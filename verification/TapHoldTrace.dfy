/** What the tap-hold machine promises about the order and the origin of what it emits, and that it
    never holds an event back for good. */
module TapHoldTrace {
  import opened Words
  import opened TapHold
  import opened TapHoldTheorems

  // ---------------------------------------------------------------- made-up releases

  predicate ReleaseOf(e: Emission, k: KeyPos) {
    !e.record.event.pressed && e.record.event.key == k
  }

  /** The press `p` was emitted at `i` and its key has not been released since. */
  ghost predicate HeldSince(em: seq<Emission>, i: nat, p: Record) {
    && i < |em| && em[i] == Real(p) && p.event.pressed
    && forall k :: i < k < |em| ==> !ReleaseOf(em[k], p.event.key)
  }

  ghost predicate Held(em: seq<Emission>, p: Record) {
    exists i :: HeldSince(em, i, p)
  }

  /** The release `m` belongs to a press that is still down at the end of `em` and that was emitted as
      a tap of the same count, greater than one. */
  ghost predicate Answers(em: seq<Emission>, m: Record) {
    && !m.event.pressed && m.tap.count > 1
    && exists p :: Held(em, p) && p.event.key == m.event.key && p.event.kind == m.event.kind && p.tap == m.tap
  }

  ghost predicate SyntheticsAnswer(em: seq<Emission>) {
    forall j :: 0 <= j < |em| && em[j].Synthetic? ==> Answers(em[..j], em[j].record)
  }

  ghost predicate TraceInv(tk: Record, em: seq<Emission>) {
    && SyntheticsAnswer(em)
    && (tk.event.pressed && tk.tap.count > 0 ==> Held(em, tk))
  }

  lemma HeldSnoc(em: seq<Emission>, e: Emission, p: Record)
    requires Held(em, p) && !ReleaseOf(e, p.event.key)
    ensures Held(em + [e], p)
  {
    var i :| HeldSince(em, i, p);
    assert HeldSince(em + [e], i, p);
  }

  lemma HeldNew(em: seq<Emission>, p: Record)
    requires p.event.pressed
    ensures Held(em + [Real(p)], p)
  {
    assert HeldSince(em + [Real(p)], |em|, p);
  }

  lemma AnswerSnoc(em: seq<Emission>, e: Emission)
    requires SyntheticsAnswer(em) && (e.Synthetic? ==> Answers(em, e.record))
    ensures SyntheticsAnswer(em + [e])
  {
    forall j | 0 <= j < |em| + 1 && (em + [e])[j].Synthetic? ensures Answers((em + [e])[..j], (em + [e])[j].record) {
      assert (em + [e])[..j] == if j < |em| then em[..j] else em;
    }
  }

  lemma EmitRealAnswers(s: State, r: Record)
    requires SyntheticsAnswer(s.world.emitted)
    ensures SyntheticsAnswer(Emit(s, Real(r)).world.emitted)
    ensures r.event.pressed ==> Held(Emit(s, Real(r)).world.emitted, r)
  {
    AnswerSnoc(s.world.emitted, Real(r));
    if r.event.pressed { HeldNew(s.world.emitted, r); }
  }

  lemma ScanKeepsTrace(env: Env, s: State)
    requires SyntheticsAnswer(s.world.emitted) && (s.tk.event.pressed ==> s.tk.tap.count == 0)
    ensures var t := ScanTap(env, s); TraceInv(t.tk, t.world.emitted)
  {
    hide SyntheticsAnswer, Held;
    EmitRealAnswers(s, s.tk.(tap := s.tk.tap.(count := 1)));
  }

  lemma SettledKeepsTrace(env: Env, s: State, r: Record, within: bool)
    requires s.tk.event.pressed && s.tk.tap.count > 0 && ValidRecord(r) && TraceInv(s.tk, s.world.emitted)
    ensures var t := StepSettled(env, s, r, within).s; TraceInv(t.tk, t.world.emitted)
  {
    hide SyntheticsAnswer, Held;
    EmitRealAnswers(s, r.(tap := s.tk.tap));
    EmitRealAnswers(s, r);
    if !ReleaseOf(Real(r), s.tk.event.key) { HeldSnoc(s.world.emitted, Real(r), s.tk); }
    var made := MadeUpRelease(s.tk, r.event.time);
    if s.tk.tap.count > 1 { AnswerSnoc(s.world.emitted, Synthetic(made)); }
    ScanKeepsTrace(env, s.(tk := EMPTY_RECORD));
    if r.event.pressed {
      ScanKeepsTrace(env, s.(tk := r));
      if s.tk.tap.count > 1 { ScanKeepsTrace(env, Emit(s, Synthetic(made)).(tk := r)); }
    }
  }

  lemma UnsettledKeepsTrace(env: Env, s: State, r: Record)
    requires s.tk.event.pressed && s.tk.tap.count == 0 && TraceInv(s.tk, s.world.emitted)
    ensures var t := StepUnsettled(env, s, r).s; TraceInv(t.tk, t.world.emitted)
  {
    hide SyntheticsAnswer, Held;
    EmitRealAnswers(s, s.tk.(tap := s.tk.tap.(count := 1)));
    EmitRealAnswers(s, s.tk);
    EmitRealAnswers(s, s.tk.(tap := s.tk.tap.(interrupted := true)));
    EmitRealAnswers(s, r);
  }

  lemma ReleasedKeepsTrace(env: Env, s: State, r: Record)
    requires !s.tk.event.pressed && s.tk.tap.count > 0 && ValidRecord(r) && TraceInv(s.tk, s.world.emitted)
    ensures var t := StepReleased(env, s, r).s; TraceInv(t.tk, t.world.emitted)
  {
    hide SyntheticsAnswer, Held;
    EmitRealAnswers(s, r);
    if r.event.pressed { ScanKeepsTrace(env, s.(tk := r)); }
    var count: Nibble := if s.tk.tap.count < 15 then s.tk.tap.count + 1 else s.tk.tap.count;
    EmitRealAnswers(s, r.(tap := s.tk.tap.(count := count)));
  }

  lemma StepKeepsTrace(env: Env, s: State, r: Record)
    requires Valid(s) && ValidRecord(r) && TraceInv(s.tk, s.world.emitted)
    ensures var t := Step(env, s, r).s; TraceInv(t.tk, t.world.emitted)
  {
    hide SyntheticsAnswer, Held, ScanTap, StepUnsettled, StepSettled, StepReleased;
    if s.tk.event.IsTick() {
      EmitRealAnswers(s, r);
      if r.event.pressed { ScanKeepsTrace(env, s.(tk := r)); }
    } else if s.tk.event.pressed && s.tk.tap.count == 0 {
      UnsettledKeepsTrace(env, s, r);
      EmitRealAnswers(s, s.tk);
    } else if s.tk.event.pressed {
      SettledKeepsTrace(env, s, r, true);
      SettledKeepsTrace(env, s, r, false);
    } else {
      ReleasedKeepsTrace(env, s, r);
    }
  }

  /** Over any run, the only releases the engine makes up are for a key that it has emitted as a tap
      of count two or more and that it has not released since. */
  lemma SyntheticReleasesAnswer(env: Env, es: seq<Event>)
    ensures SyntheticsAnswer(Run(env, INITIAL, es).world.emitted)
  {
    hide Step, Run;
    var P := (tk: Record, em: seq<Emission>, dr: seq<Event>) => TraceInv(tk, em);
    forall s: State, r: Record {:trigger Step(env, s, r)}
      | Valid(s) && ValidRecord(r) && P(s.tk, s.world.emitted, s.dropped)
      ensures var t := Step(env, s, r).s; P(t.tk, t.world.emitted, t.dropped)
    {
      StepKeepsTrace(env, s, r);
    }
    RunKeeps(env, P, INITIAL, es);
    assert Holds(P, Run(env, INITIAL, es));
  }

  // ---------------------------------------------------------------- a pending tap-hold key settles first

  /** Every emission from index `n` up to `m` is a release. */
  ghost predicate OnlyReleases(em: seq<Emission>, n: nat, m: nat) {
    forall k :: n <= k < m && k < |em| ==> !em[k].record.event.pressed
  }

  /** The press `p` is emitted at `i`, with only releases between `n` and `i`. */
  ghost predicate SettledAt(em: seq<Emission>, n: nat, p: Event, i: nat) {
    n <= i < |em| && em[i].Real? && em[i].record.event == p && OnlyReleases(em, n, i)
  }

  /** `p` is still the pending tapping key, or it has been settled with only releases before it, or it
      was among the events lost since there were `d` of them. */
  ghost predicate SettlesFirst(tk: Record, em: seq<Emission>, dr: seq<Event>, n: nat, d: nat, p: Event) {
    && d <= |dr|
    && n <= |em|
    && ((tk.event == p && Pending(tk) != [] && OnlyReleases(em, n, |em|))
        || (exists i :: SettledAt(em, n, p, i))
        || p in dr[d..])
  }

  lemma SettledStays(em: seq<Emission>, em': seq<Emission>, n: nat, p: Event, i: nat)
    requires em <= em' && SettledAt(em, n, p, i)
    ensures SettledAt(em', n, p, i)
  {
  }

  lemma StepExtends(env: Env, s: State, r: Record)
    ensures s.world.emitted <= Step(env, s, r).s.world.emitted
  {
  }

  lemma {:induction false} DrainExtends(env: Env, s: State)
    ensures s.world.emitted <= Drain(env, s).world.emitted
    decreases |s.buffer|
  {
    hide Step;
    if s.buffer != [] {
      var o := Step(env, s, s.buffer[0]);
      StepExtends(env, s, s.buffer[0]);
      StepKeepsEvents(env, s, s.buffer[0]);
      if o.consumed { DrainExtends(env, o.s.(buffer := o.s.buffer[1..])); }
    }
  }

  /** While a tap-hold key is pending, a step either leaves it pending and emits at most a release, or
      emits its press before anything else. */
  lemma PendingStep(env: Env, s: State, r: Record)
    requires Valid(s) && Pending(s.tk) != []
    ensures var t := Step(env, s, r).s; var em := s.world.emitted;
      || (t.tk.event == s.tk.event && Pending(t.tk) != []
          && (t.world.emitted == em || (t.world.emitted == em + [Real(r)] && !r.event.pressed)))
      || (exists q: Record :: q.event == s.tk.event && t.world.emitted == em + [Real(q)])
  {
    var t := Step(env, s, r).s;
    if t.world.emitted != s.world.emitted {
      var q := t.world.emitted[|s.world.emitted|].record;
      assert t.world.emitted == s.world.emitted + [Real(q)];
    }
  }

  lemma StepSettlesFirst(env: Env, s: State, r: Record, n: nat, d: nat, p: Event)
    requires Valid(s) && p.pressed && SettlesFirst(s.tk, s.world.emitted, s.dropped, n, d, p)
    ensures var t := Step(env, s, r).s; SettlesFirst(t.tk, t.world.emitted, t.dropped, n, d, p)
  {
    hide Step;
    var t := Step(env, s, r).s;
    StepExtends(env, s, r);
    StepKeepsEvents(env, s, r);
    if i :| SettledAt(s.world.emitted, n, p, i) {
      SettledStays(s.world.emitted, t.world.emitted, n, p, i);
    } else if p !in s.dropped[d..] {
      PendingStep(env, s, r);
      if q: Record :| q.event == p && t.world.emitted == s.world.emitted + [Real(q)] {
        assert SettledAt(t.world.emitted, n, p, |s.world.emitted|);
      }
    }
  }

  lemma EnqueueSettlesFirst(s: State, r: Record, n: nat, d: nat, p: Event)
    requires Valid(s) && SettlesFirst(s.tk, s.world.emitted, s.dropped, n, d, p)
    ensures var t := Enqueue(s, r); SettlesFirst(t.tk, t.world.emitted, t.dropped, n, d, p)
  {
    var t := Enqueue(s, r);
    if t.dropped != s.dropped {
      assert t.dropped[d..] == s.dropped[d..] + EventsOf(s.buffer) + Pending(s.tk) + [r.event];
    }
  }

  /** The point of delaying events: from any reachable state with a pending tap-hold key, however the
      run goes on, no press is emitted before the key's own press is, unless the key was lost in an
      overflow. */
  lemma NoPressOvertakesPending(env: Env, s: State, es: seq<Event>, j: nat)
    requires Valid(s) && Pending(s.tk) != []
    requires var em := Run(env, s, es).world.emitted; |s.world.emitted| <= j < |em| && em[j].record.event.pressed
    ensures |s.dropped| <= |Run(env, s, es).dropped|
    ensures var t := Run(env, s, es); var n := |s.world.emitted|;
      || (exists i: nat :: i <= j && SettledAt(t.world.emitted, n, s.tk.event, i))
      || s.tk.event in t.dropped[|s.dropped|..]
  {
    hide Step, Run, Enqueue;
    var n, d, p := |s.world.emitted|, |s.dropped|, s.tk.event;
    var P := (tk: Record, em: seq<Emission>, dr: seq<Event>) => SettlesFirst(tk, em, dr, n, d, p);
    forall s: State, r: Record {:trigger Step(env, s, r)}
      | Valid(s) && ValidRecord(r) && P(s.tk, s.world.emitted, s.dropped)
      ensures var t := Step(env, s, r).s; P(t.tk, t.world.emitted, t.dropped)
    {
      StepSettlesFirst(env, s, r, n, d, p);
    }
    forall s: State, r: Record {:trigger Enqueue(s, r)} | Valid(s) && P(s.tk, s.world.emitted, s.dropped)
      ensures var t := Enqueue(s, r); P(t.tk, t.world.emitted, t.dropped)
    {
      EnqueueSettlesFirst(s, r, n, d, p);
    }
    RunKeeps(env, P, s, es);
    assert Holds(P, Run(env, s, es));
  }

  // ---------------------------------------------------------------- eventual delivery

  /** Nothing is held back: the buffer is empty and the tapping key is not pending. */
  ghost predicate Idle(s: State) {
    s.buffer == [] && Pending(s.tk) == []
  }

  /** At time `t` the tapping term of every held event is over, whatever the callbacks answer. */
  ghost predicate Late(s: State, t: Word16, maxTerm: nat) {
    && (Pending(s.tk) != [] ==> Diff16(t, s.tk.event.time) >= maxTerm)
    && forall i :: 0 <= i < |s.buffer| ==> Diff16(t, s.buffer[i].event.time) >= maxTerm
  }

  ghost predicate TermsBounded(env: Env, maxTerm: nat) {
    forall w, r :: env.tappingTerm(w, r) <= maxTerm
  }

  /** How much is still held back; zero only when idle. */
  function Backlog(s: State): nat {
    2 * |s.buffer| + (if s.tk.event.IsTick() then 0 else 1)
  }

  function Tick(t: Word16): Event {
    Event(KeyPos(0, 0), t, TickEvent, false)
  }

  function Ticks(ts: seq<Word16>): (es: seq<Event>)
    ensures |es| == |ts|
  {
    seq(|ts|, i requires 0 <= i < |ts| => Tick(ts[i]))
  }

  /** A drain step never adds to the backlog, refuses nothing when no key is pending or released, and
      holds nothing that was not held before. */
  lemma DrainStep(env: Env, s: State)
    requires Valid(s) && s.buffer != []
    ensures var o := Step(env, s, s.buffer[0]);
      && (Pending(o.s.tk) != [] ==>
            (Pending(s.tk) != [] && o.s.tk.event == s.tk.event) || (o.consumed && o.s.tk.event == s.buffer[0].event))
      && (!o.consumed ==> !s.tk.event.IsTick())
      && (!o.consumed && Pending(s.tk) == [] ==> !s.tk.event.pressed && o.s.tk == EMPTY_RECORD)
  {
  }

  lemma {:induction false} DrainShrinks(env: Env, s: State, t: Word16, maxTerm: nat)
    requires Valid(s) && Late(s, t, maxTerm)
    ensures var s' := Drain(env, s);
      && Late(s', t, maxTerm) && Backlog(s') <= Backlog(s)
      && (s.buffer != [] && Pending(s.tk) == [] ==> Backlog(s') < Backlog(s))
    decreases |s.buffer|
  {
    hide Step;
    if s.buffer != [] {
      var r := s.buffer[0];
      var o := Step(env, s, r);
      StepKeepsValid(env, s, r);
      StepKeepsEvents(env, s, r);
      DrainStep(env, s);
      assert forall i :: 0 <= i < |s.buffer| ==> o.s.buffer[i].event == EventsOf(s.buffer)[i];
      if o.consumed {
        DrainShrinks(env, o.s.(buffer := o.s.buffer[1..]), t, maxTerm);
      }
    }
  }

  lemma TickAccept(env: Env, s: State, t: Word16, maxTerm: nat)
    requires Valid(s) && TermsBounded(env, maxTerm) && Late(s, t, maxTerm)
    ensures var s' := Accept(env, s, Tick(t));
      && Pending(s'.tk) == [] && s'.buffer == s.buffer && Backlog(s') <= Backlog(s)
      && (Pending(s.tk) != [] ==> Backlog(s') < Backlog(s))
  {
    var w := s.world.(calls := s.world.calls + 1);
    assert env.tappingTerm(w, s.tk) <= maxTerm;
  }

  lemma IdleDrain(env: Env, s: State)
    requires s.buffer == []
    ensures Drain(env, s) == s
  {
  }

  lemma TickShrinks(env: Env, s: State, t: Word16, u: Word16, maxTerm: nat)
    requires Valid(s) && TermsBounded(env, maxTerm) && Late(s, t, maxTerm) && Late(s, u, maxTerm)
    ensures var s' := Process(env, s, Tick(t));
      && Valid(s') && Late(s', u, maxTerm) && Backlog(s') <= Backlog(s)
      && (if Idle(s) then Idle(s') else Backlog(s') < Backlog(s))
  {
    hide Accept, Drain;
    AcceptKeepsValid(env, s, Tick(t));
    TickAccept(env, s, t, maxTerm);
    var s1 := Accept(env, s, Tick(t));
    DrainKeepsValid(env, s1);
    DrainShrinks(env, s1, u, maxTerm);
    if Idle(s) { IdleDrain(env, s1); }
  }

  /** As many ticks as the backlog, each after every held event's tapping term, leave nothing held. */
  lemma {:induction false} TicksFlush(env: Env, s: State, ts: seq<Word16>, maxTerm: nat)
    requires Valid(s) && TermsBounded(env, maxTerm)
    requires forall i :: 0 <= i < |ts| ==> Late(s, ts[i], maxTerm)
    requires Idle(s) || |ts| >= Backlog(s)
    ensures Idle(Run(env, s, Ticks(ts)))
    decreases |ts|
  {
    hide Process, Late, Valid;
    if ts != [] {
      assert Ticks(ts)[1..] == Ticks(ts[1..]);
      forall i | 0 <= i < |ts| ensures Late(Process(env, s, Tick(ts[0])), ts[i], maxTerm) {
        TickShrinks(env, s, ts[0], ts[i], maxTerm);
      }
      TickShrinks(env, s, ts[0], ts[0], maxTerm);
      TicksFlush(env, Process(env, s, Tick(ts[0])), ts[1..], maxTerm);
    } else if !Idle(s) {
      ValidIdle(s);
    }
  }

  lemma ValidIdle(s: State)
    requires Valid(s) && Backlog(s) == 0
    ensures Idle(s)
  {
  }

  lemma {:induction false} TicksAreNotInputs(ts: seq<Word16>)
    ensures RealInputs(Ticks(ts)) == multiset{}
  {
    if ts != [] {
      assert Ticks(ts)[1..] == Ticks(ts[1..]);
      TicksAreNotInputs(ts[1..]);
    }
  }

  /** Whatever was typed, fifteen late ticks bring the engine to rest, and then every event fed in has
      been delivered exactly once or was lost in an overflow. */
  lemma EventualDelivery(env: Env, es: seq<Event>, ts: seq<Word16>, maxTerm: nat)
    requires TermsBounded(env, maxTerm) && |ts| >= 15
    requires forall i :: 0 <= i < |ts| ==> Late(Run(env, INITIAL, es), ts[i], maxTerm)
    ensures var t := Run(env, Run(env, INITIAL, es), Ticks(ts));
      Idle(t) && Delivered(t.world.emitted) + multiset(t.dropped) == RealInputs(es)
  {
    hide Run, Delivered, Late, RealInputs;
    var s := Run(env, INITIAL, es);
    RunKeepsValid(env, INITIAL, es);
    Conservation(env, INITIAL, es);
    TicksFlush(env, s, ts, maxTerm);
    TicksAreNotInputs(ts);
    Conservation(env, s, Ticks(ts));
    InitialTotal();
    IdleTotal(Run(env, s, Ticks(ts)));
  }

  lemma IdleTotal(s: State)
    requires Idle(s)
    ensures Total(s) == Delivered(s.world.emitted) + multiset(s.dropped)
  {
    assert EventsOf(s.buffer) == [];
  }

  lemma InitialTotal()
    ensures Total(INITIAL) == multiset{}
  {
    assert EventsOf([]) == [];
  }

  lemma {:induction false} DrainDropsNothing(env: Env, s: State)
    ensures Drain(env, s).dropped == s.dropped
    decreases |s.buffer|
  {
    hide Step;
    if s.buffer != [] {
      var o := Step(env, s, s.buffer[0]);
      StepKeepsEvents(env, s, s.buffer[0]);
      if o.consumed { DrainDropsNothing(env, o.s.(buffer := o.s.buffer[1..])); }
    }
  }

  /** Events are lost only when a refused real event meets seven waiting ones, and then the engine is
      left as it started. */
  lemma DropsOnlyWhenFull(env: Env, s: State, e: Event)
    requires Valid(s)
    ensures var t := Process(env, s, e);
      t.dropped != s.dropped ==> !e.IsTick() && |s.buffer| == 7 && t.tk == EMPTY_RECORD && t.buffer == []
  {
    hide Step;
    var s0 := s.(world := s.world.(calls := s.world.calls + 1));
    StepKeepsEvents(env, s0, Fresh(e));
    DrainDropsNothing(env, Accept(env, s, e));
  }
}
