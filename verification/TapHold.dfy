/** The tap-hold state machine of quantum/action_tapping.c in its base configuration, on values:
    the specification that the engine in TapHoldEngine.dfy is proved against. */
module TapHold {
  import opened Words
  import opened ActionCode

  // ---------------------------------------------------------------- events and records

  datatype EventType =
    | TickEvent | KeyEvent | EncoderCwEvent | EncoderCcwEvent | ComboEvent | DipSwitchOnEvent | DipSwitchOffEvent

  datatype KeyPos = KeyPos(col: Byte, row: Byte)

  datatype Event = Event(key: KeyPos, time: Word16, kind: EventType, pressed: bool) {
    predicate IsTick() { kind.TickEvent? }
  }

  type Nibble = x: nat | x < 16

  datatype Tap = Tap(interrupted: bool, count: Nibble)

  datatype Record = Record(event: Event, tap: Tap) {
    /** The record whose key is `k`. */
    predicate IsFor(k: KeyPos) { event.key == k }
  }

  const NO_TAP := Tap(false, 0)
  const EMPTY_RECORD := Record(Event(KeyPos(0, 0), 0, TickEvent, false), NO_TAP)
  const WAITING_BUFFER_SIZE := 8

  // ---------------------------------------------------------------- the outside world

  /** One call of process_record: for an event that was fed in, or for the release that the engine
      makes up before it starts a new tap. */
  datatype Emission = Real(record: Record) | Synthetic(record: Record)

  /** Everything that the keymap and the callbacks can depend on: what has been processed so far and
      how many times the engine has been called. */
  datatype World = World(emitted: seq<Emission>, calls: nat)

  /** The keymap lookup and the per-key callbacks, free to change as the world does. */
  datatype Env = Env(
    action: (World, KeyPos) -> ActionWord,
    tappingTerm: (World, Record) -> Word16,
    quickTapTerm: (World, Record) -> Word16,
    permissiveHold: (World, Record) -> bool,
    holdOnOtherKeyPress: (World, Record) -> bool)

  // ---------------------------------------------------------------- state

  /** The engine: the tapping key, the waiting buffer from tail to head, the world, and (kept only to
      state the theorems) the events thrown away on buffer overflow. */
  datatype State = State(tk: Record, buffer: seq<Record>, world: World, dropped: seq<Event>)

  const INITIAL := State(EMPTY_RECORD, [], World([], 0), [])

  function Emit(s: State, e: Emission): State {
    s.(world := s.world.(emitted := s.world.emitted + [e]))
  }

  predicate IsTapRecord(env: Env, w: World, r: Record) {
    !r.event.IsTick() && IsTapAction(env.action(w, r.event.key))
  }

  predicate WithinTappingTerm(env: Env, w: World, tk: Record, e: Event) {
    Diff16(e.time, tk.event.time) < env.tappingTerm(w, tk)
  }

  predicate WithinQuickTapTerm(env: Env, w: World, tk: Record, e: Event) {
    Diff16(e.time, tk.event.time) < env.quickTapTerm(w, tk)
  }

  /** waiting_buffer_typed: the opposite event of the same key is buffered. */
  predicate Typed(buffer: seq<Record>, e: Event) {
    exists i :: 0 <= i < |buffer| && buffer[i].IsFor(e.key) && buffer[i].event.pressed != e.pressed
  }

  /** The buffered release that makes the tapping key a tap. */
  predicate Completes(env: Env, w: World, tk: Record, r: Record) {
    !r.event.IsTick() && r.IsFor(tk.event.key) && !r.event.pressed && WithinTappingTerm(env, w, tk, r.event)
  }

  /** The first index at or after `i` whose record completes the tap; the length if there is none. */
  function FindRelease(env: Env, w: World, tk: Record, buffer: seq<Record>, i: nat): (k: nat)
    requires i <= |buffer|
    ensures i <= k <= |buffer|
    ensures k < |buffer| ==> Completes(env, w, tk, buffer[k])
    ensures forall j :: i <= j < k ==> !Completes(env, w, tk, buffer[j])
    decreases |buffer| - i
  {
    if i == |buffer| || Completes(env, w, tk, buffer[i]) then i else FindRelease(env, w, tk, buffer, i + 1)
  }

  /** waiting_buffer_scan_tap */
  function ScanTap(env: Env, s: State): State {
    if s.tk.tap.count > 0 || !s.tk.event.pressed then s
    else
      var k := FindRelease(env, s.world, s.tk, s.buffer, 0);
      if k == |s.buffer| then s
      else
        var tk := s.tk.(tap := s.tk.tap.(count := 1));
        var found := s.buffer[k].(tap := s.buffer[k].tap.(count := 1));
        Emit(s.(tk := tk, buffer := s.buffer[k := found]), Real(tk))
  }

  /** Whether a release that belongs to a key pressed before the tapping key must wait until the tap
      is settled: it would drop a modifier or a layer. */
  predicate MustRetain(a: ActionWord, tap: Tap) {
    if Kind(a) == ACT_LMODS || Kind(a) == ACT_RMODS then
      (Mods(a) != 0 && Code(a) == 0) || IsModifierKeycode(Code(a))
    else if Kind(a) == ACT_LMODS_TAP || Kind(a) == ACT_RMODS_TAP then
      (Mods(a) != 0 && tap.count == 0) || IsModifierKeycode(Code(a))
    else if Kind(a) == ACT_LAYER_TAP || Kind(a) == ACT_LAYER_TAP_EXT then
      Code(a) < OP_TAP_TOGGLE || Code(a) == OP_ON_OFF || Code(a) == OP_OFF_ON || Code(a) == OP_SET_CLEAR
    else
      false
  }

  // ---------------------------------------------------------------- process_tapping

  /** What process_tapping leaves: the state, the record it was pointed at, and its result. */
  datatype Outcome = Outcome(s: State, rec: Record, consumed: bool)

  /** An event within the tapping term of a pressed tapping key with no tap yet. */
  function StepUnsettled(env: Env, s: State, r: Record): Outcome {
    var e := r.event;
    if r.IsFor(s.tk.event.key) && !e.pressed then
      var tk := s.tk.(tap := s.tk.tap.(count := 1));
      Outcome(Emit(s.(tk := tk), Real(tk)), r.(tap := tk.tap), false)
    else if !e.pressed && Typed(s.buffer, e) && env.permissiveHold(s.world, s.tk) then
      Outcome(Emit(s, Real(s.tk)).(tk := EMPTY_RECORD), r, false)
    else if !e.pressed && !Typed(s.buffer, e) then
      if MustRetain(env.action(s.world, e.key), r.tap) then Outcome(s, r, false)
      else Outcome(Emit(s, Real(r)), r, true)
    else if e.pressed then
      var tk := s.tk.(tap := s.tk.tap.(interrupted := true));
      if env.holdOnOtherKeyPress(s.world, tk) then
        Outcome(Emit(s.(tk := tk), Real(tk)).(tk := EMPTY_RECORD), r, false)
      else
        Outcome(s.(tk := tk), r, false)
    else
      Outcome(s, r, false)
  }

  /** The release made up for a tapping key that is still down while a new tap starts. */
  function MadeUpRelease(tk: Record, time: Word16): Record {
    Record(Event(tk.event.key, time, tk.event.kind, false), tk.tap)
  }

  /** An event while the tapping key is down and already counted as a tap. */
  function StepSettled(env: Env, s: State, r: Record, within: bool): Outcome {
    var e := r.event;
    if r.IsFor(s.tk.event.key) && !e.pressed then
      var r' := r.(tap := s.tk.tap);
      Outcome(Emit(s, Real(r')).(tk := if within then r' else EMPTY_RECORD), r', true)
    else if IsTapRecord(env, s.world, r) && e.pressed then
      var s' := if s.tk.tap.count > 1 then Emit(s, Synthetic(MadeUpRelease(s.tk, e.time))) else s;
      Outcome(ScanTap(env, s'.(tk := r)), r, true)
    else
      Outcome(Emit(s, Real(r)), r, true)
  }

  /** An event within the tapping term of a released tapping key. */
  function StepReleased(env: Env, s: State, r: Record): Outcome {
    var e := r.event;
    if !e.pressed then
      Outcome(Emit(s, Real(r)), r, true)
    else if r.IsFor(s.tk.event.key) then
      if WithinQuickTapTerm(env, s.world, s.tk, e) && !s.tk.tap.interrupted && s.tk.tap.count > 0 then
        var r' := r.(tap := s.tk.tap.(count := if s.tk.tap.count < 15 then s.tk.tap.count + 1 else s.tk.tap.count));
        Outcome(Emit(s, Real(r')).(tk := r'), r', true)
      else
        Outcome(s.(tk := r), r, true)
    else if IsTapRecord(env, s.world, r) then
      Outcome(ScanTap(env, s.(tk := r)), r, true)
    else
      Outcome(Emit(s.(tk := s.tk.(tap := s.tk.tap.(interrupted := true))), Real(r)), r, true)
  }

  /** process_tapping */
  function Step(env: Env, s: State, r: Record): Outcome {
    var e := r.event;
    if s.tk.event.IsTick() then
      if e.IsTick() then Outcome(s, r, true)
      else if e.pressed && IsTapRecord(env, s.world, r) then Outcome(ScanTap(env, s.(tk := r)), r, true)
      else Outcome(Emit(s, Real(r)), r, true)
    else if s.tk.event.pressed then
      if WithinTappingTerm(env, s.world, s.tk, e) then
        if e.IsTick() then Outcome(s, r, true)
        else if s.tk.tap.count == 0 then StepUnsettled(env, s, r)
        else StepSettled(env, s, r, true)
      else if s.tk.tap.count == 0 then
        Outcome(Emit(s, Real(s.tk)).(tk := EMPTY_RECORD), r, false)
      else if e.IsTick() then Outcome(s, r, true)
      else StepSettled(env, s, r, false)
    else if WithinTappingTerm(env, s.world, s.tk, e) then
      if e.IsTick() then Outcome(s, r, true) else StepReleased(env, s, r)
    else
      Outcome(s.(tk := EMPTY_RECORD), r, false)
  }

  // ---------------------------------------------------------------- action_tapping_process

  /** The tapping key's event, when it is down and not yet passed on as a tap or a hold. */
  function Pending(tk: Record): seq<Event> {
    if tk.event.pressed && tk.tap.count == 0 then [tk.event] else []
  }

  function EventsOf(rs: seq<Record>): (es: seq<Event>)
    ensures |es| == |rs| && forall i :: 0 <= i < |rs| ==> es[i] == rs[i].event
  {
    seq(|rs|, i requires 0 <= i < |rs| => rs[i].event)
  }

  /** waiting_buffer_enq, with the reset of everything that follows an overflow. */
  function Enqueue(s: State, r: Record): State {
    if r.event.IsTick() then s
    else if |s.buffer| + 1 >= WAITING_BUFFER_SIZE then
      s.(tk := EMPTY_RECORD, buffer := [], dropped := s.dropped + EventsOf(s.buffer) + Pending(s.tk) + [r.event])
    else s.(buffer := s.buffer + [r])
  }

  /** The drain loop: hand buffered records to the state machine until it refuses one. */
  function Drain(env: Env, s: State): State
    decreases |s.buffer|
  {
    if s.buffer == [] then s
    else
      var o := Step(env, s, s.buffer[0]);
      StepKeepsEvents(env, s, s.buffer[0]);
      if o.consumed then Drain(env, o.s.(buffer := o.s.buffer[1..]))
      else o.s.(buffer := o.s.buffer[0 := o.rec])
  }

  /** action_exec's fresh record. */
  function Fresh(e: Event): Record {
    Record(e, NO_TAP)
  }

  /** The part of action_tapping_process before the drain loop. */
  function Accept(env: Env, s: State, e: Event): State {
    var o := Step(env, s.(world := s.world.(calls := s.world.calls + 1)), Fresh(e));
    if o.consumed then o.s else Enqueue(o.s, o.rec)
  }

  /** action_tapping_process */
  function Process(env: Env, s: State, e: Event): State {
    Drain(env, Accept(env, s, e))
  }

  /** A whole run of the engine. */
  function Run(env: Env, s: State, es: seq<Event>): State
    decreases |es|
  {
    if es == [] then s else Run(env, Process(env, s, es[0]), es[1..])
  }

  // ---------------------------------------------------------------- frame of one step

  /** One step never changes which events are buffered, only their tap state. */
  lemma StepKeepsEvents(env: Env, s: State, r: Record)
    ensures var o := Step(env, s, r);
      && o.rec.event == r.event
      && EventsOf(o.s.buffer) == EventsOf(s.buffer)
      && |o.s.buffer| == |s.buffer|
      && o.s.dropped == s.dropped
      && o.s.world.calls == s.world.calls
  {
    hide StepUnsettled, StepSettled, StepReleased, ScanTap;
    UnsettledKeepsEvents(env, s, r);
    SettledKeepsEvents(env, s, r, true);
    SettledKeepsEvents(env, s, r, false);
    ReleasedKeepsEvents(env, s, r);
    ScanKeepsEvents(env, s.(tk := r));
  }

  ghost predicate SameEvents(s: State, t: State) {
    && EventsOf(t.buffer) == EventsOf(s.buffer) && |t.buffer| == |s.buffer|
    && t.dropped == s.dropped && t.world.calls == s.world.calls
  }

  lemma ScanKeepsEvents(env: Env, s: State)
    ensures SameEvents(s, ScanTap(env, s))
  {
  }

  lemma UnsettledKeepsEvents(env: Env, s: State, r: Record)
    ensures var o := StepUnsettled(env, s, r); o.rec.event == r.event && SameEvents(s, o.s)
  {
  }

  lemma SettledKeepsEvents(env: Env, s: State, r: Record, within: bool)
    ensures var o := StepSettled(env, s, r, within); o.rec.event == r.event && SameEvents(s, o.s)
  {
    hide ScanTap;
    ScanKeepsEvents(env, s.(tk := r));
    ScanKeepsEvents(env, Emit(s, Synthetic(MadeUpRelease(s.tk, r.event.time))).(tk := r));
  }

  lemma ReleasedKeepsEvents(env: Env, s: State, r: Record)
    ensures var o := StepReleased(env, s, r); o.rec.event == r.event && SameEvents(s, o.s)
  {
    hide ScanTap;
    ScanKeepsEvents(env, s.(tk := r));
  }
}
