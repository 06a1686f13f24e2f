/** That a key is released the way it was pressed: a release is passed on with the tap count of the press
    before it, so that what a tap has registered is what its release unregisters. */
module TapHoldPairing {
  import opened TapHold
  import opened TapHoldTheorems
  import opened TapHoldTrace
  import opened TapHoldOrder

  // ---------------------------------------------------------------- the promise

  predicate IsFrom(e: Event, k: KeyPos) {
    !e.IsTick() && e.key == k
  }

  /** The press of key `k` that was passed on last, unless a release of the key, real or made up, came
      after it. */
  function Down(em: seq<Emission>, k: KeyPos): (d: Option<Record>)
    ensures d.Some? ==> IsFrom(d.value.event, k) && d.value.event.pressed
  {
    if em == [] then None
    else
      var e := em[|em| - 1];
      if !IsFrom(e.record.event, k) then Down(em[..|em| - 1], k)
      else if e.Real? && e.record.event.pressed then Some(e.record)
      else None
  }

  datatype Option<T> = None | Some(value: T)

  /** The release `r`, passed on after `em`, is of the same tap count as the press it ends. */
  predicate Matches(em: seq<Emission>, r: Record) {
    var d := Down(em, r.event.key);
    d.Some? ==> r.tap.count == d.value.tap.count
  }

  /** Every real release was passed on with the tap count of the press before it, unless the engine had
      made up a release in between. */
  ghost predicate ReleasedAsPressed(em: seq<Emission>) {
    forall j :: 0 <= j < |em| && em[j].Real? && !em[j].record.event.pressed ==> Matches(em[..j], em[j].record)
  }

  lemma DownSnoc(em: seq<Emission>, e: Emission, k: KeyPos)
    ensures Down(em + [e], k) ==
      if !IsFrom(e.record.event, k) then Down(em, k)
      else if e.Real? && e.record.event.pressed then Some(e.record) else None
  {
    assert (em + [e])[..|em|] == em;
  }

  lemma ReleasedSnoc(em: seq<Emission>, e: Emission)
    requires ReleasedAsPressed(em) && (e.Real? && !e.record.event.pressed ==> Matches(em, e.record))
    ensures ReleasedAsPressed(em + [e])
  {
    hide Matches;
    forall j | 0 <= j < |em| + 1 && (em + [e])[j].Real? && !(em + [e])[j].record.event.pressed
      ensures Matches((em + [e])[..j], (em + [e])[j].record)
    {
      assert (em + [e])[..j] == if j < |em| then em[..j] else em;
    }
  }

  // ---------------------------------------------------------------- what holds of each key

  predicate IsRelease(r: Record, k: KeyPos) {
    r.event.key == k && !r.event.pressed
  }

  ghost predicate ReleaseWaits(rs: seq<Record>, k: KeyPos) {
    exists i :: 0 <= i < |rs| && IsRelease(rs[i], k)
  }

  /** Every waiting release of the key has the tap count `c`. */
  ghost predicate ReleasesHave(rs: seq<Record>, k: KeyPos, c: nat) {
    forall i :: 0 <= i < |rs| && IsRelease(rs[i], k) ==> rs[i].tap.count == c
  }

  predicate IsSettled(tk: Record) {
    !tk.event.IsTick() && tk.event.pressed && tk.tap.count > 0
  }

  predicate IsTapped(d: Option<Record>) {
    d.Some? && d.value.tap.count == 1
  }

  /** Of one key: a press passed on as a single tap has its release waiting, with count one; a release that
      waits for anything else is untouched; a press of a higher count is still the tapping key; and a
      settled tapping key is the last that was passed on of its key. */
  ghost predicate KeyPairs(tk: Record, em: seq<Emission>, rs: seq<Record>, k: KeyPos) {
    var d := Down(em, k);
    && ReleasesHave(rs, k, if IsTapped(d) then 1 else 0)
    && (IsTapped(d) ==> ReleaseWaits(rs, k))
    && (d.Some? && d.value.tap.count > 1 ==> tk == d.value)
    && (IsSettled(tk) && tk.event.key == k ==> d == Some(tk))
  }

  /** No two releases of a key wait. */
  ghost predicate OneReleaseEach(rs: seq<Record>) {
    forall i, j :: 0 <= i < j < |rs| && !rs[i].event.pressed && !rs[j].event.pressed ==>
      rs[i].event.key != rs[j].event.key
  }

  /** The records without the one at `p`. */
  function Without(rs: seq<Record>, p: nat): (q: seq<Record>)
    requires p < |rs|
    ensures |q| == |rs| - 1 && forall i :: 0 <= i < |q| ==> q[i] == rs[if i < p then i else i + 1]
  {
    rs[..p] + rs[p + 1..]
  }

  // ---------------------------------------------------------------- what can happen to a record

  /** The record at `p` is passed on as it is, and is not the release of a settled tapping key. */
  lemma PassedOn(tk: Record, em: seq<Emission>, rs: seq<Record>, p: nat, k: KeyPos)
    requires p < |rs| && KeyPairs(tk, em, rs, k) && OneReleaseEach(rs) && ValidRecord(rs[p]) && !rs[p].event.IsTick()
    requires Down(em, rs[p].event.key).Some? ==> !rs[p].event.pressed
    requires IsSettled(tk) ==> tk.event.key != rs[p].event.key
    ensures rs[p].event.key == k && !rs[p].event.pressed ==> Matches(em, rs[p])
    ensures KeyPairs(tk, em + [Real(rs[p])], Without(rs, p), k)
  {
    hide Down;
    DownSnoc(em, Real(rs[p]), k);
    var rest := Without(rs, p);
    if IsTapped(Down(em, k)) {
      var i :| 0 <= i < |rs| && IsRelease(rs[i], k);
      if i != p { assert rest[if i < p then i else i - 1] == rs[i]; }
    }
  }

  /** The tapping key is replaced or altered, but not a settled one of a count above one. */
  lemma Replaced(tk: Record, tk': Record, em: seq<Emission>, rs: seq<Record>, k: KeyPos)
    requires KeyPairs(tk, em, rs, k) && !IsSettled(tk') && (IsSettled(tk) ==> tk.tap.count == 1)
    ensures KeyPairs(tk', em, rs, k)
  {
    hide Down;
  }

  /** The pending tapping key is passed on as a hold. */
  lemma HeldOut(tk: Record, q: Record, em: seq<Emission>, rs: seq<Record>, k: KeyPos)
    requires KeyPairs(tk, em, rs, k) && Pending(tk) == [q.event] && q.tap.count == 0 && !tk.event.IsTick()
    requires Down(em, tk.event.key) == None
    ensures KeyPairs(EMPTY_RECORD, em + [Real(q)], rs, k)
  {
    hide Down;
    DownSnoc(em, Real(q), k);
  }

  /** The pending tapping key is passed on as a tap, and its release at `p` is marked. */
  lemma TappedOut(tk: Record, q: Record, em: seq<Emission>, rs: seq<Record>, p: nat, rec: Record, k: KeyPos)
    requires KeyPairs(tk, em, rs, k) && Pending(tk) == [q.event] && q.tap.count == 1 && !tk.event.IsTick()
    requires Down(em, tk.event.key) == None && OneReleaseEach(rs)
    requires p < |rs| && IsRelease(rs[p], tk.event.key) && rec.event == rs[p].event && rec.tap.count == 1
    ensures KeyPairs(q, em + [Real(q)], rs[p := rec], k)
  {
    hide Down;
    DownSnoc(em, Real(q), k);
    assert k == tk.event.key ==> IsRelease(rs[p := rec][p], k);
    if IsTapped(Down(em, k)) {
      var i :| 0 <= i < |rs| && IsRelease(rs[i], k);
      assert IsRelease(rs[p := rec][i], k);
    }
  }

  /** The release made up for a settled tapping key that is given up. */
  lemma MadeUp(tk: Record, tk': Record, m: Record, em: seq<Emission>, rs: seq<Record>, k: KeyPos)
    requires KeyPairs(tk, em, rs, k) && IsSettled(tk) && tk.tap.count > 1 && !IsSettled(tk')
    requires IsFrom(m.event, tk.event.key)
    ensures KeyPairs(tk', em + [Synthetic(m)], rs, k)
  {
    hide Down;
    DownSnoc(em, Synthetic(m), k);
  }

  /** The settled tapping key's own release, at `p`, is passed on with the tap state of the key. */
  lemma ReleasedOwn(tk: Record, tk': Record, q: Record, em: seq<Emission>, rs: seq<Record>, p: nat, k: KeyPos)
    requires p < |rs| && KeyPairs(tk, em, rs, k) && OneReleaseEach(rs) && IsSettled(tk) && !IsSettled(tk')
    requires IsRelease(rs[p], tk.event.key) && !rs[p].event.IsTick() && q == rs[p].(tap := tk.tap)
    ensures k == tk.event.key ==> Matches(em, q)
    ensures KeyPairs(tk', em + [Real(q)], Without(rs, p), k)
  {
    hide Down;
    DownSnoc(em, Real(q), k);
    var rest := Without(rs, p);
    if IsTapped(Down(em, k)) {
      var i :| 0 <= i < |rs| && IsRelease(rs[i], k);
      if i != p { assert rest[if i < p then i else i - 1] == rs[i]; }
    }
  }

  /** The press at `p` of a released tapping key is passed on as a further tap. */
  lemma TappedAgain(tk: Record, q: Record, em: seq<Emission>, rs: seq<Record>, p: nat, k: KeyPos)
    requires p < |rs| && KeyPairs(tk, em, rs, k) && !IsSettled(tk) && Down(em, rs[p].event.key) == None
    requires rs[p].event.pressed && !rs[p].event.IsTick() && q.event == rs[p].event && q.tap.count > 1
    ensures KeyPairs(q, em + [Real(q)], Without(rs, p), k)
  {
    hide Down;
    DownSnoc(em, Real(q), k);
    var rest := Without(rs, p);
    if IsTapped(Down(em, k)) {
      var i :| 0 <= i < |rs| && IsRelease(rs[i], k);
      assert rest[if i < p then i else i - 1] == rs[i];
    }
  }

  /** A press that has become the tapping key no longer waits. */
  lemma PressTaken(tk: Record, em: seq<Emission>, rs: seq<Record>, p: nat, k: KeyPos)
    requires p < |rs| && KeyPairs(tk, em, rs, k) && rs[p].event.pressed
    ensures KeyPairs(tk, em, Without(rs, p), k)
  {
    hide Down;
    var rest := Without(rs, p);
    if IsTapped(Down(em, k)) {
      var i :| 0 <= i < |rs| && IsRelease(rs[i], k);
      assert rest[if i < p then i else i - 1] == rs[i];
    }
  }

  // ---------------------------------------------------------------- all keys together

  /** What holds before and after every step: `rs` is everything that waits. */
  ghost predicate AllPair(tk: Record, em: seq<Emission>, rs: seq<Record>) {
    ReleasedAsPressed(em) && OneReleaseEach(rs) && forall k :: KeyPairs(tk, em, rs, k)
  }

  /** The record at `p` is consumed, or stays with the tap state it has been given. */
  function Left(rs: seq<Record>, p: nat, o: Outcome): seq<Record>
    requires p < |rs|
  {
    if o.consumed then Without(rs, p) else rs[p := o.rec]
  }

  lemma WithoutOne(rs: seq<Record>, p: nat)
    requires p < |rs| && OneReleaseEach(rs)
    ensures OneReleaseEach(Without(rs, p))
  {
  }

  lemma SetOne(rs: seq<Record>, p: nat, rec: Record)
    requires p < |rs| && OneReleaseEach(rs) && rec.event == rs[p].event
    ensures OneReleaseEach(rs[p := rec])
  {
  }

  lemma AllPassedOn(tk: Record, em: seq<Emission>, rs: seq<Record>, p: nat)
    requires AllPair(tk, em, rs) && p < |rs| && ValidRecord(rs[p]) && !rs[p].event.IsTick()
    requires Down(em, rs[p].event.key).Some? ==> !rs[p].event.pressed
    requires IsSettled(tk) ==> tk.event.key != rs[p].event.key
    ensures AllPair(tk, em + [Real(rs[p])], Without(rs, p))
  {
    hide KeyPairs, Matches, Down, IsSettled, OneReleaseEach;
    forall k ensures KeyPairs(tk, em + [Real(rs[p])], Without(rs, p), k) { PassedOn(tk, em, rs, p, k); }
    PassedOn(tk, em, rs, p, rs[p].event.key);
    ReleasedSnoc(em, Real(rs[p]));
    WithoutOne(rs, p);
  }

  lemma AllReplaced(tk: Record, tk': Record, em: seq<Emission>, rs: seq<Record>)
    requires AllPair(tk, em, rs) && !IsSettled(tk') && (IsSettled(tk) ==> tk.tap.count == 1)
    ensures AllPair(tk', em, rs)
  {
    hide KeyPairs, Matches, Down, IsSettled, OneReleaseEach;
    forall k ensures KeyPairs(tk', em, rs, k) { Replaced(tk, tk', em, rs, k); }
  }

  lemma AllHeldOut(tk: Record, q: Record, em: seq<Emission>, rs: seq<Record>)
    requires AllPair(tk, em, rs) && Pending(tk) == [q.event] && q.tap.count == 0 && !tk.event.IsTick()
    requires Down(em, tk.event.key) == None
    ensures AllPair(EMPTY_RECORD, em + [Real(q)], rs)
  {
    hide KeyPairs, Matches, Down, OneReleaseEach;
    forall k ensures KeyPairs(EMPTY_RECORD, em + [Real(q)], rs, k) { HeldOut(tk, q, em, rs, k); }
    ReleasedSnoc(em, Real(q));
  }

  lemma AllTappedOut(tk: Record, q: Record, em: seq<Emission>, rs: seq<Record>, p: nat, rec: Record)
    requires AllPair(tk, em, rs) && Pending(tk) == [q.event] && q.tap.count == 1 && !tk.event.IsTick()
    requires Down(em, tk.event.key) == None
    requires p < |rs| && IsRelease(rs[p], tk.event.key) && rec.event == rs[p].event && rec.tap.count == 1
    ensures AllPair(q, em + [Real(q)], rs[p := rec])
  {
    hide KeyPairs, Matches, Down, OneReleaseEach;
    var marked := rs[p := rec];
    forall k ensures KeyPairs(q, em + [Real(q)], marked, k) { TappedOut(tk, q, em, rs, p, rec, k); }
    ReleasedSnoc(em, Real(q));
    SetOne(rs, p, rec);
  }

  lemma AllMadeUp(tk: Record, tk': Record, m: Record, em: seq<Emission>, rs: seq<Record>)
    requires AllPair(tk, em, rs) && IsSettled(tk) && tk.tap.count > 1 && !IsSettled(tk')
    requires IsFrom(m.event, tk.event.key)
    ensures AllPair(tk', em + [Synthetic(m)], rs)
  {
    hide KeyPairs, Matches, Down, IsSettled, OneReleaseEach;
    forall k ensures KeyPairs(tk', em + [Synthetic(m)], rs, k) { MadeUp(tk, tk', m, em, rs, k); }
    ReleasedSnoc(em, Synthetic(m));
  }

  lemma AllReleasedOwn(tk: Record, tk': Record, q: Record, em: seq<Emission>, rs: seq<Record>, p: nat)
    requires p < |rs| && AllPair(tk, em, rs) && IsSettled(tk) && !IsSettled(tk')
    requires IsRelease(rs[p], tk.event.key) && !rs[p].event.IsTick() && q == rs[p].(tap := tk.tap)
    ensures AllPair(tk', em + [Real(q)], Without(rs, p))
  {
    hide KeyPairs, Matches, Down, IsSettled, OneReleaseEach;
    forall k ensures KeyPairs(tk', em + [Real(q)], Without(rs, p), k) { ReleasedOwn(tk, tk', q, em, rs, p, k); }
    ReleasedOwn(tk, tk', q, em, rs, p, tk.event.key);
    ReleasedSnoc(em, Real(q));
    WithoutOne(rs, p);
  }

  lemma AllTappedAgain(tk: Record, q: Record, em: seq<Emission>, rs: seq<Record>, p: nat)
    requires p < |rs| && AllPair(tk, em, rs) && !IsSettled(tk) && Down(em, rs[p].event.key) == None
    requires rs[p].event.pressed && !rs[p].event.IsTick() && q.event == rs[p].event && q.tap.count > 1
    ensures AllPair(q, em + [Real(q)], Without(rs, p))
  {
    hide KeyPairs, Matches, Down, IsSettled, OneReleaseEach;
    forall k ensures KeyPairs(q, em + [Real(q)], Without(rs, p), k) { TappedAgain(tk, q, em, rs, p, k); }
    ReleasedSnoc(em, Real(q));
    WithoutOne(rs, p);
  }

  lemma AllPressTaken(tk: Record, em: seq<Emission>, rs: seq<Record>, p: nat)
    requires p < |rs| && AllPair(tk, em, rs) && rs[p].event.pressed
    ensures AllPair(tk, em, Without(rs, p))
  {
    hide KeyPairs, Matches, Down, OneReleaseEach;
    forall k ensures KeyPairs(tk, em, Without(rs, p), k) { PressTaken(tk, em, rs, p, k); }
    WithoutOne(rs, p);
  }

  // ---------------------------------------------------------------- one step

  lemma UnsettledPairs(env: Env, s: State, r: Record, rs: seq<Record>, p: nat)
    requires AllPair(s.tk, s.world.emitted, rs) && p < |rs| && rs[p] == r && ValidRecord(r) && !r.event.IsTick()
    requires Pending(s.tk) != [] && !s.tk.event.IsTick() && Down(s.world.emitted, s.tk.event.key) == None
    ensures var o := StepUnsettled(env, s, r); AllPair(o.s.tk, o.s.world.emitted, Left(rs, p, o))
  {
    hide AllPair, Typed, MustRetain, Down, Without;
    var em, touched := s.world.emitted, s.tk.(tap := s.tk.tap.(interrupted := true));
    var o := StepUnsettled(env, s, r);
    assert rs[p := r] == rs;
    if r.event.pressed {
      AllReplaced(s.tk, touched, em, rs);
      AllHeldOut(s.tk, touched, em, rs);
    } else if r.IsFor(s.tk.event.key) {
      var q := s.tk.(tap := s.tk.tap.(count := 1));
      AllTappedOut(s.tk, q, em, rs, p, r.(tap := q.tap));
    } else {
      AllHeldOut(s.tk, s.tk, em, rs);
      AllPassedOn(s.tk, em, rs, p);
    }
  }

  /** The tapping key has been replaced by the press `r`, with a release made up for a settled one of a
      count above one. */
  function Restarted(s: State, r: Record): State {
    (if IsSettled(s.tk) && s.tk.tap.count > 1 then Emit(s, Synthetic(MadeUpRelease(s.tk, r.event.time))) else s)
      .(tk := r)
  }

  lemma RestartPairs(s: State, r: Record, rs: seq<Record>)
    requires AllPair(s.tk, s.world.emitted, rs) && ValidRecord(r) && r.event.pressed
    ensures AllPair(r, Restarted(s, r).world.emitted, rs)
  {
    hide AllPair;
    if IsSettled(s.tk) && s.tk.tap.count > 1 {
      AllMadeUp(s.tk, r, MadeUpRelease(s.tk, r.event.time), s.world.emitted, rs);
    } else {
      AllReplaced(s.tk, r, s.world.emitted, rs);
    }
  }

  /** A tap-hold press that restarts the state machine. */
  predicate Restarts(env: Env, s: State, r: Record) {
    !r.event.IsTick() && r.event.pressed && IsTapRecord(env, s.world, r)
  }

  lemma SettledPairs(env: Env, s: State, r: Record, within: bool, rs: seq<Record>, p: nat)
    requires AllPair(s.tk, s.world.emitted, rs) && p < |rs| && rs[p] == r && ValidRecord(r) && !r.event.IsTick()
    requires IsSettled(s.tk) && (Down(s.world.emitted, r.event.key).Some? ==> !r.event.pressed)
    ensures var o := StepSettled(env, s, r, within);
      if Restarts(env, s, r) then o == Outcome(ScanTap(env, Restarted(s, r)), r, true)
      else o.consumed && AllPair(o.s.tk, o.s.world.emitted, Without(rs, p))
  {
    hide AllPair, Down, Without, ScanTap, IsTapRecord;
    var em := s.world.emitted;
    if r.event.pressed {
      if !Restarts(env, s, r) {
        SettledIsDown(s.tk, em, rs);
        AllPassedOn(s.tk, em, rs, p);
      }
    } else if r.IsFor(s.tk.event.key) {
      var q := r.(tap := s.tk.tap);
      AllReleasedOwn(s.tk, if within then q else EMPTY_RECORD, q, em, rs, p);
    } else {
      AllPassedOn(s.tk, em, rs, p);
    }
  }

  lemma SettledIsDown(tk: Record, em: seq<Emission>, rs: seq<Record>)
    requires AllPair(tk, em, rs) && IsSettled(tk)
    ensures Down(em, tk.event.key) == Some(tk)
  {
    hide Down, OneReleaseEach, ReleasedAsPressed;
    assert KeyPairs(tk, em, rs, tk.event.key);
  }

  lemma ReleasedPairs(env: Env, s: State, r: Record, rs: seq<Record>, p: nat)
    requires AllPair(s.tk, s.world.emitted, rs) && p < |rs| && rs[p] == r && ValidRecord(r) && !r.event.IsTick()
    requires !s.tk.event.pressed && s.tk.tap.count > 0 && !s.tk.event.IsTick()
    requires Down(s.world.emitted, r.event.key).Some? ==> !r.event.pressed
    ensures var o := StepReleased(env, s, r);
      if Restarts(env, s, r) && !r.IsFor(s.tk.event.key) then o == Outcome(ScanTap(env, Restarted(s, r)), r, true)
      else o.consumed && AllPair(o.s.tk, o.s.world.emitted, Without(rs, p))
  {
    hide AllPair, Down, Without, ScanTap, IsTapRecord, WithinQuickTapTerm;
    var em := s.world.emitted;
    if !r.event.pressed {
      AllPassedOn(s.tk, em, rs, p);
    } else if r.IsFor(s.tk.event.key) {
      var count: Nibble := if s.tk.tap.count < 15 then s.tk.tap.count + 1 else s.tk.tap.count;
      AllTappedAgain(s.tk, r.(tap := s.tk.tap.(count := count)), em, rs, p);
      AllReplaced(s.tk, r, em, rs);
      AllPressTaken(r, em, rs, p);
    } else if !Restarts(env, s, r) {
      var touched := s.tk.(tap := s.tk.tap.(interrupted := true));
      AllReplaced(s.tk, touched, em, rs);
      AllPassedOn(touched, em, rs, p);
    }
  }

  /** The scan keeps the pairs, if it finds a release that waits. */
  lemma ScanPairs(env: Env, s: State)
    requires AllPair(s.tk, s.world.emitted, s.buffer) && Pending(s.tk) != [] && !s.tk.event.IsTick()
    requires Down(s.world.emitted, s.tk.event.key) == None
    ensures var t := ScanTap(env, s); AllPair(t.tk, t.world.emitted, t.buffer)
  {
    hide AllPair, Down;
    var i := FindRelease(env, s.world, s.tk, s.buffer, 0);
    if i < |s.buffer| {
      var q := s.tk.(tap := s.tk.tap.(count := 1));
      AllTappedOut(s.tk, q, s.world.emitted, s.buffer, i, s.buffer[i].(tap := s.buffer[i].tap.(count := 1)));
    }
  }

  /** The press `r` starts the state machine anew, and the scan follows. */
  predicate Scans(env: Env, s: State, r: Record) {
    && Restarts(env, s, r)
    && (s.tk.event.IsTick() || IsSettled(s.tk)
        || (!s.tk.event.pressed && !r.IsFor(s.tk.event.key) && WithinTappingTerm(env, s.world, s.tk, r.event)))
  }

  lemma StepPairs(env: Env, s: State, r: Record, rs: seq<Record>, p: nat)
    requires ValidTappingKey(s.tk) && ValidRecord(r) && !r.event.IsTick() && p < |rs| && rs[p] == r
    requires AllPair(s.tk, s.world.emitted, rs)
    requires Pending(s.tk) != [] ==> Down(s.world.emitted, s.tk.event.key) == None
    requires s.tk.event.IsTick() || Following(env, s, r.event) ==>
               (Down(s.world.emitted, r.event.key).Some? ==> !r.event.pressed)
    ensures var o := Step(env, s, r);
      if Scans(env, s, r) then o == Outcome(ScanTap(env, Restarted(s, r)), r, true)
      else o.s.buffer == s.buffer && AllPair(o.s.tk, o.s.world.emitted, Left(rs, p, o))
  {
    hide AllPair, Down, Without, ScanTap, IsTapRecord, WithinTappingTerm, StepUnsettled, StepSettled, StepReleased;
    var em := s.world.emitted;
    assert rs[p := r] == rs;
    if s.tk.event.IsTick() {
      if !Scans(env, s, r) { AllPassedOn(s.tk, em, rs, p); }
    } else if s.tk.event.pressed && s.tk.tap.count == 0 {
      UnsettledPairs(env, s, r, rs, p);
      UnsettledKeepsBuffer(env, s, r);
      AllHeldOut(s.tk, s.tk, em, rs);
    } else if s.tk.event.pressed {
      SettledPairs(env, s, r, true, rs, p);
      SettledPairs(env, s, r, false, rs, p);
      if !Scans(env, s, r) {
        SettledKeepsBuffer(env, s, r, true);
        SettledKeepsBuffer(env, s, r, false);
      }
    } else if WithinTappingTerm(env, s.world, s.tk, r.event) {
      ReleasedPairs(env, s, r, rs, p);
      if !Scans(env, s, r) { ReleasedKeepsBuffer(env, s, r); }
    } else {
      AllReplaced(s.tk, EMPTY_RECORD, em, rs);
    }
  }

  lemma UnsettledKeepsBuffer(env: Env, s: State, r: Record)
    ensures StepUnsettled(env, s, r).s.buffer == s.buffer
  {
    hide Typed, MustRetain;
  }

  lemma SettledKeepsBuffer(env: Env, s: State, r: Record, within: bool)
    requires !Restarts(env, s, r) && !r.event.IsTick()
    ensures StepSettled(env, s, r, within).s.buffer == s.buffer
  {
    hide ScanTap, IsTapRecord;
  }

  lemma ReleasedKeepsBuffer(env: Env, s: State, r: Record)
    requires !(Restarts(env, s, r) && !r.IsFor(s.tk.event.key)) && !r.event.IsTick()
    ensures StepReleased(env, s, r).s.buffer == s.buffer
  {
    hide ScanTap, IsTapRecord, WithinQuickTapTerm;
  }

  // ---------------------------------------------------------------- presses and releases alternate

  lemma {:induction false} DownIsLast(em: seq<Emission>, k: KeyPos)
    requires Down(em, k).Some?
    ensures Passed(em, k) != [] && Passed(em, k)[|Passed(em, k)| - 1] == Down(em, k).value.event
  {
    var n := |em| - 1;
    if !IsFrom(em[n].record.event, k) { DownIsLast(em[..n], k); }
  }

  lemma PendingIsNext(s: State)
    requires Pending(s.tk) != [] && !s.tk.event.IsTick() && Alternates(Line(s, s.tk.event.key))
    ensures Down(s.world.emitted, s.tk.event.key) == None
  {
    hide Passed, Down, Waiting, Alternates, OfKey;
    var k := s.tk.event.key;
    OfKeyOne(s.tk.event, k);
    if Down(s.world.emitted, k).Some? {
      DownIsLast(s.world.emitted, k);
      Neighbours(Passed(s.world.emitted, k), s.tk.event, Waiting(s, k));
    }
  }

  lemma Neighbours(front: seq<Event>, e: Event, behind: seq<Event>)
    requires front != [] && Alternates(front + [e] + behind)
    ensures front[|front| - 1].pressed != e.pressed
  {
    var line, n := front + [e] + behind, |front|;
    assert line[n - 1] == front[n - 1] && line[n] == e;
  }

  lemma FirstIsNext(s: State)
    requires Valid(s) && s.buffer != [] && Alternates(Line(s, s.buffer[0].event.key))
    ensures Down(s.world.emitted, s.buffer[0].event.key).Some? ==> !s.buffer[0].event.pressed
  {
    hide Passed, Down, OfKey, EventsOf, Alternates;
    var r := s.buffer[0];
    var k := r.event.key;
    if Down(s.world.emitted, k).Some? {
      if Pending(s.tk) != [] && s.tk.event.key == k { PendingIsNext(s); }
      DownIsLast(s.world.emitted, k);
      OthersPending(s, k);
      OfKeyHead(EventsOf(s.buffer), k);
      var rest := OfKey(EventsOf(s.buffer)[1..], k);
      assert Passed(s.world.emitted, k) + [] + ([r.event] + rest) == Passed(s.world.emitted, k) + [r.event] + rest;
      Neighbours(Passed(s.world.emitted, k), r.event, rest);
    }
  }

  lemma OthersPending(s: State, k: KeyPos)
    requires Pending(s.tk) == [] || s.tk.event.key != k
    ensures OfKey(Pending(s.tk), k) == []
  {
    if Pending(s.tk) != [] { OfKeyOne(s.tk.event, k); }
  }

  lemma ArrivalIsNext(s: State, e: Event)
    requires Valid(s) && !e.IsTick() && Follows(Line(s, e.key), e) && Alternates(Line(s, e.key))
    requires Waiting(s, e.key) == []
    ensures Down(s.world.emitted, e.key).Some? ==> !e.pressed
  {
    hide Passed, Down, OfKey, EventsOf, Alternates;
    if Down(s.world.emitted, e.key).Some? {
      if Pending(s.tk) != [] && s.tk.event.key == e.key { PendingIsNext(s); }
      DownIsLast(s.world.emitted, e.key);
      OthersPending(s, e.key);
    }
  }

  // ---------------------------------------------------------------- the drain loop

  lemma RestartIsNew(s: State, r: Record)
    requires r.event.pressed && Down(s.world.emitted, r.event.key) == None
    ensures Down(Restarted(s, r).world.emitted, r.event.key) == None
  {
    hide Down;
    DownSnoc(s.world.emitted, Synthetic(MadeUpRelease(s.tk, r.event.time)), r.event.key);
  }

  lemma TurnPairs(env: Env, s: State)
    requires Valid(s) && s.buffer != [] && AllPair(s.tk, s.world.emitted, s.buffer)
    requires forall k :: Alternates(Line(s, k))
    ensures var t := Turned(env, s); AllPair(t.tk, t.world.emitted, t.buffer)
  {
    hide AllPair, Down, ScanTap, Step, Alternates, Line, Following, EventsOf;
    var r, o := s.buffer[0], Step(env, s, s.buffer[0]);
    FirstIsNext(s);
    if Pending(s.tk) != [] { PendingIsNext(s); }
    StepPairs(env, s, r, s.buffer, 0);
    StepKeepsEvents(env, s, r);
    if Scans(env, s, r) {
      var u := Restarted(s, r);
      RestartPairs(s, r, s.buffer);
      RestartIsNew(s, r);
      ScanPairs(env, u);
      assert EventsOf(o.s.buffer)[0] == EventsOf(s.buffer)[0] == r.event;
      AllPressTaken(o.s.tk, o.s.world.emitted, o.s.buffer, 0);
      assert Without(o.s.buffer, 0) == o.s.buffer[1..];
    } else if o.consumed {
      assert Without(s.buffer, 0) == s.buffer[1..];
    }
  }

  lemma {:induction false} DrainPairs(env: Env, s: State)
    requires Valid(s) && AllPair(s.tk, s.world.emitted, s.buffer) && forall k :: Alternates(Line(s, k))
    ensures var t := Drain(env, s); AllPair(t.tk, t.world.emitted, t.buffer)
    decreases |s.buffer|
  {
    hide Step, Line, AllPair, Alternates;
    if s.buffer != [] {
      var t := Turned(env, s);
      forall k ensures Valid(t) && Line(t, k) == Line(s, k) { TurnOrder(env, s, k); }
      TurnPairs(env, s);
      TurnOrder(env, s, s.tk.event.key);
      StepKeepsEvents(env, s, s.buffer[0]);
      if Step(env, s, s.buffer[0]).consumed { DrainPairs(env, t); }
    }
  }

  // ---------------------------------------------------------------- one call

  /** A release does not arrive while another release of its key still waits. */
  ghost predicate ReleaseIsAlone(s: State, e: Event) {
    !e.pressed ==> !ReleaseWaits(s.buffer, e.key)
  }

  lemma ArrivalWaits(s: State, e: Event)
    requires AllPair(s.tk, s.world.emitted, s.buffer) && ReleaseIsAlone(s, e)
    ensures AllPair(s.tk, s.world.emitted, s.buffer + [Fresh(e)])
  {
    hide Down, ReleasedAsPressed;
    var rs := s.buffer + [Fresh(e)];
    forall k ensures KeyPairs(s.tk, s.world.emitted, rs, k) {
      assert KeyPairs(s.tk, s.world.emitted, s.buffer, k);
      if IsTapped(Down(s.world.emitted, k)) {
        var i :| 0 <= i < |s.buffer| && IsRelease(s.buffer[i], k);
        assert rs[i] == s.buffer[i];
      }
    }
    assert OneReleaseEach(rs) by {
      forall i, j | 0 <= i < j < |rs| && !rs[i].event.pressed && !rs[j].event.pressed
        ensures rs[i].event.key != rs[j].event.key
      {
        if j == |s.buffer| { assert !IsRelease(s.buffer[i], e.key); }
      }
    }
  }

  /** The part of a call before the drain loop, for an event that arrives in order. */
  lemma AcceptPairs(env: Env, s: State, e: Event)
    requires Valid(s) && !e.IsTick() && AllPair(s.tk, s.world.emitted, s.buffer) && ReleaseIsAlone(s, e)
    requires ArrivesInOrder(env, s, e) && Follows(Line(s, e.key), e) && forall k :: Alternates(Line(s, k))
    requires Accept(env, s, e).dropped == s.dropped
    ensures var t := Accept(env, s, e); AllPair(t.tk, t.world.emitted, t.buffer)
  {
    hide AllPair, Down, ScanTap, Step, Alternates, Line, Following, EventsOf, Follows, ArrivesInOrder, Waiting;
    var s0, r := Called(s), Fresh(e);
    var o, n := Step(env, s0, r), |s.buffer|;
    ArrivalWaits(s, e);
    SameValid(s);
    if Pending(s.tk) != [] { PendingIsNext(s); }
    if s.tk.event.IsTick() || Following(env, s0, e) {
      TakenAtOnce(env, s0, r);
      TakenFindsNothing(env, s, e);
      ArrivalIsNext(s, e);
    }
    StepPairs(env, s0, r, s.buffer + [r], n);
    StepKeepsEvents(env, s0, r);
    assert Without(s.buffer + [r], n) == s.buffer;
    if Scans(env, s0, r) {
      TakenAtOnce(env, s0, r);
      TakenFindsNothing(env, s, e);
      ArrivalIsNext(s, e);
      var u := Restarted(s0, r);
      RestartPairs(s0, r, s.buffer + [r]);
      RestartIsNew(s0, r);
      AllPressTaken(r, u.world.emitted, s.buffer + [r], n);
      ScanPairs(env, u);
    } else if !o.consumed {
      assert (s.buffer + [r])[n := o.rec] == s.buffer + [o.rec];
    }
  }

  lemma TickPairs(env: Env, s: State, t: Event)
    requires Valid(s) && t.IsTick() && AllPair(s.tk, s.world.emitted, s.buffer)
    requires forall k :: Alternates(Line(s, k))
    ensures var u := Accept(env, s, t); AllPair(u.tk, u.world.emitted, u.buffer)
  {
    hide AllPair, Down, Alternates, Line, EventsOf, WithinTappingTerm;
    if Pending(s.tk) != [] && !s.tk.event.IsTick() {
      PendingIsNext(s);
      AllHeldOut(s.tk, s.tk, s.world.emitted, s.buffer);
    }
    if !s.tk.event.pressed { AllReplaced(s.tk, EMPTY_RECORD, s.world.emitted, s.buffer); }
  }

  /** One call keeps the pairs. */
  lemma ProcessPairs(env: Env, s: State, e: Event)
    requires Valid(s) && AllPair(s.tk, s.world.emitted, s.buffer) && forall k :: Alternates(Line(s, k))
    requires e.IsTick() || (ArrivesInOrder(env, s, e) && ReleaseIsAlone(s, e) && Follows(Line(s, e.key), e))
    requires Process(env, s, e).dropped == s.dropped
    requires forall k :: Alternates(Line(Process(env, s, e), k))
    ensures var t := Process(env, s, e); AllPair(t.tk, t.world.emitted, t.buffer)
  {
    hide AllPair, Accept, Drain, Alternates, Line, ArrivesInOrder, Follows, ReleaseIsAlone;
    var t := Accept(env, s, e);
    DrainDropsNothing(env, t);
    AcceptKeepsValid(env, s, e);
    if e.IsTick() { TickPairs(env, s, e); } else { AcceptPairs(env, s, e); }
    forall k ensures Line(Process(env, s, e), k) == Line(t, k) { DrainOrder(env, t, k); }
    DrainPairs(env, t);
  }

  // ---------------------------------------------------------------- whole runs

  /** The event number `n` of the run is a tick or a press, or no other release of its key waits. */
  ghost predicate ArrivalIsAlone(env: Env, s: State, es: seq<Event>, n: nat)
    requires n < |es|
  {
    es[n].IsTick() || ReleaseIsAlone(Run(env, s, es[..n]), es[n])
  }

  lemma PrefixAlternates(line: seq<Event>, all: seq<Event>)
    requires line <= all && Alternates(all)
    ensures Alternates(line)
  {
  }

  /** After part of a run that is in order, every key's line alternates. */
  lemma LinesAlternate(env: Env, es: seq<Event>, n: nat)
    requires n <= |es| && InOrderAfter(env, INITIAL, es, n) && forall k :: Alternates(OfKey(es, k))
    ensures forall k :: Alternates(Line(Run(env, INITIAL, es[..n]), k))
  {
    hide Run, Line, OfKey, Alternates;
    forall k ensures Alternates(Line(Run(env, INITIAL, es[..n]), k)) {
      NothingAtFirst(k);
      OfKeyPrefix(es, n, k);
      assert Line(INITIAL, k) + OfKey(es[..n], k) == OfKey(es[..n], k);
      PrefixAlternates(OfKey(es[..n], k), OfKey(es, k));
    }
  }

  lemma {:induction false} RunPairs(env: Env, es: seq<Event>, n: nat)
    requires n <= |es| && Run(env, INITIAL, es).dropped == [] && forall k :: Alternates(OfKey(es, k))
    requires forall i: nat :: i < |es| ==> ArrivalInOrder(env, INITIAL, es, i) && ArrivalIsAlone(env, INITIAL, es, i)
    ensures var t := Run(env, INITIAL, es[..n]); AllPair(t.tk, t.world.emitted, t.buffer)
    decreases n
  {
    hide Run, Process, AllPair, Alternates, OfKey, InOrderAfter, Line, Follows, ArrivesInOrder, ReleaseIsAlone;
    if n == 0 {
      StartPairs(env, es);
    } else {
      RunPairs(env, es, n - 1);
      var t, e := Run(env, INITIAL, es[..n - 1]), es[n - 1];
      forall j ensures Line(INITIAL, j) + OfKey(es, j) == OfKey(es, j) { NothingAtFirst(j); }
      KeysKeepTheirOrder(env, INITIAL, es, n);
      assert InOrderAfter(env, INITIAL, es, n - 1) && InOrderAfter(env, INITIAL, es, n);
      LinesAlternate(env, es, n - 1);
      LinesAlternate(env, es, n);
      RunKeepsValid(env, INITIAL, es[..n - 1]);
      RunSnoc(env, INITIAL, es, n - 1);
      NothingLost(env, INITIAL, es, n - 1);
      NothingLost(env, INITIAL, es, n);
      assert ArrivalInOrder(env, INITIAL, es, n - 1) && ArrivalIsAlone(env, INITIAL, es, n - 1);
      if !e.IsTick() { NextFollows(env, INITIAL, es, n - 1); }
      ProcessPairs(env, t, e);
    }
  }

  lemma StartPairs(env: Env, es: seq<Event>)
    ensures var t := Run(env, INITIAL, es[..0]); AllPair(t.tk, t.world.emitted, t.buffer)
  {
    assert es[..0] == [];
  }

  /** A key is released the way it was pressed. Over any run from the start in which every key is pressed
      and released in turn, nothing is lost, every event arrives in order and no release arrives while
      another of its key waits, every real release is passed on with the tap count of its key's press,
      whatever the callbacks answer, unless the engine had made up a release for that press before. */
  lemma KeysAreReleasedAsPressed(env: Env, es: seq<Event>)
    requires Run(env, INITIAL, es).dropped == [] && forall k :: Alternates(OfKey(es, k))
    requires forall i: nat :: i < |es| ==> ArrivalInOrder(env, INITIAL, es, i) && ArrivalIsAlone(env, INITIAL, es, i)
    ensures ReleasedAsPressed(Run(env, INITIAL, es).world.emitted)
  {
    hide Run, ReleasedAsPressed, Alternates, OfKey;
    RunPairs(env, es, |es|);
    assert es[..|es|] == es;
  }

  // ---------------------------------------------------------------- why a release must be alone

  /** Every key is a layer-tap key with a tapping term of 200 ms; QUICK_TAP_TERM is zero and no hold
      option is on. */
  function AllTapHold(): Env {
    Env((w: World, k: KeyPos) => 0xA104, (w: World, r: Record) => 200, (w: World, r: Record) => 0,
        (w: World, r: Record) => false, (w: World, r: Record) => false)
  }

  const Z_DOWN := KeyAt(2, 0, true)
  const X_DOWN := KeyAt(1, 180, true)
  const X_UP := KeyAt(1, 185, false)
  const X_DOWN2 := KeyAt(1, 190, true)
  const Y_DOWN := KeyAt(0, 191, true)
  const Y_UP := KeyAt(0, 192, false)
  const X_UP2 := KeyAt(1, 193, false)
  const X_DOWN3 := KeyAt(1, 205, true)
  const X_UP3 := KeyAt(1, 210, false)
  const TYPED := [Z_DOWN, X_DOWN, X_UP, X_DOWN2, Y_DOWN, Y_UP, X_UP2, X_DOWN3, X_UP3]
  const Z_HELD := Record(Z_DOWN, Tap(true, 0))
  const SIX := [Fresh(X_DOWN), Fresh(X_UP), Fresh(X_DOWN2), Fresh(Y_DOWN), Fresh(Y_UP), Fresh(X_UP2)]
  const SINGLE := Tap(false, 1)

  /** Z is held back alone, or with the first `n` of the six events behind it. */
  ghost predicate ZHoldsBack(s: State, n: nat)
    requires n <= 6
  {
    && s.tk == (if n == 0 then Fresh(Z_DOWN) else Z_HELD) && s.buffer == SIX[..n]
    && s.world.emitted == [] && s.dropped == []
  }

  lemma XIsRefused(t: State)
    requires t.tk == Z_HELD && t.buffer != [] && t.buffer[0] == Fresh(X_DOWN)
    ensures Drain(AllTapHold(), t) == t
  {
    var env := AllTapHold();
    var o := Step(env, t, t.buffer[0]);
    assert !o.consumed && o.s == t && o.rec == t.buffer[0];
    assert o.s.buffer[0 := o.rec] == t.buffer;
  }

  lemma IsTypedBehind(s: State, n: nat)
    requires n < 6 && ZHoldsBack(s, n) && !SIX[n].event.pressed
    ensures Typed(s.buffer, SIX[n].event)
  {
    var i := if n == 5 then 2 else n - 1;
    assert s.buffer[i] == SIX[i] && s.buffer[i].IsFor(SIX[n].event.key);
  }

  lemma OneMoreBehind(s: State, n: nat)
    requires n < 6 && ZHoldsBack(s, n)
    ensures ZHoldsBack(Process(AllTapHold(), s, SIX[n].event), n + 1)
  {
    hide Typed, Drain;
    var e := SIX[n].event;
    if !e.pressed { IsTypedBehind(s, n); }
    assert e.key != Z_DOWN.key && e.time < 200 && !e.IsTick();
    var t := Accept(AllTapHold(), s, e);
    assert t.tk == Z_HELD && t.world.emitted == [] && t.dropped == [];
    assert t.buffer == SIX[..n] + [Fresh(e)] == SIX[..n + 1];
    XIsRefused(t);
  }

  /** Z times out: X is tapped, pressed again, and held back without a look at what waits. */
  lemma XIsHeldBack(s: State)
    requires ZHoldsBack(s, 6)
    ensures var t := Process(AllTapHold(), s, X_DOWN3);
      && t.tk == Record(X_DOWN2, Tap(true, 0)) && t.dropped == []
      && t.buffer == [Fresh(Y_DOWN), Fresh(Y_UP), Fresh(X_UP2), Fresh(X_DOWN3)]
      && t.world.emitted == [Real(Z_HELD), Real(Record(X_DOWN, SINGLE)), Real(Record(X_UP, SINGLE))]
  {
    var env := AllTapHold();
    var t := Accept(env, s, X_DOWN3);
    assert t.tk == EMPTY_RECORD && t.world.emitted == [Real(Z_HELD)];
    assert t.buffer == SIX + [Fresh(X_DOWN3)];
    XIsTapped(t);
    var u := Turned(env, t);
    assert u.buffer == [Record(X_UP, SINGLE), Fresh(X_DOWN2), Fresh(Y_DOWN), Fresh(Y_UP), Fresh(X_UP2), Fresh(X_DOWN3)];
    XIsReleased(u);
    var v := Turned(env, u);
    assert v.buffer == [Fresh(X_DOWN2), Fresh(Y_DOWN), Fresh(Y_UP), Fresh(X_UP2), Fresh(X_DOWN3)];
    hide Step, Drain;
    TurnsOn(env, t);
    TurnsOn(env, u);
    XStartsAnew(v);
  }

  lemma XIsReleased(u: State)
    requires u.tk == Record(X_DOWN, SINGLE) && u.buffer != [] && u.buffer[0] == Record(X_UP, SINGLE)
    ensures var o := Step(AllTapHold(), u, u.buffer[0]);
      && o.consumed && o.s.tk == Record(X_UP, SINGLE) && o.s.world.emitted == u.world.emitted + [Real(u.buffer[0])]
      && o.s.buffer == u.buffer && o.s.dropped == u.dropped
  {
  }

  lemma XStartsAnew(v: State)
    requires v.tk == Record(X_UP, SINGLE)
    requires v.buffer == [Fresh(X_DOWN2), Fresh(Y_DOWN), Fresh(Y_UP), Fresh(X_UP2), Fresh(X_DOWN3)]
    ensures Drain(AllTapHold(), v) == v.(tk := Record(X_DOWN2, Tap(true, 0)), buffer := v.buffer[1..])
  {
    var env := AllTapHold();
    var w := Turned(env, v);
    assert w == v.(tk := Fresh(X_DOWN2), buffer := v.buffer[1..]);
    var o := Step(env, w, w.buffer[0]);
    assert !o.consumed && o.s.buffer[0 := o.rec] == w.buffer;
    assert Drain(env, v) == Drain(env, w);
  }

  lemma XIsTapped(t: State)
    requires t.tk == EMPTY_RECORD && t.buffer == SIX + [Fresh(X_DOWN3)] && t.world.emitted == [Real(Z_HELD)]
    ensures var o := Step(AllTapHold(), t, t.buffer[0]); var tk := Record(X_DOWN, SINGLE);
      && o.consumed && o.s.tk == tk && o.s.world.emitted == t.world.emitted + [Real(tk)]
      && o.s.buffer == t.buffer[1 := Record(X_UP, SINGLE)] && o.s.dropped == t.dropped
  {
    var env, s := AllTapHold(), t.(tk := Fresh(X_DOWN));
    assert FindRelease(env, s.world, s.tk, s.buffer, 0) == 1 by {
      assert !Completes(env, s.world, s.tk, s.buffer[0]) && Completes(env, s.world, s.tk, s.buffer[1]);
    }
  }

  lemma YIsTapped(t: State)
    requires t.tk == Record(X_DOWN2, Tap(true, 1))
    requires t.buffer == [Fresh(Y_DOWN), Fresh(Y_UP), Fresh(X_UP2), Fresh(X_DOWN3), Record(X_UP3, Tap(true, 1))]
    ensures var o := Step(AllTapHold(), t, t.buffer[0]); var tk := Record(Y_DOWN, SINGLE);
      && o.consumed && o.s.tk == tk && o.s.world.emitted == t.world.emitted + [Real(tk)]
      && o.s.buffer == t.buffer[1 := Record(Y_UP, SINGLE)]
  {
    var env, s := AllTapHold(), t.(tk := Fresh(Y_DOWN));
    assert FindRelease(env, s.world, s.tk, s.buffer, 0) == 1 by {
      assert !Completes(env, s.world, s.tk, s.buffer[0]) && Completes(env, s.world, s.tk, s.buffer[1]);
    }
  }

  const PASSED_ON := [
    Real(Z_HELD), Real(Record(X_DOWN, SINGLE)), Real(Record(X_UP, SINGLE)), Real(Record(X_DOWN2, Tap(true, 1))),
    Real(Record(Y_DOWN, SINGLE)), Real(Record(Y_UP, SINGLE)), Real(Fresh(X_UP2))]

  /** Y is tapped while X is settled as a tap by its third release, and its second one still waits. */
  lemma YTakesOver(t: State)
    requires t.tk == Record(X_DOWN2, Tap(true, 1)) && t.world.emitted == PASSED_ON[..4]
    requires t.buffer == [Fresh(Y_DOWN), Fresh(Y_UP), Fresh(X_UP2), Fresh(X_DOWN3), Record(X_UP3, Tap(true, 1))]
    ensures PASSED_ON <= Drain(AllTapHold(), t).world.emitted
  {
    var env := AllTapHold();
    YIsTapped(t);
    var u := Turned(env, t);
    assert u.buffer == [Record(Y_UP, SINGLE), Fresh(X_UP2), Fresh(X_DOWN3), Record(X_UP3, Tap(true, 1))];
    YIsReleased(u);
    var v := Turned(env, u);
    assert v.buffer == [Fresh(X_UP2), Fresh(X_DOWN3), Record(X_UP3, Tap(true, 1))];
    XComesOut(v);
    var w := Turned(env, v);
    hide Step, Drain;
    TurnsOn(env, t);
    TurnsOn(env, u);
    TurnsOn(env, v);
    DrainExtends(env, w);
  }

  lemma TurnsOn(env: Env, s: State)
    requires s.buffer != [] && Step(env, s, s.buffer[0]).consumed
    ensures Drain(env, s) == Drain(env, Turned(env, s))
  {
    hide Step;
    StepKeepsEvents(env, s, s.buffer[0]);
  }

  lemma YIsReleased(u: State)
    requires u.tk == Record(Y_DOWN, SINGLE) && u.world.emitted == PASSED_ON[..5]
    requires u.buffer != [] && u.buffer[0] == Record(Y_UP, SINGLE)
    ensures var o := Step(AllTapHold(), u, u.buffer[0]);
      && o.consumed && o.s.tk == Record(Y_UP, SINGLE) && o.s.world.emitted == PASSED_ON[..6]
      && o.s.buffer == u.buffer
  {
  }

  lemma XComesOut(v: State)
    requires v.tk == Record(Y_UP, SINGLE) && v.world.emitted == PASSED_ON[..6]
    requires v.buffer != [] && v.buffer[0] == Fresh(X_UP2)
    ensures var o := Step(AllTapHold(), v, v.buffer[0]); o.consumed && o.s.world.emitted == PASSED_ON
  {
  }

  /** X comes up for the third time while its second release still waits: X is settled as a tap by the
      wrong release, Y takes the place of X, and X's own release comes out as that of a hold. */
  lemma XIsReleasedAsHold(s: State)
    requires s.tk == Record(X_DOWN2, Tap(true, 0))
    requires s.buffer == [Fresh(Y_DOWN), Fresh(Y_UP), Fresh(X_UP2), Fresh(X_DOWN3)]
    requires s.world.emitted == PASSED_ON[..3]
    ensures var t := Process(AllTapHold(), s, X_UP3); PASSED_ON <= t.world.emitted && t.dropped == s.dropped
  {
    hide Drain;
    var env := AllTapHold();
    var t := Accept(env, s, X_UP3);
    assert t.tk == Record(X_DOWN2, Tap(true, 1)) && t.world.emitted == PASSED_ON[..4];
    assert t.buffer == [Fresh(Y_DOWN), Fresh(Y_UP), Fresh(X_UP2), Fresh(X_DOWN3), Record(X_UP3, Tap(true, 1))];
    YTakesOver(t);
    DrainDropsNothing(env, t);
  }

  lemma {:induction false} RunHoldsBack(n: nat)
    requires n <= 6
    ensures ZHoldsBack(Run(AllTapHold(), INITIAL, TYPED[..n + 1]), n)
    decreases n
  {
    hide Run, Process;
    var env := AllTapHold();
    RunSnoc(env, INITIAL, TYPED, n);
    if n == 0 {
      ZStarts();
    } else {
      RunHoldsBack(n - 1);
      OneMoreBehind(Run(env, INITIAL, TYPED[..n]), n - 1);
      assert TYPED[n] == SIX[n - 1].event;
    }
  }

  lemma ZStarts()
    ensures ZHoldsBack(Process(AllTapHold(), Run(AllTapHold(), INITIAL, TYPED[..0]), TYPED[0]), 0)
  {
    assert TYPED[..0] == [];
    assert SIX[..0] == [];
  }

  lemma HeldBackIsInOrder(s: State, e: Event)
    requires Pending(s.tk) != [] && !s.tk.event.IsTick()
    ensures ArrivesInOrder(AllTapHold(), s, e)
  {
  }

  lemma XDoesNotMatch(em: seq<Emission>)
    requires PASSED_ON <= em
    ensures !ReleasedAsPressed(em)
  {
    hide Down;
    var k := X_DOWN.key;
    assert em[..6] == em[..4] + [em[4]] + [em[5]] && em[..4] == em[..3] + [em[3]];
    DownSnoc(em[..4] + [em[4]], em[5], k);
    DownSnoc(em[..4], em[4], k);
    DownSnoc(em[..3], em[3], k);
    assert Down(em[..6], k) == Some(Record(X_DOWN2, Tap(true, 1)));
    assert !Matches(em[..6], em[6].record);
  }

  /** That no release may arrive while another of its key waits is needed: with callbacks that never change
      their answers, nine events that all arrive in order and of which none is lost, after which X has been
      pressed as a tap and released as a hold. */
  lemma ReleaseMustBeAlone()
    ensures forall k :: Alternates(OfKey(TYPED, k))
    ensures forall i: nat :: i < |TYPED| ==> ArrivalInOrder(AllTapHold(), INITIAL, TYPED, i)
    ensures Run(AllTapHold(), INITIAL, TYPED).dropped == []
    ensures !ReleasedAsPressed(Run(AllTapHold(), INITIAL, TYPED).world.emitted)
  {
    hide Run, Process, ArrivesInOrder, ReleasedAsPressed, Alternates, OfKey;
    var env := AllTapHold();
    forall k ensures Alternates(OfKey(TYPED, k)) { TypedAlternates(k); }
    forall i: nat | i < |TYPED| - 1 ensures ArrivalInOrder(env, INITIAL, TYPED, i) {
      if i == 0 {
        FirstIsInOrder();
      } else {
        RunHoldsBack(i - 1);
        HeldBackIsInOrder(Run(env, INITIAL, TYPED[..i]), TYPED[i]);
      }
    }
    var s := Run(env, INITIAL, TYPED[..7]);
    RunHoldsBack(6);
    RunSnoc(env, INITIAL, TYPED, 7);
    XIsHeldBack(s);
    var t := Run(env, INITIAL, TYPED[..8]);
    HeldBackIsInOrder(t, X_UP3);
    RunSnoc(env, INITIAL, TYPED, 8);
    XIsReleasedAsHold(t);
    assert TYPED[..9] == TYPED;
    XDoesNotMatch(Run(env, INITIAL, TYPED).world.emitted);
  }

  lemma {:induction false} TypedSoFar(k: KeyPos, n: nat)
    requires n <= 9
    ensures OfKey(TYPED[..n], k) ==
      if k == X_DOWN.key then
        [X_DOWN, X_UP, X_DOWN2, X_UP2, X_DOWN3, X_UP3][..
          if n < 2 then 0 else if n < 5 then n - 1 else if n < 7 then 3 else n - 3]
      else if k == Y_DOWN.key then [Y_DOWN, Y_UP][..if n < 5 then 0 else if n == 5 then 1 else 2]
      else if k == Z_DOWN.key then [Z_DOWN][..if n == 0 then 0 else 1]
      else []
    decreases n
  {
    hide OfKey;
    if n == 0 {
      assert TYPED[..0] == [];
      OfKeyNone(k);
    } else {
      TypedSoFar(k, n - 1);
      assert TYPED[..n] == TYPED[..n - 1] + [TYPED[n - 1]];
      OfKeySnoc(TYPED[..n - 1], TYPED[n - 1], k);
    }
  }

  lemma TypedAlternates(k: KeyPos)
    ensures Alternates(OfKey(TYPED, k))
  {
    hide OfKey;
    TypedSoFar(k, 9);
    assert TYPED[..9] == TYPED;
  }

  lemma FirstIsInOrder()
    ensures ArrivalInOrder(AllTapHold(), INITIAL, TYPED, 0)
  {
    assert TYPED[..0] == [];
    assert EventsOf([]) == [];
  }
}
