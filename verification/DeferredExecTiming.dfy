/** Timing of the deferred executor: wrapped comparisons against real time, drift-free repetition, and
    what becomes of jobs that callbacks queue. */
module DeferredExecTiming {
  import opened Words
  import opened DeferredExec
  import opened DeferredExecTheorems

  // ---------------------------------------------------------------- wrapped time against real time

  function Reading(t: nat): Word32 {
    t % 0x1_0000_0000
  }

  /** The signed 32-bit test says that a trigger is reached exactly when the real times agree modulo
      2^32 or the wrapped lead of the trigger is at least 2^31. */
  lemma DueTest(trigger: nat, now: nat)
    ensures Signed32(Diff32(Reading(trigger), Reading(now))) <= 0
       <==> ((trigger - now) % 0x1_0000_0000 == 0 || (trigger - now) % 0x1_0000_0000 >= 0x8000_0000)
  {
    ModDifference(trigger, now);
  }

  lemma ModDifference(a: nat, b: nat)
    ensures Diff32(Reading(a), Reading(b)) == (a - b) % 0x1_0000_0000
  {
    var m := 0x1_0000_0000;
    var q, r := a / m, b / m;
    assert a - b == Reading(a) - Reading(b) + (q - r) * m;
    ModShift(Reading(a) - Reading(b), q - r);
  }

  lemma ModShift(x: int, k: int)
    ensures (x + k * 0x1_0000_0000) % 0x1_0000_0000 == x % 0x1_0000_0000
  {
    var m := 0x1_0000_0000;
    assert x + k * m == (x / m + k) * m + x % m;
  }

  /** While trigger and clock are less than 2^31 ms apart, the test is the comparison of real times. */
  lemma DueIsReached(trigger: nat, now: nat)
    requires -0x8000_0000 < trigger - now < 0x8000_0000
    ensures Signed32(Diff32(Reading(trigger), Reading(now))) == trigger - now
  {
    hide Diff32, Reading;
    ModDifference(trigger, now);
    if trigger < now { ModShift(trigger - now, 1); }
  }

  // ---------------------------------------------------------------- what is due fires

  /** No callback of another row extends or cancels `token`. */
  ghost predicate OthersSpare(env: Env, token: Byte) {
    forall s: State, e: Entry :: e.token != token ==> AllSpare(env.script(s, e), token)
  }

  lemma VisitByOthers(env: Env, s: State, now: Word32, i: nat, j: nat)
    requires i < |s.table| && j < |s.table| && i != j && ValidTable(s.table)
    requires s.table[j].token != INVALID_TOKEN && OthersSpare(env, s.table[j].token)
    ensures Visit(env, s, now, i).table[j] == s.table[j]
  {
    hide ApplyAll;
    var e := s.table[i];
    if Due(e, now) {
      assert e.token != s.table[j].token;
      ApplyAllSpares(s, env.script(s, e), j);
    }
  }

  /** A row is found by its visit as it was at the start of the pass, if no other callback names it. */
  lemma {:induction false} FoundAsLeft(env: Env, s: State, now: Word32, n: nat, j: nat)
    requires n <= j < |s.table| && ValidTable(s.table)
    requires s.table[j].token != INVALID_TOKEN && OthersSpare(env, s.table[j].token)
    ensures Visits(env, s, now, 0, n).table[j] == s.table[j]
    decreases n
  {
    hide Visit, ValidTable, OthersSpare;
    if n > 0 {
      FoundAsLeft(env, s, now, n - 1, j);
      VisitsSnoc(env, s, now, 0, n - 1);
      VisitsKeepValid(env, s, now, 0, n - 1);
      VisitByOthers(env, Visits(env, s, now, 0, n - 1), now, n - 1, j);
    }
  }

  /** Every row that is live and due when a pass starts, and that no other callback names, fires in
      that pass exactly once, with its own trigger time. */
  lemma DueFiresOnce(env: Env, s: State, now: Word32, j: nat)
    requires j < |s.table| && ValidTable(s.table) && Due(s.table[j], now) && OthersSpare(env, s.table[j].token)
    ensures var log := Pass(env, s, now).log;
      && (exists k :: |s.log| <= k < |log| && log[k].slot == j && log[k].entry == s.table[j])
      && (forall k, l :: |s.log| <= k < l < |log| && log[k].slot == j ==> log[l].slot != j)
  {
    hide Pass, Visits, OthersSpare, ValidTable;
    FoundAsLeft(env, s, now, j, j);
    PassFiresDueOnce(env, s, now);
    var log := Pass(env, s, now).log;
    assert AtVisit(env, s, now, j) == s.table[j];
    var k :| |s.log| <= k < |log| && log[k].slot == j;
    assert log[k].entry == s.table[j];
  }

  /** The firings of row `j` from index `b` on. */
  function FiringsOf(log: seq<Firing>, b: nat, j: nat): nat
    requires b <= |log|
    decreases |log|
  {
    if |log| == b then 0 else FiringsOf(log[..|log| - 1], b, j) + if log[|log| - 1].slot == j then 1 else 0
  }

  lemma {:induction false} NoFirings(log: seq<Firing>, b: nat, j: nat)
    requires b <= |log| && forall k :: b <= k < |log| ==> log[k].slot != j
    ensures FiringsOf(log, b, j) == 0
    decreases |log|
  {
    if |log| > b { NoFirings(log[..|log| - 1], b, j); }
  }

  lemma {:induction false} OneFiring(log: seq<Firing>, b: nat, j: nat, k: nat)
    requires b <= k < |log| && log[k].slot == j && forall l :: b <= l < |log| && l != k ==> log[l].slot != j
    ensures FiringsOf(log, b, j) == 1
    decreases |log|
  {
    if k == |log| - 1 { NoFirings(log[..k], b, j); } else { OneFiring(log[..|log| - 1], b, j, k); }
  }

  lemma NotDueDoesNotFire(env: Env, s: State, now: Word32, log: seq<Firing>, b: nat, j: nat)
    requires j < |s.table| && FiresWhatIsDue(env, s, now, |s.table|, log, b) && !Due(AtVisit(env, s, now, j), now)
    ensures forall k :: b <= k < |log| ==> log[k].slot != j
  {
    hide Due, AtVisit;
  }

  /** When a job is called back, in real time: a live row that no other callback names, and whose trigger is
      the real time `t`, is called back by the pass at real time `now` exactly once if that time has come,
      and not at all if it has not, as long as the two are less than 2^31 ms apart. */
  lemma PassFollowsClock(env: Env, s: State, j: nat, t: nat, now: nat)
    requires j < |s.table| && ValidTable(s.table) && s.table[j].token != INVALID_TOKEN
    requires OthersSpare(env, s.table[j].token)
    requires s.table[j].trigger == Reading(t) && -0x8000_0000 < t - now < 0x8000_0000
    ensures var log := Pass(env, s, Reading(now)).log;
      |s.log| <= |log| && FiringsOf(log, |s.log|, j) == if t <= now then 1 else 0
  {
    hide Pass, Visits, OthersSpare, ValidTable, FiringsOf;
    var r := Reading(now);
    var log, b := Pass(env, s, r).log, |s.log|;
    DueIsReached(t, now);
    FoundAsLeft(env, s, r, j, j);
    PassFiresDueOnce(env, s, r);
    assert AtVisit(env, s, r, j) == s.table[j];
    if t <= now {
      var k :| b <= k < |log| && log[k].slot == j;
      OneFiring(log, b, j, k);
    } else {
      NotDueDoesNotFire(env, s, r, log, b, j);
      NoFirings(log, b, j);
    }
  }

  // ---------------------------------------------------------------- repetition without drift

  /** The sum of the delays returned by the firings of row `j`. */
  function SumDelays(log: seq<Firing>, j: nat): nat {
    if log == [] then 0
    else SumDelays(log[..|log| - 1], j) + (if log[|log| - 1].slot == j then log[|log| - 1].delay else 0)
  }

  /** Row `j` still holds the job `e0` it held when the log had `b` entries, its trigger has moved by
      exactly the delays returned since, and each of its firings since had the trigger so reached. */
  ghost predicate OnSchedule(s: State, j: nat, e0: Entry, b: nat) {
    && j < |s.table| && b <= |s.log|
    && s.table[j] == e0.(trigger := (e0.trigger + SumDelays(s.log[b..], j)) % 0x1_0000_0000)
    && LogOnSchedule(s.log, j, e0, b)
  }

  ghost predicate LogOnSchedule(log: seq<Firing>, j: nat, e0: Entry, b: nat) {
    forall k :: b <= k < |log| && log[k].slot == j ==>
      log[k].entry == e0.(trigger := (e0.trigger + SumDelays(log[b..k], j)) % 0x1_0000_0000)
  }

  /** The callback of `token` always asks to be called again. */
  ghost predicate Repeats(env: Env, token: Byte) {
    forall s: State, e: Entry :: e.token == token ==> env.delay(s, e) > 0
  }

  lemma SumSnoc(log: seq<Firing>, b: nat, f: Firing, j: nat)
    requires b <= |log|
    ensures SumDelays((log + [f])[b..], j) == SumDelays(log[b..], j) + (if f.slot == j then f.delay else 0)
  {
    assert (log + [f])[b..][..|log| - b] == log[b..];
  }

  lemma LogSnoc(log: seq<Firing>, f: Firing, j: nat, e0: Entry, b: nat)
    requires b <= |log| && LogOnSchedule(log, j, e0, b)
    requires f.slot == j ==> f.entry == e0.(trigger := (e0.trigger + SumDelays(log[b..], j)) % 0x1_0000_0000)
    ensures LogOnSchedule(log + [f], j, e0, b)
  {
    hide SumDelays;
    forall k | b <= k < |log| + 1 ensures (log + [f])[b..k] == log[b..k] {}
  }

  lemma VisitOnSchedule(env: Env, s: State, now: Word32, i: nat, j: nat, e0: Entry, b: nat)
    requires i < |s.table| && OnSchedule(s, j, e0, b) && e0.token != INVALID_TOKEN
    requires CallbacksSpare(env, e0.token) && Repeats(env, e0.token)
    ensures OnSchedule(Visit(env, s, now, i), j, e0, b)
  {
    hide ApplyAll, SumDelays, Due, CallbacksSpare, SpareAfter, LogOnSchedule;
    var t := Visit(env, s, now, i);
    VisitLog(env, s, now, i);
    SpareAlways(env, e0.token, s.log, |s.log| + 1);
    VisitSpares(env, s, now, i, j);
    if Due(s.table[i], now) {
      var e := s.table[i];
      assert AllSpare(env.script(s, e), e0.token) by { SparedScript(env, s, e, e0.token); }
      ApplyAllSpares(s, env.script(s, e), j);
      SumSnoc(s.log, b, Firing(i, e, env.delay(s, e)), j);
      LogSnoc(s.log, Firing(i, e, env.delay(s, e)), j, e0, b);
      if i == j {
        AddTwice(e0.trigger, SumDelays(s.log[b..], j), env.delay(s, e));
      }
    }
  }

  lemma SpareAlways(env: Env, token: Byte, log: seq<Firing>, end: nat)
    requires CallbacksSpare(env, token)
    ensures SpareAfter(env, token, log, end)
  {
  }

  lemma SparedScript(env: Env, s: State, e: Entry, token: Byte)
    requires CallbacksSpare(env, token)
    ensures AllSpare(env.script(s, e), token)
  {
  }

  lemma AddTwice(a: Word32, x: nat, d: Word32)
    ensures Add32((a + x) % 0x1_0000_0000, d) == (a + (x + d)) % 0x1_0000_0000
  {
    var q := (a + x) / 0x1_0000_0000;
    ModShift((a + x) % 0x1_0000_0000 + d, q);
  }

  lemma {:induction false} VisitsOnSchedule(env: Env, s: State, now: Word32, i: nat, n: nat, j: nat, e0: Entry, b: nat)
    requires i <= n <= |s.table| && OnSchedule(s, j, e0, b) && e0.token != INVALID_TOKEN
    requires CallbacksSpare(env, e0.token) && Repeats(env, e0.token)
    ensures OnSchedule(Visits(env, s, now, i, n), j, e0, b)
    decreases n - i
  {
    hide Visit, OnSchedule, CallbacksSpare, Repeats;
    if i < n {
      VisitOnSchedule(env, s, now, i, j, e0, b);
      VisitsOnSchedule(env, Visit(env, s, now, i), now, i + 1, n, j, e0, b);
    }
  }

  /** A repeating job that nobody extends or cancels is never lost and never drifts: after any run of
      passes, however late each came, and any other API calls, its trigger is its first trigger plus
      the delays it has returned, and so was the trigger of each of its calls. */
  lemma {:induction false} RepeatsWithoutDrift(env: Env, s: State, steps: seq<Step>, j: nat, e0: Entry, b: nat)
    requires OnSchedule(s, j, e0, b) && e0.token != INVALID_TOKEN
    requires CallbacksSpare(env, e0.token) && Repeats(env, e0.token)
    requires forall k :: 0 <= k < |steps| && steps[k].Call? ==> Spares(steps[k].op, e0.token)
    ensures OnSchedule(Run(env, s, steps), j, e0, b)
    decreases |steps|
  {
    hide Visits, SumDelays, CallbacksSpare, Repeats;
    if steps != [] {
      match steps[0]
      case Call(op) =>
        hide Apply;
        ApplySpares(s, op, j);
        RepeatsWithoutDrift(env, Apply(s, op), steps[1..], j, e0, b);
      case Task(now) =>
        hide OnSchedule;
        assert j < |s.table| by { OnScheduleRow(s, j, e0, b); }
        VisitsOnSchedule(env, s, now, 0, |s.table|, j, e0, b);
        RepeatsWithoutDrift(env, Pass(env, s, now), steps[1..], j, e0, b);
    }
  }

  lemma OnScheduleRow(s: State, j: nat, e0: Entry, b: nat)
    requires OnSchedule(s, j, e0, b)
    ensures j < |s.table|
  {
  }

  /** A callback that returns zero, and does not touch its own job, has fired for the last time: its
      row is cleared. */
  lemma OneShotEnds(env: Env, s: State, now: Word32, i: nat)
    requires i < |s.table| && Due(s.table[i], now) && env.delay(s, s.table[i]) == 0
    requires AllSpare(env.script(s, s.table[i]), s.table[i].token)
    ensures Visit(env, s, now, i).table[i] == FREE
  {
    hide ApplyAll;
    ApplyAllSpares(s, env.script(s, s.table[i]), i);
  }

  /** Extending or cancelling a job that is in a valid table changes its row as asked, and no other. */
  lemma OnlyItsOwnRow(s: State, i: nat, time: Word32, delay: Word32)
    requires i < |s.table| && ValidTable(s.table) && s.table[i].token != INVALID_TOKEN && delay > 0
    ensures var token := s.table[i].token;
      && Apply(s, Extend(time, token, delay)) == s.(table := s.table[i := s.table[i].(trigger := Add32(time, delay))])
      && Result(s, Extend(time, token, delay)) == 1
      && Apply(s, Cancel(token)) == s.(table := s.table[i := FREE]) && Result(s, Cancel(token)) == 1
  {
    assert Find(s.table, s.table[i].token, 0) == i;
  }

  // ---------------------------------------------------------------- jobs queued by callbacks

  /** A job queued `elapsed` ms after the pass read its clock is not due for that pass, exactly when
      the elapsed time and the delay together do not reach half the range of the clock. */
  lemma QueuedIsNotDue(now: nat, elapsed: nat, delay: Word32)
    requires delay > 0 && elapsed + delay < 0x1_0000_0000
    ensures Signed32(Diff32(Add32(Reading(now + elapsed), delay), Reading(now))) > 0 <==> elapsed + delay < 0x8000_0000
  {
    ModShift(Reading(now + elapsed) + delay, (now + elapsed) / 0x1_0000_0000);
    assert Add32(Reading(now + elapsed), delay) == Reading(now + elapsed + delay);
    DueTest(now + elapsed + delay, now);
  }

  lemma DueIsLive(e: Entry, now: Word32)
    requires Due(e, now)
    ensures e.token != INVALID_TOKEN
  {
  }

  lemma NotDue(e: Entry, now: Word32)
    requires Signed32(Diff32(e.trigger, now)) > 0
    ensures !Due(e, now)
  {
  }

  /** Every token that allocate_token would try before `token` is in use. */
  ghost predicate NoneBefore(table: Table, current: Byte, token: Byte) {
    forall t: Byte :: Offset(Next(current), t) < Offset(Next(current), token) ==> !CanBeUsed(table, t)
  }

  lemma AllocateIs(table: Table, current: Byte, token: Byte)
    requires CanBeUsed(table, token)
    ensures Allocate(table, current) == token <==> NoneBefore(table, current, token)
  {
    hide Allocate, CanBeUsed;
    AllocateIsFirst(table, current);
  }

  lemma {:induction false} ApplyAllSplit(s: State, ops: seq<Op>, a: nat)
    requires a < |ops|
    ensures ApplyAll(s, ops) == ApplyAll(Apply(ApplyAll(s, ops[..a]), ops[a]), ops[a + 1..])
    decreases a
  {
    hide Apply;
    if a > 0 {
      ApplyAllSplit(Apply(s, ops[0]), ops[1..], a - 1);
      assert ops[..a][1..] == ops[1..][..a - 1] && ops[1..][a..] == ops[a + 1..];
    }
  }

  /** The state in which the callback of row `i` makes its call number `a`. */
  function AtCall(env: Env, s: State, i: nat, a: nat): State
    requires i < |s.table| && a < |env.script(s, s.table[i])|
  {
    ApplyAll(s, env.script(s, s.table[i])[..a])
  }

  /** The call number `a` of the callback of row `i` queues a job, and the calls behind it let it stand. */
  ghost predicate QueuesAt(env: Env, s: State, i: nat, a: nat) {
    && i < |s.table| && a < |env.script(s, s.table[i])|
    && var ops := env.script(s, s.table[i]); var u := AtCall(env, s, i, a);
      ops[a].Defer? && DeferAccepted(u, ops[a]) && AllSpare(ops[a + 1..], Result(u, ops[a]))
  }

  /** The row the queued job goes to, and the job. */
  function QueueRow(env: Env, s: State, i: nat, a: nat): nat
    requires QueuesAt(env, s, i, a)
  {
    Find(AtCall(env, s, i, a).table, INVALID_TOKEN, 0)
  }

  function QueuedJob(env: Env, s: State, i: nat, a: nat): Entry
    requires QueuesAt(env, s, i, a)
  {
    var op, u := env.script(s, s.table[i])[a], AtCall(env, s, i, a);
    Entry(Result(u, op), Add32(op.time, op.delay), op.callback, op.arg)
  }

  /** What the caller of defer_exec can see before it calls: its own row is free and no row before it is,
      and its own old token is the next to be handed out. */
  ghost predicate TakesOldPlace(u: State, i: nat, token: Byte)
    requires i < |u.table|
  {
    && u.table[i].token == INVALID_TOKEN && (forall j :: 0 <= j < i ==> u.table[j].token != INVALID_TOKEN)
    && CanBeUsed(u.table, token) && NoneBefore(u.table, u.current, token)
  }

  lemma JobIsQueued(env: Env, s: State, i: nat, a: nat)
    requires QueuesAt(env, s, i, a)
    ensures var t := ApplyAll(s, env.script(s, s.table[i])); var k := QueueRow(env, s, i, a);
      && k < |s.table| && t.table[k] == QueuedJob(env, s, i, a) && QueuedJob(env, s, i, a).token != INVALID_TOKEN
  {
    hide Allocate, AllSpare;
    var ops, u := env.script(s, s.table[i]), AtCall(env, s, i, a);
    ApplyAllSplit(s, ops, a);
    ApplyAllSpares(Apply(u, ops[a]), ops[a + 1..], QueueRow(env, s, i, a));
  }

  lemma SamePlace(env: Env, s: State, i: nat, a: nat)
    requires QueuesAt(env, s, i, a) && s.table[i].token != INVALID_TOKEN
    ensures TakesOldPlace(AtCall(env, s, i, a), i, s.table[i].token)
       <==> QueueRow(env, s, i, a) == i && QueuedJob(env, s, i, a).token == s.table[i].token
  {
    hide Allocate, AllSpare, CanBeUsed, NoneBefore, ApplyAll;
    var u, token := AtCall(env, s, i, a), s.table[i].token;
    AllocateIsFirst(u.table, u.current);
    if CanBeUsed(u.table, token) { AllocateIs(u.table, u.current, token); }
  }

  lemma AnotherTrigger(trigger: Word32, delay: Word32)
    requires delay > 0
    ensures Add32(trigger, delay) != trigger
  {
  }

  /** Exactly when a job queued by a callback outlives the visit of the callback's own row: a callback may
      make any calls before and after, as long as those after do not name the new job. It is kept as it
      was queued unless it takes the old job's place, row and token. Then the test for a changed token does
      not see the difference, and the delay that the callback returns is applied to the new job: it shifts
      its trigger, or erases it if it is zero. */
  lemma RequeueSurvives(env: Env, s: State, now: Word32, i: nat, a: nat)
    requires QueuesAt(env, s, i, a) && Due(s.table[i], now)
    ensures var k := QueueRow(env, s, i, a); var job := QueuedJob(env, s, i, a);
      var t := Visit(env, s, now, i); var delay := env.delay(s, s.table[i]);
      && k < |s.table|
      && (t.table[k] == job <==> !TakesOldPlace(AtCall(env, s, i, a), i, s.table[i].token))
      && (t.table[k] != job ==> t.table[k] == if delay > 0 then job.(trigger := Add32(job.trigger, delay)) else FREE)
  {
    hide ApplyAll, QueueRow, QueuedJob, TakesOldPlace, AtCall;
    DueIsLive(s.table[i], now);
    JobIsQueued(env, s, i, a);
    SamePlace(env, s, i, a);
    var delay := env.delay(s, s.table[i]);
    if delay > 0 { AnotherTrigger(QueuedJob(env, s, i, a).trigger, delay); }
  }

  /** A job that a callback queues waits for a later pass, whatever else the callback calls: unless it
      takes the old job's place, it stands untouched in its row when the pass ends and has not fired, if
      no later callback of this pass names it and its delay and the time since the pass began stay below 2^31 ms. */
  lemma QueuedByCallbackWaits(env: Env, s: State, now: nat, i: nat, a: nat, elapsed: nat)
    requires QueuesAt(env, s, i, a) && Due(s.table[i], Reading(now))
    requires !TakesOldPlace(AtCall(env, s, i, a), i, s.table[i].token)
    requires var op := env.script(s, s.table[i])[a];
      op.time == Reading(now + elapsed) && elapsed + op.delay < 0x8000_0000
    requires var firing := Firing(i, s.table[i], env.delay(s, s.table[i]));
      SpareAfter(env, QueuedJob(env, s, i, a).token, s.log + [firing], |s.log| + |s.table| - i)
    ensures var k := QueueRow(env, s, i, a); var t := Visits(env, s, Reading(now), i, |s.table|);
      && k < |s.table| && t.table[k] == QueuedJob(env, s, i, a)
      && s.log < t.log && t.log[|s.log|].slot == i
      && forall l :: |s.log| < l < |t.log| ==> t.log[l].slot != k
  {
    hide Visit, SpareAfter, Due, QueueRow, QueuedJob, TakesOldPlace, AtCall, ApplyAll;
    var job, k := QueuedJob(env, s, i, a), QueueRow(env, s, i, a);
    var u := Visit(env, s, Reading(now), i);
    VisitLog(env, s, Reading(now), i);
    RequeueSurvives(env, s, Reading(now), i, a);
    JobIsQueued(env, s, i, a);
    JobIsNotDue(env, s, now, i, a, elapsed);
    NotDueWaits(env, u, Reading(now), i + 1, |s.table|, k);
  }

  lemma JobIsNotDue(env: Env, s: State, now: nat, i: nat, a: nat, elapsed: nat)
    requires QueuesAt(env, s, i, a)
    requires var op := env.script(s, s.table[i])[a];
      op.time == Reading(now + elapsed) && elapsed + op.delay < 0x8000_0000
    ensures !Due(QueuedJob(env, s, i, a), Reading(now))
  {
    hide Due, ApplyAll, Allocate, AllSpare;
    QueuedIsNotDue(now, elapsed, env.script(s, s.table[i])[a].delay);
    NotDue(QueuedJob(env, s, i, a), Reading(now));
  }

  // ---------------------------------------------------------------- a job that is lost

  /** A callback that cancels its own job and queues a new one, and asks for no repetition. */
  function Replaces(): Env {
    Env((s: State, e: Entry) => [Cancel(e.token), Defer(100, 50, 1, 0)], (s: State, e: Entry) => 0)
  }

  const OLD_JOB := Entry(5, 90, 1, 0)

  lemma OldPlaceIsTaken(s: State)
    requires s.table == [OLD_JOB] && s.current == 4
    ensures QueuesAt(Replaces(), s, 0, 1) && TakesOldPlace(AtCall(Replaces(), s, 0, 1), 0, 5)
  {
    hide Allocate;
    var env := Replaces();
    var ops := env.script(s, OLD_JOB);
    assert ops[..1] == [Cancel(5)] && ops[..1][1..] == [] && ops[2..] == [];
    var u := Apply(s, Cancel(5));
    assert ApplyAll(s, ops[..1]) == u && u.table == [FREE];
    AllocateIs(u.table, 4, 5);
  }

  /** The loss happens, in a run from the empty table: a job is queued with token 5, other tables take
      the counter round to 4 again, the job comes due and its callback replaces it. The new job gets row
      and token of the old one and is erased with it. */
  lemma RequeueCanBeLost()
    ensures var before := [Call(Elsewhere(4)), Call(Defer(40, 50, 1, 0)), Call(Elsewhere(4))];
      && Run(Replaces(), State([FREE], 0, []), before).table == [OLD_JOB]
      && Run(Replaces(), State([FREE], 0, []), before + [Task(100)]).table == [FREE]
  {
    hide Allocate, ApplyAll;
    var env := Replaces();
    var s1 := State([FREE], 4, []);
    var s2 := Apply(s1, Defer(40, 50, 1, 0));
    AllocateIs([FREE], 4, 5);
    assert s2.table == [OLD_JOB];
    var s3 := s2.(current := 4);
    OldPlaceIsTaken(s3);
    RequeueSurvives(env, s3, 100, 0, 1);
    assert QueueRow(env, s3, 0, 1) == 0;
    var s4 := Visit(env, s3, 100, 0);
    assert s4.table == [FREE];
    assert Pass(env, s3, 100) == Visits(env, s4, 100, 1, 1) == s4;
    LostRun(env, s2, s3, s4);
  }

  lemma LostRun(env: Env, s2: State, s3: State, s4: State)
    requires s2 == Apply(State([FREE], 4, []), Defer(40, 50, 1, 0)) && s3 == s2.(current := 4)
    requires |s3.table| == 1 && s4 == Pass(env, s3, 100)
    ensures var before := [Call(Elsewhere(4)), Call(Defer(40, 50, 1, 0)), Call(Elsewhere(4))];
      && Run(env, State([FREE], 0, []), before) == s3
      && Run(env, State([FREE], 0, []), before + [Task(100)]) == s4
  {
    hide Pass, Allocate;
    var s0, s1 := State([FREE], 0, []), State([FREE], 4, []);
    var before := [Call(Elsewhere(4)), Call(Defer(40, 50, 1, 0)), Call(Elsewhere(4))];
    var all := before + [Task(100)];
    assert before[1..] == [before[1], before[2]] && before[1..][1..] == [before[2]] && before[1..][1..][1..] == [];
    assert Run(env, s0, before) == Run(env, s1, before[1..]) == Run(env, s2, before[1..][1..]) == Run(env, s3, []);
    assert all[1..] == [all[1], all[2], all[3]] && all[1..][1..] == [all[2], all[3]];
    assert all[1..][1..][1..] == [all[3]] && [all[3]][1..] == [];
    assert Run(env, s0, all) == Run(env, s1, all[1..]) == Run(env, s2, all[1..][1..])
        == Run(env, s3, [all[3]]) == Run(env, s4, []);
  }
}
