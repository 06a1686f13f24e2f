/** The unlock handshake of quantum/vial.c: a start command and then polls, each of which must find the
    combo keys held for the unlock to go on. */
module VialUnlock {
  import opened Words

  const VIAL_UNLOCK_COUNTER_MAX := 50

  /** A command and the real time, in milliseconds since start-up, at which it is handled. `holding` says
      whether every combo key is down then. */
  datatype Command =
    | UnlockStart(time: nat)
    | UnlockPoll(time: nat, holding: bool)
    | Lock(time: nat)

  /** vial_unlocked, vial_unlock_in_progress, vial_unlock_counter and vial_unlock_timer */
  datatype State = State(unlocked: bool, inProgress: bool, counter: int, timer: Word16)

  const INITIAL := State(false, false, 0, 0)

  /** timer_read: the real time modulo 2^16. */
  function TimerRead(time: nat): Word16 {
    time % 0x1_0000
  }

  /** The steps of vial_handle_cmd for the three commands. */
  function Handle(s: State, c: Command): State {
    match c
    case UnlockStart(time) => State(s.unlocked, true, VIAL_UNLOCK_COUNTER_MAX, TimerRead(time))
    case UnlockPoll(time, holding) =>
      if !s.inProgress then s
      else if Diff16(TimerRead(time), s.timer) > 100 && holding then
        if s.counter - 1 == 0 then State(true, false, 0, TimerRead(time))
        else State(s.unlocked, true, s.counter - 1, TimerRead(time))
      else s.(counter := VIAL_UNLOCK_COUNTER_MAX)
    case Lock(_) => s.(unlocked := false)
  }

  function Run(cs: seq<Command>): State {
    if cs == [] then INITIAL else Handle(Run(cs[..|cs| - 1]), cs[|cs| - 1])
  }

  /** Locking locks at once, wherever the handshake stands, and leaves the handshake alone. */
  lemma LockLocks(cs: seq<Command>, time: nat)
    ensures var s, t := Run(cs), Run(cs + [Lock(time)]);
      !t.unlocked && t.inProgress == s.inProgress && t.counter == s.counter && t.timer == s.timer
  {
    assert (cs + [Lock(time)])[..|cs|] == cs;
  }

  /** A start begins a handshake and does not touch the lock; a poll does nothing outside a handshake; and
      inside one, a poll that comes within 100 ms of the last mark, or finds a combo key up, keeps lock,
      handshake and mark and starts the count again. */
  lemma OnlyGoodPollsUnlock(cs: seq<Command>, time: nat, holding: bool)
    ensures var s, t := Run(cs), Run(cs + [UnlockStart(time)]);
      t == State(s.unlocked, true, 50, TimerRead(time))
    ensures var s, t := Run(cs), Run(cs + [UnlockPoll(time, holding)]);
      && (!s.inProgress ==> t == s)
      && (s.inProgress && (!holding || (time - s.timer) % 0x1_0000 <= 100) ==> t == s.(counter := 50))
  {
    hide TimerRead;
    assert (cs + [UnlockStart(time)])[..|cs|] == cs && (cs + [UnlockPoll(time, holding)])[..|cs|] == cs;
    SameDifference(time, Run(cs).timer);
  }

  lemma SameDifference(time: nat, mark: Word16)
    ensures Diff16(TimerRead(time), mark) == (time - mark) % 0x1_0000
  {
    var m := 0x1_0000;
    assert time == time / m * m + time % m;
    assert (time % m - mark) % m == (time % m - mark + time / m * m) % m;
  }

  // ---------------------------------------------------------------- what unlocking takes

  /** Commands in the order of real time. */
  ghost predicate Ordered(cs: seq<Command>) {
    forall i, j :: 0 <= i < j < |cs| ==> cs[i].time <= cs[j].time
  }

  /** `start` is the last start command, and `ps` are the numbers of later polls, in order, up to the
      end without leaving any out, that all found the keys held; the first came at least 101 ms of real
      time after the start and each other at least 101 ms after the one before it. */
  ghost predicate Streak(cs: seq<Command>, start: nat, ps: seq<nat>) {
    IsLastStart(cs, start) && HoldingPolls(cs, start, ps) && Paced(cs, start, ps) && NoneLeftOut(cs, ps)
  }

  ghost predicate IsLastStart(cs: seq<Command>, start: nat) {
    start < |cs| && cs[start].UnlockStart? && forall k :: start < k < |cs| ==> !cs[k].UnlockStart?
  }

  ghost predicate HoldingPolls(cs: seq<Command>, start: nat, ps: seq<nat>) {
    && (forall i :: 0 <= i < |ps| ==> start < ps[i] < |cs| && cs[ps[i]].UnlockPoll? && cs[ps[i]].holding)
    && (forall i, j :: 0 <= i < j < |ps| ==> ps[i] < ps[j])
  }

  ghost predicate Paced(cs: seq<Command>, start: nat, ps: seq<nat>)
    requires start < |cs| && HoldingPolls(cs, start, ps)
  {
    && (forall i :: 0 < i < |ps| ==> cs[ps[i]].time - cs[ps[i - 1]].time >= 101)
    && (ps != [] ==> cs[ps[0]].time - cs[start].time >= 101)
  }

  ghost predicate NoneLeftOut(cs: seq<Command>, ps: seq<nat>) {
    ps != [] ==> forall k :: ps[0] <= k < |cs| && cs[k].UnlockPoll? ==> k in ps
  }

  /** A difference of more than 100 on the wrapping clock is one of more than 100 ms of real time. */
  lemma RealElapsed(now: nat, then_: nat)
    requires then_ <= now
    ensures Diff16(TimerRead(now), TimerRead(then_)) <= now - then_
    ensures now - then_ < 0x1_0000 ==> Diff16(TimerRead(now), TimerRead(then_)) == now - then_
  {
    var d := now - then_;
    var m := 0x1_0000;
    assert now == now / m * m + TimerRead(now) && then_ == then_ / m * m + TimerRead(then_);
    assert d == (now / m - then_ / m) * m + (TimerRead(now) - TimerRead(then_));
    if TimerRead(now) >= TimerRead(then_) {
      assert now / m >= then_ / m;
    } else {
      assert now / m > then_ / m;
    }
  }

  lemma StreakGoesOn(cs: seq<Command>, c: Command, start: nat, ps: seq<nat>)
    requires Streak(cs, start, ps) && !c.UnlockStart? && (c.UnlockPoll? ==> ps == [])
    ensures Streak(cs + [c], start, ps)
  {
  }

  lemma StreakGrows(cs: seq<Command>, c: Command, start: nat, ps: seq<nat>, mark: nat)
    requires Ordered(cs + [c]) && Streak(cs, start, ps) && c.UnlockPoll? && c.holding
    requires start <= mark < |cs| && (ps != [] ==> mark == ps[|ps| - 1]) && c.time - cs[mark].time >= 101
    ensures Streak(cs + [c], start, ps + [|cs|])
  {
    var cs', ps' := cs + [c], ps + [|cs|];
    assert IsLastStart(cs', start);
    assert HoldingPolls(cs', start, ps');
    assert cs'[start].time <= cs'[mark].time;
    forall i | 0 < i < |ps'| ensures cs'[ps'[i]].time - cs'[ps'[i - 1]].time >= 101 {
      if i < |ps| { assert cs[ps[i]].time - cs[ps[i - 1]].time >= 101; }
    }
    assert Paced(cs', start, ps');
    PollsGrow(cs, c, ps);
  }

  lemma PollsGrow(cs: seq<Command>, c: Command, ps: seq<nat>)
    requires NoneLeftOut(cs, ps)
    ensures NoneLeftOut(cs + [c], ps + [|cs|])
  {
    var cs', ps' := cs + [c], ps + [|cs|];
    forall k | ps'[0] <= k < |cs'| && cs'[k].UnlockPoll? ensures k in ps' {
      assert ps'[|ps|] == |cs|;
      if k < |cs| {
        assert k in ps;
        var i :| 0 <= i < |ps| && ps[i] == k;
        assert ps'[i] == k;
      }
    }
  }

  /** While an unlock is in progress the counter is between 1 and 50 and counts down the current
      streak of good polls, and the timer holds the time of the last of them. */
  lemma {:induction false} WhileInProgress(cs: seq<Command>) returns (start: nat, ps: seq<nat>, mark: nat)
    requires Ordered(cs) && Run(cs).inProgress
    ensures var s := Run(cs);
      && 1 <= s.counter <= VIAL_UNLOCK_COUNTER_MAX && Streak(cs, start, ps)
      && |ps| == VIAL_UNLOCK_COUNTER_MAX - s.counter
      && start <= mark < |cs| && s.timer == TimerRead(cs[mark].time) && (ps != [] ==> mark == ps[|ps| - 1])
    decreases |cs|
  {
    hide Streak, TimerRead, Diff16;
    var n := |cs| - 1;
    var before, c := cs[..n], cs[n];
    assert cs == before + [c];
    OrderedPrefix(before, c);
    if c.UnlockStart? {
      FreshStreak(cs, n);
      return n, [], n;
    }
    start, ps, mark := WhileInProgress(before);
    if c.UnlockPoll? && Run(cs).counter == VIAL_UNLOCK_COUNTER_MAX {
      EmptyStreak(before, start, ps);
      StreakGoesOn(before, c, start, []);
      ps := [];
    } else if c.UnlockPoll? {
      GoodPoll(before, c, start, ps, mark);
      ps, mark := ps + [n], n;
    } else {
      StreakGoesOn(before, c, start, ps);
    }
  }

  lemma OrderedPrefix(cs: seq<Command>, c: Command)
    requires Ordered(cs + [c])
    ensures Ordered(cs)
  {
    forall i, j | 0 <= i < j < |cs| ensures cs[i].time <= cs[j].time {
      assert (cs + [c])[i] == cs[i] && (cs + [c])[j] == cs[j];
    }
  }

  /** A poll that passes the test on the 16-bit clock adds to the streak. */
  lemma GoodPoll(cs: seq<Command>, c: Command, start: nat, ps: seq<nat>, mark: nat)
    requires Ordered(cs + [c]) && Streak(cs, start, ps) && c.UnlockPoll? && c.holding
    requires start <= mark < |cs| && (ps != [] ==> mark == ps[|ps| - 1])
    requires Diff16(TimerRead(c.time), TimerRead(cs[mark].time)) > 100
    ensures Streak(cs + [c], start, ps + [|cs|])
  {
    hide Streak, TimerRead, Diff16;
    assert (cs + [c])[mark].time <= (cs + [c])[|cs|].time;
    RealElapsed(c.time, cs[mark].time);
    StreakGrows(cs, c, start, ps, mark);
  }

  lemma FreshStreak(cs: seq<Command>, n: nat)
    requires n == |cs| - 1 && cs[n].UnlockStart?
    ensures Streak(cs, n, [])
  {
  }

  lemma EmptyStreak(cs: seq<Command>, start: nat, ps: seq<nat>)
    requires Streak(cs, start, ps)
    ensures Streak(cs, start, [])
  {
  }

  lemma {:induction false} StreakTakesTime(cs: seq<Command>, start: nat, ps: seq<nat>, n: nat)
    requires Streak(cs, start, ps) && 0 < n <= |ps|
    ensures cs[ps[n - 1]].time - cs[start].time >= 101 * n
    decreases n
  {
    if n > 1 { StreakTakesTime(cs, start, ps, n - 1); }
  }

  /** The keyboard becomes unlocked only on a poll that is the fiftieth of a streak: fifty polls in a row
      since the last start that all found every combo key held, so that at least 5050 ms of real time
      have passed since that start, wrap-around of the 16-bit timer notwithstanding. */
  lemma UnlockTakesFiftyPolls(cs: seq<Command>) returns (start: nat, ps: seq<nat>)
    requires cs != [] && Ordered(cs) && !Run(cs[..|cs| - 1]).unlocked && Run(cs).unlocked
    ensures Streak(cs, start, ps) && |ps| == VIAL_UNLOCK_COUNTER_MAX && ps[49] == |cs| - 1
    ensures cs[|cs| - 1].time - cs[start].time >= 5050
  {
    hide Streak, TimerRead, Diff16;
    var n := |cs| - 1;
    var before, c := cs[..n], cs[n];
    assert cs == before + [c];
    OrderedPrefix(before, c);
    var mark;
    start, ps, mark := WhileInProgress(before);
    GoodPoll(before, c, start, ps, mark);
    ps := ps + [n];
    StreakTakesTime(cs, start, ps, 50);
  }

  // ---------------------------------------------------------------- and is enough

  /** Polls from number `from` on: each finds the keys held, more than 100 ms by the 16-bit clock after
      the command before it. */
  ghost predicate Steady(cs: seq<Command>, from: nat) {
    0 < from <= |cs| && forall k :: from <= k < |cs| ==>
      cs[k].UnlockPoll? && cs[k].holding && Diff16(TimerRead(cs[k].time), TimerRead(cs[k - 1].time)) > 100
  }

  /** Conversely, a start followed by fifty such polls unlocks, and no fewer do. */
  lemma {:induction false} SteadyPollsUnlock(cs: seq<Command>, start: nat)
    requires start < |cs| <= start + 51 && cs[start].UnlockStart? && Steady(cs, start + 1)
    ensures var s := Run(cs); var polls := |cs| - start - 1;
      if polls == 50 then s == State(true, false, 0, TimerRead(cs[|cs| - 1].time))
      else s.inProgress && s.counter == 50 - polls && s.timer == TimerRead(cs[|cs| - 1].time)
    decreases |cs|
  {
    hide TimerRead, Diff16;
    var n := |cs| - 1;
    if n > start {
      var before := cs[..n];
      assert Steady(before, start + 1) by {
        forall k | start + 1 <= k < n
          ensures before[k].UnlockPoll? && before[k].holding
          ensures Diff16(TimerRead(before[k].time), TimerRead(before[k - 1].time)) > 100
        {
          assert before[k] == cs[k] && before[k - 1] == cs[k - 1];
        }
      }
      SteadyPollsUnlock(before, start);
    }
  }

  // ---------------------------------------------------------------- the globals

  class Vial {
    var unlocked: bool
    var inProgress: bool
    var counter: int
    var timer: Word16
    /** The unlock combo: rows and columns of its keys. */
    const rows: seq<nat>
    const cols: seq<nat>

    constructor (rows: seq<nat>, cols: seq<nat>)
      requires |rows| == |cols|
      ensures this.rows == rows && this.cols == cols && Model() == INITIAL
    {
      this.rows, this.cols := rows, cols;
      unlocked, inProgress, counter, timer := false, false, 0, 0;
    }

    function Model(): State
      reads this
    {
      State(unlocked, inProgress, counter, timer)
    }

    method Start(time: nat)
      modifies this
      ensures Model() == Handle(old(Model()), UnlockStart(time))
    {
      inProgress := true;
      counter := VIAL_UNLOCK_COUNTER_MAX;
      timer := TimerRead(time);
    }

    /** One poll; `isOn` is matrix_is_on. */
    method Poll(time: nat, isOn: (nat, nat) -> bool)
      requires |rows| == |cols|
      modifies this
      ensures Model() == Handle(old(Model()), UnlockPoll(time, forall i :: 0 <= i < |rows| ==> isOn(rows[i], cols[i])))
    {
      if inProgress {
        var holding := true;
        for i := 0 to |rows|
          invariant holding <==> forall k :: 0 <= k < i ==> isOn(rows[k], cols[k])
        {
          holding := holding && isOn(rows[i], cols[i]);
        }
        if Diff16(TimerRead(time), timer) > 100 && holding {
          timer := TimerRead(time);
          counter := counter - 1;
          if counter == 0 {
            inProgress := false;
            unlocked := true;
          }
        } else {
          counter := VIAL_UNLOCK_COUNTER_MAX;
        }
      }
    }

    method LockAgain()
      modifies this
      ensures Model() == Handle(old(Model()), Lock(0))
    {
      unlocked := false;
    }
  }
}
