/** What the deferred executor keeps over every run, with callbacks free to call it back. */
module DeferredExecTheorems {
  import opened Words
  import opened DeferredExec

  // ---------------------------------------------------------------- allocation is sound and complete

  lemma OffsetNext(from: Byte, to: Byte)
    ensures to != from ==> Offset(from, to) == Offset(Next(from), to) + 1
    ensures to == from <==> Offset(from, to) == 0
  {
  }

  lemma {:induction false} SearchIsFirst(table: Table, current: Byte, first: Byte)
    ensures var r := Search(table, current, first);
      if r != INVALID_TOKEN then
        CanBeUsed(table, r) && forall t: Byte :: Offset(current, t) < Offset(current, r) ==> !CanBeUsed(table, t)
      else forall t: Byte :: Offset(current, t) <= Offset(Next(current), first) ==> !CanBeUsed(table, t)
    decreases Offset(Next(current), first)
  {
    hide CanBeUsed;
    if !CanBeUsed(table, current) {
      forall t: Byte
        ensures t != current ==> Offset(current, t) == Offset(Next(current), t) + 1
        ensures t == current <==> Offset(current, t) == 0
      {
        OffsetNext(current, t);
      }
      if Next(current) != first {
        SearchIsFirst(table, Next(current), first);
      }
    } else {
      UsableIsValid(table, current);
    }
  }

  lemma UsableIsValid(table: Table, token: Byte)
    requires CanBeUsed(table, token)
    ensures token != INVALID_TOKEN
  {
  }

  /** allocate_token ends for every table, returns the first usable token after current_token in
      cyclic order, and fails exactly when none of the 255 tokens is usable. */
  lemma AllocateIsFirst(table: Table, current: Byte)
    ensures var r := Allocate(table, current);
      if r != 0 then
        && CanBeUsed(table, r)
        && forall t: Byte :: Offset(Next(current), t) < Offset(Next(current), r) ==> !CanBeUsed(table, t)
      else forall t: Byte :: !CanBeUsed(table, t)
  {
    SearchIsFirst(table, Next(current), Next(current));
  }

  function Tokens(table: Table): (ts: set<int>)
    ensures forall t: Byte :: t in ts <==> InUse(table, t)
  {
    set i | 0 <= i < |table| :: table[i].token
  }

  lemma {:induction false} TokensAreFew(table: Table)
    ensures |Tokens(table)| <= |table|
  {
    if table == [] {
      assert Tokens(table) == {};
    } else {
      var rest := table[..|table| - 1];
      TokensAreFew(rest);
      assert Tokens(table) == Tokens(rest) + {table[|table| - 1].token};
    }
  }

  function FirstNumbers(n: nat): (ts: set<int>)
    ensures |ts| == n && forall t :: t in ts <==> 0 <= t < n
  {
    if n == 0 then {} else FirstNumbers(n - 1) + {n - 1}
  }

  lemma SubsetSize(a: set<int>, b: set<int>)
    requires a <= b
    ensures |a| <= |b|
  {
    assert b == a + (b - a);
  }

  /** Pigeonhole: a table of at most 255 rows with a free one leaves some token usable. */
  lemma FreeRowFreeToken(table: Table, current: Byte)
    requires |table| <= 255 && InUse(table, INVALID_TOKEN)
    ensures Allocate(table, current) != INVALID_TOKEN
  {
    hide Allocate, InUse, Tokens, FirstNumbers;
    if Allocate(table, current) == INVALID_TOKEN {
      AllocateIsFirst(table, current);
      forall t | t in FirstNumbers(256) ensures t in Tokens(table) {
        var b: Byte := t;
        assert !CanBeUsed(table, b);
      }
      SubsetSize(FirstNumbers(256), Tokens(table));
      TokensAreFew(table);
    }
  }

  // ---------------------------------------------------------------- what every step keeps

  /** Live tokens are pairwise distinct, free rows are cleared, and live rows have a callback. */
  ghost predicate ValidTable(table: Table) {
    && (forall i, j :: 0 <= i < j < |table| && table[i].token != INVALID_TOKEN ==> table[i].token != table[j].token)
    && (forall i :: 0 <= i < |table| ==>
          if table[i].token == INVALID_TOKEN then table[i] == FREE else table[i].callback != NULL)
  }

  lemma ApplyKeepsValid(s: State, op: Op)
    requires ValidTable(s.table)
    ensures ValidTable(Apply(s, op).table)
  {
    hide Allocate, CurrentAfter;
    AllocateIsFirst(s.table, s.current);
  }

  lemma {:induction false} ApplyAllKeepsValid(s: State, ops: seq<Op>)
    requires ValidTable(s.table)
    ensures ValidTable(ApplyAll(s, ops).table)
    decreases |ops|
  {
    hide Apply, ValidTable;
    if ops != [] {
      ApplyKeepsValid(s, ops[0]);
      ApplyAllKeepsValid(Apply(s, ops[0]), ops[1..]);
    }
  }

  lemma VisitKeepsValid(env: Env, s: State, now: Word32, i: nat)
    requires i < |s.table| && ValidTable(s.table)
    ensures ValidTable(Visit(env, s, now, i).table)
  {
    hide ApplyAll;
    ApplyAllKeepsValid(s, env.script(s, s.table[i]));
  }

  lemma {:induction false} VisitsKeepValid(env: Env, s: State, now: Word32, i: nat, n: nat)
    requires i <= n <= |s.table| && ValidTable(s.table)
    ensures ValidTable(Visits(env, s, now, i, n).table)
    decreases n - i
  {
    hide Visit, ValidTable;
    if i < n {
      VisitKeepsValid(env, s, now, i);
      VisitsKeepValid(env, Visit(env, s, now, i), now, i + 1, n);
    }
  }

  /** Over any run, whatever the callbacks do, live tokens stay distinct and non-zero. */
  lemma {:induction false} RunKeepsValid(env: Env, s: State, steps: seq<Step>)
    requires ValidTable(s.table)
    ensures ValidTable(Run(env, s, steps).table)
    decreases |steps|
  {
    hide Apply, Visits, ValidTable;
    if steps != [] {
      match steps[0]
      case Call(op) =>
        ApplyKeepsValid(s, op);
        RunKeepsValid(env, Apply(s, op), steps[1..]);
      case Task(now) =>
        VisitsKeepValid(env, s, now, 0, |s.table|);
        RunKeepsValid(env, Pass(env, s, now), steps[1..]);
    }
  }

  /** With at most 255 rows, defer_exec fails only for a zero delay, a null callback or a full table;
      otherwise exactly one free row changes and the token returned was not in use. */
  lemma DeferSucceeds(s: State, op: Op)
    requires |s.table| <= 255 && op.Defer? && op.delay != 0 && op.callback != NULL
    ensures Result(s, op) != INVALID_TOKEN <==> InUse(s.table, INVALID_TOKEN)
    ensures var token := Result(s, op); token != INVALID_TOKEN ==>
      && !InUse(s.table, token)
      && exists k :: 0 <= k < |s.table| && s.table[k].token == INVALID_TOKEN
           && Apply(s, op).table == s.table[k := Entry(token, Add32(op.time, op.delay), op.callback, op.arg)]
  {
    hide Allocate;
    AllocateIsFirst(s.table, s.current);
    var k := Find(s.table, INVALID_TOKEN, 0);
    if InUse(s.table, INVALID_TOKEN) {
      FreeRowFreeToken(s.table, s.current);
      assert 0 <= k < |s.table|;
    }
  }

  /** A queued job leaves the token counter at its token, so that the next one is looked for behind it; a
      zero delay or a null callback changes nothing at all, and neither does a full table. With a free row
      but no usable token the search comes round to its start, and the counter stays there. */
  lemma DeferMovesOn(s: State, op: Op)
    requires op.Defer?
    ensures Result(s, op) != INVALID_TOKEN ==> Apply(s, op).current == Result(s, op)
    ensures op.delay == 0 || op.callback == NULL || !InUse(s.table, INVALID_TOKEN) ==>
      Apply(s, op) == s && Result(s, op) == INVALID_TOKEN
    ensures
      (op.delay != 0 && op.callback != NULL && InUse(s.table, INVALID_TOKEN)
       && forall token: Byte :: !CanBeUsed(s.table, token)) ==>
      Apply(s, op) == s.(current := (s.current + 1) % 256) && Result(s, op) == INVALID_TOKEN
  {
    hide Allocate;
    AllocateIsFirst(s.table, s.current);
    var k := Find(s.table, INVALID_TOKEN, 0);
    if k < |s.table| { assert InUse(s.table, INVALID_TOKEN); }
  }

  /** A token is not handed out again at once: a job queued after one that has been cancelled gets another
      token, as long as another one is usable. */
  lemma TokenIsNotReused(s: State, op: Op, op': Op, other: Byte)
    requires ValidTable(s.table) && op.Defer? && op'.Defer? && Result(s, op) != INVALID_TOKEN
    requires CanBeUsed(Apply(s, op).table, other)
    ensures var t := Apply(Apply(s, op), Cancel(Result(s, op))); Result(t, op') != Result(s, op)
  {
    hide Allocate, CanBeUsed, CurrentAfter;
    var token, u := Result(s, op), Apply(s, op);
    var t := Apply(u, Cancel(token));
    DeferMovesOn(s, op);
    AllocateIsFirst(s.table, s.current);
    AllocateIsFirst(t.table, t.current);
    assert u.table[Find(s.table, INVALID_TOKEN, 0)].token == token;
    OthersStayUsable(u, token, other);
    LastInOrder(token, other);
  }

  lemma OthersStayUsable(u: State, token: Byte, other: Byte)
    requires token != INVALID_TOKEN && InUse(u.table, token) && CanBeUsed(u.table, other)
    ensures other != token && CanBeUsed(Apply(u, Cancel(token)).table, other)
  {
  }

  /** The token behind which a search starts is the last that it tries. */
  lemma LastInOrder(token: Byte, other: Byte)
    requires other != token
    ensures Offset(Next(token), other) < Offset(Next(token), token)
  {
  }

  /** Extending or cancelling a token that no row holds is refused and changes nothing, and so is a zero
      delay and the invalid token; whatever is accepted names a token of the table. */
  lemma UnknownTokenIsRefused(s: State, token: Byte, time: Word32, delay: Word32)
    ensures token == INVALID_TOKEN || !InUse(s.table, token) || delay == 0 ==>
      Apply(s, Extend(time, token, delay)) == s && Result(s, Extend(time, token, delay)) == 0
    ensures token == INVALID_TOKEN || !InUse(s.table, token) ==>
      Apply(s, Cancel(token)) == s && Result(s, Cancel(token)) == 0
    ensures token != INVALID_TOKEN && InUse(s.table, token) ==>
      Result(s, Cancel(token)) == 1 && (delay > 0 ==> Result(s, Extend(time, token, delay)) == 1)
  {
    var k := Find(s.table, token, 0);
    if k < |s.table| { assert InUse(s.table, token); }
  }

  // ---------------------------------------------------------------- one pass

  lemma {:induction false} VisitsSnoc(env: Env, s: State, now: Word32, i: nat, n: nat)
    requires i <= n < |s.table|
    ensures Visits(env, s, now, i, n + 1) == Visit(env, Visits(env, s, now, i, n), now, n)
    decreases n - i
  {
    hide Visit;
    if i < n { VisitsSnoc(env, Visit(env, s, now, i), now, i + 1, n); }
  }

  /** The row as the pass finds it. */
  function AtVisit(env: Env, s: State, now: Word32, j: nat): Entry
    requires j < |s.table|
  {
    Visits(env, s, now, 0, j).table[j]
  }

  /** The firings from index `b` on are those of rows below `n` that were due when visited, each once
      and in row order. */
  ghost predicate FiresWhatIsDue(env: Env, s: State, now: Word32, n: nat, log: seq<Firing>, b: nat) {
    && b <= |log| && n <= |s.table|
    && (forall k :: b <= k < |log| ==>
          && log[k].slot < n && Due(log[k].entry, now) && log[k].entry == AtVisit(env, s, now, log[k].slot))
    && (forall k, l :: b <= k < l < |log| ==> log[k].slot < log[l].slot)
    && (forall j :: 0 <= j < n && Due(AtVisit(env, s, now, j), now) ==> exists k :: b <= k < |log| && log[k].slot == j)
  }

  lemma VisitLog(env: Env, s: State, now: Word32, i: nat)
    requires i < |s.table|
    ensures var e := s.table[i];
      Visit(env, s, now, i).log == if Due(e, now) then s.log + [Firing(i, e, env.delay(s, e))] else s.log
  {
  }

  lemma FiresOneMore(env: Env, s: State, now: Word32, n: nat, log: seq<Firing>, b: nat, more: seq<Firing>)
    requires n < |s.table| && FiresWhatIsDue(env, s, now, n, log, b)
    requires if !Due(AtVisit(env, s, now, n), now) then more == []
             else |more| == 1 && more[0].slot == n && more[0].entry == AtVisit(env, s, now, n)
    ensures FiresWhatIsDue(env, s, now, n + 1, log + more, b)
  {
    hide AtVisit, Due;
    var log' := log + more;
    forall j | 0 <= j < n + 1 && Due(AtVisit(env, s, now, j), now)
      ensures exists k :: b <= k < |log'| && log'[k].slot == j
    {
      if j < n {
        var k :| b <= k < |log| && log[k].slot == j;
        assert log'[k] == log[k];
      } else {
        assert log'[|log|].slot == j;
      }
    }
  }

  lemma {:induction false} VisitsFire(env: Env, s: State, now: Word32, n: nat)
    requires n <= |s.table|
    ensures FiresWhatIsDue(env, s, now, n, Visits(env, s, now, 0, n).log, |s.log|)
    ensures s.log <= Visits(env, s, now, 0, n).log
    decreases n
  {
    hide Visit, Due, FiresWhatIsDue;
    if n > 0 {
      VisitsFire(env, s, now, n - 1);
      VisitsSnoc(env, s, now, 0, n - 1);
      var u := Visits(env, s, now, 0, n - 1);
      VisitLog(env, u, now, n - 1);
      var e := AtVisit(env, s, now, n - 1);
      var more := if Due(e, now) then [Firing(n - 1, e, env.delay(u, e))] else [];
      assert u.log + more == Visits(env, s, now, 0, n).log;
      FiresOneMore(env, s, now, n - 1, u.log, |s.log|, more);
    } else {
      assert FiresWhatIsDue(env, s, now, 0, s.log, |s.log|) by { NothingFires(env, s, now); }
    }
  }

  lemma NothingFires(env: Env, s: State, now: Word32)
    ensures FiresWhatIsDue(env, s, now, 0, s.log, |s.log|)
  {
  }

  /** A pass calls back exactly the rows that are live and due when it reaches them, each once, in
      row order, and leaves earlier firings alone. */
  lemma PassFiresDueOnce(env: Env, s: State, now: Word32)
    ensures s.log <= Pass(env, s, now).log
    ensures FiresWhatIsDue(env, s, now, |s.table|, Pass(env, s, now).log, |s.log|)
  {
    VisitsFire(env, s, now, |s.table|);
  }

  // ---------------------------------------------------------------- rows that are left alone

  /** The call does not name `token`. */
  predicate Spares(op: Op, token: Byte) {
    match op
    case Defer(_, _, _, _) => true
    case Extend(_, t, _) => t != token
    case Cancel(t) => t != token
    case Elsewhere(_) => true
  }

  ghost predicate AllSpare(ops: seq<Op>, token: Byte) {
    forall k :: 0 <= k < |ops| ==> Spares(ops[k], token)
  }

  /** No callback extends or cancels `token` after the firings in `log`, as long as there have been fewer
      than `end` in all. */
  ghost predicate SpareAfter(env: Env, token: Byte, log: seq<Firing>, end: nat) {
    forall s: State, e: Entry :: log <= s.log && |s.log| < end ==> AllSpare(env.script(s, e), token)
  }

  /** No callback ever extends or cancels `token`. */
  ghost predicate CallbacksSpare(env: Env, token: Byte) {
    forall s: State, e: Entry :: AllSpare(env.script(s, e), token)
  }

  lemma ApplySpares(s: State, op: Op, j: nat)
    requires j < |s.table| && s.table[j].token != INVALID_TOKEN && Spares(op, s.table[j].token)
    ensures Apply(s, op).table[j] == s.table[j]
  {
  }

  lemma {:induction false} ApplyAllSpares(s: State, ops: seq<Op>, j: nat)
    requires j < |s.table| && s.table[j].token != INVALID_TOKEN && AllSpare(ops, s.table[j].token)
    ensures ApplyAll(s, ops).table[j] == s.table[j]
    decreases |ops|
  {
    hide Apply;
    if ops != [] {
      ApplySpares(s, ops[0], j);
      ApplyAllSpares(Apply(s, ops[0]), ops[1..], j);
    }
  }

  lemma VisitSpares(env: Env, s: State, now: Word32, i: nat, j: nat)
    requires i < |s.table| && j < |s.table| && s.table[j].token != INVALID_TOKEN
    requires SpareAfter(env, s.table[j].token, s.log, |s.log| + 1)
    ensures i != j || !Due(s.table[j], now) ==> Visit(env, s, now, i).table[j] == s.table[j]
  {
    hide ApplyAll;
    var e := s.table[i];
    assert AllSpare(env.script(s, e), s.table[j].token);
    ApplyAllSpares(s, env.script(s, e), j);
  }

  /** A live row that is not due, and that no callback names in the rest of the pass, is still there after
      the pass and has not fired. */
  lemma {:induction false} NotDueWaits(env: Env, s: State, now: Word32, i: nat, n: nat, j: nat)
    requires i <= n <= |s.table| && j < |s.table|
    requires s.table[j].token != INVALID_TOKEN && !Due(s.table[j], now)
    requires SpareAfter(env, s.table[j].token, s.log, |s.log| + (n - i))
    ensures var t := Visits(env, s, now, i, n);
      && t.table[j] == s.table[j] && s.log <= t.log
      && forall k :: |s.log| <= k < |t.log| ==> t.log[k].slot != j
    decreases n - i
  {
    hide Visit, Due, SpareAfter;
    if i < n {
      var token, t := s.table[j].token, Visit(env, s, now, i);
      SpareLater(env, token, s.log, |s.log| + (n - i), s.log, |s.log| + 1);
      VisitSpares(env, s, now, i, j);
      VisitLog(env, s, now, i);
      SpareLater(env, token, s.log, |s.log| + (n - i), t.log, |t.log| + (n - i - 1));
      NotDueWaits(env, t, now, i + 1, n, j);
    }
  }

  lemma SpareLater(env: Env, token: Byte, log: seq<Firing>, end: nat, log': seq<Firing>, end': nat)
    requires SpareAfter(env, token, log, end) && log <= log' && end' <= end
    ensures SpareAfter(env, token, log', end')
  {
  }
}
