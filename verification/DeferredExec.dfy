/** The deferred executor of quantum/deferred_exec.c on values: token allocation, the three API calls
    and the pass that runs what is due. DeferredExecTable.dfy runs it on an array. */
module DeferredExec {
  import opened Words

  /** One row of the table; a row is free when its token is INVALID_DEFERRED_TOKEN. Callbacks are
      numbered, and 0 is NULL. */
  datatype Entry = Entry(token: Byte, trigger: Word32, callback: nat, arg: int)

  const INVALID_TOKEN: Byte := 0
  const NULL := 0
  const FREE := Entry(INVALID_TOKEN, 0, NULL, 0)

  type Table = seq<Entry>

  // ---------------------------------------------------------------- tokens

  predicate InUse(table: Table, token: Byte) {
    exists i :: 0 <= i < |table| && table[i].token == token
  }

  /** token_can_be_used */
  predicate CanBeUsed(table: Table, token: Byte) {
    token != INVALID_TOKEN && !InUse(table, token)
  }

  /** The 8-bit increment. */
  function Next(token: Byte): Byte {
    if token == 255 then 0 else token + 1
  }

  /** How many increments take `from` to `to`. */
  function Offset(from: Byte, to: Byte): Byte {
    if from <= to then to - from else 256 + to - from
  }

  /** The loop of allocate_token from `current` on, which gives up on coming round to `first`. */
  function Search(table: Table, current: Byte, first: Byte): Byte
    decreases Offset(Next(current), first)
  {
    if CanBeUsed(table, current) then current
    else if Next(current) == first then INVALID_TOKEN
    else Search(table, Next(current), first)
  }

  /** allocate_token: the token it returns, starting after `current`. */
  function Allocate(table: Table, current: Byte): Byte {
    Search(table, Next(current), Next(current))
  }

  /** What allocate_token leaves in current_token. */
  function CurrentAfter(table: Table, current: Byte): Byte {
    if Allocate(table, current) == INVALID_TOKEN then Next(current) else Allocate(table, current)
  }

  // ---------------------------------------------------------------- the API

  /** A call on this table, or a call on some other table that allocates: all tables share current_token,
      so it comes back with another value. */
  datatype Op =
    | Defer(time: Word32, delay: Word32, callback: nat, arg: int)
    | Extend(time: Word32, token: Byte, delay: Word32)
    | Cancel(token: Byte)
    | Elsewhere(current: Byte)

  /** One call of a callback by a pass. */
  datatype Firing = Firing(slot: nat, entry: Entry, delay: Word32)

  datatype State = State(table: Table, current: Byte, log: seq<Firing>)

  /** The first row at or after `i` that holds `token`; the length if there is none. */
  function Find(table: Table, token: Byte, i: nat): (k: nat)
    requires i <= |table|
    ensures i <= k <= |table|
    ensures k < |table| ==> table[k].token == token
    ensures forall j :: i <= j < k ==> table[j].token != token
    decreases |table| - i
  {
    if i == |table| || table[i].token == token then i else Find(table, token, i + 1)
  }

  predicate DeferAccepted(s: State, op: Op)
    requires op.Defer?
  {
    && op.delay != 0 && op.callback != NULL
    && Find(s.table, INVALID_TOKEN, 0) < |s.table|
    && Allocate(s.table, s.current) != INVALID_TOKEN
  }

  /** The token or the truth value an API call returns (true as 1). */
  function Result(s: State, op: Op): Byte {
    match op
    case Defer(_, _, _, _) => if DeferAccepted(s, op) then Allocate(s.table, s.current) else INVALID_TOKEN
    case Extend(_, token, delay) => if delay != 0 && token != INVALID_TOKEN && InUse(s.table, token) then 1 else 0
    case Cancel(token) => if token != INVALID_TOKEN && InUse(s.table, token) then 1 else 0
    case Elsewhere(_) => INVALID_TOKEN
  }

  /** defer_exec_advanced, extend_deferred_exec_advanced and cancel_deferred_exec_advanced */
  function Apply(s: State, op: Op): (t: State)
    ensures |t.table| == |s.table| && t.log == s.log
  {
    match op
    case Defer(time, delay, callback, arg) =>
      var k := Find(s.table, INVALID_TOKEN, 0);
      if delay == 0 || callback == NULL || k == |s.table| then s
      else
        var token := Allocate(s.table, s.current);
        if token == INVALID_TOKEN then s.(current := CurrentAfter(s.table, s.current))
        else s.(current := token, table := s.table[k := Entry(token, Add32(time, delay), callback, arg)])
    case Extend(time, token, delay) =>
      var k := Find(s.table, token, 0);
      if delay == 0 || token == INVALID_TOKEN || k == |s.table| then s
      else s.(table := s.table[k := s.table[k].(trigger := Add32(time, delay))])
    case Cancel(token) =>
      var k := Find(s.table, token, 0);
      if token == INVALID_TOKEN || k == |s.table| then s
      else s.(table := s.table[k := FREE])
    case Elsewhere(current) => s.(current := current)
  }

  function ApplyAll(s: State, ops: seq<Op>): (t: State)
    ensures |t.table| == |s.table| && t.log == s.log
    decreases |ops|
  {
    if ops == [] then s else ApplyAll(Apply(s, ops[0]), ops[1..])
  }

  // ---------------------------------------------------------------- the pass

  /** What callbacks do: the API calls each makes and the delay it returns. They may look at
      everything, including the table and all earlier firings. */
  datatype Env = Env(script: (State, Entry) -> seq<Op>, delay: (State, Entry) -> Word32)

  predicate Due(e: Entry, now: Word32) {
    e.token != INVALID_TOKEN && Signed32(Diff32(e.trigger, now)) <= 0
  }

  /** The visit of one row by deferred_exec_advanced_task. */
  function Visit(env: Env, s: State, now: Word32, i: nat): (t: State)
    requires i < |s.table|
    ensures |t.table| == |s.table|
  {
    var e := s.table[i];
    if !Due(e, now) then s
    else
      var delay := env.delay(s, e);
      var t := ApplyAll(s, env.script(s, e));
      var t' := t.(log := s.log + [Firing(i, e, delay)]);
      var e' := t.table[i];
      if e'.token != e.token then t'
      else if delay > 0 then t'.(table := t.table[i := e'.(trigger := Add32(e'.trigger, delay))])
      else t'.(table := t.table[i := FREE])
  }

  /** The rows from `i` up to `n`. */
  function Visits(env: Env, s: State, now: Word32, i: nat, n: nat): (t: State)
    requires i <= n <= |s.table|
    ensures |t.table| == |s.table|
    decreases n - i
  {
    if i == n then s else Visits(env, Visit(env, s, now, i), now, i + 1, n)
  }

  function Pass(env: Env, s: State, now: Word32): State {
    Visits(env, s, now, 0, |s.table|)
  }

  /** One thing that happens to the table: an API call from outside, or a pass. (A throttled task does
      nothing and is no step.) */
  datatype Step = Call(op: Op) | Task(now: Word32)

  function Run(env: Env, s: State, steps: seq<Step>): (t: State)
    ensures |t.table| == |s.table|
    decreases |steps|
  {
    if steps == [] then s
    else Run(env, match steps[0] case Call(op) => Apply(s, op) case Task(now) => Pass(env, s, now), steps[1..])
  }
}
