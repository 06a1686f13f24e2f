/** quantum/deferred_exec.c as it runs: an executor table scanned and updated in place, and the token
    counter shared by all calls. Every method is proved against DeferredExec.dfy. */
module DeferredExecTable {
  import opened Words
  import opened DeferredExec
  import opened DeferredExecTheorems

  class Executors {
    const env: Env
    const table: array<Entry>
    var currentToken: Byte
    var lastExecution: Word32
    /** The calls made to callbacks, which the callbacks may depend on. */
    var log: seq<Firing>

    ghost function Model(): State
      reads this, table
    {
      State(table[..], currentToken, log)
    }

    constructor (env: Env, size: nat)
      ensures this.env == env && fresh(table) && table.Length == size
      ensures ValidTable(Model().table) && log == []
    {
      this.env := env;
      table := new Entry[size](_ => FREE);
      currentToken, lastExecution := 0, 0;
      log := [];
    }

    method TokenCanBeUsed(token: Byte) returns (ok: bool)
      ensures ok == CanBeUsed(table[..], token)
    {
      if token == INVALID_TOKEN { return false; }
      var i := 0;
      while i < table.Length
        invariant 0 <= i <= table.Length
        invariant forall j :: 0 <= j < i ==> table[j].token != token
      {
        if table[i].token == token {
          assert table[..][i].token == token;
          return false;
        }
        i := i + 1;
      }
      return true;
    }

    method AllocateToken() returns (token: Byte)
      modifies this`currentToken
      ensures token == Allocate(table[..], old(currentToken))
      ensures currentToken == CurrentAfter(table[..], old(currentToken))
    {
      hide CanBeUsed;
      currentToken := Next(currentToken);
      var first := currentToken;
      var ok := TokenCanBeUsed(currentToken);
      while !ok
        invariant ok == CanBeUsed(table[..], currentToken)
        invariant Search(table[..], currentToken, first) == Search(table[..], first, first)
        decreases !ok, Offset(Next(currentToken), first)
      {
        currentToken := Next(currentToken);
        if currentToken == first { return INVALID_TOKEN; }
        ok := TokenCanBeUsed(currentToken);
      }
      UsableIsValid(table[..], currentToken);
      return currentToken;
    }

    method FindToken(token: Byte) returns (i: nat)
      ensures i == Find(table[..], token, 0)
    {
      i := 0;
      while i < table.Length && table[i].token != token
        invariant i <= table.Length
        invariant forall j :: 0 <= j < i ==> table[j].token != token
      {
        i := i + 1;
      }
      assert i < table.Length ==> table[..][i].token == token;
      assert forall j :: 0 <= j < i ==> table[..][j] == table[j];
    }

    /** defer_exec_advanced; `time` is what timer_read32 returns. */
    method DeferExec(time: Word32, delay: Word32, callback: nat, arg: int) returns (token: Byte)
      modifies this`currentToken, table
      ensures Model() == Apply(old(Model()), Defer(time, delay, callback, arg))
      ensures token == Result(old(Model()), Defer(time, delay, callback, arg))
    {
      hide Allocate, CurrentAfter;
      if table.Length == 0 || delay == 0 || callback == NULL { return INVALID_TOKEN; }
      var i := FindToken(INVALID_TOKEN);
      if i < table.Length {
        AfterAllocate(table[..], currentToken);
        token := AllocateToken();
        if token == INVALID_TOKEN { return INVALID_TOKEN; }
        table[i] := Entry(currentToken, Add32(time, delay), callback, arg);
        return currentToken;
      }
      return INVALID_TOKEN;
    }

    /** extend_deferred_exec_advanced */
    method ExtendExec(time: Word32, token: Byte, delay: Word32) returns (found: bool)
      modifies table
      ensures Model() == Apply(old(Model()), Extend(time, token, delay))
      ensures found == (Result(old(Model()), Extend(time, token, delay)) == 1)
    {
      if table.Length == 0 || delay == 0 || token == INVALID_TOKEN { return false; }
      var i := FindToken(token);
      if i < table.Length {
        table[i] := table[i].(trigger := Add32(time, delay));
        return true;
      }
      return false;
    }

    /** cancel_deferred_exec_advanced */
    method CancelExec(token: Byte) returns (found: bool)
      modifies table
      ensures Model() == Apply(old(Model()), Cancel(token))
      ensures found == (Result(old(Model()), Cancel(token)) == 1)
    {
      if table.Length == 0 || token == INVALID_TOKEN { return false; }
      var i := FindToken(token);
      if i < table.Length {
        table[i] := FREE;
        return true;
      }
      return false;
    }

    /** Allocations for other tables, which leave `current` in the shared counter. */
    method AllocateElsewhere(current: Byte)
      modifies this`currentToken
      ensures Model() == Apply(old(Model()), Elsewhere(current))
    {
      currentToken := current;
    }

    /** A callback: its API calls, one after the other, and the delay it asks for. */
    method Invoke(ops: seq<Op>)
      modifies this`currentToken, table
      ensures Model() == ApplyAll(old(Model()), ops)
    {
      hide Apply;
      var k := 0;
      while k < |ops|
        invariant 0 <= k <= |ops|
        invariant ApplyAll(Model(), ops[k..]) == ApplyAll(old(Model()), ops)
        invariant log == old(log)
      {
        assert ops[k..][0] == ops[k] && ops[k..][1..] == ops[k + 1..];
        match ops[k] {
          case Defer(time, delay, callback, arg) => var _ := DeferExec(time, delay, callback, arg);
          case Extend(time, token, delay) => var _ := ExtendExec(time, token, delay);
          case Cancel(token) => var _ := CancelExec(token);
          case Elsewhere(current) => AllocateElsewhere(current);
        }
        k := k + 1;
      }
    }

    /** deferred_exec_advanced_task; `now` is what timer_read32 returns. */
    method AdvancedTask(now: Word32)
      modifies this, table
      ensures if Signed32(Diff32(now, old(lastExecution))) > 0
        then Model() == Pass(env, old(Model()), now) && lastExecution == now
        else Model() == old(Model()) && lastExecution == old(lastExecution)
    {
      hide ApplyAll, Due;
      if Signed32(Diff32(now, lastExecution)) > 0 {
        lastExecution := now;
        var i := 0;
        while i < table.Length
          invariant 0 <= i <= table.Length && lastExecution == now
          invariant Visits(env, Model(), now, i, table.Length) == Pass(env, old(Model()), now)
        {
          VisitRow(now, i);
          i := i + 1;
        }
      }
    }

    /** The body of the loop over the rows. */
    method VisitRow(now: Word32, i: nat)
      requires i < table.Length
      modifies this`currentToken, this`log, table
      ensures Model() == Visit(env, old(Model()), now, i)
    {
      hide ApplyAll;
      var currToken := table[i].token;
      if currToken != INVALID_TOKEN && Signed32(Diff32(table[i].trigger, now)) <= 0 {
        var s, e := State(table[..], currentToken, log), table[i];
        var delay := env.delay(s, e);
        Invoke(env.script(s, e));
        log := log + [Firing(i, e, delay)];
        if table[i].token != currToken { return; }
        if delay > 0 {
          table[i] := table[i].(trigger := Add32(table[i].trigger, delay));
        } else {
          table[i] := FREE;
        }
      }
    }
  }

  lemma AfterAllocate(table: Table, current: Byte)
    ensures Allocate(table, current) != INVALID_TOKEN ==> CurrentAfter(table, current) == Allocate(table, current)
  {
  }
}
