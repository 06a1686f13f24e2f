/** quantum/action_tapping.c as it runs: one tapping key, an eight-slot ring buffer and its indices,
    updated in place. Every method is proved against the machine of TapHold.dfy. */
module TapHoldEngine {
  import opened TapHold

  /** `size` slots of the ring from `tail` on. */
  function Window(slots: seq<Record>, tail: nat, size: nat): (q: seq<Record>)
    requires |slots| == WAITING_BUFFER_SIZE && tail < WAITING_BUFFER_SIZE
    ensures |q| == size && forall i :: 0 <= i < size ==> q[i] == slots[(tail + i) % WAITING_BUFFER_SIZE]
  {
    seq(size, i requires 0 <= i < size => slots[(tail + i) % WAITING_BUFFER_SIZE])
  }

  /** The number of slots from `tail` round to `head`. */
  function RingSize(tail: nat, head: nat): (n: nat)
    requires head < WAITING_BUFFER_SIZE && tail < WAITING_BUFFER_SIZE
    ensures n < WAITING_BUFFER_SIZE && (n == 0 <==> tail == head)
  {
    if tail <= head then head - tail else WAITING_BUFFER_SIZE - tail + head
  }

  /** Walking round the ring from `tail` meets `head` exactly when all its slots have been passed. */
  lemma RingWalk(tail: nat, head: nat, n: nat)
    requires head < WAITING_BUFFER_SIZE && tail < WAITING_BUFFER_SIZE && n <= RingSize(tail, head)
    ensures (tail + n) % WAITING_BUFFER_SIZE == head <==> n == RingSize(tail, head)
    ensures (tail + n + 1) % WAITING_BUFFER_SIZE == ((tail + n) % WAITING_BUFFER_SIZE + 1) % WAITING_BUFFER_SIZE
  {
  }

  /** Fewer than eight slots on end are all different. */
  lemma SlotsDiffer(tail: nat, j: nat, n: nat)
    requires j < WAITING_BUFFER_SIZE && n < WAITING_BUFFER_SIZE && j != n
    ensures (tail + j) % WAITING_BUFFER_SIZE != (tail + n) % WAITING_BUFFER_SIZE
  {
  }

  /** Overwriting the n-th slot of the ring changes the n-th record and no other. */
  lemma WindowSet(slots: seq<Record>, tail: nat, size: nat, n: nat, record: Record)
    requires |slots| == WAITING_BUFFER_SIZE && tail < WAITING_BUFFER_SIZE && n < size <= WAITING_BUFFER_SIZE
    ensures Window(slots[(tail + n) % WAITING_BUFFER_SIZE := record], tail, size)
         == Window(slots, tail, size)[n := record]
  {
    var after := slots[(tail + n) % WAITING_BUFFER_SIZE := record];
    forall j | 0 <= j < size ensures Window(after, tail, size)[j] == Window(slots, tail, size)[n := record][j] {
      if j != n { SlotsDiffer(tail, j, n); }
    }
  }

  /** Writing the slot behind the last record appends to the ring. */
  lemma WindowAppend(slots: seq<Record>, tail: nat, size: nat, record: Record)
    requires |slots| == WAITING_BUFFER_SIZE && tail < WAITING_BUFFER_SIZE && size < WAITING_BUFFER_SIZE
    ensures Window(slots[(tail + size) % WAITING_BUFFER_SIZE := record], tail, size + 1)
         == Window(slots, tail, size) + [record]
  {
    var after := slots[(tail + size) % WAITING_BUFFER_SIZE := record];
    forall j | 0 <= j < size ensures Window(after, tail, size + 1)[j] == Window(slots, tail, size)[j] {
      SlotsDiffer(tail, j, size);
    }
  }

  lemma RingGrows(tail: nat, head: nat)
    requires head < WAITING_BUFFER_SIZE && tail < WAITING_BUFFER_SIZE
    ensures (tail + RingSize(tail, head)) % WAITING_BUFFER_SIZE == head
    ensures (head + 1) % WAITING_BUFFER_SIZE == tail <==> RingSize(tail, head) + 1 == WAITING_BUFFER_SIZE
    ensures (head + 1) % WAITING_BUFFER_SIZE != tail ==>
      RingSize(tail, (head + 1) % WAITING_BUFFER_SIZE) == RingSize(tail, head) + 1
  {
  }

  class Engine {
    const env: Env
    const waitingBuffer: array<Record>
    var tappingKey: Record
    var head: nat
    var tail: nat
    /** process_record's effect on everything outside the engine. */
    var world: World
    ghost var dropped: seq<Event>

    ghost predicate Valid()
      reads this
    {
      waitingBuffer.Length == WAITING_BUFFER_SIZE && head < WAITING_BUFFER_SIZE && tail < WAITING_BUFFER_SIZE
    }

    /** The number of waiting records. */
    ghost function Size(): nat
      requires Valid()
      reads this
    {
      RingSize(tail, head)
    }

    /** The waiting records, oldest first. */
    ghost function Queue(): (q: seq<Record>)
      requires Valid()
      reads this, waitingBuffer
      ensures |q| == Size()
      ensures forall i :: 0 <= i < |q| ==> q[i] == waitingBuffer[(tail + i) % WAITING_BUFFER_SIZE]
    {
      Window(waitingBuffer[..], tail, Size())
    }

    ghost function Model(): State
      requires Valid()
      reads this, waitingBuffer
    {
      State(tappingKey, Queue(), world, dropped)
    }

    constructor (env: Env)
      ensures Valid() && this.env == env && fresh(waitingBuffer) && Model() == INITIAL
    {
      this.env := env;
      waitingBuffer := new Record[WAITING_BUFFER_SIZE](_ => EMPTY_RECORD);
      tappingKey := EMPTY_RECORD;
      head, tail := 0, 0;
      world := World([], 0);
      dropped := [];
    }

    method Enq(record: Record) returns (ok: bool)
      requires Valid()
      modifies this`head, waitingBuffer
      ensures Valid()
      ensures ok == (record.event.IsTick() || |old(Queue())| + 1 < WAITING_BUFFER_SIZE)
      ensures Queue() == if ok && !record.event.IsTick() then old(Queue()) + [record] else old(Queue())
    {
      hide RingSize, Window;
      if record.event.IsTick() { return true; }
      RingGrows(tail, head);
      if (head + 1) % WAITING_BUFFER_SIZE == tail { return false; }
      WindowAppend(waitingBuffer[..], tail, Size(), record);
      ghost var after := waitingBuffer[..][head := record];
      waitingBuffer[head] := record;
      assert waitingBuffer[..] == after;
      head := (head + 1) % WAITING_BUFFER_SIZE;
      return true;
    }

    method IsTyped(event: Event) returns (found: bool)
      requires Valid()
      ensures found == Typed(Queue(), event)
    {
      hide RingSize, Window;
      var i := tail;
      ghost var n := 0;
      while i != head
        invariant n <= Size() && i == (tail + n) % WAITING_BUFFER_SIZE
        invariant forall j :: 0 <= j < n ==> !(Queue()[j].IsFor(event.key) && Queue()[j].event.pressed != event.pressed)
        decreases Size() - n
      {
        RingWalk(tail, head, n);
        assert n < Size() && Queue()[n] == waitingBuffer[i];
        if waitingBuffer[i].IsFor(event.key) && event.pressed != waitingBuffer[i].event.pressed { return true; }
        i := (i + 1) % WAITING_BUFFER_SIZE;
        n := n + 1;
      }
      RingWalk(tail, head, n);
      return false;
    }

    /** The slot of the n-th waiting record is overwritten; the others are not. */
    method SetSlot(i: nat, record: Record, ghost n: nat)
      requires Valid() && n < Size() && i == (tail + n) % WAITING_BUFFER_SIZE
      modifies waitingBuffer
      ensures Queue() == old(Queue())[n := record]
    {
      hide RingSize, Window;
      WindowSet(waitingBuffer[..], tail, Size(), n, record);
      ghost var after := waitingBuffer[..][i := record];
      waitingBuffer[i] := record;
      assert waitingBuffer[..] == after;
    }

    /** The release of the tapping key has been found: both records become a tap. */
    method SettleFound(i: nat, ghost n: nat)
      requires Valid() && n < Size() && i == (tail + n) % WAITING_BUFFER_SIZE
      requires tappingKey.tap.count == 0 && tappingKey.event.pressed
      requires Completes(env, world, tappingKey, Queue()[n])
      requires forall j :: 0 <= j < n ==> !Completes(env, world, tappingKey, Queue()[j])
      modifies this`tappingKey, this`world, waitingBuffer
      ensures Valid() && Model() == ScanTap(env, old(Model()))
    {
      hide Completes, Window, ScanTap, FindRelease, RingSize;
      ScanFound(env, Model(), n);
      var candidate := waitingBuffer[i];
      tappingKey := tappingKey.(tap := tappingKey.tap.(count := 1));
      SetSlot(i, candidate.(tap := candidate.tap.(count := 1)), n);
      ProcessRecord(Real(tappingKey));
    }

    method WaitingBufferScanTap()
      requires Valid()
      modifies this`tappingKey, this`world, waitingBuffer
      ensures Valid()
      ensures Model() == ScanTap(env, old(Model()))
    {
      hide Completes, Window, ScanTap, FindRelease, RingSize;
      if tappingKey.tap.count > 0 || !tappingKey.event.pressed { ScanNotNeeded(env, Model()); return; }
      ghost var q := Queue();
      var i := tail;
      ghost var n := 0;
      while i != head
        invariant n <= |q| && i == (tail + n) % WAITING_BUFFER_SIZE
        invariant forall j :: 0 <= j < n ==> !Completes(env, world, tappingKey, q[j])
        invariant tappingKey == old(tappingKey) && world == old(world) && Queue() == q
        decreases |q| - n
      {
        RingWalk(tail, head, n);
        assert n < |q| && q[n] == waitingBuffer[i];
        if Completes(env, world, tappingKey, waitingBuffer[i]) {
          SettleFound(i, n);
          return;
        }
        i := (i + 1) % WAITING_BUFFER_SIZE;
        n := n + 1;
      }
      RingWalk(tail, head, n);
      ScanNotFound(env, old(Model()));
    }

    method ProcessRecord(e: Emission)
      modifies this`world
      ensures world == old(world).(emitted := old(world.emitted) + [e])
    {
      world := world.(emitted := world.emitted + [e]);
    }

    /** process_tapping, with the record it is given by reference as both an in- and an out-parameter:
        the part for a tapping key that is down and not settled, within the tapping term. */
    method ProcessUnsettled(keyp: Record) returns (consumed: bool, keyp': Record)
      requires Valid()
      modifies this`tappingKey, this`world
      ensures Valid() && Outcome(Model(), keyp', consumed) == StepUnsettled(env, old(Model()), keyp)
    {
      hide Typed, Window, MustRetain;
      var event := keyp.event;
      keyp' := keyp;
      var typed := IsTyped(event);
      if keyp.IsFor(tappingKey.event.key) && !event.pressed {
        tappingKey := tappingKey.(tap := tappingKey.tap.(count := 1));
        ProcessRecord(Real(tappingKey));
        keyp' := keyp.(tap := tappingKey.tap);
        return false, keyp';
      } else if !event.pressed && typed && env.permissiveHold(world, tappingKey) {
        ProcessRecord(Real(tappingKey));
        tappingKey := EMPTY_RECORD;
        return false, keyp;
      } else if !event.pressed && !typed {
        if MustRetain(env.action(world, event.key), keyp.tap) { return false, keyp; }
        ProcessRecord(Real(keyp));
        return true, keyp;
      } else {
        if event.pressed {
          tappingKey := tappingKey.(tap := tappingKey.tap.(interrupted := true));
          if env.holdOnOtherKeyPress(world, tappingKey) {
            ProcessRecord(Real(tappingKey));
            tappingKey := EMPTY_RECORD;
          }
        }
        return false, keyp;
      }
    }

    /** The part for a tapping key that is down and already counted as a tap. */
    method ProcessSettled(keyp: Record, within: bool) returns (consumed: bool, keyp': Record)
      requires Valid()
      modifies this`tappingKey, this`world, waitingBuffer
      ensures Valid() && Outcome(Model(), keyp', consumed) == StepSettled(env, old(Model()), keyp, within)
    {
      hide ScanTap, IsTapRecord, Window;
      var event := keyp.event;
      if keyp.IsFor(tappingKey.event.key) && !event.pressed {
        keyp' := keyp.(tap := tappingKey.tap);
        ProcessRecord(Real(keyp'));
        tappingKey := if within then keyp' else EMPTY_RECORD;
        return true, keyp';
      } else if IsTapRecord(env, world, keyp) && event.pressed {
        if tappingKey.tap.count > 1 {
          ProcessRecord(Synthetic(MadeUpRelease(tappingKey, event.time)));
        }
        tappingKey := keyp;
        WaitingBufferScanTap();
        return true, keyp;
      } else {
        ProcessRecord(Real(keyp));
        return true, keyp;
      }
    }

    /** The part for a released tapping key, within the tapping term. */
    method ProcessReleased(keyp: Record) returns (consumed: bool, keyp': Record)
      requires Valid()
      modifies this`tappingKey, this`world, waitingBuffer
      ensures Valid() && Outcome(Model(), keyp', consumed) == StepReleased(env, old(Model()), keyp)
    {
      hide ScanTap, IsTapRecord, Window, WithinQuickTapTerm;
      var event := keyp.event;
      if event.pressed {
        if keyp.IsFor(tappingKey.event.key) {
          if WithinQuickTapTerm(env, world, tappingKey, event) && !tappingKey.tap.interrupted
             && tappingKey.tap.count > 0
          {
            keyp' := keyp.(tap := tappingKey.tap);
            if keyp'.tap.count < 15 { keyp' := keyp'.(tap := keyp'.tap.(count := keyp'.tap.count + 1)); }
            ProcessRecord(Real(keyp'));
            tappingKey := keyp';
            return true, keyp';
          }
          tappingKey := keyp;
          return true, keyp;
        } else if IsTapRecord(env, world, keyp) {
          tappingKey := keyp;
          WaitingBufferScanTap();
          return true, keyp;
        } else {
          tappingKey := tappingKey.(tap := tappingKey.tap.(interrupted := true));
          ProcessRecord(Real(keyp));
          return true, keyp;
        }
      } else {
        ProcessRecord(Real(keyp));
        return true, keyp;
      }
    }

    method ProcessTapping(keyp: Record) returns (consumed: bool, keyp': Record)
      requires Valid()
      modifies this`tappingKey, this`world, waitingBuffer
      ensures Valid() && Outcome(Model(), keyp', consumed) == Step(env, old(Model()), keyp)
    {
      hide ScanTap, IsTapRecord, Window, WithinTappingTerm, StepUnsettled, StepSettled, StepReleased;
      var event := keyp.event;
      keyp' := keyp;
      if tappingKey.event.IsTick() {
        if event.IsTick() {
        } else if event.pressed && IsTapRecord(env, world, keyp) {
          tappingKey := keyp;
          WaitingBufferScanTap();
        } else {
          ProcessRecord(Real(keyp));
        }
        return true, keyp;
      }
      if tappingKey.event.pressed {
        if WithinTappingTerm(env, world, tappingKey, event) {
          if event.IsTick() { return true, keyp; }
          if tappingKey.tap.count == 0 {
            consumed, keyp' := ProcessUnsettled(keyp);
          } else {
            consumed, keyp' := ProcessSettled(keyp, true);
          }
        } else if tappingKey.tap.count == 0 {
          ProcessRecord(Real(tappingKey));
          tappingKey := EMPTY_RECORD;
          return false, keyp;
        } else {
          if event.IsTick() { return true, keyp; }
          consumed, keyp' := ProcessSettled(keyp, false);
        }
      } else if WithinTappingTerm(env, world, tappingKey, event) {
        if event.IsTick() { return true, keyp; }
        consumed, keyp' := ProcessReleased(keyp);
      } else {
        tappingKey := EMPTY_RECORD;
        return false, keyp;
      }
    }

    method WaitingBufferClear()
      requires Valid()
      modifies this`head, this`tail
      ensures Valid() && Queue() == []
    {
      head, tail := 0, 0;
    }

    /** The oldest record leaves the buffer. */
    method Advance()
      requires Valid() && tail != head
      modifies this`tail
      ensures Valid() && old(Queue()) != [] && Queue() == old(Queue())[1..]
    {
      tail := (tail + 1) % WAITING_BUFFER_SIZE;
    }

    /** The loop that hands waiting records to the state machine until it refuses one. */
    method DrainWaiting()
      requires Valid()
      modifies this`tappingKey, this`world, this`tail, waitingBuffer
      ensures Valid() && Model() == Drain(env, old(Model()))
    {
      hide Step, Window, Drain;
      while tail != head
        invariant Valid() && dropped == old(dropped)
        invariant Drain(env, Model()) == Drain(env, old(Model()))
        decreases |Queue()|
      {
        assert Queue()[0] == waitingBuffer[tail];
        DrainUnfolds(env, Model());
        var consumed, record := ProcessTapping(waitingBuffer[tail]);
        if !consumed {
          SetSlot(tail, record, 0);
          return;
        }
        Advance();
      }
      DrainUnfolds(env, Model());
    }

    /** action_tapping_process: the engine goes exactly where the machine does. */
    method ActionTappingProcess(event: Event)
      requires Valid()
      modifies this, waitingBuffer
      ensures Valid()
      ensures Model() == Process(env, old(Model()), event)
    {
      hide Step, Window, Drain;
      world := world.(calls := world.calls + 1);
      StepKeepsEvents(env, Model(), Fresh(event));
      var consumed, record := ProcessTapping(Fresh(event));
      if !consumed {
        var ok := Enq(record);
        if !ok {
          dropped := dropped + EventsOf(Queue()) + Pending(tappingKey) + [record.event];
          WaitingBufferClear();
          tappingKey := EMPTY_RECORD;
        }
      }
      assert Model() == Accept(env, old(Model()), event);
      DrainWaiting();
    }
  }

  lemma DrainUnfolds(env: Env, s: State)
    ensures s.buffer == [] ==> Drain(env, s) == s
    ensures s.buffer != [] ==>
      var o := Step(env, s, s.buffer[0]);
      && |o.s.buffer| == |s.buffer|
      && Drain(env, s) ==
         if o.consumed then Drain(env, o.s.(buffer := o.s.buffer[1..])) else o.s.(buffer := o.s.buffer[0 := o.rec])
  {
    hide Step;
    if s.buffer != [] { StepKeepsEvents(env, s, s.buffer[0]); }
  }

  lemma ScanFound(env: Env, s: State, n: nat)
    requires s.tk.tap.count == 0 && s.tk.event.pressed
    requires n < |s.buffer| && Completes(env, s.world, s.tk, s.buffer[n])
    requires forall j :: 0 <= j < n ==> !Completes(env, s.world, s.tk, s.buffer[j])
    ensures var tk := s.tk.(tap := s.tk.tap.(count := 1));
      ScanTap(env, s)
      == Emit(s.(tk := tk, buffer := s.buffer[n := s.buffer[n].(tap := s.buffer[n].tap.(count := 1))]), Real(tk))
  {
    assert FindRelease(env, s.world, s.tk, s.buffer, 0) == n;
  }

  lemma ScanNotNeeded(env: Env, s: State)
    requires s.tk.tap.count > 0 || !s.tk.event.pressed
    ensures ScanTap(env, s) == s
  {
  }

  lemma ScanNotFound(env: Env, s: State)
    requires forall j :: 0 <= j < |s.buffer| ==> !Completes(env, s.world, s.tk, s.buffer[j])
    ensures ScanTap(env, s) == s
  {
  }
}
