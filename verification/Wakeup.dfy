/**
 Waking up for data on a buffer channel: the guard condition between the channel's listener, the
 threads that wait, and the threads that take.
 */
module Wakeup {

  // ---------------------------------------------------------------------------------------
  // One subscription's channel as a machine
  // ---------------------------------------------------------------------------------------

  /**
   `samples` are the untaken samples of the CPU or accelerated reader; a sample is true when its
   data is valid and deserializes. The counters say how many threads stand at each point:
   listener calls not yet run, waits that have read the guard and not cleared it, answers of
   "ready" not yet followed by a take, takes before their unread count, and takes that found one.
   */
  datatype Channel = Channel(samples: seq<bool>, guard: bool, listeners: nat, seen: nat, told: nat, taking: nat, arming: nat)

  const EMPTY_CHANNEL := Channel([], false, 0, 0, 0, 0, 0)

  datatype Step =
    | Arrive(good: bool)  // the reader gets a sample; its listener is to be called
    | Evict(k: nat)       // the reader's history drops a sample
    | Listen              // on_data_available sets the guard
    | See                 // the readiness pass reads a set guard
    | Clear               // and clears it: the application is told "ready"
    | Take                // the application takes, told or not
    | Count               // the take reads the unread count
    | Arm                 // and sets the guard again

  function Next(c: Channel, step: Step): Channel
  {
    match step
    case Arrive(good) => c.(samples := c.samples + [good], listeners := c.listeners + 1)
    case Evict(k) => if k < |c.samples| then c.(samples := c.samples[..k] + c.samples[k + 1..]) else c
    case Listen => if c.listeners > 0 then c.(listeners := c.listeners - 1, guard := true) else c
    case See => if c.guard then c.(seen := c.seen + 1) else c
    case Clear => if c.seen > 0 then c.(seen := c.seen - 1, guard := false, told := c.told + 1) else c
    case Take =>
      var c' := c.(told := if c.told > 0 then c.told - 1 else 0);
      if c.samples == [] then c'
      else if c.samples[0] then c'.(samples := c.samples[1..], taking := c.taking + 1)
      else c'.(samples := c.samples[1..])
    case Count =>
      if c.taking == 0 then c
      else if c.samples != [] then c.(taking := c.taking - 1, arming := c.arming + 1)
      else c.(taking := c.taking - 1)
    case Arm => if c.arming > 0 then c.(arming := c.arming - 1, guard := true) else c
  }

  function RunOf(steps: seq<Step>): Channel
  {
    if steps == [] then EMPTY_CHANNEL else Next(RunOf(steps[..|steps| - 1]), steps[|steps| - 1])
  }

  /** Somebody will look at the samples. */
  predicate Attended(c: Channel)
  {
    c.guard || c.listeners > 0 || c.seen > 0 || c.told > 0 || c.taking > 0 || c.arming > 0
  }

  predicate NoLostWakeup(c: Channel)
  {
    c.samples != [] ==> Attended(c)
  }

  predicate AllGood(steps: seq<Step>)
  {
    forall i :: 0 <= i < |steps| && steps[i].Arrive? ==> steps[i].good
  }

  lemma {:induction false} SamplesAreGood(steps: seq<Step>)
    requires AllGood(steps)
    ensures forall k :: 0 <= k < |RunOf(steps).samples| ==> RunOf(steps).samples[k]
  {
    if steps != [] {
      SamplesAreGood(steps[..|steps| - 1]);
    }
  }

  /**
   Exactly when a step may lose the wakeup: only a take of a sample that is invalid or does not
   deserialize, with samples behind it and nobody else attending.
   */
  lemma StepKeepsWakeup(c: Channel, step: Step)
    requires NoLostWakeup(c)
    ensures NoLostWakeup(Next(c, step)) <==>
      !(step == Take && |c.samples| > 1 && !c.samples[0] && !Attended(c.(told := if c.told > 0 then c.told - 1 else 0)))
  {
  }

  /**
   Over every interleaving of arrivals, listener calls, waits and takes of good samples: as long
   as samples are left, the guard is set, or someone is about to set it, or the application has
   been told and has not taken yet.
   */
  lemma {:induction false} NeverLost(steps: seq<Step>)
    requires AllGood(steps)
    ensures NoLostWakeup(RunOf(steps))
  {
    if steps != [] {
      NeverLost(steps[..|steps| - 1]);
      SamplesAreGood(steps[..|steps| - 1]);
      StepKeepsWakeup(RunOf(steps[..|steps| - 1]), steps[|steps| - 1]);
    }
  }

  /** When every thread has come to rest, samples that are left have the guard set. */
  lemma AtRestTheGuardIsSet(steps: seq<Step>)
    requires AllGood(steps)
    requires var c := RunOf(steps);
      c.samples != [] && c.listeners == 0 && c.seen == 0 && c.told == 0 && c.taking == 0 && c.arming == 0
    ensures RunOf(steps).guard
  {
    NeverLost(steps);
  }

  // ---------------------------------------------------------------------------------------
  // Rows of arrivals
  // ---------------------------------------------------------------------------------------

  /** The samples that arrive during the steps, good and bad. */
  function Arrivals(steps: seq<Step>): seq<bool>
  {
    if steps == [] then []
    else
      var n := |steps| - 1;
      Arrivals(steps[..n]) + if steps[n].Arrive? then [steps[n].good] else []
  }

  /** Some schedule of exactly these arrivals leads to the channel. */
  ghost predicate Reachable(row: seq<bool>, c: Channel)
  {
    exists steps :: Arrivals(steps) == row && RunOf(steps) == c
  }

  lemma ReachNext(row: seq<bool>, c: Channel, step: Step)
    requires Reachable(row, c)
    ensures Reachable(row + if step.Arrive? then [step.good] else [], Next(c, step))
  {
    var steps :| Arrivals(steps) == row && RunOf(steps) == c;
    var more := steps + [step];
    assert more[..|steps|] == steps;
    assert RunOf(more) == Next(c, step) && Arrivals(more) == row + if step.Arrive? then [step.good] else [];
  }

  lemma ReachQuiet(row: seq<bool>, c: Channel, step: Step)
    requires Reachable(row, c) && !step.Arrive?
    ensures Reachable(row, Next(c, step))
  {
    hide Reachable, Next;
    ReachNext(row, c, step);
    assert row + [] == row;
  }

  /** Whatever arrived may have been heard of and dropped again. */
  lemma {:induction false} ReachDrained(row: seq<bool>)
    ensures Reachable(row, EMPTY_CHANNEL.(guard := row != []))
  {
    if row == [] {
      assert Arrivals([]) == [] && RunOf([]) == EMPTY_CHANNEL;
    } else {
      var n := |row| - 1;
      ReachDrained(row[..n]);
      assert row[..n] + [row[n]] == row;
      ArrivesAndGoes(row[..n], row[..n] != [], row[n]);
    }
  }

  lemma ArrivesAndGoes(row: seq<bool>, guard: bool, good: bool)
    requires Reachable(row, EMPTY_CHANNEL.(guard := guard))
    ensures Reachable(row + [good], EMPTY_CHANNEL.(guard := true))
  {
    hide Reachable;
    assert [] + [good] == [good] && [good][..0] + [good][1..] == [];
    ReachNext(row, EMPTY_CHANNEL.(guard := guard), Arrive(good));
    ReachQuiet(row + [good], EMPTY_CHANNEL.(samples := [good], guard := guard, listeners := 1), Listen);
    ReachQuiet(row + [good], EMPTY_CHANNEL.(samples := [good], guard := true), Evict(0));
  }

  lemma BothArrive(row: seq<bool>, guard: bool, next: bool)
    requires Reachable(row, EMPTY_CHANNEL.(guard := guard))
    ensures Reachable(row + [false] + [next], EMPTY_CHANNEL.(samples := [false, next], guard := true))
  {
    hide Reachable;
    assert [] + [false] == [false] && [false] + [next] == [false, next];
    ReachNext(row, EMPTY_CHANNEL.(guard := guard), Arrive(false));
    ReachNext(row + [false], EMPTY_CHANNEL.(samples := [false], guard := guard, listeners := 1), Arrive(next));
    var two := EMPTY_CHANNEL.(samples := [false, next]);
    ReachQuiet(row + [false] + [next], two.(guard := guard, listeners := 2), Listen);
    ReachQuiet(row + [false] + [next], two.(guard := true, listeners := 1), Listen);
  }

  lemma TakesTheBadOne(row: seq<bool>, next: bool)
    requires Reachable(row, EMPTY_CHANNEL.(samples := [false, next], guard := true))
    ensures Reachable(row, EMPTY_CHANNEL.(samples := [next]))
  {
    hide Reachable;
    var two := EMPTY_CHANNEL.(samples := [false, next]);
    assert [false, next][1..] == [next];
    ReachQuiet(row, two.(guard := true), See);
    ReachQuiet(row, two.(guard := true, seen := 1), Clear);
    ReachQuiet(row, two.(told := 1), Take);
  }

  /**
   A bad sample with one behind it: the application is told once, takes the bad one, and is left
   asleep with the other in the reader.
   */
  lemma BadSampleLosesWakeup(row: seq<bool>, i: nat)
    requires i + 1 < |row| && !row[i]
    ensures Reachable(row[..i + 2], EMPTY_CHANNEL.(samples := [row[i + 1]]))
  {
    hide Reachable;
    ReachDrained(row[..i]);
    BothArrive(row[..i], row[..i] != [], row[i + 1]);
    assert row[..i] + [false] + [row[i + 1]] == row[..i + 2];
    TakesTheBadOne(row[..i + 2], row[i + 1]);
  }

  /** Only the last sample may be bad, and none may while the row is not complete. */
  predicate GoodButLast(samples: seq<bool>, complete: bool)
  {
    forall k :: 0 <= k < |samples| && (k < |samples| - 1 || !complete) ==> samples[k]
  }

  lemma StepKeepsGoodButLast(c: Channel, step: Step, complete: bool)
    requires GoodButLast(c.samples, complete) && !step.Arrive?
    ensures GoodButLast(Next(c, step).samples, complete)
    ensures NoLostWakeup(c) ==> NoLostWakeup(Next(c, step))
  {
    if |c.samples| > 1 {
      assert c.samples[0];
    }
    if NoLostWakeup(c) {
      StepKeepsWakeup(c, step);
    }
  }

  lemma {:induction false} OnlyTheLastIsBad(row: seq<bool>, steps: seq<Step>)
    requires forall i :: 0 <= i < |row| - 1 ==> row[i]
    requires Arrivals(steps) <= row
    ensures GoodButLast(RunOf(steps).samples, |Arrivals(steps)| == |row|)
    ensures NoLostWakeup(RunOf(steps))
  {
    if steps != [] {
      var n := |steps| - 1;
      var before, step := steps[..n], steps[n];
      var m := |Arrivals(before)|;
      assert Arrivals(before) <= Arrivals(steps);
      OnlyTheLastIsBad(row, before);
      if step.Arrive? {
        assert Arrivals(steps)[m] == step.good == row[m];
      } else {
        StepKeepsGoodButLast(RunOf(before), step, m == |row|);
        assert Arrivals(before) + [] == Arrivals(before);
      }
    }
  }

  /** Every schedule of these arrivals, or of the first of them, keeps the wakeup. */
  ghost predicate RowKeepsWakeup(row: seq<bool>)
  {
    forall steps :: Arrivals(steps) <= row ==> NoLostWakeup(RunOf(steps))
  }

  lemma BadRowLosesWakeup(row: seq<bool>, i: nat)
    requires i + 1 < |row| && !row[i]
    ensures !RowKeepsWakeup(row)
  {
    BadSampleLosesWakeup(row, i);
    var steps :| Arrivals(steps) == row[..i + 2] && RunOf(steps) == EMPTY_CHANNEL.(samples := [row[i + 1]]);
    assert Arrivals(steps) <= row && !NoLostWakeup(RunOf(steps));
  }

  /** Exactly the rows of arrivals in which no sample but the last is bad are safe. */
  lemma RowsThatKeepWakeup(row: seq<bool>)
    ensures RowKeepsWakeup(row) <==> forall i :: 0 <= i < |row| - 1 ==> row[i]
  {
    if i :| 0 <= i < |row| - 1 && !row[i] {
      BadRowLosesWakeup(row, i);
    } else {
      forall steps | Arrivals(steps) <= row
        ensures NoLostWakeup(RunOf(steps))
      {
        OnlyTheLastIsBad(row, steps);
      }
    }
  }

  // ---------------------------------------------------------------------------------------
  // The waiting thread
  // ---------------------------------------------------------------------------------------

  class GuardCondition {
    var trigger: bool

    constructor ()
      ensures !trigger
    {
      trigger := false;
    }
  }

  /** `untaken` is the answer of the main reader, `bufferDataGuard` null without buffer fields. */
  class Subscription {
    var untaken: bool
    const bufferDataGuard: GuardCondition?

    constructor (guard: GuardCondition?)
      ensures bufferDataGuard == guard && !untaken
    {
      bufferDataGuard := guard;
      untaken := false;
    }

    predicate Guarded()
      reads this, bufferDataGuard
    {
      bufferDataGuard != null && bufferDataGuard.trigger
    }
  }

  /** The events, clients and services of a wait set enter by the answers of their conditions. */
  method HasTriggeredCondition(guardConditions: seq<GuardCondition>, events: seq<bool>, subscriptions: seq<Subscription>,
                               clients: seq<bool>, services: seq<bool>) returns (triggered: bool)
    ensures triggered <==>
      || (exists i :: 0 <= i < |guardConditions| && guardConditions[i].trigger)
      || true in events
      || (exists i :: 0 <= i < |subscriptions| &&
            (subscriptions[i].untaken || (subscriptions[i].bufferDataGuard != null && subscriptions[i].bufferDataGuard.trigger)))
      || true in clients || true in services
  {
    for i := 0 to |guardConditions|
      invariant forall k :: 0 <= k < i ==> !guardConditions[k].trigger
    {
      if guardConditions[i].trigger {
        return true;
      }
    }
    for i := 0 to |events|
      invariant true !in events[..i]
    {
      if events[i] {
        return true;
      }
    }
    for i := 0 to |subscriptions|
      invariant forall k :: 0 <= k < i ==>
        !(subscriptions[k].untaken || (subscriptions[k].bufferDataGuard != null && subscriptions[k].bufferDataGuard.trigger))
    {
      if subscriptions[i].untaken {
        return true;
      }
      if subscriptions[i].bufferDataGuard != null && subscriptions[i].bufferDataGuard.trigger {
        return true;
      }
    }
    for i := 0 to |clients|
      invariant true !in clients[..i]
    {
      if clients[i] {
        return true;
      }
    }
    for i := 0 to |services|
      invariant true !in services[..i]
    {
      if services[i] {
        return true;
      }
    }
    triggered := false;
  }

  /** Slot `i` is ready for its main reader, or for its guard unless an earlier slot cleared it. */
  ghost predicate SlotReady(subscribers: seq<Subscription>, i: nat)
    requires i < |subscribers|
    reads subscribers, set s | s in subscribers && s.bufferDataGuard != null :: s.bufferDataGuard
  {
    || subscribers[i].untaken
    || (subscribers[i].Guarded() && !ClearedBefore(subscribers, i, subscribers[i].bufferDataGuard))
  }

  ghost predicate ClearedBefore(subscribers: seq<Subscription>, i: nat, guard: GuardCondition?)
    requires i <= |subscribers|
    reads subscribers
  {
    exists k :: 0 <= k < i && !subscribers[k].untaken && subscribers[k].bufferDataGuard == guard
  }

  /** Where a subscription is ready, some slot is: its own, or an earlier one with the same guard. */
  lemma SomeSlotReady(subscribers: seq<Subscription>, i: nat) returns (k: nat)
    requires i < |subscribers| && (subscribers[i].untaken || subscribers[i].Guarded())
    ensures k <= i && SlotReady(subscribers, k)
    ensures !subscribers[i].untaken ==> subscribers[k].bufferDataGuard == subscribers[i].bufferDataGuard
  {
    k := i;
    if !subscribers[i].untaken && ClearedBefore(subscribers, i, subscribers[i].bufferDataGuard) {
      var j :| 0 <= j < i && !subscribers[j].untaken && subscribers[j].bufferDataGuard == subscribers[i].bufferDataGuard;
      k := SomeSlotReady(subscribers, j);
    }
  }

  /**
   Whether the pass finds a slot ready is whether some subscription has data or a guard that is
   set; and a set guard is only cleared for a slot that is told of it.
   */
  lemma SlotsTell(subscribers: seq<Subscription>)
    ensures (exists i :: 0 <= i < |subscribers| && SlotReady(subscribers, i)) <==>
      exists i :: 0 <= i < |subscribers| &&
        (subscribers[i].untaken || (subscribers[i].bufferDataGuard != null && subscribers[i].bufferDataGuard.trigger))
    ensures forall s | s in subscribers && s.Guarded() && ClearedBefore(subscribers, |subscribers|, s.bufferDataGuard) ::
      exists i :: 0 <= i < |subscribers| && SlotReady(subscribers, i) && subscribers[i].bufferDataGuard == s.bufferDataGuard
  {
    if i :| 0 <= i < |subscribers| && (subscribers[i].untaken || subscribers[i].Guarded()) {
      var k := SomeSlotReady(subscribers, i);
    }
    forall s | s in subscribers && s.Guarded() && ClearedBefore(subscribers, |subscribers|, s.bufferDataGuard)
      ensures exists i :: 0 <= i < |subscribers| && SlotReady(subscribers, i) && subscribers[i].bufferDataGuard == s.bufferDataGuard
    {
      var j :| 0 <= j < |subscribers| && !subscribers[j].untaken && subscribers[j].bufferDataGuard == s.bufferDataGuard;
      var k := SomeSlotReady(subscribers, j);
    }
  }

  /**
   The readiness pass over the subscriptions of a wait set: the slots of those that are not ready
   are zeroed, and the guards that made a slot ready are cleared.
   */
  method MarkSubscriptions(subscribers: seq<Subscription>, slots: array<Subscription?>)
    requires slots[..] == subscribers
    modifies slots, set s | s in subscribers && s.bufferDataGuard != null :: s.bufferDataGuard
    ensures forall i :: 0 <= i < |subscribers| ==> slots[i] == if old(SlotReady(subscribers, i)) then subscribers[i] else null
    ensures forall s :: s in subscribers && s.bufferDataGuard != null ==>
      s.bufferDataGuard.trigger == (old(s.bufferDataGuard.trigger) && !ClearedBefore(subscribers, |subscribers|, s.bufferDataGuard))
  {
    for i := 0 to |subscribers|
      invariant slots.Length == |subscribers| && forall k :: i <= k < |subscribers| ==> slots[k] == subscribers[k]
      invariant forall k :: 0 <= k < i ==> slots[k] == if old(SlotReady(subscribers, k)) then subscribers[k] else null
      invariant forall s :: s in subscribers ==> s.untaken == old(s.untaken)
      invariant forall s :: s in subscribers && s.bufferDataGuard != null ==>
        s.bufferDataGuard.trigger == (old(s.bufferDataGuard.trigger) && !ClearedBefore(subscribers, i, s.bufferDataGuard))
    {
      var subscriber := subscribers[i];
      var hasData := subscriber.untaken;
      if !hasData && subscriber.bufferDataGuard != null && subscriber.bufferDataGuard.trigger {
        hasData := true;
        subscriber.bufferDataGuard.trigger := false;
      }
      if !hasData {
        slots[i] := null;
      }
    }
  }

  // ---------------------------------------------------------------------------------------
  // The taking thread
  // ---------------------------------------------------------------------------------------

  /** The CPU reader deserializes on its own; `decodes` is what the endpoint codec says. */
  datatype Sample = Sample(valid: bool, decodes: bool, message: nat)

  class Reader {
    var samples: seq<Sample>

    constructor ()
      ensures samples == []
    {
      samples := [];
    }

    method TakeOne() returns (ok: bool, sample: Sample)
      modifies this
      ensures ok <==> old(samples) != []
      ensures ok ==> sample == old(samples)[0] && samples == old(samples)[1..]
      ensures !ok ==> samples == old(samples)
    {
      ok, sample := samples != [], Sample(false, false, 0);
      if ok {
        sample := samples[0];
        samples := samples[1..];
      }
    }
  }

  /**
   Takes from the CPU channel, else from the accelerated one; at most one message. A reader that
   is asked gives up its first sample, whether it becomes a message or not, and only a message
   with samples behind it sets the guard.
   */
  method TakeBufferAware(cpu: Reader?, accel: Reader?, guard: GuardCondition, hasContext: bool) returns (taken: bool, message: nat)
    requires cpu != accel || cpu == null
    modifies cpu, accel, guard
    ensures cpu != null && old(cpu.samples) != [] ==> cpu.samples == old(cpu.samples)[1..]
    ensures cpu != null && old(cpu.samples) == [] ==> cpu.samples == []
    ensures cpu != null && old(cpu.samples) != [] && old(cpu.samples)[0].valid ==>
      && taken && message == old(cpu.samples)[0].message
      && (accel != null ==> accel.samples == old(accel.samples))
      && guard.trigger == (old(guard.trigger) || |old(cpu.samples)| > 1)
    ensures !(cpu != null && old(cpu.samples) != [] && old(cpu.samples)[0].valid) && accel != null && old(accel.samples) != [] ==>
      && accel.samples == old(accel.samples)[1..]
      && (taken <==> old(accel.samples)[0].valid && hasContext && old(accel.samples)[0].decodes)
      && (taken ==> message == old(accel.samples)[0].message)
      && guard.trigger == (old(guard.trigger) || (taken && |old(accel.samples)| > 1))
    ensures !(cpu != null && old(cpu.samples) != [] && old(cpu.samples)[0].valid) && (accel == null || old(accel.samples) == []) ==>
      && !taken && guard.trigger == old(guard.trigger)
      && (accel != null ==> accel.samples == [])
  {
    taken, message := false, 0;
    // CPU-only path: the shared CPU channel.
    if cpu != null {
      var ok, sample := cpu.TakeOne();
      if ok && sample.valid {
        taken, message := true, sample.message;
        if |cpu.samples| > 0 {
          guard.trigger := true;
        }
        return;
      }
    }
    // Accelerated path.
    if accel == null {
      return;
    }
    var ok, sample := accel.TakeOne();
    if !ok {
      return;
    }
    if !sample.valid {
      return;
    }
    if !hasContext {
      return;
    }
    if !sample.decodes {
      return;
    }
    taken, message := true, sample.message;
    if |accel.samples| > 0 {
      guard.trigger := true;
    }
  }

  /** Undisturbed, the steps of a take are what the method does to its reader and the guard. */
  lemma TakeIsItsSteps(c: Channel)
    requires c.taking == 0 && c.arming == 0
    ensures Next(Next(Next(c, Take), Count), Arm) == c.(
      samples := if c.samples == [] then [] else c.samples[1..],
      told := if c.told > 0 then c.told - 1 else 0,
      guard := c.guard || (|c.samples| > 1 && c.samples[0]))
  {
  }
}
