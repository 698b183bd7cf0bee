/** FLUSHALL, clean shutdown and the FLUSH guarantee of rrdcached (rrd_daemon.c). */
module DaemonFlush {
  import opened CacheModel
  import opened DaemonModel
  import opened DaemonRuns
  import JournalText

  // ----- FLUSHALL

  /** No item claims a flush later than now plus the jitter. */
  ghost predicate TimeOk(cfg: Config, s: State) {
    forall k <- s.core.tree :: Fresh(cfg, s.core.tree[k], s.clock)
  }

  lemma TimeStep(cfg: Config, s: State, step: Step)
    requires Enabled(cfg, s, step) && TimeOk(cfg, s)
    ensures TimeOk(cfg, Apply(cfg, s, step))
  {
    hide Absorb, DueKeys, StaleKeys, Remove, Wake, WithoutWriter, IsOrder;
    match step
    case UpdateStep(k, fields, args, now, jitter, writable) =>
    case FlushStep(client, k) =>
    case FlushAllStep(order) =>
    case TickStep(order) =>
    case ShutdownStep(order) =>
    case _ =>
  }

  lemma {:induction false} TimeRun(cfg: Config, s: State, steps: seq<Step>, t: State)
    requires TimeOk(cfg, s) && IsRun(cfg, s, steps, t)
    ensures TimeOk(cfg, t)
    decreases |steps|
  {
    hide Apply, Enabled, TimeOk;
    if steps != [] {
      TimeStep(cfg, s, steps[0]);
      TimeRun(cfg, Apply(cfg, s, steps[0]), steps[1..], t);
    }
  }

  /** Flushing everything leaves every item with pending values on the queue. */
  lemma FlushAllQueues(cfg: Config, s: State, order: seq<Key>, k: Key)
    requires TimeOk(cfg, s) && IsOrder(order, s.core.tree.Keys) && Pending(s.core, k) != []
    ensures k in DoFlushOld(cfg, s, order, -1).core.queue
    ensures Pending(DoFlushOld(cfg, s, order, -1).core, k) == Pending(s.core, k)
  {
    hide DueKeys, StaleKeys, Wake;
    DueMembers(s.core, order, s.clock + 2 * cfg.writeJitter + 1, s.phase.Running?);
    FlushOldView(cfg, s.core, order, -1, s.clock, s.phase.Running?, k);
  }

  /** In every reachable state, FLUSHALL queues every file that has pending values and loses none of them. */
  lemma FlushAll(cfg: Config, s: State, steps: seq<Step>, t: State, order: seq<Key>, k: Key)
    requires Init(cfg, s) && IsRun(cfg, s, steps, t)
    requires Enabled(cfg, t, FlushAllStep(order)) && Pending(t.core, k) != []
    ensures k in Apply(cfg, t, FlushAllStep(order)).core.queue
    ensures Pending(Apply(cfg, t, FlushAllStep(order)).core, k) == Pending(t.core, k)
  {
    InitTime(cfg, s);
    TimeRun(cfg, s, steps, t);
    FlushAllQueues(cfg, t, order, k);
  }

  lemma InitTime(cfg: Config, s: State)
    requires Init(cfg, s)
    ensures TimeOk(cfg, s)
  {
  }

  // ----- signals

  /** The last of USR1 and USR2 decides whether values are flushed at shutdown. */
  function Decided(steps: seq<Step>, before: bool): bool {
    if steps == [] then before
    else
      var step := steps[|steps| - 1];
      if step == SignalStep(Usr1) then true
      else if step == SignalStep(Usr2) then false
      else Decided(steps[..|steps| - 1], before)
  }

  function Rank(phase: Phase): nat {
    match phase
    case Running => 0
    case Flushing => 1
    case Shutdown => 2
  }

  lemma SignalsOne(cfg: Config, s: State, step: Step)
    requires Enabled(cfg, s, step)
    ensures Apply(cfg, s, step).flushAtShutdown == Decided([step], s.flushAtShutdown)
    ensures Rank(s.phase) <= Rank(Apply(cfg, s, step).phase) && (step.SignalStep? ==> !Apply(cfg, s, step).phase.Running?)
  {
    hide Absorb, FlushOld, Update, Enqueue, Remove, WithoutWriter, JitterOk, Wake, StaleKeys, Wipe, Drop, IsOrder;
    assert [step][..0] == [];
  }

  lemma {:induction false} DecidedFirst(step: Step, rest: seq<Step>, before: bool)
    ensures Decided([step] + rest, before) == Decided(rest, Decided([step], before))
  {
    var steps := [step] + rest;
    if rest == [] {
      assert steps == [step];
    } else {
      DecidedFirst(step, rest[..|rest| - 1], before);
      assert steps[..|steps| - 1] == [step] + rest[..|rest| - 1];
    }
  }

  /** Over every run: whether values are flushed at shutdown is what the last USR1 or USR2 said and nothing else, the
      daemon never returns to an earlier phase, and after any signal it is not running any more. */
  lemma {:induction false} SignalsRun(cfg: Config, s: State, steps: seq<Step>, t: State)
    requires IsRun(cfg, s, steps, t)
    ensures t.flushAtShutdown == Decided(steps, s.flushAtShutdown)
    ensures Rank(s.phase) <= Rank(t.phase)
    ensures (exists step <- steps :: step.SignalStep?) ==> !t.phase.Running?
    decreases |steps|
  {
    hide Apply, Enabled, Decided;
    if steps != [] {
      SignalsOne(cfg, s, steps[0]);
      SignalsRun(cfg, Apply(cfg, s, steps[0]), steps[1..], t);
      DecidedFirst(steps[0], steps[1..], s.flushAtShutdown);
      assert steps == [steps[0]] + steps[1..];
    } else {
      DecidedNone(s.flushAtShutdown);
    }
  }

  lemma DecidedNone(before: bool)
    ensures Decided([], before) == before
  {
  }

  // ----- clean shutdown

  /** While the queue is drained: whatever is pending is queued, and a writer leaves only an empty queue behind. */
  ghost predicate Draining(s: State) {
    s.phase.Shutdown? && s.flushAtShutdown && QueueOk(s.core) &&
    (forall k <- s.core.tree :: s.core.tree[k].values != [] ==> k in s.core.queue) &&
    forall w <- s.writers :: w.Exited? ==> s.core.queue == []
  }

  /** Writers leave only after SHUTDOWN. */
  ghost predicate NoneExited(s: State) {
    !s.phase.Shutdown? ==> forall w <- s.writers :: !w.Exited?
  }

  lemma NoneExitedStep(cfg: Config, s: State, step: Step)
    requires Enabled(cfg, s, step) && NoneExited(s)
    ensures NoneExited(Apply(cfg, s, step))
  {
    hide Absorb, Update, FlushOld, StaleKeys, Enqueue, Drop, Wipe, Wake, WithoutWriter, IsOrder;
  }

  lemma {:induction false} NoneExitedRun(cfg: Config, s: State, steps: seq<Step>, t: State)
    requires NoneExited(s) && IsRun(cfg, s, steps, t)
    ensures NoneExited(t)
    decreases |steps|
  {
    hide Apply, Enabled, NoneExited;
    if steps != [] {
      NoneExitedStep(cfg, s, steps[0]);
      NoneExitedRun(cfg, Apply(cfg, s, steps[0]), steps[1..], t);
    }
  }

  lemma ShutdownDrains(cfg: Config, s: State, order: seq<Key>)
    requires QueueOk(s.core) && NoneExited(s) && s.flushAtShutdown && Enabled(cfg, s, ShutdownStep(order))
    ensures Draining(DoShutdown(cfg, s, order))
  {
    DueMembers(s.core, order, s.clock + 2 * cfg.writeJitter + 1, false);
    FlushOldKeeps(cfg, s.core, order, -1, s.clock, false);
    hide QueueOk, DueKeys;
  }

  /** After SHUTDOWN, USR2 switches the draining off, and an UPDATE escapes it if it accepts something for a file that is
      not queued and does not queue it, or queues it when a writer has already left. No other handler does harm. */
  predicate KeepsDraining(cfg: Config, s: State, step: Step) {
    match step
    case UpdateStep(k, fields, _, now, _, _) =>
      var a := Absorb(fields, LastStamp(s.core, k));
      a.values == [] || k in s.core.queue ||
      (a.done && k in s.core.tree && now - s.core.tree[k].lastFlush >= cfg.writeInterval && forall w <- s.writers :: !w.Exited?)
    case SignalStep(signal) => !signal.Usr2?
    case _ => true
  }

  lemma DrainingUpdate(cfg: Config, s: State, k: Key, fields: seq<Field>, args: string, now: int, jitter: int, writable: bool)
    requires Draining(s) && k in s.core.tree
    ensures Draining(DoUpdate(cfg, s, k, fields, args, now, jitter, writable)) <==>
            KeepsDraining(cfg, s, UpdateStep(k, fields, args, now, jitter, writable))
  {
    hide Absorb, QueueOk;
    UpdateKeeps(cfg, s.core, k, fields, now, jitter);
    var t := DoUpdate(cfg, s, k, fields, args, now, jitter, writable);
    var a := Absorb(fields, s.core.tree[k].lastStamp);
    if k !in s.core.queue {
      assert s.core.tree[k].values == [];
      assert t.core.tree[k].values == a.values;
    }
    forall x | x in t.core.tree && x != k ensures x in s.core.tree && t.core.tree[x] == s.core.tree[x] {
    }
  }

  lemma DrainingFlushAll(cfg: Config, s: State, order: seq<Key>)
    requires Draining(s) && IsOrder(order, s.core.tree.Keys)
    ensures Draining(DoFlushOld(cfg, s, order, -1))
  {
    FlushOldKeeps(cfg, s.core, order, -1, s.clock, false);
    hide QueueOk;
    NothingToQueue(s.core, order, s.clock + 2 * cfg.writeJitter + 1);
    hide DueKeys, Wake;
  }

  lemma NothingToQueue(c: Core, order: seq<Key>, absTimeout: int)
    requires (forall k <- order :: k in c.tree) && forall k <- c.tree :: c.tree[k].values != [] ==> k in c.queue
    ensures DueKeys(c, order, absTimeout, false) == []
  {
    if order != [] {
      NothingToQueue(c, order[..|order| - 1], absTimeout);
    }
  }

  /** One step of any kind keeps the draining exactly so. */
  lemma DrainingIff(cfg: Config, s: State, step: Step)
    requires Enabled(cfg, s, step) && Draining(s)
    ensures Draining(Apply(cfg, s, step)) <==> KeepsDraining(cfg, s, step)
  {
    match step
    case UpdateStep(k, fields, args, now, jitter, writable) =>
      hide Draining, KeepsDraining, DoUpdate, JitterOk;
      DrainingUpdate(cfg, s, k, fields, args, now, jitter, writable);
    case FlushAllStep(order) =>
      hide Draining, DoFlushOld, IsOrder;
      DrainingFlushAll(cfg, s, order);
    case ForgetStep(k) =>
      hide Draining, DoForget;
      DrainingForget(s, k);
    case FlushStep(client, k) =>
      hide Draining, DoFlush;
      DrainingFlush(s, client, k);
    case TakeStep(w, jitter) =>
      hide Draining, DoTake;
      DrainingTake(cfg, s, w, jitter);
    case HangStep(k, now, jitter) =>
      hide QueueOk;
      CreateKeeps(s.core, k, now + jitter);
    case _ =>
      hide Draining, Apply, Enabled;
      DrainingOther(cfg, s, step);
  }

  lemma DrainingOther(cfg: Config, s: State, step: Step)
    requires Enabled(cfg, s, step) && Draining(s)
    requires !step.UpdateStep? && !step.FlushAllStep? && !step.ForgetStep? && !step.FlushStep? && !step.TakeStep? && !step.HangStep?
    ensures Draining(Apply(cfg, s, step)) <==> KeepsDraining(cfg, s, step)
  {
    hide QueueOk, WithoutWriter, DoFlushOld;
  }

  lemma DrainingForget(s: State, k: Key)
    requires Draining(s)
    ensures Draining(DoForget(s, k))
  {
    hide Wake;
    RemoveMembers(s.core.queue, k);
  }

  lemma DrainingFlush(s: State, client: nat, k: Key)
    requires Draining(s)
    ensures Draining(DoFlush(s, client, k))
  {
    if Pending(s.core, k) != [] {
      EnqueueKeeps(s.core, k, Head);
      RemoveMembers(s.core.queue, k);
      hide QueueOk, Remove;
    }
  }

  lemma DrainingTake(cfg: Config, s: State, w: nat, jitter: int)
    requires Draining(s) && w < |s.writers| && s.core.queue != [] && s.core.queue[0] in s.core.tree
    ensures Draining(DoTake(cfg, s, w, jitter))
  {
    RemovalKeeps(s.core, s.core.queue[0], s.clock + jitter);
    RemoveMembers(s.core.queue, s.core.queue[0]);
    hide QueueOk, Remove;
  }

  /** Every step of the run keeps the draining. */
  ghost predicate Drains(cfg: Config, s: State, steps: seq<Step>)
    decreases |steps|
  {
    steps != [] ==>
      Enabled(cfg, s, steps[0]) && KeepsDraining(cfg, s, steps[0]) && Drains(cfg, Apply(cfg, s, steps[0]), steps[1..])
  }

  ghost predicate DrainingAlong(cfg: Config, s: State, steps: seq<Step>)
    decreases |steps|
  {
    Draining(s) && (steps != [] ==> Enabled(cfg, s, steps[0]) && DrainingAlong(cfg, Apply(cfg, s, steps[0]), steps[1..]))
  }

  /** Over every run that follows SHUTDOWN, with all handlers: whatever is pending is queued in every state exactly if every
      step keeps that. */
  lemma {:induction false} DrainsIff(cfg: Config, s: State, steps: seq<Step>, t: State)
    requires Draining(s) && IsRun(cfg, s, steps, t)
    ensures DrainingAlong(cfg, s, steps) <==> Drains(cfg, s, steps)
    decreases |steps|
  {
    hide Apply, Enabled, Draining, KeepsDraining;
    if steps != [] {
      DrainingIff(cfg, s, steps[0]);
      if KeepsDraining(cfg, s, steps[0]) {
        DrainsIff(cfg, Apply(cfg, s, steps[0]), steps[1..], t);
      }
    }
  }

  lemma {:induction false} DrainingRun(cfg: Config, s: State, steps: seq<Step>, t: State)
    requires Draining(s) && IsRun(cfg, s, steps, t) && Drains(cfg, s, steps)
    ensures Draining(t)
    decreases |steps|
  {
    hide Apply, Enabled, Draining, KeepsDraining;
    if steps != [] {
      DrainingIff(cfg, s, steps[0]);
      DrainingRun(cfg, Apply(cfg, s, steps[0]), steps[1..], t);
    }
  }

  lemma {:induction false} NoFlight(writers: seq<Writer>, k: Key)
    requires forall w <- writers :: !w.Writing?
    ensures FlightOf(writers, k) == multiset{}
  {
    if writers != [] {
      assert writers[0] in writers;
      NoFlight(writers[1..], k);
    }
  }

  /** Joins two runs. */
  lemma {:induction false} RunConcat(cfg: Config, s: State, a: seq<Step>, m: State, b: seq<Step>, t: State)
    requires IsRun(cfg, s, a, m) && IsRun(cfg, m, b, t)
    ensures IsRun(cfg, s, a + b, t)
    decreases |a|
  {
    hide Apply, Enabled;
    if a == [] {
      assert a + b == b;
    } else {
      RunConcat(cfg, Apply(cfg, s, a[0]), a[1..], m, b, t);
      assert (a + b)[1..] == a[1..] + b;
    }
  }

  /** Clean shutdown: with flush-at-shutdown on, whatever handlers are still at work after SHUTDOWN, if each step keeps the
      draining, then once every writer has left, the queue is empty, no item has pending values, nothing is in flight, and
      every value ever accepted was handed to `rrd_update_r` or dropped by FORGET. */
  lemma CleanShutdown(cfg: Config, s: State, before: seq<Step>, m: State, order: seq<Key>, after: seq<Step>, t: State, k: Key)
    requires Init(cfg, s) && IsRun(cfg, s, before, m)
    requires m.flushAtShutdown && Enabled(cfg, m, ShutdownStep(order))
    requires IsRun(cfg, Apply(cfg, m, ShutdownStep(order)), after, t) && Drains(cfg, Apply(cfg, m, ShutdownStep(order)), after)
    requires t.writers != [] && forall w <- t.writers :: w.Exited?
    ensures t.core.queue == [] && Pending(t.core, k) == [] && FlightOf(t.writers, k) == multiset{}
    ensures multiset(Of(t.hist.accepted, k)) == multiset(Of(t.hist.handed, k)) + multiset(Of(t.hist.dropped, k))
  {
    hide IsRun, Enabled, Apply, Drains, FlightOf;
    ReachedQueueOk(cfg, s, before, m);
    InitNoneExited(cfg, s);
    NoneExitedRun(cfg, s, before, m);
    ShutdownApplies(cfg, m, order);
    ShutdownDrains(cfg, m, order);
    DrainingRun(cfg, Apply(cfg, m, ShutdownStep(order)), after, t);
    assert t.writers[0] in t.writers;
    NoFlight(t.writers, k);
    OneMore(cfg, m, ShutdownStep(order), after, t);
    RunConcat(cfg, s, before, m, [ShutdownStep(order)] + after, t);
    Conservation(cfg, s, before + ([ShutdownStep(order)] + after), t, k);
  }

  lemma ShutdownApplies(cfg: Config, m: State, order: seq<Key>)
    requires Enabled(cfg, m, ShutdownStep(order))
    ensures Apply(cfg, m, ShutdownStep(order)) == DoShutdown(cfg, m, order)
  {
  }

  lemma InitNoneExited(cfg: Config, s: State)
    requires Init(cfg, s)
    ensures NoneExited(s)
  {
  }

  lemma OneMore(cfg: Config, s: State, step: Step, rest: seq<Step>, t: State)
    requires Enabled(cfg, s, step) && IsRun(cfg, Apply(cfg, s, step), rest, t)
    ensures IsRun(cfg, s, [step] + rest, t)
  {
    hide Apply, Enabled;
    assert ([step] + rest)[1..] == rest;
  }

  lemma ReachedQueueOk(cfg: Config, s: State, steps: seq<Step>, t: State)
    requires Init(cfg, s) && IsRun(cfg, s, steps, t)
    ensures QueueOk(t.core)
  {
    Order(cfg, s, steps, t, "");
  }

  // ----- the lost lock

  lemma StuckStep(cfg: Config, s: State, step: Step)
    requires s.stuck && Enabled(cfg, s, step)
    ensures var t := Apply(cfg, s, step);
            t.stuck && t.core == s.core && t.waiting == s.waiting && |t.writers| == |s.writers| &&
            forall w :: 0 <= w < |s.writers| ==> (t.writers[w].Exited? <==> s.writers[w].Exited?)
  {
    hide WithoutWriter;
  }

  /** An UPDATE that returns with the lock held ends the daemon's work, in every run that follows: no value is ever
      dequeued, flushed or forgotten again, no waiting client is answered, and no writer leaves, so that the shutdown
      that waits for them does not end. */
  lemma {:induction false} StuckForever(cfg: Config, s: State, steps: seq<Step>, t: State)
    requires s.stuck && IsRun(cfg, s, steps, t)
    ensures t.stuck && t.core == s.core && t.waiting == s.waiting && |t.writers| == |s.writers|
    ensures forall w :: 0 <= w < |s.writers| ==> (t.writers[w].Exited? <==> s.writers[w].Exited?)
    decreases |steps|
  {
    hide Apply, Enabled;
    if steps != [] {
      StuckStep(cfg, s, steps[0]);
      StuckForever(cfg, Apply(cfg, s, steps[0]), steps[1..], t);
    }
  }

  /** What goes on without the lock: time, signals, handing over a batch that has been dequeued, and the journal. Everything
      else waits for it. */
  lemma LockFree(cfg: Config, s: State, step: Step)
    ensures step.ClockStep? || step.SignalStep? || step.HandStep? || step.RecordWroteStep? || step.RecordForgetStep? ||
            step.OutStep? || step.NewFileStep? || step.RotateStep? ==>
      (Enabled(cfg, s.(stuck := true), step) <==> Enabled(cfg, s.(stuck := false), step))
    ensures s.stuck && Enabled(cfg, s, step) ==>
      step.ClockStep? || step.SignalStep? || step.HandStep? || step.RecordWroteStep? || step.RecordForgetStep? ||
      step.OutStep? || step.NewFileStep? || step.RotateStep?
  {
    hide JitterOk, IsOrder, JournalText.Written;
  }

  // ----- the FLUSH guarantee

  /** A writer is somewhere between its two critical sections with a batch of this file. */
  predicate Holds(w: Writer, k: Key) {
    !w.Idle? && !w.Exited? && w.key == k
  }

  ghost predicate SomeHolds(s: State, k: Key) {
    exists i :: 0 <= i < |s.writers| && Holds(s.writers[i], k)
  }

  /** None of the first `asked` values accepted for the file is pending any more. */
  ghost predicate Dequeued(s: State, k: Key, asked: nat) {
    |Of(s.hist.accepted, k)| - |Pending(s.core, k)| >= asked
  }

  /** Nor is `rrd_update_r` still at work on the file. */
  ghost predicate Settled(s: State, k: Key, asked: nat) {
    Dequeued(s, k, asked) && forall w <- s.writers :: !(w.Writing? && w.key == k)
  }

  /** As long as a client waits: its item exists, and as soon as some writer holds a batch of the file,
      nothing that the client asked for is pending any more. */
  ghost predicate WaitOk(s: State, client: nat, k: Key, asked: nat) {
    PendingLast(s, k) && asked <= |Of(s.hist.accepted, k)| &&
    client in s.waiting && s.waiting[client] == Wait(k, asked) && k in s.core.tree &&
    (SomeHolds(s, k) || s.core.tree[k].values == [] ==> Dequeued(s, k, asked))
  }

  /** Flushing old values, for a client that waits for a file: it is woken exactly if the file's idle item is evicted. */
  lemma FlushOldWaits(cfg: Config, s: State, order: seq<Key>, maxAge: int, client: nat, k: Key)
    requires (forall x <- order :: x in s.core.tree) && client in s.waiting && s.waiting[client].key == k && k in s.core.tree
    ensures var t := DoFlushOld(cfg, s, order, maxAge);
            t.writers == s.writers && t.hist.accepted == s.hist.accepted && t.stuck == s.stuck &&
            Pending(t.core, k) == Pending(s.core, k) &&
            (client in t.waiting <==> k in t.core.tree) && (client in t.waiting ==> t.waiting[client] == s.waiting[client]) &&
            (client !in t.waiting ==> Pending(s.core, k) == [])
  {
    hide FlushOld;
    FlushOldView(cfg, s.core, order, maxAge, s.clock, s.phase.Running?, k);
  }

  /** A step that leaves the client waiting keeps this. */
  lemma WaitStep(cfg: Config, s: State, step: Step, client: nat, k: Key, asked: nat)
    requires Enabled(cfg, s, step) && WaitOk(s, client, k, asked)
    requires client in Apply(cfg, s, step).waiting
    ensures WaitOk(Apply(cfg, s, step), client, k, asked)
  {
    hide DoFlushOld, Enqueue, JitterOk, PendingLast, DoUpdate, DoTake, DoHand, DoRecordWrote;
    PendingLastStep(cfg, s, step, k);
    match step
    case UpdateStep(x, fields, args, now, jitter, writable) => WaitUpdate(cfg, s, x, fields, args, now, jitter, writable, client, k, asked);
    case FlushStep(other, x) => if x in s.core.tree { EnqueueTree(s.core, x); }
    case FlushAllStep(order) => FlushOldWaits(cfg, s, order, -1, client, k);
    case TickStep(order) => FlushOldWaits(cfg, s, order, cfg.writeInterval, client, k);
    case ShutdownStep(order) => if s.flushAtShutdown { FlushOldWaits(cfg, s, order, -1, client, k); }
    case TakeStep(w, jitter) => WaitTake(cfg, s, w, jitter, client, k, asked);
    case HandStep(w) => WaitHand(s, w, client, k, asked);
    case RecordWroteStep(w) => WaitWrote(s, w, client, k, asked);
    case _ =>
      hide Apply, Enabled;
      WaitOther(cfg, s, step, client, k, asked);
  }

  lemma WaitOther(cfg: Config, s: State, step: Step, client: nat, k: Key, asked: nat)
    requires Enabled(cfg, s, step) && WaitOk(s, client, k, asked) && PendingLast(Apply(cfg, s, step), k)
    requires client in Apply(cfg, s, step).waiting
    requires !step.UpdateStep? && !step.FlushStep? && !step.FlushAllStep? && !step.TickStep? && !step.ShutdownStep?
    requires !step.TakeStep? && !step.HandStep? && !step.RecordWroteStep?
    ensures WaitOk(Apply(cfg, s, step), client, k, asked)
  {
    hide DoFlushOld, Enqueue, JitterOk, PendingLast, DoUpdate, WithoutWriter, Remove, Printed;
  }

  lemma WaitUpdate(cfg: Config, s: State, x: Key, fields: seq<Field>, args: string, now: int, jitter: int, writable: bool,
                   client: nat, k: Key, asked: nat)
    requires WaitOk(s, client, k, asked) && PendingLast(DoUpdate(cfg, s, x, fields, args, now, jitter, writable), k)
    ensures WaitOk(DoUpdate(cfg, s, x, fields, args, now, jitter, writable), client, k, asked)
  {
    hide Absorb, Update, PendingLast;
    UpdateView(cfg, s.core, x, fields, now, jitter, k);
  }

  lemma WaitTake(cfg: Config, s: State, w: nat, jitter: int, client: nat, k: Key, asked: nat)
    requires WaitOk(s, client, k, asked) && w < |s.writers| && s.core.queue != [] && s.core.queue[0] in s.core.tree
    requires s.writers[w].Idle? && PendingLast(DoTake(cfg, s, w, jitter), k)
    ensures WaitOk(DoTake(cfg, s, w, jitter), client, k, asked)
  {
    hide PendingLast, Remove;
  }

  lemma WaitHand(s: State, w: nat, client: nat, k: Key, asked: nat)
    requires WaitOk(s, client, k, asked) && w < |s.writers| && s.writers[w].Writing? && PendingLast(DoHand(s, w), k)
    ensures WaitOk(DoHand(s, w), client, k, asked)
  {
    hide PendingLast;
  }

  lemma WaitWrote(s: State, w: nat, client: nat, k: Key, asked: nat)
    requires WaitOk(s, client, k, asked) && w < |s.writers| && s.writers[w].Handed? && PendingLast(DoRecordWrote(s, w), k)
    ensures WaitOk(DoRecordWrote(s, w), client, k, asked)
  {
    hide PendingLast, WithoutWriter;
  }

  /** A client never waits again under the same name before it is woken. */
  ghost predicate StillWaiting(cfg: Config, s: State, steps: seq<Step>, client: nat)
    decreases |steps|
  {
    client in s.waiting &&
    (steps != [] ==> Enabled(cfg, s, steps[0]) && StillWaiting(cfg, Apply(cfg, s, steps[0]), steps[1..], client))
  }

  lemma {:induction false} WaitRun(cfg: Config, s: State, steps: seq<Step>, t: State, client: nat, k: Key, asked: nat)
    requires WaitOk(s, client, k, asked) && IsRun(cfg, s, steps, t) && StillWaiting(cfg, s, steps, client)
    ensures WaitOk(t, client, k, asked)
    decreases |steps|
  {
    hide Apply, Enabled, WaitOk;
    if steps != [] {
      WaitStep(cfg, s, steps[0], client, k, asked);
      WaitRun(cfg, Apply(cfg, s, steps[0]), steps[1..], t, client, k, asked);
    }
  }

  /** Whatever wakes the client: nothing it asked for is pending then. */
  lemma WokenDequeued(cfg: Config, s: State, step: Step, client: nat, k: Key, asked: nat)
    requires Enabled(cfg, s, step) && WaitOk(s, client, k, asked)
    requires client !in Apply(cfg, s, step).waiting
    ensures Dequeued(Apply(cfg, s, step), k, asked)
  {
    hide DoFlushOld, Absorb, Update, Enqueue, Remove, WithoutWriter, JitterOk;
    match step
    case FlushAllStep(order) => FlushOldWaits(cfg, s, order, -1, client, k);
    case TickStep(order) => FlushOldWaits(cfg, s, order, cfg.writeInterval, client, k);
    case ShutdownStep(order) => if s.flushAtShutdown { FlushOldWaits(cfg, s, order, -1, client, k); }
    case DoneStep(w) => assert Holds(s.writers[w], k);
    case _ =>
  }

  /** What has been accepted stays accepted, in order. */
  lemma AcceptedStep(cfg: Config, s: State, step: Step, k: Key)
    requires Enabled(cfg, s, step)
    ensures Of(s.hist.accepted, k) <= Of(Apply(cfg, s, step).hist.accepted, k)
  {
    hide Absorb, FlushOld, Update, Enqueue, Remove, WithoutWriter, JitterOk, Wake, StaleKeys, Wipe, Drop, IsOrder;
  }

  lemma {:induction false} AcceptedRun(cfg: Config, s: State, steps: seq<Step>, t: State, k: Key)
    requires IsRun(cfg, s, steps, t)
    ensures Of(s.hist.accepted, k) <= Of(t.hist.accepted, k)
    decreases |steps|
  {
    hide Apply, Enabled, Of;
    if steps != [] {
      AcceptedStep(cfg, s, steps[0], k);
      AcceptedRun(cfg, Apply(cfg, s, steps[0]), steps[1..], t, k);
    }
  }

  /** The first `asked` values accepted are in flight, handed over or dropped once none of them is pending. */
  lemma DequeuedMeans(cfg: Config, s: State, steps: seq<Step>, t: State, k: Key, asked: nat)
    requires Init(cfg, s) && IsRun(cfg, s, steps, t) && Dequeued(t, k, asked)
    ensures asked <= |Of(t.hist.accepted, k)|
    ensures multiset(Of(t.hist.accepted, k)[..asked]) <=
            FlightOf(t.writers, k) + multiset(Of(t.hist.handed, k)) + multiset(Of(t.hist.dropped, k))
  {
    hide Init, IsRun, FlightOf, QueueOk, Increasing, Of, Pending;
    Conservation(cfg, s, steps, t, k);
    Order(cfg, s, steps, t, k);
    var a, n := Of(t.hist.accepted, k), |Of(t.hist.accepted, k)| - |Pending(t.core, k)|;
    assert a == a[..asked] + a[asked..n] + Pending(t.core, k);
    assert multiset(a) == multiset(a[..asked]) + multiset(a[asked..n]) + multiset(Pending(t.core, k));
    PartOf(multiset(a[..asked]), multiset(a[asked..n]), multiset(Pending(t.core, k)), FlightOf(t.writers, k),
           multiset(Of(t.hist.handed, k)), multiset(Of(t.hist.dropped, k)));
  }

  lemma PartOf<T>(a: multiset<T>, b: multiset<T>, pending: multiset<T>, x: multiset<T>, y: multiset<T>, z: multiset<T>)
    requires a + b + pending == pending + x + y + z
    ensures a <= x + y + z
  {
    forall v ensures a[v] <= (x + y + z)[v] {
      assert (a + b + pending)[v] == (pending + x + y + z)[v];
    }
  }

  /** The run from the start to the state in which the client has been woken. */
  lemma WholeRun(cfg: Config, s: State, before: seq<Step>, m: State, ask: Step, during: seq<Step>, t: State, step: Step)
    returns (steps: seq<Step>)
    requires IsRun(cfg, s, before, m) && Enabled(cfg, m, ask)
    requires IsRun(cfg, Apply(cfg, m, ask), during, t) && Enabled(cfg, t, step)
    ensures IsRun(cfg, s, steps, Apply(cfg, t, step))
  {
    hide Apply, Enabled;
    RunNone(cfg, Apply(cfg, t, step));
    OneMore(cfg, t, step, [], Apply(cfg, t, step));
    RunConcat(cfg, Apply(cfg, m, ask), during, t, [step] + [], Apply(cfg, t, step));
    OneMore(cfg, m, ask, during + ([step] + []), Apply(cfg, t, step));
    steps := before + ([ask] + (during + ([step] + [])));
    RunConcat(cfg, s, before, m, [ask] + (during + ([step] + [])), Apply(cfg, t, step));
  }

  lemma RunNone(cfg: Config, s: State)
    ensures IsRun(cfg, s, [], s)
  {
  }

  /** FLUSH, with any number of writers of which none holds a batch of the file when the client asks: when the client is
      woken, by a writer, FORGET or eviction, nothing that it asked for is pending. Every value accepted before it asked
      has been handed to `rrd_update_r` or dropped by FORGET, except for batches that writers are just writing. */
  lemma FlushGuarantee(cfg: Config, s: State, before: seq<Step>, m: State, client: nat, k: Key,
                       during: seq<Step>, t: State, step: Step)
    requires Init(cfg, s) && IsRun(cfg, s, before, m)
    requires Enabled(cfg, m, FlushStep(client, k)) && Pending(m.core, k) != [] && !SomeHolds(m, k)
    requires IsRun(cfg, Apply(cfg, m, FlushStep(client, k)), during, t)
    requires StillWaiting(cfg, Apply(cfg, m, FlushStep(client, k)), during, client)
    requires Enabled(cfg, t, step) && client !in Apply(cfg, t, step).waiting
    ensures var u := Apply(cfg, t, step);
            Dequeued(u, k, |Of(m.hist.accepted, k)|) &&
            multiset(Of(m.hist.accepted, k)) <=
              FlightOf(u.writers, k) + multiset(Of(u.hist.handed, k)) + multiset(Of(u.hist.dropped, k))
  {
    hide *;
    var asked := |Of(m.hist.accepted, k)|;
    InitInvariant(cfg, s, k, Value(0.0, ""));
    RunInvariant(cfg, s, before, m, k, Value(0.0, ""));
    AskedWaits(cfg, m, client, k);
    WaitRun(cfg, Apply(cfg, m, FlushStep(client, k)), during, t, client, k, asked);
    WokenDequeued(cfg, t, step, client, k, asked);
    var steps := WholeRun(cfg, s, before, m, FlushStep(client, k), during, t, step);
    DequeuedMeans(cfg, s, steps, Apply(cfg, t, step), k, asked);
    AcceptedStep(cfg, m, FlushStep(client, k), k);
    AcceptedRun(cfg, Apply(cfg, m, FlushStep(client, k)), during, t, k);
    AcceptedStep(cfg, t, step, k);
    var a := Of(Apply(cfg, t, step).hist.accepted, k);
    assert Of(m.hist.accepted, k) <= Of(t.hist.accepted, k) <= a;
    assert a[..asked] == Of(m.hist.accepted, k);
  }

  // ----- exactly when one writer keeps the promise

  /** The one writer holds an older batch, and the last value asked for is pending. */
  ghost predicate HeldWait(s: State, client: nat, k: Key, asked: nat) {
    |s.writers| == 1 && Holds(s.writers[0], k) && client in s.waiting && s.waiting[client].key == k && k in s.core.tree &&
    !Dequeued(s, k, asked)
  }

  lemma HeldStep(cfg: Config, s: State, step: Step, client: nat, k: Key, asked: nat)
    requires Enabled(cfg, s, step) && HeldWait(s, client, k, asked)
    requires client in Apply(cfg, s, step).waiting
    ensures HeldWait(Apply(cfg, s, step), client, k, asked)
  {
    hide DoFlushOld, Enqueue, JitterOk, DoUpdate, DoHand, DoRecordWrote;
    match step
    case UpdateStep(x, fields, args, now, jitter, writable) =>
      HeldUpdate(cfg, s, x, fields, args, now, jitter, writable, client, k, asked);
    case FlushStep(other, x) => if x in s.core.tree { EnqueueTree(s.core, x); }
    case FlushAllStep(order) => FlushOldWaits(cfg, s, order, -1, client, k);
    case TickStep(order) => FlushOldWaits(cfg, s, order, cfg.writeInterval, client, k);
    case ShutdownStep(order) => if s.flushAtShutdown { FlushOldWaits(cfg, s, order, -1, client, k); }
    case HandStep(w) => HeldHand(s, w);
    case RecordWroteStep(w) => HeldWrote(s, w);
    case _ =>
      hide Apply, Enabled;
      HeldOther(cfg, s, step, client, k, asked);
  }

  lemma HeldOther(cfg: Config, s: State, step: Step, client: nat, k: Key, asked: nat)
    requires Enabled(cfg, s, step) && HeldWait(s, client, k, asked)
    requires client in Apply(cfg, s, step).waiting
    requires !step.UpdateStep? && !step.FlushStep? && !step.FlushAllStep? && !step.TickStep? && !step.ShutdownStep?
    requires !step.HandStep? && !step.RecordWroteStep?
    ensures HeldWait(Apply(cfg, s, step), client, k, asked)
  {
    hide DoFlushOld, Enqueue, JitterOk, DoUpdate, WithoutWriter, Remove, Printed;
  }

  lemma HeldHand(s: State, w: nat)
    requires w < |s.writers| && s.writers[w].Writing?
    ensures var t := DoHand(s, w);
            t.core == s.core && t.waiting == s.waiting && t.hist.accepted == s.hist.accepted &&
            t.writers == s.writers[w := Handed(s.writers[w].key, s.writers[w].values)]
  {
  }

  lemma HeldWrote(s: State, w: nat)
    requires w < |s.writers| && s.writers[w].Handed?
    ensures var t := DoRecordWrote(s, w);
            t.core == s.core && t.waiting == s.waiting && t.hist.accepted == s.hist.accepted &&
            t.writers == s.writers[w := Recorded(s.writers[w].key, s.writers[w].values)]
  {
  }

  lemma HeldUpdate(cfg: Config, s: State, x: Key, fields: seq<Field>, args: string, now: int, jitter: int, writable: bool,
                   client: nat, k: Key, asked: nat)
    requires HeldWait(s, client, k, asked)
    ensures HeldWait(DoUpdate(cfg, s, x, fields, args, now, jitter, writable), client, k, asked)
  {
    hide Absorb, Update;
    UpdateView(cfg, s.core, x, fields, now, jitter, k);
  }

  lemma {:induction false} HeldRun(cfg: Config, s: State, steps: seq<Step>, t: State, client: nat, k: Key, asked: nat)
    requires HeldWait(s, client, k, asked) && IsRun(cfg, s, steps, t) && StillWaiting(cfg, s, steps, client)
    ensures HeldWait(t, client, k, asked)
    decreases |steps|
  {
    hide Apply, Enabled, HeldWait;
    if steps != [] {
      HeldStep(cfg, s, steps[0], client, k, asked);
      HeldRun(cfg, Apply(cfg, s, steps[0]), steps[1..], t, client, k, asked);
    }
  }

  lemma AskedHeld(cfg: Config, m: State, client: nat, k: Key)
    requires Enabled(cfg, m, FlushStep(client, k)) && Pending(m.core, k) != [] && |m.writers| == 1 && Holds(m.writers[0], k)
    ensures HeldWait(Apply(cfg, m, FlushStep(client, k)), client, k, |Of(m.hist.accepted, k)|)
  {
    hide Enqueue;
    EnqueueTree(m.core, k);
  }

  lemma HeldDone(cfg: Config, s: State, w: nat, client: nat, k: Key, asked: nat)
    requires HeldWait(s, client, k, asked) && Enabled(cfg, s, DoneStep(w))
    ensures !Dequeued(Apply(cfg, s, DoneStep(w)), k, asked)
  {
  }

  /** After the one writer's broadcast nothing of the file is being written. */
  lemma DoneIdle(cfg: Config, s: State, w: nat, k: Key)
    requires |s.writers| == 1 && Enabled(cfg, s, DoneStep(w))
    ensures forall x <- Apply(cfg, s, DoneStep(w)).writers :: !x.Writing?
    ensures FlightOf(Apply(cfg, s, DoneStep(w)).writers, k) == multiset{}
  {
    NoFlight(Apply(cfg, s, DoneStep(w)).writers, k);
  }

  /** With one writer, a client woken by the writer is answered rightly, with every value it asked for written or
      forgotten, if and only if the writer held no batch of the file at the moment it asked. Otherwise the last of these
      values is still pending. */
  lemma FlushExactly(cfg: Config, s: State, before: seq<Step>, m: State, client: nat, k: Key,
                     during: seq<Step>, t: State, w: nat)
    requires Init(cfg, s) && |s.writers| == 1 && IsRun(cfg, s, before, m)
    requires Enabled(cfg, m, FlushStep(client, k)) && Pending(m.core, k) != []
    requires IsRun(cfg, Apply(cfg, m, FlushStep(client, k)), during, t)
    requires StillWaiting(cfg, Apply(cfg, m, FlushStep(client, k)), during, client)
    requires Enabled(cfg, t, DoneStep(w)) && client !in Apply(cfg, t, DoneStep(w)).waiting
    ensures |m.writers| == 1
    ensures var u := Apply(cfg, t, DoneStep(w));
            (Settled(u, k, |Of(m.hist.accepted, k)|) <==> !Holds(m.writers[0], k)) &&
            (Dequeued(u, k, |Of(m.hist.accepted, k)|) <==> !Holds(m.writers[0], k)) &&
            (!Holds(m.writers[0], k) ==>
              multiset(Of(m.hist.accepted, k)) <= multiset(Of(u.hist.handed, k)) + multiset(Of(u.hist.dropped, k)))
  {
    hide IsRun, Enabled, Apply, Init, Pending, Of, StillWaiting, FlightOf, Dequeued, Holds;
    var asked := |Of(m.hist.accepted, k)|;
    var n := Apply(cfg, m, FlushStep(client, k));
    WritersRun(cfg, s, before, m);
    WritersStep(cfg, m, FlushStep(client, k));
    WritersRun(cfg, n, during, t);
    DoneIdle(cfg, t, w, k);
    if Holds(m.writers[0], k) {
      AskedHeld(cfg, m, client, k);
      HeldRun(cfg, n, during, t, client, k, asked);
      HeldDone(cfg, t, w, client, k, asked);
    } else {
      FlushGuarantee(cfg, s, before, m, client, k, during, t, DoneStep(w));
    }
  }

  lemma AskedWaits(cfg: Config, m: State, client: nat, k: Key)
    requires Enabled(cfg, m, FlushStep(client, k)) && Pending(m.core, k) != [] && !SomeHolds(m, k)
    requires Invariant(m, k, Value(0.0, ""))
    ensures WaitOk(Apply(cfg, m, FlushStep(client, k)), client, k, |Of(m.hist.accepted, k)|)
  {
    hide Enqueue, Conserved, Ordered, QueueOk;
    EnqueueTree(m.core, k);
  }

  lemma {:induction false} WritersRun(cfg: Config, s: State, steps: seq<Step>, t: State)
    requires IsRun(cfg, s, steps, t)
    ensures |t.writers| == |s.writers|
    decreases |steps|
  {
    hide Apply, Enabled;
    if steps != [] {
      WritersStep(cfg, s, steps[0]);
      WritersRun(cfg, Apply(cfg, s, steps[0]), steps[1..], t);
    }
  }

  lemma WritersStep(cfg: Config, s: State, step: Step)
    requires Enabled(cfg, s, step)
    ensures |Apply(cfg, s, step).writers| == |s.writers|
  {
    hide Absorb, FlushOld, Update, StaleKeys, Enqueue, Remove, WithoutWriter, JitterOk, Wake;
  }

  // ----- the hypothesis is needed with any number of writers

  /** How many steps the writer has left in front of its broadcast. */
  function Stage(w: Writer): nat {
    match w
    case Writing(_, _) => 2
    case Handed(_, _) => 1
    case _ => 0
  }

  ghost predicate EarlyReady(s: State, client: nat, k: Key, w: nat, asked: nat) {
    w < |s.writers| && Holds(s.writers[w], k) && client in s.waiting && s.waiting[client].key == k && k in s.core.tree &&
    !s.stuck && !Dequeued(s, k, asked)
  }

  lemma {:induction false} EarlyRun(cfg: Config, s: State, client: nat, k: Key, w: nat, asked: nat)
    returns (during: seq<Step>, t: State)
    requires EarlyReady(s, client, k, w, asked)
    ensures IsRun(cfg, s, during, t) && StillWaiting(cfg, s, during, client)
    ensures EarlyReady(t, client, k, w, asked) && Enabled(cfg, t, DoneStep(w))
    decreases Stage(s.writers[w])
  {
    if s.writers[w].Recorded? {
      during, t := [], s;
    } else {
      var step := if s.writers[w].Writing? then HandStep(w) else RecordWroteStep(w);
      EarlyStep(cfg, s, step, client, k, w, asked);
      var rest;
      rest, t := EarlyRun(cfg, Apply(cfg, s, step), client, k, w, asked);
      hide Apply, Enabled, EarlyReady;
      OneMore(cfg, s, step, rest, t);
      during := [step] + rest;
      assert during[1..] == rest;
    }
  }

  lemma EarlyStep(cfg: Config, s: State, step: Step, client: nat, k: Key, w: nat, asked: nat)
    requires EarlyReady(s, client, k, w, asked) && !s.writers[w].Recorded?
    requires step == if s.writers[w].Writing? then HandStep(w) else RecordWroteStep(w)
    ensures Enabled(cfg, s, step) && EarlyReady(Apply(cfg, s, step), client, k, w, asked)
    ensures Stage(Apply(cfg, s, step).writers[w]) < Stage(s.writers[w])
  {
    hide WithoutWriter;
  }

  /** If any writer holds a batch of the file when the client asks, the guarantee fails: that writer may go on to its
      broadcast, which wakes the client while the last value it asked for is pending. */
  lemma FlushWokenEarly(cfg: Config, m: State, client: nat, k: Key, w: nat) returns (during: seq<Step>, t: State)
    requires Enabled(cfg, m, FlushStep(client, k)) && Pending(m.core, k) != []
    requires w < |m.writers| && Holds(m.writers[w], k)
    ensures IsRun(cfg, Apply(cfg, m, FlushStep(client, k)), during, t)
    ensures StillWaiting(cfg, Apply(cfg, m, FlushStep(client, k)), during, client)
    ensures Enabled(cfg, t, DoneStep(w)) && client !in Apply(cfg, t, DoneStep(w)).waiting
    ensures !Dequeued(Apply(cfg, t, DoneStep(w)), k, |Of(m.hist.accepted, k)|)
  {
    hide Enqueue, IsRun, StillWaiting;
    EnqueueTree(m.core, k);
    during, t := EarlyRun(cfg, Apply(cfg, m, FlushStep(client, k)), client, k, w, |Of(m.hist.accepted, k)|);
  }
}
