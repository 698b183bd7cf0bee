/** When a file is queued for writing, and in which order (rrd_daemon.c). */
module DaemonSchedule {
  import opened CacheModel
  import opened DaemonModel
  import opened DaemonRuns
  import DaemonFlush
  import DaemonJournal

  // ----- what one critical section queues

  /** UPDATE leaves the item with what it accepted, and queues it behind all others if the write interval has passed since
      its last flush, whether something was pending before or not. */
  lemma UpdateQueues(cfg: Config, c: Core, k: Key, fields: seq<Field>, now: int, jitter: int)
    requires QueueOk(c)
    ensures var c', a := Update(cfg, c, k, fields, now, jitter), Absorb(fields, LastStamp(c, k));
            k in c'.tree && c'.tree == c.tree[k := c'.tree[k]] &&
            c'.tree[k] == Item(Pending(c, k) + a.values, if k in c.tree then c.tree[k].lastFlush else now + jitter, a.last) &&
            (c'.queue == c.queue || (k !in c.queue && c'.queue == c.queue + [k])) &&
            (k in c'.queue <==>
             k in c.queue || (a.done && Pending(c', k) != [] && now - c'.tree[k].lastFlush >= cfg.writeInterval))
  {
    hide Absorb;
  }

  /** The traversal keeps the queue, puts what is due behind it, and takes exactly the idle items out of the tree. */
  lemma FlushQueues(cfg: Config, c: Core, order: seq<Key>, maxAge: int, now: int, running: bool)
    requires IsOrder(order, c.tree.Keys)
    ensures var c' := FlushOld(cfg, c, order, maxAge, now, running);
            c.queue <= c'.queue &&
            (forall k <- c'.tree :: k in c.tree && c'.tree[k] == c.tree[k]) &&
            (forall k <- c.tree :: k !in c'.tree <==>
               k !in c.queue && c.tree[k].values == [] && now - c.tree[k].lastFlush >= cfg.flushInterval) &&
            (forall k <- c.tree :: maxAge > 0 && running ==>
               (k in c'.queue <==> k in c.queue || (c.tree[k].values != [] && c.tree[k].lastFlush <= now - maxAge))) &&
            (forall k <- c.tree :: maxAge <= 0 && (!running || Fresh(cfg, c.tree[k], now)) ==>
               (k in c'.queue <==> k in c.queue || c.tree[k].values != []))
  {
    DueMembers(c, order, if maxAge > 0 then now - maxAge else now + 2 * cfg.writeJitter + 1, running);
    hide DueKeys;
  }

  /** A writer takes the file at the head with all that is pending, and starts its write interval anew. */
  lemma TakeQueues(cfg: Config, s: State, w: nat, jitter: int)
    requires QueueOk(s.core) && Enabled(cfg, s, TakeStep(w, jitter))
    ensures var t, k := Apply(cfg, s, TakeStep(w, jitter)), s.core.queue[0];
            t.writers == s.writers[w := Writing(k, Pending(s.core, k))] &&
            t.core == Core(s.core.tree[k := Item([], s.clock + jitter, s.core.tree[k].lastStamp)], s.core.queue[1..])
  {
  }

  /** FLUSH puts a file with pending values in front of all others, whose order stays, and the client waits. */
  lemma FlushFirst(cfg: Config, s: State, client: nat, k: Key)
    requires QueueOk(s.core) && Enabled(cfg, s, FlushStep(client, k))
    ensures var t := Apply(cfg, s, FlushStep(client, k));
            if Pending(s.core, k) == [] then t == s
            else t.core == Core(s.core.tree, [k] + Remove(s.core.queue, k)) && client in t.waiting && t.waiting[client].key == k
  {
  }

  /** The step puts the file into the queue, if it is not there. */
  predicate Queues(cfg: Config, s: State, step: Step, k: Key) {
    match step
    case UpdateStep(x, fields, _, now, _, _) =>
      var a := Absorb(fields, LastStamp(s.core, k));
      x == k && a.done && k in s.core.tree && Pending(s.core, k) + a.values != [] &&
      now - s.core.tree[k].lastFlush >= cfg.writeInterval
    case FlushStep(_, x) => x == k && Pending(s.core, k) != []
    case FlushAllStep(_) => Pending(s.core, k) != []
    case TickStep(_) => Pending(s.core, k) != [] && s.clock - s.core.tree[k].lastFlush >= cfg.writeInterval
    case ShutdownStep(_) => s.flushAtShutdown && Pending(s.core, k) != []
    case _ => false
  }

  /** The step takes the file off the queue, if it is there. */
  predicate Unqueues(s: State, step: Step, k: Key) {
    match step
    case TakeStep(_, _) => s.core.queue != [] && s.core.queue[0] == k
    case ForgetStep(x) => x == k
    case _ => false
  }

  /** What every step of the machine does to the queue: a file is queued afterwards exactly if it was and is not taken off,
      or is put in. */
  lemma QueuedIff(cfg: Config, s: State, step: Step, k: Key)
    requires cfg.writeInterval > 0 && QueueOk(s.core) && DaemonFlush.TimeOk(cfg, s) && Enabled(cfg, s, step)
    ensures k in Apply(cfg, s, step).core.queue <==> (k in s.core.queue && !Unqueues(s, step, k)) || Queues(cfg, s, step, k)
  {
    hide DoUpdate, DoForget, DoFlush, DoFlushOld, DoTake, Absorb, JitterOk, QueueOk, Create;
    match step
    case UpdateStep(x, fields, args, now, jitter, writable) => QueuedByUpdate(cfg, s, x, fields, args, now, jitter, writable, k);
    case HangStep(x, now, jitter) => CreateKeepsQueue(s.core, x, now + jitter);
    case ForgetStep(x) => QueuedAfterForget(s, x, k);
    case FlushStep(client, x) => QueuedByFlush(s, client, x, k);
    case FlushAllStep(order) => QueuedByTraversal(cfg, s, order, -1, k);
    case TickStep(order) => QueuedByTraversal(cfg, s, order, cfg.writeInterval, k);
    case ShutdownStep(order) => if s.flushAtShutdown { QueuedByTraversal(cfg, s, order, -1, k); }
    case TakeStep(w, jitter) => QueuedAfterTake(cfg, s, w, jitter, k);
    case _ =>
  }

  lemma CreateKeepsQueue(c: Core, k: Key, when: int)
    ensures Create(c, k, when).queue == c.queue
  {
  }

  lemma QueuedByUpdate(cfg: Config, s: State, x: Key, fields: seq<Field>, args: string, now: int, jitter: int, writable: bool, k: Key)
    requires cfg.writeInterval > 0 && JitterOk(cfg, jitter) && QueueOk(s.core)
    ensures k in DoUpdate(cfg, s, x, fields, args, now, jitter, writable).core.queue <==>
            k in s.core.queue || Queues(cfg, s, UpdateStep(x, fields, args, now, jitter, writable), k)
  {
    hide Absorb, Update, QueueOk;
    UpdateQueues(cfg, s.core, x, fields, now, jitter);
  }

  lemma QueuedAfterForget(s: State, x: Key, k: Key)
    requires QueueOk(s.core)
    ensures k in DoForget(s, x).core.queue <==> k in s.core.queue && x != k
  {
    hide Remove, Wake;
    RemoveMembers(s.core.queue, x);
  }

  lemma QueuedByFlush(s: State, client: nat, x: Key, k: Key)
    requires QueueOk(s.core)
    ensures k in DoFlush(s, client, x).core.queue <==> k in s.core.queue || (x == k && Pending(s.core, k) != [])
  {
    hide Remove;
    RemoveMembers(s.core.queue, x);
  }

  lemma QueuedAfterTake(cfg: Config, s: State, w: nat, jitter: int, k: Key)
    requires QueueOk(s.core) && w < |s.writers| && s.core.queue != [] && s.core.queue[0] in s.core.tree
    ensures k in DoTake(cfg, s, w, jitter).core.queue <==> k in s.core.queue && s.core.queue[0] != k
  {
    hide Remove;
    RemoveMembers(s.core.queue, s.core.queue[0]);
  }

  lemma QueuedByTraversal(cfg: Config, s: State, order: seq<Key>, maxAge: int, k: Key)
    requires QueueOk(s.core) && DaemonFlush.TimeOk(cfg, s) && IsOrder(order, s.core.tree.Keys)
    requires maxAge > 0 ==> s.phase.Running?
    ensures k in DoFlushOld(cfg, s, order, maxAge).core.queue <==>
            k in s.core.queue ||
            (Pending(s.core, k) != [] && (maxAge > 0 ==> s.clock - s.core.tree[k].lastFlush >= maxAge))
  {
    hide FlushOld;
    FlushQueues(cfg, s.core, order, maxAge, s.clock, s.phase.Running?);
    FlushOldMembers(cfg, s.core, order, maxAge, s.clock, s.phase.Running?, k);
  }

  lemma FlushOldMembers(cfg: Config, c: Core, order: seq<Key>, maxAge: int, now: int, running: bool, k: Key)
    requires QueueOk(c) && IsOrder(order, c.tree.Keys)
    ensures k in FlushOld(cfg, c, order, maxAge, now, running).queue ==> k in c.tree
  {
    DueMembers(c, order, if maxAge > 0 then now - maxAge else now + 2 * cfg.writeJitter + 1, running);
    hide DueKeys;
  }

  /** An UPDATE that comes back with the lock held has put an empty item into the tree, unless there was one, and nothing else. */
  lemma HangLeaves(cfg: Config, s: State, k: Key, now: int, jitter: int)
    requires Enabled(cfg, s, HangStep(k, now, jitter))
    ensures var t := Apply(cfg, s, HangStep(k, now, jitter));
            t.stuck && t.core.queue == s.core.queue && k in t.core.tree && t.core.tree == s.core.tree[k := t.core.tree[k]] &&
            (k in s.core.tree ==> t.core == s.core) &&
            (k !in s.core.tree ==> t.core.tree[k] == Item([], now + jitter, 0.0)) &&
            t == s.(core := t.core, stuck := true)
  {
  }

  /** The step answers a client that waits for the file. */
  predicate Answers(cfg: Config, s: State, step: Step, k: Key) {
    match step
    case ForgetStep(x) => x == k && k in s.core.tree
    case DoneStep(w) => w < |s.writers| && s.writers[w].Recorded? && s.writers[w].key == k && k in s.core.tree
    case _ => DaemonJournal.Evicts(cfg, s, step, k)
  }

  /** A client that waits goes on waiting exactly if the step does not answer those who wait for its file; and no step but its
      own FLUSH of a file with pending values makes a client wait. */
  lemma AnsweredIff(cfg: Config, s: State, step: Step, client: nat)
    requires Enabled(cfg, s, step)
    ensures client in s.waiting ==>
      (client in Apply(cfg, s, step).waiting <==> !Answers(cfg, s, step, s.waiting[client].key)) &&
      (client in Apply(cfg, s, step).waiting ==> Apply(cfg, s, step).waiting[client] == s.waiting[client])
    ensures client !in s.waiting ==>
      (client in Apply(cfg, s, step).waiting <==> step.FlushStep? && step.client == client && Pending(s.core, step.key) != [])
  {
    hide Update, Absorb, Drop, FlushOld, StaleKeys, Wipe, Create, Enqueue, WithoutWriter, JitterOk, IsOrder, Printed;
  }

  // ----- the order of the queue

  /** x is queued, and y is not in front of it. */
  ghost predicate Ahead(q: seq<Key>, x: Key, y: Key) {
    x in q && forall i, j :: 0 <= i < |q| && 0 <= j < |q| && q[i] == x && q[j] == y ==> i <= j
  }

  lemma CutKeepsOrder(q: seq<Key>, p: nat, x: Key, y: Key)
    requires p < |q| && Ahead(q, x, y) && x != q[p]
    ensures Ahead(q[..p] + q[p + 1..], x, y)
  {
    var r := q[..p] + q[p + 1..];
    var at :| 0 <= at < |q| && q[at] == x;
    assert r[if at < p then at else at - 1] == x;
    forall i, j | 0 <= i < |r| && 0 <= j < |r| && r[i] == x && r[j] == y ensures i <= j {
      var i', j' := if i < p then i else i + 1, if j < p then j else j + 1;
      assert q[i'] == x && q[j'] == y;
    }
  }

  lemma RemoveKeepsOrder(q: seq<Key>, k: Key, x: Key, y: Key)
    requires Distinct(q) && Ahead(q, x, y) && x != k
    ensures Ahead(Remove(q, k), x, y)
  {
    hide Ahead;
    if k in q {
      var p :| 0 <= p < |q| && q[p] == k;
      RemoveAt(q, p);
      CutKeepsOrder(q, p, x, y);
    } else {
      RemoveAbsent(q, k);
    }
  }

  lemma AppendKeepsOrder(q: seq<Key>, r: seq<Key>, x: Key, y: Key)
    requires Distinct(q + r) && Ahead(q, x, y)
    ensures Ahead(q + r, x, y)
  {
    forall i, j | 0 <= i < |q + r| && 0 <= j < |q + r| && (q + r)[i] == x && (q + r)[j] == y ensures i <= j {
      var p :| 0 <= p < |q| && q[p] == x;
      assert (q + r)[p] == x;
      assert i == p;
      if j < |q| { assert q[i] == x && q[j] == y; }
    }
  }

  /** No step but a FLUSH of y itself brings y in front of x. */
  lemma OrderStep(cfg: Config, s: State, step: Step, x: Key, y: Key)
    requires cfg.writeInterval > 0 && QueueOk(s.core) && DaemonFlush.TimeOk(cfg, s) && Enabled(cfg, s, step)
    requires Ahead(s.core.queue, x, y) && x != y && !Unqueues(s, step, x) && !(step.FlushStep? && step.key == y)
    ensures Ahead(Apply(cfg, s, step).core.queue, x, y)
  {
    hide DoUpdate, DoForget, DoFlush, DoFlushOld, DoTake, Absorb, JitterOk, QueueOk, Create, Ahead;
    match step
    case UpdateStep(k, fields, args, now, jitter, writable) => UpdateKeepsOrder(cfg, s, k, fields, args, now, jitter, writable, x, y);
    case HangStep(k, now, jitter) => CreateKeepsQueue(s.core, k, now + jitter);
    case ForgetStep(k) => ForgetKeepsOrder(s, k, x, y);
    case FlushStep(client, k) => FlushKeepsOrder(s, client, k, x, y);
    case FlushAllStep(order) => TraversalKeepsOrder(cfg, s, order, -1, x, y);
    case TickStep(order) => TraversalKeepsOrder(cfg, s, order, cfg.writeInterval, x, y);
    case ShutdownStep(order) => if s.flushAtShutdown { TraversalKeepsOrder(cfg, s, order, -1, x, y); }
    case TakeStep(w, jitter) => TakeKeepsOrder(cfg, s, w, jitter, x, y);
    case _ =>
  }

  lemma UpdateKeepsOrder(cfg: Config, s: State, k: Key, fields: seq<Field>, args: string, now: int, jitter: int, writable: bool,
                         x: Key, y: Key)
    requires QueueOk(s.core) && Ahead(s.core.queue, x, y)
    ensures Ahead(DoUpdate(cfg, s, k, fields, args, now, jitter, writable).core.queue, x, y)
  {
    hide Absorb, Update, Ahead;
    UpdateQueues(cfg, s.core, k, fields, now, jitter);
    if k !in s.core.queue {
      DistinctConcat(s.core.queue, [k]);
      AppendKeepsOrder(s.core.queue, [k], x, y);
    }
  }

  lemma ForgetKeepsOrder(s: State, k: Key, x: Key, y: Key)
    requires QueueOk(s.core) && Ahead(s.core.queue, x, y) && x != k
    ensures Ahead(DoForget(s, k).core.queue, x, y)
  {
    hide Ahead, Remove, Wake;
    RemoveKeepsOrder(s.core.queue, k, x, y);
  }

  lemma TakeKeepsOrder(cfg: Config, s: State, w: nat, jitter: int, x: Key, y: Key)
    requires QueueOk(s.core) && w < |s.writers| && s.core.queue != [] && s.core.queue[0] in s.core.tree
    requires Ahead(s.core.queue, x, y) && x != s.core.queue[0]
    ensures Ahead(DoTake(cfg, s, w, jitter).core.queue, x, y)
  {
    hide Ahead, Remove;
    RemoveKeepsOrder(s.core.queue, s.core.queue[0], x, y);
  }

  lemma FlushKeepsOrder(s: State, client: nat, k: Key, x: Key, y: Key)
    requires QueueOk(s.core) && Ahead(s.core.queue, x, y) && x != y && k != y
    ensures Ahead(DoFlush(s, client, k).core.queue, x, y)
  {
    var q := s.core.queue;
    RemoveMembers(q, k);
    if x != k {
      RemoveKeepsOrder(q, k, x, y);
    }
  }

  lemma TraversalKeepsOrder(cfg: Config, s: State, order: seq<Key>, maxAge: int, x: Key, y: Key)
    requires QueueOk(s.core) && IsOrder(order, s.core.tree.Keys) && Ahead(s.core.queue, x, y)
    ensures Ahead(DoFlushOld(cfg, s, order, maxAge).core.queue, x, y)
  {
    FlushOldKeeps(cfg, s.core, order, maxAge, s.clock, s.phase.Running?);
    FlushQueues(cfg, s.core, order, maxAge, s.clock, s.phase.Running?);
    var q, q' := s.core.queue, DoFlushOld(cfg, s, order, maxAge).core.queue;
    hide Ahead;
    assert q' == q + q'[|q|..];
    AppendKeepsOrder(q, q'[|q|..], x, y);
  }

  // ----- over runs

  /** No step of the run takes the file off the queue, by writer or by FORGET. */
  ghost predicate Stays(cfg: Config, s: State, steps: seq<Step>, k: Key)
    decreases |steps|
  {
    steps != [] ==> Enabled(cfg, s, steps[0]) && !Unqueues(s, steps[0], k) && Stays(cfg, Apply(cfg, s, steps[0]), steps[1..], k)
  }

  predicate Takes(s: State, step: Step, k: Key) {
    step.TakeStep? && s.core.queue != [] && s.core.queue[0] == k
  }

  /** No step of the run is a writer's that takes the file. */
  ghost predicate NeverTaken(cfg: Config, s: State, steps: seq<Step>, k: Key)
    decreases |steps|
  {
    steps != [] ==>
      Enabled(cfg, s, steps[0]) && !Takes(s, steps[0], k) && NeverTaken(cfg, Apply(cfg, s, steps[0]), steps[1..], k)
  }

  lemma HeadIsFirst(q: seq<Key>, x: Key, y: Key)
    requires Ahead(q, x, y) && x != y
    ensures q != [] && q[0] != y
  {
  }

  /** First in, first out: as long as a file stays queued, no file behind it, or that comes into the queue after it, is
      written before it, unless somebody asks for that one with FLUSH. */
  lemma {:induction false} FirstInFirstOut(cfg: Config, s: State, steps: seq<Step>, t: State, x: Key, y: Key)
    requires cfg.writeInterval > 0 && QueueOk(s.core) && DaemonFlush.TimeOk(cfg, s) && IsRun(cfg, s, steps, t)
    requires Ahead(s.core.queue, x, y) && x != y && Stays(cfg, s, steps, x)
    requires forall step <- steps :: !(step.FlushStep? && step.key == y)
    ensures Ahead(t.core.queue, x, y) && NeverTaken(cfg, s, steps, y)
    decreases |steps|
  {
    hide Apply, Enabled, QueueOk, DaemonFlush.TimeOk, Ahead, Unqueues;
    if steps != [] {
      HeadIsFirst(s.core.queue, x, y);
      OrderStep(cfg, s, steps[0], x, y);
      QueueStep(cfg, s, steps[0]);
      DaemonFlush.TimeStep(cfg, s, steps[0]);
      FirstInFirstOut(cfg, Apply(cfg, s, steps[0]), steps[1..], t, x, y);
    }
  }

  /** The item leaves with FORGET or an eviction, and the time of its last flush changes only when a writer takes it. */
  predicate FlushedAs(cfg: Config, s: State, step: Step, t: State, k: Key) {
    (k in t.core.tree <==> k in s.core.tree && step != ForgetStep(k) && !DaemonJournal.Evicts(cfg, s, step, k)) &&
    (k in t.core.tree ==>
      t.core.tree[k].lastFlush == if Takes(s, step, k) then s.clock + step.jitter else s.core.tree[k].lastFlush) &&
    s.clock <= t.clock
  }

  lemma LastFlushStep(cfg: Config, s: State, step: Step, k: Key)
    requires Enabled(cfg, s, step) && QueueOk(s.core) && k in s.core.tree
    ensures FlushedAs(cfg, s, step, Apply(cfg, s, step), k)
  {
    hide DoUpdate, DoForget, DoFlush, DoFlushOld, Absorb, JitterOk, QueueOk, StaleKeys, Wipe, Create, WithoutWriter, Wake, Printed;
    match step
    case UpdateStep(x, fields, args, now, jitter, writable) => LastFlushUpdate(cfg, s, x, fields, args, now, jitter, writable, k);
    case ForgetStep(x) => LastFlushForget(s, x, k);
    case FlushStep(client, x) => LastFlushFlush(s, client, x);
    case FlushAllStep(order) => LastFlushTraversal(cfg, s, order, -1, k);
    case TickStep(order) => LastFlushTraversal(cfg, s, order, cfg.writeInterval, k);
    case ShutdownStep(order) => if s.flushAtShutdown { LastFlushTraversal(cfg, s, order, -1, k); }
    case TakeStep(w, jitter) => WipedLastFlush(s.core, s.core.queue[0], s.clock + jitter);
    case _ =>
      hide Apply, Enabled;
      LastFlushOther(cfg, s, step, k);
  }

  lemma LastFlushOther(cfg: Config, s: State, step: Step, k: Key)
    requires Enabled(cfg, s, step) && k in s.core.tree
    requires !step.UpdateStep? && !step.ForgetStep? && !step.FlushStep? && !step.FlushAllStep? && !step.TickStep?
    requires !step.ShutdownStep? && !step.TakeStep?
    ensures FlushedAs(cfg, s, step, Apply(cfg, s, step), k)
  {
    hide WithoutWriter, Wake, Printed, JitterOk, StaleKeys;
  }

  lemma LastFlushUpdate(cfg: Config, s: State, x: Key, fields: seq<Field>, args: string, now: int, jitter: int, writable: bool, k: Key)
    requires QueueOk(s.core) && k in s.core.tree
    ensures var t := DoUpdate(cfg, s, x, fields, args, now, jitter, writable);
            k in t.core.tree && t.core.tree[k].lastFlush == s.core.tree[k].lastFlush && t.clock == s.clock
  {
    hide Absorb, Update, QueueOk;
    UpdateQueues(cfg, s.core, x, fields, now, jitter);
  }

  lemma LastFlushForget(s: State, x: Key, k: Key)
    requires k in s.core.tree
    ensures var t := DoForget(s, x);
            (k in t.core.tree <==> x != k) && (x != k ==> t.core.tree[k] == s.core.tree[k]) && t.clock == s.clock
  {
    hide Remove, Wake;
  }

  lemma LastFlushFlush(s: State, client: nat, x: Key)
    ensures DoFlush(s, client, x).core.tree == s.core.tree && DoFlush(s, client, x).clock == s.clock
  {
    hide Remove;
  }

  lemma LastFlushTraversal(cfg: Config, s: State, order: seq<Key>, maxAge: int, k: Key)
    requires (forall x <- order :: x in s.core.tree) && k in s.core.tree
    ensures var t := DoFlushOld(cfg, s, order, maxAge);
            (k in t.core.tree <==> k !in StaleKeys(cfg, s.core, s.clock)) &&
            (k in t.core.tree ==> t.core.tree[k] == s.core.tree[k]) && t.clock == s.clock
  {
    hide StaleKeys, DueKeys, Wake;
  }

  lemma WipedLastFlush(c: Core, k: Key, when: int)
    requires k in c.tree
    ensures Wipe(c, k, when).tree == c.tree[k := Item([], when, c.tree[k].lastStamp)]
  {
    hide Remove;
  }

  /** The step asks for the file's values before their time, or takes its item away. */
  predicate Hastens(cfg: Config, s: State, step: Step, k: Key) {
    step.FlushAllStep? || step.ShutdownStep? || (step.FlushStep? && step.key == k) || step == ForgetStep(k) ||
    DaemonJournal.Evicts(cfg, s, step, k)
  }

  ghost predicate Unhurried(cfg: Config, s: State, steps: seq<Step>, k: Key)
    decreases |steps|
  {
    steps != [] ==>
      Enabled(cfg, s, steps[0]) && !Hastens(cfg, s, steps[0], k) && Unhurried(cfg, Apply(cfg, s, steps[0]), steps[1..], k)
  }

  /** The file has been taken at time `since`, and is not queued again before the write interval is over. */
  ghost predicate Rested(cfg: Config, s: State, k: Key, since: int) {
    QueueOk(s.core) && DaemonFlush.TimeOk(cfg, s) && k in s.core.tree && since <= s.core.tree[k].lastFlush && since <= s.clock &&
    (k in s.core.queue ==> s.clock - since >= cfg.writeInterval)
  }

  lemma RestedStep(cfg: Config, s: State, step: Step, k: Key, since: int)
    requires cfg.writeInterval > 0 && Rested(cfg, s, k, since) && Enabled(cfg, s, step) && !Hastens(cfg, s, step, k)
    ensures Rested(cfg, Apply(cfg, s, step), k, since)
  {
    QueueStep(cfg, s, step);
    DaemonFlush.TimeStep(cfg, s, step);
    QueuedIff(cfg, s, step, k);
    LastFlushStep(cfg, s, step, k);
    UpdateTime(cfg, s, step);
    hide QueueOk, DaemonFlush.TimeOk, Apply, Absorb, DaemonJournal.Evicts;
  }

  lemma UpdateTime(cfg: Config, s: State, step: Step)
    requires Enabled(cfg, s, step)
    ensures step.UpdateStep? ==> step.now <= s.clock
    ensures step.TakeStep? ==> step.jitter >= 0
  {
  }

  lemma {:induction false} RestedRun(cfg: Config, s: State, steps: seq<Step>, t: State, k: Key, since: int)
    requires cfg.writeInterval > 0 && Rested(cfg, s, k, since) && IsRun(cfg, s, steps, t) && Unhurried(cfg, s, steps, k)
    ensures Rested(cfg, t, k, since)
    decreases |steps|
  {
    hide Apply, Enabled, Rested, Hastens;
    if steps != [] {
      RestedStep(cfg, s, steps[0], k, since);
      RestedRun(cfg, Apply(cfg, s, steps[0]), steps[1..], t, k, since);
    }
  }

  /** The write interval, over every run: from a writer's taking a file until it can take the file again, at least the write
      interval passes, unless FLUSH, FLUSHALL, FORGET, an eviction or the shutdown come between. */
  lemma WriteInterval(cfg: Config, s: State, before: seq<Step>, m: State, take: Step, after: seq<Step>, t: State, k: Key)
    requires cfg.writeInterval > 0 && Init(cfg, s) && IsRun(cfg, s, before, m) && Enabled(cfg, m, take) && Takes(m, take, k)
    requires IsRun(cfg, Apply(cfg, m, take), after, t) && Unhurried(cfg, Apply(cfg, m, take), after, k)
    ensures k in t.core.queue ==> t.clock - m.clock >= cfg.writeInterval
  {
    hide IsRun, Unhurried, Init, QueueOk, DaemonFlush.TimeOk, Apply, Enabled;
    DaemonFlush.ReachedQueueOk(cfg, s, before, m);
    DaemonFlush.InitTime(cfg, s);
    DaemonFlush.TimeRun(cfg, s, before, m);
    TakenRests(cfg, m, take, k);
    RestedRun(cfg, Apply(cfg, m, take), after, t, k, m.clock);
  }

  lemma TakenRests(cfg: Config, s: State, take: Step, k: Key)
    requires QueueOk(s.core) && DaemonFlush.TimeOk(cfg, s) && Enabled(cfg, s, take) && Takes(s, take, k)
    ensures Rested(cfg, Apply(cfg, s, take), k, s.clock)
  {
    QueueStep(cfg, s, take);
    DaemonFlush.TimeStep(cfg, s, take);
    UpdateTime(cfg, s, take);
    QueuedAfterTake(cfg, s, take.writer, take.jitter, k);
    LastFlushStep(cfg, s, take, k);
    hide QueueOk, DaemonFlush.TimeOk, Wipe;
  }

  // ----- the deadline

  /** Something is pending, and the file is queued or was last flushed by `due`. */
  ghost predicate Awaits(cfg: Config, s: State, k: Key, due: int) {
    QueueOk(s.core) && DaemonFlush.TimeOk(cfg, s) && Pending(s.core, k) != [] &&
    (k in s.core.queue || s.core.tree[k].lastFlush <= due)
  }

  lemma AwaitsStep(cfg: Config, s: State, step: Step, k: Key, due: int)
    requires cfg.writeInterval > 0 && Awaits(cfg, s, k, due) && Enabled(cfg, s, step) && !Unqueues(s, step, k)
    ensures Awaits(cfg, Apply(cfg, s, step), k, due)
  {
    QueueStep(cfg, s, step);
    DaemonFlush.TimeStep(cfg, s, step);
    QueuedIff(cfg, s, step, k);
    LastFlushStep(cfg, s, step, k);
    PendingStays(cfg, s, step, k);
    hide QueueOk, DaemonFlush.TimeOk, Apply, Absorb, Enabled;
  }

  lemma PendingStays(cfg: Config, s: State, step: Step, k: Key)
    requires QueueOk(s.core) && Enabled(cfg, s, step) && Pending(s.core, k) != [] && !Unqueues(s, step, k)
    ensures Pending(Apply(cfg, s, step).core, k) != []
  {
    hide Absorb, FlushOld, Enqueue, Remove, StaleKeys, Wake, WithoutWriter, JitterOk, QueueOk, Update, Create;
    match step
    case UpdateStep(x, fields, args, now, jitter, writable) => UpdateView(cfg, s.core, x, fields, now, jitter, k);
    case HangStep(x, now, jitter) => CreateView(s.core, x, now + jitter, k);
    case FlushStep(client, x) => if x in s.core.tree { EnqueueTree(s.core, x); }
    case FlushAllStep(order) => FlushOldView(cfg, s.core, order, -1, s.clock, s.phase.Running?, k);
    case TickStep(order) => FlushOldView(cfg, s.core, order, cfg.writeInterval, s.clock, s.phase.Running?, k);
    case ShutdownStep(order) => FlushOldView(cfg, s.core, order, -1, s.clock, s.phase.Running?, k);
    case _ =>
  }

  lemma {:induction false} AwaitsRun(cfg: Config, s: State, steps: seq<Step>, t: State, k: Key, due: int)
    requires cfg.writeInterval > 0 && Awaits(cfg, s, k, due) && IsRun(cfg, s, steps, t) && Stays(cfg, s, steps, k)
    ensures Awaits(cfg, t, k, due)
    decreases |steps|
  {
    hide Apply, Enabled, Awaits, Unqueues;
    if steps != [] {
      AwaitsStep(cfg, s, steps[0], k, due);
      AwaitsRun(cfg, Apply(cfg, s, steps[0]), steps[1..], t, k, due);
    }
  }

  /** The deadline, over every run: a file that has something pending is queued by the first periodic flush that comes a write
      interval and the jitter later, unless a writer or FORGET has taken it in the meantime. */
  lemma Deadline(cfg: Config, s: State, before: seq<Step>, m: State, after: seq<Step>, t: State, order: seq<Key>, k: Key)
    requires cfg.writeInterval > 0 && Init(cfg, s) && IsRun(cfg, s, before, m) && Pending(m.core, k) != []
    requires IsRun(cfg, m, after, t) && Stays(cfg, m, after, k) && Enabled(cfg, t, TickStep(order))
    requires t.clock >= m.clock + cfg.writeInterval + cfg.writeJitter
    ensures k in Apply(cfg, t, TickStep(order)).core.queue
  {
    hide IsRun, Stays, Init, QueueOk, Apply, Enabled, DaemonFlush.TimeOk;
    DaemonFlush.ReachedQueueOk(cfg, s, before, m);
    DaemonFlush.InitTime(cfg, s);
    DaemonFlush.TimeRun(cfg, s, before, m);
    LastFlushBefore(cfg, m, k);
    AwaitsRun(cfg, m, after, t, k, m.clock + cfg.writeJitter);
    QueuedIff(cfg, t, TickStep(order), k);
  }

  lemma LastFlushBefore(cfg: Config, s: State, k: Key)
    requires DaemonFlush.TimeOk(cfg, s) && k in s.core.tree
    ensures s.core.tree[k].lastFlush <= s.clock + cfg.writeJitter
  {
  }
}
