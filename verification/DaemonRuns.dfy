/** What every run of the daemon keeps: the queue invariant, conservation, order. */
module DaemonRuns {
  import opened CacheModel
  import opened DaemonModel

  // ----- the queue

  lemma EnqueueKeeps(c: Core, k: Key, side: Side)
    requires QueueOk(c) && k in c.tree
    ensures QueueOk(Enqueue(c, k, side))
  {
    RemoveMembers(c.queue, k);
    DistinctConcat([k], Remove(c.queue, k));
    if k !in c.queue {
      DistinctConcat(c.queue, [k]);
    }
  }

  /** HEAD moves a file to the front, TAIL appends it only when it is not queued, and neither reorders the others. */
  lemma EnqueueOrder(c: Core, k: Key, side: Side)
    requires QueueOk(c) && k in c.tree && c.tree[k].values != []
    ensures var q := Enqueue(c, k, side).queue;
            k in q && Remove(q, k) == Remove(c.queue, k) &&
            (side.Head? ==> q[0] == k) &&
            (side.Tail? ==> q == c.queue || (k !in c.queue && q[|q| - 1] == k))
  {
    if side.Tail? && k !in c.queue {
      RemoveAbsent(c.queue, k);
      RemoveAt(c.queue + [k], |c.queue|);
    }
  }

  lemma UpdateKeeps(cfg: Config, c: Core, k: Key, fields: seq<Field>, now: int, jitter: int)
    requires QueueOk(c)
    ensures QueueOk(Update(cfg, c, k, fields, now, jitter))
  {
    hide Absorb, Enqueue;
    var item := if k in c.tree then c.tree[k] else Item([], now + jitter, 0.0);
    var a := Absorb(fields, item.lastStamp);
    var c' := c.(tree := c.tree[k := Item(item.values + a.values, item.lastFlush, a.last)]);
    assert QueueOk(c');
    EnqueueKeeps(c', k, Tail);
  }

  lemma CreateKeeps(c: Core, k: Key, when: int)
    requires QueueOk(c)
    ensures QueueOk(Create(c, k, when))
  {
  }

  /** A new item has nothing pending. */
  lemma CreateView(c: Core, k: Key, when: int, x: Key)
    ensures var c' := Create(c, k, when);
            c'.tree.Keys == c.tree.Keys + {k} && Pending(c', x) == Pending(c, x) && LastStamp(c', x) == LastStamp(c, x) &&
            (x in c.tree ==> c'.tree[x] == c.tree[x])
  {
  }

  lemma RemovalKeeps(c: Core, k: Key, when: int)
    requires QueueOk(c)
    ensures QueueOk(Drop(c, k))
    ensures k in c.tree ==> QueueOk(Wipe(c, k, when))
  {
    RemoveMembers(c.queue, k);
  }

  lemma FlushOldKeeps(cfg: Config, c: Core, order: seq<Key>, maxAge: int, now: int, running: bool)
    requires QueueOk(c) && IsOrder(order, c.tree.Keys)
    ensures QueueOk(FlushOld(cfg, c, order, maxAge, now, running))
  {
    var absTimeout := if maxAge > 0 then now - maxAge else now + 2 * cfg.writeJitter + 1;
    DueMembers(c, order, absTimeout, running);
    DistinctConcat(c.queue, DueKeys(c, order, absTimeout, running));
  }

  /** Queued files are distinct, have an item, and have something to write: so the assertions of the writer hold. */
  lemma QueueStep(cfg: Config, s: State, step: Step)
    requires QueueOk(s.core) && Enabled(cfg, s, step)
    ensures QueueOk(Apply(cfg, s, step).core)
  {
    hide QueueOk, Update, Enqueue, Drop, Wipe, FlushOld, Create;
    match step
    case UpdateStep(k, fields, args, now, jitter, writable) => UpdateKeeps(cfg, s.core, k, fields, now, jitter);
    case HangStep(k, now, jitter) => CreateKeeps(s.core, k, now + jitter);
    case ForgetStep(k) => RemovalKeeps(s.core, k, 0);
    case FlushStep(client, k) => if k in s.core.tree { EnqueueKeeps(s.core, k, Head); }
    case FlushAllStep(order) => FlushOldKeeps(cfg, s.core, order, -1, s.clock, s.phase.Running?);
    case TickStep(order) => FlushOldKeeps(cfg, s.core, order, cfg.writeInterval, s.clock, s.phase.Running?);
    case ShutdownStep(order) => FlushOldKeeps(cfg, s.core, order, -1, s.clock, s.phase.Running?);
    case TakeStep(w, jitter) => RemovalKeeps(s.core, s.core.queue[0], s.clock + jitter);
    case _ =>
  }

  // ----- one file: conservation and order

  function Count(s: seq<Value>, v: Value): nat {
    multiset(s)[v]
  }

  lemma CountAppend(a: seq<Value>, b: seq<Value>, v: Value)
    ensures Count(a + b, v) == Count(a, v) + Count(b, v)
  {
    assert multiset(a + b) == multiset(a) + multiset(b);
  }

  /** How often a value of a file is among those that writers have dequeued and not yet handed over. */
  function InFlight(writers: seq<Writer>, k: Key, v: Value): nat {
    if writers == [] then 0 else Held(writers[0], k, v) + InFlight(writers[1..], k, v)
  }

  function Held(w: Writer, k: Key, v: Value): nat {
    if w.Writing? && w.key == k then Count(w.values, v) else 0
  }

  lemma {:induction false} InFlightUpdate(writers: seq<Writer>, w: nat, x: Writer, k: Key, v: Value)
    requires w < |writers|
    ensures InFlight(writers[w := x], k, v) == InFlight(writers, k, v) - Held(writers[w], k, v) + Held(x, k, v)
  {
    if w == 0 {
      assert writers[w := x][1..] == writers[1..];
    } else {
      InFlightUpdate(writers[1..], w - 1, x, k, v);
      assert writers[w := x][1..] == writers[1..][w - 1 := x];
    }
  }

  /** Every accepted value is in exactly one of: pending, in flight, handed to `rrd_update_r`, dropped by FORGET. */
  ghost predicate Conserved(s: State, k: Key, v: Value) {
    Count(Of(s.hist.accepted, k), v) ==
    Count(Pending(s.core, k), v) + InFlight(s.writers, k, v) +
    Count(Of(s.hist.handed, k), v) + Count(Of(s.hist.dropped, k), v)
  }

  ghost predicate Increasing(s: seq<Value>) {
    forall i, j :: 0 <= i < j < |s| ==> s[i].stamp < s[j].stamp
  }

  /** The values of the present item, dequeued and pending, in the order they came. */
  function Lifetime(s: State, k: Key): seq<Value> {
    Of(s.hist.taken, k) + Pending(s.core, k)
  }

  /** Timestamps only grow during the life of an item, and the item remembers a bound for all of them. */
  ghost predicate Ordered(s: State, k: Key) {
    Increasing(Lifetime(s, k)) &&
    (k !in s.core.tree ==> Of(s.hist.taken, k) == []) &&
    forall v <- Lifetime(s, k) :: v.stamp <= LastStamp(s.core, k)
  }

  /** What is pending was accepted last. */
  ghost predicate PendingLast(s: State, k: Key) {
    IsSuffix(Pending(s.core, k), Of(s.hist.accepted, k))
  }

  ghost predicate IsSuffix<T>(b: seq<T>, a: seq<T>) {
    |b| <= |a| && a[|a| - |b|..] == b
  }

  lemma SuffixAppend<T>(b: seq<T>, a: seq<T>, c: seq<T>)
    ensures IsSuffix(b, a) ==> IsSuffix(b + c, a + c)
    ensures IsSuffix([], a)
  {
  }

  lemma {:induction false} AbsorbOrder(fields: seq<Field>, last: real)
    ensures var a := Absorb(fields, last);
            Increasing(a.values) && last <= a.last && forall v <- a.values :: last < v.stamp <= a.last
  {
    if fields == [] || fields[0].Malformed? || fields[0].Unstamped? || fields[0].value.stamp <= last {
    } else {
      AbsorbOrder(fields[1..], fields[0].value.stamp);
    }
  }

  /** What a step does to one file, seen through its pending values, its last timestamp and its existence. */
  lemma UpdateView(cfg: Config, c: Core, k: Key, fields: seq<Field>, now: int, jitter: int, x: Key)
    ensures var c', a := Update(cfg, c, k, fields, now, jitter), Absorb(fields, LastStamp(c, k));
            c'.tree.Keys == c.tree.Keys + {k} &&
            Pending(c', x) == (if x == k then Pending(c, x) + a.values else Pending(c, x)) &&
            LastStamp(c', x) == if x == k then a.last else LastStamp(c, x)
  {
  }

  lemma FlushOldView(cfg: Config, c: Core, order: seq<Key>, maxAge: int, now: int, running: bool, x: Key)
    requires forall k <- order :: k in c.tree
    ensures var c' := FlushOld(cfg, c, order, maxAge, now, running);
            c'.tree.Keys == c.tree.Keys - StaleKeys(cfg, c, now) &&
            Pending(c', x) == Pending(c, x) &&
            (x in c'.tree ==> LastStamp(c', x) == LastStamp(c, x))
  {
  }

  lemma ConservedStep(cfg: Config, s: State, step: Step, k: Key, v: Value)
    requires Enabled(cfg, s, step) && Conserved(s, k, v)
    ensures Conserved(Apply(cfg, s, step), k, v)
  {
    hide Create, InFlight, Count, JitterOk, DoUpdate, DoForget, DoFlush, DoFlushOld, DoTake, DoHand, DoRecordWrote, DoDone;
    match step
    case UpdateStep(x, fields, args, now, jitter, writable) => ConservedUpdate(cfg, s, x, fields, args, now, jitter, writable, k, v);
    case HangStep(x, now, jitter) => CreateView(s.core, x, now + jitter, k);
    case ForgetStep(x) => ConservedForget(s, x, k, v);
    case FlushStep(client, x) => ConservedFlush(s, client, x, k, v);
    case FlushAllStep(order) => ConservedFlushOld(cfg, s, order, -1, k, v);
    case TickStep(order) => ConservedFlushOld(cfg, s, order, cfg.writeInterval, k, v);
    case ShutdownStep(order) => if s.flushAtShutdown { ConservedFlushOld(cfg, s, order, -1, k, v); }
    case TakeStep(w, jitter) => ConservedTake(cfg, s, w, jitter, k, v);
    case HandStep(w) => ConservedHand(s, w, k, v);
    case RecordWroteStep(w) => ConservedWrote(s, w, k, v);
    case DoneStep(w) => ConservedDone(s, w, k, v);
    case ExitStep(w) => InFlightUpdate(s.writers, w, Exited, k, v);
    case _ =>
  }

  lemma ConservedFlush(s: State, client: nat, x: Key, k: Key, v: Value)
    requires Conserved(s, k, v)
    ensures Conserved(DoFlush(s, client, x), k, v)
  {
    hide InFlight, Count, Enqueue;
    if x in s.core.tree { EnqueueTree(s.core, x); }
  }

  lemma ConservedFlushOld(cfg: Config, s: State, order: seq<Key>, maxAge: int, k: Key, v: Value)
    requires (forall x <- order :: x in s.core.tree) && Conserved(s, k, v)
    ensures Conserved(DoFlushOld(cfg, s, order, maxAge), k, v)
  {
    hide InFlight, Count, FlushOld, StaleKeys, Wake;
    FlushOldView(cfg, s.core, order, maxAge, s.clock, s.phase.Running?, k);
  }

  lemma ConservedDone(s: State, w: nat, k: Key, v: Value)
    requires w < |s.writers| && s.writers[w].Recorded? && Conserved(s, k, v)
    ensures Conserved(DoDone(s, w), k, v)
  {
    hide InFlight, Count, Wake;
    InFlightUpdate(s.writers, w, Idle, k, v);
  }

  lemma ConservedForget(s: State, x: Key, k: Key, v: Value)
    requires Conserved(s, k, v)
    ensures Conserved(DoForget(s, x), k, v)
  {
    hide Remove, Wake, InFlight, Count;
    CountAppend(Of(s.hist.dropped, k), Pending(s.core, k), v);
    CountNone(v);
  }

  lemma ConservedTake(cfg: Config, s: State, w: nat, jitter: int, k: Key, v: Value)
    requires w < |s.writers| && s.writers[w].Idle? && s.core.queue != [] && s.core.queue[0] in s.core.tree && Conserved(s, k, v)
    ensures Conserved(DoTake(cfg, s, w, jitter), k, v)
  {
    hide Remove, InFlight, Count;
    InFlightUpdate(s.writers, w, DoTake(cfg, s, w, jitter).writers[w], k, v);
    CountNone(v);
  }

  lemma ConservedHand(s: State, w: nat, k: Key, v: Value)
    requires w < |s.writers| && s.writers[w].Writing? && Conserved(s, k, v)
    ensures Conserved(DoHand(s, w), k, v)
  {
    hide InFlight, Count;
    InFlightUpdate(s.writers, w, DoHand(s, w).writers[w], k, v);
    CountAppend(Of(s.hist.handed, k), s.writers[w].values, v);
  }

  lemma ConservedWrote(s: State, w: nat, k: Key, v: Value)
    requires w < |s.writers| && s.writers[w].Handed? && Conserved(s, k, v)
    ensures Conserved(DoRecordWrote(s, w), k, v)
  {
    hide InFlight, Count, WithoutWriter;
    InFlightUpdate(s.writers, w, DoRecordWrote(s, w).writers[w], k, v);
  }

  lemma ConservedUpdate(cfg: Config, s: State, x: Key, fields: seq<Field>, args: string, now: int, jitter: int, writable: bool, k: Key, v: Value)
    requires Conserved(s, k, v)
    ensures Conserved(DoUpdate(cfg, s, x, fields, args, now, jitter, writable), k, v)
  {
    hide Update, Absorb, InFlight, Count;
    UpdateView(cfg, s.core, x, fields, now, jitter, k);
    CountAppend(Of(s.hist.accepted, k), Absorb(fields, LastStamp(s.core, x)).values, v);
    CountAppend(Pending(s.core, k), Absorb(fields, LastStamp(s.core, x)).values, v);
  }

  lemma CountNone(v: Value)
    ensures Count([], v) == 0
  {
  }

  lemma EnqueueTree(c: Core, k: Key)
    requires k in c.tree
    ensures Enqueue(c, k, Head).tree == c.tree
  {
  }

  lemma IncreasingAppend(a: seq<Value>, b: seq<Value>, bound: real)
    requires Increasing(a) && Increasing(b)
    requires forall v <- a :: v.stamp <= bound
    requires forall v <- b :: bound < v.stamp
    ensures Increasing(a + b)
  {
    forall i, j | 0 <= i < j < |a + b| ensures (a + b)[i].stamp < (a + b)[j].stamp {
      if i < |a| <= j {
        assert a[i] in a && b[j - |a|] in b;
      }
    }
  }

  lemma UpdateOrdered(cfg: Config, s: State, x: Key, fields: seq<Field>, args: string, now: int, jitter: int, writable: bool, k: Key)
    requires Ordered(s, k)
    ensures Ordered(DoUpdate(cfg, s, x, fields, args, now, jitter, writable), k)
  {
    hide Update, Absorb, Increasing;
    if x in s.core.tree || writable {
      UpdateView(cfg, s.core, x, fields, now, jitter, k);
      if x == k {
        var a := Absorb(fields, LastStamp(s.core, k));
        AbsorbOrder(fields, LastStamp(s.core, k));
        IncreasingAppend(Lifetime(s, k), a.values, LastStamp(s.core, k));
        assert Lifetime(s, k) + a.values == Of(s.hist.taken, k) + (Pending(s.core, k) + a.values);
      }
    }
  }

  lemma OrderedStep(cfg: Config, s: State, step: Step, k: Key)
    requires Enabled(cfg, s, step) && Ordered(s, k)
    ensures Ordered(Apply(cfg, s, step), k)
  {
    hide Create, WithoutWriter, JitterOk, Increasing, DoUpdate, DoForget, DoFlush, DoTake, DoFlushOld, Wake;
    match step
    case UpdateStep(x, fields, args, now, jitter, writable) => UpdateOrdered(cfg, s, x, fields, args, now, jitter, writable, k);
    case HangStep(x, now, jitter) => CreateView(s.core, x, now + jitter, k);
    case ForgetStep(x) => ForgetOrdered(s, x, k);
    case FlushStep(client, x) => FlushOrdered(s, client, x, k);
    case FlushAllStep(order) => FlushOldOrdered(cfg, s, order, -1, k);
    case TickStep(order) => FlushOldOrdered(cfg, s, order, cfg.writeInterval, k);
    case ShutdownStep(order) => if s.flushAtShutdown { FlushOldOrdered(cfg, s, order, -1, k); }
    case TakeStep(w, jitter) => TakeOrdered(cfg, s, w, jitter, k);
    case _ =>
  }

  lemma ForgetOrdered(s: State, x: Key, k: Key)
    requires Ordered(s, k)
    ensures Ordered(DoForget(s, x), k)
  {
    hide Increasing, Remove, Wake;
    NothingIncreases();
    if x == k && x in s.core.tree {
      assert Lifetime(DoForget(s, x), k) == [];
    }
  }

  lemma FlushOrdered(s: State, client: nat, x: Key, k: Key)
    requires Ordered(s, k)
    ensures Ordered(DoFlush(s, client, x), k)
  {
    hide Increasing, Enqueue;
    if x in s.core.tree { EnqueueTree(s.core, x); }
  }

  lemma TakeOrdered(cfg: Config, s: State, w: nat, jitter: int, k: Key)
    requires Ordered(s, k) && w < |s.writers| && s.core.queue != [] && s.core.queue[0] in s.core.tree
    ensures Ordered(DoTake(cfg, s, w, jitter), k)
  {
    hide Increasing, Remove;
    if k == s.core.queue[0] {
      assert Lifetime(DoTake(cfg, s, w, jitter), k) == Lifetime(s, k);
    }
  }

  lemma NothingIncreases()
    ensures Increasing([])
  {
  }

  lemma FlushOldOrdered(cfg: Config, s: State, order: seq<Key>, maxAge: int, k: Key)
    requires (forall x <- order :: x in s.core.tree) && Ordered(s, k)
    ensures Ordered(DoFlushOld(cfg, s, order, maxAge), k)
  {
    hide FlushOld, Increasing, Wake;
    FlushOldView(cfg, s.core, order, maxAge, s.clock, s.phase.Running?, k);
    if k in StaleKeys(cfg, s.core, s.clock) {
      NothingIncreases();
      assert Lifetime(DoFlushOld(cfg, s, order, maxAge), k) == [];
    }
  }

  lemma PendingLastStep(cfg: Config, s: State, step: Step, k: Key)
    requires Enabled(cfg, s, step) && PendingLast(s, k)
    ensures PendingLast(Apply(cfg, s, step), k)
  {
    hide Create, FlushOld, Wake, Enqueue, Remove, JitterOk, StaleKeys, IsSuffix, DoUpdate, DoForget, DoRecordWrote, DoHand, DoDone, DoTake;
    match step
    case UpdateStep(x, fields, args, now, jitter, writable) => PendingLastUpdate(cfg, s, x, fields, args, now, jitter, writable, k);
    case HangStep(x, now, jitter) => CreateView(s.core, x, now + jitter, k);
    case ForgetStep(x) => PendingLastGone(cfg, s, k);
    case FlushStep(client, x) => if x in s.core.tree { EnqueueTree(s.core, x); }
    case FlushAllStep(order) => FlushOldView(cfg, s.core, order, -1, s.clock, s.phase.Running?, k);
    case TickStep(order) => FlushOldView(cfg, s.core, order, cfg.writeInterval, s.clock, s.phase.Running?, k);
    case ShutdownStep(order) => FlushOldView(cfg, s.core, order, -1, s.clock, s.phase.Running?, k);
    case TakeStep(w, jitter) => PendingLastGone(cfg, s, k);
    case HandStep(w) => PendingLastGone(cfg, s, k);
    case RecordWroteStep(w) => PendingLastGone(cfg, s, k);
    case DoneStep(w) => PendingLastGone(cfg, s, k);
    case _ =>
  }

  lemma PendingLastUpdate(cfg: Config, s: State, x: Key, fields: seq<Field>, args: string, now: int, jitter: int, writable: bool, k: Key)
    requires PendingLast(s, k)
    ensures PendingLast(DoUpdate(cfg, s, x, fields, args, now, jitter, writable), k)
  {
    hide Update, Absorb, IsSuffix;
    UpdateView(cfg, s.core, x, fields, now, jitter, k);
    SuffixAppend(Pending(s.core, k), Of(s.hist.accepted, k), Absorb(fields, LastStamp(s.core, k)).values);
  }

  /** Steps that accept nothing and leave each file's pending values alone or empty. */
  lemma PendingLastGone(cfg: Config, s: State, k: Key)
    requires PendingLast(s, k)
    ensures forall x :: PendingLast(DoForget(s, x), k)
    ensures s.core.queue != [] && s.core.queue[0] in s.core.tree ==>
              forall w: nat, jitter :: w < |s.writers| ==> PendingLast(DoTake(cfg, s, w, jitter), k)
    ensures forall w: nat :: w < |s.writers| && s.writers[w].Writing? ==> PendingLast(DoHand(s, w), k)
    ensures forall w: nat :: w < |s.writers| && s.writers[w].Handed? ==> PendingLast(DoRecordWrote(s, w), k)
    ensures forall w: nat :: w < |s.writers| && s.writers[w].Recorded? ==> PendingLast(DoDone(s, w), k)
  {
    hide IsSuffix, Remove, Wake, WithoutWriter;
    SuffixAppend(Pending(s.core, k), Of(s.hist.accepted, k), []);
  }

  // ----- whole runs

  /** What every reachable state satisfies, for one file and one value. */
  ghost predicate Invariant(s: State, k: Key, v: Value) {
    QueueOk(s.core) && Conserved(s, k, v) && Ordered(s, k) && PendingLast(s, k)
  }

  lemma InitInvariant(cfg: Config, s: State, k: Key, v: Value)
    requires Init(cfg, s)
    ensures Invariant(s, k, v)
  {
    hide Replay;
    NothingInFlight(s.writers, k, v);
    var t := Replay(s.journal);
    ReplayOrdered(s.journal, k);
    assert Of(s.hist.taken, k) == [];
    assert Pending(s.core, k) == Of(s.hist.accepted, k) == ReplayedValues(s.journal, k);
    assert Lifetime(s, k) == Pending(s.core, k);
  }

  lemma {:induction false} NothingInFlight(writers: seq<Writer>, k: Key, v: Value)
    requires forall w <- writers :: w.Idle?
    ensures InFlight(writers, k, v) == 0
  {
    if writers != [] {
      assert writers[0] in writers;
      NothingInFlight(writers[1..], k, v);
    }
  }

  /** Replayed values are in order, too. */
  lemma {:induction false} ReplayOrdered(journal: seq<Record>, k: Key)
    ensures k in Replay(journal) ==>
      Increasing(Replay(journal)[k].values) && forall v <- Replay(journal)[k].values :: v.stamp <= Replay(journal)[k].lastStamp
  {
    hide ReadBack;
    if journal != [] {
      var before := Replay(journal[..|journal| - 1]);
      ReplayOrdered(journal[..|journal| - 1], k);
      match ReadBack(journal[|journal| - 1])
      case UpdateEntry(x, fields) =>
        var item := if x in before then before[x] else Replayed([], 0.0);
        AbsorbOrder(fields, item.lastStamp);
        if x == k {
          IncreasingAppend(item.values, Absorb(fields, item.lastStamp).values, item.lastStamp);
        }
      case _ =>
    }
  }

  lemma {:induction false} RunInvariant(cfg: Config, s: State, steps: seq<Step>, t: State, k: Key, v: Value)
    requires Invariant(s, k, v) && IsRun(cfg, s, steps, t)
    ensures Invariant(t, k, v)
    decreases |steps|
  {
    hide Apply, Enabled, QueueOk, Conserved, Ordered, PendingLast;
    if steps != [] {
      QueueStep(cfg, s, steps[0]);
      ConservedStep(cfg, s, steps[0], k, v);
      OrderedStep(cfg, s, steps[0], k);
      PendingLastStep(cfg, s, steps[0], k);
      RunInvariant(cfg, Apply(cfg, s, steps[0]), steps[1..], t, k, v);
    }
  }

  function FlightOf(writers: seq<Writer>, k: Key): multiset<Value> {
    if writers == [] then multiset{}
    else (if writers[0].Writing? && writers[0].key == k then multiset(writers[0].values) else multiset{}) + FlightOf(writers[1..], k)
  }

  lemma {:induction false} FlightCount(writers: seq<Writer>, k: Key, v: Value)
    ensures FlightOf(writers, k)[v] == InFlight(writers, k, v)
  {
    if writers != [] {
      FlightCount(writers[1..], k, v);
    }
  }

  /** Conservation over every run with any number of writers: no accepted value is lost or doubled. */
  lemma Conservation(cfg: Config, s: State, steps: seq<Step>, t: State, k: Key)
    requires Init(cfg, s) && IsRun(cfg, s, steps, t)
    ensures multiset(Of(t.hist.accepted, k)) ==
            multiset(Pending(t.core, k)) + FlightOf(t.writers, k) +
            multiset(Of(t.hist.handed, k)) + multiset(Of(t.hist.dropped, k))
  {
    hide Init, IsRun, Ordered, PendingLast, QueueOk, FlightOf;
    var a, b := multiset(Of(t.hist.accepted, k)), multiset(Pending(t.core, k)) + FlightOf(t.writers, k) +
                multiset(Of(t.hist.handed, k)) + multiset(Of(t.hist.dropped, k));
    forall v ensures a[v] == b[v] {
      InitInvariant(cfg, s, k, v);
      RunInvariant(cfg, s, steps, t, k, v);
      FlightCount(t.writers, k, v);
    }
  }

  /** Order over every run: during the life of one cache item, the batches dequeued so far followed by what is
      pending have strictly increasing timestamps, and the queue lists distinct files that have pending values. */
  lemma Order(cfg: Config, s: State, steps: seq<Step>, t: State, k: Key)
    requires Init(cfg, s) && IsRun(cfg, s, steps, t)
    ensures Increasing(Of(t.hist.taken, k) + Pending(t.core, k))
    ensures IsSuffix(Pending(t.core, k), Of(t.hist.accepted, k))
    ensures QueueOk(t.core)
  {
    var v := Value(0.0, "");
    InitInvariant(cfg, s, k, v);
    RunInvariant(cfg, s, steps, t, k, v);
  }
}
