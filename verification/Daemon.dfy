/** rrdcached as a machine whose steps are its critical sections (rrd_daemon.c). */
module DaemonModel {
  import opened CacheModel
  import JournalText
  import Wire

  datatype Phase = Running | Flushing | Shutdown

  /** A queue thread. Between the two critical sections of its loop it hands the batch to `rrd_update_r`
      and then writes the "wrote" record. */
  datatype Writer =
    | Idle
    | Writing(key: Key, values: seq<Value>)
    | Handed(key: Key, values: seq<Value>)
    | Recorded(key: Key, values: seq<Value>)
    | Exited

  datatype Signal = Int | Term | Usr1 | Usr2

  /** A journal line. UPDATE is journaled as received, before its values are looked at. */
  datatype Record =
    | UpdateRecord(key: Key, fields: seq<Field>, args: string)
    | ForgetRecord(key: Key)
    | WroteRecord(key: Key)

  /** What of the journal's records is where: the first `removed` were in files that rotation has unlinked, those up to
      `rotated` are in files of the old set, and of the text of the rest `out` characters have left the stdio buffer. */
  datatype Disk = Disk(removed: nat, rotated: nat, out: nat)

  /** A client blocked in FLUSH, with the number of values accepted for the file when it asked. */
  datatype Wait = Wait(key: Key, asked: nat)

  datatype Batch = Batch(writer: nat, values: seq<Value>)

  /** What has happened so far; no step looks at it. Per file: the values accepted, handed to `rrd_update_r`,
      dropped by FORGET, and dequeued from the present item; the present item's batches that have no "wrote" record
      yet, oldest first; the position in `accepted` up to which batches have such a record.
      Per writer: the position in `accepted` at its last dequeue. */
  datatype History = History(
    accepted: map<Key, seq<Value>>,
    handed: map<Key, seq<Value>>,
    dropped: map<Key, seq<Value>>,
    taken: map<Key, seq<Value>>,
    flight: map<Key, seq<Batch>>,
    wrote: map<Key, nat>,
    upto: map<nat, nat>)

  /** `stuck`: a handler has returned without releasing the cache lock. */
  datatype State = State(
    core: Core,
    writers: seq<Writer>,
    phase: Phase,
    flushAtShutdown: bool,
    clock: int,
    journal: seq<Record>,
    disk: Disk,
    waiting: map<nat, Wait>,
    unrecorded: multiset<Key>,
    stuck: bool,
    hist: History)

  datatype Step =
    | UpdateStep(key: Key, fields: seq<Field>, args: string, now: int, jitter: int, writable: bool)
    | HangStep(key: Key, now: int, jitter: int)
    | ForgetStep(key: Key)
    | RecordForgetStep(key: Key)
    | FlushStep(client: nat, key: Key)
    | FlushAllStep(order: seq<Key>)
    | TickStep(order: seq<Key>)
    | SignalStep(signal: Signal)
    | ShutdownStep(order: seq<Key>)
    | ClockStep(elapsed: nat)
    | TakeStep(writer: nat, jitter: int)
    | HandStep(writer: nat)
    | RecordWroteStep(writer: nat)
    | DoneStep(writer: nat)
    | ExitStep(writer: nat)
    | OutStep(chars: nat)
    | NewFileStep
    | RotateStep

  function Of<T>(m: map<Key, seq<T>>, k: Key): seq<T> {
    if k in m then m[k] else []
  }

  function At(m: map<Key, nat>, k: Key): nat {
    if k in m then m[k] else 0
  }

  function Pending(c: Core, k: Key): seq<Value> {
    if k in c.tree then c.tree[k].values else []
  }

  function LastStamp(c: Core, k: Key): real {
    if k in c.tree then c.tree[k].lastStamp else 0.0
  }

  /** Broadcasting on the condition variable of an item wakes every client that waits on it. */
  function Wake(waiting: map<nat, Wait>, keys: set<Key>): map<nat, Wait> {
    map id | id in waiting && waiting[id].key !in keys :: waiting[id]
  }

  function DoUpdate(cfg: Config, s: State, k: Key, fields: seq<Field>, args: string, now: int, jitter: int, writable: bool): State {
    if k !in s.core.tree && !writable then s
    else
      var accepted := Of(s.hist.accepted, k) + Absorb(fields, LastStamp(s.core, k)).values;
      s.(core := Update(cfg, s.core, k, fields, now, jitter),
         journal := s.journal + [UpdateRecord(k, fields, args)],
         hist := s.hist.(accepted := s.hist.accepted[k := accepted]))
  }

  /** An UPDATE that did not find its file, and takes the lock again only after SHUTDOWN: it puts the new item into the tree,
      unless somebody else has, and returns with the lock held. */
  function DoHang(s: State, k: Key, now: int, jitter: int): State {
    s.(core := Create(s.core, k, now + jitter), stuck := true)
  }

  function Create(c: Core, k: Key, when: int): Core {
    if k in c.tree then c else c.(tree := c.tree[k := Item([], when, 0.0)])
  }

  /** The locked part of FORGET; the record follows after the lock is released. */
  function DoForget(s: State, k: Key): State {
    if k !in s.core.tree then s
    else
      s.(core := Drop(s.core, k),
         waiting := Wake(s.waiting, {k}),
         unrecorded := s.unrecorded + multiset{k},
         hist := s.hist.(dropped := s.hist.dropped[k := Of(s.hist.dropped, k) + Pending(s.core, k)],
                         taken := s.hist.taken - {k},
                         flight := s.hist.flight - {k}))
  }

  function DoRecordForget(s: State, k: Key): State {
    s.(journal := s.journal + [ForgetRecord(k)], unrecorded := s.unrecorded - multiset{k})
  }

  function DoFlush(s: State, client: nat, k: Key): State {
    if Pending(s.core, k) == [] then s
    else
      s.(core := Enqueue(s.core, k, Head),
         waiting := s.waiting[client := Wait(k, |Of(s.hist.accepted, k)|)])
  }

  function DoFlushOld(cfg: Config, s: State, order: seq<Key>, maxAge: int): State
    requires forall k <- order :: k in s.core.tree
  {
    var idle := StaleKeys(cfg, s.core, s.clock);
    s.(core := FlushOld(cfg, s.core, order, maxAge, s.clock, s.phase.Running?),
       waiting := Wake(s.waiting, idle),
       hist := s.hist.(taken := s.hist.taken - idle))
  }

  function DoShutdown(cfg: Config, s: State, order: seq<Key>): State
    requires forall k <- order :: k in s.core.tree
  {
    (if s.flushAtShutdown then DoFlushOld(cfg, s, order, -1) else s).(phase := Shutdown)
  }

  function DoTake(cfg: Config, s: State, w: nat, jitter: int): State
    requires w < |s.writers| && s.core.queue != [] && s.core.queue[0] in s.core.tree
  {
    var k := s.core.queue[0];
    var values := s.core.tree[k].values;
    s.(core := Wipe(s.core, k, s.clock + jitter),
       writers := s.writers[w := Writing(k, values)],
       hist := s.hist.(taken := s.hist.taken[k := Of(s.hist.taken, k) + values],
                       flight := s.hist.flight[k := Of(s.hist.flight, k) + [Batch(w, values)]],
                       upto := s.hist.upto[w := |Of(s.hist.accepted, k)|]))
  }

  function DoHand(s: State, w: nat): State
    requires w < |s.writers| && s.writers[w].Writing?
  {
    var k, values := s.writers[w].key, s.writers[w].values;
    s.(writers := s.writers[w := Handed(k, values)],
       hist := s.hist.(handed := s.hist.handed[k := Of(s.hist.handed, k) + values]))
  }

  function WithoutWriter(batches: seq<Batch>, w: nat): seq<Batch> {
    if batches == [] then []
    else if batches[0].writer == w then WithoutWriter(batches[1..], w)
    else [batches[0]] + WithoutWriter(batches[1..], w)
  }

  function DoRecordWrote(s: State, w: nat): State
    requires w < |s.writers| && s.writers[w].Handed?
  {
    var k := s.writers[w].key;
    var end := if w in s.hist.upto then s.hist.upto[w] else 0;
    s.(writers := s.writers[w := Recorded(k, s.writers[w].values)],
       journal := s.journal + [WroteRecord(k)],
       hist := s.hist.(flight := s.hist.flight[k := WithoutWriter(Of(s.hist.flight, k), w)],
                       wrote := s.hist.wrote[k := if end > At(s.hist.wrote, k) then end else At(s.hist.wrote, k)]))
  }

  /** The second critical section: whoever waits on the item that now has this name is woken. */
  function DoDone(s: State, w: nat): State
    requires w < |s.writers| && s.writers[w].Recorded?
  {
    var k := s.writers[w].key;
    s.(writers := s.writers[w := Idle],
       waiting := if k in s.core.tree then Wake(s.waiting, {k}) else s.waiting)
  }

  /** `sig_common`; USR1 and USR2 also switch flushing at shutdown. */
  function DoSignal(s: State, signal: Signal): State {
    s.(flushAtShutdown := signal.Usr1? || (s.flushAtShutdown && !signal.Usr2?),
       phase := if s.phase.Running? then Flushing else s.phase)
  }

  function Lines(journal: seq<Record>): (bodies: seq<string>)
    ensures |bodies| == |journal| && forall i :: 0 <= i < |bodies| ==> bodies[i] == Text(journal[i])
  {
    seq(|journal|, i requires 0 <= i < |journal| => Text(journal[i]))
  }

  /** The text that has been printed to the present set of files. */
  function Printed(s: State): string
    requires s.disk.rotated <= |s.journal|
  {
    JournalText.Written(Lines(s.journal[s.disk.rotated..]))
  }

  /** Some more of the text leaves the buffer, as the library decides. */
  function DoOut(s: State, chars: nat): State {
    s.(disk := s.disk.(out := chars))
  }

  /** `journal_close`, before a new file of the same set is begun or the daemon ends: everything leaves the buffer. */
  function DoNewFile(s: State): State
    requires s.disk.rotated <= |s.journal|
  {
    s.(disk := s.disk.(out := |Printed(s)|))
  }

  /** `journal_rotate`: the file is closed, its set becomes the old one, and the files of the old set are unlinked. */
  function DoRotate(s: State): State {
    s.(disk := Disk(s.disk.rotated, |s.journal|, 0))
  }

  /** Steps that need the cache lock. Time, signals, writing to a file and to the journal do not. */
  predicate Locks(step: Step) {
    match step
    case RecordForgetStep(_) => false
    case SignalStep(_) => false
    case ClockStep(_) => false
    case HandStep(_) => false
    case RecordWroteStep(_) => false
    case OutStep(_) => false
    case NewFileStep => false
    case RotateStep => false
    case _ => true
  }

  ghost predicate Enabled(cfg: Config, s: State, step: Step) {
    (Locks(step) ==> !s.stuck) &&
    match step
    case UpdateStep(k, fields, args, now, jitter, writable) =>
      // arguments that do not fit the buffer for the journal are left out
      now <= s.clock && JitterOk(cfg, jitter) && |args| < Wire.CMD_MAX && (s.phase.Shutdown? ==> k in s.core.tree)
    case HangStep(k, now, jitter) => s.phase.Shutdown? && now <= s.clock && JitterOk(cfg, jitter)
    case ForgetStep(k) => true
    case RecordForgetStep(k) => k in s.unrecorded
    case FlushStep(client, k) => client !in s.waiting
    case FlushAllStep(order) => IsOrder(order, s.core.tree.Keys)
    case TickStep(order) => s.phase.Running? && IsOrder(order, s.core.tree.Keys)
    case SignalStep(signal) => true
    case ShutdownStep(order) => s.phase.Flushing? && IsOrder(order, s.core.tree.Keys)
    case ClockStep(elapsed) => true
    case TakeStep(w, jitter) =>
      w < |s.writers| && s.writers[w].Idle? && JitterOk(cfg, jitter) && s.core.queue != [] && s.core.queue[0] in s.core.tree
    case HandStep(w) => w < |s.writers| && s.writers[w].Writing?
    case RecordWroteStep(w) => w < |s.writers| && s.writers[w].Handed?
    case DoneStep(w) => w < |s.writers| && s.writers[w].Recorded?
    case ExitStep(w) =>
      w < |s.writers| && s.writers[w].Idle? && s.phase.Shutdown? && (s.core.queue == [] || !s.flushAtShutdown)
    case OutStep(chars) => s.disk.rotated <= |s.journal| && s.disk.out <= chars <= |Printed(s)|
    case NewFileStep => s.disk.rotated <= |s.journal|
    case RotateStep => true
  }

  ghost function Apply(cfg: Config, s: State, step: Step): State
    requires Enabled(cfg, s, step)
  {
    match step
    case UpdateStep(k, fields, args, now, jitter, writable) => DoUpdate(cfg, s, k, fields, args, now, jitter, writable)
    case HangStep(k, now, jitter) => DoHang(s, k, now, jitter)
    case ForgetStep(k) => DoForget(s, k)
    case RecordForgetStep(k) => DoRecordForget(s, k)
    case FlushStep(client, k) => DoFlush(s, client, k)
    case FlushAllStep(order) => DoFlushOld(cfg, s, order, -1)
    case TickStep(order) => DoFlushOld(cfg, s, order, cfg.writeInterval)
    case SignalStep(signal) => DoSignal(s, signal)
    case ShutdownStep(order) => DoShutdown(cfg, s, order)
    case ClockStep(elapsed) => s.(clock := s.clock + elapsed)
    case TakeStep(w, jitter) => DoTake(cfg, s, w, jitter)
    case HandStep(w) => DoHand(s, w)
    case RecordWroteStep(w) => DoRecordWrote(s, w)
    case DoneStep(w) => DoDone(s, w)
    case ExitStep(w) => s.(writers := s.writers[w := Exited])
    case OutStep(chars) => DoOut(s, chars)
    case NewFileStep => DoNewFile(s)
    case RotateStep => DoRotate(s)
  }

  /** What replaying a journal rebuilds for a file: its values and its last timestamp. */
  datatype Replayed = Replayed(values: seq<Value>, lastStamp: real)

  /** The line that `journal_write` writes, without its newline. */
  function Text(r: Record): string {
    match r
    case UpdateRecord(_, _, args) => "update " + args
    case ForgetRecord(k) => "forget " + k
    case WroteRecord(k) => "wrote " + k
  }

  /** What the handlers do with a journal line. */
  datatype Entry = UpdateEntry(key: Key, fields: seq<Field>) | ForgetEntry(key: Key) | WroteEntry(key: Key) | NoEntry

  /** What a record does when it is read back. The arguments of UPDATE are read as when they came. */
  function ReadBack(r: Record): Entry {
    match JournalText.Dispatch(JournalText.LastPiece(Text(r)))
    case UpdateOrder(args) => if r.UpdateRecord? && args == r.args then UpdateEntry(r.key, r.fields) else NoEntry
    case ForgetOrder(k) => ForgetEntry(k)
    case WroteOrder(k) => WroteEntry(k)
    case NoOrder => NoEntry
  }

  function ReplayEntry(t: map<Key, Replayed>, e: Entry): map<Key, Replayed> {
    match e
    case UpdateEntry(k, fields) =>
      var item := if k in t then t[k] else Replayed([], 0.0);
      var a := Absorb(fields, item.lastStamp);
      t[k := Replayed(item.values + a.values, a.last)]
    case ForgetEntry(k) => t - {k}
    case WroteEntry(k) => if k in t then t[k := t[k].(values := [])] else t
    case NoEntry => t
  }

  function Replay(journal: seq<Record>): map<Key, Replayed> {
    if journal == [] then map[]
    else ReplayEntry(Replay(journal[..|journal| - 1]), ReadBack(journal[|journal| - 1]))
  }

  function ReplayedValues(journal: seq<Record>, k: Key): seq<Value> {
    var t := Replay(journal);
    if k in t then t[k].values else []
  }

  /** A start: the cache holds what replaying the journal gives, all of which is in files of the present set, nothing is
      queued, and every writer is idle. */
  ghost predicate Init(cfg: Config, s: State) {
    var t := Replay(s.journal);
    s.core.tree.Keys == t.Keys &&
    (forall k <- t :: s.core.tree[k].values == t[k].values && s.core.tree[k].lastStamp == t[k].lastStamp &&
                      Fresh(cfg, s.core.tree[k], s.clock)) &&
    s.core.queue == [] && (forall w <- s.writers :: w.Idle?) && s.phase.Running? &&
    s.waiting == map[] && s.unrecorded == multiset{} && !s.stuck &&
    s.disk == Disk(0, 0, |JournalText.Written(Lines(s.journal))|) &&
    s.hist == History(map k | k in t :: t[k].values, map[], map[], map[], map[], map[], map[])
  }

  /** The last flush of an item lies before now plus the jitter. */
  predicate Fresh(cfg: Config, item: Item, clock: int) {
    item.lastFlush < clock + cfg.writeJitter || item.lastFlush <= clock
  }

  /** The states a run of enabled steps goes through. */
  ghost predicate IsRun(cfg: Config, s: State, steps: seq<Step>, t: State)
    decreases |steps|
  {
    if steps == [] then t == s
    else Enabled(cfg, s, steps[0]) && IsRun(cfg, Apply(cfg, s, steps[0]), steps[1..], t)
  }
}
