/** Recovery of rrdcached: what replaying all that has been printed to the journal gives back, at any moment of any run
    (rrd_daemon.c). */
module DaemonJournal {
  import opened CacheModel
  import opened DaemonModel
  import opened DaemonRuns
  import JournalText
  import Wire

  // ----- records and what is read back

  /** What a record is written for. */
  function Own(r: Record): Entry {
    match r
    case UpdateRecord(k, fields, _) => UpdateEntry(k, fields)
    case ForgetRecord(k) => ForgetEntry(k)
    case WroteRecord(k) => WroteEntry(k)
  }

  predicate Names(e: Entry, k: Key) {
    !e.NoEntry? && e.key == k
  }

  /** Read back, the record does to this file what it was written for. */
  predicate Faithful(r: Record, k: Key) {
    if r.key == k then ReadBack(r) == Own(r) else !Names(ReadBack(r), k)
  }

  /** A record is read back as what it was written for exactly if its line, newline included, is shorter than the
      entry buffer; FORGET also writes the file name unescaped, but its handler decodes it. */
  lemma LegibleIff(r: Record)
    requires |r.key| < Wire.CMD_MAX && '\0' !in r.key && (r.UpdateRecord? ==> |r.args| < Wire.CMD_MAX)
    ensures ReadBack(r) == Own(r) <==>
              |Text(r)| + 1 < Wire.CMD_MAX && (r.ForgetRecord? ==> ' ' !in r.key && '\\' !in r.key)
  {
    hide JournalText.Dispatch, JournalText.LastPiece;
    ReadBackIs(r);
    if r.ForgetRecord? {
      JournalText.ForgetName(r.key);
    }
  }

  /** The cases of reading back: whole, or the short rest of a split line. */
  lemma ReadBackIs(r: Record)
    requires |r.key| < Wire.CMD_MAX && (r.UpdateRecord? ==> |r.args| < Wire.CMD_MAX)
    ensures |Text(r)| + 1 < Wire.CMD_MAX ==>
              match r
              case UpdateRecord(_, _, _) => ReadBack(r) == Own(r)
              case WroteRecord(_) => ReadBack(r) == Own(r)
              case ForgetRecord(k) =>
                ReadBack(r) == if Wire.Decode(k + "\0").Got? then ForgetEntry(Wire.Decode(k + "\0").field) else NoEntry
    ensures |Text(r)| + 1 >= Wire.CMD_MAX ==>
              ReadBack(r).NoEntry? || (ReadBack(r).WroteEntry? && |ReadBack(r).key| <= 1) || ReadBack(r) == ForgetEntry("")
  {
    hide JournalText.Dispatch, JournalText.LastPiece, Wire.Decode;
    var text := Text(r);
    JournalText.WholeIff(text);
    if |text| + 1 < Wire.CMD_MAX {
      match r
      case UpdateRecord(_, _, args) => JournalText.DispatchUpdate(args);
      case ForgetRecord(k) => JournalText.DispatchForget(k);
      case WroteRecord(k) => JournalText.DispatchWrote(k);
    } else {
      JournalText.RestShort(text);
      JournalText.ShortEntry(JournalText.LastPiece(text));
    }
  }

  /** A batch that has been dequeued and has no "wrote" record yet. */
  predicate Unwritten(w: Writer, k: Key) {
    (w.Writing? || w.Handed?) && w.key == k
  }

  /** The step takes the file's idle item out of the tree. */
  predicate Evicts(cfg: Config, s: State, step: Step, k: Key) {
    (step.FlushAllStep? || step.TickStep? || (step.ShutdownStep? && s.flushAtShutdown)) && k in StaleKeys(cfg, s.core, s.clock)
  }

  /** No eviction of the file, no UPDATE of it between a FORGET and the FORGET's record, and what goes to the journal
      can be read back. */
  predicate Regular(cfg: Config, s: State, step: Step, k: Key) {
    !Evicts(cfg, s, step, k) && ((step.UpdateStep? || step.HangStep?) && step.key == k ==> k !in s.unrecorded) && RecordsFaithful(s, step, k)
  }

  /** If the step writes to the journal, the record is read back right as far as this file goes. */
  predicate RecordsFaithful(s: State, step: Step, k: Key) {
    match step
    case UpdateStep(x, fields, args, _, _, writable) =>
      x in s.core.tree || writable ==> Faithful(UpdateRecord(x, fields, args), k)
    case RecordForgetStep(x) => Faithful(ForgetRecord(x), k)
    case RecordWroteStep(w) => w < |s.writers| && s.writers[w].Handed? ==> Faithful(WroteRecord(s.writers[w].key), k)
    case _ => true
  }

  /** Regular, and no UPDATE of the file between a dequeue of its values and their "wrote" record. */
  predicate Undisturbed(cfg: Config, s: State, step: Step, k: Key) {
    Regular(cfg, s, step, k) && (step.UpdateStep? && step.key == k ==> forall w <- s.writers :: !Unwritten(w, k))
  }

  function Flat(batches: seq<Batch>): seq<Value> {
    if batches == [] then [] else batches[0].values + Flat(batches[1..])
  }

  /** What a restart must not lose: the item's batches without a "wrote" record, then what is pending. */
  function Outstanding(s: State, k: Key): seq<Value> {
    Flat(Of(s.hist.flight, k)) + Pending(s.core, k)
  }

  ghost predicate WriterOk(s: State, w: nat)
    requires w < |s.writers|
  {
    s.writers[w].Writing? || s.writers[w].Handed? ==>
      w in s.hist.upto && s.hist.upto[w] <= |Of(s.hist.accepted, s.writers[w].key)|
  }

  /** The journal mirrors the cache, as long as the lock is not lost. */
  ghost predicate Mirrored(s: State, k: Key) {
    var t := Replay(s.journal);
    s.unrecorded[k] <= 1 &&
    (k in s.unrecorded ==> k !in s.core.tree && Of(s.hist.flight, k) == []) &&
    (!s.stuck && k !in s.unrecorded ==> (k in s.core.tree <==> k in t)) &&
    (!s.stuck && k in s.core.tree ==> k in t && t[k].lastStamp == s.core.tree[k].lastStamp)
  }

  /** Replay gives a suffix of what was accepted, beyond every batch with a "wrote" record. */
  ghost predicate Suffix(s: State, k: Key) {
    IsSuffix(ReplayedValues(s.journal, k), Of(s.hist.accepted, k)) &&
    At(s.hist.wrote, k) <= |Of(s.hist.accepted, k)| - |ReplayedValues(s.journal, k)|
  }

  ghost predicate WritersOk(s: State) {
    forall w: nat :: w < |s.writers| ==> WriterOk(s, w)
  }

  /** Replaying all records printed so far would lose nothing and bring nothing back that has a "wrote" record. */
  ghost predicate Exact(s: State, k: Key) {
    ReplayedValues(s.journal, k) == Outstanding(s, k)
  }

  lemma ReplayAppend(journal: seq<Record>, r: Record)
    ensures Replay(journal + [r]) == ReplayEntry(Replay(journal), ReadBack(r))
  {
    assert (journal + [r])[..|journal|] == journal;
  }

  /** The effect of one record on one file. */
  lemma ReplayedEntry(journal: seq<Record>, r: Record, k: Key)
    ensures var e := ReadBack(r);
            ReplayedValues(journal + [r], k) ==
            if !Names(e, k) then ReplayedValues(journal, k)
            else if e.UpdateEntry? then ReplayedValues(journal, k) + Absorb(e.fields, ReplayedStamp(journal, k)).values
            else []
  {
    hide Absorb, ReadBack;
    ReplayAppend(journal, r);
  }

  lemma ReplayedAppend(journal: seq<Record>, r: Record, k: Key)
    requires Faithful(r, k)
    ensures ReplayedValues(journal + [r], k) ==
            if r.key != k then ReplayedValues(journal, k)
            else if r.UpdateRecord? then ReplayedValues(journal, k) + Absorb(r.fields, ReplayedStamp(journal, k)).values
            else []
  {
    hide Absorb, ReadBack;
    ReplayedEntry(journal, r, k);
  }

  function ReplayedStamp(journal: seq<Record>, k: Key): real {
    if k in Replay(journal) then Replay(journal)[k].lastStamp else 0.0
  }

  lemma SameStamp(s: State, k: Key)
    requires Mirrored(s, k) && !s.stuck && k !in s.unrecorded
    ensures ReplayedStamp(s.journal, k) == LastStamp(s.core, k)
  {
  }

  /** Flushing old values changes nothing that the journal is compared with, unless it evicts the file. */
  lemma FlushOldFrame(cfg: Config, s: State, order: seq<Key>, maxAge: int, k: Key)
    requires (forall x <- order :: x in s.core.tree) && k !in StaleKeys(cfg, s.core, s.clock)
    ensures var t := DoFlushOld(cfg, s, order, maxAge);
            t.journal == s.journal && t.unrecorded == s.unrecorded && t.stuck == s.stuck && t.writers == s.writers &&
            t.hist.flight == s.hist.flight && t.hist.accepted == s.hist.accepted && t.hist.wrote == s.hist.wrote &&
            (k in t.core.tree <==> k in s.core.tree) && Pending(t.core, k) == Pending(s.core, k) &&
            LastStamp(t.core, k) == LastStamp(s.core, k)
  {
    hide FlushOld, Wake, StaleKeys;
    FlushOldView(cfg, s.core, order, maxAge, s.clock, s.phase.Running?, k);
  }

  /** Steps that neither touch the file's values nor write to the journal. */
  predicate IsQuiet(step: Step) {
    !(step.UpdateStep? || step.ForgetStep? || step.RecordForgetStep? || step.TakeStep? || step.RecordWroteStep?)
  }

  lemma QuietFrame(cfg: Config, s: State, step: Step, k: Key)
    requires Enabled(cfg, s, step) && IsQuiet(step) && !Evicts(cfg, s, step, k)
    ensures var t := Apply(cfg, s, step);
            t.journal == s.journal && t.unrecorded == s.unrecorded && t.hist.flight == s.hist.flight &&
            t.hist.accepted == s.hist.accepted && t.hist.wrote == s.hist.wrote && Pending(t.core, k) == Pending(s.core, k) &&
            LastStamp(t.core, k) == LastStamp(s.core, k) &&
            (if step.HangStep? then t.stuck && (k in t.core.tree ==> k in s.core.tree || k == step.key)
             else t.stuck == s.stuck && (k in t.core.tree <==> k in s.core.tree))
  {
    hide DoFlushOld, StaleKeys, Create, Enqueue, JitterOk, Wake, Pending, LastStamp;
    match step
    case HangStep(x, now, jitter) => CreateView(s.core, x, now + jitter, k);
    case FlushStep(client, x) => FlushFrame(s, client, x);
    case FlushAllStep(order) => FlushOldFrame(cfg, s, order, -1, k);
    case TickStep(order) => FlushOldFrame(cfg, s, order, cfg.writeInterval, k);
    case ShutdownStep(order) => if s.flushAtShutdown { FlushOldFrame(cfg, s, order, -1, k); }
    case _ =>
  }

  lemma FlushFrame(s: State, client: nat, x: Key)
    ensures var t := DoFlush(s, client, x);
            t == s.(core := t.core, waiting := t.waiting) && t.core.tree == s.core.tree
    ensures forall k :: Pending(DoFlush(s, client, x).core, k) == Pending(s.core, k) &&
                        LastStamp(DoFlush(s, client, x).core, k) == LastStamp(s.core, k)
  {
    hide Enqueue;
    if x in s.core.tree { EnqueueTree(s.core, x); }
  }

  lemma MirroredStep(cfg: Config, s: State, step: Step, k: Key)
    requires Enabled(cfg, s, step) && Mirrored(s, k) && Regular(cfg, s, step, k)
    ensures Mirrored(Apply(cfg, s, step), k)
  {
    if IsQuiet(step) {
      hide Apply, Enabled, Replay, Evicts, RecordsFaithful;
      QuietFrame(cfg, s, step, k);
    } else {
      hide Faithful, JitterOk, Replay, DoUpdate, DoForget, DoRecordForget, DoRecordWrote, Remove, Evicts;
      match step
      case UpdateStep(x, fields, args, now, jitter, writable) => MirroredUpdate(cfg, s, x, fields, args, now, jitter, writable, k);
      case ForgetStep(x) => MirroredForget(s, x, k);
      case RecordForgetStep(x) => MirroredRecordForget(s, x, k);
      case RecordWroteStep(w) => MirroredWrote(s, w, k);
      case _ =>
    }
  }

  lemma MirroredUpdate(cfg: Config, s: State, x: Key, fields: seq<Field>, args: string, now: int, jitter: int, writable: bool, k: Key)
    requires Mirrored(s, k) && !s.stuck && (x == k ==> k !in s.unrecorded)
    requires x in s.core.tree || writable ==> Faithful(UpdateRecord(x, fields, args), k)
    ensures Mirrored(DoUpdate(cfg, s, x, fields, args, now, jitter, writable), k)
  {
    hide Absorb, Update, Replay, ReadBack;
    UpdateView(cfg, s.core, x, fields, now, jitter, k);
    ReplayAppend(s.journal, UpdateRecord(x, fields, args));
  }

  lemma MirroredForget(s: State, x: Key, k: Key)
    requires Mirrored(s, k)
    ensures Mirrored(DoForget(s, x), k)
  {
    hide Remove, Replay, Wake;
  }

  lemma MirroredRecordForget(s: State, x: Key, k: Key)
    requires Mirrored(s, k) && x in s.unrecorded && Faithful(ForgetRecord(x), k)
    ensures Mirrored(DoRecordForget(s, x), k)
  {
    hide Replay, ReadBack;
    ReplayAppend(s.journal, ForgetRecord(x));
  }

  lemma MirroredWrote(s: State, w: nat, k: Key)
    requires Mirrored(s, k) && w < |s.writers| && s.writers[w].Handed? && Faithful(WroteRecord(s.writers[w].key), k)
    ensures Mirrored(DoRecordWrote(s, w), k)
  {
    hide Replay, WithoutWriter, ReadBack;
    ReplayAppend(s.journal, WroteRecord(s.writers[w].key));
    WithoutNothing(w);
  }

  lemma WithoutNothing(w: nat)
    ensures WithoutWriter([], w) == []
  {
  }

  lemma UpdateQuiet(cfg: Config, s: State, k: Key, fields: seq<Field>, args: string, now: int, jitter: int, writable: bool)
    ensures var t := DoUpdate(cfg, s, k, fields, args, now, jitter, writable);
            t.writers == s.writers && t.hist.upto == s.hist.upto &&
            forall x :: |Of(s.hist.accepted, x)| <= |Of(t.hist.accepted, x)|
  {
    hide Absorb, Update;
  }

  lemma FlushOldQuiet(cfg: Config, s: State, order: seq<Key>, maxAge: int)
    requires forall x <- order :: x in s.core.tree
    ensures var t := DoFlushOld(cfg, s, order, maxAge);
            t.writers == s.writers && t.hist.upto == s.hist.upto && t.hist.accepted == s.hist.accepted
  {
    hide FlushOld, Wake, StaleKeys;
  }

  /** Steps that are not a writer's leave the writers alone and take back nothing accepted. */
  lemma WritersFrame(cfg: Config, s: State, step: Step)
    requires Enabled(cfg, s, step) && !(step.TakeStep? || step.HandStep? || step.RecordWroteStep? || step.DoneStep? || step.ExitStep?)
    ensures var t := Apply(cfg, s, step);
            t.writers == s.writers && t.hist.upto == s.hist.upto &&
            forall x :: |Of(s.hist.accepted, x)| <= |Of(t.hist.accepted, x)|
  {
    hide Create, Enqueue, Remove, JitterOk, Wake, Drop, DoUpdate, DoFlushOld, Of;
    match step
    case UpdateStep(x, fields, args, now, jitter, writable) => UpdateQuiet(cfg, s, x, fields, args, now, jitter, writable);
    case FlushAllStep(order) => FlushOldQuiet(cfg, s, order, -1);
    case TickStep(order) => FlushOldQuiet(cfg, s, order, cfg.writeInterval);
    case ShutdownStep(order) => if s.flushAtShutdown { FlushOldQuiet(cfg, s, order, -1); }
    case _ =>
  }

  lemma WritersOkStep(cfg: Config, s: State, step: Step)
    requires Enabled(cfg, s, step) && WritersOk(s)
    ensures WritersOk(Apply(cfg, s, step))
  {
    var t := Apply(cfg, s, step);
    if step.TakeStep? || step.HandStep? || step.RecordWroteStep? || step.DoneStep? || step.ExitStep? {
      hide Remove, WithoutWriter, JitterOk, Wake, Wipe;
      forall w: nat | w < |t.writers| ensures WriterOk(t, w) {
        assert WriterOk(s, w);
      }
    } else {
      hide Apply, Enabled;
      WritersFrame(cfg, s, step);
      forall w: nat | w < |t.writers| ensures WriterOk(t, w) {
        assert WriterOk(s, w);
      }
    }
  }

  lemma SuffixStep(cfg: Config, s: State, step: Step, k: Key)
    requires Enabled(cfg, s, step) && Mirrored(s, k) && Suffix(s, k) && WritersOk(s) && Regular(cfg, s, step, k)
    ensures Suffix(Apply(cfg, s, step), k)
  {
    if IsQuiet(step) {
      hide Apply, Enabled, ReplayedValues, IsSuffix, Evicts, RecordsFaithful, Mirrored, WritersOk;
      QuietFrame(cfg, s, step, k);
    } else {
      hide Faithful, JitterOk, Suffix, Mirrored, WritersOk, DoUpdate, DoForget, DoRecordForget, DoTake, DoRecordWrote, Evicts;
      match step
      case UpdateStep(x, fields, args, now, jitter, writable) => SuffixUpdate(cfg, s, x, fields, args, now, jitter, writable, k);
      case ForgetStep(x) => SuffixForget(s, x, k);
      case RecordForgetStep(x) => SuffixRecordForget(s, x, k);
      case RecordWroteStep(w) => SuffixWrote(s, w, k);
      case TakeStep(w, jitter) => SuffixTake(cfg, s, w, jitter, k);
    }
  }

  lemma SuffixForget(s: State, x: Key, k: Key)
    requires Suffix(s, k)
    ensures Suffix(DoForget(s, x), k)
  {
    hide ReplayedValues, IsSuffix, Remove, Drop, Wake;
  }

  lemma SuffixTake(cfg: Config, s: State, w: nat, jitter: int, k: Key)
    requires Suffix(s, k) && w < |s.writers| && s.core.queue != [] && s.core.queue[0] in s.core.tree
    ensures Suffix(DoTake(cfg, s, w, jitter), k)
  {
    hide ReplayedValues, IsSuffix, Wipe;
  }

  lemma SuffixRecordForget(s: State, x: Key, k: Key)
    requires Suffix(s, k) && Faithful(ForgetRecord(x), k)
    ensures Suffix(DoRecordForget(s, x), k)
  {
    hide ReplayedValues, IsSuffix, Faithful;
    ReplayedAppend(s.journal, ForgetRecord(x), k);
    SuffixAppend(ReplayedValues(s.journal, k), Of(s.hist.accepted, k), []);
  }

  lemma SuffixUpdate(cfg: Config, s: State, x: Key, fields: seq<Field>, args: string, now: int, jitter: int, writable: bool, k: Key)
    requires Mirrored(s, k) && Suffix(s, k) && !s.stuck && (x == k ==> k !in s.unrecorded)
    requires x in s.core.tree || writable ==> Faithful(UpdateRecord(x, fields, args), k)
    ensures Suffix(DoUpdate(cfg, s, x, fields, args, now, jitter, writable), k)
  {
    hide Absorb, Update, ReplayedValues, IsSuffix, Mirrored, ReadBack, Faithful;
    if x in s.core.tree || writable {
      ReplayedAppend(s.journal, UpdateRecord(x, fields, args), k);
      if x == k {
        SameStamp(s, k);
        SuffixAppend(ReplayedValues(s.journal, k), Of(s.hist.accepted, k), Absorb(fields, LastStamp(s.core, k)).values);
      }
    }
  }

  lemma SuffixWrote(s: State, w: nat, k: Key)
    requires w < |s.writers| && s.writers[w].Handed? && Suffix(s, k) && WritersOk(s)
    requires Faithful(WroteRecord(s.writers[w].key), k)
    ensures Suffix(DoRecordWrote(s, w), k)
  {
    hide Faithful, ReplayedValues, IsSuffix, WritersOk, WithoutWriter;
    ReplayedAppend(s.journal, WroteRecord(s.writers[w].key), k);
    SuffixAppend(ReplayedValues(s.journal, k), Of(s.hist.accepted, k), []);
    WriterOkAt(s, w);
  }

  lemma WriterOkAt(s: State, w: nat)
    requires WritersOk(s) && w < |s.writers|
    ensures WriterOk(s, w)
  {
  }

  // ----- exactness

  lemma FlatAppend(a: seq<Batch>, b: Batch)
    ensures Flat(a + [b]) == Flat(a) + b.values
  {
    if a == [] {
      assert a + [b] == [b];
    } else {
      FlatAppend(a[1..], b);
      assert (a + [b])[1..] == a[1..] + [b];
    }
  }

  /** Every step but a "wrote" record keeps replay exact; a FORGET does once it is recorded. */
  lemma ExactStep(cfg: Config, s: State, step: Step, k: Key)
    requires Enabled(cfg, s, step) && Mirrored(s, k) && Regular(cfg, s, step, k)
    requires k !in s.unrecorded ==> Exact(s, k)
    requires !(step.RecordWroteStep? && s.writers[step.writer].key == k)
    ensures k !in Apply(cfg, s, step).unrecorded ==> Exact(Apply(cfg, s, step), k)
  {
    if IsQuiet(step) {
      hide Apply, Enabled, ReplayedValues, Flat, Evicts, RecordsFaithful, Mirrored, Pending;
      QuietFrame(cfg, s, step, k);
    } else {
      hide Faithful, JitterOk, ReplayedValues, Flat, Remove, DoUpdate, DoRecordForget, DoTake, DoForget, DoRecordWrote, Evicts;
      match step
      case UpdateStep(x, fields, args, now, jitter, writable) => ExactUpdate(cfg, s, x, fields, args, now, jitter, writable, k);
      case ForgetStep(x) => ExactForget(s, x, k);
      case RecordForgetStep(x) => ExactRecordForget(s, x, k);
      case RecordWroteStep(w) => ExactWroteOther(s, w, k);
      case TakeStep(w, jitter) => ExactTake(cfg, s, w, jitter, k);
    }
  }

  lemma ExactForget(s: State, x: Key, k: Key)
    requires k !in s.unrecorded ==> Exact(s, k)
    ensures k !in DoForget(s, x).unrecorded ==> Exact(DoForget(s, x), k)
  {
    hide ReplayedValues, Flat, Remove, Wake;
  }

  lemma ExactWroteOther(s: State, w: nat, k: Key)
    requires w < |s.writers| && s.writers[w].Handed? && s.writers[w].key != k && Faithful(WroteRecord(s.writers[w].key), k)
    requires k !in s.unrecorded ==> Exact(s, k)
    ensures DoRecordWrote(s, w).unrecorded == s.unrecorded && (k !in s.unrecorded ==> Exact(DoRecordWrote(s, w), k))
  {
    hide ReplayedValues, Flat, WithoutWriter, Faithful;
    ReplayedAppend(s.journal, WroteRecord(s.writers[w].key), k);
  }

  /** What an UPDATE that is journaled does, as far as one file and the journal go. */
  lemma UpdateFrame(cfg: Config, s: State, x: Key, fields: seq<Field>, args: string, now: int, jitter: int, writable: bool, k: Key)
    requires x in s.core.tree || writable
    ensures var t := DoUpdate(cfg, s, x, fields, args, now, jitter, writable);
            t.journal == s.journal + [UpdateRecord(x, fields, args)] && t.hist.flight == s.hist.flight &&
            t.unrecorded == s.unrecorded &&
            Pending(t.core, k) ==
              if x == k then Pending(s.core, k) + Absorb(fields, LastStamp(s.core, k)).values else Pending(s.core, k)
  {
    hide Absorb, Update;
    UpdateView(cfg, s.core, x, fields, now, jitter, k);
  }

  lemma UpdateRefused(cfg: Config, s: State, x: Key, fields: seq<Field>, args: string, now: int, jitter: int, writable: bool)
    ensures x !in s.core.tree && !writable ==> DoUpdate(cfg, s, x, fields, args, now, jitter, writable) == s
  {
  }

  lemma ExactUpdate(cfg: Config, s: State, x: Key, fields: seq<Field>, args: string, now: int, jitter: int, writable: bool, k: Key)
    requires Mirrored(s, k) && !s.stuck && (x == k ==> k !in s.unrecorded) && (k !in s.unrecorded ==> Exact(s, k))
    requires x in s.core.tree || writable ==> Faithful(UpdateRecord(x, fields, args), k)
    ensures k !in s.unrecorded ==> Exact(DoUpdate(cfg, s, x, fields, args, now, jitter, writable), k)
    ensures DoUpdate(cfg, s, x, fields, args, now, jitter, writable).unrecorded == s.unrecorded
  {
    hide Absorb, Update, ReplayedValues, ReplayedStamp, Flat, Mirrored, Faithful, DoUpdate, Pending, LastStamp;
    UpdateRefused(cfg, s, x, fields, args, now, jitter, writable);
    if x in s.core.tree || writable {
      var accepted := Absorb(fields, LastStamp(s.core, k)).values;
      UpdateFrame(cfg, s, x, fields, args, now, jitter, writable, k);
      ReplayedAppend(s.journal, UpdateRecord(x, fields, args), k);
      if x == k {
        SameStamp(s, k);
        assert Flat(Of(s.hist.flight, k)) + (Pending(s.core, k) + accepted) == Outstanding(s, k) + accepted;
      }
    }
  }

  lemma ExactRecordForget(s: State, x: Key, k: Key)
    requires Mirrored(s, k) && x in s.unrecorded && (k !in s.unrecorded ==> Exact(s, k)) && Faithful(ForgetRecord(x), k)
    ensures k !in DoRecordForget(s, x).unrecorded ==> Exact(DoRecordForget(s, x), k)
  {
    hide ReplayedValues, Flat, Replay, Faithful;
    ReplayedAppend(s.journal, ForgetRecord(x), k);
    FlatNothing();
  }

  lemma ExactTake(cfg: Config, s: State, w: nat, jitter: int, k: Key)
    requires w < |s.writers| && s.core.queue != [] && s.core.queue[0] in s.core.tree && (k !in s.unrecorded ==> Exact(s, k))
    ensures k !in s.unrecorded ==> Exact(DoTake(cfg, s, w, jitter), k)
    ensures DoTake(cfg, s, w, jitter).unrecorded == s.unrecorded
  {
    hide ReplayedValues, Flat, Remove;
    FlatAppend(Of(s.hist.flight, k), Batch(w, Pending(s.core, k)));
  }

  lemma FlatNothing()
    ensures Flat([]) == []
  {
  }

  /** A "wrote" record wipes the replayed values, so it keeps replay exact exactly when nothing else
      of the item was outstanding: no value accepted since the dequeue, no other batch. */
  lemma ExactWrote(cfg: Config, s: State, w: nat, k: Key)
    requires Enabled(cfg, s, RecordWroteStep(w)) && s.writers[w].key == k && Faithful(WroteRecord(k), k)
    ensures ReplayedValues(Apply(cfg, s, RecordWroteStep(w)).journal, k) == []
    ensures Exact(Apply(cfg, s, RecordWroteStep(w)), k) <==> Outstanding(Apply(cfg, s, RecordWroteStep(w)), k) == []
  {
    hide Faithful, ReplayedValues, WithoutWriter;
    ReplayedAppend(s.journal, WroteRecord(k), k);
  }

  /** Without an UPDATE in between, at most one writer has an unwritten batch of the file, nothing is pending
      meanwhile, and the item's unwritten batches are that writer's. */
  ghost predicate Sole(s: State, k: Key) {
    (forall w: nat :: w < |s.writers| && Unwritten(s.writers[w], k) ==> Pending(s.core, k) == []) &&
    (forall v: nat, w: nat :: v < w < |s.writers| && Unwritten(s.writers[v], k) ==> !Unwritten(s.writers[w], k)) &&
    forall b <- Of(s.hist.flight, k) :: b.writer < |s.writers| && Unwritten(s.writers[b.writer], k)
  }

  lemma {:induction false} WithoutOnly(batches: seq<Batch>, w: nat)
    requires forall b <- batches :: b.writer == w
    ensures WithoutWriter(batches, w) == []
  {
    if batches != [] {
      assert batches[0] in batches;
      WithoutOnly(batches[1..], w);
    }
  }

  lemma SoleStep(cfg: Config, s: State, step: Step, k: Key)
    requires Enabled(cfg, s, step) && QueueOk(s.core) && Sole(s, k) && Undisturbed(cfg, s, step, k)
    ensures Sole(Apply(cfg, s, step), k)
  {
    if IsQuiet(step) && !(step.HandStep? || step.DoneStep? || step.ExitStep?) {
      hide Apply, Enabled, Evicts, RecordsFaithful, QueueOk, Pending, Unwritten;
      QuietFrame(cfg, s, step, k);
      WritersFrame(cfg, s, step);
    } else {
      hide Faithful, Remove, WithoutWriter, JitterOk, DoUpdate, DoForget, DoTake, DoRecordWrote, Evicts, RecordsFaithful;
      match step
      case UpdateStep(x, fields, args, now, jitter, writable) => SoleUpdate(cfg, s, x, fields, args, now, jitter, writable, k);
      case ForgetStep(x) => SoleForget(s, x, k);
      case TakeStep(w, jitter) => SoleTake(cfg, s, w, jitter, k);
      case RecordWroteStep(w) => SoleWrote(s, w, k);
      case _ =>
    }
  }

  lemma SoleUpdate(cfg: Config, s: State, x: Key, fields: seq<Field>, args: string, now: int, jitter: int, writable: bool, k: Key)
    requires Sole(s, k) && (x == k ==> forall w <- s.writers :: !Unwritten(w, k))
    ensures Sole(DoUpdate(cfg, s, x, fields, args, now, jitter, writable), k)
  {
    hide Absorb, Update;
    UpdateView(cfg, s.core, x, fields, now, jitter, k);
  }

  lemma SoleForget(s: State, x: Key, k: Key)
    requires Sole(s, k)
    ensures Sole(DoForget(s, x), k)
  {
    hide Remove, Wake;
  }

  lemma SoleTake(cfg: Config, s: State, w: nat, jitter: int, k: Key)
    requires w < |s.writers| && s.writers[w].Idle? && QueueOk(s.core) && s.core.queue != [] && Sole(s, k)
    ensures s.core.queue[0] in s.core.tree && Sole(DoTake(cfg, s, w, jitter), k)
  {
    hide Remove;
    assert s.core.queue[0] in s.core.queue;
  }

  lemma SoleWrote(s: State, w: nat, k: Key)
    requires w < |s.writers| && s.writers[w].Handed? && Sole(s, k)
    ensures Sole(DoRecordWrote(s, w), k)
    ensures s.writers[w].key == k ==> Of(DoRecordWrote(s, w).hist.flight, k) == []
  {
    hide WithoutWriter;
    if s.writers[w].key == k {
      assert Unwritten(s.writers[w], k);
      forall b <- Of(s.hist.flight, k) ensures b.writer == w {
        assert Unwritten(s.writers[b.writer], k);
      }
      WithoutOnly(Of(s.hist.flight, k), w);
    }
  }

  // ----- whole runs

  /** Every step of the run is regular for the file, or even undisturbed. */
  ghost predicate Along(cfg: Config, s: State, steps: seq<Step>, k: Key, undisturbed: bool)
    decreases |steps|
  {
    steps != [] ==>
      Enabled(cfg, s, steps[0]) &&
      (if undisturbed then Undisturbed(cfg, s, steps[0], k) else Regular(cfg, s, steps[0], k)) &&
      Along(cfg, Apply(cfg, s, steps[0]), steps[1..], k, undisturbed)
  }

  lemma InitJournal(cfg: Config, s: State, k: Key)
    requires Init(cfg, s)
    ensures Mirrored(s, k) && Suffix(s, k) && WritersOk(s) && Sole(s, k) && Exact(s, k)
  {
    hide Replay, Fresh;
    assert Of(s.hist.accepted, k) == ReplayedValues(s.journal, k) == Pending(s.core, k);
    assert Of(s.hist.flight, k) == [];
    FlatNothing();
    assert forall w: nat :: w < |s.writers| ==> s.writers[w] in s.writers;
  }

  lemma {:induction false} SuffixRun(cfg: Config, s: State, steps: seq<Step>, t: State, k: Key)
    requires Mirrored(s, k) && Suffix(s, k) && WritersOk(s)
    requires IsRun(cfg, s, steps, t) && Along(cfg, s, steps, k, false)
    ensures Suffix(t, k)
    decreases |steps|
  {
    hide Apply, Enabled, Mirrored, Suffix, WritersOk, Regular;
    if steps != [] {
      MirroredStep(cfg, s, steps[0], k);
      WritersOkStep(cfg, s, steps[0]);
      SuffixStep(cfg, s, steps[0], k);
      SuffixRun(cfg, Apply(cfg, s, steps[0]), steps[1..], t, k);
    }
  }

  /** At any moment of any regular run, what replaying all records printed would rebuild for a file is a suffix of what was accepted
      for it, and lies beyond every batch whose "wrote" record has been printed. */
  lemma ReplayIsSuffix(cfg: Config, s: State, steps: seq<Step>, t: State, k: Key)
    requires Init(cfg, s) && IsRun(cfg, s, steps, t) && Along(cfg, s, steps, k, false)
    ensures IsSuffix(ReplayedValues(t.journal, k), Of(t.hist.accepted, k))
    ensures At(t.hist.wrote, k) + |ReplayedValues(t.journal, k)| <= |Of(t.hist.accepted, k)|
  {
    InitJournal(cfg, s, k);
    SuffixRun(cfg, s, steps, t, k);
  }

  /** Replay of all records is exact in every state of the run. */
  ghost predicate ExactAlong(cfg: Config, s: State, steps: seq<Step>, k: Key)
    decreases |steps|
  {
    (k !in s.unrecorded ==> Exact(s, k)) &&
    (steps != [] ==> Enabled(cfg, s, steps[0]) && ExactAlong(cfg, Apply(cfg, s, steps[0]), steps[1..], k))
  }

  /** Whenever the run writes a "wrote" record of the file, no other value of the item is left: none accepted since the
      dequeue, and no other batch. */
  ghost predicate CleanRecords(cfg: Config, s: State, steps: seq<Step>, k: Key)
    decreases |steps|
  {
    steps != [] ==>
      Enabled(cfg, s, steps[0]) &&
      (WritesWrote(s, steps[0], k) ==> Outstanding(Apply(cfg, s, steps[0]), k) == []) &&
      CleanRecords(cfg, Apply(cfg, s, steps[0]), steps[1..], k)
  }

  predicate WritesWrote(s: State, step: Step, k: Key) {
    step.RecordWroteStep? && step.writer < |s.writers| && s.writers[step.writer].Handed? && s.writers[step.writer].key == k
  }

  /** One step of a regular run keeps replay exact unless it is a "wrote" record that is not clean. */
  lemma ExactStepIff(cfg: Config, s: State, step: Step, k: Key)
    requires Enabled(cfg, s, step) && Mirrored(s, k) && Regular(cfg, s, step, k)
    requires k !in s.unrecorded ==> Exact(s, k)
    ensures var t := Apply(cfg, s, step);
            (k !in t.unrecorded ==> Exact(t, k)) <==> (WritesWrote(s, step, k) ==> Outstanding(t, k) == [])
  {
    if WritesWrote(s, step, k) {
      MirroredStep(cfg, s, step, k);
      hide Faithful, ReplayedValues, WithoutWriter;
      ExactWrote(cfg, s, step.writer, k);
      FlatNothing();
    } else {
      hide Mirrored, Regular, Exact, Outstanding, Apply;
      ExactStep(cfg, s, step, k);
    }
  }

  lemma {:induction false} ExactAlongIff(cfg: Config, s: State, steps: seq<Step>, k: Key)
    requires Mirrored(s, k) && (k !in s.unrecorded ==> Exact(s, k)) && Along(cfg, s, steps, k, false)
    ensures ExactAlong(cfg, s, steps, k) <==> CleanRecords(cfg, s, steps, k)
    decreases |steps|
  {
    hide Apply, Enabled, Mirrored, Exact, Regular, Outstanding, WritesWrote;
    if steps != [] {
      MirroredStep(cfg, s, steps[0], k);
      ExactStepIff(cfg, s, steps[0], k);
      if WritesWrote(s, steps[0], k) ==> Outstanding(Apply(cfg, s, steps[0]), k) == [] {
        ExactAlongIff(cfg, Apply(cfg, s, steps[0]), steps[1..], k);
      }
    }
  }

  lemma {:induction false} ExactEnd(cfg: Config, s: State, steps: seq<Step>, t: State, k: Key)
    requires ExactAlong(cfg, s, steps, k) && IsRun(cfg, s, steps, t)
    ensures k !in t.unrecorded ==> Exact(t, k)
    decreases |steps|
  {
    hide Apply, Enabled, Exact;
    if steps != [] {
      ExactEnd(cfg, Apply(cfg, s, steps[0]), steps[1..], t, k);
    }
  }

  /** In a regular run, replaying all records printed gives in every state exactly the unwritten batches of the item followed by
      what is pending, if and only if every "wrote" record of the file is written with nothing else left of it. */
  lemma ReplayExactIff(cfg: Config, s: State, steps: seq<Step>, k: Key)
    requires Init(cfg, s) && Along(cfg, s, steps, k, false)
    ensures ExactAlong(cfg, s, steps, k) <==> CleanRecords(cfg, s, steps, k)
  {
    hide *;
    InitJournal(cfg, s, k);
    ExactAlongIff(cfg, s, steps, k);
  }

  lemma UndisturbedRegular(cfg: Config, s: State, step: Step, k: Key)
    requires Undisturbed(cfg, s, step, k)
    ensures Regular(cfg, s, step, k)
  {
  }

  lemma UndisturbedWrote(cfg: Config, s: State, step: Step, k: Key)
    requires Enabled(cfg, s, step) && Sole(s, k) && WritesWrote(s, step, k)
    ensures Outstanding(Apply(cfg, s, step), k) == []
  {
    hide WithoutWriter, Faithful;
    assert Unwritten(s.writers[step.writer], k);
    SoleWrote(s, step.writer, k);
    FlatNothing();
  }

  lemma {:induction false} UndisturbedClean(cfg: Config, s: State, steps: seq<Step>, k: Key)
    requires QueueOk(s.core) && Sole(s, k) && Along(cfg, s, steps, k, true)
    ensures CleanRecords(cfg, s, steps, k) && Along(cfg, s, steps, k, false)
    decreases |steps|
  {
    hide Apply, Enabled, Sole, QueueOk, Regular, Undisturbed, Outstanding, WritesWrote;
    if steps != [] {
      QueueStep(cfg, s, steps[0]);
      UndisturbedRegular(cfg, s, steps[0], k);
      SoleStep(cfg, s, steps[0], k);
      if WritesWrote(s, steps[0], k) {
        UndisturbedWrote(cfg, s, steps[0], k);
      }
      UndisturbedClean(cfg, Apply(cfg, s, steps[0]), steps[1..], k);
    }
  }

  /** In particular, no UPDATE of the file between a dequeue of its values and their "wrote" record is enough. */
  lemma ReplayIsExact(cfg: Config, s: State, steps: seq<Step>, t: State, k: Key)
    requires Init(cfg, s) && IsRun(cfg, s, steps, t) && Along(cfg, s, steps, k, true)
    ensures k !in t.unrecorded ==> ReplayedValues(t.journal, k) == Flat(Of(t.hist.flight, k)) + Pending(t.core, k)
  {
    hide Init, IsRun, Along, ReplayedValues, Flat;
    InitJournal(cfg, s, k);
    InitInvariant(cfg, s, k, Value(0.0, ""));
    UndisturbedClean(cfg, s, steps, k);
    ReplayExactIff(cfg, s, steps, k);
    ExactEnd(cfg, s, steps, t, k);
  }

  // ----- one UPDATE

  /** What a journaled UPDATE leaves to replay, whether or not its record can be read back. */
  lemma UpdateExactIff(cfg: Config, s: State, k: Key, fields: seq<Field>, args: string, now: int, jitter: int)
    requires Mirrored(s, k) && Exact(s, k) && !s.stuck && k !in s.unrecorded
    requires |k| < Wire.CMD_MAX && |args| < Wire.CMD_MAX
    ensures var t := DoUpdate(cfg, s, k, fields, args, now, jitter, true);
            var accepted := Absorb(fields, LastStamp(s.core, k)).values;
            Exact(t, k) <==>
              |args| + 8 < Wire.CMD_MAX ||
              (if Names(ReadBack(UpdateRecord(k, fields, args)), k) then Outstanding(t, k) == [] else accepted == [])
  {
    var r := UpdateRecord(k, fields, args);
    var accepted := Absorb(fields, LastStamp(s.core, k)).values;
    hide Absorb, Update, ReplayedValues, Flat, Mirrored, ReadBack;
    ReadBackIs(r);
    UpdateView(cfg, s.core, k, fields, now, jitter, k);
    ReplayedEntry(s.journal, r, k);
    SameStamp(s, k);
    assert Flat(Of(s.hist.flight, k)) + (Pending(s.core, k) + accepted) == Outstanding(s, k) + accepted;
  }

  /** An UPDATE that brings something keeps the replay a suffix of what was accepted exactly if its record can be read
      back, or there is nothing to replay. */
  lemma UpdateSuffixIff(cfg: Config, s: State, k: Key, fields: seq<Field>, args: string, now: int, jitter: int)
    requires Mirrored(s, k) && Suffix(s, k) && !s.stuck && k !in s.unrecorded
    requires |k| < Wire.CMD_MAX && |args| < Wire.CMD_MAX
    ensures var t := DoUpdate(cfg, s, k, fields, args, now, jitter, true);
            Suffix(t, k) <==>
              |args| + 8 < Wire.CMD_MAX || Absorb(fields, LastStamp(s.core, k)).values == [] || ReplayedValues(t.journal, k) == []
  {
    var r, t := UpdateRecord(k, fields, args), DoUpdate(cfg, s, k, fields, args, now, jitter, true);
    var accepted := Absorb(fields, LastStamp(s.core, k)).values;
    var a, replayed := Of(s.hist.accepted, k), ReplayedValues(t.journal, k);
    hide Absorb, Update, ReplayedValues, ReplayedStamp, Mirrored, ReadBack, IsSuffix;
    ReadBackIs(r);
    UpdateView(cfg, s.core, k, fields, now, jitter, k);
    ReplayedEntry(s.journal, r, k);
    SameStamp(s, k);
    AbsorbOrder(fields, LastStamp(s.core, k));
    StampBound(s.journal, k);
    SuffixAppend(ReplayedValues(s.journal, k), a, accepted);
    SuffixAppend([], a, accepted);
    SuffixAppend([], a + accepted, []);
    assert a + [] == a;
    if accepted != [] && ReplayedValues(s.journal, k) != [] {
      NoSuffix(ReplayedValues(s.journal, k), a, accepted, LastStamp(s.core, k));
    }
  }

  lemma NoSuffix(b: seq<Value>, a: seq<Value>, c: seq<Value>, bound: real)
    requires b != [] && c != []
    requires (forall v <- b :: v.stamp <= bound) && forall v <- c :: bound < v.stamp
    ensures !IsSuffix(b, a + c)
  {
    assert b[|b| - 1] in b && c[|c| - 1] in c;
    assert (a + c)[|a + c| - 1] == c[|c| - 1];
    assert |b| <= |a + c| ==> (a + c)[|a + c| - |b|..][|b| - 1] == (a + c)[|a + c| - 1];
  }

  lemma StampBound(journal: seq<Record>, k: Key)
    ensures forall v <- ReplayedValues(journal, k) :: v.stamp <= ReplayedStamp(journal, k)
  {
    ReplayOrdered(journal, k);
  }

  /** What a writer takes ends at the position that its "wrote" record will later stand for. */
  lemma BatchPosition(cfg: Config, s: State, w: nat, jitter: int)
    requires Enabled(cfg, s, TakeStep(w, jitter)) && PendingLast(s, s.core.queue[0])
    ensures var t := Apply(cfg, s, TakeStep(w, jitter));
            t.writers[w].Writing? && w in t.hist.upto &&
            t.hist.upto[w] <= |Of(t.hist.accepted, t.writers[w].key)| &&
            IsSuffix(t.writers[w].values, Of(t.hist.accepted, t.writers[w].key)[..t.hist.upto[w]])
  {
    hide Remove;
    var a := Of(s.hist.accepted, s.core.queue[0]);
    assert a[..|a|] == a;
  }

  /** The "wrote" record of a writer takes exactly its own batches off those without a record, and stands for everything up to
      the position of its batch, unless a later batch of the file has had its record before. */
  lemma WroteHistory(cfg: Config, s: State, w: nat, a: seq<Batch>, x: Batch, b: seq<Batch>)
    requires Enabled(cfg, s, RecordWroteStep(w)) && w in s.hist.upto
    ensures var t, k := Apply(cfg, s, RecordWroteStep(w)), s.writers[w].key;
            s.hist.upto[w] <= At(t.hist.wrote, k) && At(s.hist.wrote, k) <= At(t.hist.wrote, k) &&
            (At(t.hist.wrote, k) == s.hist.upto[w] || At(t.hist.wrote, k) == At(s.hist.wrote, k)) &&
            (Of(s.hist.flight, k) == a + [x] + b ==>
              Of(t.hist.flight, k) == WithoutWriter(a, w) + (if x.writer == w then [] else [x]) + WithoutWriter(b, w))
  {
    WithoutAround(a, x, b, w);
    hide WithoutWriter;
  }

  lemma {:induction false} WithoutAround(a: seq<Batch>, x: Batch, b: seq<Batch>, w: nat)
    ensures WithoutWriter(a + [x] + b, w) == WithoutWriter(a, w) + (if x.writer == w then [] else [x]) + WithoutWriter(b, w)
  {
    var all := a + [x] + b;
    if a == [] {
      assert all[0] == x && all[1..] == b;
    } else {
      assert all[0] == a[0] && all[1..] == a[1..] + [x] + b;
      WithoutAround(a[1..], x, b, w);
    }
  }
}
