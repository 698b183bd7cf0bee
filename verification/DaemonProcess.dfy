/** The daemon itself: its handlers and threads over the linked cache, each proved to be a step of the machine
    (rrd_daemon.c). */
module DaemonProcess {
  import opened CacheModel
  import opened CacheQueue
  import opened DaemonModel
  import opened DaemonRuns
  import opened DaemonJournal
  import opened DaemonCrash
  import JournalText
  import Wire

  /** What replaying one entry does to the cache: the handlers run without writing to the journal. */
  function ReplayCore(cfg: Config, c: Core, e: Entry, now: int, jitter: int): Core {
    match e
    case UpdateEntry(k, fields) => Update(cfg, c, k, fields, now, jitter)
    case ForgetEntry(k) => if k in c.tree then Drop(c, k) else c
    case WroteEntry(k) => if k in c.tree then Wipe(c, k, now + jitter) else c
    case NoEntry => c
  }

  /** The cache holds what the replayed records give, flushed just now, and nothing is queued. */
  ghost predicate Rebuilt(cfg: Config, c: Core, t: map<Key, Replayed>, now: int) {
    c.tree.Keys == t.Keys && c.queue == [] &&
    forall k <- t ::
      c.tree[k].values == t[k].values && c.tree[k].lastStamp == t[k].lastStamp &&
      now <= c.tree[k].lastFlush && Fresh(cfg, c.tree[k], now)
  }

  lemma RebuiltStep(cfg: Config, c: Core, t: map<Key, Replayed>, e: Entry, now: int, jitter: int)
    requires Rebuilt(cfg, c, t, now) && JitterOk(cfg, jitter) && cfg.writeInterval > 0
    ensures Rebuilt(cfg, ReplayCore(cfg, c, e, now, jitter), ReplayEntry(t, e), now)
  {
    hide Absorb;
  }

  /** A record that is not an UPDATE leaves nothing of its own file and all of the others. */
  lemma ReplayedOthers(journal: seq<Record>, r: Record)
    requires !r.UpdateRecord?
    ensures forall x :: Faithful(r, x) ==>
              ReplayedValues(journal + [r], x) == if x == r.key then [] else ReplayedValues(journal, x)
  {
    hide Faithful, ReplayedValues;
    forall x | Faithful(r, x)
      ensures ReplayedValues(journal + [r], x) == if x == r.key then [] else ReplayedValues(journal, x)
    {
      ReplayedAppend(journal, r, x);
    }
  }

  lemma HandMoves(writers: seq<Writer>, handed: map<Key, seq<Value>>, w: nat)
    requires w < |writers| && writers[w].Writing?
    ensures var k, values := writers[w].key, writers[w].values;
            forall x :: FlightOf(writers[w := Handed(k, values)], x) + multiset(Of(handed[k := Of(handed, k) + values], x)) ==
                        FlightOf(writers, x) + multiset(Of(handed, x))
  {
    hide FlightOf, InFlight;
    var k, values := writers[w].key, writers[w].values;
    forall x
      ensures FlightOf(writers[w := Handed(k, values)], x) + multiset(Of(handed[k := Of(handed, k) + values], x)) ==
              FlightOf(writers, x) + multiset(Of(handed, x))
    {
      var a := FlightOf(writers[w := Handed(k, values)], x) + multiset(Of(handed[k := Of(handed, k) + values], x));
      var b := FlightOf(writers, x) + multiset(Of(handed, x));
      forall v ensures a[v] == b[v] {
        FlightCount(writers, x, v);
        FlightCount(writers[w := Handed(k, values)], x, v);
        InFlightUpdate(writers, w, Handed(k, values), x, v);
        CountAppend(Of(handed, k), values, v);
      }
    }
  }

  class Daemon {
    const cfg: Config
    const cache: Cache
    var writers: seq<Writer>
    var phase: Phase
    var flushAtShutdown: bool
    var clock: int
    var journal: seq<Record>
    var disk: Disk
    ghost var waiting: map<nat, Wait>
    ghost var unrecorded: multiset<Key>
    ghost var stuck: bool
    ghost var hist: History

    ghost function View(): State
      reads this, cache`tree, cache`queue, cache.tree.Values`values, cache.tree.Values`lastFlush, cache.tree.Values`lastStamp
    {
      State(cache.Core(), writers, phase, flushAtShutdown, clock, journal, disk, waiting, unrecorded, stuck, hist)
    }

    ghost predicate Valid()
      reads this, cache, cache.tree.Values, cache.queue
    {
      cache.Valid()
    }

    /** Start-up: every journal line is handed to its handler, oldest first. */
    constructor (cfg: Config, threads: nat, flushAtShutdown: bool, now: int, journal: seq<Record>, jitters: seq<int>)
      requires cfg.writeInterval > 0 && |jitters| == |journal| && forall r <- jitters :: JitterOk(cfg, r)
      ensures Valid() && fresh(cache) && this.cfg == cfg && this.journal == journal && |writers| == threads
      ensures forall x <- cache.tree.Values :: fresh(x)
      ensures Init(cfg, View())
    {
      this.cfg := cfg;
      cache := new Cache();
      writers := seq(threads, i => Idle);
      phase := Running;
      this.flushAtShutdown := flushAtShutdown;
      clock := now;
      this.journal := journal;
      disk := Disk(0, 0, |JournalText.Written(Lines(journal))|);
      waiting, unrecorded, stuck := map[], multiset{}, false;
      hist := History(map k | k in Replay(journal) :: Replay(journal)[k].values, map[], map[], map[], map[], map[], map[]);
      new;
      ReplayAll(cfg, cache, journal, now, jitters);
      RebuiltInit(cfg, View());
    }

    /** `handle_request_update`. `known`: the first lookup has found the item, and the lock has been kept since; otherwise
        the file has been looked at without the lock. After SHUTDOWN such an UPDATE returns with the lock held. False where
        the arguments do not fit the buffer for the journal and C does not define what is printed. */
    method HandleUpdate(k: Key, fields: seq<Field>, args: string, now: int, jitter: int, known: bool, writable: bool)
      returns (defined: bool)
      requires Valid() && (known ==> k in View().core.tree)
      modifies this`journal, this`hist, this`stuck, cache, cache.tree.Values
      ensures Valid()
      ensures defined <==> |args| < Wire.CMD_MAX || (!known && (!writable || phase.Shutdown?))
      ensures defined ==> (View() ==
        if !known && !writable then old(View())
        else if !known && phase.Shutdown? then DoHang(old(View()), k, now, jitter)
        else DoUpdate(cfg, old(View()), k, fields, args, now, jitter, true))
      ensures forall x <- cache.tree.Values :: x in old(cache.tree.Values) || fresh(x)
    {
      hide Cache.Valid, Update, Drop, Wipe, Enqueue, FlushOld, Cache.TreeView, Files, Remove, Absorb, StaleKeys, WithoutWriter;
      cache.TreeKeys();
      if !known {
        if !writable {
          return true;
        }
        if phase.Shutdown? {
          var ci := cache.GetItem(k, now + jitter);
          stuck := true;
          return true;
        }
      }
      if |args| >= Wire.CMD_MAX {
        return false;
      }
      ghost var s := View();
      journal := journal + [UpdateRecord(k, fields, args)];
      var done := cache.UpdateItem(cfg, k, fields, now, jitter);
      hist := DoUpdate(cfg, s, k, fields, args, now, jitter, true).hist;
      return true;
    }

    /** `journal_close`, in front of a new file and at the end: from here on every record printed so far survives a crash. */
    method JournalClose()
      requires Valid() && DiskOk(View())
      modifies this`disk
      ensures Valid() && View() == DoNewFile(old(View()))
      ensures DiskOk(View()) && Kept(View()) == journal[disk.removed..]
    {
      hide Cache.Valid, Cache.Core, JournalText.Written, JournalText.WholeLines;
      disk := disk.(out := |JournalText.Written(Lines(journal[disk.rotated..]))|);
      ClosedKept(View());
    }

    /** `journal_rotate`: every record printed survives a crash, except for those of the set before the last. */
    method JournalRotate()
      requires Valid() && DiskOk(View())
      modifies this`disk
      ensures Valid() && View() == DoRotate(old(View()))
      ensures DiskOk(View()) && Kept(View()) == journal[old(disk.rotated)..]
    {
      hide Cache.Valid, Cache.Core, JournalText.WholeLines;
      JournalClose();
      disk := Disk(disk.rotated, |journal|, 0);
      assert journal[|journal|..] == [] && Lines([]) == [];
    }

    /** `handle_request_forget` up to the release of the lock. */
    method HandleForget(k: Key) returns (found: bool)
      requires Valid()
      modifies this`waiting, this`unrecorded, this`hist, cache, cache.tree.Values
      ensures Valid() && View() == DoForget(old(View()), k) && (found <==> k in old(View()).core.tree)
    {
      hide Cache.Valid, Update, Drop, Wipe, Enqueue, FlushOld, Cache.TreeView, Files, Remove, Absorb, StaleKeys, WithoutWriter;
      cache.TreeKeys();
      if k !in cache.tree {
        return false;
      }
      ghost var s := View();
      cache.FreeCacheItem(k);
      waiting := Wake(waiting, {k});
      unrecorded := unrecorded + multiset{k};
      hist := DoForget(s, k).hist;
      return true;
    }

    /** The record that `handle_request_forget` prints afterwards: the cache stays, and as soon as the record is kept, replay
        brings nothing of the file back, provided the record can be read. */
    method RecordForget(k: Key)
      requires Valid() && k in unrecorded
      modifies this`journal, this`unrecorded
      ensures Valid() && View() == DoRecordForget(old(View()), k)
      ensures forall x :: Faithful(ForgetRecord(k), x) ==>
                ReplayedValues(journal, x) == if x == k then [] else ReplayedValues(old(journal), x)
    {
      hide Cache.Valid, Cache.Core, Faithful, ReplayedValues;
      journal := journal + [ForgetRecord(k)];
      unrecorded := unrecorded - multiset{k};
      ReplayedOthers(old(journal), ForgetRecord(k));
    }

    /** `flush_file` up to the wait on the item's condition variable. */
    method FlushFile(ghost client: nat, k: Key) returns (found: bool)
      requires Valid()
      modifies this`waiting, cache, cache.tree.Values
      ensures Valid() && View() == DoFlush(old(View()), client, k) && (found <==> k in old(View()).core.tree)
    {
      hide Cache.Valid, Update, Drop, Wipe, Enqueue, FlushOld, Cache.TreeView, Files, Remove, Absorb, StaleKeys, WithoutWriter;
      cache.TreeKeys();
      if k !in cache.tree {
        return false;
      }
      var ci := cache.tree[k];
      cache.FileOf(k);
      cache.QueueView(ci);
      if ci.values != [] {
        cache.EnqueueCacheItem(ci, Head);
        waiting := waiting[client := Wait(k, |Of(hist.accepted, k)|)];
      }
      return true;
    }

    /** `flush_old_values` under the lock, for FLUSHALL (age -1) and for the periodic flush. */
    method FlushOldValues(order: seq<Key>, maxAge: int)
      requires Valid() && IsOrder(order, View().core.tree.Keys)
      modifies this`waiting, this`hist, cache, cache.tree.Values
      ensures (forall k <- order :: k in old(View()).core.tree) && Valid()
      ensures View() == DoFlushOld(cfg, old(View()), order, maxAge)
      ensures cache.tree.Values <= old(cache.tree.Values)
    {
      hide Cache.Valid, Update, Drop, Wipe, Enqueue, FlushOld, Cache.TreeView, Files, Remove, Absorb, StaleKeys, WithoutWriter;
      ghost var idle := StaleKeys(cfg, cache.Core(), clock);
      cache.FlushOldValues(cfg, order, maxAge, clock, phase.Running?);
      waiting := Wake(waiting, idle);
      hist := hist.(taken := hist.taken - idle);
    }

    /** `sig_common` */
    method SigCommon()
      requires Valid()
      modifies this`phase
      ensures Valid() && View() == old(View()).(phase := phase)
      ensures phase == if old(phase).Running? then Flushing else old(phase)
    {
      hide Cache.Valid, Cache.Core;
      if phase.Running? {
        phase := Flushing;
      }
    }

    /** The four signal handlers. */
    method HandleSignal(signal: Signal)
      requires Valid()
      modifies this`phase, this`flushAtShutdown
      ensures Valid() && View() == DoSignal(old(View()), signal)
    {
      hide Cache.Valid, Cache.Core;
      match signal {
        case Int =>
        case Term =>
        case Usr1 => flushAtShutdown := true;
        case Usr2 => flushAtShutdown := false;
      }
      SigCommon();
    }

    /** What `flush_thread_main` does after its loop. */
    method EndFlushThread(order: seq<Key>)
      requires Valid() && phase.Flushing? && IsOrder(order, View().core.tree.Keys)
      modifies this`phase, this`waiting, this`hist, cache, cache.tree.Values
      ensures (forall k <- order :: k in old(View()).core.tree) && Valid()
      ensures View() == DoShutdown(cfg, old(View()), order)
    {
      hide Cache.Valid, Update, Drop, Wipe, Enqueue, FlushOld, Cache.TreeView, Files, Remove, Absorb, StaleKeys, WithoutWriter;
      if flushAtShutdown {
        FlushOldValues(order, -1);
      }
      phase := Shutdown;
    }

    /** The first critical section of `queue_thread_main`. */
    method Take(w: nat, jitter: int)
      requires Valid() && w < |writers| && writers[w].Idle? && View().core.queue != []
      modifies this`writers, this`hist, cache, cache.tree.Values
      ensures Valid() && old(View()).core.queue[0] in old(View()).core.tree
      ensures View() == DoTake(cfg, old(View()), w, jitter)
    {
      hide Cache.Valid, Update, Drop, Wipe, Enqueue, FlushOld, Cache.TreeView, Files, Remove, Absorb, StaleKeys, WithoutWriter;
      ghost var s := View();
      cache.HeadIs();
      var file, values := cache.TakeHead(clock + jitter);
      writers := writers[w := Writing(file, values)];
      hist := DoTake(cfg, s, w, jitter).hist;
    }

    /** `rrd_update_r` is given the batch, without the lock; whatever it answers, the batch is not kept. Of every file,
        what is in flight and what has been handed over stay the same together. */
    method Hand(w: nat)
      requires Valid() && w < |writers| && writers[w].Writing?
      modifies this`writers, this`hist
      ensures Valid() && View() == DoHand(old(View()), w)
      ensures forall x :: FlightOf(writers, x) + multiset(Of(hist.handed, x)) ==
                          FlightOf(old(writers), x) + multiset(Of(old(hist.handed), x))
    {
      hide Cache.Valid, Cache.Core, FlightOf;
      var k, values := writers[w].key, writers[w].values;
      hist := hist.(handed := hist.handed[k := Of(hist.handed, k) + values]);
      writers := writers[w := Handed(k, values)];
      HandMoves(old(writers), old(hist.handed), w);
    }

    /** The "wrote" record: as soon as it is kept, replay brings back nothing of the file that came before it, provided the
        record can be read, and as much of other files as before. */
    method RecordWrote(w: nat)
      requires Valid() && w < |writers| && writers[w].Handed?
      modifies this`writers, this`journal, this`hist
      ensures Valid() && View() == DoRecordWrote(old(View()), w)
      ensures var k := old(writers[w].key);
              forall x :: Faithful(WroteRecord(k), x) ==>
                ReplayedValues(journal, x) == if x == k then [] else ReplayedValues(old(journal), x)
    {
      hide Cache.Valid, Cache.Core, WithoutWriter, Faithful, ReplayedValues;
      var k := writers[w].key;
      ghost var end := if w in hist.upto then hist.upto[w] else 0;
      journal := journal + [WroteRecord(k)];
      writers := writers[w := Recorded(k, writers[w].values)];
      hist := hist.(flight := hist.flight[k := WithoutWriter(Of(hist.flight, k), w)],
                    wrote := hist.wrote[k := if end > At(hist.wrote, k) then end else At(hist.wrote, k)]);
      ReplayedOthers(old(journal), WroteRecord(k));
    }

    /** The second critical section of `queue_thread_main`: search the tree again and broadcast. */
    method Done(w: nat)
      requires Valid() && w < |writers| && writers[w].Recorded?
      modifies this`writers, this`waiting
      ensures Valid() && View() == DoDone(old(View()), w)
    {
      hide Cache.Valid, Update, Drop, Wipe, Enqueue, FlushOld, Cache.TreeView, Files, Remove, Absorb, StaleKeys, WithoutWriter;
      cache.TreeKeys();
      var k := writers[w].key;
      if k in cache.tree {
        waiting := Wake(waiting, {k});
      }
      writers := writers[w := Idle];
    }

    /** The loop condition of `queue_thread_main`: an idle thread leaves exactly when this returns true. */
    method Leave(w: nat) returns (left: bool)
      requires Valid() && w < |writers| && writers[w].Idle? && !stuck
      modifies this`writers
      ensures Valid() && (left <==> Enabled(cfg, old(View()), ExitStep(w)))
      ensures View() == if left then Apply(cfg, old(View()), ExitStep(w)) else old(View())
    {
      hide Cache.Valid, Update, Drop, Wipe, Enqueue, FlushOld, Cache.TreeView, Files, Remove, Absorb, StaleKeys, WithoutWriter;
      cache.HeadIs();
      if phase.Shutdown? && !(cache.head != null && flushAtShutdown) {
        writers := writers[w := Exited];
        return true;
      }
      return false;
    }
  }

  lemma RebuiltInit(cfg: Config, s: State)
    requires Rebuilt(cfg, s.core, Replay(s.journal), s.clock)
    requires (forall w <- s.writers :: w.Idle?) && s.phase.Running? && s.waiting == map[] && s.unrecorded == multiset{} && !s.stuck
    requires s.disk == Disk(0, 0, |JournalText.Written(Lines(s.journal))|)
    requires s.hist == History(map k | k in Replay(s.journal) :: Replay(s.journal)[k].values, map[], map[], map[], map[], map[], map[])
    ensures Init(cfg, s)
  {
    hide Replay;
  }

  /** Every journal line is handed to its handler, oldest first. */
  method ReplayAll(cfg: Config, cache: Cache, journal: seq<Record>, now: int, jitters: seq<int>)
    requires cache.Valid() && cache.tree == map[] && cache.queue == [] && cfg.writeInterval > 0
    requires |jitters| == |journal| && forall r <- jitters :: JitterOk(cfg, r)
    modifies cache
    ensures cache.Valid() && forall x <- cache.tree.Values :: fresh(x)
    ensures Rebuilt(cfg, cache.Core(), Replay(journal), now)
  {
    hide JitterOk, ReplayEntry, ReplayCore, ReadBack;
    var i := 0;
    RebuiltEmpty(cfg, now);
    assert cache.Core() == Core(map[], []);
    while i < |journal|
      invariant 0 <= i <= |journal| && cache.Valid()
      invariant forall x <- cache.tree.Values :: fresh(x)
      invariant Rebuilt(cfg, cache.Core(), Replay(journal[..i]), now)
    {
      hide Replay, Rebuilt, Cache.Valid, Cache.Core;
      assert jitters[i] in jitters;
      RebuiltStep(cfg, cache.Core(), Replay(journal[..i]), ReadBack(journal[i]), now, jitters[i]);
      ReplayNext(journal, i);
      ReplayLine(cfg, cache, ReadBack(journal[i]), now, jitters[i]);
      i := i + 1;
    }
    assert journal[..i] == journal;
  }

  lemma RebuiltEmpty(cfg: Config, now: int)
    ensures Rebuilt(cfg, Core(map[], []), Replay([]), now)
  {
  }

  /** One entry read back: the handlers of UPDATE, FORGET and "wrote" in replay mode. */
  method ReplayLine(cfg: Config, cache: Cache, e: Entry, now: int, jitter: int)
    requires cache.Valid()
    modifies cache, cache.tree.Values
    ensures cache.Valid() && cache.Core() == ReplayCore(cfg, old(cache.Core()), e, now, jitter)
    ensures forall x <- cache.tree.Values :: x in old(cache.tree.Values) || fresh(x)
  {
    hide Cache.Valid, Update, Drop, Wipe, Cache.TreeView, Files;
    cache.TreeKeys();
    match e
    case UpdateEntry(k, fields) =>
      var done := cache.UpdateItem(cfg, k, fields, now, jitter);
    case ForgetEntry(k) =>
      if k in cache.tree {
        cache.FreeCacheItem(k);
      }
    case WroteEntry(k) =>
      if k in cache.tree {
        cache.FileOf(k);
        cache.WipeAndRemove(cache.tree[k], now + jitter);
      }
    case NoEntry =>
  }

  lemma ReplayNext(journal: seq<Record>, i: nat)
    requires i < |journal|
    ensures Replay(journal[..i + 1]) == ReplayEntry(Replay(journal[..i]), ReadBack(journal[i]))
  {
    assert journal[..i + 1][..i] == journal[..i];
  }
}
