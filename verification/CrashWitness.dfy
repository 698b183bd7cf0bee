/** Runs from the start that show what a crash or a fast shutdown loses (rrd_daemon.c). */
module CrashWitness {
  import opened CacheModel
  import opened DaemonModel
  import opened DaemonRuns
  import opened DaemonJournal
  import opened DaemonCrash
  import opened DaemonWitness
  import JournalText
  import Wire

  // ----- the steps of the journal and of the clock

  /** All that has been printed leaves the buffer. */
  lemma OutIt(steps: seq<Step>, s: State, k: Key, items: seq<Item>, q: bool, w: Writer, j: seq<Record>, a: seq<Value>)
    returns (t: State)
    requires Reached(steps, s) && Looks(s, k, items, q, w, j, a) && DiskOk(s)
    ensures Reached(steps + [OutStep(|Printed(s)|)], t) && Looks(t, k, items, q, w, j, a)
    ensures t.disk == s.disk.(out := |Printed(s)|) && t.phase == s.phase && t.clock == s.clock && t.waiting == s.waiting
    ensures DiskOk(t) && KeptEnd(t) == |j| && t.unrecorded == s.unrecorded
  {
    hide JournalText.Written, JournalText.WholeLines;
    RunSnoc(Start(), steps, s, OutStep(|Printed(s)|));
    t := Apply(CFG, s, OutStep(|Printed(s)|));
    JournalText.WholeLinesGrow(Lines(t.journal[t.disk.rotated..]), [], t.disk.out, t.disk.out);
  }

  lemma RotateIt(steps: seq<Step>, s: State, k: Key, items: seq<Item>, q: bool, w: Writer, j: seq<Record>, a: seq<Value>)
    returns (t: State)
    requires Reached(steps, s) && Looks(s, k, items, q, w, j, a)
    ensures Reached(steps + [RotateStep], t) && Looks(t, k, items, q, w, j, a)
    ensures t.disk == Disk(s.disk.rotated, |j|, 0) && t.phase == s.phase && t.clock == s.clock && t.waiting == s.waiting
    ensures t.unrecorded == s.unrecorded
  {
    RunSnoc(Start(), steps, s, RotateStep);
    t := Apply(CFG, s, RotateStep);
  }

  lemma ClockIt(steps: seq<Step>, s: State, k: Key, items: seq<Item>, q: bool, w: Writer, j: seq<Record>, a: seq<Value>, d: nat)
    returns (t: State)
    requires Reached(steps, s) && Looks(s, k, items, q, w, j, a)
    ensures Reached(steps + [ClockStep(d)], t) && Looks(t, k, items, q, w, j, a)
    ensures t.disk == s.disk && t.phase == s.phase && t.clock == s.clock + d && t.waiting == s.waiting
    ensures t.unrecorded == s.unrecorded
  {
    RunSnoc(Start(), steps, s, ClockStep(d));
    t := Apply(CFG, s, ClockStep(d));
  }

  /** The periodic flush queues the item if it is due, and does not evict it. */
  lemma TickIt(steps: seq<Step>, s: State, k: Key, item: Item, q: bool, w: Writer, j: seq<Record>, a: seq<Value>)
    returns (t: State)
    requires Reached(steps, s) && Looks(s, k, [item], q, w, j, a) && s.phase.Running? && !Stale(CFG, item, s.clock)
    ensures Reached(steps + [TickStep([k])], t)
    ensures Looks(t, k, [item], q || Due(item, s.clock - CFG.writeInterval, true), w, j, a)
    ensures t.disk == s.disk && t.phase == s.phase && t.clock == s.clock && t.unrecorded == s.unrecorded
  {
    hide Wake, FlushOld;
    assert IsOrder([k], s.core.tree.Keys);
    NotEvicted(s.core, k, item, s.clock);
    RunSnoc(Start(), steps, s, TickStep([k]));
    t := Apply(CFG, s, TickStep([k]));
    hide StaleKeys, IsOrder, Enabled, Reached;
  }

  lemma NotEvicted(c: Core, k: Key, item: Item, now: int)
    requires c.tree == map[k := item] && c.queue in {[], [k]} && !Stale(CFG, item, now)
    ensures FlushOld(CFG, c, [k], CFG.writeInterval, now, true) ==
            c.(queue := if c.queue == [k] || Due(item, now - CFG.writeInterval, true) then [k] else [])
  {
    OneKey(c, k, now - CFG.writeInterval);
    hide DueKeys, Due, Stale;
    assert StaleKeys(CFG, c, now) == {};
  }

  lemma OneKey(c: Core, k: Key, absTimeout: int)
    requires k in c.tree
    ensures DueKeys(c, [k], absTimeout, true) == if k !in c.queue && Due(c.tree[k], absTimeout, true) then [k] else []
  {
    assert [k][..0] == [];
  }

  /** A value that is not newer than the last one is refused, but journaled. */
  lemma SendOld(steps: seq<Step>, s: State, k: Key, item: Item, w: Writer, j: seq<Record>, a: seq<Value>, v: Value, args: string)
    returns (t: State)
    requires Reached(steps, s) && Looks(s, k, [item], false, w, j, a) && v.stamp <= item.lastStamp && |args| < Wire.CMD_MAX
    ensures Reached(steps + [Send(k, v, args, s.clock)], t) && Looks(t, k, [item], false, w, j + [Sent(k, v, args)], a)
    ensures Beside(s, t) && t.waiting == s.waiting && t.unrecorded == s.unrecorded
  {
    OneField(v, item.lastStamp);
    assert item.values + [] == item.values && a + [] == a;
    t := Apply(CFG, s, Send(k, v, args, s.clock));
    hide Absorb;
    RunSnoc(Start(), steps, s, Send(k, v, args, s.clock));
  }

  // ----- the buffer

  lemma NothingOut(s: State)
    requires s.disk == Disk(0, 0, 0)
    ensures DiskOk(s) && Kept(s) == []
  {
    hide JournalText.Written;
  }

  /** One value, accepted and answered, and then a crash: nothing is replayed. */
  lemma BufferedUpdateIsLost(k: Key, v: Value, a: string) returns (steps: seq<Step>, t: State)
    requires 0.0 < v.stamp && Short(k, a)
    ensures Init(CFG, Start()) && IsRun(CFG, Start(), steps, t)
    ensures Of(t.hist.accepted, k) == [v] && Pending(t.core, k) == [v]
    ensures DiskOk(t) && ReplayedValues(Kept(t), k) == [] && k !in t.unrecorded
  {
    hide Apply, Enabled, Init, IsRun, Start;
    steps, t := Began(k);
    t := SendFirst(steps, t, k, Idle, [], [], v, a);
    steps := steps + [Send(k, v, a, 0)];
    NothingOut(t);
    ReplayNothing(k);
  }

  /** The first of two values has left the buffer, the second has not: what is replayed is no suffix of what was accepted. */
  lemma BufferBreaksSuffix(k: Key, v: Value, v': Value, a: string, a': string) returns (steps: seq<Step>, t: State)
    requires 0.0 < v.stamp < v'.stamp && Short(k, a) && Short(k, a')
    ensures Init(CFG, Start()) && IsRun(CFG, Start(), steps, t) && DiskOk(t)
    ensures Of(t.hist.accepted, k) == [v, v'] && ReplayedValues(Kept(t), k) == [v]
    ensures !IsSuffix(ReplayedValues(Kept(t), k), Of(t.hist.accepted, k))
  {
    hide Apply, Enabled, Init, IsRun, Start, JournalText.Written, JournalText.WholeLines;
    var j, item := [] + [Sent(k, v, a)], Item([v], 0, v.stamp);
    steps, t := Began(k);
    t := SendFirst(steps, t, k, Idle, [], [], v, a);
    steps := steps + [Send(k, v, a, 0)];
    NothingOut(t);
    var s := t;
    t := OutIt(steps, t, k, [item], false, Idle, j, [] + [v]);
    steps := steps + [OutStep(|Printed(s)|)];
    s := t;
    t := SendNext(steps, t, k, item, false, Idle, j, [] + [v], v', a');
    steps := steps + [Send(k, v', a', 0)];
    KeptStays(s, t, j);
    ReplayNothing(k);
    ReplaySent([], k, v, a);
    assert [v, v'][1..] == [v'];
  }

  lemma KeptStays(s: State, t: State, j: seq<Record>)
    requires DiskOk(s) && s.disk.removed == 0 && KeptEnd(s) == |s.journal| && s.journal == j
    requires t.disk == s.disk && s.journal <= t.journal
    ensures DiskOk(t) && Kept(t) == j
  {
    hide JournalText.Written, JournalText.WholeLines;
    KeptGrows(s.journal, t.journal, s.disk.rotated, s.disk.out);
  }

  /** A "wrote" record that is still in the buffer: a crash brings its batch back. */
  lemma WrittenBatchComesBack(k: Key, v: Value, a: string) returns (steps: seq<Step>, t: State)
    requires 0.0 < v.stamp && Short(k, a)
    ensures Init(CFG, Start()) && IsRun(CFG, Start(), steps, t) && DiskOk(t)
    ensures t.journal == [Sent(k, v, a), WroteRecord(k)] && t.writers == [Recorded(k, [v])] && Pending(t.core, k) == []
    ensures ReplayedValues(t.journal, k) == [] && ReplayedValues(Kept(t), k) == [v]
  {
    hide Apply, Enabled, Init, IsRun, Start, JournalText.Written, JournalText.WholeLines;
    var j, b, item := [] + [Sent(k, v, a)], [] + [v], Item([v], 0, v.stamp);
    steps, t := Began(k);
    t := SendFirst(steps, t, k, Idle, [], [], v, a);
    steps := steps + [Send(k, v, a, 0)];
    NothingOut(t);
    var s := t;
    t := OutIt(steps, t, k, [item], false, Idle, j, b);
    steps := steps + [OutStep(|Printed(s)|)];
    s := t;
    t := AskFlush(steps, t, k, item, Idle, j, b, 0);
    steps := steps + [FlushStep(0, k)];
    t := TakeIt(steps, t, k, item, j, b);
    steps := steps + [TakeStep(0, 0)];
    t := HandIt(steps, t, k, [Item([], 0, v.stamp)], false, [v], j, b);
    steps := steps + [HandStep(0)];
    t := RecordIt(steps, t, k, [Item([], 0, v.stamp)], false, [v], j, b);
    steps := steps + [RecordWroteStep(0)];
    KeptStays(s, t, j);
    ReplayNothing(k);
    ReplaySent([], k, v, a);
    ReplayWrote(j, k);
  }

  // ----- rotation

  lemma AllRemoved(s: State)
    requires s.disk == Disk(|s.journal|, |s.journal|, 0)
    ensures DiskOk(s) && Kept(s) == [] && Closed(s)
  {
    assert s.journal[|s.journal|..] == [];
    assert Lines([]) == [];
  }

  /** A writer that is busy with a file for two flush intervals: two rotations unlink the only records of the batch it is
      writing and of the value that has come since, and even a fast shutdown loses both. */
  lemma RotationLosesPending(k: Key, v: Value, v': Value, a: string, a': string) returns (steps: seq<Step>, t: State)
    requires 0.0 < v.stamp < v'.stamp && Short(k, a) && Short(k, a')
    ensures Init(CFG, Start()) && IsRun(CFG, Start(), steps, t)
    ensures t.writers == [Writing(k, [v])] && Pending(t.core, k) == [v'] && t.core.queue == [k]
    ensures DiskOk(t) && Closed(t) && ReplayedValues(t.journal, k) == [v, v'] && ReplayedValues(Kept(t), k) == []
  {
    hide Apply, Enabled, Init, IsRun, Start;
    var j, j', b := [] + [Sent(k, v, a)], [] + [Sent(k, v, a)] + [Sent(k, v', a')], [] + [v] + [v'];
    var item, item' := Item([v], 0, v.stamp), Item([] + [v'], 0, v'.stamp);
    steps, t := Began(k);
    t := SendFirst(steps, t, k, Idle, [], [], v, a);
    steps := steps + [Send(k, v, a, 0)];
    t := AskFlush(steps, t, k, item, Idle, j, [] + [v], 0);
    steps := steps + [FlushStep(0, k)];
    t := TakeIt(steps, t, k, item, j, [] + [v]);
    steps := steps + [TakeStep(0, 0)];
    t := SendNext(steps, t, k, Item([], 0, v.stamp), false, Writing(k, [v]), j, [] + [v], v', a');
    steps := steps + [Send(k, v', a', 0)];
    t := ClockIt(steps, t, k, [item'], false, Writing(k, [v]), j', b, 3600);
    steps := steps + [ClockStep(3600)];
    t := TickIt(steps, t, k, item', false, Writing(k, [v]), j', b);
    steps := steps + [TickStep([k])];
    t := RotateIt(steps, t, k, [item'], true, Writing(k, [v]), j', b);
    steps := steps + [RotateStep];
    t := ClockIt(steps, t, k, [item'], true, Writing(k, [v]), j', b, 3600);
    steps := steps + [ClockStep(3600)];
    t := TickIt(steps, t, k, item', true, Writing(k, [v]), j', b);
    steps := steps + [TickStep([k])];
    t := RotateIt(steps, t, k, [item'], true, Writing(k, [v]), j', b);
    steps := steps + [RotateStep];
    AllRemoved(t);
    ReplayNothing(k);
    ReplaySent([], k, v, a);
    ReplaySent(j, k, v', a');
  }

  /** A value that was refused as too old, and never accepted, is replayed once rotation has removed the newer one. */
  lemma RefusedComesBack(k: Key, v: Value, v': Value, a: string, a': string) returns (steps: seq<Step>, t: State)
    requires 0.0 < v'.stamp <= v.stamp && Short(k, a) && Short(k, a')
    ensures Init(CFG, Start()) && IsRun(CFG, Start(), steps, t) && DiskOk(t)
    ensures Of(t.hist.accepted, k) == [v] && Pending(t.core, k) == [] && t.writers == [Idle]
    ensures Closed(t) && ReplayedValues(Kept(t), k) == [v']
  {
    hide Apply, Enabled, Init, IsRun, Start, JournalText.Written, JournalText.WholeLines;
    var j, b := [] + [Sent(k, v, a)], [] + [v];
    var w, item, empty := j + [WroteRecord(k)], Item([v], 1800, v.stamp), Item([], 1800, v.stamp);
    steps, t := Began(k);
    t := ClockIt(steps, t, k, [], false, Idle, [], [], 1800);
    steps := steps + [ClockStep(1800)];
    t := SendFirst(steps, t, k, Idle, [], [], v, a);
    steps := steps + [Send(k, v, a, 1800)];
    t := AskFlush(steps, t, k, item, Idle, j, b, 0);
    steps := steps + [FlushStep(0, k)];
    t := TakeIt(steps, t, k, item, j, b);
    steps := steps + [TakeStep(0, 0)];
    t := HandIt(steps, t, k, [empty], false, [v], j, b);
    steps := steps + [HandStep(0)];
    t := RecordIt(steps, t, k, [empty], false, [v], j, b);
    steps := steps + [RecordWroteStep(0)];
    t := DoneIt(steps, t, k, empty, false, [v], w, b);
    steps := steps + [DoneStep(0)];
    t := ClockIt(steps, t, k, [empty], false, Idle, w, b, 1800);
    steps := steps + [ClockStep(1800)];
    t := TickIt(steps, t, k, empty, false, Idle, w, b);
    steps := steps + [TickStep([k])];
    t := RotateIt(steps, t, k, [empty], false, Idle, w, b);
    steps := steps + [RotateStep];
    t := SendOld(steps, t, k, empty, Idle, w, b, v', a');
    steps := steps + [Send(k, v', a', 3600)];
    t := EvictIt(steps, t, k, empty, Idle, w + [Sent(k, v', a')], b);
    steps := steps + [ClockStep(3600)] + [TickStep([k])];
    t := RotateIt(steps, t, k, [], false, Idle, w + [Sent(k, v', a')], b);
    steps := steps + [RotateStep];
    LastKept(t, w, Sent(k, v', a'));
    ReplayNothing(k);
    ReplaySent([], k, v', a');
  }

  lemma LastKept(s: State, w: seq<Record>, r: Record)
    requires s.journal == w + [r] && s.disk == Disk(|w|, |w| + 1, 0)
    ensures DiskOk(s) && Kept(s) == [] + [r] && Closed(s)
  {
    assert s.journal[|w| + 1..] == [];
    assert Lines([]) == [];
  }
}
