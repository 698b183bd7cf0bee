/** Runs from the start of an empty daemon with one writer that show where the guarantees of the journal and of FLUSH
    end (rrd_daemon.c). */
module DaemonWitness {
  import opened CacheModel
  import opened DaemonModel
  import opened DaemonRuns
  import opened DaemonJournal
  import opened DaemonFlush
  import JournalText
  import Wire

  const CFG: Config := Config(300, 0, 3600)

  function Start(): State {
    State(Core(map[], []), [Idle], Running, true, 0, [], Disk(0, 0, 0), map[], multiset{}, false,
          History(map[], map[], map[], map[], map[], map[], map[]))
  }

  lemma StartInit()
    ensures Init(CFG, Start())
  {
    assert Replay([]) == map[];
    assert Lines([]) == [];
  }

  /** What the runs look at: the daemon has one writer and, if any, one item. */
  ghost predicate Looks(s: State, k: Key, items: seq<Item>, queued: bool, w: Writer, journal: seq<Record>, accepted: seq<Value>) {
    |items| <= 1 && s.core.tree == (if items == [] then map[] else map[k := items[0]]) &&
    s.core.queue == (if queued then [k] else []) && s.writers == [w] && s.journal == journal && !s.stuck &&
    Of(s.hist.accepted, k) == accepted
  }

  /** What most steps leave alone. */
  ghost predicate Beside(s: State, t: State) {
    t.phase == s.phase && t.flushAtShutdown == s.flushAtShutdown && t.clock == s.clock && t.disk == s.disk
  }

  /** The run so far and the state it has reached. */
  ghost predicate Reached(steps: seq<Step>, s: State) {
    IsRun(CFG, Start(), steps, s)
  }

  lemma {:induction false} RunSnoc(s: State, steps: seq<Step>, t: State, step: Step)
    requires IsRun(CFG, s, steps, t) && Enabled(CFG, t, step)
    ensures IsRun(CFG, s, steps + [step], Apply(CFG, t, step))
  {
    hide Apply, Enabled;
    RunNone(CFG, Apply(CFG, t, step));
    OneMore(CFG, t, step, [], Apply(CFG, t, step));
    assert [step] + [] == [step];
    RunConcat(CFG, s, steps, t, [step], Apply(CFG, t, step));
  }

  function Send(k: Key, v: Value, args: string, now: int): Step {
    UpdateStep(k, [Stamped(v)], args, now, 0, true)
  }

  function Sent(k: Key, v: Value, args: string): Record {
    UpdateRecord(k, [Stamped(v)], args)
  }

  lemma OneField(v: Value, last: real)
    ensures Absorb([Stamped(v)], last) == if v.stamp <= last then Absorbed([], last, false) else Absorbed([v], v.stamp, true)
  {
    assert [Stamped(v)][1..] == [];
  }

  /** A first value creates the item. */
  lemma SendFirst(steps: seq<Step>, s: State, k: Key, w: Writer, j: seq<Record>, a: seq<Value>, v: Value, args: string)
    returns (t: State)
    requires Reached(steps, s) && Looks(s, k, [], false, w, j, a) && v.stamp > 0.0 && |args| < Wire.CMD_MAX && s.phase.Running?
    ensures Reached(steps + [Send(k, v, args, s.clock)], t)
    ensures Looks(t, k, [Item([v], s.clock, v.stamp)], false, w, j + [Sent(k, v, args)], a + [v])
    ensures Beside(s, t) && t.waiting == s.waiting && t.unrecorded == s.unrecorded
  {
    OneField(v, 0.0);
    assert [] + [v] == [v];
    t := Apply(CFG, s, Send(k, v, args, s.clock));
    hide Absorb;
    RunSnoc(Start(), steps, s, Send(k, v, args, s.clock));
  }

  /** A later value joins the item and does not queue it yet. */
  lemma SendNext(steps: seq<Step>, s: State, k: Key, item: Item, q: bool, w: Writer, j: seq<Record>, a: seq<Value>, v: Value, args: string)
    returns (t: State)
    requires Reached(steps, s) && Looks(s, k, [item], q, w, j, a) && v.stamp > item.lastStamp && |args| < Wire.CMD_MAX
    requires item.lastFlush == s.clock
    ensures Reached(steps + [Send(k, v, args, s.clock)], t)
    ensures Looks(t, k, [Item(item.values + [v], item.lastFlush, v.stamp)], q, w, j + [Sent(k, v, args)], a + [v])
    ensures Beside(s, t) && t.waiting == s.waiting && t.unrecorded == s.unrecorded
  {
    OneField(v, item.lastStamp);
    t := Apply(CFG, s, Send(k, v, args, s.clock));
    hide Absorb;
    RunSnoc(Start(), steps, s, Send(k, v, args, s.clock));
  }

  lemma AskFlush(steps: seq<Step>, s: State, k: Key, item: Item, w: Writer, j: seq<Record>, a: seq<Value>, client: nat)
    returns (t: State)
    requires Reached(steps, s) && Looks(s, k, [item], false, w, j, a) && item.values != [] && client !in s.waiting
    ensures Reached(steps + [FlushStep(client, k)], t)
    ensures Looks(t, k, [item], true, w, j, a) && t.waiting == s.waiting[client := Wait(k, |a|)]
    ensures Beside(s, t) && t.unrecorded == s.unrecorded && t == Apply(CFG, s, FlushStep(client, k))
  {
    RunSnoc(Start(), steps, s, FlushStep(client, k));
    t := Apply(CFG, s, FlushStep(client, k));
  }

  lemma TakeIt(steps: seq<Step>, s: State, k: Key, item: Item, j: seq<Record>, a: seq<Value>)
    returns (t: State)
    requires Reached(steps, s) && Looks(s, k, [item], true, Idle, j, a)
    ensures Reached(steps + [TakeStep(0, 0)], t)
    ensures Looks(t, k, [item.(values := [], lastFlush := s.clock)], false, Writing(k, item.values), j, a)
    ensures Beside(s, t) && t.waiting == s.waiting && t.unrecorded == s.unrecorded
  {
    RunSnoc(Start(), steps, s, TakeStep(0, 0));
    t := Apply(CFG, s, TakeStep(0, 0));
  }

  lemma HandIt(steps: seq<Step>, s: State, k: Key, items: seq<Item>, q: bool, b: seq<Value>, j: seq<Record>, a: seq<Value>)
    returns (t: State)
    requires Reached(steps, s) && Looks(s, k, items, q, Writing(k, b), j, a)
    ensures Reached(steps + [HandStep(0)], t) && Looks(t, k, items, q, Handed(k, b), j, a)
    ensures Beside(s, t) && t.waiting == s.waiting && t.unrecorded == s.unrecorded && t == Apply(CFG, s, HandStep(0))
  {
    RunSnoc(Start(), steps, s, HandStep(0));
    t := Apply(CFG, s, HandStep(0));
  }

  lemma RecordIt(steps: seq<Step>, s: State, k: Key, items: seq<Item>, q: bool, b: seq<Value>, j: seq<Record>, a: seq<Value>)
    returns (t: State)
    requires Reached(steps, s) && Looks(s, k, items, q, Handed(k, b), j, a)
    ensures Reached(steps + [RecordWroteStep(0)], t) && Looks(t, k, items, q, Recorded(k, b), j + [WroteRecord(k)], a)
    ensures Beside(s, t) && t.waiting == s.waiting && t.unrecorded == s.unrecorded && t == Apply(CFG, s, RecordWroteStep(0))
  {
    hide WithoutWriter;
    RunSnoc(Start(), steps, s, RecordWroteStep(0));
    t := Apply(CFG, s, RecordWroteStep(0));
  }

  lemma DoneIt(steps: seq<Step>, s: State, k: Key, item: Item, q: bool, b: seq<Value>, j: seq<Record>, a: seq<Value>)
    returns (t: State)
    requires Reached(steps, s) && Looks(s, k, [item], q, Recorded(k, b), j, a)
    ensures Reached(steps + [DoneStep(0)], t) && Looks(t, k, [item], q, Idle, j, a)
    ensures Beside(s, t) && t.unrecorded == s.unrecorded && t.waiting == Wake(s.waiting, {k})
  {
    hide Wake;
    RunSnoc(Start(), steps, s, DoneStep(0));
    t := Apply(CFG, s, DoneStep(0));
  }

  lemma ForgetIt(steps: seq<Step>, s: State, k: Key, item: Item, w: Writer, j: seq<Record>, a: seq<Value>)
    returns (t: State)
    requires Reached(steps, s) && Looks(s, k, [item], false, w, j, a)
    ensures Reached(steps + [ForgetStep(k)], t) && Looks(t, k, [], false, w, j, a)
    ensures Beside(s, t) && t.unrecorded == s.unrecorded + multiset{k}
  {
    hide Wake;
    RunSnoc(Start(), steps, s, ForgetStep(k));
    t := Apply(CFG, s, ForgetStep(k));
    assert map[k := item] - {k} == map[];
  }

  lemma RecordForgotten(steps: seq<Step>, s: State, k: Key, items: seq<Item>, w: Writer, j: seq<Record>, a: seq<Value>)
    returns (t: State)
    requires Reached(steps, s) && Looks(s, k, items, false, w, j, a) && k in s.unrecorded
    ensures Reached(steps + [RecordForgetStep(k)], t) && Looks(t, k, items, false, w, j + [ForgetRecord(k)], a)
    ensures Beside(s, t) && t.unrecorded == s.unrecorded - multiset{k}
  {
    RunSnoc(Start(), steps, s, RecordForgetStep(k));
    t := Apply(CFG, s, RecordForgetStep(k));
  }

  /** An hour later the periodic flush evicts the idle item. */
  lemma EvictIt(steps: seq<Step>, s: State, k: Key, item: Item, w: Writer, j: seq<Record>, a: seq<Value>)
    returns (t: State)
    requires Reached(steps, s) && Looks(s, k, [item], false, w, j, a) && item.values == [] && item.lastFlush <= s.clock && s.phase.Running?
    ensures Reached(steps + [ClockStep(3600)] + [TickStep([k])], t) && Looks(t, k, [], false, w, j, a)
    ensures t.unrecorded == s.unrecorded && t.clock == s.clock + 3600 && t.phase.Running? && t.disk == s.disk
  {
    RunSnoc(Start(), steps, s, ClockStep(3600));
    var m := Apply(CFG, s, ClockStep(3600));
    assert IsOrder([k], m.core.tree.Keys);
    RunSnoc(Start(), steps + [ClockStep(3600)], m, TickStep([k]));
    t := Apply(CFG, m, TickStep([k]));
    NothingDue(m.core, k, m.clock - CFG.writeInterval);
    hide DueKeys;
    assert StaleKeys(CFG, m.core, m.clock) == {k};
    assert map[k := item] - {k} == map[];
  }

  lemma NothingDue(c: Core, k: Key, absTimeout: int)
    requires k in c.tree && c.tree[k].values == []
    ensures DueKeys(c, [k], absTimeout, true) == []
  {
    assert [k][..0] == [];
  }

  // ----- replaying short journals

  lemma ReplayNothing(k: Key)
    ensures ReplayedValues([], k) == [] && ReplayedStamp([], k) == 0.0
  {
  }

  /** One value sent to a file, journaled in a line that can be read back. */
  lemma ReplaySent(j: seq<Record>, k: Key, v: Value, args: string)
    requires |args| + 8 < Wire.CMD_MAX && |k| < Wire.CMD_MAX
    ensures ReplayedValues(j + [Sent(k, v, args)], k) ==
            ReplayedValues(j, k) + if v.stamp <= ReplayedStamp(j, k) then [] else [v]
    ensures v.stamp > ReplayedStamp(j, k) ==> ReplayedStamp(j + [Sent(k, v, args)], k) == v.stamp
  {
    hide ReadBack, Absorb;
    ReadBackIs(Sent(k, v, args));
    ReplayAppend(j, Sent(k, v, args));
    OneField(v, ReplayedStamp(j, k));
  }

  lemma ReplayWrote(j: seq<Record>, k: Key)
    requires |k| + 7 < Wire.CMD_MAX
    ensures ReplayedValues(j + [WroteRecord(k)], k) == [] && ReplayedStamp(j + [WroteRecord(k)], k) == ReplayedStamp(j, k)
  {
    hide ReadBack;
    ReadBackIs(WroteRecord(k));
    ReplayAppend(j, WroteRecord(k));
  }

  // ----- the journal

  predicate Short(k: Key, a: string) {
    |k| + 8 < Wire.CMD_MAX && |a| + 8 < Wire.CMD_MAX
  }

  /** For every file and any two values in order: if the second comes between dequeue and record, it is pending while
      replay gives nothing. */
  lemma UpdateBeforeRecordIsLost(k: Key, v: Value, v': Value, a: string, a': string) returns (steps: seq<Step>, t: State)
    requires 0.0 < v.stamp < v'.stamp && Short(k, a) && Short(k, a')
    ensures Init(CFG, Start()) && IsRun(CFG, Start(), steps, t)
    ensures ReplayedValues(t.journal, k) == [] && Pending(t.core, k) == [v'] && k !in t.unrecorded
  {
    hide Apply, Enabled, Init, IsRun, Start;
    steps, t := Began(k);
    t := SendFirst(steps, t, k, Idle, [], [], v, a);
    steps := steps + [Send(k, v, a, 0)];
    t := AskFlush(steps, t, k, Item([v], 0, v.stamp), Idle, [] + [Sent(k, v, a)], [] + [v], 0);
    steps := steps + [FlushStep(0, k)];
    t := TakeIt(steps, t, k, Item([v], 0, v.stamp), [] + [Sent(k, v, a)], [] + [v]);
    steps := steps + [TakeStep(0, 0)];
    t := HandIt(steps, t, k, [Item([], 0, v.stamp)], false, [v], [] + [Sent(k, v, a)], [] + [v]);
    steps := steps + [HandStep(0)];
    t := SendNext(steps, t, k, Item([], 0, v.stamp), false, Handed(k, [v]), [] + [Sent(k, v, a)], [] + [v], v', a');
    steps := steps + [Send(k, v', a', 0)];
    t := RecordIt(steps, t, k, [Item([] + [v'], 0, v'.stamp)], false, [v], [] + [Sent(k, v, a)] + [Sent(k, v', a')], [] + [v] + [v']);
    steps := steps + [RecordWroteStep(0)];
    ReplayWrote([] + [Sent(k, v, a)] + [Sent(k, v', a')], k);
  }

  lemma Began(k: Key) returns (steps: seq<Step>, s: State)
    ensures Reached(steps, s) && Looks(s, k, [], false, Idle, [], []) && Init(CFG, Start())
    ensures s.clock == 0 && s.waiting == map[] && s.unrecorded == multiset{} && s == Start() && steps == [] && s.phase.Running? && s.disk == Disk(0, 0, 0)
  {
    StartInit();
    steps, s := [], Start();
  }

  /** For every file and any two values in order: if the second comes between FORGET and its record, it is pending while
      replay gives nothing. */
  lemma UpdateBeforeForgetRecordIsLost(k: Key, v: Value, v': Value, a: string, a': string) returns (steps: seq<Step>, t: State)
    requires 0.0 < v.stamp < v'.stamp && Short(k, a) && Short(k, a') && ' ' !in k && '\\' !in k && '\0' !in k
    ensures Init(CFG, Start()) && IsRun(CFG, Start(), steps, t)
    ensures ReplayedValues(t.journal, k) == [] && Pending(t.core, k) == [v'] && k !in t.unrecorded
  {
    hide Apply, Enabled, Init, IsRun, Start, Faithful, ReadBack;
    steps, t := Began(k);
    t := SendFirst(steps, t, k, Idle, [], [], v, a);
    steps := steps + [Send(k, v, a, 0)];
    t := ForgetIt(steps, t, k, Item([v], 0, v.stamp), Idle, [] + [Sent(k, v, a)], [] + [v]);
    steps := steps + [ForgetStep(k)];
    t := SendFirst(steps, t, k, Idle, [] + [Sent(k, v, a)], [] + [v], v', a');
    steps := steps + [Send(k, v', a', 0)];
    t := RecordForgotten(steps, t, k, [Item([v'], 0, v'.stamp)], Idle, [] + [Sent(k, v, a)] + [Sent(k, v', a')], [] + [v] + [v']);
    steps := steps + [RecordForgetStep(k)];
    LegibleIff(ForgetRecord(k));
    ReplayForgotten([] + [Sent(k, v, a)] + [Sent(k, v', a')], k);
  }

  lemma ReplayForgotten(j: seq<Record>, k: Key)
    requires ReadBack(ForgetRecord(k)) == ForgetEntry(k)
    ensures ReplayedValues(j + [ForgetRecord(k)], k) == []
  {
    hide ReadBack;
    ReplayedEntry(j, ForgetRecord(k), k);
  }

  /** A file whose name has a blank or a backslash: its FORGET record names another file, so replay brings the
      forgotten value back. */
  lemma ForgottenComesBack(k: Key, v: Value, a: string) returns (steps: seq<Step>, t: State)
    requires 0.0 < v.stamp && Short(k, a) && (' ' in k || '\\' in k) && '\0' !in k
    ensures Init(CFG, Start()) && IsRun(CFG, Start(), steps, t)
    ensures ReplayedValues(t.journal, k) == [v] && k !in t.core.tree && k !in t.unrecorded
  {
    hide Apply, Enabled, Init, IsRun, Start, Faithful, ReadBack;
    steps, t := Began(k);
    t := SendFirst(steps, t, k, Idle, [], [], v, a);
    steps := steps + [Send(k, v, a, 0)];
    t := ForgetIt(steps, t, k, Item([v], 0, v.stamp), Idle, [] + [Sent(k, v, a)], [] + [v]);
    steps := steps + [ForgetStep(k)];
    t := RecordForgotten(steps, t, k, [], Idle, [] + [Sent(k, v, a)], [] + [v]);
    steps := steps + [RecordForgetStep(k)];
    ReplayNothing(k);
    ReplaySent([], k, v, a);
    OtherName(k);
    ReplayedEntry([] + [Sent(k, v, a)], ForgetRecord(k), k);
  }

  lemma OtherName(k: Key)
    requires |k| + 8 < Wire.CMD_MAX && (' ' in k || '\\' in k) && '\0' !in k
    ensures !Names(ReadBack(ForgetRecord(k)), k)
  {
    hide ReadBack;
    ReadBackIs(ForgetRecord(k));
    LegibleIff(ForgetRecord(k));
  }

  /** For every file: after eviction the daemon accepts a value that is not newer than an earlier one, and replay
      refuses it. */
  lemma EvictionHidesUpdate(k: Key, v: Value, v': Value, a: string, a': string) returns (steps: seq<Step>, t: State)
    requires 0.0 < v'.stamp <= v.stamp && Short(k, a) && Short(k, a')
    ensures Init(CFG, Start()) && IsRun(CFG, Start(), steps, t)
    ensures ReplayedValues(t.journal, k) == [] && Pending(t.core, k) == [v'] && k !in t.unrecorded
  {
    hide Apply, Enabled, Init, IsRun, Start, Faithful, ReadBack;
    var j, b, item := [] + [Sent(k, v, a)], [] + [v], Item([v], 0, v.stamp);
    steps, t := Began(k);
    t := SendFirst(steps, t, k, Idle, [], [], v, a);
    steps := steps + [Send(k, v, a, 0)];
    t := AskFlush(steps, t, k, item, Idle, j, b, 0);
    steps := steps + [FlushStep(0, k)];
    t := TakeIt(steps, t, k, item, j, b);
    steps := steps + [TakeStep(0, 0)];
    t := HandIt(steps, t, k, [Item([], 0, v.stamp)], false, [v], j, b);
    steps := steps + [HandStep(0)];
    t := RecordIt(steps, t, k, [Item([], 0, v.stamp)], false, [v], j, b);
    steps := steps + [RecordWroteStep(0)];
    t := DoneIt(steps, t, k, Item([], 0, v.stamp), false, [v], j + [WroteRecord(k)], b);
    steps := steps + [DoneStep(0)];
    t := EvictIt(steps, t, k, Item([], 0, v.stamp), Idle, j + [WroteRecord(k)], b);
    steps := steps + [ClockStep(3600)] + [TickStep([k])];
    t := SendFirst(steps, t, k, Idle, j + [WroteRecord(k)], b, v', a');
    steps := steps + [Send(k, v', a', 3600)];
    ReplayNothing(k);
    ReplaySent([], k, v, a);
    ReplayWrote(j, k);
    ReplaySent(j + [WroteRecord(k)], k, v', a');
  }

  /** Between FORGET and its record, what is replayed need not even be a suffix of what was accepted: an older value is
      accepted and not replayed while the forgotten one still is. */
  lemma ForgetBreaksSuffix(k: Key, v: Value, v': Value, a: string, a': string) returns (steps: seq<Step>, t: State)
    requires 0.0 < v'.stamp < v.stamp && Short(k, a) && Short(k, a')
    ensures Init(CFG, Start()) && IsRun(CFG, Start(), steps, t)
    ensures Of(t.hist.accepted, k) == [v, v'] && ReplayedValues(t.journal, k) == [v]
    ensures !IsSuffix(ReplayedValues(t.journal, k), Of(t.hist.accepted, k))
  {
    hide Apply, Enabled, Init, IsRun, Start, Faithful, ReadBack;
    steps, t := Began(k);
    t := SendFirst(steps, t, k, Idle, [], [], v, a);
    steps := steps + [Send(k, v, a, 0)];
    t := ForgetIt(steps, t, k, Item([v], 0, v.stamp), Idle, [] + [Sent(k, v, a)], [] + [v]);
    steps := steps + [ForgetStep(k)];
    t := SendFirst(steps, t, k, Idle, [] + [Sent(k, v, a)], [] + [v], v', a');
    steps := steps + [Send(k, v', a', 0)];
    OlderNotReplayed(k, v, v', a, a');
  }

  /** The same after an eviction while the last batch is still being written. */
  lemma EvictionBreaksSuffix(k: Key, v: Value, v': Value, a: string, a': string) returns (steps: seq<Step>, t: State)
    requires 0.0 < v'.stamp < v.stamp && Short(k, a) && Short(k, a')
    ensures Init(CFG, Start()) && IsRun(CFG, Start(), steps, t)
    ensures Of(t.hist.accepted, k) == [v, v'] && ReplayedValues(t.journal, k) == [v]
    ensures !IsSuffix(ReplayedValues(t.journal, k), Of(t.hist.accepted, k))
  {
    hide Apply, Enabled, Init, IsRun, Start, Faithful, ReadBack;
    var j, b, item := [] + [Sent(k, v, a)], [] + [v], Item([v], 0, v.stamp);
    steps, t := Began(k);
    t := SendFirst(steps, t, k, Idle, [], [], v, a);
    steps := steps + [Send(k, v, a, 0)];
    t := AskFlush(steps, t, k, item, Idle, j, b, 0);
    steps := steps + [FlushStep(0, k)];
    t := TakeIt(steps, t, k, item, j, b);
    steps := steps + [TakeStep(0, 0)];
    t := EvictIt(steps, t, k, Item([], 0, v.stamp), Writing(k, [v]), j, b);
    steps := steps + [ClockStep(3600)] + [TickStep([k])];
    t := SendFirst(steps, t, k, Writing(k, [v]), j, b, v', a');
    steps := steps + [Send(k, v', a', 3600)];
    OlderNotReplayed(k, v, v', a, a');
  }

  lemma OlderNotReplayed(k: Key, v: Value, v': Value, a: string, a': string)
    requires 0.0 < v'.stamp < v.stamp && Short(k, a) && Short(k, a')
    ensures ReplayedValues([] + [Sent(k, v, a)] + [Sent(k, v', a')], k) == [v]
    ensures [] + [v] + [v'] == [v, v'] && !IsSuffix([v], [v, v'])
  {
    ReplayNothing(k);
    ReplaySent([], k, v, a);
    ReplaySent([] + [Sent(k, v, a)], k, v', a');
    assert [v, v'][1..] == [v'];
  }

  /** An UPDATE whose line is CMD_MAX bytes or longer in the journal: it is accepted, and with every record kept, what is replayed
      is not even a suffix of what was accepted. */
  lemma LongUpdateIsLost(k: Key, v: Value, v': Value, a: string, a': string) returns (steps: seq<Step>, t: State)
    requires 0.0 < v.stamp < v'.stamp && 2 <= |k| && Short(k, a) && Wire.CMD_MAX <= |a'| + 8 && |a'| < Wire.CMD_MAX
    ensures Init(CFG, Start()) && IsRun(CFG, Start(), steps, t)
    ensures t.journal == [Sent(k, v, a), Sent(k, v', a')]
    ensures Of(t.hist.accepted, k) == [v, v'] && ReplayedValues(t.journal, k) == [v]
    ensures !IsSuffix(ReplayedValues(t.journal, k), Of(t.hist.accepted, k))
  {
    hide Apply, Enabled, Init, IsRun, Start, Faithful, ReadBack;
    steps, t := Began(k);
    t := SendFirst(steps, t, k, Idle, [], [], v, a);
    steps := steps + [Send(k, v, a, 0)];
    t := SendNext(steps, t, k, Item([v], 0, v.stamp), false, Idle, [] + [Sent(k, v, a)], [] + [v], v', a');
    steps := steps + [Send(k, v', a', 0)];
    ReplayNothing(k);
    ReplaySent([], k, v, a);
    ReadBackIs(Sent(k, v', a'));
    ReplayedEntry([] + [Sent(k, v, a)], Sent(k, v', a'), k);
    assert [v, v'][1..] == [v'];
  }

  /** The longest request of the client library is such an UPDATE. */
  lemma FullRequestIsLost(v: Value, v': Value, a: string) returns (steps: seq<Step>, t: State, fields: seq<string>)
    requires 0.0 < v.stamp < v'.stamp && Short("/a", a)
    ensures fields == ["update", "/a", "1:" + seq(4083, i => '1')] && |Wire.Encode(fields)| == Wire.CMD_MAX
    ensures Init(CFG, Start()) && IsRun(CFG, Start(), steps, t)
    ensures t.journal == [Sent("/a", v, a), Sent("/a", v', Wire.Body(fields[1..]))]
    ensures Text(t.journal[1]) == Wire.Body(fields)
    ensures Of(t.hist.accepted, "/a") == [v, v'] && !IsSuffix(ReplayedValues(t.journal, "/a"), [v, v'])
  {
    fields := ["update", "/a", "1:" + seq(4083, i => '1')];
    hide *;
    JournalText.FullRequest();
    JournalText.UpdateBody(fields);
    var args := Wire.Body(fields[1..]);
    steps, t := LongUpdateIsLost("/a", v, v', a, args);
    SentText("/a", v', args);
  }

  lemma SentText(k: Key, v: Value, args: string)
    ensures Text(Sent(k, v, args)) == "update " + args
  {
  }

  // ----- FLUSH

  /** A client asks for a file whose older batch the only writer has just dequeued; the writer's broadcast wakes it while
      its value is still pending. */
  lemma FlushWakesEarly(k: Key, v: Value, v': Value, a: string, a': string) returns (steps: seq<Step>, t: State)
    requires 0.0 < v.stamp < v'.stamp && Short(k, a) && Short(k, a')
    ensures Init(CFG, Start()) && IsRun(CFG, Start(), steps, t)
    ensures |steps| > 4 && steps[4] == FlushStep(1, k) && steps[|steps| - 1] == DoneStep(0)
    ensures 1 !in t.waiting && Of(t.hist.accepted, k) == [v, v'] && Pending(t.core, k) == [v'] && !Dequeued(t, k, 2)
  {
    hide Apply, Enabled, Init, IsRun, Start;
    var j, j', b := [] + [Sent(k, v, a)], [] + [Sent(k, v, a)] + [Sent(k, v', a')], [] + [v] + [v'];
    steps, t := Began(k);
    t := SendFirst(steps, t, k, Idle, [], [], v, a);
    steps := steps + [Send(k, v, a, 0)];
    t := AskFlush(steps, t, k, Item([v], 0, v.stamp), Idle, j, [] + [v], 0);
    steps := steps + [FlushStep(0, k)];
    t := TakeIt(steps, t, k, Item([v], 0, v.stamp), j, [] + [v]);
    steps := steps + [TakeStep(0, 0)];
    t := SendNext(steps, t, k, Item([], 0, v.stamp), false, Writing(k, [v]), j, [] + [v], v', a');
    steps := steps + [Send(k, v', a', 0)];
    var item := Item([] + [v'], 0, v'.stamp);
    t := AskFlush(steps, t, k, item, Writing(k, [v]), j', b, 1);
    steps := steps + [FlushStep(1, k)];
    t := HandIt(steps, t, k, [item], true, [v], j', b);
    steps := steps + [HandStep(0)];
    t := RecordIt(steps, t, k, [item], true, [v], j', b);
    steps := steps + [RecordWroteStep(0)];
    t := DoneIt(steps, t, k, item, true, [v], j' + [WroteRecord(k)], b);
    steps := steps + [DoneStep(0)];
  }

  // ----- SHUTDOWN

  /** Nothing has been dequeued, flushed or forgotten since, no waiting client answered, and the writer has not left. */
  ghost predicate Frozen(t: State, u: State) {
    u.core == t.core && u.waiting == t.waiting && |u.writers| == 1 && !u.writers[0].Exited?
  }

  /** After USR1, all values are queued at shutdown; then an UPDATE of a file that was not in the cache takes the lock
      with it, and the daemon holds the first value for ever. */
  lemma HangsAtShutdown(k: Key, k': Key, v: Value, a: string) returns (steps: seq<Step>, t: State)
    requires 0.0 < v.stamp && |a| < Wire.CMD_MAX && k' != k
    ensures Init(CFG, Start()) && IsRun(CFG, Start(), steps, t)
    ensures t.stuck && t.phase.Shutdown? && t.flushAtShutdown && t.core.queue == [k] && Pending(t.core, k) == [v]
    ensures t.writers == [Idle]
    ensures forall rest, u :: IsRun(CFG, t, rest, u) ==> Frozen(t, u)
  {
    hide Apply, Enabled, Init, IsRun, Start;
    steps, t := Began(k);
    t := SendFirst(steps, t, k, Idle, [], [], v, a);
    steps := steps + [Send(k, v, a, 0)];
    t := StopIt(steps, t, k, Item([v], 0, v.stamp), [] + [Sent(k, v, a)], [] + [v]);
    steps := steps + [SignalStep(Usr1)] + [ShutdownStep([k])];
    t := HangIt(steps, t, k, k', Item([v], 0, v.stamp));
    steps := steps + [HangStep(k', t.clock, 0)];
    forall rest, u | IsRun(CFG, t, rest, u) ensures Frozen(t, u) {
      StuckForever(CFG, t, rest, u);
      assert !t.writers[0].Exited?;
    }
  }

  lemma StopIt(steps: seq<Step>, s: State, k: Key, item: Item, j: seq<Record>, a: seq<Value>) returns (t: State)
    requires Reached(steps, s) && Looks(s, k, [item], false, Idle, j, a) && item.values != [] && item.lastFlush == s.clock && s.phase.Running?
    ensures Reached(steps + [SignalStep(Usr1)] + [ShutdownStep([k])], t)
    ensures Looks(t, k, [item], true, Idle, j, a) && t.phase.Shutdown? && t.flushAtShutdown && t.clock == s.clock
  {
    RunSnoc(Start(), steps, s, SignalStep(Usr1));
    var m := Apply(CFG, s, SignalStep(Usr1));
    AllQueued(m.core, k, item, m.clock);
    hide FlushOld, StaleKeys, Wake, Reached;
    assert IsOrder([k], m.core.tree.Keys);
    RunSnoc(Start(), steps + [SignalStep(Usr1)], m, ShutdownStep([k]));
    t := Apply(CFG, m, ShutdownStep([k]));
    hide IsOrder, Enabled;
    ReachedBy(steps + [SignalStep(Usr1)] + [ShutdownStep([k])], t);
  }

  lemma ReachedBy(steps: seq<Step>, s: State)
    requires IsRun(CFG, Start(), steps, s)
    ensures Reached(steps, s)
  {
  }

  lemma AllQueued(c: Core, k: Key, item: Item, now: int)
    requires c == Core(map[k := item], []) && item.values != [] && item.lastFlush == now
    ensures FlushOld(CFG, c, [k], -1, now, false) == Core(map[k := item], [k])
  {
    AllDue(c, k, now + 1);
    hide DueKeys;
    assert StaleKeys(CFG, c, now) == {};
  }

  lemma AllDue(c: Core, k: Key, absTimeout: int)
    requires k in c.tree && c.tree[k].values != [] && k !in c.queue
    ensures DueKeys(c, [k], absTimeout, false) == [k]
  {
    assert [k][..0] == [];
  }

  lemma HangIt(steps: seq<Step>, s: State, k: Key, k': Key, item: Item) returns (t: State)
    requires Reached(steps, s) && s.core.tree == map[k := item] && s.core.queue == [k] && s.writers == [Idle] && k' != k
    requires s.phase.Shutdown? && s.flushAtShutdown && !s.stuck
    ensures Reached(steps + [HangStep(k', s.clock, 0)], t)
    ensures t.stuck && t.phase.Shutdown? && t.flushAtShutdown && t.core.queue == [k] && Pending(t.core, k) == item.values
    ensures t.writers == [Idle] && t.clock == s.clock
  {
    RunSnoc(Start(), steps, s, HangStep(k', s.clock, 0));
    t := Apply(CFG, s, HangStep(k', s.clock, 0));
  }

  /** After SHUTDOWN, an UPDATE of a file that has just been drained is answered and not queued: the writer leaves, and the value
      stays behind in a daemon that is about to unlink its journals. */
  lemma DrainedUpdateIsLost(k: Key, v: Value, v': Value, a: string, a': string) returns (steps: seq<Step>, t: State)
    requires 0.0 < v.stamp < v'.stamp && Short(k, a) && Short(k, a')
    ensures Init(CFG, Start()) && IsRun(CFG, Start(), steps, t)
    ensures t.phase.Shutdown? && t.flushAtShutdown && t.writers == [Exited]
    ensures Of(t.hist.accepted, k) == [v, v'] && Pending(t.core, k) == [v']
  {
    hide Apply, Enabled, Init, IsRun, Start;
    var j, b, item := [] + [Sent(k, v, a)], [] + [v], Item([v], 0, v.stamp);
    steps, t := Began(k);
    t := SendFirst(steps, t, k, Idle, [], [], v, a);
    steps := steps + [Send(k, v, a, 0)];
    t := StopIt(steps, t, k, item, j, b);
    steps := steps + [SignalStep(Usr1)] + [ShutdownStep([k])];
    t := TakeIt(steps, t, k, item, j, b);
    steps := steps + [TakeStep(0, 0)];
    t := HandIt(steps, t, k, [Item([], 0, v.stamp)], false, [v], j, b);
    steps := steps + [HandStep(0)];
    t := RecordIt(steps, t, k, [Item([], 0, v.stamp)], false, [v], j, b);
    steps := steps + [RecordWroteStep(0)];
    t := DoneIt(steps, t, k, Item([], 0, v.stamp), false, [v], j + [WroteRecord(k)], b);
    steps := steps + [DoneStep(0)];
    t := SendNext(steps, t, k, Item([], 0, v.stamp), false, Idle, j + [WroteRecord(k)], b, v', a');
    steps := steps + [Send(k, v', a', 0)];
    t := LeaveIt(steps, t, k, Item([] + [v'], 0, v'.stamp), j + [WroteRecord(k)] + [Sent(k, v', a')], b + [v']);
    steps := steps + [ExitStep(0)];
  }

  lemma LeaveIt(steps: seq<Step>, s: State, k: Key, item: Item, j: seq<Record>, a: seq<Value>) returns (t: State)
    requires Reached(steps, s) && Looks(s, k, [item], false, Idle, j, a) && s.phase.Shutdown?
    ensures Reached(steps + [ExitStep(0)], t) && Looks(t, k, [item], false, Exited, j, a) && Beside(s, t)
  {
    RunSnoc(Start(), steps, s, ExitStep(0));
    t := Apply(CFG, s, ExitStep(0));
  }
}
