/** What a crash leaves of the journal: the records that have reached a file which still exists (rrd_daemon.c). */
module DaemonCrash {
  import opened CacheModel
  import opened DaemonModel
  import opened DaemonRuns
  import opened DaemonJournal
  import DaemonFlush
  import JournalText

  /** Rotation and buffering never get ahead of what has been printed. */
  predicate DiskOk(s: State) {
    s.disk.removed <= s.disk.rotated <= |s.journal| && s.disk.out <= |Printed(s)|
  }

  /** The end of the records that a crash leaves: those of the old set, and the lines of the present set that have wholly
      left the buffer. */
  function KeptEnd(s: State): (m: nat)
    requires s.disk.rotated <= |s.journal|
    ensures s.disk.rotated <= m <= |s.journal|
  {
    s.disk.rotated + JournalText.WholeLines(Lines(s.journal[s.disk.rotated..]), s.disk.out)
  }

  function Kept(s: State): seq<Record>
    requires DiskOk(s)
  {
    s.journal[s.disk.removed..KeptEnd(s)]
  }

  /** The files after a crash, one behind the other; the last one may end inside a line. */
  function DiskText(s: State): string
    requires DiskOk(s)
  {
    JournalText.Written(Lines(s.journal[s.disk.removed..s.disk.rotated])) + Printed(s)[..s.disk.out]
  }

  ghost predicate LinesOk(journal: seq<Record>) {
    forall r <- journal :: JournalText.OneLine(Text(r))
  }

  lemma LinesAre(journal: seq<Record>, lo: nat, hi: nat)
    requires LinesOk(journal) && lo <= hi <= |journal|
    ensures forall b <- Lines(journal[lo..hi]) :: JournalText.OneLine(b)
  {
    hide JournalText.OneLine, Text;
    forall b <- Lines(journal[lo..hi]) ensures JournalText.OneLine(b) {
      var i :| 0 <= i < hi - lo && Lines(journal[lo..hi])[i] == b;
      assert journal[lo + i] in journal;
    }
  }

  lemma LinesSlice(journal: seq<Record>, lo: nat, mid: nat, hi: nat)
    requires lo <= mid <= hi <= |journal|
    ensures Lines(journal[lo..hi]) == Lines(journal[lo..mid]) + Lines(journal[mid..hi])
    ensures Lines(journal[mid..])[..hi - mid] == Lines(journal[mid..hi])
  {
  }

  lemma {:induction false} LastPiecesConcat(a: seq<string>, b: seq<string>)
    ensures JournalText.LastPieces(a + b) == JournalText.LastPieces(a) + JournalText.LastPieces(b)
  {
    hide JournalText.LastPiece;
    if a == [] {
      assert a + b == b;
    } else {
      assert (a + b)[1..] == a[1..] + b;
      LastPiecesConcat(a[1..], b);
    }
  }

  /** After a crash at any moment, the entries that `journal_replay` hands on are those of the records kept. */
  lemma CrashEntries(s: State)
    requires DiskOk(s) && LinesOk(s.journal)
    ensures JournalText.Entries(DiskText(s)) == JournalText.LastPieces(Lines(Kept(s)))
  {
    hide JournalText.Entries, JournalText.LastPieces, JournalText.Written, JournalText.WholeLines, LinesOk;
    var d := s.disk;
    LinesAre(s.journal, d.removed, d.rotated);
    LinesAre(s.journal, d.rotated, |s.journal|);
    assert s.journal[d.rotated..|s.journal|] == s.journal[d.rotated..];
    JournalText.EntriesBehind(Lines(s.journal[d.removed..d.rotated]), Printed(s)[..d.out]);
    JournalText.CutEntries(Lines(s.journal[d.rotated..]), d.out);
    LinesSlice(s.journal, d.removed, d.rotated, KeptEnd(s));
    LastPiecesConcat(Lines(s.journal[d.removed..d.rotated]), Lines(s.journal[d.rotated..KeptEnd(s)]));
  }

  // ----- over runs

  /** The journal grows by at most one record, and only the steps of its own change what is on disk. */
  lemma JournalStep(cfg: Config, s: State, step: Step)
    requires Enabled(cfg, s, step)
    ensures var t := Apply(cfg, s, step);
            s.journal <= t.journal && |t.journal| <= |s.journal| + 1 &&
            (!step.OutStep? && !step.NewFileStep? && !step.RotateStep? ==> t.disk == s.disk)
  {
    hide Absorb, FlushOld, Update, StaleKeys, Enqueue, Remove, WithoutWriter, JitterOk, Wake, Drop, Wipe, IsOrder, Create;
  }

  /** More of the same journal keeps what is kept. */
  lemma KeptGrows(journal: seq<Record>, journal': seq<Record>, rotated: nat, out: nat)
    requires rotated <= |journal| && journal <= journal'
    requires out <= |JournalText.Written(Lines(journal[rotated..]))|
    ensures out <= |JournalText.Written(Lines(journal'[rotated..]))|
    ensures JournalText.WholeLines(Lines(journal'[rotated..]), out) == JournalText.WholeLines(Lines(journal[rotated..]), out)
  {
    hide JournalText.Written, JournalText.WholeLines;
    var more := Lines(journal'[|journal|..]);
    assert Lines(journal'[rotated..]) == Lines(journal[rotated..]) + more;
    JournalText.WrittenConcat(Lines(journal[rotated..]), more);
    JournalText.WholeLinesGrow(Lines(journal[rotated..]), more, out, out);
  }

  lemma DiskStep(cfg: Config, s: State, step: Step)
    requires Enabled(cfg, s, step) && DiskOk(s)
    ensures var t := Apply(cfg, s, step);
            DiskOk(t) && KeptEnd(s) <= KeptEnd(t) && s.disk.removed <= t.disk.removed && s.journal <= t.journal
  {
    JournalStep(cfg, s, step);
    var t := Apply(cfg, s, step);
    if step.OutStep? || step.NewFileStep? {
      hide JournalText.Written, JournalText.WholeLines;
      var lines := Lines(s.journal[s.disk.rotated..]);
      assert lines + [] == lines;
      JournalText.WholeLinesGrow(lines, [], s.disk.out, t.disk.out);
    } else if step.RotateStep? {
      hide JournalText.Written, JournalText.WholeLines;
    } else {
      hide Apply, Enabled, JournalText.Written, JournalText.WholeLines;
      KeptGrows(s.journal, t.journal, s.disk.rotated, s.disk.out);
    }
  }

  lemma {:induction false} DiskRun(cfg: Config, s: State, steps: seq<Step>, t: State)
    requires DiskOk(s) && IsRun(cfg, s, steps, t)
    ensures DiskOk(t) && KeptEnd(s) <= KeptEnd(t) && s.disk.removed <= t.disk.removed && s.journal <= t.journal
    decreases |steps|
  {
    hide Apply, Enabled, DiskOk, KeptEnd;
    if steps != [] {
      DiskStep(cfg, s, steps[0]);
      DiskRun(cfg, Apply(cfg, s, steps[0]), steps[1..], t);
    }
  }

  lemma InitDisk(cfg: Config, s: State)
    requires Init(cfg, s)
    ensures DiskOk(s) && KeptEnd(s) == |s.journal|
  {
    hide Replay, JournalText.Written, JournalText.WholeLines;
    assert s.journal[0..] == s.journal;
    JournalText.WholeLinesGrow(Lines(s.journal), [], s.disk.out, s.disk.out);
  }

  /** In every state of every run: the disk holds nothing that has not been printed, and a restart replays exactly the
      records kept. */
  lemma CrashReplay(cfg: Config, s: State, steps: seq<Step>, t: State)
    requires Init(cfg, s) && IsRun(cfg, s, steps, t) && LinesOk(t.journal)
    ensures DiskOk(t) && JournalText.Entries(DiskText(t)) == JournalText.LastPieces(Lines(Kept(t)))
  {
    hide *;
    InitDisk(cfg, s);
    DiskRun(cfg, s, steps, t);
    CrashEntries(t);
  }

  /** The state in which the journal had m records. */
  lemma {:induction false} StateAt(cfg: Config, s: State, steps: seq<Step>, t: State, m: nat) returns (i: nat, u: State)
    requires IsRun(cfg, s, steps, t) && |s.journal| <= m <= |t.journal| && DiskOk(s)
    ensures i <= |steps| && IsRun(cfg, s, steps[..i], u) && IsRun(cfg, u, steps[i..], t) && u.journal == t.journal[..m]
    decreases |steps|
  {
    hide Apply, Enabled, DiskOk;
    DiskRun(cfg, s, steps, t);
    if |s.journal| == m || steps == [] {
      i, u := 0, s;
      assert steps[0..] == steps;
    } else {
      var s' := Apply(cfg, s, steps[0]);
      JournalStep(cfg, s, steps[0]);
      DiskStep(cfg, s, steps[0]);
      i, u := StateAt(cfg, s', steps[1..], t, m);
      i := i + 1;
      assert steps[..i][1..] == steps[1..][..i - 1] && steps[i..] == steps[1..][i - 1..];
    }
  }

  lemma {:induction false} AlongFront(cfg: Config, s: State, steps: seq<Step>, i: nat, k: Key)
    requires Along(cfg, s, steps, k, false) && i <= |steps|
    ensures Along(cfg, s, steps[..i], k, false)
    decreases |steps|
  {
    hide Apply, Enabled, Regular;
    if i > 0 {
      AlongFront(cfg, Apply(cfg, s, steps[0]), steps[1..], i - 1, k);
      assert steps[..i][1..] == steps[1..][..i - 1];
    }
  }

  // ----- what the missing records would have done

  /** A "wrote" or FORGET entry of the file. */
  predicate Clears(r: Record, k: Key) {
    Names(ReadBack(r), k) && !ReadBack(r).UpdateEntry?
  }

  ghost predicate Cleared(b: seq<Record>, k: Key) {
    exists r <- b :: Clears(r, k)
  }

  /** The values that the records b, behind those of a, leave to replay. */
  function New(a: seq<Record>, b: seq<Record>, k: Key): seq<Value> {
    if b == [] then []
    else
      var front, e := b[..|b| - 1], ReadBack(b[|b| - 1]);
      if !Names(e, k) then New(a, front, k)
      else if e.UpdateEntry? then New(a, front, k) + Absorb(e.fields, ReplayedStamp(a + front, k)).values
      else []
  }

  lemma ClearedLast(b: seq<Record>, k: Key)
    requires b != []
    ensures Cleared(b, k) <==> Cleared(b[..|b| - 1], k) || Clears(b[|b| - 1], k)
  {
    hide Clears;
    assert b == b[..|b| - 1] + [b[|b| - 1]];
  }

  /** Replaying a and then b: what a leaves, unless b cancels it, and then what b brings. */
  lemma {:induction false} SplitReplay(a: seq<Record>, b: seq<Record>, k: Key)
    ensures ReplayedValues(a + b, k) == (if Cleared(b, k) then [] else ReplayedValues(a, k)) + New(a, b, k)
  {
    hide ReadBack, ReplayedValues, ReplayedStamp, Absorb, Cleared;
    if b == [] {
      assert a + b == a;
      NothingCleared(k);
    } else {
      var front, r := b[..|b| - 1], b[|b| - 1];
      SplitReplay(a, front, k);
      ReplayedEntry(a + front, r, k);
      ClearedLast(b, k);
      assert a + b == a + front + [r];
    }
  }

  lemma NothingCleared(k: Key)
    ensures !Cleared([], k)
  {
  }

  /** None of the UPDATEs in b comes too late, at its first argument, for what was replayed before it. */
  ghost predicate Timely(a: seq<Record>, b: seq<Record>, k: Key) {
    forall i :: 0 <= i < |b| ==> InTimeAt(a, b, i, k)
  }

  predicate InTimeAt(a: seq<Record>, b: seq<Record>, i: nat, k: Key)
    requires i < |b|
  {
    InTime(b[i], ReplayedStamp(a + b[..i], k), k)
  }

  predicate InTime(r: Record, last: real, k: Key) {
    var e := ReadBack(r);
    e.UpdateEntry? && e.key == k && e.fields != [] && e.fields[0].Stamped? ==> e.fields[0].value.stamp > last
  }

  lemma TimelyFront(a: seq<Record>, b: seq<Record>, k: Key)
    requires Timely(a, b, k) && b != []
    ensures Timely(a, b[..|b| - 1], k) && InTime(b[|b| - 1], ReplayedStamp(a + b[..|b| - 1], k), k)
  {
    hide InTime, ReplayedStamp;
    assert InTimeAt(a, b, |b| - 1, k);
    var front := b[..|b| - 1];
    forall i | 0 <= i < |front| ensures InTimeAt(a, front, i, k) {
      assert InTimeAt(a, b, i, k);
      assert front[..i] == b[..i];
    }
  }

  lemma AbsorbLower(fields: seq<Field>, last: real, lower: real)
    requires lower <= last && (fields != [] && fields[0].Stamped? ==> fields[0].value.stamp > last)
    ensures Absorb(fields, lower).values == Absorb(fields, last).values
    ensures Absorb(fields, lower).last <= Absorb(fields, last).last
  {
  }

  lemma StampEntry(journal: seq<Record>, r: Record, k: Key)
    ensures var e := ReadBack(r);
            ReplayedStamp(journal + [r], k) ==
            if !Names(e, k) then ReplayedStamp(journal, k)
            else if e.UpdateEntry? then Absorb(e.fields, ReplayedStamp(journal, k)).last
            else if e.ForgetEntry? then 0.0
            else ReplayedStamp(journal, k)
  {
    hide ReadBack, Absorb;
    ReplayAppend(journal, r);
  }

  lemma {:induction false} StampNonNegative(journal: seq<Record>, k: Key)
    ensures ReplayedStamp(journal, k) >= 0.0
  {
    if journal != [] {
      var front, r := journal[..|journal| - 1], journal[|journal| - 1];
      StampNonNegative(front, k);
      hide ReplayedStamp, ReadBack, Absorb;
      StampEntry(front, r, k);
      assert journal == front + [r];
      if ReadBack(r).UpdateEntry? { AbsorbOrder(ReadBack(r).fields, ReplayedStamp(front, k)); }
    }
  }

  /** If no UPDATE comes too late, the records behind bring the same without those in front. */
  lemma {:induction false} NewSame(a: seq<Record>, b: seq<Record>, k: Key)
    requires Timely(a, b, k)
    ensures New(a, b, k) == New([], b, k) && ReplayedStamp(b, k) <= ReplayedStamp(a + b, k)
  {
    hide ReadBack, ReplayedStamp, Absorb, Timely;
    if b == [] {
      assert a + b == a;
      StampNonNegative(a, k);
      NoStamp(k);
    } else {
      var front, r := b[..|b| - 1], b[|b| - 1];
      TimelyFront(a, b, k);
      NewSame(a, front, k);
      StampEntry(a + front, r, k);
      StampEntry(front, r, k);
      assert a + b == a + front + [r] && b == front + [r] && [] + front == front;
      var e := ReadBack(r);
      if e.UpdateEntry? && e.key == k {
        AbsorbLower(e.fields, ReplayedStamp(a + front, k), ReplayedStamp(front, k));
      }
    }
  }

  lemma NoStamp(k: Key)
    ensures ReplayedStamp([], k) == 0.0
  {
  }

  /** Removing the records in front does no harm to a file exactly if they leave nothing to replay or what they leave is
      cancelled later, provided no UPDATE came too late. */
  lemma RemovedIff(a: seq<Record>, b: seq<Record>, k: Key)
    requires Timely(a, b, k)
    ensures ReplayedValues(b, k) == ReplayedValues(a + b, k) <==> Cleared(b, k) || ReplayedValues(a, k) == []
  {
    hide ReplayedValues, Timely, Cleared, New;
    SplitReplay(a, b, k);
    SplitReplay([], b, k);
    NewSame(a, b, k);
    assert [] + b == b;
    NoValues(k);
  }

  lemma NoValues(k: Key)
    ensures ReplayedValues([], k) == []
  {
  }

  predicate Forgets(r: Record, k: Key) {
    Names(ReadBack(r), k) && ReadBack(r).ForgetEntry?
  }

  ghost predicate NoForget(b: seq<Record>, k: Key) {
    forall r <- b :: !Forgets(r, k)
  }

  /** Without a FORGET, what the records behind bring is newer than all that was replayed before. */
  lemma {:induction false} NewIsNewer(a: seq<Record>, b: seq<Record>, k: Key)
    requires NoForget(b, k)
    ensures ReplayedStamp(a, k) <= ReplayedStamp(a + b, k)
    ensures forall v <- New(a, b, k) :: ReplayedStamp(a, k) < v.stamp
  {
    hide ReadBack, ReplayedStamp, Absorb;
    if b == [] {
      assert a + b == a;
    } else {
      var front, r := b[..|b| - 1], b[|b| - 1];
      assert r in b && forall x <- front :: x in b;
      NewIsNewer(a, front, k);
      StampEntry(a + front, r, k);
      assert a + b == a + front + [r];
      if ReadBack(r).UpdateEntry? { AbsorbOrder(ReadBack(r).fields, ReplayedStamp(a + front, k)); }
    }
  }

  /** The records that are lost in the buffer change nothing for a file exactly if they bring nothing and cancel nothing,
      provided none of them is a FORGET of it. */
  lemma UnwrittenIff(a: seq<Record>, b: seq<Record>, k: Key)
    requires NoForget(b, k)
    ensures ReplayedValues(a, k) == ReplayedValues(a + b, k) <==>
            New(a, b, k) == [] && (Cleared(b, k) ==> ReplayedValues(a, k) == [])
  {
    hide ReplayedValues, ReplayedStamp, Cleared, New;
    SplitReplay(a, b, k);
    NewIsNewer(a, b, k);
    StampBound(a, k);
    var n, old' := New(a, b, k), ReplayedValues(a, k);
    assert n != [] ==> n[0] in n;
    assert old' != [] ==> old'[0] in old';
  }

  // ----- a crash at any moment

  /** What rotation has removed does no harm to the file: nothing has been removed, or what it would leave to replay is
      cancelled by a record kept, and no UPDATE kept came too late. */
  ghost predicate Spared(s: State, k: Key)
    requires DiskOk(s)
  {
    s.disk.removed == 0 ||
    (Timely(s.journal[..s.disk.removed], Kept(s), k) &&
     (Cleared(Kept(s), k) || ReplayedValues(s.journal[..s.disk.removed], k) == []))
  }

  lemma SparedReplay(s: State, k: Key)
    requires DiskOk(s) && Spared(s, k)
    ensures ReplayedValues(Kept(s), k) == ReplayedValues(s.journal[..KeptEnd(s)], k)
  {
    hide ReplayedValues, Timely, Cleared;
    var removed := s.journal[..s.disk.removed];
    assert removed + Kept(s) == s.journal[..KeptEnd(s)];
    if s.disk.removed > 0 { RemovedIff(removed, Kept(s), k); }
  }

  /** A crash at any moment of any regular run that rotation has spared: replay gives what it would have given in an earlier
      state of the run, the one in which the last record kept was written. So it is a suffix of what had been accepted by
      then, without any batch whose "wrote" record has reached the disk. */
  lemma CrashIsEarlier(cfg: Config, s: State, steps: seq<Step>, t: State, k: Key) returns (i: nat, u: State)
    requires Init(cfg, s) && IsRun(cfg, s, steps, t) && Along(cfg, s, steps, k, false)
    requires DiskOk(t) ==> Spared(t, k)
    ensures DiskOk(t) && i <= |steps| && IsRun(cfg, s, steps[..i], u) && IsRun(cfg, u, steps[i..], t)
    ensures u.journal == t.journal[..KeptEnd(t)] && ReplayedValues(Kept(t), k) == ReplayedValues(u.journal, k)
    ensures IsSuffix(ReplayedValues(Kept(t), k), Of(u.hist.accepted, k)) && Of(u.hist.accepted, k) <= Of(t.hist.accepted, k)
    ensures At(u.hist.wrote, k) + |ReplayedValues(Kept(t), k)| <= |Of(u.hist.accepted, k)|
  {
    hide IsRun, Init, Along, Printed, ReplayedValues, IsSuffix, Spared;
    InitDisk(cfg, s);
    DiskRun(cfg, s, steps, t);
    SparedReplay(t, k);
    i, u := StateAt(cfg, s, steps, t, KeptEnd(t));
    AlongFront(cfg, s, steps, i, k);
    ReplayIsSuffix(cfg, s, steps[..i], u, k);
    DaemonFlush.AcceptedRun(cfg, u, steps[i..], t, k);
  }

  // ----- exactness after a restart

  /** What a restart now would bring back is exactly what must not be lost. */
  ghost predicate RestartExact(s: State, k: Key)
    requires DiskOk(s)
  {
    ReplayedValues(Kept(s), k) == Outstanding(s, k)
  }

  lemma ExactNow(cfg: Config, s: State, steps: seq<Step>, t: State, k: Key)
    requires Init(cfg, s) && IsRun(cfg, s, steps, t) && Along(cfg, s, steps, k, false) && CleanRecords(cfg, s, steps, k)
    requires k !in t.unrecorded
    ensures DiskOk(t) && ReplayedValues(t.journal, k) == Outstanding(t, k)
  {
    hide Init, IsRun, Along, CleanRecords, ReplayedValues, Outstanding, DiskOk;
    InitDisk(cfg, s);
    DiskRun(cfg, s, steps, t);
    ReplayExactIff(cfg, s, steps, k);
    ExactEnd(cfg, s, steps, t, k);
  }

  /** A crash of a regular run with clean records that rotation has spared: a restart brings back exactly what must not be
      lost if and only if the records still in the buffer change nothing for the file. If none of them is a FORGET of it,
      that is: they bring nothing new and cancel nothing. */
  lemma CrashExactIff(cfg: Config, s: State, steps: seq<Step>, t: State, k: Key)
    requires Init(cfg, s) && IsRun(cfg, s, steps, t) && Along(cfg, s, steps, k, false) && CleanRecords(cfg, s, steps, k)
    requires k !in t.unrecorded && (DiskOk(t) ==> Spared(t, k))
    ensures DiskOk(t)
    ensures var whole, lost := t.journal[..KeptEnd(t)], t.journal[KeptEnd(t)..];
            (RestartExact(t, k) <==> ReplayedValues(whole, k) == ReplayedValues(whole + lost, k)) &&
            (NoForget(lost, k) ==>
              (RestartExact(t, k) <==> New(whole, lost, k) == [] && (Cleared(lost, k) ==> ReplayedValues(whole, k) == [])))
  {
    hide Init, IsRun, Along, CleanRecords, ReplayedValues, Outstanding, Cleared, New, NoForget, Printed, Spared;
    ExactNow(cfg, s, steps, t, k);
    SparedReplay(t, k);
    var whole, lost := t.journal[..KeptEnd(t)], t.journal[KeptEnd(t)..];
    assert t.journal == whole + lost;
    if NoForget(lost, k) { UnwrittenIff(whole, lost, k); }
  }

  /** The daemon has closed its journal, as the fast shutdown does. */
  predicate Closed(s: State) {
    s.disk.rotated <= |s.journal| && s.disk.out == |Printed(s)|
  }

  lemma ClosedKept(s: State)
    requires Closed(s) && DiskOk(s)
    ensures Kept(s) == s.journal[s.disk.removed..]
  {
    hide JournalText.Written, JournalText.WholeLines;
    JournalText.WholeLinesGrow(Lines(s.journal[s.disk.rotated..]), [], s.disk.out, s.disk.out);
  }

  /** Fast shutdown of a regular run with clean records: a restart brings back exactly what must not be lost if and only if
      the records that rotation has removed leave nothing of the file to replay, or what they leave is cancelled by a later
      record; provided no UPDATE in the remaining records came too late. */
  lemma FastShutdownIff(cfg: Config, s: State, steps: seq<Step>, t: State, k: Key)
    requires Init(cfg, s) && IsRun(cfg, s, steps, t) && Along(cfg, s, steps, k, false) && CleanRecords(cfg, s, steps, k)
    requires k !in t.unrecorded && Closed(t)
    ensures DiskOk(t)
    ensures var removed, rest := t.journal[..t.disk.removed], t.journal[t.disk.removed..];
            Timely(removed, rest, k) ==> (RestartExact(t, k) <==> Cleared(rest, k) || ReplayedValues(removed, k) == [])
  {
    hide Init, IsRun, Along, CleanRecords, ReplayedValues, Outstanding, Cleared, Timely, Printed;
    ExactNow(cfg, s, steps, t, k);
    ClosedKept(t);
    var removed, rest := t.journal[..t.disk.removed], t.journal[t.disk.removed..];
    assert removed + rest == t.journal;
    if Timely(removed, rest, k) { RemovedIff(removed, rest, k); }
  }
}
