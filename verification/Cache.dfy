/** What the cache of rrdcached holds, and what each critical section does to it, on plain values (rrd_daemon.c). */
module CacheModel {

  type Key = string

  /** A value as UPDATE hands it over: its text and the timestamp before the first colon. */
  datatype Value = Value(stamp: real, text: string)

  /** One argument of UPDATE as the field reader and `strtod` see it. */
  datatype Field = Malformed | Unstamped | Stamped(value: Value)

  /** A cache_item_t without its links and flags. */
  datatype Item = Item(values: seq<Value>, lastFlush: int, lastStamp: real)

  /** The tree and the write queue, head first. */
  datatype Core = Core(tree: map<Key, Item>, queue: seq<Key>)

  datatype Config = Config(writeInterval: int, writeJitter: nat, flushInterval: int)

  datatype Side = Head | Tail

  /** Outcome of the loop over the arguments of UPDATE; `done` is false when it ends in an error reply. */
  datatype Absorbed = Absorbed(values: seq<Value>, last: real, done: bool)

  function Absorb(fields: seq<Field>, last: real): Absorbed {
    if fields == [] || fields[0].Malformed? then Absorbed([], last, true)
    else if fields[0].Unstamped? || fields[0].value.stamp <= last then Absorbed([], last, false)
    else
      var rest := Absorb(fields[1..], fields[0].value.stamp);
      Absorbed([fields[0].value] + rest.values, rest.last, rest.done)
  }

  /** The loop over the arguments takes exactly the longest front of them whose timestamps strictly increase from the last
      one on. It ends without an error reply only at the end or at an argument that cannot be read. */
  lemma {:induction false} AbsorbsFront(fields: seq<Field>, last: real)
    ensures var a := Absorb(fields, last);
            var n := |a.values|;
            n <= |fields| &&
            (forall i :: 0 <= i < n ==>
               fields[i] == Stamped(a.values[i]) && (if i == 0 then last else a.values[i - 1].stamp) < a.values[i].stamp) &&
            a.last == (if n == 0 then last else a.values[n - 1].stamp) &&
            (n < |fields| ==> !fields[n].Stamped? || fields[n].value.stamp <= a.last) &&
            (a.done <==> n == |fields| || fields[n].Malformed?)
  {
    if fields != [] && fields[0].Stamped? && fields[0].value.stamp > last {
      AbsorbsFront(fields[1..], fields[0].value.stamp);
    }
  }

  /** The jitter that `wipe_ci_values` may add. */
  predicate JitterOk(cfg: Config, r: int) {
    0 <= r && (if cfg.writeJitter > 0 then r < cfg.writeJitter else r == 0)
  }

  /** `q` without its first `k`. */
  function Remove(q: seq<Key>, k: Key): seq<Key> {
    if q == [] then [] else if q[0] == k then q[1..] else [q[0]] + Remove(q[1..], k)
  }

  function Enqueue(c: Core, k: Key, side: Side): Core
    requires k in c.tree
  {
    if c.tree[k].values == [] then c
    else if side.Head? then
      if c.queue != [] && c.queue[0] == k then c else c.(queue := [k] + Remove(c.queue, k))
    else if k in c.queue then c
    else c.(queue := c.queue + [k])
  }

  /** UPDATE once the file is known to be writable; a new item starts at time `now` with timestamp 0. */
  function Update(cfg: Config, c: Core, k: Key, fields: seq<Field>, now: int, jitter: int): Core {
    var item := if k in c.tree then c.tree[k] else Item([], now + jitter, 0.0);
    var a := Absorb(fields, item.lastStamp);
    var item' := Item(item.values + a.values, item.lastFlush, a.last);
    var c' := c.(tree := c.tree[k := item']);
    if a.done && now - item'.lastFlush >= cfg.writeInterval then Enqueue(c', k, Tail) else c'
  }

  /** FORGET, and eviction: the item is freed, which also takes it off the queue. */
  function Drop(c: Core, k: Key): Core {
    Core(c.tree - {k}, Remove(c.queue, k))
  }

  /** `wipe_ci_values` followed by `remove_from_queue`. */
  function Wipe(c: Core, k: Key, when: int): Core
    requires k in c.tree
  {
    Core(c.tree[k := c.tree[k].(values := [], lastFlush := when)], Remove(c.queue, k))
  }

  /** Whether `tree_callback_flush` queues an unqueued item, and whether it marks it for eviction. */
  predicate Due(item: Item, absTimeout: int, running: bool) {
    item.values != [] && (item.lastFlush <= absTimeout || !running)
  }

  predicate Stale(cfg: Config, item: Item, now: int) {
    item.values == [] && now - item.lastFlush >= cfg.flushInterval
  }

  /** The keys of `order` that the traversal queues. */
  function DueKeys(c: Core, order: seq<Key>, absTimeout: int, running: bool): seq<Key>
    requires forall k <- order :: k in c.tree
  {
    if order == [] then []
    else
      var k := order[|order| - 1];
      var before := DueKeys(c, order[..|order| - 1], absTimeout, running);
      if k !in c.queue && Due(c.tree[k], absTimeout, running) then before + [k] else before
  }

  function StaleKeys(cfg: Config, c: Core, now: int): set<Key> {
    set k | k in c.tree && k !in c.queue && Stale(cfg, c.tree[k], now)
  }

  /** `flush_old_values`: items that are due are queued in tree order, idle empty items leave the tree. */
  function FlushOld(cfg: Config, c: Core, order: seq<Key>, maxAge: int, now: int, running: bool): Core
    requires forall k <- order :: k in c.tree
  {
    var absTimeout := if maxAge > 0 then now - maxAge else now + 2 * cfg.writeJitter + 1;
    Core(c.tree - StaleKeys(cfg, c, now), c.queue + DueKeys(c, order, absTimeout, running))
  }

  /** `order` lists every key of the tree once, as g_tree_foreach visits them. */
  ghost predicate IsOrder(order: seq<Key>, keys: set<Key>) {
    Distinct(order) && forall k :: k in order <==> k in keys
  }

  ghost predicate Distinct<T>(s: seq<T>) {
    forall i, j :: 0 <= i < j < |s| ==> s[i] != s[j]
  }

  /** What every critical section keeps: queued keys are distinct, in the tree, and have something to write. */
  ghost predicate QueueOk(c: Core) {
    Distinct(c.queue) && forall k <- c.queue :: k in c.tree && c.tree[k].values != []
  }

  lemma {:induction false} RemoveMembers(q: seq<Key>, k: Key)
    requires Distinct(q)
    ensures Distinct(Remove(q, k))
    ensures forall x :: x in Remove(q, k) <==> x in q && x != k
  {
    if q != [] && q[0] != k {
      assert forall x <- q[1..] :: x in q;
      RemoveMembers(q[1..], k);
      assert q == [q[0]] + q[1..];
      assert q[0] !in q[1..];
    } else if q != [] {
      assert q == [k] + q[1..];
      assert k !in q[1..];
    }
  }

  lemma {:induction false} RemoveAt(q: seq<Key>, i: nat)
    requires Distinct(q) && i < |q|
    ensures Remove(q, q[i]) == q[..i] + q[i + 1..]
  {
    if i > 0 {
      RemoveAt(q[1..], i - 1);
      assert q[..i] == [q[0]] + q[1..][..i - 1];
      assert q[1..][i..] == q[i + 1..];
    }
  }

  lemma {:induction false} RemoveAbsent(q: seq<Key>, k: Key)
    requires k !in q
    ensures Remove(q, k) == q
  {
    if q != [] { RemoveAbsent(q[1..], k); }
  }

  /** The traversal queues exactly the unqueued due keys. */
  lemma {:induction false} DueMembers(c: Core, order: seq<Key>, absTimeout: int, running: bool)
    requires forall k <- order :: k in c.tree
    ensures forall k :: k in DueKeys(c, order, absTimeout, running) <==>
                        k in order && k !in c.queue && Due(c.tree[k], absTimeout, running)
    ensures Distinct(order) ==> Distinct(DueKeys(c, order, absTimeout, running))
  {
    if order != [] {
      DueMembers(c, order[..|order| - 1], absTimeout, running);
      assert order == order[..|order| - 1] + [order[|order| - 1]];
    }
  }

  lemma DistinctConcat<T>(a: seq<T>, b: seq<T>)
    requires Distinct(a) && Distinct(b) && forall x <- a :: x !in b
    ensures Distinct(a + b)
  {
    forall i, j | 0 <= i < j < |a + b| ensures (a + b)[i] != (a + b)[j] {
      if i < |a| <= j {
        assert a[i] in a && b[j - |a|] in b;
      }
    }
  }
}
