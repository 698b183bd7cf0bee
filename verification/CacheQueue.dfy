/** The cache tree and the intrusive doubly linked write queue of rrd_daemon.c, with their links and counters. */
module CacheQueue {
  import opened CacheModel

  class CacheItem {
    const file: Key
    var values: seq<Value>
    var lastFlush: int
    var lastStamp: real
    var inQueue: bool
    var prev: CacheItem?
    var next: CacheItem?

    constructor (file: Key, when: int)
      ensures this.file == file && values == [] && lastFlush == when && lastStamp == 0.0
      ensures !inQueue && prev == null && next == null
    {
      this.file, values, lastFlush, lastStamp := file, [], when, 0.0;
      inQueue, prev, next := false, null, null;
    }
  }

  ghost function ItemOf(ci: CacheItem): Item
    reads ci`values, ci`lastFlush, ci`lastStamp
  {
    Item(ci.values, ci.lastFlush, ci.lastStamp)
  }

  ghost function Files(q: seq<CacheItem>): (r: seq<Key>)
    ensures |r| == |q|
    ensures forall i :: 0 <= i < |q| ==> r[i] == q[i].file
  {
    if q == [] then [] else [q[0].file] + Files(q[1..])
  }

  ghost predicate FlagAt(ci: CacheItem, q: seq<CacheItem>)
    reads ci
  {
    (ci.inQueue <==> ci in q) &&
    (ci.inQueue ==> ci.values != []) &&
    (!ci.inQueue ==> ci.prev == null && ci.next == null)
  }

  lemma WithoutAt<T>(q: seq<T>, i: nat)
    requires Distinct(q) && i < |q|
    ensures forall x :: x in q[..i] + q[i + 1..] <==> x in q && x != q[i]
  {
    forall x | x in q && x != q[i] ensures x in q[..i] + q[i + 1..] {
      var j :| 0 <= j < |q| && q[j] == x;
      assert x == (q[..i] + q[i + 1..])[if j < i then j else j - 1];
    }
  }

  ghost predicate LinkAt(q: seq<CacheItem>, i: nat)
    requires i < |q|
    reads q`prev, q`next
  {
    q[i].prev == (if i == 0 then null else q[i - 1]) &&
    q[i].next == (if i == |q| - 1 then null else q[i + 1])
  }

  class Cache {
    var tree: map<Key, CacheItem>
    var head: CacheItem?
    var tail: CacheItem?
    var queueLength: nat
    ghost var queue: seq<CacheItem>

    /** Keys and items correspond, so distinct items have distinct files. */
    ghost predicate TreeOk()
      reads this`tree
    {
      forall k <- tree :: tree[k].file == k
    }

    /** head and tail delimit the acyclic list `queue`, whose prev and next links mirror each other. */
    ghost predicate Linked()
      reads this`head, this`tail, this`queue, queue`prev, queue`next
    {
      Distinct(queue) &&
      head == (if queue == [] then null else queue[0]) &&
      tail == (if queue == [] then null else queue[|queue| - 1]) &&
      forall i :: 0 <= i < |queue| ==> LinkAt(queue, i)
    }

    /** IN_QUEUE holds for exactly the members, unqueued items have null links, queued items have values. */
    ghost predicate Flagged()
      reads this`tree, this`queue, tree.Values
    {
      (forall ci <- queue :: ci.file in tree && tree[ci.file] == ci) &&
      forall k <- tree :: FlagAt(tree[k], queue)
    }

    ghost predicate Valid()
      reads this, tree.Values, queue
    {
      TreeOk() && Linked() && Flagged() && queueLength == |queue|
    }

    ghost function TreeView(): map<Key, Item>
      reads this`tree, tree.Values`values, tree.Values`lastFlush, tree.Values`lastStamp
    {
      map k | k in tree :: ItemOf(tree[k])
    }

    ghost function Core(): Core
      reads this`tree, this`queue, tree.Values`values, tree.Values`lastFlush, tree.Values`lastStamp
    {
      CacheModel.Core(TreeView(), Files(queue))
    }

    constructor ()
      ensures Valid() && tree == map[] && queue == []
    {
      tree, head, tail, queueLength, queue := map[], null, null, 0, [];
    }

    /** The pointer surgery of `remove_from_queue` on the i-th member. */
    method Unlink(ci: CacheItem, ghost i: nat)
      requires Linked() && i < |queue| && queue[i] == ci
      modifies this`head, this`tail, this`queue, queue`prev, queue`next
      ensures Linked() && queue == old(queue)[..i] + old(queue)[i + 1..]
      ensures ci.prev == null && ci.next == null
    {
      ghost var q := queue;
      assert LinkAt(q, i);
      if ci.prev == null {
        head := ci.next;
      } else {
        ci.prev.next := ci.next;
      }
      if ci.next == null {
        tail := ci.prev;
      } else {
        ci.next.prev := ci.prev;
      }
      ci.next, ci.prev := null, null;
      queue := q[..i] + q[i + 1..];
      forall j | 0 <= j < |queue| ensures LinkAt(queue, j) {
        assert old(LinkAt(q, if j < i then j else j + 1));
      }
    }

    /** The pointer surgery of a HEAD enqueue. */
    method PushFront(ci: CacheItem)
      requires Linked() && ci !in queue
      modifies this`head, this`tail, this`queue, queue`prev, ci`prev, ci`next
      ensures Linked() && queue == [ci] + old(queue)
    {
      ghost var q := queue;
      ci.prev := null;
      ci.next := head;
      assert q != [] ==> LinkAt(q, 0);
      if ci.next != null {
        ci.next.prev := ci;
      }
      head := ci;
      if tail == null {
        tail := head;
      }
      queue := [ci] + q;
      forall j | 0 <= j < |queue| ensures LinkAt(queue, j) {
        if j > 0 {
          assert old(LinkAt(q, j - 1));
        }
      }
    }

    /** The pointer surgery of a TAIL enqueue. */
    method PushBack(ci: CacheItem)
      requires Linked() && ci !in queue && ci.prev == null && ci.next == null
      modifies this`head, this`tail, this`queue, queue`next, ci`prev
      ensures Linked() && queue == old(queue) + [ci]
    {
      ghost var q := queue;
      ci.prev := tail;
      assert q != [] ==> LinkAt(q, |q| - 1);
      if tail == null {
        head := ci;
      } else {
        tail.next := ci;
      }
      tail := ci;
      queue := q + [ci];
      forall j | 0 <= j < |queue| ensures LinkAt(queue, j) {
        if j < |q| {
          assert old(LinkAt(q, j));
        }
      }
    }

    lemma FilesDistinct()
      requires Valid()
      ensures Distinct(Files(queue))
      ensures forall ci <- queue :: ci.file in Files(queue)
      ensures forall k :: k in Files(queue) ==> k in tree && tree[k] in queue
    {
      forall i, j | 0 <= i < j < |queue| ensures Files(queue)[i] != Files(queue)[j] {
        assert queue[i] in queue && queue[j] in queue;
      }
      forall k | k in Files(queue) ensures k in tree && tree[k] in queue {
        var i :| 0 <= i < |queue| && Files(queue)[i] == k;
        assert queue[i] in queue;
      }
      forall ci <- queue ensures ci.file in Files(queue) {
        var i :| 0 <= i < |queue| && queue[i] == ci;
        assert Files(queue)[i] == ci.file;
      }
    }

    /** `remove_from_queue`: an unqueued item is left alone. */
    method RemoveFromQueue(ci: CacheItem)
      requires Valid() && ci.file in tree && tree[ci.file] == ci
      modifies this`head, this`tail, this`queueLength, this`queue, tree.Values`prev, tree.Values`next, ci`inQueue
      ensures Valid() && ci !in queue
      ensures Files(queue) == Remove(old(Files(queue)), ci.file)
    {
      hide Linked, LinkAt, Remove;
      FilesDistinct();
      assert FlagAt(ci, queue);
      if !ci.inQueue {
        RemoveAbsent(Files(queue), ci.file);
        return;
      }
      ghost var q := queue;
      ghost var i :| 0 <= i < |q| && q[i] == ci;
      RemoveAt(Files(q), i);
      FilesExcept(q, i);
      WithoutAt(q, i);
      Dequeue(ci, i);
    }

    method Dequeue(ci: CacheItem, ghost i: nat)
      requires Valid() && i < |queue| && queue[i] == ci
      requires forall x :: x in queue[..i] + queue[i + 1..] <==> x in queue && x != ci
      modifies this`head, this`tail, this`queueLength, this`queue, tree.Values`prev, tree.Values`next, ci`inQueue
      ensures Valid() && ci !in queue && queue == old(queue[..i] + queue[i + 1..])
    {
      hide Linked, LinkAt, TreeOk;
      assert queue[i] in queue;
      assert forall x <- queue :: x in tree.Values;
      Unlink(ci, i);
      ci.inQueue := false;
      queueLength := queueLength - 1;
      forall k <- tree ensures FlagAt(tree[k], queue) {
        assert old(FlagAt(tree[k], queue));
      }
    }

    /** Adds an unqueued item at the head and counts it. */
    method AddFront(ci: CacheItem)
      requires Valid() && ci.file in tree && tree[ci.file] == ci && ci !in queue && ci.values != []
      modifies this`head, this`tail, this`queueLength, this`queue, tree.Values`prev, tree.Values`next, ci`inQueue
      ensures Valid() && Files(queue) == [ci.file] + old(Files(queue))
    {
      hide Linked, LinkAt, TreeOk, Files, Distinct;
      ghost var q := queue;
      assert FlagAt(tree[ci.file], q);
      assert forall x <- queue :: x in tree.Values;
      FilesEnds(q, ci);
      EndMembers(q, ci);
      PushFront(ci);
      ci.inQueue := true;
      queueLength := queueLength + 1;
      forall k <- tree ensures FlagAt(tree[k], queue) {
        assert old(FlagAt(tree[k], q));
      }
    }

    /** Adds an unqueued item at the tail and counts it. */
    method AddBack(ci: CacheItem)
      requires Valid() && ci.file in tree && tree[ci.file] == ci && ci !in queue && ci.values != []
      modifies this`head, this`tail, this`queueLength, this`queue, tree.Values`prev, tree.Values`next, ci`inQueue
      ensures Valid() && Files(queue) == old(Files(queue)) + [ci.file]
    {
      hide Linked, LinkAt, TreeOk, Files, Distinct;
      ghost var q := queue;
      assert FlagAt(tree[ci.file], q);
      assert forall x <- queue :: x in tree.Values;
      FilesEnds(q, ci);
      EndMembers(q, ci);
      PushBack(ci);
      ci.inQueue := true;
      queueLength := queueLength + 1;
      forall k <- tree ensures FlagAt(tree[k], queue) {
        assert old(FlagAt(tree[k], q));
      }
    }

    /** `enqueue_cache_item`: nothing without values; HEAD moves to the front, TAIL never moves a queued item. */
    method EnqueueCacheItem(ci: CacheItem, side: Side)
      requires Valid() && ci.file in tree && tree[ci.file] == ci
      modifies this`head, this`tail, this`queueLength, this`queue, tree.Values`prev, tree.Values`next, ci`inQueue
      ensures Valid() && Core() == Enqueue(old(Core()), ci.file, side)
    {
      hide Valid, Linked, LinkAt, Flagged, FlagAt, TreeOk, Remove, TreeView, Files;
      QueueView(ci);
      if ci.values == [] {
        return;
      }
      if side.Head? {
        if head == ci {
          return;
        }
        RemoveFromQueue(ci);
        AddFront(ci);
      } else {
        if ci.inQueue {
          return;
        }
        AddBack(ci);
      }
    }

    /** What the links and flags of an item say about the abstract queue. */
    lemma QueueView(ci: CacheItem)
      requires Valid() && ci.file in tree && tree[ci.file] == ci
      ensures ci.inQueue <==> ci in queue
      ensures ci in queue <==> ci.file in Files(queue)
      ensures head == ci <==> Files(queue) != [] && Files(queue)[0] == ci.file
      ensures TreeView().Keys == tree.Keys && TreeView()[ci.file] == ItemOf(ci)
    {
      FilesDistinct();
      HeadIs();
      assert FlagAt(tree[ci.file], queue);
    }

    lemma HeadIs()
      requires Valid()
      ensures head == null <==> queue == []
      ensures queue != [] ==> head == queue[0] && head in queue && head.file == Files(queue)[0]
      ensures head != null ==> head.file in tree && tree[head.file] == head && head.values != []
    {
      if queue != [] {
        assert queue[0] in queue;
        assert FlagAt(tree[head.file], queue);
      }
    }

    /** `wipe_ci_values`. */
    method WipeCiValues(ci: CacheItem, when: int)
      requires TreeOk() && ci.file in tree && tree[ci.file] == ci
      modifies ci`values, ci`lastFlush
      ensures TreeView() == old(TreeView())[ci.file := old(ItemOf(ci)).(values := [], lastFlush := when)]
    {
      ci.values := [];
      ci.lastFlush := when;
    }

    /** `wipe_ci_values` together with `remove_from_queue`, as the writer and the replay of "wrote" use them. */
    method WipeAndRemove(ci: CacheItem, when: int)
      requires Valid() && ci.file in tree && tree[ci.file] == ci
      modifies this`head, this`tail, this`queueLength, this`queue, tree.Values`prev, tree.Values`next
      modifies ci`inQueue, ci`values, ci`lastFlush
      ensures Valid() && Core() == Wipe(old(Core()), ci.file, when)
    {
      hide Linked, LinkAt, Remove, TreeView, Files;
      QueueView(ci);
      RemoveFromQueue(ci);
      WipeCiValues(ci, when);
      forall k <- tree ensures FlagAt(tree[k], queue) {
        assert old(tree[k].file == k);
      }
    }

    /** `g_tree_remove` with `free_cache_item` as the destroy function. */
    method FreeCacheItem(k: Key)
      requires Valid() && k in tree
      modifies this, tree.Values`prev, tree.Values`next, tree.Values`inQueue
      ensures Valid() && tree == old(tree) - {k} && tree.Values <= old(tree.Values) && Core() == Drop(old(Core()), k)
    {
      hide Linked, LinkAt, Remove, Files, FlagAt;
      QueueView(tree[k]);
      RemoveFromQueue(tree[k]);
      tree := tree - {k};
    }

    /** The writer's critical section: copies what it needs from the head of the queue, then wipes and unlinks it.
        The two assertions of the source hold because a queued item has values. */
    method TakeHead(when: int) returns (file: Key, values: seq<Value>)
      requires Valid() && queue != []
      modifies this`head, this`tail, this`queueLength, this`queue, tree.Values
      ensures Valid() && tree == old(tree)
      ensures old(Core()).queue != [] && file == old(Core()).queue[0] && file in old(Core()).tree
      ensures values == old(Core()).tree[file].values && values != []
      ensures Core() == Wipe(old(Core()), file, when)
    {
      hide Valid, Linked, LinkAt, Flagged, FlagAt, TreeOk, Remove, TreeView, Files;
      HeadIs();
      QueueView(head);
      var ci := head;
      file := ci.file;
      assert |ci.values| > 0;
      values := ci.values;
      WipeAndRemove(ci, when);
    }

    /** Finds the item of a file, or creates it empty. */
    method GetItem(k: Key, when: int) returns (ci: CacheItem)
      requires Valid()
      modifies this`tree
      ensures Valid() && ci.file == k && k in tree && tree[k] == ci && queue == old(queue)
      ensures forall x <- tree.Values :: x in old(tree.Values) || fresh(x)
      ensures TreeView() == if k in old(TreeView()) then old(TreeView()) else old(TreeView())[k := Item([], when, 0.0)]
    {
      hide Linked, LinkAt, Files;
      if k in tree {
        return tree[k];
      }
      ci := new CacheItem(k, when);
      tree := tree[k := ci];
    }

    /** The loop over the arguments of UPDATE, on an item of the tree. */
    method AbsorbFields(ci: CacheItem, fields: seq<Field>) returns (done: bool)
      requires Valid() && ci.file in tree && tree[ci.file] == ci
      modifies ci`values, ci`lastStamp
      ensures Valid()
      ensures var a := Absorb(fields, old(ci.lastStamp));
              done == a.done &&
              TreeView() == old(TreeView())[ci.file := Item(old(ci.values) + a.values, ci.lastFlush, a.last)]
    {
      hide Linked, LinkAt, Files, Absorb;
      done := AbsorbLoop(ci, fields);
      forall k <- tree ensures FlagAt(tree[k], queue) {
        assert old(FlagAt(tree[k], queue));
      }
    }

    /** The locked part of `handle_request_update`. */
    method UpdateItem(cfg: Config, k: Key, fields: seq<Field>, now: int, jitter: int) returns (done: bool)
      requires Valid()
      modifies this, tree.Values
      ensures Valid() && Core() == Update(cfg, old(Core()), k, fields, now, jitter)
      ensures forall x <- tree.Values :: x in old(tree.Values) || fresh(x)
    {
      hide Valid, Linked, LinkAt, Flagged, FlagAt, TreeOk, Remove, Files, TreeView, Absorb;
      ghost var before := Core();
      var ci := GetItem(k, now + jitter);
      QueueView(ci);
      done := AbsorbFields(ci, fields);
      QueueView(ci);
      assert Core() == Update(cfg, before, k, fields, now, jitter).(queue := before.queue);
      if done && now - ci.lastFlush >= cfg.writeInterval && !ci.inQueue && ci.values != [] {
        EnqueueCacheItem(ci, Tail);
      }
    }

    /** `tree_callback_flush` for one item; true when the item is to be evicted. */
    method FlushCallback(cfg: Config, k: Key, absTimeout: int, now: int, running: bool) returns (evict: bool)
      requires Valid() && k in tree
      modifies this`head, this`tail, this`queueLength, this`queue
      modifies tree.Values`prev, tree.Values`next, tree.Values`inQueue
      ensures Valid() && tree == old(tree)
      ensures var c := old(Core());
              k in c.tree && TreeView() == c.tree &&
              Files(queue) == (if k !in c.queue && Due(c.tree[k], absTimeout, running) then c.queue + [k] else c.queue) &&
              (evict <==> k !in c.queue && Stale(cfg, c.tree[k], now))
    {
      hide Valid, Linked, LinkAt, Flagged, FlagAt, Remove, Files, TreeView;
      FileOf(k);
      var ci := tree[k];
      QueueView(ci);
      if ci.inQueue {
        return false;
      }
      if ci.values != [] && (ci.lastFlush <= absTimeout || !running) {
        EnqueueCacheItem(ci, Tail);
        return false;
      }
      return now - ci.lastFlush >= cfg.flushInterval && ci.values == [];
    }

    lemma FileOf(k: Key)
      requires Valid() && k in tree
      ensures tree[k].file == k
    {
    }

    /** The traversal of the tree in `flush_old_values`: queues what is due and collects what is idle. */
    method Traverse(cfg: Config, order: seq<Key>, absTimeout: int, now: int, running: bool) returns (keys: seq<Key>)
      requires Valid() && IsOrder(order, TreeView().Keys)
      modifies this`head, this`tail, this`queueLength, this`queue
      modifies tree.Values`prev, tree.Values`next, tree.Values`inQueue
      ensures Valid() && tree == old(tree) && TreeView() == old(TreeView())
      ensures forall k <- order :: k in old(Core()).tree
      ensures Files(queue) == old(Core()).queue + DueKeys(old(Core()), order, absTimeout, running)
      ensures Collected(cfg, old(Core()), now, order, keys)
    {
      hide Valid, Linked, LinkAt, Flagged, FlagAt, Remove, Files, TreeView, DueKeys, Stale, Due, Collected;
      ghost var c := Core();
      TreeKeys();
      DueNone(c, absTimeout, running);
      CollectNone(cfg, c, now);
      var i := 0;
      keys := [];
      while i < |order|
        invariant 0 <= i <= |order| && Valid() && tree == old(tree) && TreeView() == c.tree
        invariant Files(queue) == c.queue + DueKeys(c, order[..i], absTimeout, running)
        invariant Collected(cfg, c, now, order[..i], keys)
      {
        hide Distinct, IsOrder;
        var evict := VisitNext(cfg, order, i, absTimeout, now, running, c, keys);
        if evict {
          keys := keys + [order[i]];
        }
        i := i + 1;
      }
      assert order[..i] == order;
    }

    /** One visit, seen from the start of the traversal. */
    method VisitNext(cfg: Config, order: seq<Key>, i: nat, absTimeout: int, now: int, running: bool, ghost c: Core, ghost keys: seq<Key>)
      returns (evict: bool)
      requires Valid() && TreeView() == c.tree && IsOrder(order, c.tree.Keys) && i < |order|
      requires Files(queue) == c.queue + DueKeys(c, order[..i], absTimeout, running) && Collected(cfg, c, now, order[..i], keys)
      modifies this`head, this`tail, this`queueLength, this`queue
      modifies tree.Values`prev, tree.Values`next, tree.Values`inQueue
      ensures Valid() && tree == old(tree) && TreeView() == c.tree
      ensures Files(queue) == c.queue + DueKeys(c, order[..i + 1], absTimeout, running)
      ensures Collected(cfg, c, now, order[..i + 1], if evict then keys + [order[i]] else keys)
    {
      hide Valid, Linked, LinkAt, Flagged, FlagAt, Remove, Files, TreeView, DueKeys, Stale, Due, Collected, Distinct, IsOrder;
      Visit(cfg, c, now, order, i, keys, absTimeout, running);
      TreeKeys();
      evict := FlushCallback(cfg, order[i], absTimeout, now, running);
    }

    /** Removes the collected keys; none of them is queued, so the queue stays as it is. */
    method EvictAll(keys: seq<Key>)
      requires Valid() && Distinct(keys)
      requires forall k <- keys :: k in TreeView() && k !in Files(queue)
      modifies this, tree.Values`prev, tree.Values`next, tree.Values`inQueue
      ensures Valid() && tree.Values <= old(tree.Values)
      ensures TreeView() == old(TreeView()) - (set k | k in keys) && Files(queue) == old(Files(queue))
    {
      hide Valid, Linked, LinkAt, Flagged, FlagAt, Remove, Files, TreeView;
      ghost var c := Core();
      var j := 0;
      while j < |keys|
        invariant 0 <= j <= |keys| && Valid() && tree.Values <= old(tree.Values)
        invariant TreeView() == c.tree - (set k | k in keys[..j]) && Files(queue) == c.queue
      {
        assert keys[..j + 1] == keys[..j] + [keys[j]];
        assert keys[j] in keys && keys[j] !in keys[..j];
        TreeKeys();
        RemoveAbsent(c.queue, keys[j]);
        FreeCacheItem(keys[j]);
        j := j + 1;
      }
      assert keys[..j] == keys;
    }

    /** `flush_old_values`. */
    method FlushOldValues(cfg: Config, order: seq<Key>, maxAge: int, now: int, running: bool)
      requires Valid() && IsOrder(order, TreeView().Keys)
      modifies this, tree.Values`prev, tree.Values`next, tree.Values`inQueue
      ensures Valid() && tree.Values <= old(tree.Values)
      ensures (forall k <- order :: k in old(Core()).tree) && Core() == FlushOld(cfg, old(Core()), order, maxAge, now, running)
    {
      hide Valid, Linked, LinkAt, Flagged, FlagAt, Remove, Files, TreeView, DueKeys, StaleKeys, Due, Stale, Collected;
      ghost var c := Core();
      var absTimeout := if maxAge > 0 then now - maxAge else now + 2 * cfg.writeJitter + 1;
      var keys := Traverse(cfg, order, absTimeout, now, running);
      CollectedAll(cfg, c, now, order, keys, absTimeout, running);
      EvictAll(keys);
    }

    lemma TreeKeys()
      ensures TreeView().Keys == tree.Keys
    {
    }
  }

  lemma QueuedSoFar(c: Core, order: seq<Key>, i: nat, absTimeout: int, running: bool)
    requires Distinct(order) && i < |order| && forall k <- order :: k in c.tree
    ensures order[i] in c.queue + DueKeys(c, order[..i], absTimeout, running) <==> order[i] in c.queue
  {
    DueMembers(c, order[..i], absTimeout, running);
    assert order[i] !in order[..i];
  }

  /** What one visit of the traversal adds to the queue and to the idle items. */
  lemma Visit(cfg: Config, c: Core, now: int, order: seq<Key>, i: nat, keys: seq<Key>, absTimeout: int, running: bool)
    requires IsOrder(order, c.tree.Keys) && i < |order| && Collected(cfg, c, now, order[..i], keys)
    ensures order[i] in c.tree && forall k <- order :: k in c.tree
    ensures order[i] in c.queue + DueKeys(c, order[..i], absTimeout, running) <==> order[i] in c.queue
    ensures DueKeys(c, order[..i + 1], absTimeout, running) ==
            DueKeys(c, order[..i], absTimeout, running) +
            (if order[i] !in c.queue && Due(c.tree[order[i]], absTimeout, running) then [order[i]] else [])
    ensures Collected(cfg, c, now, order[..i + 1],
                      if order[i] !in c.queue && Stale(cfg, c.tree[order[i]], now) then keys + [order[i]] else keys)
  {
    hide DueKeys, Collected, Due, Stale;
    DueStep(c, order, i, absTimeout, running);
    QueuedSoFar(c, order, i, absTimeout, running);
    CollectStep(cfg, c, now, order, i, keys);
  }

  /** `keys` lists the idle items among those seen, each once. */
  ghost predicate Collected(cfg: Config, c: Core, now: int, seen: seq<Key>, keys: seq<Key>) {
    Distinct(keys) && forall k :: k in keys <==> k in seen && k in c.tree && k !in c.queue && Stale(cfg, c.tree[k], now)
  }

  lemma CollectedAll(cfg: Config, c: Core, now: int, order: seq<Key>, keys: seq<Key>, absTimeout: int, running: bool)
    requires IsOrder(order, c.tree.Keys) && Collected(cfg, c, now, order, keys)
    ensures Distinct(keys) && (set k | k in keys) == StaleKeys(cfg, c, now)
    ensures forall k <- keys :: k in c.tree && k !in c.queue + DueKeys(c, order, absTimeout, running)
  {
    DueMembers(c, order, absTimeout, running);
  }

  lemma CollectNone(cfg: Config, c: Core, now: int)
    ensures Collected(cfg, c, now, [], [])
  {
  }

  lemma CollectStep(cfg: Config, c: Core, now: int, order: seq<Key>, i: nat, keys: seq<Key>)
    requires Distinct(order) && i < |order| && order[i] in c.tree && Collected(cfg, c, now, order[..i], keys)
    ensures Collected(cfg, c, now, order[..i + 1],
                      if order[i] !in c.queue && Stale(cfg, c.tree[order[i]], now) then keys + [order[i]] else keys)
  {
    assert order[..i + 1] == order[..i] + [order[i]];
    assert order[i] !in order[..i];
  }

  lemma DueNone(c: Core, absTimeout: int, running: bool)
    ensures DueKeys(c, [], absTimeout, running) == []
  {
  }

  lemma DueStep(c: Core, order: seq<Key>, i: nat, absTimeout: int, running: bool)
    requires forall k <- order :: k in c.tree
    requires i < |order|
    ensures DueKeys(c, order[..i + 1], absTimeout, running) ==
            DueKeys(c, order[..i], absTimeout, running) +
            (if order[i] !in c.queue && Due(c.tree[order[i]], absTimeout, running) then [order[i]] else [])
  {
    assert order[..i + 1][..i] == order[..i];
  }

  /** Takes values until an argument cannot be used; false when that ends in an error reply. */
  method AbsorbLoop(ci: CacheItem, fields: seq<Field>) returns (done: bool)
    modifies ci`values, ci`lastStamp
    ensures var a := Absorb(fields, old(ci.lastStamp));
            done == a.done && ci.values == old(ci.values) + a.values && ci.lastStamp == a.last
  {
    ghost var a := Absorb(fields, ci.lastStamp);
    var i := 0;
    while i < |fields|
      invariant 0 <= i <= |fields|
      invariant old(ci.values) + a.values == ci.values + Absorb(fields[i..], ci.lastStamp).values
      invariant a.last == Absorb(fields[i..], ci.lastStamp).last && a.done == Absorb(fields[i..], ci.lastStamp).done
    {
      var field := fields[i];
      assert fields[i..][0] == field && fields[i..][1..] == fields[i + 1..];
      if field.Malformed? {
        break;
      } else if field.Unstamped? || field.value.stamp <= ci.lastStamp {
        return false;
      }
      ci.lastStamp := field.value.stamp;
      ci.values := ci.values + [field.value];
      i := i + 1;
    }
    return true;
  }

  lemma FilesEnds(q: seq<CacheItem>, ci: CacheItem)
    ensures Files(q + [ci]) == Files(q) + [ci.file]
    ensures Files([ci] + q) == [ci.file] + Files(q)
  {
    FilesConcat(q, [ci]);
    FilesConcat([ci], q);
  }

  lemma {:induction false} FilesConcat(a: seq<CacheItem>, b: seq<CacheItem>)
    ensures Files(a + b) == Files(a) + Files(b)
  {
    if a == [] {
      assert a + b == b;
    } else {
      assert (a + b)[1..] == a[1..] + b;
      FilesConcat(a[1..], b);
    }
  }

  lemma FilesExcept(q: seq<CacheItem>, i: nat)
    requires i < |q|
    ensures Files(q[..i] + q[i + 1..]) == Files(q)[..i] + Files(q)[i + 1..]
  {
    hide Files;
    Around(q, i);
    FilesAround(q[..i], [q[i]], q[i + 1..]);
  }

  lemma Around<T>(q: seq<T>, i: nat)
    requires i < |q|
    ensures q[..i] + ([q[i]] + q[i + 1..]) == q
  {
  }

  lemma FilesAround(a: seq<CacheItem>, m: seq<CacheItem>, b: seq<CacheItem>)
    ensures Files(a + b) == Files(a + (m + b))[..|a|] + Files(a + (m + b))[|a| + |m|..]
  {
    hide Files;
    FilesConcat(a, b);
    FilesConcat(a, m + b);
    FilesConcat(m, b);
    SplitParts(Files(a), Files(m), Files(b));
  }

  lemma SplitParts<T>(a: seq<T>, m: seq<T>, b: seq<T>)
    ensures (a + (m + b))[..|a|] == a
    ensures (a + (m + b))[|a| + |m|..] == b
  {
  }

  lemma EndMembers<T>(q: seq<T>, x: T)
    ensures forall y :: y in [x] + q <==> y in q || y == x
    ensures forall y :: y in q + [x] <==> y in q || y == x
  {
  }
}
