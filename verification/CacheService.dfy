/**
 What a call that wants a block gets: the block's own buffer, a recycled one, or a place among those that wait. All
 of it is stated over what the threads do and the states of the buffers, and not over their counters.
 */
module CacheService {
  import opened Basics
  import opened CacheState
  import opened CacheSteps
  import opened CacheSafety
  import opened CacheRecycle
  import opened CacheObtain
  import opened CacheRun

  ghost predicate SomeoneWaits(c: Cache, b: nat) {
    exists k :: k in c.tasks && WaitsOn(c.tasks[k], b)
  }

  /** A buffer of the group is in use, or someone waits on one. */
  ghost predicate GroupInUse(c: Cache, g: nat) {
    || (exists i :: 0 <= i < |c.bufs| && GroupOf(c, i) == g && Active(c, i) && GroupUser(c.bufs[i].state))
    || (exists k :: k in c.tasks && c.tasks[k].Waiting? && GroupOf(c, c.tasks[k].b) == g)
  }

  /** The buffer holds nothing or clean data, nobody waits on it, and it has the right size or its group can be cut anew. */
  ghost predicate Obtainable(c: Cache, b: nat, dd: nat) {
    && b < |c.bufs| && Active(c, b) && InLru(c.bufs[b].state) && !SomeoneWaits(c, b)
    && GroupOf(c, b) < |c.groups| && dd < |c.need|
    && (c.groups[GroupOf(c, b)].bdsPerGroup == c.need[dd] || !GroupInUse(c, GroupOf(c, b)))
  }

  /** Some buffer of the cache is for this block. */
  ghost predicate Cached(c: Cache, key: Key) {
    exists b :: b in c.tree && b < |c.bufs| && c.bufs[b].key == key
  }

  // ---- counters ----

  lemma NobodyCounted(c: Cache, b: nat)
    requires Inv(c) && b < |c.bufs|
    ensures c.bufs[b].waiters == 0 <==> !SomeoneWaits(c, b)
  {
    hide Formed, Lists, Keys, UserCounts, Awaited, Owners, WaitKeys, WaitsOn;
    var w := WaiterSet(c, b);
    assert c.bufs[b].waiters == |w|;
    if SomeoneWaits(c, b) {
      var k :| k in c.tasks && WaitsOn(c.tasks[k], b);
      assert k in w;
    } else {
      assert w == {};
    }
  }

  lemma NoUsersCounted(c: Cache, g: nat)
    requires Inv(c) && g < |c.groups|
    ensures c.groups[g].users == 0 <==> !GroupInUse(c, g)
  {
    hide Formed, Lists, Keys, WaiterCounts, Awaited, Owners, WaitKeys, Active, GroupOf, GroupUser;
    var u, w := GroupUsers(c, g), GroupWaiters(c, g);
    assert c.groups[g].users == |u| + |w|;
    if i: nat :| i < |c.bufs| && GroupOf(c, i) == g && Active(c, i) && GroupUser(c.bufs[i].state) {
      assert i in u;
    } else if k :| k in c.tasks && c.tasks[k].Waiting? && GroupOf(c, c.tasks[k].b) == g {
      assert k in w;
    } else {
      assert u == {};
      assert w == {};
    }
  }

  /** The counters tell exactly which buffers of the LRU list may be taken. */
  lemma UsableExactly(c: Cache, b: nat, dd: nat)
    requires Inv(c)
    ensures b in c.lru && Usable(c, b, dd) <==> Obtainable(c, b, dd)
  {
    if b < |c.bufs| {
      BufferFacts(c, b);
      NobodyCounted(c, b);
      NoUsersCounted(c, GroupOf(c, b));
    }
    hide Inv, SomeoneWaits, GroupInUse, Active, GroupOf;
  }

  // ---- getting and reading a block ----

  /** What the caller is given: a buffer for the block, with data in it, empty to be filled, or empty to be read. */
  ghost predicate Given(c: Cache, k: nat, b: nat, key: Key, before: State, purpose: Purpose) {
    && k in c.tasks && b < |c.bufs| && c.bufs[b].key == key
    && match before
       case Cached => c.tasks[k] == Holding(b) && c.bufs[b].state == AccessCached
       case Modified => c.tasks[k] == Holding(b) && c.bufs[b].state == AccessModified
       case _ =>
         if purpose == ForRead then c.tasks[k] == Reading(b) && c.bufs[b].state == Transfer
         else c.tasks[k] == Holding(b) && c.bufs[b].state == AccessEmpty
  }

  /** Someone has the buffer, or it is on its way to or from the medium. */
  predicate Busy(s: State) {
    Accessed(s) || InTransfer(s) || s == Sync
  }

  lemma AccessOutcome(c: Cache, k: nat, b: nat, purpose: Purpose, key: Key)
    requires b < |c.bufs| && c.bufs[b].key == key && Access(c, k, b, purpose, key).Next?
    ensures var o := Access(c, k, b, purpose, key).cache;
            if Busy(c.bufs[b].state) then k in o.tasks && o.tasks[k] == Waiting(b, purpose, key) && o.bufs[b].state == c.bufs[b].state
            else Given(o, k, b, key, c.bufs[b].state, purpose)
  {
    hide Without;
    assert c.bufs[b].state == Modified ==> AddUsers(c, b, -1).bufs == c.bufs;
  }

  /** The answer to a call: a cached block's buffer at once or a wait for it; else an empty buffer, or a wait for any. */
  ghost predicate Answered(c: Cache, c': Cache, k: nat, purpose: Purpose, key: Key) {
    && k in c'.tasks
    && (forall b | b in c.tree && b < |c.bufs| && c.bufs[b].key == key ::
          if Busy(c.bufs[b].state) then c'.tasks[k] == Waiting(b, purpose, key) else Given(c', k, b, key, c.bufs[b].state, purpose))
    && (!Cached(c, key) && (exists b :: Obtainable(c, b, key.dd)) ==> exists b :: Given(c', k, b, key, Empty, purpose))
    && (c'.tasks[k] == WaitingForBuffer(purpose, key) <==> !Cached(c, key) && !exists b :: Obtainable(c, b, key.dd))
  }

  /**
   A call for a block that is cached gets its buffer at once, unless someone has it or it is on its way to or from the
   medium; it then waits for this buffer. A call for another block gets an empty buffer if and only if there is one to be
   had; it otherwise waits for any.
   */
  lemma CallOutcome(c: Cache, k: nat, purpose: Purpose, key: Key)
    requires Inv(c) && k !in c.tasks
    ensures var o := TryGet(c, k, purpose, key); o.Next? && Answered(c, o.cache, k, purpose, key)
  {
    hide Inv, Find, Access, FromLru, Recycle, Given, Obtainable, Suited;
    TryGetStep(c, k, purpose, key);
    FoundNone(c, key);
    if Find(c, key).Some? {
      FoundSome(c, key);
      var b := Find(c, key).value;
      OneBuffer(c, b);
      AccessOutcome(c, k, b, purpose, key);
      GivenNotWaiting(TryGet(c, k, purpose, key).cache, k, b, key, c.bufs[b].state, purpose);
    } else {
      SourceExactly(c, key.dd);
      FromLruFacts(c, key);
      var r := FromLru(c, key.dd);
      if r.Source? {
        var b := r.b;
        FreshGiven(r.cache, k, b, purpose, key);
        GivenNotWaiting(TryGet(c, k, purpose, key).cache, k, b, key, Empty, purpose);
      }
    }
  }

  lemma GivenNotWaiting(c: Cache, k: nat, b: nat, key: Key, s: State, purpose: Purpose)
    ensures Given(c, k, b, key, s, purpose) ==> k in c.tasks && !c.tasks[k].WaitingForBuffer?
  {
  }

  lemma OneBuffer(c: Cache, b: nat)
    requires Inv(c) && b in c.tree && b < |c.bufs|
    ensures forall j | j in c.tree && j < |c.bufs| && c.bufs[j].key == c.bufs[b].key :: j == b
  {
    BufferFacts(c, b);
  }

  /** There is a buffer to recycle if and only if some buffer is obtainable. */
  lemma SourceExactly(c: Cache, dd: nat)
    requires Inv(c)
    ensures FromLru(c, dd).NoBuffer? <==> !exists b :: Obtainable(c, b, dd)
  {
    hide Inv, Usable, Obtainable, Realloc, GroupIdle, FirstUsable;
    var first := FirstUsable(c, c.lru, dd);
    FirstOf(c, dd);
    if first.Some? {
      UsableExactly(c, first.value, dd);
    } else if b: nat :| Obtainable(c, b, dd) {
      UsableExactly(c, b, dd);
    }
  }

  lemma FirstOf(c: Cache, dd: nat)
    ensures var first := FirstUsable(c, c.lru, dd);
            if first.Some? then first.value in c.lru && Usable(c, first.value, dd) else forall b | b in c.lru :: !Usable(c, b, dd)
  {
  }

  lemma FreshGiven(c: Cache, k: nat, b: nat, purpose: Purpose, key: Key)
    requires Inv(c) && k !in c.tasks && Recyclable(c, b, key)
    ensures var o := Recycle(c, b, key);
            && o.Next? && |o.cache.bufs| == |c.bufs| && b < |c.bufs|
            && var o' := Access(o.cache, k, b, purpose, key); o'.Next? && Given(o'.cache, k, b, key, Empty, purpose)
  {
    hide Inv, Suited, Find, Recycle;
    Recycled(c, k, b, purpose, key);
    var s, t := if purpose == ForRead then Transfer else AccessEmpty, if purpose == ForRead then Reading(b) else Holding(b);
    RecycleStep(c, k, b, key, s, t);
    AccessOutcome(Recycle(c, b, key).cache, k, b, purpose, key);
  }

  // ---- the steps ----

  /** Every call for a block, and every new try after a wait for any buffer, is answered in this way. */
  lemma CallsAnswered(c: Cache, e: Event)
    requires Inv(c) && Enabled(c, e) && (e.Get? || e.Read? || e.Retry?)
    ensures Step(c, e).Next?
    ensures var c' := Step(c, e).cache;
            match e
            case Get(k, key) => Answered(c, c', k, ForGet, key)
            case Read(k, key) => Answered(c, c', k, ForRead, key)
            case Retry(k) => Answered(EndTask(c, k), c', k, c.tasks[k].purpose, c.tasks[k].key)
            case _ => true
  {
    hide Inv, TryGet, Answered;
    match e
    case Get(k, key) => CallOutcome(c, k, ForGet, key);
    case Read(k, key) => CallOutcome(c, k, ForRead, key);
    case Retry(k) =>
      IdleTask(c, EndTask(c, k), k);
      CallOutcome(EndTask(c, k), k, c.tasks[k].purpose, c.tasks[k].key);
  }

  /** A thread that is woken up gets its buffer, unless that is busy again; a sync goes on exactly as long as it is not written. */
  lemma WakesAnswered(c: Cache, e: Event)
    requires Inv(c) && Enabled(c, e) && (e.AccessAgain? || e.SyncAgain?)
    ensures Step(c, e).Next? && c.tasks[e.k].b < |c.bufs|
    ensures var t, c' := c.tasks[e.k], Step(c, e).cache;
            var s := c.bufs[t.b].state;
            if e.AccessAgain? then
              if Busy(s) then e.k in c'.tasks && c'.tasks[e.k] == t else Given(c', e.k, t.b, t.key, s, t.purpose)
            else
              if s == Sync || InTransfer(s) then e.k in c'.tasks && c'.tasks[e.k] == t else e.k !in c'.tasks
  {
    hide Inv, Access, SyncDone, Unwait, Given;
    WaiterFacts(c, e.k);
    if e.AccessAgain? {
      AccessAgainStep(c, e.k);
      Unwaited(c, e.k);
      var t := c.tasks[e.k];
      AccessOutcome(Unwait(c, e.k, t.b), e.k, t.b, t.purpose, t.key);
    } else {
      SyncDoneStep(c, e.k);
    }
  }

  lemma Unwaited(c: Cache, k: nat)
    requires k in c.tasks && c.tasks[k].Waiting? && c.tasks[k].b < |c.bufs|
    ensures var b := c.tasks[k].b;
            var c' := Unwait(c, k, b);
            |c'.bufs| == |c.bufs| && c'.bufs[b].state == c.bufs[b].state && c'.bufs[b].key == c.bufs[b].key
  {
  }

  // ---- read-ahead ----

  /** A read-ahead takes a buffer for the next block if and only if the block is not cached and a buffer is to be had. */
  lemma AheadOutcome(c: Cache, k: nat, key: Key)
    requires Inv(c) && Collecting(c, k)
    ensures var o := ReadAheadOne(c, k, key);
            && o.Next?
            && if Cached(c, key) || !exists b :: Obtainable(c, b, key.dd) then o.cache == c
               else
                 && k in o.cache.tasks && o.cache.tasks[k].Transferring? && |o.cache.tasks[k].list| == |ListOf(c, k)| + 1
                 && var b := o.cache.tasks[k].list[|ListOf(c, k)|];
                    b < |o.cache.bufs| && o.cache.bufs[b].state == Transfer && o.cache.bufs[b].key == key
  {
    hide Inv, Find, FromLru, Recycle, Obtainable, Recyclable;
    ReadAheadOneStep(c, k, key);
    FoundNone(c, key);
    if Find(c, key).None? {
      SourceExactly(c, key.dd);
      FromLruFacts(c, key);
      var r := FromLru(c, key.dd);
      if r.Source? {
        AheadFresh(r.cache, k, r.b, key);
        assert ListOf(r.cache, k) == ListOf(c, k);
      }
    }
  }

  lemma AheadFresh(c: Cache, k: nat, b: nat, key: Key)
    requires Inv(c) && Collecting(c, k) && Recyclable(c, b, key)
    ensures var o := Recycle(c, b, key);
            o.Next? && |o.cache.bufs| == |c.bufs| && b < |c.bufs| && o.cache.bufs[b].key == key && o.cache.tasks == c.tasks
  {
    hide Inv, Suited, Find;
    RecycleStep(c, k, b, key, Transfer, Transferring(ListOf(c, k) + [b]));
  }

  /**
   The read-ahead stops with the first block that is cached or for which no buffer is to be had, and has taken one buffer
   for each block before it.
   */
  lemma {:induction false} AheadStops(c: Cache, k: nat, keys: seq<Key>) returns (n: nat)
    requires Inv(c) && Collecting(c, k)
    ensures n <= |keys|
    ensures var o := ReadAhead(c, k, keys);
            && o.Next? && Inv(o.cache) && |ListOf(o.cache, k)| == |ListOf(c, k)| + n
            && (n < |keys| ==> Cached(o.cache, keys[n]) || !exists b :: Obtainable(o.cache, b, keys[n].dd))
    decreases |keys|
  {
    hide Inv, ReadAheadOne, Obtainable, Cached;
    n := 0;
    if keys != [] {
      ReadAheadOneStep(c, k, keys[0]);
      AheadOutcome(c, k, keys[0]);
      var c1 := ReadAheadOne(c, k, keys[0]).cache;
      if c1 != c {
        var more := AheadStops(c1, k, keys[1..]);
        n := more + 1;
      }
    }
  }

  /** So does the task that reads ahead. */
  lemma AheadAnswered(c: Cache, k: nat, keys: seq<Key>) returns (n: nat)
    requires Inv(c) && Enabled(c, ReadAheadStarts(k, keys))
    ensures n <= |keys|
    ensures var o := Step(c, ReadAheadStarts(k, keys));
            && o.Next? && |ListOf(o.cache, k)| == n
            && (n < |keys| ==> Cached(o.cache, keys[n]) || !exists b :: Obtainable(o.cache, b, keys[n].dd))
  {
    hide Inv, ReadAhead, Cached, Obtainable;
    n := AheadStops(c, k, keys);
  }
}
