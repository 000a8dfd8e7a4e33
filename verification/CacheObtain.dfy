/** Getting and reading a block: from the look-up to the grant, nothing is fatal. */
module CacheObtain {
  import opened Arithmetic
  import opened Basics
  import opened CacheState
  import opened CacheSteps
  import opened CacheSafety
  import opened CacheRecycle
  import opened CacheRealloc

  // ---- a buffer from the LRU list ----

  /** The buffer may be recycled for a block of device `dd` that is in nobody's buffer. */
  ghost predicate Recyclable(c: Cache, b: nat, key: Key) {
    b < |c.bufs| && b in c.lru && c.bufs[b].waiters == 0 && Suited(c, b, key) && Find(c, key) == None
  }

  /** A buffer from the LRU list comes from a cache that is in order, re-sliced or not, and suits the device. */
  lemma FromLruFacts(c: Cache, key: Key)
    requires Inv(c) && Find(c, key) == None
    ensures var r := FromLru(c, key.dd);
            && !r.Broken?
            && (r.Source? ==> Inv(r.cache) && Recyclable(r.cache, r.b, key) && r.cache.tasks == c.tasks)
  {
    hide Inv, Realloc, GroupIdle, Suited, Find;
    var first := FirstUsable(c, c.lru, key.dd);
    if first.Some? {
      var b := first.value;
      var g, n := GroupOf(c, b), c.need[key.dd];
      Needs(c, key.dd);
      if c.groups[g].bdsPerGroup == n {
        SuitedHere(c, b, key);
      } else {
        ReallocStep(c, g, n);
        ReallocFacts(c, g, key);
      }
    }
  }

  lemma Needs(c: Cache, dd: nat)
    requires Inv(c) && dd < |c.need|
    ensures 1 <= c.need[dd] <= c.maxBds
  {
    hide Lists, Keys, WaiterCounts, UserCounts, Awaited, Owners, WaitKeys;
  }

  lemma SuitedHere(c: Cache, b: nat, key: Key)
    requires key.dd < |c.need| && GroupOf(c, b) < |c.groups| && c.groups[GroupOf(c, b)].bdsPerGroup == c.need[key.dd]
    ensures Suited(c, b, key)
  {
  }

  lemma ReallocFacts(c: Cache, g: nat, key: Key)
    requires Inv(c) && g < |c.groups| && c.groups[g].users == 0 && key.dd < |c.need| && 1 <= c.need[key.dd] <= c.maxBds
    requires Find(c, key) == None
    ensures Recyclable(Realloc(c, g, c.need[key.dd]), g * c.maxBds, key)
    ensures Realloc(c, g, c.need[key.dd]).tasks == c.tasks
  {
    var n := c.need[key.dd];
    var c', b := Realloc(c, g, n), g * c.maxBds;
    ReallocFirst(c, g, n);
    hide Inv, Active, Slot, Slots, OutsideGroup;
    FoundNone(c, key);
    FoundNone(c', key);
  }

  lemma ReallocFirst(c: Cache, g: nat, n: nat)
    requires Inv(c) && g < |c.groups| && c.groups[g].users == 0 && 1 <= n <= c.maxBds
    ensures var c', b := Realloc(c, g, n), g * c.maxBds;
            b < |c.bufs| && GroupOf(c, b) == g && b in c'.lru && c'.bufs[b].waiters == 0
  {
    hide Lists, Keys, WaiterCounts, UserCounts, Awaited, Owners, WaitKeys, Active, Slots, OutsideGroup;
    var b := g * c.maxBds;
    DivMod(g, c.maxBds, 0);
    InGroup(c, g, b);
    NobodyWaits(c, g);
    StepFits(c.maxBds, n);
    DistinctLists(c);
    NewLru(c, g, n);
  }

  lemma DistinctLists(c: Cache)
    requires Inv(c)
    ensures Distinct(c.lru)
  {
    hide Active, Slot;
  }

  // ---- obtaining a buffer ----

  lemma FoundSome(c: Cache, key: Key)
    requires Inv(c) && Find(c, key).Some?
    ensures var b := Find(c, key).value; b in c.tree && b < |c.bufs| && c.bufs[b].key == key && Suited(c, b, key)
  {
    hide Active, Slot, Suited;
  }

  /** The task is granted the block it wants, or sleeps for it. */
  ghost predicate Obtained(c: Cache, k: nat, key: Key) {
    && k in c.tasks
    && match c.tasks[k]
       case Holding(b) => b < |c.bufs| && c.bufs[b].key == key
       case Reading(b) => b < |c.bufs| && c.bufs[b].key == key
       case Waiting(b, _, key') => b < |c.bufs| && c.bufs[b].key == key && key' == key
       case WaitingForBuffer(_, key') => key' == key
       case _ => false
  }

  lemma AccessObtains(c: Cache, k: nat, b: nat, purpose: Purpose, key: Key)
    requires b < |c.bufs| && c.bufs[b].key == key
    ensures var o := Access(c, k, b, purpose, key); o.Next? ==> Obtained(o.cache, k, key)
  {
    hide Grant, Wait;
    GrantObtains(c, k, b, purpose, key);
    GrantObtains(c.(lru := Without(c.lru, b)), k, b, purpose, key);
    GrantObtains(AddUsers(c, b, -1).(modified := Without(c.modified, b)), k, b, purpose, key);
    WaitObtains(c, k, b, purpose, key);
  }

  lemma GrantObtains(c: Cache, k: nat, b: nat, purpose: Purpose, key: Key)
    requires b < |c.bufs| && c.bufs[b].key == key
    ensures var o := Grant(c, k, b, purpose); o.Next? ==> Obtained(o.cache, k, key)
  {
  }

  lemma WaitObtains(c: Cache, k: nat, b: nat, purpose: Purpose, key: Key)
    requires b < |c.bufs| && c.bufs[b].key == key
    ensures Obtained(Wait(c, k, b, purpose, key), k, key)
  {
  }

  /** Getting or reading a block is never fatal, keeps the invariant, and yields a buffer of that very block. */
  lemma TryGetStep(c: Cache, k: nat, purpose: Purpose, key: Key)
    requires Inv(c) && k !in c.tasks
    ensures var o := TryGet(c, k, purpose, key); o.Next? && Inv(o.cache) && Obtained(o.cache, k, key)
  {
    hide Inv, Suited, Find, Access, FromLru, Recycle;
    if Find(c, key).Some? {
      FoundSome(c, key);
      var b := Find(c, key).value;
      InRange(c, b);
      AccessStep(c, c, k, b, purpose, key);
      AccessObtains(c, k, b, purpose, key);
    } else {
      FromLruFacts(c, key);
      var r := FromLru(c, key.dd);
      if r.NoBuffer? {
        IdleTask(c, SetTask(c, k, WaitingForBuffer(purpose, key)), k);
      } else {
        Recycled(r.cache, k, r.b, purpose, key);
      }
    }
  }

  lemma InRange(c: Cache, b: nat)
    requires Inv(c) && b < |c.bufs|
    ensures GroupOf(c, b) < |c.groups|
  {
    hide Lists, Keys, WaiterCounts, UserCounts, Awaited, Owners, WaitKeys;
    GroupInRange(c, b);
  }

  lemma Recycled(c: Cache, k: nat, b: nat, purpose: Purpose, key: Key)
    requires Inv(c) && k !in c.tasks && Recyclable(c, b, key)
    ensures var o := Recycle(c, b, key);
            && o.Next? && |o.cache.bufs| == |c.bufs|
            && var o' := Access(o.cache, k, b, purpose, key); o'.Next? && Inv(o'.cache) && Obtained(o'.cache, k, key)
  {
    hide Inv, Suited, Find, Recycle;
    var s, t := if purpose == ForRead then Transfer else AccessEmpty, if purpose == ForRead then Reading(b) else Holding(b);
    RecycleStep(c, k, b, key, s, t);
    var c1 := Recycle(c, b, key).cache;
    assert Access(c1, k, b, purpose, key) == Next(SetTask(SetState(AddUsers(c1, b, 1), b, s), k, t));
  }

  // ---- waking up ----

  /** A thread that waited for any buffer starts over. */
  lemma RetryStep(c: Cache, k: nat)
    requires Inv(c) && k in c.tasks && c.tasks[k].WaitingForBuffer?
    ensures var t := c.tasks[k];
            var o := TryGet(EndTask(c, k), k, t.purpose, t.key); o.Next? && Inv(o.cache) && Obtained(o.cache, k, t.key)
  {
    hide Inv, TryGet;
    var t := c.tasks[k];
    IdleTask(c, EndTask(c, k), k);
    TryGetStep(EndTask(c, k), k, t.purpose, t.key);
  }

  /** A thread that waited for one buffer looks at its state again. */
  lemma AccessAgainStep(c: Cache, k: nat)
    requires Inv(c) && k in c.tasks && c.tasks[k].Waiting?
    ensures var t := c.tasks[k];
            && t.b < |c.bufs|
            && var o := Access(Unwait(c, k, t.b), k, t.b, t.purpose, t.key);
               o.Next? && Inv(o.cache) && Obtained(o.cache, k, t.key)
  {
    hide Inv, Access, Unwait, Active;
    WaiterFacts(c, k);
    var t := c.tasks[k];
    BufferFacts(c, t.b);
    var c1 := Unwait(c, k, t.b);
    assert Prepared(c, c1, k, t.b);
    PreparedFacts(c, c1, k, t.b);
    AccessStep(c, c1, k, t.b, t.purpose, t.key);
    AccessObtains(c1, k, t.b, t.purpose, t.key);
  }

  // ---- read-ahead ----

  ghost predicate Collecting(c: Cache, k: nat) {
    k in c.tasks ==> c.tasks[k].Transferring?
  }

  /** One more buffer for a read-ahead, or none, is never fatal. */
  lemma ReadAheadOneStep(c: Cache, k: nat, key: Key)
    requires Inv(c) && Collecting(c, k)
    ensures var o := ReadAheadOne(c, k, key); o.Next? && Inv(o.cache) && Collecting(o.cache, k)
  {
    hide Inv, Find, FromLru, Recycle, Recyclable;
    if Find(c, key).None? {
      FromLruFacts(c, key);
      var r := FromLru(c, key.dd);
      if r.Source? {
        AheadStep(r.cache, k, r.b, key);
      }
    }
  }

  lemma AheadStep(c: Cache, k: nat, b: nat, key: Key)
    requires Inv(c) && Collecting(c, k) && Recyclable(c, b, key)
    ensures var o := Recycle(c, b, key);
            && o.Next? && |o.cache.bufs| == |c.bufs| && b < |c.bufs| && o.cache.tasks == c.tasks
            && Inv(SetTask(SetState(AddUsers(o.cache, b, 1), b, Transfer), k, Transferring(ListOf(o.cache, k) + [b])))
  {
    hide Inv, Suited, Find;
    RecycleStep(c, k, b, key, Transfer, Transferring(ListOf(c, k) + [b]));
  }
}
