/** Finding a buffer to recycle, and re-slicing idle groups, keep the invariant. */
module CacheRecycle {
  import opened Basics
  import opened CacheState
  import opened CacheFrame
  import opened CacheSteps
  import opened CacheSafety

  // ---- tasks that neither wait on a buffer nor own one ----

  ghost predicate Idle(t: Task) {
    t.WaitingForBuffer?
  }

  /** Only task `k` differs between the caches, and it is idle in both. */
  ghost predicate IdleChange(c: Cache, c': Cache, k: nat) {
    && c' == c.(tasks := c'.tasks)
    && (k in c.tasks ==> Idle(c.tasks[k])) && (k in c'.tasks ==> Idle(c'.tasks[k]))
    && (forall k' | k' != k :: k' in c'.tasks <==> k' in c.tasks)
    && (forall k' | k' != k && k' in c.tasks :: c'.tasks[k'] == c.tasks[k'])
  }

  lemma IdleTask(c: Cache, c': Cache, k: nat)
    requires Inv(c) && IdleChange(c, c', k)
    ensures Inv(c')
  {
    hide Slot, Active, IdleChange, Formed, Lists, Keys, WaiterCounts, UserCounts, Awaited, WaitKeys, Owners;
    IdleTables(c, c', k);
    IdleWaiters(c, c', k);
    IdleUsers(c, c', k);
    IdleOwners(c, c', k);
  }

  lemma IdleTables(c: Cache, c': Cache, k: nat)
    requires Inv(c) && IdleChange(c, c', k)
    ensures Formed(c') && Lists(c') && Keys(c') && Awaited(c') && WaitKeys(c')
  {
    SameTable(c, c');
    hide Slot, Active, Owners, WaiterCounts, UserCounts;
    forall j | 0 <= j < |c'.bufs| ensures Row(c', j) {
      assert Row(c, j);
    }
    forall i | i in c'.tree && i < |c'.bufs| ensures Suited(c', i, c'.bufs[i].key) {
      assert Suited(c, i, c.bufs[i].key);
    }
  }

  lemma IdleWaiters(c: Cache, c': Cache, k: nat)
    requires Inv(c) && IdleChange(c, c', k)
    ensures WaiterCounts(c')
  {
    hide Slot, Active, Owners, Lists, Keys, UserCounts, Awaited, WaitKeys, Formed;
    forall i ensures WaiterSet(c', i) == WaiterSet(c, i) {
    }
  }

  lemma IdleUsers(c: Cache, c': Cache, k: nat)
    requires Inv(c) && IdleChange(c, c', k)
    ensures UserCounts(c')
  {
    SameTable(c, c');
    hide Slot, Active, Owners, Lists, Keys, WaiterCounts, Awaited, WaitKeys, Formed, GroupUser;
    forall g ensures GroupWaiters(c', g) == GroupWaiters(c, g) {
    }
    forall g ensures GroupUsers(c', g) == GroupUsers(c, g) {
    }
  }

  lemma SameTable(c: Cache, c': Cache)
    requires c' == c.(tasks := c'.tasks)
    ensures forall i: nat :: Active(c', i) == Active(c, i)
  {
  }

  lemma IdleOwners(c: Cache, c': Cache, k: nat)
    requires Inv(c) && IdleChange(c, c', k)
    ensures Owners(c')
  {
    hide Slot, Active, Lists, Keys, WaiterCounts, UserCounts, Awaited, WaitKeys, Formed;
    SameTable(c, c');
    forall k', i: nat ensures Has(c', k', i) <==> Has(c, k', i) {
    }
    forall i | 0 <= i < |c'.bufs| && Active(c', i) && OwnedState(c'.bufs[i].state) ensures Owned(c', i) {
      assert Owned(c, i);
      var k' :| Has(c, k', i);
      assert Has(c', k', i);
    }
  }

  // ---- taking a buffer off the LRU list for a new block ----

  lemma LruBuffer(c: Cache, b: nat)
    requires Inv(c) && b in c.lru
    ensures b < |c.bufs| && Active(c, b) && GroupOf(c, b) < |c.groups|
    ensures c.bufs[b].state == Free || c.bufs[b].state == Cached
    ensures b in c.tree <==> c.bufs[b].state == Cached
    ensures forall k :: !Has(c, k, b)
    ensures c.bufs[b].waiters == 0 ==> forall k :: Waits(c, k, b) == 0
  {
    hide Active, Slot;
    assert b < |c.bufs|;
    BufferFacts(c, b);
    forall k ensures !Has(c, k, b) {
      if Has(c, k, b) {
        OwnerFacts(c, k, b);
      }
    }
    if c.bufs[b].waiters == 0 {
      forall k ensures Waits(c, k, b) == 0 {
        if Waits(c, k, b) == 1 {
          WaiterFacts(c, k);
        }
      }
    }
  }

  /** The new owner of a recycled buffer: a caller, a read, or a read-ahead that goes on collecting. */
  ghost predicate NewOwner(c: Cache, k: nat, b: nat, s: State, t: Task) {
    || (k !in c.tasks && s == AccessEmpty && t == Holding(b))
    || (k !in c.tasks && s == Transfer && t == Reading(b))
    || ((k in c.tasks ==> c.tasks[k].Transferring?) && s == Transfer && t == Transferring(ListOf(c, k) + [b]))
  }

  lemma NewOwnerFollows(c: Cache, k: nat, b: nat, s: State, t: Task)
    requires Inv(c) && b in c.lru && b < |c.bufs| && NewOwner(c, k, b, s, t)
    ensures OwnerFollows(c, b, s, k, Some(t))
  {
    hide Active, Slot;
    LruBuffer(c, b);
    if t.Transferring? {
      var list := ListOf(c, k);
      assert !Has(c, k, b);
      assert b !in list;
      AppendList(list, b);
    }
  }

  lemma RecycleStep(c: Cache, k: nat, b: nat, key: Key, s: State, t: Task)
    requires Inv(c) && b in c.lru && b < |c.bufs| && c.bufs[b].waiters == 0 && Suited(c, b, key) && Find(c, key) == None
    requires NewOwner(c, k, b, s, t)
    ensures var o := Recycle(c, b, key);
            && o.Next? && |o.cache.bufs| == |c.bufs| && o.cache.bufs[b] == Buffer(Empty, key, 0) && o.cache.tasks == c.tasks
            && Inv(SetTask(SetState(AddUsers(o.cache, b, 1), b, s), k, t))
  {
    hide Active, Slot, Formed, Lists, Keys, WaiterCounts, UserCounts, Awaited, Owners, WaitKeys, Distinct, SameBut, Without, Inv, Find;
    LruBuffer(c, b);
    BufferFacts(c, b);
    NewOwnerFollows(c, k, b, s, t);
    OffList(c.lru, b);
    OffList(c.modified, b);
    OffList(c.sync, b);
    FoundNone(c, key);
    var l := Without(c.lru, b);
    var buf := Buffer(s, key, 0);
    assert KeyFresh(c, b, key);
    OthersNotFound(c, b, key, l);
    var c1 := Recycle(c, b, key).cache;
    var c' := SetTask(SetState(AddUsers(c1, b, 1), b, s), k, t);
    RecycleIsChange(c, c1, k, b, key, s, t);
    ChangeStep(c, b, buf, 1, k, Some(t), l, c.modified, c.sync);
  }

  lemma FoundNone(c: Cache, key: Key)
    ensures Find(c, key) == None <==> forall j | j in c.tree && j < |c.bufs| :: c.bufs[j].key != key
  {
  }

  lemma OthersNotFound(c: Cache, b: nat, key: Key, l: seq<nat>)
    requires b < |c.bufs| && Find(c, key) == None && b in c.lru && l == Without(c.lru, b)
    requires c.bufs[b].state == Free || c.bufs[b].state == Cached
    requires b in c.tree <==> c.bufs[b].state == Cached
    ensures Recycle(c, b, key) == Next(c.(lru := l, tree := c.tree + {b}, bufs := c.bufs[b := Buffer(Empty, key, 0)]))
  {
    var c1 := TakeFromLru(c, b).cache;
    FoundNone(c, key);
    FoundNone(c1, key);
    assert c1.tree + {b} == c.tree + {b};
  }

  lemma RecycleIsChange(c: Cache, c1: Cache, k: nat, b: nat, key: Key, s: State, t: Task)
    requires b < |c.bufs| && GroupOf(c, b) < |c.groups| && InTree(s)
    requires c1 == c.(lru := Without(c.lru, b), tree := c.tree + {b}, bufs := c.bufs[b := Buffer(Empty, key, 0)])
    ensures SetTask(SetState(AddUsers(c1, b, 1), b, s), k, t)
         == Change(c, b, Buffer(s, key, 0), 1, k, Some(t), Without(c.lru, b), c.modified, c.sync)
  {
    var c' := SetTask(SetState(AddUsers(c1, b, 1), b, s), k, t);
    var x := Change(c, b, Buffer(s, key, 0), 1, k, Some(t), Without(c.lru, b), c.modified, c.sync);
    assert x.bufs == c'.bufs && x.groups == c'.groups && x.tasks == c'.tasks && x.tree == c'.tree;
  }
}
