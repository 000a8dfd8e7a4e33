/** Every step of the cache keeps the invariant, and no step is fatal. */
module CacheSafety {
  import opened Basics
  import opened CacheState
  import opened CacheFrame
  import opened CacheSteps

  // ---- lists ----

  lemma DistinctTail(s: seq<nat>)
    requires s != [] && Distinct(s)
    ensures Distinct(s[1..]) && s[0] !in s[1..]
    ensures forall j :: j in s <==> j == s[0] || j in s[1..]
  {
    assert s == [s[0]] + s[1..];
  }

  lemma DistinctCons(x: nat, r: seq<nat>)
    requires x !in r && Distinct(r)
    ensures Distinct([x] + r)
    ensures forall j :: j in [x] + r <==> j == x || j in r
  {
  }

  lemma {:induction false} WithoutList(s: seq<nat>, i: nat)
    requires Distinct(s)
    ensures SameBut(s, Without(s, i), i) && i !in Without(s, i) && Distinct(Without(s, i))
  {
    hide Distinct;
    if s != [] {
      DistinctTail(s);
      if s[0] != i {
        WithoutList(s[1..], i);
        DistinctCons(s[0], Without(s[1..], i));
      }
    }
  }

  lemma AppendList(s: seq<nat>, i: nat)
    requires Distinct(s) && i !in s
    ensures SameBut(s, s + [i], i) && SameBut(s, [i] + s, i) && Distinct(s + [i]) && Distinct([i] + s)
  {
  }

  // ---- what the invariant says about one buffer and one task ----

  lemma BufferFacts(c: Cache, b: nat)
    requires Inv(c) && b < |c.bufs|
    ensures Row(c, b) && GroupOf(c, b) < |c.groups|
    ensures Distinct(c.lru) && Distinct(c.modified) && Distinct(c.sync)
    ensures c.bufs[b].waiters >= 0
    ensures c.bufs[b].waiters > 0 ==> Active(c, b) && c.bufs[b].state != Free
    ensures Active(c, b) && c.bufs[b].state == Empty ==> c.bufs[b].waiters > 0
    ensures b in c.tree ==> Suited(c, b, c.bufs[b].key)
    ensures forall j | j in c.tree && j != b && j < |c.bufs| && b in c.tree :: c.bufs[j].key != c.bufs[b].key
    ensures c.groups[GroupOf(c, b)].users >= 0
  {
    hide Active, Slot;
    GroupInRange(c, b);
  }

  lemma WaiterFacts(c: Cache, k: nat)
    requires Inv(c) && k in c.tasks && c.tasks[k].Waiting?
    ensures var b := c.tasks[k].b; b < |c.bufs| && c.bufs[b].waiters > 0 && Active(c, b) && c.bufs[b].state != Free
                                   && c.tasks[k].key == c.bufs[b].key
  {
    hide Active, Slot;
    var b := c.tasks[k].b;
    assert k in WaiterSet(c, b);
  }

  lemma OwnerFacts(c: Cache, k: nat, b: nat)
    requires Inv(c) && Has(c, k, b)
    ensures b < |c.bufs| && Active(c, b) && Suits(c.tasks[k], c.bufs[b].state)
  {
  }

  // ---- the shape that all steps have ----

  /** Buffer `b` becomes `buf`, its group's user count moves by `du`, and task `k` becomes `t`. */
  ghost function Change(c: Cache, b: nat, buf: Buffer, du: int, k: nat, t: Option<Task>,
                        lru: seq<nat>, modified: seq<nat>, sync: seq<nat>): Cache
    requires b < |c.bufs| && GroupOf(c, b) < |c.groups|
  {
    var g := GroupOf(c, b);
    Cache(c.maxBds, c.need, c.bufs[b := buf], c.groups[g := c.groups[g].(users := c.groups[g].users + du)],
          if InTree(buf.state) then c.tree + {b} else c.tree - {b}, lru, modified, sync,
          if t.Some? then c.tasks[k := t.value] else c.tasks - {k})
  }

  ghost predicate Owning(t: Option<Task>, j: nat) {
    t.Some? && Owns(t.value, j)
  }

  ghost function Sleeping(t: Option<Task>, b: nat): nat {
    if t.Some? && WaitsOn(t.value, b) then 1 else 0
  }

  ghost function UserCount(s: State): nat {
    if GroupUser(s) then 1 else 0
  }

  /** The lists change at `b` only, and hold it as its new state demands. */
  ghost predicate ListsFollow(c: Cache, b: nat, s: State, lru: seq<nat>, modified: seq<nat>, sync: seq<nat>) {
    && SameBut(c.lru, lru, b) && SameBut(c.modified, modified, b) && SameBut(c.sync, sync, b)
    && (b in lru <==> InLru(s)) && (b in modified <==> InModified(s)) && (b in sync <==> InSync(s))
  }

  /** Counters, ownership and waiting keys are as the new state and the new task demand. */
  ghost predicate TaskFollows(c: Cache, b: nat, buf: Buffer, du: int, k: nat, t: Option<Task>)
    requires b < |c.bufs|
  {
    var was := c.bufs[b];
    && buf.waiters == was.waiters - Waits(c, k, b) + Sleeping(t, b)
    && du == UserCount(buf.state) - UserCount(was.state) + Sleeping(t, b) - Waits(c, k, b)
    && (k in c.tasks && c.tasks[k].Waiting? ==> c.tasks[k].b == b)
    && (t.Some? && t.value.Waiting? ==> t.value.b == b && t.value.key == buf.key)
    && (buf.state == Empty ==> buf.waiters > 0) && (buf.waiters > 0 ==> buf.state != Free)
  }

  ghost predicate OwnerFollows(c: Cache, b: nat, s': State, k: nat, t: Option<Task>)
    requires b < |c.bufs|
  {
    var s := c.bufs[b].state;
    && (forall j: nat | j != b :: Owning(t, j) <==> Has(c, k, j))
    && (forall j: nat | j != b && Owning(t, j) :: k in c.tasks && c.tasks[k].Transferring? && t.value.Transferring?)
    && (Owning(t, b) ==> Suits(t.value, s'))
    && (t.Some? && t.value.Transferring? ==> Distinct(t.value.list))
    && (|| (Has(c, k, b) == OwnedState(s) && Owning(t, b) == OwnedState(s'))
        || (Has(c, k, b) == Owning(t, b) && Accessed(s) == Accessed(s') && InTransfer(s) == InTransfer(s')))
  }

  ghost predicate KeyKept(c: Cache, b: nat, buf: Buffer)
    requires b < |c.bufs|
  {
    buf.key == c.bufs[b].key && (InTree(buf.state) ==> b in c.tree)
  }

  ghost predicate KeyFresh(c: Cache, b: nat, key: Key)
    requires b < |c.bufs|
  {
    && c.bufs[b].waiters == 0 && Suited(c, b, key)
    && forall j | j in c.tree && j < |c.bufs| :: c.bufs[j].key != key
  }

  lemma ChangeLocal(c: Cache, b: nat, buf: Buffer, du: int, k: nat, t: Option<Task>, lru: seq<nat>, modified: seq<nat>, sync: seq<nat>)
    requires Inv(c) && Active(c, b) && ListsFollow(c, b, buf.state, lru, modified, sync)
    ensures b < |c.bufs| && GroupOf(c, b) < |c.groups|
    ensures var c' := Change(c, b, buf, du, k, t, lru, modified, sync); Local(c, c', b, k) && Row(c', b)
  {
    hide Slot, Lists, Keys, WaiterCounts, UserCounts, Awaited, Owners, WaitKeys;
    BufferFacts(c, b);
    hide Active;
    ActiveSame(c, Change(c, b, buf, du, k, t, lru, modified, sync), b, k);
  }

  lemma ChangeStep(c: Cache, b: nat, buf: Buffer, du: int, k: nat, t: Option<Task>, lru: seq<nat>, modified: seq<nat>, sync: seq<nat>)
    requires Inv(c) && Active(c, b) && ListsFollow(c, b, buf.state, lru, modified, sync)
    requires TaskFollows(c, b, buf, du, k, t) && OwnerFollows(c, b, buf.state, k, t)
    requires KeyKept(c, b, buf) || KeyFresh(c, b, buf.key)
    ensures b < |c.bufs| && GroupOf(c, b) < |c.groups|
    ensures Inv(Change(c, b, buf, du, k, t, lru, modified, sync))
  {
    hide Slot, Lists, Keys, WaiterCounts, UserCounts, Awaited, Owners, WaitKeys, Local, Row, ListsFollow;
    BufferFacts(c, b);
    ChangeLocal(c, b, buf, du, k, t, lru, modified, sync);
    var c' := Change(c, b, buf, du, k, t, lru, modified, sync);
    hide Active;
    ChangeOwners(c, b, buf, du, k, t, lru, modified, sync);
    ChangeKeys(c, b, buf, du, k, t, lru, modified, sync);
    hide OwnerFollows, KeyKept, KeyFresh, OwnershipFollows, KeyFollows;
    StepKeepsInv(c, c', b, k);
  }

  lemma ChangeOwners(c: Cache, b: nat, buf: Buffer, du: int, k: nat, t: Option<Task>, lru: seq<nat>, modified: seq<nat>, sync: seq<nat>)
    requires Inv(c) && b < |c.bufs| && GroupOf(c, b) < |c.groups| && OwnerFollows(c, b, buf.state, k, t)
    ensures OwnershipFollows(c, Change(c, b, buf, du, k, t, lru, modified, sync), b, k)
  {
    hide Active, Slot, Formed, Lists, Keys, WaiterCounts, UserCounts, Awaited, WaitKeys, GroupOf;
    var c' := Change(c, b, buf, du, k, t, lru, modified, sync);
    forall j: nat ensures Has(c', k, j) == Owning(t, j) {
    }
    if k in c'.tasks {
      forall j: nat | Owns(c'.tasks[k], j) && j < |c'.bufs| ensures Suits(c'.tasks[k], c'.bufs[j].state) {
        assert Owning(t, j);
        if j != b {
          assert Has(c, k, j);
          OwnerFacts(c, k, j);
        }
      }
    }
  }

  lemma ChangeKeys(c: Cache, b: nat, buf: Buffer, du: int, k: nat, t: Option<Task>, lru: seq<nat>, modified: seq<nat>, sync: seq<nat>)
    requires Inv(c) && b < |c.bufs| && GroupOf(c, b) < |c.groups|
    requires KeyKept(c, b, buf) || KeyFresh(c, b, buf.key)
    requires t.Some? && t.value.Waiting? ==> t.value.key == buf.key
    ensures KeyFollows(c, Change(c, b, buf, du, k, t, lru, modified, sync), b, k)
  {
    hide Active, Slot, Formed, Lists, WaiterCounts, UserCounts, Awaited, Owners, WaitKeys;
    var c' := Change(c, b, buf, du, k, t, lru, modified, sync);
    if b in c'.tree {
      assert GroupOf(c', b) == GroupOf(c, b);
      if KeyKept(c, b, buf) {
        assert Suited(c, b, buf.key);
      }
    }
  }

  // ---- obtaining a buffer ----

  /** `c` is `c0` with task `k` taken off whatever it waited on: either nothing or buffer `b`. */
  ghost predicate Prepared(c0: Cache, c: Cache, k: nat, b: nat) {
    && b < |c0.bufs| && GroupOf(c0, b) < |c0.groups|
    && c == (if k in c0.tasks then Unwait(c0, k, b) else c0)
    && (k in c0.tasks ==> c0.tasks[k].Waiting? && c0.tasks[k].b == b)
  }

  ghost function Before(c0: Cache, c: Cache, b: nat): Buffer
    requires b < |c0.bufs| && b < |c.bufs|
  {
    c0.bufs[b].(waiters := c.bufs[b].waiters)
  }

  lemma PreparedFacts(c0: Cache, c: Cache, k: nat, b: nat)
    requires Prepared(c0, c, k, b)
    ensures |c.bufs| == |c0.bufs| && |c.groups| == |c0.groups| && GroupOf(c, b) == GroupOf(c0, b)
    ensures c.bufs == c0.bufs[b := Before(c0, c, b)] && c.bufs[b].waiters == c0.bufs[b].waiters - Waits(c0, k, b)
    ensures var g := GroupOf(c, b); c.groups == c0.groups[g := c0.groups[g].(users := c0.groups[g].users - Waits(c0, k, b))]
    ensures c.tasks == c0.tasks - {k} && c.(bufs := [], groups := [], tasks := map[]) == c0.(bufs := [], groups := [], tasks := map[])
  {
    if k !in c0.tasks {
      assert c0.tasks - {k} == c0.tasks;
    }
  }

  /** Granting access to a buffer that is not in use. */
  lemma GrantIsChange(c0: Cache, c: Cache, k: nat, b: nat, du: int, s: State, t: Task, lru: seq<nat>, modified: seq<nat>)
    requires Prepared(c0, c, k, b) && b in c0.tree && InTree(s)
    ensures Change(c0, b, Before(c0, c, b).(state := s), du - Waits(c0, k, b), k, Some(t), lru, modified, c0.sync)
         == SetTask(SetState(AddUsers(c, b, du), b, s), k, t).(lru := lru, modified := modified)
  {
    PreparedFacts(c0, c, k, b);
    var x := Change(c0, b, Before(c0, c, b).(state := s), du - Waits(c0, k, b), k, Some(t), lru, modified, c0.sync);
    var y := SetTask(SetState(AddUsers(c, b, du), b, s), k, t).(lru := lru, modified := modified);
    assert x.bufs == y.bufs;
    assert x.groups == y.groups;
    assert x.tasks == y.tasks;
    assert x.tree == y.tree;
  }

  /** Whoever is granted a buffer becomes its only owner. */
  lemma GrantStep(c0: Cache, c: Cache, k: nat, b: nat, du: int, s: State, t: Task, lru: seq<nat>, modified: seq<nat>)
    requires Inv(c0) && Prepared(c0, c, k, b) && b in c0.tree
    requires (t == Holding(b) && Accessed(s)) || (t == Reading(b) && s == Transfer)
    requires !OwnedState(c0.bufs[b].state) && du == 1 - UserCount(c0.bufs[b].state)
    requires ListsFollow(c0, b, s, lru, modified, c0.sync)
    ensures Inv(SetTask(SetState(AddUsers(c, b, du), b, s), k, t).(lru := lru, modified := modified))
  {
    hide Slot, Lists, Keys, WaiterCounts, UserCounts, Awaited, Owners, WaitKeys, Change, ListsFollow, Unwait;
    BufferFacts(c0, b);
    hide Active;
    PreparedFacts(c0, c, k, b);
    GrantIsChange(c0, c, k, b, du, s, t, lru, modified);
    NotOwner(c0, k, b);
    ChangeStep(c0, b, Before(c0, c, b).(state := s), du - Waits(c0, k, b), k, Some(t), lru, modified, c0.sync);
  }

  /** Nobody owns a buffer that is not in an access or transfer state. */
  lemma NotOwner(c: Cache, k: nat, b: nat)
    requires Inv(c) && b < |c.bufs|
    ensures !OwnedState(c.bufs[b].state) ==> !Has(c, k, b)
  {
    hide Active;
    if Has(c, k, b) {
      OwnerFacts(c, k, b);
    }
  }

  lemma ModifiedGranted(c0: Cache, c: Cache, k: nat, b: nat, purpose: Purpose, key: Key)
    requires Inv(c0) && Prepared(c0, c, k, b) && b in c0.tree && c0.bufs[b].state == Modified
    ensures var o := Access(c, k, b, purpose, key); o.Next? && Inv(o.cache)
  {
    hide Slot, Lists, Keys, WaiterCounts, UserCounts, Awaited, Owners, WaitKeys, Inv, Active, SameBut, Distinct, Unwait;
    BufferFacts(c0, b);
    PreparedFacts(c0, c, k, b);
    WithoutList(c0.modified, b);
    ListSame(c0.lru, b);
    ListSame(c0.sync, b);
    var m := Without(c0.modified, b);
    GrantStep(c0, c, k, b, 0, AccessModified, Holding(b), c0.lru, m);
    var y := SetTask(SetState(AddUsers(c, b, 0), b, AccessModified), k, Holding(b)).(lru := c0.lru, modified := m);
    var c1 := AddUsers(AddUsers(c, b, -1).(modified := m), b, 1);
    assert c1.groups == AddUsers(c, b, 0).groups;
    assert Access(c, k, b, purpose, key) == Next(y);
  }

  lemma ListSame(s: seq<nat>, b: nat)
    ensures SameBut(s, s, b)
  {
  }

  lemma CachedGranted(c0: Cache, c: Cache, k: nat, b: nat, purpose: Purpose, key: Key)
    requires Inv(c0) && Prepared(c0, c, k, b) && b in c0.tree && c0.bufs[b].state == Cached
    ensures var o := Access(c, k, b, purpose, key); o.Next? && Inv(o.cache)
  {
    hide Slot, Lists, Keys, WaiterCounts, UserCounts, Awaited, Owners, WaitKeys, Inv, Active, SameBut, Distinct, Unwait;
    BufferFacts(c0, b);
    PreparedFacts(c0, c, k, b);
    WithoutList(c0.lru, b);
    ListSame(c0.modified, b);
    ListSame(c0.sync, b);
    var l := Without(c0.lru, b);
    GrantStep(c0, c, k, b, 1, AccessCached, Holding(b), l, c0.modified);
    var y := SetTask(SetState(AddUsers(c, b, 1), b, AccessCached), k, Holding(b)).(lru := l, modified := c0.modified);
    assert Access(c, k, b, purpose, key) == Next(y);
  }

  lemma EmptyGranted(c0: Cache, c: Cache, k: nat, b: nat, purpose: Purpose, key: Key)
    requires Inv(c0) && Prepared(c0, c, k, b) && b in c0.tree && c0.bufs[b].state == Empty
    ensures var o := Access(c, k, b, purpose, key); o.Next? && Inv(o.cache)
  {
    hide Slot, Lists, Keys, WaiterCounts, UserCounts, Awaited, Owners, WaitKeys, Inv, Active, SameBut, Distinct, Unwait;
    BufferFacts(c0, b);
    PreparedFacts(c0, c, k, b);
    ListSame(c0.lru, b);
    ListSame(c0.modified, b);
    ListSame(c0.sync, b);
    var s, t := if purpose == ForRead then Transfer else AccessEmpty, if purpose == ForRead then Reading(b) else Holding(b);
    GrantStep(c0, c, k, b, 1, s, t, c0.lru, c0.modified);
    var y := SetTask(SetState(AddUsers(c, b, 1), b, s), k, t).(lru := c0.lru, modified := c0.modified);
    assert Access(c, k, b, purpose, key) == Next(y);
  }

  lemma SleepIsChange(c0: Cache, c: Cache, k: nat, b: nat, purpose: Purpose, key: Key)
    requires Prepared(c0, c, k, b) && b in c0.tree && InTree(c0.bufs[b].state)
    ensures Wait(c, k, b, purpose, key)
         == Change(c0, b, c0.bufs[b].(waiters := c0.bufs[b].waiters - Waits(c0, k, b) + 1), 1 - Waits(c0, k, b), k,
                   Some(Waiting(b, purpose, key)), c0.lru, c0.modified, c0.sync)
  {
    PreparedFacts(c0, c, k, b);
    hide Unwait, Prepared;
    var x := Change(c0, b, c0.bufs[b].(waiters := c0.bufs[b].waiters - Waits(c0, k, b) + 1), 1 - Waits(c0, k, b), k,
                    Some(Waiting(b, purpose, key)), c0.lru, c0.modified, c0.sync);
    var y := Wait(c, k, b, purpose, key);
    assert x.bufs == y.bufs;
    assert x.groups == y.groups;
    assert x.tasks == y.tasks;
    assert x.tree == y.tree;
  }

  /** A task that owns nothing and goes to sleep still owns nothing. */
  lemma SleeperOwnsNothing(c: Cache, b: nat, k: nat, t: Task)
    requires b < |c.bufs| && t.Waiting? && forall j: nat :: !Has(c, k, j)
    ensures OwnerFollows(c, b, c.bufs[b].state, k, Some(t))
  {
  }

  lemma ListsStay(c: Cache, b: nat)
    requires b < |c.bufs| && Row(c, b) && Active(c, b)
    ensures ListsFollow(c, b, c.bufs[b].state, c.lru, c.modified, c.sync)
  {
    hide Active;
    ListSame(c.lru, b);
    ListSame(c.modified, b);
    ListSame(c.sync, b);
  }

  /** Going to sleep on a buffer in use. */
  lemma FallAsleep(c0: Cache, c: Cache, k: nat, b: nat, purpose: Purpose, key: Key)
    requires Inv(c0) && Prepared(c0, c, k, b) && b in c0.tree && key == c0.bufs[b].key
    requires OwnedState(c0.bufs[b].state) || c0.bufs[b].state == Sync
    requires forall j: nat :: !Has(c0, k, j)
    ensures Inv(Wait(c, k, b, purpose, key))
  {
    hide Slot, Inv, Active, Change, Wait, ListsFollow, OwnerFollows, Row, Unwait, Suited, Distinct;
    BufferFacts(c0, b);
    TreeIsActive(c0, b);
    ListsStay(c0, b);
    var t := Waiting(b, purpose, key);
    SleeperOwnsNothing(c0, b, k, t);
    SleepIsChange(c0, c, k, b, purpose, key);
    ChangeStep(c0, b, c0.bufs[b].(waiters := c0.bufs[b].waiters - Waits(c0, k, b) + 1), 1 - Waits(c0, k, b), k, Some(t),
               c0.lru, c0.modified, c0.sync);
  }

  lemma TreeIsActive(c: Cache, b: nat)
    requires b < |c.bufs| && Row(c, b) && b in c.tree
    ensures Active(c, b) && InTree(c.bufs[b].state)
  {
  }

  /** One turn of waiting for access is never fatal and keeps the invariant. */
  lemma AccessStep(c0: Cache, c: Cache, k: nat, b: nat, purpose: Purpose, key: Key)
    requires Inv(c0) && Prepared(c0, c, k, b) && b in c0.tree && key == c0.bufs[b].key
    ensures var o := Access(c, k, b, purpose, key); o.Next? && Inv(o.cache)
  {
    hide Slot, Lists, Keys, WaiterCounts, UserCounts, Awaited, Owners, WaitKeys, Inv, Active, Unwait, Grant, Wait;
    BufferFacts(c0, b);
    PreparedFacts(c0, c, k, b);
    match c0.bufs[b].state
    case Modified => ModifiedGranted(c0, c, k, b, purpose, key);
    case Cached => CachedGranted(c0, c, k, b, purpose, key);
    case Empty => EmptyGranted(c0, c, k, b, purpose, key);
    case _ => FallAsleep(c0, c, k, b, purpose, key);
  }

  // ---- giving a buffer back ----

  /** A step that starts and ends outside any wait, spelled out field by field. */
  lemma PlainStep(c: Cache, c': Cache, b: nat, s: State, dw: int, du: int, k: nat, t: Option<Task>,
                  lru: seq<nat>, modified: seq<nat>, sync: seq<nat>)
    requires Inv(c) && b in c.tree && b < |c.bufs|
    requires ListsFollow(c, b, s, lru, modified, sync)
    requires TaskFollows(c, b, c.bufs[b].(state := s, waiters := c.bufs[b].waiters + dw), du, k, t) && OwnerFollows(c, b, s, k, t)
    requires GroupOf(c, b) < |c.groups| ==>
             c' == Change(c, b, c.bufs[b].(state := s, waiters := c.bufs[b].waiters + dw), du, k, t, lru, modified, sync)
    ensures Inv(c')
  {
    hide Slot, Lists, Keys, WaiterCounts, UserCounts, Awaited, Owners, WaitKeys, Change, ListsFollow, TaskFollows, OwnerFollows;
    BufferFacts(c, b);
    ChangeStep(c, b, c.bufs[b].(state := s, waiters := c.bufs[b].waiters + dw), du, k, t, lru, modified, sync);
  }

  lemma HeldBuffer(c: Cache, k: nat, b: nat)
    requires Inv(c) && Has(c, k, b) && !c.tasks[k].Transferring?
    ensures b < |c.bufs| && b in c.tree && b !in c.lru && b !in c.modified && b !in c.sync && GroupOf(c, b) < |c.groups|
    ensures Distinct(c.lru) && Distinct(c.modified) && Distinct(c.sync)
    ensures OwnedState(c.bufs[b].state) && Suits(c.tasks[k], c.bufs[b].state)
    ensures c.bufs[b].waiters >= 0
    ensures forall j: nat :: Has(c, k, j) <==> j == b
  {
    hide Active;
    OwnerFacts(c, k, b);
    BufferFacts(c, b);
  }

  lemma CachedAgain(c: Cache, k: nat, b: nat)
    requires Inv(c) && k in c.tasks && c.tasks[k] == Holding(b) && b < |c.bufs| && c.bufs[b].state == AccessCached
    ensures Inv(EndTask(ToCached(c, b), k))
  {
    hide Active, Slot, Formed, Inv, Distinct, SameBut;
    HeldBuffer(c, k, b);
    AppendList(c.lru, b);
    ListSame(c.modified, b);
    ListSame(c.sync, b);
    var c' := EndTask(ToCached(c, b), k);
    var x := Change(c, b, c.bufs[b].(state := Cached), -1, k, None, c.lru + [b], c.modified, c.sync);
    assert x.bufs == c'.bufs && x.groups == c'.groups && x.tasks == c'.tasks && x.tree == c'.tree;
    PlainStep(c, c', b, Cached, 0, -1, k, None, c.lru + [b], c.modified, c.sync);
  }

  lemma MadeModified(c: Cache, k: nat, b: nat)
    requires Inv(c) && k in c.tasks && (c.tasks[k] == Holding(b) || c.tasks[k] == Releasing(b)) && b < |c.bufs|
    ensures Inv(ToModified(c, k, b))
  {
    hide Active, Slot, Formed, Inv, Distinct, SameBut;
    HeldBuffer(c, k, b);
    AppendList(c.modified, b);
    ListSame(c.lru, b);
    ListSame(c.sync, b);
    var c' := ToModified(c, k, b);
    var x := Change(c, b, c.bufs[b].(state := Modified), 0, k, None, c.lru, c.modified + [b], c.sync);
    assert x.bufs == c'.bufs && x.groups == c'.groups && x.tasks == c'.tasks && x.tree == c'.tree;
    PlainStep(c, c', b, Modified, 0, 0, k, None, c.lru, c.modified + [b], c.sync);
  }

  lemma HeldBack(c: Cache, k: nat, b: nat)
    requires Inv(c) && k in c.tasks && c.tasks[k] == Holding(b) && b < |c.bufs|
    ensures Inv(SetTask(c, k, Releasing(b)))
  {
    hide Active, Slot, Formed, Inv, Distinct, SameBut;
    HeldBuffer(c, k, b);
    ListSame(c.lru, b);
    ListSame(c.modified, b);
    ListSame(c.sync, b);
    var c' := SetTask(c, k, Releasing(b));
    var x := Change(c, b, c.bufs[b], 0, k, Some(Releasing(b)), c.lru, c.modified, c.sync);
    assert x.bufs == c'.bufs && x.groups == c'.groups && x.tasks == c'.tasks && x.tree == c'.tree;
    PlainStep(c, c', b, c.bufs[b].state, 0, 0, k, Some(Releasing(b)), c.lru, c.modified, c.sync);
  }

  /** Discarding a buffer, once it is off the lists, is a change whatever becomes of the task. */
  lemma DiscardIsChange(c: Cache, b: nat, du: int, k: nat, t: Option<Task>, lru: seq<nat>, modified: seq<nat>, sync: seq<nat>)
    requires b < |c.bufs| && GroupOf(c, b) < |c.groups| && b in c.tree
    ensures var c1 := Discard(AddUsers(c, b, du).(lru := lru, modified := modified, sync := sync), b);
            var c' := if t.Some? then SetTask(c1, k, t.value) else EndTask(c1, k);
            var free := c.bufs[b].waiters == 0;
            c' == Change(c, b, c.bufs[b].(state := if free then Free else Empty), du, k, t, if free then [b] + lru else lru, modified, sync)
  {
    var free := c.bufs[b].waiters == 0;
    var c1 := Discard(AddUsers(c, b, du).(lru := lru, modified := modified, sync := sync), b);
    var c' := if t.Some? then SetTask(c1, k, t.value) else EndTask(c1, k);
    var x := Change(c, b, c.bufs[b].(state := if free then Free else Empty), du, k, t, if free then [b] + lru else lru, modified, sync);
    assert x.bufs == c'.bufs && x.groups == c'.groups && x.tasks == c'.tasks && x.tree == c'.tree;
  }

  /** The list is `s` without `b`. */
  ghost predicate Off(s: seq<nat>, s': seq<nat>, b: nat) {
    SameBut(s, s', b) && b !in s' && Distinct(s')
  }

  lemma OffList(s: seq<nat>, b: nat)
    requires Distinct(s)
    ensures Off(s, Without(s, b), b) && (b !in s ==> Off(s, s, b))
  {
    hide Without;
    WithoutList(s, b);
  }

  lemma OffThenFirst(s: seq<nat>, s': seq<nat>, b: nat)
    requires Off(s, s', b)
    ensures SameBut(s, [b] + s', b) && SameBut(s, s' + [b], b)
  {
    AppendList(s', b);
  }

  ghost predicate NoWaiting(c: Cache, k: nat, t: Option<Task>) {
    (k in c.tasks ==> !c.tasks[k].Waiting?) && (t.Some? ==> !t.value.Waiting?)
  }

  /** Discarding a buffer that the task, if any owned it, gives up. */
  lemma DiscardStep(c: Cache, b: nat, du: int, k: nat, t: Option<Task>, lru: seq<nat>, modified: seq<nat>, sync: seq<nat>)
    requires Inv(c) && b < |c.bufs| && b in c.tree
    requires Off(c.lru, lru, b) && Off(c.modified, modified, b) && Off(c.sync, sync, b)
    requires du == 0 - UserCount(c.bufs[b].state) && NoWaiting(c, k, t) && OwnerFollows(c, b, Free, k, t)
    ensures var c1 := Discard(AddUsers(c, b, du).(lru := lru, modified := modified, sync := sync), b);
            Inv(if t.Some? then SetTask(c1, k, t.value) else EndTask(c1, k))
  {
    hide Active, Slot, Formed, Inv, Distinct, SameBut, Change, Discard;
    BufferFacts(c, b);
    OffThenFirst(c.lru, lru, b);
    DiscardIsChange(c, b, du, k, t, lru, modified, sync);
    var free := c.bufs[b].waiters == 0;
    var s, l := if free then Free else Empty, if free then [b] + lru else lru;
    assert ListsFollow(c, b, s, l, modified, sync);
    PlainStep(c, Change(c, b, c.bufs[b].(state := s), du, k, t, l, modified, sync), b, s, 0, du, k, t, l, modified, sync);
  }

  lemma Discarded(c: Cache, k: nat, b: nat)
    requires Inv(c) && k in c.tasks && (c.tasks[k] == Holding(b) || c.tasks[k] == Reading(b)) && b < |c.bufs|
    ensures Inv(DiscardAfterAccess(c, k, b))
  {
    hide Active, Slot, Formed, Inv, Distinct, SameBut, Discard;
    HeldBuffer(c, k, b);
    OffList(c.lru, b);
    OffList(c.modified, b);
    OffList(c.sync, b);
    DiscardStep(c, b, -1, k, None, c.lru, c.modified, c.sync);
    var c1 := AddUsers(c, b, -1);
    assert c1.(lru := c.lru, modified := c.modified, sync := c.sync) == c1;
  }

  // ---- sync ----

  lemma QueuedIsChange(c: Cache, k: nat, b: nat)
    requires b < |c.bufs| && b in c.tree && GroupOf(c, b) < |c.groups|
    ensures var t := Waiting(b, ForSync, c.bufs[b].key);
            Wait(SetState(c, b, Sync).(sync := c.sync + [b]), k, b, ForSync, c.bufs[b].key)
            == Change(c, b, c.bufs[b].(state := Sync, waiters := c.bufs[b].waiters + 1), 1, k, Some(t), c.lru, c.modified, c.sync + [b])
  {
    var t := Waiting(b, ForSync, c.bufs[b].key);
    var y := Wait(SetState(c, b, Sync).(sync := c.sync + [b]), k, b, ForSync, c.bufs[b].key);
    var x := Change(c, b, c.bufs[b].(state := Sync, waiters := c.bufs[b].waiters + 1), 1, k, Some(t), c.lru, c.modified, c.sync + [b]);
    assert x.bufs == y.bufs && x.groups == y.groups && x.tasks == y.tasks && x.tree == y.tree;
  }

  lemma Queued(c: Cache, k: nat, b: nat)
    requires Inv(c) && k in c.tasks && c.tasks[k] == Holding(b) && b < |c.bufs|
    ensures Inv(Wait(SetState(c, b, Sync).(sync := c.sync + [b]), k, b, ForSync, c.bufs[b].key))
  {
    hide Active, Slot, Inv, Distinct, SameBut, Wait, Change;
    HeldBuffer(c, k, b);
    AppendList(c.sync, b);
    ListSame(c.lru, b);
    ListSame(c.modified, b);
    QueuedIsChange(c, k, b);
    PlainStep(c, Wait(SetState(c, b, Sync).(sync := c.sync + [b]), k, b, ForSync, c.bufs[b].key), b, Sync, 1, 1, k,
              Some(Waiting(b, ForSync, c.bufs[b].key)), c.lru, c.modified, c.sync + [b]);
  }

  /** The waiting is over: the thread leaves, and a buffer that it leaves empty becomes free. */
  lemma WaitEnds(c0: Cache, k: nat, b: nat)
    requires Inv(c0) && k in c0.tasks && c0.tasks[k].Waiting? && c0.tasks[k].b == b && b < |c0.bufs|
    requires c0.bufs[b].state == Empty ==> c0.bufs[b].waiters > 1
    ensures Inv(Unwait(c0, k, b))
  {
    hide Active, Slot, Formed, Inv, Distinct, SameBut;
    WaiterFacts(c0, k);
    BufferFacts(c0, b);
    ListSame(c0.lru, b);
    ListSame(c0.modified, b);
    ListSame(c0.sync, b);
    var s := c0.bufs[b].state;
    var c' := Unwait(c0, k, b);
    var x := Change(c0, b, c0.bufs[b].(state := s, waiters := c0.bufs[b].waiters - 1), -1, k, None, c0.lru, c0.modified, c0.sync);
    assert x.bufs == c'.bufs && x.groups == c'.groups && x.tasks == c'.tasks && x.tree == c'.tree;
    PlainStep(c0, c', b, s, -1, -1, k, None, c0.lru, c0.modified, c0.sync);
  }

  lemma LastWaiterFrees(c0: Cache, k: nat, b: nat)
    requires Inv(c0) && k in c0.tasks && c0.tasks[k].Waiting? && c0.tasks[k].b == b && b < |c0.bufs|
    requires c0.bufs[b].state == Empty && c0.bufs[b].waiters == 1
    ensures var c := Unwait(c0, k, b); Inv(SetState(c, b, Free).(tree := c.tree - {b}, lru := [b] + c.lru))
  {
    hide Active, Slot, Formed, Inv, Distinct, SameBut;
    WaiterFacts(c0, k);
    BufferFacts(c0, b);
    AppendList(c0.lru, b);
    ListSame(c0.modified, b);
    ListSame(c0.sync, b);
    var c := Unwait(c0, k, b);
    var c' := SetState(c, b, Free).(tree := c.tree - {b}, lru := [b] + c.lru);
    var x := Change(c0, b, c0.bufs[b].(state := Free, waiters := c0.bufs[b].waiters - 1), -1, k, None, [b] + c0.lru, c0.modified, c0.sync);
    assert x.bufs == c'.bufs && x.groups == c'.groups && x.tasks == c'.tasks && x.tree == c'.tree;
    PlainStep(c0, c', b, Free, -1, -1, k, None, [b] + c0.lru, c0.modified, c0.sync);
  }

  /** One turn of waiting for a sync is never fatal, and ends the wait exactly if the buffer is done, or purged. */
  lemma SyncDoneStep(c0: Cache, k: nat)
    requires Inv(c0) && k in c0.tasks && c0.tasks[k].Waiting?
    ensures var b := c0.tasks[k].b;
            && b < |c0.bufs|
            && var o := SyncDone(Unwait(c0, k, b), k, b);
               && o.Next? && Inv(o.cache)
               && if NotWritten(c0.bufs[b].state) then k in o.cache.tasks && o.cache.tasks[k] == Waiting(b, ForSync, c0.bufs[b].key)
                  else k !in o.cache.tasks
  {
    WaiterFacts(c0, k);
    SyncDoneLeaves(c0, k, c0.tasks[k].b);
    hide Active, Slot, Formed, Inv, Lists, Keys, WaiterCounts, UserCounts, Awaited, Owners, WaitKeys, Wait;
    var b := c0.tasks[k].b;
    BufferFacts(c0, b);
    var c := Unwait(c0, k, b);
    assert Prepared(c0, c, k, b);
    PreparedFacts(c0, c, k, b);
    match c0.bufs[b].state
    case Sync => FallAsleep(c0, c, k, b, ForSync, c0.bufs[b].key);
    case Transfer => FallAsleep(c0, c, k, b, ForSync, c0.bufs[b].key);
    case TransferPurged => FallAsleep(c0, c, k, b, ForSync, c0.bufs[b].key);
    case Empty =>
      if c0.bufs[b].waiters == 1 {
        LastWaiterFrees(c0, k, b);
      } else {
        WaitEnds(c0, k, b);
      }
    case _ => WaitEnds(c0, k, b);
  }

  /** A sync is not done as long as the buffer waits to be written or is on its way. */
  predicate NotWritten(s: State) {
    s == Sync || s == Transfer || s == TransferPurged
  }

  lemma SyncDoneLeaves(c: Cache, k: nat, b: nat)
    requires b < |c.bufs| && SyncDone(Unwait(c, k, b), k, b).Next?
    ensures var c' := SyncDone(Unwait(c, k, b), k, b).cache;
            if NotWritten(c.bufs[b].state) then k in c'.tasks && c'.tasks[k] == Waiting(b, ForSync, c.bufs[b].key) else k !in c'.tasks
  {
    hide GroupOf;
  }
}
