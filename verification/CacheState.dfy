/**
 The shared state of the block buffer cache while its lock is free: buffer descriptors, groups, the
 lists, the set of descriptors in the tree, and what every thread is in the middle of.
 */
module CacheState {
  import opened Basics

  datatype State =
    | Free | Empty | Cached
    | AccessCached | AccessModified | AccessEmpty | AccessPurged
    | Modified | Sync | Transfer | TransferPurged

  datatype Buffer = Buffer(state: State, key: Key, waiters: int)

  datatype Group = Group(bdsPerGroup: nat, users: int)

  datatype Purpose = ForGet | ForRead | ForSync

  /** What a thread does while it does not hold the lock. A thread may own buffers or wait on one. */
  datatype Task =
    | Waiting(b: nat, purpose: Purpose, key: Key)
    | WaitingForBuffer(purpose: Purpose, key: Key)
    | Reading(b: nat)
    | Holding(b: nat)
    | Releasing(b: nat)
    | Transferring(list: seq<nat>)

  /**
   `maxBds` descriptors belong to a group; `need` gives the descriptors per group that the block size
   of a device asks for.
   */
  datatype Cache = Cache(
    maxBds: nat, need: seq<nat>,
    bufs: seq<Buffer>, groups: seq<Group>, tree: set<nat>,
    lru: seq<nat>, modified: seq<nat>, sync: seq<nat>,
    tasks: map<nat, Task>)

  // ---- the state table ----

  predicate InTree(s: State) { s != Free }

  predicate InLru(s: State) { s == Free || s == Cached }

  predicate InModified(s: State) { s == Modified }

  predicate InSync(s: State) { s == Sync }

  predicate Accessed(s: State) { s == AccessCached || s == AccessModified || s == AccessEmpty || s == AccessPurged }

  predicate InTransfer(s: State) { s == Transfer || s == TransferPurged }

  predicate GroupUser(s: State) { Accessed(s) || InTransfer(s) || s == Modified || s == Sync }

  // ---- groups ----

  function GroupOf(c: Cache, i: nat): nat {
    if c.maxBds == 0 then 0 else i / c.maxBds
  }

  /** Descriptors of a group in use come `maxBds / bdsPerGroup` apart. */
  predicate Slot(maxBds: nat, bdsPerGroup: nat, b: nat) {
    && 1 <= bdsPerGroup <= maxBds
    && var step := maxBds / bdsPerGroup;
       step > 0 && b % step == 0 && b / step < bdsPerGroup
  }

  ghost predicate Formed(c: Cache) {
    && c.maxBds > 0 && |c.bufs| == c.maxBds * |c.groups|
    && (forall g | 0 <= g < |c.groups| :: 1 <= c.groups[g].bdsPerGroup <= c.maxBds)
    && (forall d | 0 <= d < |c.need| :: 1 <= c.need[d] <= c.maxBds)
  }

  lemma GroupInRange(c: Cache, i: nat)
    requires Formed(c) && i < |c.bufs|
    ensures GroupOf(c, i) < |c.groups|
  {
    DivBound(i, c.maxBds, |c.groups|);
  }

  lemma DivBound(i: nat, m: nat, n: nat)
    requires 0 < m && i < m * n
    ensures i / m < n
  {
  }

  /** The descriptor stands for a buffer in the current layout of its group. */
  predicate Active(c: Cache, i: nat) {
    && i < |c.bufs| && c.maxBds > 0 && GroupOf(c, i) < |c.groups|
    && Slot(c.maxBds, c.groups[GroupOf(c, i)].bdsPerGroup, i % c.maxBds)
  }

  // ---- tasks ----

  ghost predicate WaitsOn(t: Task, i: nat) {
    t.Waiting? && t.b == i
  }

  ghost predicate Owns(t: Task, i: nat) {
    match t
    case Reading(b) => b == i
    case Holding(b) => b == i
    case Releasing(b) => b == i
    case Transferring(list) => i in list
    case _ => false
  }

  /** A task owns buffers of the right kind only. */
  ghost predicate Suits(t: Task, s: State) {
    match t
    case Reading(_) => InTransfer(s)
    case Transferring(_) => InTransfer(s)
    case _ => Accessed(s)
  }

  ghost predicate Distinct(s: seq<nat>) {
    forall i, j | 0 <= i < j < |s| :: s[i] != s[j]
  }

  // ---- the invariant ----

  /** Descriptor `i` is where its row of the state table says. */
  ghost predicate Row(c: Cache, i: nat)
    requires i < |c.bufs|
  {
    var s := c.bufs[i].state;
    && (i in c.tree <==> Active(c, i) && InTree(s))
    && (i in c.lru <==> Active(c, i) && InLru(s))
    && (i in c.modified <==> Active(c, i) && InModified(s))
    && (i in c.sync <==> Active(c, i) && InSync(s))
  }

  ghost predicate Lists(c: Cache) {
    && (forall i | 0 <= i < |c.bufs| :: Row(c, i))
    && Distinct(c.lru) && Distinct(c.modified) && Distinct(c.sync)
    && (forall i | i in c.tree || i in c.lru || i in c.modified || i in c.sync :: i < |c.bufs|)
  }

  /** No two descriptors in the tree have the same key, and each suits its device. */
  ghost predicate Keys(c: Cache) {
    && (forall i, j | i in c.tree && j in c.tree && i != j && i < |c.bufs| && j < |c.bufs| :: c.bufs[i].key != c.bufs[j].key)
    && (forall i | i in c.tree && i < |c.bufs| :: Suited(c, i, c.bufs[i].key))
  }

  predicate Suited(c: Cache, i: nat, key: Key) {
    && key.dd < |c.need| && GroupOf(c, i) < |c.groups|
    && c.groups[GroupOf(c, i)].bdsPerGroup == c.need[key.dd]
  }

  ghost function WaiterSet(c: Cache, i: nat): set<nat> {
    set k | k in c.tasks && WaitsOn(c.tasks[k], i)
  }

  ghost function GroupWaiters(c: Cache, g: nat): set<nat> {
    set k | k in c.tasks && c.tasks[k].Waiting? && GroupOf(c, c.tasks[k].b) == g
  }

  ghost function GroupUsers(c: Cache, g: nat): set<nat> {
    set i | 0 <= i < |c.bufs| && GroupOf(c, i) == g && Active(c, i) && GroupUser(c.bufs[i].state)
  }

  /** Every waiter counter is the number of threads waiting on the buffer. */
  ghost predicate WaiterCounts(c: Cache) {
    forall i | 0 <= i < |c.bufs| :: c.bufs[i].waiters == |WaiterSet(c, i)|
  }

  /** Every user counter is the number of buffers in user states plus the number of waiting threads. */
  ghost predicate UserCounts(c: Cache) {
    forall g | 0 <= g < |c.groups| :: c.groups[g].users == |GroupUsers(c, g)| + |GroupWaiters(c, g)|
  }

  /**
   A buffer that someone waits on is in use and not free; an empty one has a waiter. A descriptor outside
   the layout of its group keeps the state that it left the LRU list with.
   */
  ghost predicate Awaited(c: Cache) {
    forall i | 0 <= i < |c.bufs| ::
      && (c.bufs[i].waiters > 0 ==> Active(c, i) && c.bufs[i].state != Free)
      && (Active(c, i) && c.bufs[i].state == Empty ==> c.bufs[i].waiters > 0)
      && (!Active(c, i) ==> InLru(c.bufs[i].state))
  }

  ghost predicate OwnedState(s: State) {
    Accessed(s) || InTransfer(s)
  }

  ghost predicate Has(c: Cache, k: nat, i: nat) {
    k in c.tasks && Owns(c.tasks[k], i)
  }

  ghost predicate OwnersSuit(c: Cache) {
    forall k, i: nat | Has(c, k, i) :: i < |c.bufs| && Active(c, i) && Suits(c.tasks[k], c.bufs[i].state)
  }

  ghost predicate OneOwner(c: Cache) {
    forall k, k', i: nat | Has(c, k, i) && Has(c, k', i) :: k == k'
  }

  ghost predicate Owned(c: Cache, i: nat) {
    exists k :: Has(c, k, i)
  }

  ghost predicate AllOwned(c: Cache) {
    forall i | 0 <= i < |c.bufs| && Active(c, i) && OwnedState(c.bufs[i].state) :: Owned(c, i)
  }

  /** Exactly the buffers in access and transfer states have an owner, and only one. */
  ghost predicate Owners(c: Cache) {
    && OwnersSuit(c) && OneOwner(c) && AllOwned(c)
    && (forall k | k in c.tasks && c.tasks[k].Transferring? :: Distinct(c.tasks[k].list))
  }

  /** A thread that waits to get or read a block waits on a descriptor of that very block. */
  ghost predicate WaitKeys(c: Cache) {
    forall k | k in c.tasks && c.tasks[k].Waiting? ::
      c.tasks[k].b < |c.bufs| && c.tasks[k].key == c.bufs[c.tasks[k].b].key
  }

  ghost predicate Inv(c: Cache) {
    && Formed(c) && Lists(c) && Keys(c) && WaiterCounts(c) && UserCounts(c) && Awaited(c) && Owners(c) && WaitKeys(c)
  }
}
