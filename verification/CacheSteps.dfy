/**
 The lock-held steps of the block buffer cache.  Each function does what one critical section does, up
 to the point where the thread releases the lock or waits.  A step that reaches a fatal error of the
 original yields `Fatal`.
 */
module CacheSteps {
  import opened Basics
  import opened BlockOrder
  import opened CacheState

  datatype Outcome = Next(cache: Cache) | Fatal {
    predicate IsFailure() { Fatal? }
    function PropagateFailure(): Outcome requires Fatal? { Fatal }
    function Extract(): Cache requires Next? { cache }
  }

  // ---- small operations ----

  /** `list_del`. Taking a descriptor off a list it is not on follows null links, so the steps below call it fatal. */
  function Without(s: seq<nat>, i: nat): seq<nat> {
    if s == [] then [] else if s[0] == i then s[1..] else [s[0]] + Without(s[1..], i)
  }

  function SetState(c: Cache, i: nat, s: State): Cache
    requires i < |c.bufs|
  {
    c.(bufs := c.bufs[i := c.bufs[i].(state := s)])
  }

  function AddUsers(c: Cache, i: nat, n: int): Cache {
    var g := GroupOf(c, i);
    if g < |c.groups| then c.(groups := c.groups[g := c.groups[g].(users := c.groups[g].users + n)]) else c
  }

  function AddWaiters(c: Cache, i: nat, n: int): Cache
    requires i < |c.bufs|
  {
    c.(bufs := c.bufs[i := c.bufs[i].(waiters := c.bufs[i].waiters + n)])
  }

  function SetTask(c: Cache, k: nat, t: Task): Cache {
    c.(tasks := c.tasks[k := t])
  }

  function EndTask(c: Cache, k: nat): Cache {
    c.(tasks := c.tasks - {k})
  }

  /** `rtems_bdbuf_wait`: the thread sleeps on a buffer. */
  function Wait(c: Cache, k: nat, b: nat, purpose: Purpose, key: Key): Cache
    requires b < |c.bufs|
  {
    SetTask(AddWaiters(AddUsers(c, b, 1), b, 1), k, Waiting(b, purpose, key))
  }

  /** The thread has the lock again and no longer counts as a waiter. */
  function Unwait(c: Cache, k: nat, b: nat): Cache
    requires b < |c.bufs|
  {
    EndTask(AddUsers(AddWaiters(c, b, -1), b, -1), k)
  }

  /** `rtems_bdbuf_discard_buffer`. */
  function Discard(c: Cache, b: nat): Cache
    requires b < |c.bufs|
  {
    var c1 := SetState(c, b, Empty);
    if c1.bufs[b].waiters == 0 then
      SetState(c1, b, Free).(tree := c1.tree - {b}, lru := [b] + c1.lru)
    else c1
  }

  // ---- obtaining a buffer ----

  /** The end of `rtems_bdbuf_get` and of `rtems_bdbuf_read`, once the buffer is accessible. */
  function Grant(c: Cache, k: nat, b: nat, purpose: Purpose): Outcome
    requires b < |c.bufs|
  {
    var c1 := AddUsers(c, b, 1);
    match c1.bufs[b].state
    case Cached => Next(SetTask(SetState(c1, b, AccessCached), k, Holding(b)))
    case Modified => Next(SetTask(SetState(c1, b, AccessModified), k, Holding(b)))
    case Empty =>
      if purpose == ForRead then Next(SetTask(SetState(c1, b, Transfer), k, Reading(b)))
      else Next(SetTask(SetState(c1, b, AccessEmpty), k, Holding(b)))
    case _ => Fatal
  }

  /** One turn of `rtems_bdbuf_wait_for_access`: grant, or sleep. */
  function Access(c: Cache, k: nat, b: nat, purpose: Purpose, key: Key): Outcome
    requires b < |c.bufs|
  {
    match c.bufs[b].state
    case Modified => if b !in c.modified then Fatal else Grant(AddUsers(c, b, -1).(modified := Without(c.modified, b)), k, b, purpose)
    case Cached => if b !in c.lru then Fatal else Grant(c.(lru := Without(c.lru, b)), k, b, purpose)
    case Empty => Grant(c, k, b, purpose)
    case Free => Fatal
    case _ => Next(Wait(c, k, b, purpose, key))
  }

  /** The tree look-up. */
  ghost function Find(c: Cache, key: Key): Option<nat> {
    if exists i: nat :: i in c.tree && i < |c.bufs| && c.bufs[i].key == key then
      var i: nat :| i in c.tree && i < |c.bufs| && c.bufs[i].key == key; Some(i)
    else None
  }

  /** Nobody waits for the buffer, and it has the right size or its whole group is idle. */
  predicate Usable(c: Cache, b: nat, dd: nat) {
    && b < |c.bufs| && c.bufs[b].waiters == 0 && GroupOf(c, b) < |c.groups| && dd < |c.need|
    && (c.groups[GroupOf(c, b)].bdsPerGroup == c.need[dd] || c.groups[GroupOf(c, b)].users == 0)
  }

  /** The first usable buffer of the LRU list. */
  function FirstUsable(c: Cache, list: seq<nat>, dd: nat): (r: Option<nat>)
    ensures r.Some? ==> r.value in list && Usable(c, r.value, dd)
    ensures r.None? ==> forall b | b in list :: !Usable(c, b, dd)
  {
    if list == [] then None else if Usable(c, list[0], dd) then Some(list[0]) else FirstUsable(c, list[1..], dd)
  }

  /** Nothing that comes before the chosen buffer is usable: the least recently used one is recycled. */
  lemma {:induction false} LeastRecentlyUsed(c: Cache, list: seq<nat>, dd: nat) returns (i: nat)
    requires FirstUsable(c, list, dd).Some?
    ensures i < |list| && list[i] == FirstUsable(c, list, dd).value && forall j | 0 <= j < i :: !Usable(c, list[j], dd)
  {
    hide Usable;
    if Usable(c, list[0], dd) {
      i := 0;
    } else {
      var i' := LeastRecentlyUsed(c, list[1..], dd);
      i := i' + 1;
    }
  }

  /** `rtems_bdbuf_remove_from_tree_and_lru_list`. */
  function TakeFromLru(c: Cache, b: nat): Outcome
    requires b < |c.bufs|
  {
    var c1 := c.(lru := Without(c.lru, b));
    if b !in c.lru then Fatal
    else
      match c.bufs[b].state
      case Free => Next(c1)
      case Cached => Next(c1.(tree := c.tree - {b}))
      case _ => Fatal
  }

  /** `rtems_bdbuf_setup_empty_buffer`. */
  ghost function Setup(c: Cache, b: nat, key: Key): Outcome
    requires b < |c.bufs|
  {
    if Find(c, key).Some? then Fatal
    else Next(c.(tree := c.tree + {b}, bufs := c.bufs[b := Buffer(Empty, key, 0)]))
  }

  // ---- group reallocation ----

  /** The first `n` descriptors of a group, `step` apart, the last one first: each was prepended. */
  function Slots(first: nat, step: nat, n: nat): seq<nat> {
    if n == 0 then [] else [first + (n - 1) * step] + Slots(first, step, n - 1)
  }

  function OutsideGroup(c: Cache, list: seq<nat>, g: nat): seq<nat> {
    if list == [] then []
    else (if GroupOf(c, list[0]) == g then [] else [list[0]]) + OutsideGroup(c, list[1..], g)
  }

  /**
   `rtems_bdbuf_group_realloc`: the old buffers of an idle group leave the tree and the LRU list, the new
   ones enter it as free. The caller takes the first of these off the list again at once.
   */
  function Realloc(c: Cache, g: nat, n: nat): Cache
    requires 1 <= n <= c.maxBds && g < |c.groups|
  {
    c.(bufs := seq(|c.bufs|, i requires 0 <= i < |c.bufs| =>
                     if GroupOf(c, i) == g && Slot(c.maxBds, n, i % c.maxBds) then c.bufs[i].(state := Free) else c.bufs[i]),
       groups := c.groups[g := c.groups[g].(bdsPerGroup := n)],
       tree := (set i | i in c.tree && GroupOf(c, i) != g :: i),
       lru := Slots(g * c.maxBds, c.maxBds / n, n) + OutsideGroup(c, c.lru, g))
  }

  /** Every buffer of the group is on the LRU list, in a state that allows to take it off. */
  ghost predicate GroupIdle(c: Cache, g: nat) {
    forall i | 0 <= i < |c.bufs| && GroupOf(c, i) == g && Active(c, i) :: i in c.lru && InLru(c.bufs[i].state)
  }

  /** `rtems_bdbuf_get_buffer_from_lru_list`: where the next buffer comes from, unless that is a fatal error. */
  datatype Source = NoBuffer | Source(cache: Cache, b: nat) | Broken

  ghost function FromLru(c: Cache, dd: nat): (r: Source)
    ensures r.Source? ==> |r.cache.bufs| == |c.bufs|
  {
    match FirstUsable(c, c.lru, dd)
    case None => NoBuffer
    case Some(b) =>
      var g := GroupOf(c, b);
      if c.groups[g].bdsPerGroup == c.need[dd] then Source(c, b)
      else if GroupIdle(c, g) && 1 <= c.need[dd] <= c.maxBds then Source(Realloc(c, g, c.need[dd]), g * c.maxBds)
      else Broken
  }

  ghost function Recycle(c: Cache, b: nat, key: Key): Outcome {
    if b >= |c.bufs| then Fatal
    else
      var c1 :- TakeFromLru(c, b);
      Setup(c1, b, key)
  }

  /**
   `rtems_bdbuf_get_buffer_for_access` from its look-up to the point where the thread has the buffer or
   sleeps. A buffer of the wrong size, which a changed block size would leave behind, is not modelled.
   */
  ghost function TryGet(c: Cache, k: nat, purpose: Purpose, key: Key): Outcome {
    match Find(c, key)
    case Some(b) => if Suited(c, b, key) then Access(c, k, b, purpose, key) else Fatal
    case None =>
      match FromLru(c, key.dd)
      case NoBuffer => Next(SetTask(c, k, WaitingForBuffer(purpose, key)))
      case Broken => Fatal
      case Source(c0, b) =>
        var c1 :- Recycle(c0, b, key);
        if b >= |c1.bufs| then Fatal else Access(c1, k, b, purpose, key)
  }

  /**
   `rtems_bdbuf_get_buffer_for_read_ahead`: one more buffer for a read-ahead transfer, unless the block is
   in the cache already or no buffer is to be had.
   */
  ghost function ReadAheadOne(c: Cache, k: nat, key: Key): Outcome {
    if Find(c, key).Some? then Next(c)
    else
      match FromLru(c, key.dd)
      case NoBuffer => Next(c)
      case Broken => Fatal
      case Source(c0, b) =>
        var c1 :- Recycle(c0, b, key);
        if b >= |c1.bufs| then Fatal
        else Next(SetTask(SetState(AddUsers(c1, b, 1), b, Transfer), k, Transferring(ListOf(c1, k) + [b])))
  }

  /** The read-ahead task collects buffers for consecutive blocks until it fails to get one. */
  ghost function ReadAhead(c: Cache, k: nat, keys: seq<Key>): Outcome
    decreases |keys|
  {
    if keys == [] then Next(c)
    else
      var c1 :- ReadAheadOne(c, k, keys[0]);
      if ListOf(c1, k) == ListOf(c, k) then Next(c1) else ReadAhead(c1, k, keys[1..])
  }

  // ---- giving a buffer back ----

  /** `rtems_bdbuf_add_to_modified_list_after_access`, once no sync of the device is active. */
  function ToModified(c: Cache, k: nat, b: nat): Cache
    requires b < |c.bufs|
  {
    EndTask(SetState(c, b, Modified).(modified := c.modified + [b]), k)
  }

  function ToCached(c: Cache, b: nat): Cache
    requires b < |c.bufs|
  {
    SetState(AddUsers(c, b, -1), b, Cached).(lru := c.lru + [b])
  }

  function DiscardAfterAccess(c: Cache, k: nat, b: nat): Cache
    requires b < |c.bufs|
  {
    EndTask(Discard(AddUsers(c, b, -1), b), k)
  }

  /**
   `rtems_bdbuf_release`. While a sync of the device is active (`syncing`), a modified buffer is held back
   without the lock.
   */
  function Release(c: Cache, k: nat, b: nat, syncing: bool): Outcome
    requires b < |c.bufs|
  {
    match c.bufs[b].state
    case AccessCached => Next(EndTask(ToCached(c, b), k))
    case AccessEmpty => Next(DiscardAfterAccess(c, k, b))
    case AccessPurged => Next(DiscardAfterAccess(c, k, b))
    case AccessModified => if syncing then Next(SetTask(c, k, Releasing(b))) else Next(ToModified(c, k, b))
    case _ => Fatal
  }

  /** `rtems_bdbuf_release_modified`. */
  function ReleaseModified(c: Cache, k: nat, b: nat, syncing: bool): Outcome
    requires b < |c.bufs|
  {
    match c.bufs[b].state
    case AccessPurged => Next(DiscardAfterAccess(c, k, b))
    case AccessCached => if syncing then Next(SetTask(c, k, Releasing(b))) else Next(ToModified(c, k, b))
    case AccessEmpty => if syncing then Next(SetTask(c, k, Releasing(b))) else Next(ToModified(c, k, b))
    case AccessModified => if syncing then Next(SetTask(c, k, Releasing(b))) else Next(ToModified(c, k, b))
    case _ => Fatal
  }

  /** `rtems_bdbuf_sync`: queue the buffer and sleep until it is written. */
  function SyncBuffer(c: Cache, k: nat, b: nat): Outcome
    requires b < |c.bufs|
  {
    match c.bufs[b].state
    case AccessPurged => Next(DiscardAfterAccess(c, k, b))
    case AccessCached => Next(Wait(SetState(c, b, Sync).(sync := c.sync + [b]), k, b, ForSync, c.bufs[b].key))
    case AccessEmpty => Next(Wait(SetState(c, b, Sync).(sync := c.sync + [b]), k, b, ForSync, c.bufs[b].key))
    case AccessModified => Next(Wait(SetState(c, b, Sync).(sync := c.sync + [b]), k, b, ForSync, c.bufs[b].key))
    case _ => Fatal
  }

  /** One turn of `rtems_bdbuf_wait_for_sync_done`, and what follows it. */
  function SyncDone(c: Cache, k: nat, b: nat): Outcome
    requires b < |c.bufs|
  {
    match c.bufs[b].state
    case Free => Fatal
    case Sync => Next(Wait(c, k, b, ForSync, c.bufs[b].key))
    case Transfer => Next(Wait(c, k, b, ForSync, c.bufs[b].key))
    case TransferPurged => Next(Wait(c, k, b, ForSync, c.bufs[b].key))
    case Empty =>
      if c.bufs[b].waiters == 0 then Next(SetState(c, b, Free).(tree := c.tree - {b}, lru := [b] + c.lru)) else Next(c)
    case _ => Next(c)
  }

  // ---- transfers ----

  /** What a finished transfer does to one of its buffers. */
  function Transferred(c: Cache, b: nat, ok: bool): Cache
    requires b < |c.bufs|
  {
    if ok && c.bufs[b].state == Transfer then ToCached(c, b) else Discard(AddUsers(c, b, -1), b)
  }

  /** `rtems_bdbuf_read` after its transfer: the state of the buffer is not looked at again. */
  function ReadDone(c: Cache, k: nat, b: nat, ok: bool): Outcome
    requires b < |c.bufs|
  {
    var c1 := Transferred(c, b, ok);
    if !ok then Next(EndTask(c1, k))
    else if b !in c1.lru then Fatal
    else Next(SetTask(AddUsers(SetState(c1, b, AccessCached).(lru := Without(c1.lru, b)), b, 1), k, Holding(b)))
  }

  function ListOf(c: Cache, k: nat): seq<nat> {
    if k in c.tasks && c.tasks[k].Transferring? then c.tasks[k].list else []
  }

  /** The first buffer on a transfer list is done. */
  function FirstTransferred(c: Cache, k: nat, ok: bool): Outcome {
    var list := ListOf(c, k);
    if list == [] || list[0] >= |c.bufs| then Fatal
    else
      var c1 := Transferred(c, list[0], ok);
      Next(if |list| == 1 then EndTask(c1, k) else SetTask(c1, k, Transferring(list[1..])))
  }

  /** A request of `n` buffers, off the front of a transfer list, is done. */
  function RequestDone(c: Cache, k: nat, n: nat, ok: bool): Outcome
    decreases n
  {
    if n == 0 then Next(c)
    else
      var c1 :- FirstTransferred(c, k, ok);
      RequestDone(c1, k, n - 1, ok)
  }

  /** The block of a buffer, by which a transfer list is ordered. */
  function BlockOf(c: Cache): nat -> int {
    (i: nat) => if i < |c.bufs| then c.bufs[i].key.block else 0
  }

  /** Swap-out moves a modified or sync buffer to its transfer list. */
  function GatherOne(c: Cache, k: nat, b: nat): Outcome {
    if b >= |c.bufs| then Fatal
    else
      var c1 := SetTask(SetState(c, b, Transfer), k, Transferring(Place(BlockOf(c), ListOf(c, k), b)));
      match c.bufs[b].state
      case Modified => if b !in c.modified then Fatal else Next(c1.(modified := Without(c.modified, b)))
      case Sync => if b !in c.sync then Fatal else Next(c1.(sync := Without(c.sync, b)))
      case _ => Fatal
  }

  function Gather(c: Cache, k: nat, picks: seq<nat>): Outcome
    decreases |picks|
  {
    if picks == [] then Next(c)
    else
      var c1 :- GatherOne(c, k, picks[0]);
      Gather(c1, k, picks[1..])
  }

  // ---- purge ----

  /** What the purge of a device does to one of its buffers in the tree. */
  function PurgeOne(c: Cache, b: nat): Outcome {
    if b >= |c.bufs| then Fatal
    else
      match c.bufs[b].state
      case Sync => if b !in c.sync then Fatal else Next(Discard(AddUsers(c, b, -1).(sync := Without(c.sync, b)), b))
      case Modified => if b !in c.modified then Fatal else Next(Discard(AddUsers(c, b, -1).(modified := Without(c.modified, b)), b))
      case Cached => if b !in c.lru then Fatal else Next(Discard(c.(lru := Without(c.lru, b)), b))
      case Transfer => Next(SetState(c, b, TransferPurged))
      case AccessCached => Next(SetState(c, b, AccessPurged))
      case AccessEmpty => Next(SetState(c, b, AccessPurged))
      case AccessModified => Next(SetState(c, b, AccessPurged))
      case _ => Next(c)
  }

  /** Purges the buffers of a device in the order in which the tree walk meets them. */
  function Purge(c: Cache, order: seq<nat>): Outcome
    decreases |order|
  {
    if order == [] then Next(c)
    else
      var c1 :- PurgeOne(c, order[0]);
      Purge(c1, order[1..])
  }
}
