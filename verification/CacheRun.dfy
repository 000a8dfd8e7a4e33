/**
 Whole runs of the block buffer cache: any number of threads get, read, release and sync blocks while the
 swap-out, read-ahead and purge work on them, in any order of their lock-held steps.
 */
module CacheRun {
  import opened Arithmetic
  import opened Basics
  import opened CacheState
  import opened CacheSteps
  import opened CacheSafety
  import opened CacheTransfers
  import opened CacheObtain

  /** One lock-held step. The thread `k` of a waking step had been waiting before. */
  datatype Event =
    | Get(k: nat, key: Key)
    | Read(k: nat, key: Key)
    | Retry(k: nat)
    | AccessAgain(k: nat)
    | SyncAgain(k: nat)
    | ReadEnds(k: nat, ok: bool)
    | Releases(k: nat, syncing: bool)
    | ReleasesModified(k: nat, syncing: bool)
    | FinishRelease(k: nat)
    | Syncs(k: nat)
    | ReadAheadStarts(k: nat, keys: seq<Key>)
    | SwapOut(k: nat, picks: seq<nat>)
    | RequestEnds(k: nat, n: nat, ok: bool)
    | PurgeDevice(dd: nat, order: seq<nat>)

  /**
   What the threads may do. Callers give back only what they hold, a purge meets the device's buffers in
   the order of the tree, and no read succeeds on a buffer that was purged in the meantime.
   */
  ghost predicate Enabled(c: Cache, e: Event) {
    match e
    case Get(k, key) => k !in c.tasks
    case Read(k, key) => k !in c.tasks
    case Retry(k) => k in c.tasks && c.tasks[k].WaitingForBuffer?
    case AccessAgain(k) => k in c.tasks && c.tasks[k].Waiting? && c.tasks[k].purpose != ForSync
    case SyncAgain(k) => k in c.tasks && c.tasks[k].Waiting? && c.tasks[k].purpose == ForSync
    case ReadEnds(k, ok) =>
      k in c.tasks && c.tasks[k].Reading? && (ok && c.tasks[k].b < |c.bufs| ==> c.bufs[c.tasks[k].b].state == Transfer)
    case Releases(k, _) => k in c.tasks && c.tasks[k].Holding?
    case ReleasesModified(k, _) => k in c.tasks && c.tasks[k].Holding?
    case FinishRelease(k) => k in c.tasks && c.tasks[k].Releasing?
    case Syncs(k) => k in c.tasks && c.tasks[k].Holding?
    case ReadAheadStarts(k, keys) => k !in c.tasks
    case SwapOut(k, picks) => k !in c.tasks && Distinct(picks) && forall b | b in picks :: b in c.modified || b in c.sync
    case RequestEnds(k, n, ok) => k in c.tasks && c.tasks[k].Transferring? && n <= |c.tasks[k].list|
    case PurgeDevice(dd, order) =>
      Distinct(order) && forall b :: b in order <==> b in c.tree && b < |c.bufs| && c.bufs[b].key.dd == dd
  }

  ghost function BufferOf(c: Cache, k: nat): nat {
    if k !in c.tasks then 0
    else
      match c.tasks[k]
      case Waiting(b, _, _) => b
      case Reading(b) => b
      case Holding(b) => b
      case Releasing(b) => b
      case _ => 0
  }

  ghost function Step(c: Cache, e: Event): Outcome
    requires Enabled(c, e)
  {
    match e
    case Get(k, key) => TryGet(c, k, ForGet, key)
    case Read(k, key) => TryGet(c, k, ForRead, key)
    case Retry(k) => TryGet(EndTask(c, k), k, c.tasks[k].purpose, c.tasks[k].key)
    case ReadAheadStarts(k, keys) => ReadAhead(c, k, keys)
    case SwapOut(k, picks) => Gather(c, k, picks)
    case RequestEnds(k, n, ok) => RequestDone(c, k, n, ok)
    case PurgeDevice(_, order) => Purge(c, order)
    case _ => if BufferOf(c, e.k) >= |c.bufs| then Fatal else BufferStep(c, e)
  }

  /** The steps that concern the buffer of one task. */
  ghost function BufferStep(c: Cache, e: Event): Outcome
    requires Enabled(c, e) && !e.PurgeDevice? && BufferOf(c, e.k) < |c.bufs|
  {
    var b := BufferOf(c, e.k);
    match e
    case AccessAgain(k) => Access(Unwait(c, k, b), k, b, c.tasks[k].purpose, c.tasks[k].key)
    case SyncAgain(k) => SyncDone(Unwait(c, k, b), k, b)
    case ReadEnds(k, ok) => ReadDone(c, k, b, ok)
    case Releases(k, syncing) => Release(c, k, b, syncing)
    case ReleasesModified(k, syncing) => ReleaseModified(c, k, b, syncing)
    case FinishRelease(k) => Next(ToModified(c, k, b))
    case Syncs(k) => SyncBuffer(c, k, b)
    case _ => Next(c)
  }

  // ---- giving a buffer back ----

  lemma HeldInRange(c: Cache, k: nat, b: nat)
    requires Inv(c) && k in c.tasks && (c.tasks[k] == Holding(b) || c.tasks[k] == Releasing(b) || c.tasks[k] == Reading(b))
    ensures b < |c.bufs| && (!c.tasks[k].Reading? ==> Accessed(c.bufs[b].state))
  {
    hide Active, Slot;
    assert Has(c, k, b);
    OwnerFacts(c, k, b);
  }

  /** Releasing, releasing as modified, and syncing a buffer that one holds is never fatal. */
  lemma ReleaseSteps(c: Cache, k: nat, b: nat, syncing: bool)
    requires Inv(c) && k in c.tasks && c.tasks[k] == Holding(b)
    ensures b < |c.bufs|
    ensures var o := Release(c, k, b, syncing); o.Next? && Inv(o.cache)
    ensures var o := ReleaseModified(c, k, b, syncing); o.Next? && Inv(o.cache)
    ensures var o := SyncBuffer(c, k, b); o.Next? && Inv(o.cache)
  {
    hide Inv, ToModified, DiscardAfterAccess, ToCached, Wait;
    HeldInRange(c, k, b);
    match c.bufs[b].state
    case AccessCached =>
      CachedAgain(c, k, b);
      MadeModified(c, k, b);
      HeldBack(c, k, b);
      Queued(c, k, b);
    case AccessPurged => Discarded(c, k, b);
    case _ =>
      Discarded(c, k, b);
      MadeModified(c, k, b);
      HeldBack(c, k, b);
      Queued(c, k, b);
  }

  lemma {:induction false} ReadAheadStep(c: Cache, k: nat, keys: seq<Key>)
    requires Inv(c) && Collecting(c, k)
    ensures var o := ReadAhead(c, k, keys); o.Next? && Inv(o.cache)
    decreases |keys|
  {
    hide Inv, ReadAheadOne;
    if keys != [] {
      ReadAheadOneStep(c, k, keys[0]);
      var c1 := ReadAheadOne(c, k, keys[0]).cache;
      if ListOf(c1, k) != ListOf(c, k) {
        ReadAheadStep(c1, k, keys[1..]);
      }
    }
  }

  // ---- every step ----

  /** No step of any thread is a fatal error, and every step keeps the state table and the counters. */
  lemma StepIsSafe(c: Cache, e: Event)
    requires Inv(c) && Enabled(c, e)
    ensures Step(c, e).Next? && Inv(Step(c, e).cache)
  {
    hide Inv, TryGet, ReadAhead, Gather, RequestDone, Purge, Access, SyncDone, Unwait, Release, ReleaseModified, SyncBuffer, ReadDone, ToModified;
    match e
    case Get(k, key) => TryGetStep(c, k, ForGet, key);
    case Read(k, key) => TryGetStep(c, k, ForRead, key);
    case Retry(k) => RetryStep(c, k);
    case AccessAgain(k) => AccessAgainStep(c, k);
    case SyncAgain(k) => SyncDoneStep(c, k);
    case ReadEnds(k, ok) =>
      HeldInRange(c, k, c.tasks[k].b);
      ReadDoneStep(c, k, c.tasks[k].b, ok);
    case Releases(k, syncing) => ReleaseSteps(c, k, c.tasks[k].b, syncing);
    case ReleasesModified(k, syncing) => ReleaseSteps(c, k, c.tasks[k].b, syncing);
    case FinishRelease(k) =>
      HeldInRange(c, k, c.tasks[k].b);
      MadeModified(c, k, c.tasks[k].b);
    case Syncs(k) => ReleaseSteps(c, k, c.tasks[k].b, false);
    case ReadAheadStarts(k, keys) => ReadAheadStep(c, k, keys);
    case SwapOut(k, picks) => GatherStep(c, k, picks);
    case RequestEnds(k, n, ok) => RequestDoneStep(c, k, n, ok);
    case PurgeDevice(_, order) => PurgeStep(c, order);
  }

  // ---- runs ----

  /**
   The cache after initialisation with `n` descriptors: all are free and on the LRU list, and as many groups
   of the smallest buffers are made as are full. Nobody checks that none is left over.
   */
  function Initial(maxBds: nat, n: nat, need: seq<nat>): Cache
    requires maxBds > 0
  {
    Cache(maxBds, need, seq(n, _ => Buffer(Free, Key(0, 0), 0)), seq(n / maxBds, _ => Group(maxBds, 0)), {},
          seq(n, i requires 0 <= i < n => i), [], [], map[])
  }

  lemma InitialActive(maxBds: nat, n: nat, need: seq<nat>, i: nat)
    requires maxBds > 0 && n % maxBds == 0 && i < n
    ensures Active(Initial(maxBds, n, need), i)
  {
    var c := Initial(maxBds, n, need);
    assert n == maxBds * (n / maxBds);
    DivBound(i, maxBds, n / maxBds);
    var m := i % maxBds;
    assert maxBds / maxBds == 1 && m % 1 == 0 && m / 1 == m < maxBds;
  }

  /** The descriptors that are left over are on the LRU list, but in a group that does not exist. */
  lemma LeftOver(maxBds: nat, n: nat, need: seq<nat>)
    requires maxBds > 0 && n % maxBds != 0
    ensures var c := Initial(maxBds, n, need); n - 1 in c.lru && GroupOf(c, n - 1) == |c.groups|
  {
    var c := Initial(maxBds, n, need);
    assert c.lru[n - 1] == n - 1;
    var q := n / maxBds;
    DivMod(q, maxBds, n % maxBds - 1);
    assert n - 1 == q * maxBds + (n % maxBds - 1);
  }

  /** The initialised cache is in order if and only if no descriptor is left over. */
  lemma InitialSafe(maxBds: nat, n: nat, need: seq<nat>)
    requires maxBds > 0 && forall d | 0 <= d < |need| :: 1 <= need[d] <= maxBds
    ensures Inv(Initial(maxBds, n, need)) <==> n % maxBds == 0
  {
    var c := Initial(maxBds, n, need);
    if n % maxBds == 0 {
      hide Slot, Active, GroupOf;
      assert n == maxBds * (n / maxBds);
      forall i: nat | i < |c.bufs| ensures Row(c, i) && WaiterSet(c, i) == {} {
        InitialActive(maxBds, n, need, i);
        assert c.lru[i] == i;
      }
      forall g: nat ensures GroupUsers(c, g) == {} && GroupWaiters(c, g) == {} {
      }
    } else {
      LeftOver(maxBds, n, need);
      assert !Row(c, n - 1);
    }
  }

  ghost predicate Reaches(c: Cache, events: seq<Event>, c': Cache)
    decreases |events|
  {
    if events == [] then c' == c
    else Enabled(c, events[0]) && Step(c, events[0]).Next? && Reaches(Step(c, events[0]).cache, events[1..], c')
  }

  lemma {:induction false} RunKeepsInv(c: Cache, events: seq<Event>, c': Cache)
    requires Inv(c) && Reaches(c, events, c')
    ensures Inv(c')
    decreases |events|
  {
    hide Inv, Step, Enabled;
    if events != [] {
      StepIsSafe(c, events[0]);
      RunKeepsInv(Step(c, events[0]).cache, events[1..], c');
    }
  }

  /**
   In every reachable state every buffer is in the tree and on the lists that its row of the state table
   names, counters and owners are right, and no step that a thread can take next is fatal.
   */
  lemma EveryRunIsSafe(maxBds: nat, n: nat, need: seq<nat>, events: seq<Event>, c: Cache)
    requires maxBds > 0 && n % maxBds == 0 && forall d | 0 <= d < |need| :: 1 <= need[d] <= maxBds
    requires Reaches(Initial(maxBds, n, need), events, c)
    ensures Inv(c)
    ensures forall e | Enabled(c, e) :: Step(c, e).Next?
  {
    hide Inv, Step, Enabled, Reaches;
    InitialSafe(maxBds, n, need);
    RunKeepsInv(Initial(maxBds, n, need), events, c);
    forall e | Enabled(c, e) ensures Step(c, e).Next? {
      StepIsSafe(c, e);
    }
  }

  /** A cache of one buffer, which thread 0 uses. */
  function InUse(s: State, t: Task): Cache {
    Cache(1, [1], [Buffer(s, Key(0, 0), 0)], [Group(1, 1)], {0}, [], [], [], map[0 := t])
  }

  ghost predicate StepsTo(c: Cache, e: Event, c': Cache) {
    Enabled(c, e) && Step(c, e) == Next(c')
  }

  lemma FirstRecycled()
    ensures var c, key := Initial(1, 1, [1]), Key(0, 0);
            && Find(c, key) == None && FromLru(c, 0) == Source(c, 0)
            && Recycle(c, 0, key) == Next(Cache(1, [1], [Buffer(Empty, key, 0)], [Group(1, 0)], {0}, [], [], [], map[]))
  {
    var c, key := Initial(1, 1, [1]), Key(0, 0);
    assert c.bufs == [Buffer(Free, key, 0)] && c.groups == [Group(1, 0)] && c.lru == [0];
    assert FirstUsable(c, c.lru, 0) == Some(0);
  }

  lemma Obtains()
    ensures StepsTo(Initial(1, 1, [1]), Read(0, Key(0, 0)), InUse(Transfer, Reading(0)))
    ensures StepsTo(Initial(1, 1, [1]), Get(0, Key(0, 0)), InUse(AccessEmpty, Holding(0)))
  {
    hide Find, FromLru, Recycle;
    FirstRecycled();
  }

  lemma HeldBackOnce()
    ensures StepsTo(InUse(AccessEmpty, Holding(0)), ReleasesModified(0, true), InUse(AccessEmpty, Releasing(0)))
  {
  }

  lemma Purged(s: State, t: Task)
    requires s == Transfer || s == AccessEmpty
    ensures StepsTo(InUse(s, t), PurgeDevice(0, [0]), InUse(if s == Transfer then TransferPurged else AccessPurged, t))
  {
    var c := InUse(s, t);
    assert PurgeOne(c, 0) == Next(InUse(if s == Transfer then TransferPurged else AccessPurged, t));
    assert [0][1..] == [];
  }

  /** It does happen that a purge hits a buffer that is being read, and the read then ends as if nothing had happened. */
  lemma PurgeHitsRead() returns (events: seq<Event>, c: Cache)
    ensures Reaches(Initial(1, 1, [1]), events, c)
    ensures 0 in c.tasks && c.tasks[0] == Reading(0) && |c.bufs| == 1 && c.bufs[0].state == TransferPurged
    ensures var o := ReadDone(c, 0, 0, true); !(o.Next? && Inv(o.cache))
  {
    hide Inv, ReadDone, Step, Enabled;
    var start, e, purge := Initial(1, 1, [1]), Read(0, Key(0, 0)), PurgeDevice(0, [0]);
    events, c := [] + [e] + [purge], InUse(TransferPurged, Reading(0));
    Obtains();
    Purged(Transfer, Reading(0));
    NoStep(start);
    OneStepMore(start, [], start, e);
    OneStepMore(start, [] + [e], InUse(Transfer, Reading(0)), purge);
    EveryRunIsSafe(1, 1, [1], events, c);
    ReadDoneExactly(c, 0, 0);
  }

  lemma NoStep(c: Cache)
    ensures Reaches(c, [], c)
  {
  }

  lemma {:induction false} OneStepMore(c: Cache, events: seq<Event>, c': Cache, e: Event)
    requires Reaches(c, events, c') && Enabled(c', e) && Step(c', e).Next?
    ensures Reaches(c, events + [e], Step(c', e).cache)
    decreases |events|
  {
    hide Step, Enabled;
    if events == [] {
      assert [e][1..] == [];
    } else {
      OneStepMore(Step(c, events[0]).cache, events[1..], c', e);
      assert (events + [e])[1..] == events[1..] + [e];
    }
  }

  // ---- what callers rely on ----

  /** No block has two owners: whether it is held, read, given back or transferred, it is once, and by one thread. */
  lemma OneCallerPerBlock(c: Cache, k: nat, k': nat, i: nat, j: nat)
    requires Inv(c) && Has(c, k, i) && Has(c, k', j)
    ensures i < |c.bufs| && j < |c.bufs|
    ensures c.bufs[i].key == c.bufs[j].key ==> k == k' && i == j
  {
    hide Active, Slot;
    OwnerFacts(c, k, i);
    OwnerFacts(c, k', j);
    assert Row(c, i) && Row(c, j);
  }

  /** The block that a thread is about to obtain a buffer of. */
  ghost function Sought(c: Cache, e: Event): Key
    requires Enabled(c, e) && (e.Get? || e.Read? || e.Retry? || e.AccessAgain? || e.ReadEnds?)
  {
    if e.Get? || e.Read? then e.key
    else if e.ReadEnds? then (if c.tasks[e.k].b < |c.bufs| then c.bufs[c.tasks[e.k].b].key else Key(0, 0))
    else c.tasks[e.k].key
  }

  /** A step that obtains a buffer, or ends the read of one, obtains one of the block that was asked for. */
  lemma ObtainsBlock(c: Cache, e: Event)
    requires Inv(c) && Enabled(c, e) && (e.Get? || e.Read? || e.Retry? || e.AccessAgain? || e.ReadEnds?)
    ensures Step(c, e).Next?
    ensures if e.ReadEnds? && !e.ok then e.k !in Step(c, e).cache.tasks else Obtained(Step(c, e).cache, e.k, Sought(c, e))
  {
    hide Inv, TryGet, Access, Unwait, Obtained, ReadDone;
    match e
    case Get(k, key) => TryGetStep(c, k, ForGet, key);
    case Read(k, key) => TryGetStep(c, k, ForRead, key);
    case Retry(k) => RetryStep(c, k);
    case AccessAgain(k) => AccessAgainStep(c, k);
    case ReadEnds(k, ok) =>
      HeldInRange(c, k, c.tasks[k].b);
      ReadDoneStep(c, k, c.tasks[k].b, ok);
      ReadObtains(c, k, c.tasks[k].b, ok);
  }

  lemma ReadObtains(c: Cache, k: nat, b: nat, ok: bool)
    requires b < |c.bufs| && ReadDone(c, k, b, ok).Next?
    ensures var c' := ReadDone(c, k, b, ok).cache; if ok then Obtained(c', k, c.bufs[b].key) else k !in c'.tasks
  {
    hide GroupOf, Without;
  }
}
