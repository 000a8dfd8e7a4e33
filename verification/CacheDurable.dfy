/**
 What a sync promises. Over every run, when it ends the medium has the value that was synced or one that was released
 for the block since, unless the block's device was purged or a write of the buffer failed meanwhile.
 */
module CacheDurable {
  import opened Basics
  import opened CacheState
  import opened CacheSteps
  import opened CacheSafety
  import opened CacheTransfers
  import opened CacheRun
  import opened CacheContents
  import D = CacheDiagram

  predicate Purged(s: State) {
    s == AccessPurged || s == TransferPurged
  }

  /** The buffer waits to be written, or is being written. */
  ghost predicate OnItsWay<V>(c: Cache, d: World<V>, b: nat) {
    b < |c.bufs| && (c.bufs[b].state == Sync || (c.bufs[b].state == Transfer && Writing(c, d, b)))
  }

  ghost predicate Keeps(c: Cache, b: nat, key: Key) {
    b in c.tree && b < |c.bufs| && c.bufs[b].key == key
  }

  /** What is expected of the block is good, and the medium has something good or soon will. */
  ghost predicate Pledge<V>(c: Cache, d: World<V>, b: nat, key: Key, good: V -> bool) {
    && Keeps(c, b, key) && !Purged(c.bufs[b].state)
    && good(d.store(key)) && (good(d.medium(key)) || OnItsWay(c, d, b))
  }

  /** The step purges another device if any, no transfer of the buffer fails, and what it releases for the block is good. */
  ghost predicate Spares<V>(c: Cache, e: Event, x: Input<V>, b: nat, key: Key, good: V -> bool)
    requires Enabled(c, e)
  {
    match e
    case PurgeDevice(dd, _) => dd != key.dd
    case RequestEnds(k, n, ok) => ok || b !in ListOf(c, k)[..n]
    case ReleasesModified(k, _) => c.tasks[k].b < |c.bufs| && c.bufs[c.tasks[k].b].key == key ==> good(x.value)
    case Syncs(k) => c.tasks[k].b < |c.bufs| && c.bufs[c.tasks[k].b].key == key ==> good(x.value)
    case _ => true
  }

  // ---- along the diagram ----

  /** No label ends a transfer or purges. */
  predicate Gentle(labels: set<D.Label>) {
    D.Label.Purge !in labels && D.TransferDone !in labels && D.TransferError !in labels
  }

  /** A buffer that waits to be written can only begin to be written; one in transfer stays there. */
  lemma GentlePath(labels: set<D.Label>, path: seq<State>, i: nat)
    requires Gentle(labels) && D.Walk(labels, path) && i < |path| && (path[0] == Sync || path[0] == Transfer)
    ensures path[i] == Transfer || (path[i] == Sync && path[0] == Sync)
  {
    if i > 0 {
      GentlePath(labels, path, i - 1);
      assert D.Move(labels, path[i - 1], path[i]);
    }
  }

  lemma GentleLeads(labels: set<D.Label>, s: State, s': State)
    requires Gentle(labels) && D.Leads(labels, s, s') && (s == Sync || s == Transfer)
    ensures s' == Transfer || (s' == Sync && s == Sync)
  {
    hide D.Move;
    var path :| D.Walk(labels, path) && path[0] == s && path[|path| - 1] == s';
    GentlePath(labels, path, |path| - 1);
  }

  // ---- steps that move no contents ----

  predicate Quiet(e: Event) {
    e.Get? || e.Read? || e.Retry? || e.AccessAgain? || e.SyncAgain? || e.Releases? || e.SwapOut? || e.ReadAheadStarts?
  }

  lemma QuietIsGentle(c: Cache, e: Event)
    requires Quiet(e)
    ensures Gentle(D.Labels(c, e)) && !D.LatePurge(c, e)
  {
  }

  lemma QuietPassive<V>(c: Cache, d: World<V>, e: Event, x: Input<V>)
    requires Inv(c) && Quiet(e) && Enabled(c, e) && Step(c, e).Next?
    ensures Passive(c, d, Step(c, e).cache, Effect(c, d, e, x))
  {
    hide Inv, Step, Passive, Enabled;
    if e.SwapOut? || e.ReadAheadStarts? {
      CollectsPassive(c, d, e);
    } else {
      QuietStep(c, d, e);
    }
  }

  /** A dirty buffer in transfer is one that is written. */
  lemma DirtyIsWritten<V>(c: Cache, d: World<V>, b: nat)
    requires b < |c.bufs|
    ensures OnItsWay(c, d, b) && b in c.tree ==> Dirty(c, d, b)
    ensures Dirty(c, d, b) && (c.bufs[b].state == Sync || c.bufs[b].state == Transfer) ==> OnItsWay(c, d, b)
  {
    hide Writing, CacheContents.HeldBack;
  }

  lemma QuietKeeps<V>(c: Cache, d: World<V>, e: Event, x: Input<V>, b: nat, key: Key, good: V -> bool)
    requires Inv(c) && Quiet(e) && Enabled(c, e) && Pledge(c, d, b, key, good)
    requires Step(c, e).Next? && Keeps(Step(c, e).cache, b, key)
    ensures Pledge(Step(c, e).cache, Effect(c, d, e, x), b, key, good)
  {
    QuietPassive(c, d, e, x);
    QuietIsGentle(c, e);
    D.StepFollows(c, e);
    hide Inv, Step, Enabled, Effect, D.Labels, D.Leads, OnItsWay, Dirty, Filled;
    var c', d' := Step(c, e).cache, Effect(c, d, e, x);
    NoPurgeNoPurged(D.Labels(c, e), c.bufs[b].state, c'.bufs[b].state);
    if OnItsWay(c, d, b) {
      DirtyIsWritten(c, d, b);
      OnItsWayState(c, d, b);
      GentleLeads(D.Labels(c, e), c.bufs[b].state, c'.bufs[b].state);
      DirtyIsWritten(c', d', b);
    }
  }

  lemma OnItsWayState<V>(c: Cache, d: World<V>, b: nat)
    requires OnItsWay(c, d, b)
    ensures b < |c.bufs| && (c.bufs[b].state == Sync || c.bufs[b].state == Transfer)
  {
  }

  // ---- steps that concern one buffer ----

  /** Of another buffer nothing changes, be it as it may with the task. */
  lemma OtherKeeps<V>(c: Cache, d: World<V>, c': Cache, d': World<V>, k: nat, b': nat, b: nat, key: Key, good: V -> bool)
    requires Keys(c) && Touches(c, c', b', k) && SameElse(c, c', d, k, b') && b' in c.tree && b != b' && d'.writers == d.writers
    requires forall x | x != c.bufs[b'].key :: d'.store(x) == d.store(x) && d'.medium(x) == d.medium(x)
    requires Pledge(c, d, b, key, good)
    ensures Pledge(c', d', b, key, good)
  {
    hide Suited;
    ElseSame(c, c', d, b', k, b);
    assert c.bufs[b].key != c.bufs[b'].key;
    forall k' ensures Writes(c', d', k', b) == Writes(c', d, k', b) {
    }
  }

  /** Whoever holds the buffer leaves it unpurged, and what the medium has of it is good already. */
  lemma OwnKeeps<V>(c: Cache, d: World<V>, c': Cache, d': World<V>, b: nat, key: Key, good: V -> bool)
    requires Pledge(c, d, b, key, good) && !OnItsWay(c, d, b) && Keeps(c', b, key) && !Purged(c'.bufs[b].state)
    requires good(d'.store(key)) && d'.medium == d.medium
    ensures Pledge(c', d', b, key, good)
  {
  }

  predicate Single(e: Event) {
    e.ReleasesModified? || e.FinishRelease? || e.Syncs? || e.ReadEnds?
  }

  /** What such a step does to the buffer of its task. */
  lemma SingleTouches<V>(c: Cache, d: World<V>, e: Event)
    requires Inv(c) && Single(e) && Enabled(c, e) && Step(c, e).Next?
    ensures var b, c' := c.tasks[e.k].b, Step(c, e).cache;
            && Lone(c, e.k, b) && b < |c.bufs| && b in c.tree && OwnedState(c.bufs[b].state) && Keys(c)
            && Touches(c, c', b, e.k) && SameElse(c, c', d, e.k, b) && !Writes(c, d, e.k, b)
            && (Purged(c'.bufs[b].state) ==> Purged(c.bufs[b].state))
  {
    assert Has(c, e.k, c.tasks[e.k].b);
    InBuffer(c, e.k);
    OwnerIsLone(c, e.k, c.tasks[e.k].b);
    hide Inv, Lone, Keys, Touches, SameElse, Writes;
    var b, c' := c.tasks[e.k].b, Step(c, e).cache;
    SingleStep(c, e);
    SingleTask(c, e);
    NoTransfer(c, c', d, e.k, b);
  }

  lemma SingleTask(c: Cache, e: Event)
    requires Single(e) && Enabled(c, e) && Step(c, e).Next? && BufferOf(c, e.k) == c.tasks[e.k].b < |c.bufs|
    ensures var b, t, c' := c.tasks[e.k].b, c.tasks[e.k], Step(c, e).cache;
            && !t.Transferring? && (t.Releasing? ==> t.b == b)
            && (e.k in c'.tasks ==> !c'.tasks[e.k].Transferring? && (c'.tasks[e.k].Releasing? ==> c'.tasks[e.k].b == b))
  {
    hide GroupOf, Discard, Without, Transferred;
  }

  lemma SingleStep(c: Cache, e: Event)
    requires Single(e) && Enabled(c, e) && Step(c, e).Next? && BufferOf(c, e.k) == c.tasks[e.k].b < |c.bufs|
    ensures var b, c' := c.tasks[e.k].b, Step(c, e).cache;
            Touches(c, c', b, e.k) && (Purged(c'.bufs[b].state) ==> Purged(c.bufs[b].state))
  {
    hide ToModified, ReleaseModified, SyncBuffer, ReadDone, Touches;
    var b, k := c.tasks[e.k].b, e.k;
    match e
    case ReadEnds(_, ok) => ReadTouches(c, k, b, ok);
    case ReleasesModified(_, syncing) => ReleaseModifiedTouches(c, k, b, syncing);
    case Syncs(_) => SyncTouches(c, k, b);
    case _ => PutAwayTouches(c, k, b);
  }

  lemma ReleaseModifiedTouches(c: Cache, k: nat, b: nat, syncing: bool)
    requires b < |c.bufs| && k in c.tasks && c.tasks[k] == Holding(b) && ReleaseModified(c, k, b, syncing).Next?
    ensures var c' := ReleaseModified(c, k, b, syncing).cache;
            Touches(c, c', b, k) && (Purged(c'.bufs[b].state) ==> Purged(c.bufs[b].state))
  {
    hide ToModified, ToCached, DiscardAfterAccess, Touches;
    PutAwayTouches(c, k, b);
    DiscardTouches(c, k, b);
  }

  lemma SyncTouches(c: Cache, k: nat, b: nat)
    requires b < |c.bufs| && k in c.tasks && SyncBuffer(c, k, b).Next?
    ensures var c' := SyncBuffer(c, k, b).cache;
            && Touches(c, c', b, k) && (Purged(c'.bufs[b].state) ==> Purged(c.bufs[b].state))
            && (!Purged(c.bufs[b].state) ==> c'.bufs[b].state == Sync && c'.tree == c.tree && c'.bufs[b].key == c.bufs[b].key)
  {
    hide DiscardAfterAccess, Wait, Touches;
    DiscardTouches(c, k, b);
    QueuedTouches(c, k, b);
  }

  /** What such a step does to the contents concerns the block of its buffer only. */
  lemma SingleEffect<V>(c: Cache, d: World<V>, e: Event, x: Input<V>)
    requires Single(e) && Enabled(c, e) && c.tasks[e.k].b < |c.bufs|
    ensures var b, d' := c.tasks[e.k].b, Effect(c, d, e, x);
            && d'.writers == d.writers && d'.medium == d.medium
            && (forall y | y != c.bufs[b].key :: d'.store(y) == d.store(y))
            && (!Purged(c.bufs[b].state) ==>
                  var y := c.bufs[b].key; d'.store(y) == d.store(y) || ((e.ReleasesModified? || e.Syncs?) && d'.store(y) == x.value))
  {
  }

  lemma OwnedIsNotOnItsWay<V>(c: Cache, d: World<V>, k: nat, b: nat)
    requires Lone(c, k, b) && b < |c.bufs| && OwnedState(c.bufs[b].state) && !Writes(c, d, k, b)
    ensures !OnItsWay(c, d, b)
  {
    LoneFacts(c, d, k, b);
  }

  lemma SingleKeeps<V>(c: Cache, d: World<V>, e: Event, x: Input<V>, b: nat, key: Key, good: V -> bool)
    requires Inv(c) && Single(e) && Enabled(c, e) && Spares(c, e, x, b, key, good) && Pledge(c, d, b, key, good)
    requires Step(c, e).Next? && Keeps(Step(c, e).cache, b, key)
    ensures Pledge(Step(c, e).cache, Effect(c, d, e, x), b, key, good)
  {
    hide Inv, Step, Effect, Touches, SameElse, Lone, Writes, Keys, Writing, Keeps, OnItsWay, Pledge, Spares;
    SingleTouches(c, d, e);
    SingleEffect(c, d, e, x);
    if c.tasks[e.k].b == b {
      OwnedIsNotOnItsWay(c, d, e.k, b);
      SingleOwnKeeps(c, d, e, x, b, key, good);
    } else {
      OtherKeeps(c, d, Step(c, e).cache, Effect(c, d, e, x), e.k, c.tasks[e.k].b, b, key, good);
    }
  }

  lemma SingleOwnKeeps<V>(c: Cache, d: World<V>, e: Event, x: Input<V>, b: nat, key: Key, good: V -> bool)
    requires Single(e) && Enabled(c, e) && Spares(c, e, x, b, key, good) && Pledge(c, d, b, key, good)
    requires c.tasks[e.k].b == b && !OnItsWay(c, d, b)
    requires Step(c, e).Next? && Keeps(Step(c, e).cache, b, key)
    requires Purged(Step(c, e).cache.bufs[b].state) ==> Purged(c.bufs[b].state)
    ensures Pledge(Step(c, e).cache, Effect(c, d, e, x), b, key, good)
  {
    SingleEffect(c, d, e, x);
    hide Step, Effect, OnItsWay;
    OwnKeeps(c, d, Step(c, e).cache, Effect(c, d, e, x), b, key, good);
  }

  // ---- the ends of transfers ----

  /** The buffer itself is written, or read, without an error. */
  lemma WrittenKeeps<V>(c: Cache, d: World<V>, c': Cache, d': World<V>, k: nat, b: nat, lost: Key -> V, key: Key, good: V -> bool)
    requires Pledge(c, d, b, key, good) && Right(c, d) && c.bufs[b].state == Transfer && d' == Moved(c, d, k, b, true, lost)
    requires Lone(c, k, b) && b in ListOf(c, k) && Keeps(c', b, key) && c'.bufs[b].state == Cached
    ensures Pledge(c', d', b, key, good)
  {
    LoneFacts(c, d, k, b);
    if k in d.writers {
      DirtyIsWritten(c, d, b);
      WrittenHas(c, d, b);
    }
  }

  lemma WrittenHas<V>(c: Cache, d: World<V>, b: nat)
    requires Right(c, d) && b in c.tree && b < |c.bufs| && c.bufs[b].state == Transfer && Writing(c, d, b)
    ensures |d.held| == |c.bufs| && d.held[b] == d.store(c.bufs[b].key)
  {
    hide Writing;
    assert Filled(c, d, b);
  }

  /** The end of the transfer of the first buffer on the list. */
  lemma FirstTouches<V>(c: Cache, d: World<V>, k: nat, ok: bool)
    requires Inv(c) && ListOf(c, k) != [] && FirstTransferred(c, k, ok).Next?
    ensures var b, c' := ListOf(c, k)[0], FirstTransferred(c, k, ok).cache;
            && Lone(c, k, b) && Keys(c) && b in c.tree && b < |c.bufs| && InTransfer(c.bufs[b].state)
            && Touches(c, c', b, k) && SameElse(c, c', d, k, b) && c'.bufs[b].key == c.bufs[b].key
            && (ok && c.bufs[b].state == Transfer ==> c'.bufs[b].state == Cached && c'.tree == c.tree)
  {
    var b := ListOf(c, k)[0];
    assert Has(c, k, b);
    OwnerIsLone(c, k, b);
    TransferredBuffer(c, k, b);
    ListDistinct(c, k);
    hide Inv, Lone, Keys, Distinct, Active;
    FirstTask(c, k, ok);
    TransferredTouches(c, FirstTransferred(c, k, ok).cache, k, b, ok);
    TailElse(c, FirstTransferred(c, k, ok).cache, d, k);
  }

  lemma FirstKeeps<V>(c: Cache, d: World<V>, k: nat, ok: bool, lost: Key -> V, b: nat, key: Key, good: V -> bool)
    requires Inv(c) && Right(c, d) && ListOf(c, k) != [] && FirstTransferred(c, k, ok).Next?
    requires Pledge(c, d, b, key, good) && (ok || b != ListOf(c, k)[0])
    ensures Pledge(FirstTransferred(c, k, ok).cache, Moved(c, d, k, ListOf(c, k)[0], ok, lost), b, key, good)
  {
    var first := ListOf(c, k)[0];
    FirstTouches(c, d, k, ok);
    MovedElse(c, d, k, first, ok, lost);
    hide Inv, Lone, Keys, FirstTransferred, Touches, SameElse, Right, Moved, OnItsWay;
    var c', d' := FirstTransferred(c, k, ok).cache, Moved(c, d, k, first, ok, lost);
    if first == b {
      WrittenKeeps(c, d, c', d', k, b, lost, key, good);
    } else {
      hide Purged, Keeps;
      OtherKeeps(c, d, c', d', k, first, b, key, good);
    }
  }

  lemma MovedElse<V>(c: Cache, d: World<V>, k: nat, b: nat, ok: bool, lost: Key -> V)
    requires b < |c.bufs|
    ensures var d' := Moved(c, d, k, b, ok, lost);
            d'.writers == d.writers && forall x | x != c.bufs[b].key :: d'.store(x) == d.store(x) && d'.medium(x) == d.medium(x)
  {
  }

  lemma {:induction false} RequestKeeps<V>(c: Cache, d: World<V>, k: nat, n: nat, ok: bool, lost: Key -> V, b: nat, key: Key, good: V -> bool)
    requires Inv(c) && Right(c, d) && n <= |ListOf(c, k)| && Pledge(c, d, b, key, good) && (ok || b !in ListOf(c, k)[..n])
    ensures RequestDone(c, k, n, ok).Next?
    ensures Pledge(RequestDone(c, k, n, ok).cache, RequestMoves(c, d, k, n, ok, lost), b, key, good)
    decreases n
  {
    hide Inv, Right, FirstTransferred, Moved, Pledge;
    if n > 0 {
      var list := ListOf(c, k);
      RequestDoneStep(c, k, 1, ok);
      OneDone(c, k, ok);
      var c1, d1 := FirstTransferred(c, k, ok).cache, Moved(c, d, k, list[0], ok, lost);
      FirstTask(c, k, ok);
      FirstMovedRight(c, d, k, ok, lost);
      assert list[0] == list[..n][0] && list[1..][..n - 1] == list[..n][1..];
      FirstKeeps(c, d, k, ok, lost, b, key, good);
      RequestKeeps(c1, d1, k, n - 1, ok, lost, b, key, good);
    }
  }

  // ---- purges of other devices ----

  lemma PurgeKeeps<V>(c: Cache, d: World<V>, dd: nat, order: seq<nat>, b: nat, key: Key, good: V -> bool)
    requires Inv(c) && Enabled(c, PurgeDevice(dd, order)) && dd != key.dd && Pledge(c, d, b, key, good)
    ensures Purge(c, order).Next? && Pledge(Purge(c, order).cache, Forgotten(d, dd), b, key, good)
  {
    PurgeStep(c, order);
    PurgeVoids(c, order);
    OnDevice(c, dd, order);
    hide Inv, Purge, Distinct;
    var c', d' := Purge(c, order).cache, Forgotten(d, dd);
    forall k ensures Writes(c', d', k, b) == Writes(c, d, k, b) {
    }
  }

  // ---- every step ----

  /** Every step keeps the pledge, as long as somebody waits on the buffer. */
  lemma StepKeeps<V>(c: Cache, d: World<V>, e: Event, x: Input<V>, b: nat, key: Key, good: V -> bool)
    requires Inv(c) && Right(c, d) && Enabled(c, e) && Spares(c, e, x, b, key, good) && Pledge(c, d, b, key, good)
    requires Step(c, e).Next? && Keeps(Step(c, e).cache, b, key)
    ensures Pledge(Step(c, e).cache, Effect(c, d, e, x), b, key, good)
  {
    hide Inv, Right, Pledge, Keeps, RequestDone, Purge, RequestMoves, Forgotten, ReadAhead, Gather, TryGet, BufferStep, Written, CameBack, Fetched;
    if e.RequestEnds? {
      RequestKeeps(c, d, e.k, e.n, e.ok, x.lost, b, key, good);
    } else if e.PurgeDevice? {
      PurgeKeeps(c, d, e.dd, e.order, b, key, good);
    } else if Single(e) {
      SingleKeeps(c, d, e, x, b, key, good);
    } else {
      QuietKeeps(c, d, e, x, b, key, good);
    }
  }

  // ---- whole runs ----

  /** Task `k` sleeps until its sync of the block is done. */
  ghost predicate Syncing(c: Cache, k: nat, b: nat, key: Key) {
    k in c.tasks && c.tasks[k] == Waiting(b, ForSync, key)
  }

  /** A run in which the sync goes on, no purge or failed transfer hits the block, and what is released for it is good. */
  ghost predicate Meanwhile<V>(c: Cache, events: seq<Event>, xs: seq<Input<V>>, c': Cache, k: nat, b: nat, key: Key, good: V -> bool)
    requires |xs| == |events|
    decreases |events|
  {
    && Syncing(c, k, b, key)
    && if events == [] then c' == c
       else
         && Enabled(c, events[0]) && Spares(c, events[0], xs[0], b, key, good) && Step(c, events[0]).Next?
         && Meanwhile(Step(c, events[0]).cache, events[1..], xs[1..], c', k, b, key, good)
  }

  lemma SyncingKeeps(c: Cache, k: nat, b: nat, key: Key)
    requires Inv(c) && Syncing(c, k, b, key)
    ensures Keeps(c, b, key)
  {
    AwaitedInTree(c, k);
    WaiterFacts(c, k);
  }

  lemma {:induction false} MeanwhileKept<V>(c: Cache, d: World<V>, events: seq<Event>, xs: seq<Input<V>>, c': Cache,
                                            k: nat, b: nat, key: Key, good: V -> bool)
    requires Inv(c) && Right(c, d) && |xs| == |events| && Pledge(c, d, b, key, good)
    requires Meanwhile(c, events, xs, c', k, b, key, good)
    ensures Inv(c') && Pledge(c', Effects(c, d, events, xs), b, key, good) && Syncing(c', k, b, key)
    decreases |events|
  {
    hide Inv, Right, Step, Enabled, Effect, Pledge, Keeps, Syncing, Spares;
    if events != [] {
      var e, c1 := events[0], Step(c, events[0]).cache;
      StepIsSafe(c, e);
      StepRight(c, d, e, xs[0]);
      assert Syncing(c1, k, b, key);
      SyncingKeeps(c1, k, b, key);
      StepKeeps(c, d, e, xs[0], b, key, good);
      MeanwhileKept(c1, Effect(c, d, e, xs[0]), events[1..], xs[1..], c', k, b, key, good);
    }
  }

  /** The thread holds a buffer that is not purged, and syncs it. */
  ghost predicate SyncStarts(c: Cache, k: nat, b: nat) {
    Enabled(c, Syncs(k)) && c.tasks[k].b == b && b < |c.bufs| && !Purged(c.bufs[b].state) && Step(c, Syncs(k)).Next?
  }

  /** The thread finds that its sync is done. */
  ghost predicate SyncEnds(c: Cache, k: nat) {
    Enabled(c, SyncAgain(k)) && Step(c, SyncAgain(k)).Next? && k !in Step(c, SyncAgain(k)).cache.tasks
  }

  lemma SyncWrites<V>(c: Cache, d: World<V>, k: nat, b: nat, x: Input<V>)
    requires Enabled(c, Syncs(k)) && c.tasks[k].b == b && b < |c.bufs| && |d.held| == |c.bufs| && !Purged(c.bufs[b].state)
    ensures Effect(c, d, Syncs(k), x).store(c.bufs[b].key) == x.value
  {
  }

  lemma SyncQueues(c: Cache, k: nat, b: nat)
    requires SyncStarts(c, k, b) && BufferOf(c, k) == b && b in c.tree
    ensures var c' := Step(c, Syncs(k)).cache; Keeps(c', b, c.bufs[b].key) && c'.bufs[b].state == Sync
  {
    hide SyncBuffer;
    SyncTouches(c, k, b);
  }

  /** The buffer holds the value and waits to be written. */
  lemma SyncPledges<V>(c: Cache, d: World<V>, k: nat, b: nat, x: Input<V>, good: V -> bool)
    requires Inv(c) && Right(c, d) && SyncStarts(c, k, b) && good(x.value)
    ensures Pledge(Step(c, Syncs(k)).cache, Effect(c, d, Syncs(k), x), b, c.bufs[b].key, good)
  {
    SingleTouches(c, d, Syncs(k));
    InBuffer(c, k);
    Sized(c, d);
    SyncQueues(c, k, b);
    SyncWrites(c, d, k, b, x);
    hide Inv, Right, Step, Effect, Touches, SameElse, Lone, Writes, Writing;
  }

  /** The buffer is no longer on its way, and the step moves no contents. */
  lemma SyncLeaves<V>(c: Cache, d: World<V>, k: nat, b: nat, key: Key)
    requires Inv(c) && Syncing(c, k, b, key) && SyncEnds(c, k)
    ensures !OnItsWay(c, d, b)
  {
    hide Inv, SyncDone, Unwait;
    InBuffer(c, k);
    SyncDoneStep(c, k);
  }

  lemma SyncedHere<V>(c: Cache, d: World<V>, k: nat, b: nat, x: Input<V>, events: seq<Event>, xs: seq<Input<V>>, c': Cache, good: V -> bool)
    requires Inv(c) && Right(c, d) && SyncStarts(c, k, b) && good(x.value) && |xs| == |events|
    requires Meanwhile(Step(c, Syncs(k)).cache, events, xs, c', k, b, c.bufs[b].key, good) && SyncEnds(c', k)
    ensures good(Effects(Step(c, Syncs(k)).cache, Effect(c, d, Syncs(k), x), events, xs).medium(c.bufs[b].key))
  {
    hide Inv, Right, Step, Effects, Effect, Meanwhile, SyncEnds, Keeps, OnItsWay, Syncing;
    var c1, d1 := Step(c, Syncs(k)).cache, Effect(c, d, Syncs(k), x);
    StepIsSafe(c, Syncs(k));
    StepRight(c, d, Syncs(k), x);
    SyncPledges(c, d, k, b, x, good);
    MeanwhileKept(c1, d1, events, xs, c', k, b, c.bufs[b].key, good);
    SyncLeaves(c', Effects(c1, d1, events, xs), k, b, c.bufs[b].key);
  }

  /**
   In every run: when the sync of a value ends, the medium has a good value for the block, where the value that was
   synced is good and so is every value that is released for the block meanwhile; unless its device was purged, or a
   transfer of the buffer failed.
   */
  lemma SyncedIsStored<V>(maxBds: nat, n: nat, need: seq<nat>, medium: Key -> V, blank: V, before: seq<Event>, ys: seq<Input<V>>, c: Cache,
                          k: nat, b: nat, x: Input<V>, events: seq<Event>, xs: seq<Input<V>>, c': Cache, good: V -> bool)
    requires maxBds > 0 && n % maxBds == 0 && forall i | 0 <= i < |need| :: 1 <= need[i] <= maxBds
    requires |ys| == |before| && |xs| == |events| && Reaches(Initial(maxBds, n, need), before, c)
    requires SyncStarts(c, k, b) && good(x.value)
    requires Meanwhile(Step(c, Syncs(k)).cache, events, xs, c', k, b, c.bufs[b].key, good) && SyncEnds(c', k)
    ensures var d := Effects(Initial(maxBds, n, need), Start(medium, n, blank), before, ys);
            var d' := Effects(Step(c, Syncs(k)).cache, Effect(c, d, Syncs(k), x), events, xs);
            good(d'.medium(c.bufs[b].key))
  {
    hide Inv, Right, Step, Enabled, Reaches, Effects, Effect, Meanwhile, SyncEnds;
    var start, d0 := Initial(maxBds, n, need), Start(medium, n, blank);
    InitialSafe(maxBds, n, need);
    StartRight(maxBds, n, need, medium, blank);
    RunRight(start, d0, before, ys, c);
    SyncedHere(c, Effects(start, d0, before, ys), k, b, x, events, xs, c', good);
  }
}
