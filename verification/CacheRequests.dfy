/** Over whole runs, a thread that has a buffer has it for the block that it asked for last. */
module CacheRequests {
  import opened Basics
  import opened CacheState
  import opened CacheSteps
  import opened CacheSafety
  import opened CacheRecycle
  import opened CacheObtain
  import opened CacheRun

  // ---- what a step leaves alone ----

  /** A step of thread `k` changes no key, and no task of another thread. */
  ghost predicate Quietly(c: Cache, c': Cache, k: nat) {
    && |c'.bufs| == |c.bufs| && (forall i | 0 <= i < |c.bufs| :: c'.bufs[i].key == c.bufs[i].key)
    && (forall k' | k' != k && k' in c'.tasks :: k' in c.tasks && c'.tasks[k'] == c.tasks[k'])
    && (forall k' | k' != k && k' in c.tasks :: k' in c'.tasks)
  }

  /** A step of thread `k` changes keys only of buffers that no other thread owns. */
  ghost predicate Politely(c: Cache, c': Cache, k: nat) {
    && |c'.bufs| == |c.bufs|
    && (forall k', i: nat | k' != k && Has(c, k', i) && i < |c.bufs| :: c'.bufs[i].key == c.bufs[i].key)
    && (forall k' | k' != k && k' in c'.tasks :: k' in c.tasks && c'.tasks[k'] == c.tasks[k'])
    && (forall k' | k' != k && k' in c.tasks :: k' in c'.tasks)
  }

  lemma PolitelyOn(c: Cache, m: Cache, c': Cache, k: nat)
    requires Politely(c, m, k) && Politely(m, c', k)
    ensures Politely(c, c', k)
  {
    forall k', i: nat | k' != k && Has(c, k', i) && i < |c.bufs| ensures c'.bufs[i].key == c.bufs[i].key {
      assert Has(m, k', i);
    }
  }

  lemma GrantQuietly(c: Cache, k: nat, b: nat, purpose: Purpose)
    requires b < |c.bufs| && Grant(c, k, b, purpose).Next?
    ensures Quietly(c, Grant(c, k, b, purpose).cache, k)
  {
    hide GroupOf;
  }

  lemma AccessQuietly(c: Cache, k: nat, b: nat, purpose: Purpose, key: Key)
    requires b < |c.bufs| && Access(c, k, b, purpose, key).Next?
    ensures Quietly(c, Access(c, k, b, purpose, key).cache, k) && Politely(c, Access(c, k, b, purpose, key).cache, k)
  {
    hide GroupOf, Grant, Without;
    match c.bufs[b].state
    case Modified => GrantQuietly(AddUsers(c, b, -1).(modified := Without(c.modified, b)), k, b, purpose);
    case Cached => GrantQuietly(c.(lru := Without(c.lru, b)), k, b, purpose);
    case Empty => GrantQuietly(c, k, b, purpose);
    case _ =>
  }

  lemma TransferredQuietly(c: Cache, k: nat, b: nat, ok: bool)
    requires b < |c.bufs|
    ensures Quietly(c, Transferred(c, b, ok), k) && Transferred(c, b, ok).tasks == c.tasks
  {
    hide GroupOf;
  }

  lemma FirstQuietly(c: Cache, k: nat, ok: bool)
    requires FirstTransferred(c, k, ok).Next?
    ensures Quietly(c, FirstTransferred(c, k, ok).cache, k) && StaysCollecting(c, FirstTransferred(c, k, ok).cache, k)
  {
    hide Transferred;
    TransferredQuietly(c, k, ListOf(c, k)[0], ok);
  }

  lemma {:induction false} RequestQuietly(c: Cache, k: nat, n: nat, ok: bool)
    requires RequestDone(c, k, n, ok).Next?
    ensures Quietly(c, RequestDone(c, k, n, ok).cache, k) && StaysCollecting(c, RequestDone(c, k, n, ok).cache, k)
    decreases n
  {
    hide FirstTransferred;
    if n > 0 {
      FirstQuietly(c, k, ok);
      RequestQuietly(FirstTransferred(c, k, ok).cache, k, n - 1, ok);
    }
  }

  /** The thread transfers buffers afterwards, or is as it was. */
  ghost predicate StaysCollecting(c: Cache, c': Cache, k: nat) {
    k in c'.tasks ==> c'.tasks[k].Transferring? || (k in c.tasks && c'.tasks[k] == c.tasks[k])
  }

  lemma GatherOneQuietly(c: Cache, k: nat, b: nat)
    requires GatherOne(c, k, b).Next?
    ensures Quietly(c, GatherOne(c, k, b).cache, k) && StaysCollecting(c, GatherOne(c, k, b).cache, k)
  {
    hide Without;
  }

  lemma {:induction false} GatherQuietly(c: Cache, k: nat, picks: seq<nat>)
    requires Gather(c, k, picks).Next?
    ensures Quietly(c, Gather(c, k, picks).cache, k) && StaysCollecting(c, Gather(c, k, picks).cache, k)
    decreases |picks|
  {
    hide GatherOne;
    if picks != [] {
      GatherOneQuietly(c, k, picks[0]);
      GatherQuietly(GatherOne(c, k, picks[0]).cache, k, picks[1..]);
    }
  }

  lemma PurgeOneQuietly(c: Cache, b: nat)
    requires PurgeOne(c, b).Next?
    ensures var c' := PurgeOne(c, b).cache;
            |c'.bufs| == |c.bufs| && c'.tasks == c.tasks && forall i | 0 <= i < |c.bufs| :: c'.bufs[i].key == c.bufs[i].key
  {
    hide GroupOf, Without, Discard;
    DiscardKeepsKeys(AddUsers(c, b, -1).(sync := Without(c.sync, b)), b);
    DiscardKeepsKeys(AddUsers(c, b, -1).(modified := Without(c.modified, b)), b);
    DiscardKeepsKeys(c.(lru := Without(c.lru, b)), b);
  }

  lemma DiscardKeepsKeys(c: Cache, b: nat)
    requires b < |c.bufs|
    ensures var c' := Discard(c, b);
            |c'.bufs| == |c.bufs| && c'.tasks == c.tasks && forall i | 0 <= i < |c.bufs| :: c'.bufs[i].key == c.bufs[i].key
  {
  }

  lemma {:induction false} PurgeQuietly(c: Cache, order: seq<nat>)
    requires Purge(c, order).Next?
    ensures var c' := Purge(c, order).cache;
            |c'.bufs| == |c.bufs| && c'.tasks == c.tasks && forall i | 0 <= i < |c.bufs| :: c'.bufs[i].key == c.bufs[i].key
    decreases |order|
  {
    hide PurgeOne;
    if order != [] {
      PurgeOneQuietly(c, order[0]);
      PurgeQuietly(PurgeOne(c, order[0]).cache, order[1..]);
    }
  }

  // ---- obtaining a buffer ----

  lemma ListedIsFree(c: Cache, b: nat, k: nat)
    requires Inv(c) && b in c.lru
    ensures b < |c.bufs| && !Has(c, k, b)
  {
    hide Active, Slot;
    assert b < |c.bufs| && Row(c, b);
    if Has(c, k, b) {
      OwnerFacts(c, k, b);
    }
  }

  lemma FromLruPolitely(c: Cache, k: nat, dd: nat)
    requires FromLru(c, dd).Source?
    ensures Politely(c, FromLru(c, dd).cache, k)
  {
    hide GroupIdle, Usable, Slots, OutsideGroup, Slot, GroupOf;
  }

  lemma RecyclePolitely(c: Cache, k: nat, b: nat, key: Key)
    requires Inv(c) && b in c.lru && Recycle(c, b, key).Next?
    ensures Politely(c, Recycle(c, b, key).cache, k) && Recycle(c, b, key).cache.tasks == c.tasks
  {
    hide Inv, Find;
    forall k' ensures !Has(c, k', b) {
      ListedIsFree(c, b, k');
    }
  }

  lemma TryGetPolitely(c: Cache, k: nat, purpose: Purpose, key: Key)
    requires Inv(c) && k !in c.tasks && TryGet(c, k, purpose, key).Next?
    ensures Politely(c, TryGet(c, k, purpose, key).cache, k)
  {
    hide Inv, Find, FromLru, Recycle, Access, Suited, Politely;
    if Find(c, key).Some? {
      FoundSome(c, key);
      AccessQuietly(c, k, Find(c, key).value, purpose, key);
    } else {
      FromLruFacts(c, key);
      match FromLru(c, key.dd)
      case NoBuffer => OneTaskPolitely(c, k, WaitingForBuffer(purpose, key));
      case Source(c0, b) =>
        FromLruPolitely(c, k, key.dd);
        RecyclePolitely(c0, k, b, key);
        var c1 := Recycle(c0, b, key).cache;
        AccessQuietly(c1, k, b, purpose, key);
        PolitelyOn(c, c0, c1, k);
        PolitelyOn(c, c1, Access(c1, k, b, purpose, key).cache, k);
    }
  }

  lemma OneTaskPolitely(c: Cache, k: nat, t: Task)
    ensures Politely(c, SetTask(c, k, t), k) && Politely(c, EndTask(c, k), k)
  {
  }

  lemma ReadAheadOnePolitely(c: Cache, k: nat, key: Key)
    requires Inv(c) && ReadAheadOne(c, k, key).Next?
    ensures Politely(c, ReadAheadOne(c, k, key).cache, k)
  {
    hide Inv, Find, FromLru, Recycle, Politely;
    OneTaskPolitely(c, k, Transferring([]));
    NothingPolitely(c, k);
    if Find(c, key).None? {
      FromLruFacts(c, key);
      var r := FromLru(c, key.dd);
      if r.Source? {
        FromLruPolitely(c, k, key.dd);
        RecyclePolitely(r.cache, k, r.b, key);
        var c1 := Recycle(r.cache, r.b, key).cache;
        PolitelyOn(c, r.cache, c1, k);
        AheadPolitely(c1, k, r.b);
        PolitelyOn(c, c1, ReadAheadOne(c, k, key).cache, k);
      }
    }
  }

  lemma NothingPolitely(c: Cache, k: nat)
    ensures Politely(c, c, k)
  {
  }

  lemma AheadPolitely(c: Cache, k: nat, b: nat)
    requires b < |c.bufs|
    ensures Politely(c, SetTask(SetState(AddUsers(c, b, 1), b, Transfer), k, Transferring(ListOf(c, k) + [b])), k)
  {
    hide GroupOf;
  }

  lemma {:induction false} ReadAheadPolitely(c: Cache, k: nat, keys: seq<Key>)
    requires Inv(c) && Collecting(c, k) && ReadAhead(c, k, keys).Next?
    ensures Politely(c, ReadAhead(c, k, keys).cache, k) && Collecting(ReadAhead(c, k, keys).cache, k)
    decreases |keys|
  {
    hide Inv, ReadAheadOne, Politely;
    NothingPolitely(c, k);
    if keys != [] {
      ReadAheadOneStep(c, k, keys[0]);
      ReadAheadOnePolitely(c, k, keys[0]);
      var c1 := ReadAheadOne(c, k, keys[0]).cache;
      if ListOf(c1, k) != ListOf(c, k) {
        ReadAheadPolitely(c1, k, keys[1..]);
        PolitelyOn(c, c1, ReadAhead(c1, k, keys[1..]).cache, k);
      }
    }
  }

  // ---- the block that a thread asked for ----

  /** The block that every thread asked for last. */
  function Noted(asked: map<nat, Key>, e: Event): map<nat, Key> {
    if e.Get? || e.Read? then asked[e.k := e.key] else asked
  }

  function Asked(asked: map<nat, Key>, events: seq<Event>): map<nat, Key>
    decreases |events|
  {
    if events == [] then asked else Asked(Noted(asked, events[0]), events[1..])
  }

  /** The thread waits for the block, or has a buffer of it, or is not one that asks for blocks. */
  ghost predicate WorksOn(c: Cache, k: nat, key: Key)
    requires k in c.tasks
  {
    match c.tasks[k]
    case Waiting(b, _, key') => key' == key && b < |c.bufs| && c.bufs[b].key == key
    case WaitingForBuffer(_, key') => key' == key
    case Reading(b) => b < |c.bufs| && c.bufs[b].key == key
    case Holding(b) => b < |c.bufs| && c.bufs[b].key == key
    case Releasing(b) => b < |c.bufs| && c.bufs[b].key == key
    case Transferring(_) => true
  }

  ghost predicate Asks(c: Cache, k: nat) {
    k in c.tasks && !c.tasks[k].Transferring?
  }

  ghost predicate Answered(c: Cache, asked: map<nat, Key>) {
    forall k | Asks(c, k) :: k in asked && WorksOn(c, k, asked[k])
  }

  /** A step changes nothing for the other threads. */
  lemma OthersAnswered(c: Cache, c': Cache, k: nat, asked: map<nat, Key>, asked': map<nat, Key>)
    requires Inv(c) && Inv(c') && Answered(c, asked) && Politely(c, c', k)
    requires forall k' | k' != k && k' in asked :: k' in asked' && asked'[k'] == asked[k']
    requires Asks(c', k) ==> k in asked' && WorksOn(c', k, asked'[k])
    ensures Answered(c', asked')
  {
    hide Inv;
    forall k' | Asks(c', k') ensures k' in asked' && WorksOn(c', k', asked'[k']) {
      if k' != k {
        assert Asks(c, k');
        OtherAnswered(c, c', k, k', asked[k']);
      }
    }
  }

  lemma OtherAnswered(c: Cache, c': Cache, k: nat, k': nat, key: Key)
    requires Inv(c) && Inv(c') && Politely(c, c', k) && k' != k && Asks(c', k') && k' in c.tasks && WorksOn(c, k', key)
    ensures WorksOn(c', k', key)
  {
    hide Formed, Lists, Keys, WaiterCounts, UserCounts, Awaited, Owners;
    match c.tasks[k']
    case Reading(b) => assert Has(c, k', b);
    case Holding(b) => assert Has(c, k', b);
    case Releasing(b) => assert Has(c, k', b);
    case _ =>
  }

  /** What the thread itself is left with, if no key changes. */
  lemma SameBlock(c: Cache, c': Cache, k: nat, b: nat, asked: map<nat, Key>)
    requires Inv(c') && Answered(c, asked) && Asks(c, k)
    requires c.tasks[k].Waiting? || c.tasks[k].Reading? || c.tasks[k].Holding? || c.tasks[k].Releasing?
    requires c.tasks[k].b == b
    requires Settles(c, c', k, b)
    ensures Asks(c', k) ==> k in asked && WorksOn(c', k, asked[k])
  {
    hide Formed, Lists, Keys, WaiterCounts, UserCounts, Awaited, Owners;
  }

  // ---- step by step ----

  lemma QuietIsPolite(c: Cache, c': Cache, k: nat)
    requires Quietly(c, c', k)
    ensures Politely(c, c', k)
  {
  }

  /** No key changes, and the thread still has at most the buffer `b`. */
  ghost predicate Settles(c: Cache, c': Cache, k: nat, b: nat) {
    && Quietly(c, c', k) && b < |c.bufs|
    && (k in c'.tasks && !(k in c.tasks && c'.tasks[k] == c.tasks[k]) ==>
          c'.tasks[k] == Holding(b) || c'.tasks[k] == Releasing(b) || c'.tasks[k] == Waiting(b, ForSync, c.bufs[b].key))
  }

  lemma DiscardQuietly(c: Cache, k: nat, b: nat)
    requires b < |c.bufs|
    ensures Settles(c, DiscardAfterAccess(c, k, b), k, b) && Settles(c, Discard(c, b), k, b)
    ensures Discard(c, b).tasks == c.tasks && |Discard(c, b).bufs| == |c.bufs|
  {
    hide GroupOf;
  }

  lemma ReleaseQuietly(c: Cache, k: nat, b: nat, syncing: bool)
    requires b < |c.bufs|
    ensures Release(c, k, b, syncing).Next? ==> Settles(c, Release(c, k, b, syncing).cache, k, b)
    ensures ReleaseModified(c, k, b, syncing).Next? ==> Settles(c, ReleaseModified(c, k, b, syncing).cache, k, b)
    ensures Settles(c, ToModified(c, k, b), k, b)
  {
    hide GroupOf, DiscardAfterAccess, ToModified, ToCached, Settles;
    DiscardQuietly(c, k, b);
    PutAwayQuietly(c, k, b);
  }

  lemma PutAwayQuietly(c: Cache, k: nat, b: nat)
    requires b < |c.bufs|
    ensures Settles(c, ToModified(c, k, b), k, b) && Settles(c, EndTask(ToCached(c, b), k), k, b)
    ensures Settles(c, SetTask(c, k, Releasing(b)), k, b) && Settles(c, c, k, b)
  {
    hide GroupOf;
  }

  lemma SyncQuietly(c: Cache, k: nat, b: nat)
    requires b < |c.bufs|
    ensures SyncBuffer(c, k, b).Next? ==> Settles(c, SyncBuffer(c, k, b).cache, k, b)
  {
    hide GroupOf, DiscardAfterAccess;
    DiscardQuietly(c, k, b);
  }

  lemma SyncDoneQuietly(c: Cache, k: nat, b: nat)
    requires b < |c.bufs|
    ensures SyncDone(Unwait(c, k, b), k, b).Next? ==> Settles(c, SyncDone(Unwait(c, k, b), k, b).cache, k, b)
  {
    hide GroupOf;
  }

  lemma ReadDoneQuietly(c: Cache, k: nat, b: nat, ok: bool)
    requires b < |c.bufs| && ReadDone(c, k, b, ok).Next?
    ensures Settles(c, ReadDone(c, k, b, ok).cache, k, b)
  {
    hide GroupOf, Without, Transferred;
    TransferredQuietly(c, k, b, ok);
  }

  /** The steps of a thread that waits for a sync or has a buffer. */
  predicate Settling(e: Event) {
    e.ReadEnds? || e.Releases? || e.ReleasesModified? || e.FinishRelease? || e.Syncs? || e.SyncAgain?
  }

  lemma BufferStepQuietly(c: Cache, e: Event)
    requires Inv(c) && Enabled(c, e) && Settling(e) && c.tasks[e.k].b < |c.bufs| && BufferStep(c, e).Next?
    ensures Settles(c, BufferStep(c, e).cache, e.k, c.tasks[e.k].b)
  {
    hide Inv, ReadDone, Release, ReleaseModified, SyncBuffer, SyncDone, Unwait, ToModified, Settles;
    var b := c.tasks[e.k].b;
    if e.ReadEnds? {
      ReadDoneQuietly(c, e.k, b, e.ok);
    } else if e.Syncs? {
      SyncQuietly(c, e.k, b);
    } else if e.SyncAgain? {
      SyncDoneQuietly(c, e.k, b);
    } else {
      ReleaseQuietly(c, e.k, b, if e.FinishRelease? then false else e.syncing);
    }
  }

  lemma SettlesAnswered(c: Cache, e: Event, asked: map<nat, Key>)
    requires Inv(c) && Enabled(c, e) && Settling(e) && Answered(c, asked)
    ensures Step(c, e).Next? && Answered(Step(c, e).cache, asked)
  {
    hide Inv, BufferStep, Answered, Politely, Quietly;
    StepIsSafe(c, e);
    WaiterAsks(c, e.k);
    BufferStepQuietly(c, e);
    var c' := Step(c, e).cache;
    QuietIsPolite(c, c', e.k);
    SameBlock(c, c', e.k, c.tasks[e.k].b, asked);
    OthersAnswered(c, c', e.k, asked, asked);
  }

  lemma WaiterAsks(c: Cache, k: nat)
    requires Inv(c) && k in c.tasks && (c.tasks[k].Waiting? || c.tasks[k].Reading? || c.tasks[k].Holding? || c.tasks[k].Releasing?)
    ensures c.tasks[k].b < |c.bufs|
  {
    hide Active, Slot;
    if !c.tasks[k].Waiting? {
      assert Has(c, k, c.tasks[k].b);
      OwnerFacts(c, k, c.tasks[k].b);
    }
  }

  lemma ObtainsAnswered(c: Cache, e: Event, asked: map<nat, Key>)
    requires Inv(c) && Enabled(c, e) && Answered(c, asked) && (e.Get? || e.Read? || e.Retry? || e.AccessAgain?)
    ensures Step(c, e).Next? && Answered(Step(c, e).cache, Noted(asked, e))
  {
    hide Inv, TryGet, Access, Unwait, Politely;
    StepIsSafe(c, e);
    ObtainsBlock(c, e);
    var c' := Step(c, e).cache;
    match e {
      case Get(k, key) => TryGetPolitely(c, k, ForGet, key);
      case Read(k, key) => TryGetPolitely(c, k, ForRead, key);
      case Retry(k) =>
        var t := c.tasks[k];
        OneTaskPolitely(c, k, t);
        IdleTask(c, EndTask(c, k), k);
        TryGetPolitely(EndTask(c, k), k, t.purpose, t.key);
        PolitelyOn(c, EndTask(c, k), c', k);
      case AccessAgain(k) =>
        WaiterAsks(c, k);
        var t := c.tasks[k];
        UnwaitPolitely(c, k, t.b);
        AccessQuietly(Unwait(c, k, t.b), k, t.b, t.purpose, t.key);
        PolitelyOn(c, Unwait(c, k, t.b), c', k);
    }
    OthersAnswered(c, c', e.k, asked, Noted(asked, e));
  }

  lemma UnwaitPolitely(c: Cache, k: nat, b: nat)
    requires b < |c.bufs|
    ensures Politely(c, Unwait(c, k, b), k) && |Unwait(c, k, b).bufs| == |c.bufs|
  {
    hide GroupOf;
  }

  /** Every step keeps every thread at the block that it asked for last. */
  lemma StepAnswered(c: Cache, e: Event, asked: map<nat, Key>)
    requires Inv(c) && Enabled(c, e) && Answered(c, asked)
    ensures Step(c, e).Next? && Answered(Step(c, e).cache, Noted(asked, e))
  {
    hide Inv, TryGet, ReadAhead, Gather, RequestDone, Purge, Answered, Politely, Quietly, BufferStep;
    StepIsSafe(c, e);
    var c' := Step(c, e).cache;
    if Settling(e) {
      SettlesAnswered(c, e, asked);
    } else if e.ReadAheadStarts? {
      ReadAheadPolitely(c, e.k, e.keys);
      OthersAnswered(c, c', e.k, asked, asked);
    } else if e.SwapOut? {
      GatherQuietly(c, e.k, e.picks);
      QuietIsPolite(c, c', e.k);
      OthersAnswered(c, c', e.k, asked, asked);
    } else if e.RequestEnds? {
      RequestQuietly(c, e.k, e.n, e.ok);
      QuietIsPolite(c, c', e.k);
      OthersAnswered(c, c', e.k, asked, asked);
    } else if e.PurgeDevice? {
      PurgeQuietly(c, e.order);
      AllAnswered(c, c', asked);
    } else {
      ObtainsAnswered(c, e, asked);
    }
  }

  lemma AllAnswered(c: Cache, c': Cache, asked: map<nat, Key>)
    requires Answered(c, asked) && c'.tasks == c.tasks && |c'.bufs| == |c.bufs|
    requires forall i | 0 <= i < |c.bufs| :: c'.bufs[i].key == c.bufs[i].key
    ensures Answered(c', asked)
  {
    forall k | Asks(c', k) ensures k in asked && WorksOn(c', k, asked[k]) {
      assert Asks(c, k);
    }
  }

  lemma {:induction false} RunAnswered(c: Cache, events: seq<Event>, c': Cache, asked: map<nat, Key>)
    requires Inv(c) && Reaches(c, events, c') && Answered(c, asked)
    ensures Answered(c', Asked(asked, events))
    decreases |events|
  {
    hide Inv, Step, Enabled, Answered;
    if events != [] {
      StepIsSafe(c, events[0]);
      StepAnswered(c, events[0], asked);
      RunAnswered(Step(c, events[0]).cache, events[1..], c', Noted(asked, events[0]));
    }
  }

  /** In every run a caller that holds a buffer holds the block that it asked for last. */
  lemma HoldersHaveTheirBlock(maxBds: nat, n: nat, need: seq<nat>, events: seq<Event>, c: Cache, k: nat)
    requires maxBds > 0 && n % maxBds == 0 && forall d | 0 <= d < |need| :: 1 <= need[d] <= maxBds
    requires Reaches(Initial(maxBds, n, need), events, c) && k in c.tasks && c.tasks[k].Holding?
    ensures var asked, b := Asked(map[], events), c.tasks[k].b; k in asked && b < |c.bufs| && c.bufs[b].key == asked[k]
  {
    hide Inv, Step, Enabled, Reaches;
    var start := Initial(maxBds, n, need);
    InitialSafe(maxBds, n, need);
    assert Answered(start, map[]);
    RunAnswered(start, events, c, map[]);
    assert Asks(c, k);
  }
}
