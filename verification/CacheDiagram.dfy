/**
 The state diagram of the buffers.  Every step of the cache moves every buffer along paths of the diagram
 whose edges bear the step's own labels, with one exception: a release that was held back during a sync.
 */
module CacheDiagram {
  import opened Basics
  import opened CacheState
  import opened CacheSteps
  import opened CacheSafety
  import opened CacheTransfers
  import opened CacheRecycle
  import opened CacheRealloc
  import opened CacheObtain
  import opened CacheRun

  datatype Label =
    | Recycle | Get | Read | NobodyWaits | Purge | Reallocate | TransferDone | TransferError | SwapOut
    | Release | ReleaseModified | Sync

  /** The edges of the diagram, but for the one that changes the block size. */
  predicate Edge(mark: Label, s: State, s': State) {
    match mark
    case Recycle => (s == State.Free || s == Cached) && s' == Empty
    case Get => (s == Empty && s' == AccessEmpty) || (s == Cached && s' == AccessCached) || (s == Modified && s' == AccessModified)
    case Read => (s == Empty && s' == Transfer) || (s == Cached && s' == AccessCached) || (s == Modified && s' == AccessModified)
    case NobodyWaits => s == Empty && s' == State.Free
    case Purge =>
      || ((s == Cached || s == Modified || s == State.Sync) && s' == Empty)
      || (s == Transfer && s' == TransferPurged)
      || ((s == AccessCached || s == AccessModified || s == AccessEmpty) && s' == AccessPurged)
    case Reallocate => s == Cached && s' == State.Free
    case TransferDone => (s == Transfer && s' == Cached) || (s == TransferPurged && s' == Empty)
    case TransferError => (s == Transfer || s == TransferPurged) && s' == Empty
    case SwapOut => (s == Modified || s == State.Sync) && s' == Transfer
    case Release =>
      || (s == AccessCached && s' == Cached) || (s == AccessModified && s' == Modified)
      || ((s == AccessEmpty || s == AccessPurged) && s' == Empty)
    case ReleaseModified =>
      || ((s == AccessCached || s == AccessModified || s == AccessEmpty) && s' == Modified)
      || (s == AccessPurged && s' == Empty)
    case Sync =>
      || ((s == AccessCached || s == AccessModified || s == AccessEmpty) && s' == State.Sync)
      || (s == AccessPurged && s' == Empty)
  }

  /** The labels a step may use. A finished read is at once taken over by its reader. */
  function Labels(c: Cache, e: Event): set<Label> {
    match e
    case Get(_, _) => {Recycle, Reallocate, Label.Get}
    case Read(_, _) => {Recycle, Reallocate, Label.Read}
    case Retry(k) => {Recycle, Reallocate, Wanted(c, k)}
    case AccessAgain(k) => {Wanted(c, k)}
    case SyncAgain(_) => {NobodyWaits}
    case ReadEnds(_, ok) => if ok then {TransferDone, Label.Read} else {TransferError, NobodyWaits}
    case Releases(_, _) => {Release, NobodyWaits}
    case ReleasesModified(_, _) => {ReleaseModified, NobodyWaits}
    case FinishRelease(_) => {ReleaseModified}
    case Syncs(_) => {Label.Sync, NobodyWaits}
    case ReadAheadStarts(_, _) => {Recycle, Reallocate, Label.Read}
    case SwapOut(_, _) => {Label.SwapOut}
    case RequestEnds(_, _, ok) => if ok then {TransferDone, NobodyWaits} else {TransferError, NobodyWaits}
    case PurgeDevice(_, _) => {Purge, NobodyWaits}
  }

  function Wanted(c: Cache, k: nat): Label {
    if k in c.tasks && (c.tasks[k].Waiting? || c.tasks[k].WaitingForBuffer?) && c.tasks[k].purpose == ForRead then Label.Read else Label.Get
  }

  predicate Move(labels: set<Label>, s: State, s': State) {
    exists l :: l in labels && Edge(l, s, s')
  }

  predicate Walk(labels: set<Label>, path: seq<State>) {
    |path| > 0 && forall i | 0 < i < |path| :: Move(labels, path[i - 1], path[i])
  }

  /** There is a path in the diagram from one state to the other. */
  ghost predicate Leads(labels: set<Label>, s: State, s': State) {
    exists path :: Walk(labels, path) && path[0] == s && path[|path| - 1] == s'
  }

  lemma Stays(labels: set<Label>, s: State)
    ensures Leads(labels, s, s)
  {
    assert Walk(labels, [s]);
  }

  lemma Along(labels: set<Label>, l: Label, s: State, s': State)
    requires l in labels && Edge(l, s, s')
    ensures Leads(labels, s, s')
  {
    var path := [s, s'];
    assert Move(labels, s, s');
    hide Edge, Move;
    assert Walk(labels, path);
  }

  lemma Chain(labels: set<Label>, s: State, m: State, s': State)
    requires Leads(labels, s, m) && Leads(labels, m, s')
    ensures Leads(labels, s, s')
  {
    hide Edge, Move;
    var p :| Walk(labels, p) && p[0] == s && p[|p| - 1] == m;
    var q :| Walk(labels, q) && q[0] == m && q[|q| - 1] == s';
    var r := p + q[1..];
    forall i | 0 < i < |r| ensures Move(labels, r[i - 1], r[i]) {
      if i >= |p| {
        var j := i - |p| + 1;
        assert r[i] == q[j] && r[i - 1] == q[j - 1];
      } else {
        assert r[i] == p[i] && r[i - 1] == p[i - 1];
      }
    }
    assert Walk(labels, r);
  }

  // ---- the steps, buffer by buffer ----

  /** Every buffer moves along the diagram. Descriptors that a re-slicing takes or makes are compared as well. */
  ghost predicate Follows(labels: set<Label>, c: Cache, c': Cache) {
    |c'.bufs| == |c.bufs| && forall i | 0 <= i < |c.bufs| :: Leads(labels, c.bufs[i].state, c'.bufs[i].state)
  }

  lemma Then(labels: set<Label>, c: Cache, m: Cache, c': Cache)
    requires Follows(labels, c, m) && Follows(labels, m, c')
    ensures Follows(labels, c, c')
  {
    hide Leads;
    forall i | 0 <= i < |c.bufs| ensures Leads(labels, c.bufs[i].state, c'.bufs[i].state) {
      Chain(labels, c.bufs[i].state, m.bufs[i].state, c'.bufs[i].state);
    }
  }

  /** Only buffer `b` changes its state. */
  ghost predicate Only(c: Cache, c': Cache, b: nat) {
    |c'.bufs| == |c.bufs| && forall i | 0 <= i < |c.bufs| && i != b :: c'.bufs[i].state == c.bufs[i].state
  }

  lemma OneMoves(labels: set<Label>, c: Cache, c': Cache, b: nat)
    requires Only(c, c', b) && b < |c.bufs| && Leads(labels, c.bufs[b].state, c'.bufs[b].state)
    ensures Follows(labels, c, c')
  {
    hide Leads;
    forall i | 0 <= i < |c.bufs| ensures Leads(labels, c.bufs[i].state, c'.bufs[i].state) {
      Stays(labels, c.bufs[i].state);
    }
  }

  lemma OneEdge(labels: set<Label>, l: Label, c: Cache, c': Cache, b: nat)
    requires Only(c, c', b) && b < |c.bufs| && l in labels
    requires c'.bufs[b].state == c.bufs[b].state || Edge(l, c.bufs[b].state, c'.bufs[b].state)
    ensures Follows(labels, c, c')
  {
    hide Leads;
    if c'.bufs[b].state == c.bufs[b].state {
      Stays(labels, c.bufs[b].state);
    } else {
      Along(labels, l, c.bufs[b].state, c'.bufs[b].state);
    }
    OneMoves(labels, c, c', b);
  }

  function Reason(purpose: Purpose): Label {
    if purpose == ForRead then Label.Read else Label.Get
  }

  lemma AccessFollows(labels: set<Label>, c: Cache, k: nat, b: nat, purpose: Purpose, key: Key)
    requires b < |c.bufs| && Reason(purpose) in labels && Access(c, k, b, purpose, key).Next?
    ensures Follows(labels, c, Access(c, k, b, purpose, key).cache)
  {
    hide Leads, GroupOf;
    OneEdge(labels, Reason(purpose), c, Access(c, k, b, purpose, key).cache, b);
  }

  // ---- from the LRU list ----

  lemma ReallocStates(c: Cache, g: nat, n: nat, i: nat)
    requires Inv(c) && Quiet(c, g) && g < |c.groups| && 1 <= n <= c.maxBds && i < |c.bufs|
    ensures var s, s' := c.bufs[i].state, Realloc(c, g, n).bufs[i].state; s' == s || (s' == State.Free && InLru(s))
  {
    hide Active, Slot, Slots, OutsideGroup, Lists, Keys, WaiterCounts, UserCounts, Owners, WaitKeys, GroupOf;
  }

  lemma ReallocFollows(labels: set<Label>, c: Cache, g: nat, n: nat)
    requires Inv(c) && g < |c.groups| && c.groups[g].users == 0 && 1 <= n <= c.maxBds && Reallocate in labels
    ensures Follows(labels, c, Realloc(c, g, n))
  {
    hide Leads, Inv, Quiet;
    IdleIsQuiet(c, g);
    var c' := Realloc(c, g, n);
    assert |c'.bufs| == |c.bufs|;
    hide Realloc;
    forall i | 0 <= i < |c.bufs| ensures Leads(labels, c.bufs[i].state, c'.bufs[i].state) {
      ReallocStates(c, g, n, i);
      Stays(labels, c.bufs[i].state);
      Along(labels, Reallocate, Cached, State.Free);
    }
  }

  lemma FromLruFollows(labels: set<Label>, c: Cache, dd: nat)
    requires Inv(c) && Reallocate in labels
    ensures var r := FromLru(c, dd); r.Source? ==> Follows(labels, c, r.cache)
  {
    hide Inv, Leads, Realloc, GroupIdle;
    forall i | 0 <= i < |c.bufs| ensures Leads(labels, c.bufs[i].state, c.bufs[i].state) {
      Stays(labels, c.bufs[i].state);
    }
    var first := FirstUsable(c, c.lru, dd);
    if first.Some? {
      var g, n := GroupOf(c, first.value), c.need[dd];
      if c.groups[g].bdsPerGroup != n && 1 <= n <= c.maxBds {
        ReallocFollows(labels, c, g, n);
      }
    }
  }

  lemma RecycleFollows(labels: set<Label>, c: Cache, b: nat, key: Key)
    requires Recycle in labels && b < |c.bufs|
    ensures var o := CacheSteps.Recycle(c, b, key); o.Next? ==> Follows(labels, c, o.cache)
  {
    hide Leads, Find;
    var o := CacheSteps.Recycle(c, b, key);
    if o.Next? {
      OneEdge(labels, Recycle, c, o.cache, b);
    }
  }

  lemma TryGetFollows(labels: set<Label>, c: Cache, k: nat, purpose: Purpose, key: Key)
    requires Inv(c) && k !in c.tasks && {Recycle, Reallocate, Reason(purpose)} <= labels
    ensures var o := TryGet(c, k, purpose, key); o.Next? && Follows(labels, c, o.cache)
  {
    hide Inv, Leads, Find, FromLru, CacheSteps.Recycle, Access, Suited;
    TryGetStep(c, k, purpose, key);
    if Find(c, key).Some? {
      FoundSome(c, key);
      AccessFollows(labels, c, k, Find(c, key).value, purpose, key);
    } else {
      FromLruFacts(c, key);
      FromLruFollows(labels, c, key.dd);
      match FromLru(c, key.dd)
      case NoBuffer =>
        forall i | 0 <= i < |c.bufs| ensures Leads(labels, c.bufs[i].state, c.bufs[i].state) {
          Stays(labels, c.bufs[i].state);
        }
      case Source(c0, b) =>
        RecycleFollows(labels, c0, b, key);
        var c1 := CacheSteps.Recycle(c0, b, key).cache;
        AccessFollows(labels, c1, k, b, purpose, key);
        var c2 := Access(c1, k, b, purpose, key).cache;
        Then(labels, c, c0, c1);
        Then(labels, c, c1, c2);
    }
  }

  lemma ReadAheadOneFollows(labels: set<Label>, c: Cache, k: nat, key: Key)
    requires Inv(c) && Collecting(c, k) && {Recycle, Reallocate, Label.Read} <= labels
    ensures var o := ReadAheadOne(c, k, key); o.Next? ==> Follows(labels, c, o.cache)
  {
    hide Inv, Leads, Find, FromLru, CacheSteps.Recycle, Follows, Suited;
    Same(labels, c);
    if Find(c, key).None? {
      FromLruFacts(c, key);
      FromLruFollows(labels, c, key.dd);
      var r := FromLru(c, key.dd);
      if r.Source? {
        AheadFollows(labels, c, r.cache, k, r.b, key);
      }
    }
  }

  lemma AheadFollows(labels: set<Label>, c: Cache, c0: Cache, k: nat, b: nat, key: Key)
    requires {Recycle, Reallocate, Label.Read} <= labels && Follows(labels, c, c0) && b < |c0.bufs|
    ensures var o := CacheSteps.Recycle(c0, b, key);
            o.Next? ==>
              && b < |o.cache.bufs|
              && Follows(labels, c, SetTask(SetState(AddUsers(o.cache, b, 1), b, Transfer), k, Transferring(ListOf(o.cache, k) + [b])))
  {
    hide Leads, CacheSteps.Recycle, Follows, GroupOf;
    var o := CacheSteps.Recycle(c0, b, key);
    if o.Next? {
      RecycleFollows(labels, c0, b, key);
      RecycledEmpty(c0, b, key);
      var c1 := o.cache;
      var c2 := SetTask(SetState(AddUsers(c1, b, 1), b, Transfer), k, Transferring(ListOf(c1, k) + [b]));
      OneEdge(labels, Label.Read, c1, c2, b);
      Then(labels, c, c0, c1);
      Then(labels, c, c1, c2);
    }
  }

  lemma Same(labels: set<Label>, c: Cache)
    ensures Follows(labels, c, c)
  {
    hide Leads;
    forall i | 0 <= i < |c.bufs| ensures Leads(labels, c.bufs[i].state, c.bufs[i].state) {
      Stays(labels, c.bufs[i].state);
    }
  }

  lemma RecycledEmpty(c: Cache, b: nat, key: Key)
    requires b < |c.bufs| && CacheSteps.Recycle(c, b, key).Next?
    ensures var c1 := CacheSteps.Recycle(c, b, key).cache; b < |c1.bufs| && c1.bufs[b].state == Empty
  {
    hide Find;
  }

  lemma {:induction false} ReadAheadFollows(labels: set<Label>, c: Cache, k: nat, keys: seq<Key>)
    requires Inv(c) && Collecting(c, k) && {Recycle, Reallocate, Label.Read} <= labels
    ensures var o := ReadAhead(c, k, keys); o.Next? && Follows(labels, c, o.cache)
    decreases |keys|
  {
    hide Inv, Leads, ReadAheadOne, Follows;
    Same(labels, c);
    if keys != [] {
      ReadAheadOneStep(c, k, keys[0]);
      ReadAheadOneFollows(labels, c, k, keys[0]);
      var c1 := ReadAheadOne(c, k, keys[0]).cache;
      if ListOf(c1, k) != ListOf(c, k) {
        ReadAheadFollows(labels, c1, k, keys[1..]);
        Then(labels, c, c1, ReadAhead(c1, k, keys[1..]).cache);
      }
    }
  }

  // ---- giving back, transfers, purge ----

  /** A buffer that becomes empty may be free at once. */
  lemma Emptied(labels: set<Label>, l: Label, c: Cache, c': Cache, b: nat)
    requires Only(c, c', b) && b < |c.bufs| && l in labels && NobodyWaits in labels && Edge(l, c.bufs[b].state, Empty)
    requires c'.bufs[b].state == Empty || c'.bufs[b].state == State.Free
    ensures Follows(labels, c, c')
  {
    hide Leads;
    Along(labels, l, c.bufs[b].state, Empty);
    if c'.bufs[b].state == State.Free {
      Along(labels, NobodyWaits, Empty, State.Free);
      Chain(labels, c.bufs[b].state, Empty, State.Free);
    }
    OneMoves(labels, c, c', b);
  }

  lemma ReleaseFollows(c: Cache, k: nat, b: nat, syncing: bool)
    requires b < |c.bufs|
    ensures var o := CacheSteps.Release(c, k, b, syncing); o.Next? ==> Follows({Release, NobodyWaits}, c, o.cache)
  {
    hide Leads, GroupOf;
    var o := CacheSteps.Release(c, k, b, syncing);
    if c.bufs[b].state == AccessEmpty || c.bufs[b].state == AccessPurged {
      Emptied({Release, NobodyWaits}, Release, c, o.cache, b);
    } else if o.Next? {
      OneEdge({Release, NobodyWaits}, Release, c, o.cache, b);
    }
  }

  lemma ReleaseModifiedFollows(c: Cache, k: nat, b: nat, syncing: bool)
    requires b < |c.bufs|
    ensures var o := CacheSteps.ReleaseModified(c, k, b, syncing); o.Next? ==> Follows({ReleaseModified, NobodyWaits}, c, o.cache)
  {
    hide Leads, GroupOf;
    var o := CacheSteps.ReleaseModified(c, k, b, syncing);
    if c.bufs[b].state == AccessPurged {
      Emptied({ReleaseModified, NobodyWaits}, ReleaseModified, c, o.cache, b);
    } else if o.Next? {
      OneEdge({ReleaseModified, NobodyWaits}, ReleaseModified, c, o.cache, b);
    }
  }

  lemma SyncFollows(c: Cache, k: nat, b: nat)
    requires b < |c.bufs|
    ensures var o := SyncBuffer(c, k, b); o.Next? ==> Follows({Label.Sync, NobodyWaits}, c, o.cache)
  {
    hide Leads, GroupOf;
    var o := SyncBuffer(c, k, b);
    if c.bufs[b].state == AccessPurged {
      Emptied({Label.Sync, NobodyWaits}, Label.Sync, c, o.cache, b);
    } else if o.Next? {
      OneEdge({Label.Sync, NobodyWaits}, Label.Sync, c, o.cache, b);
    }
  }

  lemma SyncDoneFollows(c: Cache, k: nat, b: nat)
    requires b < |c.bufs|
    ensures var o := SyncDone(c, k, b); o.Next? ==> Follows({NobodyWaits}, c, o.cache)
  {
    hide Leads, GroupOf;
    var o := SyncDone(c, k, b);
    if o.Next? {
      OneEdge({NobodyWaits}, NobodyWaits, c, o.cache, b);
    }
  }

  function Finished(ok: bool): Label {
    if ok then TransferDone else TransferError
  }

  lemma TransferredFollows(labels: set<Label>, c: Cache, b: nat, ok: bool)
    requires b < |c.bufs| && InTransfer(c.bufs[b].state) && {Finished(ok), NobodyWaits} <= labels
    ensures Follows(labels, c, Transferred(c, b, ok))
  {
    hide Leads, GroupOf;
    var c' := Transferred(c, b, ok);
    if ok && c.bufs[b].state == Transfer {
      OneEdge(labels, TransferDone, c, c', b);
    } else {
      Emptied(labels, Finished(ok), c, c', b);
    }
  }

  lemma ReadDoneFollows(c: Cache, k: nat, b: nat, ok: bool)
    requires b < |c.bufs| && InTransfer(c.bufs[b].state) && (ok ==> c.bufs[b].state == Transfer) && ReadDone(c, k, b, ok).Next?
    ensures Follows(if ok then {TransferDone, Label.Read} else {TransferError, NobodyWaits}, c, ReadDone(c, k, b, ok).cache)
  {
    hide Leads, GroupOf;
    var c' := ReadDone(c, k, b, ok).cache;
    if ok {
      var labels := {TransferDone, Label.Read};
      Along(labels, TransferDone, Transfer, Cached);
      Along(labels, Label.Read, Cached, AccessCached);
      Chain(labels, Transfer, Cached, AccessCached);
      OneMoves(labels, c, c', b);
    } else {
      TransferredFollows({TransferError, NobodyWaits}, c, b, ok);
    }
  }

  lemma {:induction false} RequestDoneFollows(labels: set<Label>, c: Cache, k: nat, n: nat, ok: bool)
    requires Inv(c) && n <= |ListOf(c, k)| && {Finished(ok), NobodyWaits} <= labels
    ensures var o := RequestDone(c, k, n, ok); o.Next? && Follows(labels, c, o.cache)
    decreases n
  {
    hide Inv, Leads, Transferred, Yields, Follows;
    Same(labels, c);
    if n > 0 {
      var list := ListOf(c, k);
      TailYields(c, k);
      TransferredStep(c, k, list[0], ok, if |list| == 1 then None else Some(Transferring(list[1..])));
      OnTransfer(c, k, list[0]);
      TransferredFollows(labels, c, list[0], ok);
      var c1 := FirstTransferred(c, k, ok).cache;
      StatesOnly(labels, c, Transferred(c, list[0], ok), c1);
      RequestDoneFollows(labels, c1, k, n - 1, ok);
      Then(labels, c, c1, RequestDone(c1, k, n - 1, ok).cache);
    }
  }

  lemma StatesOnly(labels: set<Label>, c: Cache, m: Cache, c': Cache)
    requires Follows(labels, c, m) && c'.bufs == m.bufs
    ensures Follows(labels, c, c')
  {
  }

  lemma OnTransfer(c: Cache, k: nat, b: nat)
    requires Inv(c) && b in ListOf(c, k) && b < |c.bufs|
    ensures InTransfer(c.bufs[b].state)
  {
    hide Active, Slot;
    assert Has(c, k, b);
    OwnerFacts(c, k, b);
  }

  lemma {:induction false} GatherFollows(c: Cache, k: nat, picks: seq<nat>)
    requires Gather(c, k, picks).Next?
    ensures Follows({Label.SwapOut}, c, Gather(c, k, picks).cache)
    decreases |picks|
  {
    hide Leads, Follows, GatherOne;
    Same({Label.SwapOut}, c);
    if picks != [] {
      GatherOneFollows(c, k, picks[0]);
      var c1 := GatherOne(c, k, picks[0]).cache;
      GatherFollows(c1, k, picks[1..]);
      Then({Label.SwapOut}, c, c1, Gather(c1, k, picks[1..]).cache);
    }
  }

  lemma GatherOneFollows(c: Cache, k: nat, b: nat)
    requires GatherOne(c, k, b).Next?
    ensures Follows({Label.SwapOut}, c, GatherOne(c, k, b).cache)
  {
    hide Leads;
    OneEdge({Label.SwapOut}, Label.SwapOut, c, GatherOne(c, k, b).cache, b);
  }

  lemma {:induction false} PurgeFollows(c: Cache, order: seq<nat>)
    requires CacheSteps.Purge(c, order).Next?
    ensures Follows({Label.Purge, NobodyWaits}, c, CacheSteps.Purge(c, order).cache)
    decreases |order|
  {
    hide Leads, Follows, PurgeOne;
    var labels := {Label.Purge, NobodyWaits};
    Same(labels, c);
    if order != [] {
      PurgeOneFollows(c, order[0]);
      var c1 := PurgeOne(c, order[0]).cache;
      PurgeFollows(c1, order[1..]);
      Then(labels, c, c1, CacheSteps.Purge(c1, order[1..]).cache);
    }
  }

  lemma PurgeOneFollows(c: Cache, b: nat)
    requires PurgeOne(c, b).Next?
    ensures Follows({Label.Purge, NobodyWaits}, c, PurgeOne(c, b).cache)
  {
    hide Leads, GroupOf, Without;
    var labels, c' := {Label.Purge, NobodyWaits}, PurgeOne(c, b).cache;
    var s := c.bufs[b].state;
    if s == State.Sync || s == Modified || s == Cached {
      Emptied(labels, Label.Purge, c, c', b);
    } else {
      OneEdge(labels, Label.Purge, c, c', b);
    }
  }

  // ---- every step ----

  /** A release that was held back while its buffer was purged. */
  ghost predicate LatePurge(c: Cache, e: Event) {
    e.FinishRelease? && BufferOf(c, e.k) < |c.bufs| && c.bufs[BufferOf(c, e.k)].state == AccessPurged
  }

  lemma RetryFollows(c: Cache, k: nat)
    requires Inv(c) && Enabled(c, Retry(k))
    ensures var o := Step(c, Retry(k)); o.Next? && Follows(Labels(c, Retry(k)), c, o.cache)
  {
    hide Inv, Leads, TryGet;
    var t := c.tasks[k];
    IdleTask(c, EndTask(c, k), k);
    TryGetFollows(Labels(c, Retry(k)), EndTask(c, k), k, t.purpose, t.key);
  }

  lemma AccessAgainFollows(c: Cache, k: nat)
    requires Inv(c) && Enabled(c, AccessAgain(k))
    ensures var o := Step(c, AccessAgain(k)); o.Next? && Follows(Labels(c, AccessAgain(k)), c, o.cache)
  {
    hide Inv, Leads, Access, GroupOf;
    StepIsSafe(c, AccessAgain(k));
    var t := c.tasks[k];
    AccessFollows(Labels(c, AccessAgain(k)), Unwait(c, k, t.b), k, t.b, t.purpose, t.key);
  }

  lemma SyncAgainFollows(c: Cache, k: nat)
    requires Inv(c) && Enabled(c, SyncAgain(k))
    ensures var o := Step(c, SyncAgain(k)); o.Next? && Follows(Labels(c, SyncAgain(k)), c, o.cache)
  {
    hide Inv, Leads, SyncDone, GroupOf;
    StepIsSafe(c, SyncAgain(k));
    SyncDoneFollows(Unwait(c, k, c.tasks[k].b), k, c.tasks[k].b);
  }

  lemma ReadEndsFollows(c: Cache, k: nat, ok: bool)
    requires Inv(c) && Enabled(c, ReadEnds(k, ok))
    ensures var o := Step(c, ReadEnds(k, ok)); o.Next? && Follows(Labels(c, ReadEnds(k, ok)), c, o.cache)
  {
    hide Inv, Leads, ReadDone, Follows;
    StepIsSafe(c, ReadEnds(k, ok));
    OnRead(c, k);
    ReadDoneFollows(c, k, c.tasks[k].b, ok);
  }

  lemma OnRead(c: Cache, k: nat)
    requires Inv(c) && k in c.tasks && c.tasks[k].Reading?
    ensures c.tasks[k].b < |c.bufs| && InTransfer(c.bufs[c.tasks[k].b].state)
  {
    hide Active, Slot;
    assert Has(c, k, c.tasks[k].b);
    OwnerFacts(c, k, c.tasks[k].b);
  }

  lemma FinishReleaseFollows(c: Cache, k: nat)
    requires Inv(c) && Enabled(c, FinishRelease(k))
    ensures var o := Step(c, FinishRelease(k)); o.Next? && (Follows({ReleaseModified}, c, o.cache) <==> !LatePurge(c, FinishRelease(k)))
  {
    hide Inv, Leads;
    StepIsSafe(c, FinishRelease(k));
    var b := c.tasks[k].b;
    HeldInRange(c, k, b);
    var c' := Step(c, FinishRelease(k)).cache;
    if c.bufs[b].state == AccessPurged {
      PurgedIsNotModified();
      assert !Leads({ReleaseModified}, c.bufs[b].state, c'.bufs[b].state);
    } else {
      OneEdge({ReleaseModified}, ReleaseModified, c, c', b);
    }
  }

  /** It does happen that a purge hits a buffer whose release is held back, and the next step then leaves the diagram. */
  lemma PurgeHitsRelease() returns (events: seq<Event>, c: Cache)
    ensures Reaches(Initial(1, 1, [1]), events, c) && Enabled(c, FinishRelease(0)) && LatePurge(c, FinishRelease(0))
    ensures var o := Step(c, FinishRelease(0)); o.Next? && !Follows({ReleaseModified}, c, o.cache)
  {
    hide Inv, Follows, Step, Enabled, Reaches;
    var start, get, release, purge := Initial(1, 1, [1]), CacheRun.Get(0, Key(0, 0)), ReleasesModified(0, true), PurgeDevice(0, [0]);
    events, c := [] + [get] + [release] + [purge], InUse(AccessPurged, Releasing(0));
    Obtains();
    HeldBackOnce();
    Purged(AccessEmpty, Releasing(0));
    NoStep(start);
    OneStepMore(start, [], start, get);
    OneStepMore(start, [] + [get], InUse(AccessEmpty, Holding(0)), release);
    OneStepMore(start, [] + [get] + [release], InUse(AccessEmpty, Releasing(0)), purge);
    EveryRunIsSafe(1, 1, [1], events, c);
    CanFinish(c);
    FinishReleaseFollows(c, 0);
  }

  lemma CanFinish(c: Cache)
    requires c == InUse(AccessPurged, Releasing(0))
    ensures Enabled(c, FinishRelease(0))
  {
  }

  lemma PurgedIsNotModified()
    ensures !Leads({ReleaseModified}, AccessPurged, Modified)
  {
    forall path | Walk({ReleaseModified}, path) && path[0] == AccessPurged ensures path[|path| - 1] != Modified {
      if |path| > 1 {
        assert Move({ReleaseModified}, path[0], path[1]);
        assert path[1] == Empty;
        assert |path| > 2 ==> Move({ReleaseModified}, path[1], path[2]);
      }
    }
  }

  /** Every step moves every buffer along the diagram. */
  lemma StepFollows(c: Cache, e: Event)
    requires Inv(c) && Enabled(c, e) && !LatePurge(c, e)
    ensures Step(c, e).Next? && Follows(Labels(c, e), c, Step(c, e).cache)
  {
    hide Inv, Follows, TryGet, ReadAhead, Gather, RequestDone, CacheSteps.Purge, CacheSteps.Release, CacheSteps.ReleaseModified, SyncBuffer;
    StepIsSafe(c, e);
    match e
    case Get(k, key) => TryGetFollows(Labels(c, e), c, k, ForGet, key);
    case Read(k, key) => TryGetFollows(Labels(c, e), c, k, ForRead, key);
    case Retry(k) => RetryFollows(c, k);
    case AccessAgain(k) => AccessAgainFollows(c, k);
    case SyncAgain(k) => SyncAgainFollows(c, k);
    case ReadEnds(k, ok) => ReadEndsFollows(c, k, ok);
    case Releases(k, syncing) => ReleaseFollows(c, k, c.tasks[k].b, syncing);
    case ReleasesModified(k, syncing) => ReleaseModifiedFollows(c, k, c.tasks[k].b, syncing);
    case FinishRelease(k) => FinishReleaseFollows(c, k);
    case Syncs(k) => SyncFollows(c, k, c.tasks[k].b);
    case ReadAheadStarts(k, keys) => ReadAheadFollows(Labels(c, e), c, k, keys);
    case SwapOut(k, picks) => GatherFollows(c, k, picks);
    case RequestEnds(k, n, ok) => RequestDoneFollows(Labels(c, e), c, k, n, ok);
    case PurgeDevice(_, order) => PurgeFollows(c, order);
  }
}
