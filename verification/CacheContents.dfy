/**
 What is in the buffers and on the medium. Over whole runs a buffer that a caller holds has what was last released as
 modified for its block, or else what the medium has.
 */
module CacheContents {
  import opened Basics
  import opened CacheState
  import opened CacheSteps
  import opened CacheSafety
  import opened CacheTransfers
  import opened CacheRecycle
  import opened CacheRealloc
  import opened BlockOrder
  import opened CacheObtain
  import opened CacheRun
  import D = CacheDiagram

  /**
   The contents of every buffer and of every block of the medium; what a caller may expect of every block; and the
   threads whose transfers are writes.
   */
  datatype World<V> = World(held: seq<V>, medium: Key -> V, store: Key -> V, writers: set<nat>)

  /** What a caller releases, and what a failed write leaves on the medium. */
  datatype Input<V> = Input(value: V, lost: Key -> V)

  function Put<V>(m: Key -> V, key: Key, v: V): Key -> V {
    (x: Key) => if x == key then v else m(x)
  }

  // ---- what the steps do to the contents ----

  /** A caller releases its buffer as modified; if the block was purged meanwhile, its data is dropped. */
  ghost function Written<V>(c: Cache, d: World<V>, b: nat, v: V): World<V> {
    if b >= |c.bufs| || b >= |d.held| || c.bufs[b].state == AccessPurged then d
    else d.(held := d.held[b := v], store := Put(d.store, c.bufs[b].key, v))
  }

  /** A release that was held back ends. After a purge the data of the caller comes back. */
  ghost function CameBack<V>(c: Cache, d: World<V>, b: nat): World<V> {
    if b < |c.bufs| && b < |d.held| && c.bufs[b].state == AccessPurged then d.(store := Put(d.store, c.bufs[b].key, d.held[b])) else d
  }

  ghost function Fetched<V>(c: Cache, d: World<V>, b: nat, ok: bool): World<V> {
    if ok && b < |c.bufs| && b < |d.held| && c.bufs[b].state == Transfer then d.(held := d.held[b := d.medium(c.bufs[b].key)]) else d
  }

  /** The end of a write; what is not on the medium then is lost. */
  ghost function Stored<V>(c: Cache, d: World<V>, b: nat, ok: bool, lost: Key -> V): World<V> {
    if b >= |c.bufs| || b >= |d.held| then d
    else
      var key := c.bufs[b].key;
      var medium := Put(d.medium, key, if ok then d.held[b] else lost(key));
      d.(medium := medium, store := if ok && c.bufs[b].state == Transfer then d.store else Put(d.store, key, medium(key)))
  }

  ghost function Moved<V>(c: Cache, d: World<V>, k: nat, b: nat, ok: bool, lost: Key -> V): World<V> {
    if k in d.writers then Stored(c, d, b, ok, lost) else Fetched(c, d, b, ok)
  }

  ghost function RequestMoves<V>(c: Cache, d: World<V>, k: nat, n: nat, ok: bool, lost: Key -> V): World<V>
    decreases n
  {
    if n == 0 || ListOf(c, k) == [] || FirstTransferred(c, k, ok).Fatal? then d
    else RequestMoves(FirstTransferred(c, k, ok).cache, Moved(c, d, k, ListOf(c, k)[0], ok, lost), k, n - 1, ok, lost)
  }

  /** Nothing is expected of the blocks of a purged device but what is on the medium. */
  function Forgotten<V>(d: World<V>, dd: nat): World<V> {
    d.(store := (key: Key) => if key.dd == dd then d.medium(key) else d.store(key))
  }

  ghost function Effect<V>(c: Cache, d: World<V>, e: Event, x: Input<V>): World<V>
    requires Enabled(c, e)
  {
    match e
    case ReleasesModified(k, _) => Written(c, d, c.tasks[k].b, x.value)
    case Syncs(k) => Written(c, d, c.tasks[k].b, x.value)
    case FinishRelease(k) => CameBack(c, d, c.tasks[k].b)
    case ReadEnds(k, ok) => Fetched(c, d, c.tasks[k].b, ok)
    case RequestEnds(k, n, ok) => RequestMoves(c, d, k, n, ok, x.lost)
    case SwapOut(k, _) => d.(writers := d.writers + {k})
    case ReadAheadStarts(k, _) => d.(writers := d.writers - {k})
    case PurgeDevice(dd, _) => Forgotten(d, dd)
    case _ => d
  }

  // ---- buffers with data, and those whose data is not on the medium ----

  /** Task `k` holds back a release of buffer `i`; task `k` writes buffer `i`. */
  ghost predicate HoldsBack(c: Cache, k: nat, i: nat) {
    k in c.tasks && c.tasks[k] == Releasing(i)
  }

  ghost predicate Writes<V>(c: Cache, d: World<V>, k: nat, i: nat) {
    k in d.writers && i in ListOf(c, k)
  }

  ghost predicate HeldBack(c: Cache, i: nat) {
    exists k :: HoldsBack(c, k, i)
  }

  ghost predicate Writing<V>(c: Cache, d: World<V>, i: nat) {
    exists k :: Writes(c, d, k, i)
  }

  predicate HasData(s: State, heldBack: bool, writing: bool) {
    s == Cached || s == AccessCached || s == AccessModified || s == Modified || s == Sync
    || (s == AccessEmpty && heldBack) || (s == Transfer && writing)
  }

  predicate IsDirty(s: State, heldBack: bool, writing: bool) {
    s == AccessModified || s == Modified || s == Sync
    || ((s == AccessCached || s == AccessEmpty) && heldBack) || (s == Transfer && writing)
  }

  ghost predicate Filled<V>(c: Cache, d: World<V>, i: nat) {
    i in c.tree && i < |c.bufs| && HasData(c.bufs[i].state, HeldBack(c, i), Writing(c, d, i))
  }

  ghost predicate Dirty<V>(c: Cache, d: World<V>, i: nat) {
    i in c.tree && i < |c.bufs| && IsDirty(c.bufs[i].state, HeldBack(c, i), Writing(c, d, i))
  }

  /** A buffer with data has what is expected of its block; without a dirty buffer the medium has it. */
  ghost predicate Right<V>(c: Cache, d: World<V>) {
    && |d.held| == |c.bufs|
    && (forall i: nat | Filled(c, d, i) && i < |c.bufs| && i < |d.held| :: d.held[i] == d.store(c.bufs[i].key))
    && (forall key | (forall i: nat | Dirty(c, d, i) && i < |c.bufs| :: c.bufs[i].key != key) :: d.store(key) == d.medium(key))
  }

  // ---- steps that move no contents ----

  /** No buffer gains data, and none stops being dirty. */
  ghost predicate Passive<V>(c: Cache, d: World<V>, c': Cache, d': World<V>) {
    && |c'.bufs| == |c.bufs| && d'.held == d.held && d'.medium == d.medium && d'.store == d.store
    && (forall i: nat | Filled(c', d', i) && i < |c.bufs| :: Filled(c, d, i) && c'.bufs[i].key == c.bufs[i].key)
    && (forall i: nat | Dirty(c, d, i) && i < |c'.bufs| :: Dirty(c', d', i) && i < |c.bufs| && c'.bufs[i].key == c.bufs[i].key)
  }

  lemma PassiveRight<V>(c: Cache, d: World<V>, c': Cache, d': World<V>)
    requires Right(c, d) && Passive(c, d, c', d')
    ensures Right(c', d')
  {
    hide Filled, Dirty;
    forall key | forall i: nat | Dirty(c', d', i) && i < |c'.bufs| :: c'.bufs[i].key != key
      ensures d'.store(key) == d'.medium(key)
    {
      forall i: nat | Dirty(c, d, i) && i < |c.bufs| ensures c.bufs[i].key != key {
        assert Dirty(c', d', i);
      }
    }
  }

  lemma PassiveOn<V>(c: Cache, d: World<V>, m: Cache, d1: World<V>, c': Cache, d': World<V>)
    requires Passive(c, d, m, d1) && Passive(m, d1, c', d')
    ensures Passive(c, d, c', d')
  {
    hide Filled, Dirty;
  }

  // ---- steps that concern one buffer and one task ----

  ghost predicate Touches(c: Cache, c': Cache, b: nat, k: nat) {
    && |c'.bufs| == |c.bufs| && b < |c.bufs|
    && (forall i | 0 <= i < |c.bufs| && i != b :: c'.bufs[i].state == c.bufs[i].state && c'.bufs[i].key == c.bufs[i].key)
    && (forall i | i != b :: i in c'.tree <==> i in c.tree)
    && (forall k' | k' != k :: k' in c'.tasks <==> k' in c.tasks)
    && (forall k' | k' != k && k' in c.tasks :: c'.tasks[k'] == c.tasks[k'])
  }

  /** No other task owns the buffer. */
  ghost predicate Lone(c: Cache, k: nat, b: nat) {
    forall k' | k' != k :: !Has(c, k', b)
  }

  /** Of other buffers the task holds back and writes the same as before. */
  ghost predicate SameElse<V>(c: Cache, c': Cache, d: World<V>, k: nat, b: nat) {
    forall i: nat | i != b :: HoldsBack(c', k, i) == HoldsBack(c, k, i) && Writes(c', d, k, i) == Writes(c, d, k, i)
  }

  lemma LoneFacts<V>(c: Cache, d: World<V>, k: nat, b: nat)
    requires Lone(c, k, b)
    ensures HeldBack(c, b) == HoldsBack(c, k, b) && Writing(c, d, b) == Writes(c, d, k, b)
  {
    forall k' | k' != k ensures !HoldsBack(c, k', b) && !Writes(c, d, k', b) {
      assert !Has(c, k', b);
    }
  }

  lemma StillLone(c: Cache, c': Cache, b: nat, k: nat)
    requires Touches(c, c', b, k) && Lone(c, k, b)
    ensures Lone(c', k, b)
  {
    forall k' | k' != k ensures !Has(c', k', b) {
      assert !Has(c, k', b);
    }
  }

  lemma ElseSame<V>(c: Cache, c': Cache, d: World<V>, b: nat, k: nat, i: nat)
    requires Touches(c, c', b, k) && SameElse(c, c', d, k, b) && i != b
    ensures HeldBack(c', i) == HeldBack(c, i) && Writing(c', d, i) == Writing(c, d, i)
    ensures Filled(c', d, i) == Filled(c, d, i) && Dirty(c', d, i) == Dirty(c, d, i)
  {
    forall k' ensures HoldsBack(c', k', i) == HoldsBack(c, k', i) && Writes(c', d, k', i) == Writes(c, d, k', i) {
    }
  }

  /** The buffer itself, before or after. */
  ghost predicate FilledBy<V>(c: Cache, d: World<V>, k: nat, b: nat) {
    b in c.tree && b < |c.bufs| && HasData(c.bufs[b].state, HoldsBack(c, k, b), Writes(c, d, k, b))
  }

  ghost predicate DirtyBy<V>(c: Cache, d: World<V>, k: nat, b: nat) {
    b in c.tree && b < |c.bufs| && IsDirty(c.bufs[b].state, HoldsBack(c, k, b), Writes(c, d, k, b))
  }

  lemma ByFacts<V>(c: Cache, d: World<V>, k: nat, b: nat)
    requires Lone(c, k, b)
    ensures FilledBy(c, d, k, b) == Filled(c, d, b) && DirtyBy(c, d, k, b) == Dirty(c, d, b)
  {
    LoneFacts(c, d, k, b);
  }

  lemma PassiveTouch<V>(c: Cache, d: World<V>, c': Cache, b: nat, k: nat)
    requires Touches(c, c', b, k) && Lone(c, k, b) && SameElse(c, c', d, k, b)
    requires FilledBy(c', d, k, b) ==> FilledBy(c, d, k, b) && c'.bufs[b].key == c.bufs[b].key
    requires DirtyBy(c, d, k, b) ==> DirtyBy(c', d, k, b) && c'.bufs[b].key == c.bufs[b].key
    ensures Passive(c, d, c', d)
  {
    hide Filled, Dirty, FilledBy, DirtyBy, SameElse, Lone;
    StillLone(c, c', b, k);
    ByFacts(c, d, k, b);
    ByFacts(c', d, k, b);
    forall i: nat | i != b ensures Filled(c', d, i) == Filled(c, d, i) && Dirty(c', d, i) == Dirty(c, d, i) {
      ElseSame(c, c', d, b, k, i);
    }
    forall i: nat ensures (Filled(c, d, i) ==> i < |c.bufs|) && (Dirty(c, d, i) ==> i < |c.bufs|) {
      Bounded(c, d, i);
    }
  }

  lemma Bounded<V>(c: Cache, d: World<V>, i: nat)
    ensures Filled(c, d, i) || Dirty(c, d, i) ==> i in c.tree && i < |c.bufs|
  {
  }

  /** The contents of one buffer, and what is expected and stored of its block, change together. */
  lemma ActiveTouch<V>(c: Cache, d: World<V>, c': Cache, d': World<V>, b: nat, k: nat)
    requires Keys(c) && Right(c, d) && Touches(c, c', b, k) && Lone(c, k, b) && SameElse(c, c', d, k, b)
    requires b in c.tree && c'.bufs[b].key == c.bufs[b].key && |d'.held| == |d.held| && d'.writers == d.writers
    requires forall i | 0 <= i < |d.held| && i != b :: d'.held[i] == d.held[i]
    requires forall key | key != c.bufs[b].key :: d'.store(key) == d.store(key) && d'.medium(key) == d.medium(key)
    requires FilledBy(c', d', k, b) ==> d'.held[b] == d'.store(c.bufs[b].key)
    requires !DirtyBy(c', d', k, b) ==> d'.store(c.bufs[b].key) == d'.medium(c.bufs[b].key)
    ensures Right(c', d')
  {
    hide Filled, Dirty, FilledBy, DirtyBy, SameElse, Lone, Suited;
    StillLone(c, c', b, k);
    ByFacts(c', d', k, b);
    SameWriters(c', d, d', b, k);
    forall i: nat | i != b ensures Filled(c', d', i) == Filled(c, d, i) && Dirty(c', d', i) == Dirty(c, d, i) {
      ElseSame(c, c', d, b, k, i);
      SameWriters(c', d, d', i, k);
    }
    var mine := c.bufs[b].key;
    forall i: nat | Filled(c', d', i) && i < |c'.bufs| && i < |d'.held| ensures d'.held[i] == d'.store(c'.bufs[i].key) {
      if i != b {
        Bounded(c, d, i);
        assert c.bufs[i].key != mine;
      }
    }
    forall key | forall i: nat | Dirty(c', d', i) && i < |c'.bufs| :: c'.bufs[i].key != key
      ensures d'.store(key) == d'.medium(key)
    {
      if key != mine {
        forall i: nat | Dirty(c, d, i) && i < |c.bufs| ensures c.bufs[i].key != key {
          assert i != b ==> Dirty(c', d', i);
        }
      }
    }
  }

  lemma SameWriters<V>(c: Cache, d: World<V>, d': World<V>, i: nat, k: nat)
    requires d'.writers == d.writers
    ensures Filled(c, d', i) == Filled(c, d, i) && Dirty(c, d', i) == Dirty(c, d, i)
  {
    forall k' ensures Writes(c, d', k', i) == Writes(c, d, k', i) {
    }
  }

  /** Without a dirty buffer for its block, the medium has what is expected. */
  lemma CleanBlock<V>(c: Cache, d: World<V>, b: nat, k: nat)
    requires Keys(c) && Right(c, d) && b in c.tree && b < |c.bufs| && Lone(c, k, b) && !DirtyBy(c, d, k, b)
    ensures d.store(c.bufs[b].key) == d.medium(c.bufs[b].key)
  {
    hide Suited, Filled, DirtyBy, FilledBy, Lone, Dirty;
    ByFacts(c, d, k, b);
    forall i: nat | Dirty(c, d, i) && i < |c.bufs| ensures c.bufs[i].key != c.bufs[b].key {
      Bounded(c, d, i);
    }
  }

  // ---- who owns the buffer ----

  lemma OwnerIsLone(c: Cache, k: nat, b: nat)
    requires Inv(c) && Has(c, k, b)
    ensures Lone(c, k, b) && b < |c.bufs| && b in c.tree && OwnedState(c.bufs[b].state) && Keys(c)
    ensures !c.tasks[k].Transferring? ==> forall i: nat :: Has(c, k, i) <==> i == b
  {
    hide Active, Slot;
    OwnerFacts(c, k, b);
    assert Row(c, b);
  }

  ghost predicate Unowned(c: Cache, b: nat) {
    forall k :: !Has(c, k, b)
  }

  lemma IdleIsUnowned(c: Cache, b: nat)
    requires Inv(c) && b < |c.bufs| && !OwnedState(c.bufs[b].state)
    ensures Unowned(c, b) && forall k :: Lone(c, k, b)
  {
    forall k ensures !Has(c, k, b) {
      NotOwner(c, k, b);
    }
  }

  /** Nothing but a task changes, and the task has nothing to do with contents. */
  lemma Sleeps<V>(c: Cache, d: World<V>, c': Cache, k: nat)
    requires |c'.bufs| == |c.bufs| && c'.tree == c.tree
    requires forall i | 0 <= i < |c.bufs| :: c'.bufs[i].state == c.bufs[i].state && c'.bufs[i].key == c.bufs[i].key
    requires forall k' | k' != k :: k' in c'.tasks <==> k' in c.tasks
    requires forall k' | k' != k && k' in c.tasks :: c'.tasks[k'] == c.tasks[k']
    requires k in c.tasks ==> c.tasks[k].Waiting? || c.tasks[k].WaitingForBuffer?
    requires k in c'.tasks ==> c'.tasks[k].Waiting? || c'.tasks[k].WaitingForBuffer?
    ensures Passive(c, d, c', d)
  {
    forall k', i ensures HoldsBack(c', k', i) == HoldsBack(c, k', i) && Writes(c', d, k', i) == Writes(c, d, k', i) {
    }
    forall i ensures HeldBack(c', i) == HeldBack(c, i) && Writing(c', d, i) == Writing(c, d, i) {
    }
  }

  lemma NothingHappens<V>(c: Cache, d: World<V>)
    ensures Passive(c, d, c, d)
  {
    hide HasData, IsDirty;
  }

  /** Neither before nor after does the task transfer anything or hold back another buffer. */
  lemma NoTransfer<V>(c: Cache, c': Cache, d: World<V>, k: nat, b: nat)
    requires k in c.tasks ==> !c.tasks[k].Transferring? && (c.tasks[k].Releasing? ==> c.tasks[k].b == b)
    requires k in c'.tasks ==> !c'.tasks[k].Transferring? && (c'.tasks[k].Releasing? ==> c'.tasks[k].b == b)
    ensures SameElse(c, c', d, k, b) && forall i: nat :: !Writes(c, d, k, i) && !Writes(c', d, k, i)
  {
  }

  // ---- obtaining a buffer ----

  lemma GrantTouches(c: Cache, c0: Cache, k: nat, b: nat, purpose: Purpose)
    requires b < |c.bufs| && c0.bufs == c.bufs && c0.tree == c.tree && c0.tasks == c.tasks && Grant(c0, k, b, purpose).Next?
    ensures var s, c' := c.bufs[b].state, Grant(c0, k, b, purpose).cache;
            && Touches(c, c', b, k) && c'.bufs[b].key == c.bufs[b].key && c'.tree == c.tree && k in c'.tasks
            && (c'.tasks[k] == Holding(b) || c'.tasks[k] == Reading(b))
            && (s == Cached || s == Modified || s == Empty)
            && (s == Cached ==> c'.bufs[b].state == AccessCached) && (s == Modified ==> c'.bufs[b].state == AccessModified)
            && (s == Empty ==> c'.bufs[b].state == AccessEmpty || c'.bufs[b].state == Transfer)
  {
    hide GroupOf;
  }

  lemma GrantPassive<V>(c: Cache, d: World<V>, c0: Cache, k: nat, b: nat, purpose: Purpose)
    requires b < |c.bufs| && c0.bufs == c.bufs && c0.tree == c.tree && c0.tasks == c.tasks && Grant(c0, k, b, purpose).Next?
    requires k !in c.tasks && b in c.tree && Unowned(c, b)
    ensures Passive(c, d, Grant(c0, k, b, purpose).cache, d)
  {
    GrantTouches(c, c0, k, b, purpose);
    hide Grant, Passive, Touches;
    var c' := Grant(c0, k, b, purpose).cache;
    NoTransfer(c, c', d, k, b);
    PassiveTouch(c, d, c', b, k);
  }

  lemma AccessPassive<V>(c: Cache, d: World<V>, k: nat, b: nat, purpose: Purpose, key: Key)
    requires b < |c.bufs| && b in c.tree && k !in c.tasks && (!OwnedState(c.bufs[b].state) ==> Unowned(c, b))
    requires Access(c, k, b, purpose, key).Next?
    ensures Passive(c, d, Access(c, k, b, purpose, key).cache, d)
  {
    hide GroupOf, Grant, Without, Passive, Unowned, Wait;
    if c.bufs[b].state == Modified {
      GrantPassive(c, d, AddUsers(c, b, -1).(modified := Without(c.modified, b)), k, b, purpose);
    } else if c.bufs[b].state == Cached {
      GrantPassive(c, d, c.(lru := Without(c.lru, b)), k, b, purpose);
    } else if c.bufs[b].state == Empty {
      GrantPassive(c, d, c, k, b, purpose);
    } else {
      WaitPassive(c, d, k, b, purpose, key);
    }
  }

  lemma WaitPassive<V>(c: Cache, d: World<V>, k: nat, b: nat, purpose: Purpose, key: Key)
    requires b < |c.bufs| && (k in c.tasks ==> c.tasks[k].Waiting? || c.tasks[k].WaitingForBuffer?)
    ensures Passive(c, d, Wait(c, k, b, purpose, key), d)
  {
    hide GroupOf, Passive;
    Sleeps(c, d, Wait(c, k, b, purpose, key), k);
  }

  lemma RecyclePassive<V>(c: Cache, d: World<V>, k: nat, b: nat, key: Key)
    requires Inv(c) && b < |c.bufs| && Recycle(c, b, key).Next?
    ensures var c' := Recycle(c, b, key).cache;
            && Passive(c, d, c', d) && c'.tasks == c.tasks && |c'.bufs| == |c.bufs| && b in c'.tree && c'.bufs[b].state == Empty
            && Unowned(c', b)
  {
    hide Inv, Find, Without, Passive;
    var c' := Recycle(c, b, key).cache;
    IdleIsUnowned(c, b);
    StillUnowned(c, c', b);
    SameTasks(c, c', d, k, b);
    PassiveTouch(c, d, c', b, k);
  }

  lemma StillUnowned(c: Cache, c': Cache, b: nat)
    requires Unowned(c, b) && c'.tasks == c.tasks
    ensures Unowned(c', b)
  {
    forall k ensures !Has(c', k, b) {
      assert !Has(c, k, b);
    }
  }

  lemma SameTasks<V>(c: Cache, c': Cache, d: World<V>, k: nat, b: nat)
    requires c'.tasks == c.tasks
    ensures SameElse(c, c', d, k, b)
    ensures forall k, i :: HoldsBack(c', k, i) == HoldsBack(c, k, i) && Writes(c', d, k, i) == Writes(c, d, k, i)
  {
  }

  lemma ReallocPassive<V>(c: Cache, d: World<V>, g: nat, n: nat)
    requires Inv(c) && g < |c.groups| && c.groups[g].users == 0 && 1 <= n <= c.maxBds
    ensures Passive(c, d, Realloc(c, g, n), d)
  {
    hide Inv, Slot, Slots, OutsideGroup, GroupOf, HasData, IsDirty;
    var c' := Realloc(c, g, n);
    forall i: nat ensures HeldBack(c', i) == HeldBack(c, i) && Writing(c', d, i) == Writing(c, d, i) {
      SameTasks(c, c', d, 0, i);
    }
    forall i: nat | Dirty(c, d, i) && i < |c'.bufs| ensures GroupOf(c, i) != g {
      DirtyIsUsed(c, d, i, g);
    }
  }

  /** A group without users has no dirty buffer. */
  lemma DirtyIsUsed<V>(c: Cache, d: World<V>, i: nat, g: nat)
    requires Inv(c) && Dirty(c, d, i) && g < |c.groups| && c.groups[g].users == 0
    ensures GroupOf(c, i) != g
  {
    hide Inv, Slot, GroupOf;
    IdleGroup(c, i, g);
  }

  lemma IdleGroup(c: Cache, i: nat, g: nat)
    requires Inv(c) && i in c.tree && g < |c.groups| && c.groups[g].users == 0
    ensures i < |c.bufs| && (GroupOf(c, i) == g ==> InLru(c.bufs[i].state))
  {
    hide Active, Slot, GroupOf;
    IdleIsQuiet(c, g);
    assert i < |c.bufs| && Row(c, i);
  }

  lemma FromLruPassive<V>(c: Cache, d: World<V>, dd: nat)
    requires Inv(c) && FromLru(c, dd).Source?
    ensures Passive(c, d, FromLru(c, dd).cache, d)
  {
    hide Inv, Passive, Realloc, GroupIdle, Usable;
    NothingHappens(c, d);
    var b := FirstUsable(c, c.lru, dd).value;
    UsableFacts(c, b, dd);
    if c.groups[GroupOf(c, b)].bdsPerGroup != c.need[dd] {
      ReallocPassive(c, d, GroupOf(c, b), c.need[dd]);
    }
  }

  lemma UsableFacts(c: Cache, b: nat, dd: nat)
    requires Usable(c, b, dd)
    ensures GroupOf(c, b) < |c.groups| && dd < |c.need|
    ensures c.groups[GroupOf(c, b)].bdsPerGroup != c.need[dd] ==> c.groups[GroupOf(c, b)].users == 0
  {
  }

  lemma FoundUnowned(c: Cache, b: nat)
    requires Inv(c) && b < |c.bufs|
    ensures !OwnedState(c.bufs[b].state) ==> Unowned(c, b)
  {
    if !OwnedState(c.bufs[b].state) {
      IdleIsUnowned(c, b);
    }
  }

  lemma TryGetPassive<V>(c: Cache, d: World<V>, k: nat, purpose: Purpose, key: Key)
    requires Inv(c) && k !in c.tasks && TryGet(c, k, purpose, key).Next?
    ensures Passive(c, d, TryGet(c, k, purpose, key).cache, d)
  {
    hide Inv, Find, FromLru, Recycle, Access, Suited, Passive, Unowned;
    if Find(c, key).Some? {
      FoundSome(c, key);
      FoundUnowned(c, Find(c, key).value);
      AccessPassive(c, d, k, Find(c, key).value, purpose, key);
    } else {
      FromLruFacts(c, key);
      match FromLru(c, key.dd)
      case NoBuffer => Sleeps(c, d, SetTask(c, k, WaitingForBuffer(purpose, key)), k);
      case Source(c0, b) =>
        FromLruPassive(c, d, key.dd);
        RecyclePassive(c0, d, k, b, key);
        var c1 := Recycle(c0, b, key).cache;
        AccessPassive(c1, d, k, b, purpose, key);
        var c2 := Access(c1, k, b, purpose, key).cache;
        PassiveOn(c, d, c0, d, c1, d);
        PassiveOn(c, d, c1, d, c2, d);
    }
  }

  lemma UnwaitPassive<V>(c: Cache, d: World<V>, k: nat, b: nat)
    requires b < |c.bufs| && k in c.tasks && c.tasks[k].Waiting?
    ensures var c' := Unwait(c, k, b);
            && Passive(c, d, c', d) && k !in c'.tasks && c'.tree == c.tree && |c'.bufs| == |c.bufs| && c'.bufs[b].state == c.bufs[b].state
            && (Unowned(c, b) ==> Unowned(c', b))
  {
    hide GroupOf, Passive;
    var c' := Unwait(c, k, b);
    Sleeps(c, d, c', k);
    forall k' ensures Has(c', k', b) ==> Has(c, k', b) {
    }
  }

  lemma AccessAgainPassive<V>(c: Cache, d: World<V>, k: nat)
    requires Inv(c) && Enabled(c, AccessAgain(k)) && c.tasks[k].b < |c.bufs| && BufferStep(c, AccessAgain(k)).Next?
    ensures Passive(c, d, BufferStep(c, AccessAgain(k)).cache, d)
  {
    hide Inv, Access, Unwait, Passive, Unowned;
    var t := c.tasks[k];
    AwaitedInTree(c, k);
    FoundUnowned(c, t.b);
    UnwaitPassive(c, d, k, t.b);
    var c0 := Unwait(c, k, t.b);
    AccessPassive(c0, d, k, t.b, t.purpose, t.key);
    PassiveOn(c, d, c0, d, Access(c0, k, t.b, t.purpose, t.key).cache, d);
  }

  /** A buffer that somebody waits on is in the tree. */
  lemma AwaitedInTree(c: Cache, k: nat)
    requires Inv(c) && k in c.tasks && c.tasks[k].Waiting?
    ensures var b := c.tasks[k].b; b < |c.bufs| && b in c.tree
  {
    hide Slot, Active;
    WaiterFacts(c, k);
    BufferFacts(c, c.tasks[k].b);
  }

  lemma SyncAgainPassive<V>(c: Cache, d: World<V>, k: nat)
    requires Inv(c) && Enabled(c, SyncAgain(k)) && c.tasks[k].b < |c.bufs| && BufferStep(c, SyncAgain(k)).Next?
    ensures Passive(c, d, BufferStep(c, SyncAgain(k)).cache, d)
  {
    hide Inv, SyncDone, Unwait, Passive, Unowned;
    var b := c.tasks[k].b;
    FoundUnowned(c, b);
    UnwaitPassive(c, d, k, b);
    var c0 := Unwait(c, k, b);
    SyncDonePassive(c0, d, k, b);
    PassiveOn(c, d, c0, d, SyncDone(c0, k, b).cache, d);
  }

  lemma SyncDonePassive<V>(c: Cache, d: World<V>, k: nat, b: nat)
    requires b < |c.bufs| && k !in c.tasks && (!OwnedState(c.bufs[b].state) ==> Unowned(c, b)) && SyncDone(c, k, b).Next?
    ensures Passive(c, d, SyncDone(c, k, b).cache, d)
  {
    hide GroupOf, Passive, Wait;
    var c' := SyncDone(c, k, b).cache;
    if c.bufs[b].state == Empty && c.bufs[b].waiters == 0 {
      SameTasks(c, c', d, k, b);
      PassiveTouch(c, d, c', b, k);
    } else if c' == c {
      NothingHappens(c, d);
    } else {
      WaitPassive(c, d, k, b, ForSync, c.bufs[b].key);
    }
  }

  // ---- read-ahead and swap-out ----

  lemma AheadPassive<V>(c: Cache, d: World<V>, k: nat, b: nat)
    requires b < |c.bufs| && c.bufs[b].state == Empty && b in c.tree && Unowned(c, b) && k !in d.writers && Collecting(c, k)
    ensures Passive(c, d, SetTask(SetState(AddUsers(c, b, 1), b, Transfer), k, Transferring(ListOf(c, k) + [b])), d)
  {
    hide GroupOf, Passive;
    var c' := SetTask(SetState(AddUsers(c, b, 1), b, Transfer), k, Transferring(ListOf(c, k) + [b]));
    PassiveTouch(c, d, c', b, k);
  }

  lemma ReadAheadOnePassive<V>(c: Cache, d: World<V>, k: nat, key: Key)
    requires Inv(c) && Collecting(c, k) && k !in d.writers && ReadAheadOne(c, k, key).Next?
    ensures Passive(c, d, ReadAheadOne(c, k, key).cache, d)
  {
    hide Inv, Find, FromLru, Recycle, Passive, Unowned;
    NothingHappens(c, d);
    if Find(c, key).None? {
      FromLruFacts(c, key);
      var r := FromLru(c, key.dd);
      if r.Source? {
        FromLruPassive(c, d, key.dd);
        RecyclePassive(r.cache, d, k, r.b, key);
        var c1 := Recycle(r.cache, r.b, key).cache;
        AheadPassive(c1, d, k, r.b);
        PassiveOn(c, d, r.cache, d, c1, d);
        PassiveOn(c, d, c1, d, ReadAheadOne(c, k, key).cache, d);
      }
    }
  }

  lemma {:induction false} ReadAheadPassive<V>(c: Cache, d: World<V>, k: nat, keys: seq<Key>)
    requires Inv(c) && Collecting(c, k) && k !in d.writers && ReadAhead(c, k, keys).Next?
    ensures Passive(c, d, ReadAhead(c, k, keys).cache, d)
    decreases |keys|
  {
    hide Inv, ReadAheadOne, Passive;
    NothingHappens(c, d);
    if keys != [] {
      ReadAheadOneStep(c, k, keys[0]);
      ReadAheadOnePassive(c, d, k, keys[0]);
      var c1 := ReadAheadOne(c, k, keys[0]).cache;
      if ListOf(c1, k) != ListOf(c, k) {
        ReadAheadPassive(c1, d, k, keys[1..]);
        PassiveOn(c, d, c1, d, ReadAhead(c1, k, keys[1..]).cache, d);
      }
    }
  }

  lemma GatherTouches(c: Cache, k: nat, b: nat)
    requires GatherOne(c, k, b).Next?
    ensures var c' := GatherOne(c, k, b).cache;
            && Touches(c, c', b, k) && c'.tree == c.tree && c'.bufs[b].key == c.bufs[b].key && c'.bufs[b].state == Transfer
            && k in c'.tasks && c'.tasks[k] == Transferring(Place(BlockOf(c), ListOf(c, k), b))
  {
    hide Without, Place, BlockOf;
  }

  lemma GatherElse<V>(c: Cache, c': Cache, d: World<V>, k: nat, b: nat)
    requires Collecting(c, k) && k in c'.tasks && c'.tasks[k] == Transferring(Place(BlockOf(c), ListOf(c, k), b))
    ensures SameElse(c, c', d, k, b) && (k in d.writers ==> Writes(c', d, k, b))
  {
    hide Place, BlockOf;
    PlaceAdds(BlockOf(c), ListOf(c, k), b);
  }

  lemma GatherOnePassive<V>(c: Cache, d: World<V>, k: nat, b: nat)
    requires Inv(c) && Collecting(c, k) && k in d.writers && (b in c.modified || b in c.sync) && GatherOne(c, k, b).Next?
    ensures Passive(c, d, GatherOne(c, k, b).cache, d)
  {
    Listed(c, b);
    IdleIsUnowned(c, b);
    hide Inv, GatherOne, Passive, Touches, SameElse;
    var c' := GatherOne(c, k, b).cache;
    GatherTouches(c, k, b);
    GatherElse(c, c', d, k, b);
    PassiveTouch(c, d, c', b, k);
  }

  lemma {:induction false} GatherPassive<V>(c: Cache, d: World<V>, k: nat, picks: seq<nat>)
    requires Inv(c) && Collecting(c, k) && k in d.writers
    requires Distinct(picks) && forall b | b in picks :: b in c.modified || b in c.sync
    ensures Gather(c, k, picks).Next? && Passive(c, d, Gather(c, k, picks).cache, d)
    decreases |picks|
  {
    hide Inv, GatherOne, Passive, Distinct;
    NothingHappens(c, d);
    if picks != [] {
      DistinctTail(picks);
      GatherOneStep(c, k, picks[0]);
      GatherOnePassive(c, d, k, picks[0]);
      var c1 := GatherOne(c, k, picks[0]).cache;
      GatherPassive(c1, d, k, picks[1..]);
      PassiveOn(c, d, c1, d, Gather(c1, k, picks[1..]).cache, d);
    }
  }

  /** A thread without a task may be made a writer, or not. */
  lemma WritersChange<V>(c: Cache, d: World<V>, d': World<V>, k: nat)
    requires k !in c.tasks && d'.held == d.held && d'.medium == d.medium && d'.store == d.store
    requires forall k' | k' != k :: k' in d'.writers <==> k' in d.writers
    ensures Passive(c, d, c, d')
  {
    forall k', i ensures Writes(c, d', k', i) == Writes(c, d, k', i) {
    }
    forall i ensures Writing(c, d', i) == Writing(c, d, i) {
    }
  }

  // ---- giving a buffer back ----

  /** Where a buffer that its holder gives back may go to. */
  lemma PutAwayTouches(c: Cache, k: nat, b: nat)
    requires b < |c.bufs| && k in c.tasks && (c.tasks[k] == Holding(b) || c.tasks[k] == Releasing(b))
    ensures var c' := EndTask(ToCached(c, b), k);
            Touches(c, c', b, k) && c'.tree == c.tree && c'.bufs[b].key == c.bufs[b].key && c'.bufs[b].state == Cached && k !in c'.tasks
    ensures var c' := ToModified(c, k, b);
            Touches(c, c', b, k) && c'.tree == c.tree && c'.bufs[b].key == c.bufs[b].key && c'.bufs[b].state == Modified && k !in c'.tasks
    ensures var c' := SetTask(c, k, Releasing(b));
            Touches(c, c', b, k) && c'.tree == c.tree && c'.bufs == c.bufs && HoldsBack(c', k, b) && c'.tasks[k] == Releasing(b)
  {
    hide GroupOf;
  }

  lemma DiscardTouches(c: Cache, k: nat, b: nat)
    requires b < |c.bufs| && k in c.tasks
    ensures var c' := DiscardAfterAccess(c, k, b);
            Touches(c, c', b, k) && c'.bufs[b].key == c.bufs[b].key && k !in c'.tasks
            && (c'.bufs[b].state == Empty || c'.bufs[b].state == State.Free)
  {
    hide GroupOf;
  }

  lemma QueuedTouches(c: Cache, k: nat, b: nat)
    requires b < |c.bufs|
    ensures var c' := Wait(SetState(c, b, Sync).(sync := c.sync + [b]), k, b, ForSync, c.bufs[b].key);
            Touches(c, c', b, k) && c'.tree == c.tree && c'.bufs[b].key == c.bufs[b].key && c'.bufs[b].state == Sync
            && k in c'.tasks && c'.tasks[k].Waiting?
  {
    hide GroupOf;
  }

  /** The holder owns its buffer, which nobody holds back or writes. */
  lemma HolderFacts<V>(c: Cache, d: World<V>, k: nat, b: nat)
    requires Inv(c) && k in c.tasks && c.tasks[k] == Holding(b)
    ensures Lone(c, k, b) && b < |c.bufs| && b in c.tree && Keys(c) && !HoldsBack(c, k, b) && !Writes(c, d, k, b)
  {
    assert Has(c, k, b);
    OwnerIsLone(c, k, b);
  }

  /** Where a buffer goes to that is given back unmodified. */
  predicate GivenBack(s: State, s': State) {
    || (s == AccessCached && s' == Cached)
    || (s == AccessModified && (s' == Modified || s' == AccessModified))
    || (s != AccessModified && (s' == Empty || s' == State.Free))
  }

  /** It keeps its data, if that is not on the medium. */
  lemma GivenBackData(s: State, s': State, h': bool)
    requires GivenBack(s, s') && Accessed(s)
    ensures HasData(s', h', false) ==> HasData(s, false, false)
    ensures IsDirty(s, false, false) ==> IsDirty(s', h', false) && s == AccessModified
  {
  }

  lemma GivenBackPassive<V>(c: Cache, d: World<V>, c': Cache, k: nat, b: nat)
    requires Inv(c) && k in c.tasks && c.tasks[k] == Holding(b) && Touches(c, c', b, k) && c'.bufs[b].key == c.bufs[b].key
    requires k in c'.tasks ==> c'.tasks[k] == Releasing(b)
    requires GivenBack(c.bufs[b].state, c'.bufs[b].state) && Accessed(c.bufs[b].state)
    requires c.bufs[b].state == AccessModified ==> c'.tree == c.tree
    ensures Passive(c, d, c', d)
  {
    HolderFacts(c, d, k, b);
    NoTransfer(c, c', d, k, b);
    assert |c'.bufs| == |c.bufs|;
    GivenBackData(c.bufs[b].state, c'.bufs[b].state, HoldsBack(c', k, b));
    hide Inv, Passive, Touches, Lone, SameElse, HasData, IsDirty, GivenBack, HoldsBack, Writes;
    PassiveTouch(c, d, c', b, k);
  }

  lemma ReleaseTouches(c: Cache, k: nat, b: nat, syncing: bool)
    requires k in c.tasks && c.tasks[k] == Holding(b) && b < |c.bufs| && Release(c, k, b, syncing).Next?
    ensures var c' := Release(c, k, b, syncing).cache;
            && Touches(c, c', b, k) && c'.bufs[b].key == c.bufs[b].key && (k in c'.tasks ==> c'.tasks[k] == Releasing(b))
            && GivenBack(c.bufs[b].state, c'.bufs[b].state) && Accessed(c.bufs[b].state)
            && (c.bufs[b].state == AccessModified ==> c'.tree == c.tree)
  {
    PutAwayTouches(c, k, b);
    DiscardTouches(c, k, b);
    hide ToModified, ToCached, DiscardAfterAccess, Touches;
  }

  lemma ReleasePassive<V>(c: Cache, d: World<V>, k: nat, b: nat, syncing: bool)
    requires Inv(c) && k in c.tasks && c.tasks[k] == Holding(b) && b < |c.bufs| && Release(c, k, b, syncing).Next?
    ensures Passive(c, d, Release(c, k, b, syncing).cache, d)
  {
    hide Inv, Release, Passive, Touches, GivenBack;
    ReleaseTouches(c, k, b, syncing);
    GivenBackPassive(c, d, Release(c, k, b, syncing).cache, k, b);
  }

  /** What a caller releases as modified, or syncs, is what is expected of the block from now on. */
  lemma WrittenRight<V>(c: Cache, d: World<V>, c': Cache, k: nat, b: nat, v: V)
    requires Inv(c) && Right(c, d) && k in c.tasks && c.tasks[k] == Holding(b) && b < |c.bufs| && c.bufs[b].state != AccessPurged
    requires Touches(c, c', b, k) && c'.tree == c.tree && c'.bufs[b].key == c.bufs[b].key
    requires k in c'.tasks ==> c'.tasks[k].Waiting? || c'.tasks[k] == Releasing(b)
    requires IsDirty(c'.bufs[b].state, HoldsBack(c', k, b), false)
    ensures Right(c', Written(c, d, b, v))
  {
    assert Has(c, k, b);
    OwnerIsLone(c, k, b);
    hide Inv, Touches, Lone, Keys;
    var d' := Written(c, d, b, v);
    NoTransfer(c, c', d, k, b);
    hide SameElse, Right;
    Sized(c, d);
    ActiveTouch(c, d, c', d', b, k);
  }

  lemma Sized<V>(c: Cache, d: World<V>)
    requires Right(c, d)
    ensures |d.held| == |c.bufs|
  {
  }

  lemma DiscardPassive<V>(c: Cache, d: World<V>, k: nat, b: nat)
    requires Inv(c) && k in c.tasks && c.tasks[k] == Holding(b) && b < |c.bufs| && c.bufs[b].state == AccessPurged
    ensures Passive(c, d, DiscardAfterAccess(c, k, b), d)
  {
    DiscardTouches(c, k, b);
    hide Inv, DiscardAfterAccess, Passive, Touches;
    GivenBackPassive(c, d, DiscardAfterAccess(c, k, b), k, b);
  }

  lemma ReleaseModifiedRight<V>(c: Cache, d: World<V>, k: nat, b: nat, syncing: bool, v: V)
    requires Inv(c) && Right(c, d) && k in c.tasks && c.tasks[k] == Holding(b) && b < |c.bufs| && ReleaseModified(c, k, b, syncing).Next?
    ensures Right(ReleaseModified(c, k, b, syncing).cache, Written(c, d, b, v))
  {
    hide Inv, Right, ToModified, DiscardAfterAccess, Touches;
    var c' := ReleaseModified(c, k, b, syncing).cache;
    if c.bufs[b].state == AccessPurged {
      DiscardPassive(c, d, k, b);
      PassiveRight(c, d, c', d);
    } else {
      PutAwayTouches(c, k, b);
      WrittenRight(c, d, c', k, b, v);
    }
  }

  lemma SyncRight<V>(c: Cache, d: World<V>, k: nat, b: nat, v: V)
    requires Inv(c) && Right(c, d) && k in c.tasks && c.tasks[k] == Holding(b) && b < |c.bufs| && SyncBuffer(c, k, b).Next?
    ensures Right(SyncBuffer(c, k, b).cache, Written(c, d, b, v))
  {
    hide Inv, Right, Wait, DiscardAfterAccess, Touches;
    var c' := SyncBuffer(c, k, b).cache;
    if c.bufs[b].state == AccessPurged {
      DiscardPassive(c, d, k, b);
      PassiveRight(c, d, c', d);
    } else {
      QueuedTouches(c, k, b);
      WrittenRight(c, d, c', k, b, v);
    }
  }

  lemma FinishRight<V>(c: Cache, d: World<V>, k: nat, b: nat)
    requires Inv(c) && Right(c, d) && k in c.tasks && c.tasks[k] == Releasing(b) && b < |c.bufs|
    ensures Right(ToModified(c, k, b), CameBack(c, d, b))
  {
    assert Has(c, k, b);
    OwnerIsLone(c, k, b);
    OwnerFacts(c, k, b);
    PutAwayTouches(c, k, b);
    hide Inv, ToModified, Touches, Lone, Keys;
    var c', d' := ToModified(c, k, b), CameBack(c, d, b);
    NoTransfer(c, c', d, k, b);
    Sized(c, d);
    hide SameElse, Right, Passive, Active;
    if c.bufs[b].state == AccessPurged {
      ActiveTouch(c, d, c', d', b, k);
    } else {
      PassiveTouch(c, d, c', b, k);
      PassiveRight(c, d, c', d);
    }
  }

  // ---- the ends of transfers ----

  /** What the end of a transfer does to one buffer, whatever becomes of the task. */
  lemma TransferredTouches(c: Cache, c': Cache, k: nat, b: nat, ok: bool)
    requires b < |c.bufs| && c'.bufs == Transferred(c, b, ok).bufs && c'.tree == Transferred(c, b, ok).tree
    requires forall k' | k' != k :: k' in c'.tasks <==> k' in c.tasks
    requires forall k' | k' != k && k' in c.tasks :: c'.tasks[k'] == c.tasks[k']
    ensures Touches(c, c', b, k) && c'.bufs[b].key == c.bufs[b].key
    ensures if ok && c.bufs[b].state == Transfer then c'.bufs[b].state == Cached && c'.tree == c.tree
            else c'.bufs[b].state == Empty || c'.bufs[b].state == State.Free
  {
    hide GroupOf;
  }

  /** The reader owns its buffer, which nobody holds back or writes. */
  lemma ReaderFacts<V>(c: Cache, d: World<V>, k: nat, b: nat)
    requires Inv(c) && k in c.tasks && c.tasks[k] == Reading(b) && b < |c.bufs|
    ensures Lone(c, k, b) && b in c.tree && Keys(c) && InTransfer(c.bufs[b].state)
    ensures !HoldsBack(c, k, b) && !Writes(c, d, k, b) && !DirtyBy(c, d, k, b)
  {
    assert Has(c, k, b);
    OwnerIsLone(c, k, b);
    OwnerFacts(c, k, b);
  }

  lemma ReadEndsRight<V>(c: Cache, d: World<V>, k: nat, b: nat, ok: bool)
    requires Inv(c) && Right(c, d) && k in c.tasks && c.tasks[k] == Reading(b) && b < |c.bufs|
    requires (ok ==> c.bufs[b].state == Transfer) && ReadDone(c, k, b, ok).Next?
    ensures Right(ReadDone(c, k, b, ok).cache, Fetched(c, d, b, ok))
  {
    var c', d' := ReadDone(c, k, b, ok).cache, Fetched(c, d, b, ok);
    ReaderFacts(c, d, k, b);
    ReadTouches(c, k, b, ok);
    NoTransfer(c, c', d, k, b);
    Sized(c, d);
    hide Inv, Lone, Keys, ReadDone, Touches, SameElse, Right, Passive;
    if ok {
      hide DirtyBy;
      CleanBlock(c, d, b, k);
      ActiveTouch(c, d, c', d', b, k);
    } else {
      PassiveTouch(c, d, c', b, k);
      PassiveRight(c, d, c', d);
    }
  }

  lemma ReadTouches(c: Cache, k: nat, b: nat, ok: bool)
    requires b < |c.bufs| && (ok ==> c.bufs[b].state == Transfer) && ReadDone(c, k, b, ok).Next?
    ensures var c' := ReadDone(c, k, b, ok).cache;
            && Touches(c, c', b, k) && c'.bufs[b].key == c.bufs[b].key
            && (if ok then c'.bufs[b].state == AccessCached && c'.tree == c.tree else c'.bufs[b].state == Empty || c'.bufs[b].state == State.Free)
            && (k in c'.tasks ==> c'.tasks[k] == Holding(b))
  {
    hide GroupOf, Without;
  }

  lemma FirstMovedRight<V>(c: Cache, d: World<V>, k: nat, ok: bool, lost: Key -> V)
    requires Inv(c) && Right(c, d) && ListOf(c, k) != [] && FirstTransferred(c, k, ok).Next?
    ensures Right(FirstTransferred(c, k, ok).cache, Moved(c, d, k, ListOf(c, k)[0], ok, lost))
  {
    var b := ListOf(c, k)[0];
    assert Has(c, k, b);
    OwnerIsLone(c, k, b);
    TransferredBuffer(c, k, b);
    ListDistinct(c, k);
    hide Inv, Lone, Keys, Distinct, Active;
    var c', d' := FirstTransferred(c, k, ok).cache, Moved(c, d, k, b, ok, lost);
    FirstTask(c, k, ok);
    TransferredTouches(c, c', k, b, ok);
    TailElse(c, c', d, k);
    hide FirstTransferred, Transferred, Touches, SameElse, Right;
    Sized(c, d);
    if k in d.writers {
      StoredRight(c, d, c', d', b, k, ok, lost);
    } else {
      FetchedRight(c, d, c', d', b, k, ok);
    }
  }

  lemma ListDistinct(c: Cache, k: nat)
    requires Inv(c)
    ensures Distinct(ListOf(c, k))
  {
    hide Active, Slot;
  }

  /** The task goes on with the rest of its list. */
  lemma FirstTask(c: Cache, k: nat, ok: bool)
    requires ListOf(c, k) != [] && FirstTransferred(c, k, ok).Next?
    ensures var b, c' := ListOf(c, k)[0], FirstTransferred(c, k, ok).cache;
            && b < |c.bufs| && c'.bufs == Transferred(c, b, ok).bufs && c'.tree == Transferred(c, b, ok).tree
            && (forall k' | k' != k :: k' in c'.tasks <==> k' in c.tasks) && (forall k' | k' != k && k' in c.tasks :: c'.tasks[k'] == c.tasks[k'])
            && (k in c'.tasks ==> c'.tasks[k].Transferring?) && ListOf(c', k) == ListOf(c, k)[1..]
  {
    hide GroupOf;
  }

  lemma TailElse<V>(c: Cache, c': Cache, d: World<V>, k: nat)
    requires ListOf(c, k) != [] && Distinct(ListOf(c, k)) && ListOf(c', k) == ListOf(c, k)[1..]
    requires k in c'.tasks ==> c'.tasks[k].Transferring?
    ensures SameElse(c, c', d, k, ListOf(c, k)[0]) && !Writes(c', d, k, ListOf(c, k)[0])
    ensures !HoldsBack(c, k, ListOf(c, k)[0]) && !HoldsBack(c', k, ListOf(c, k)[0])
  {
    hide Distinct;
    DistinctTail(ListOf(c, k));
  }

  lemma StoredRight<V>(c: Cache, d: World<V>, c': Cache, d': World<V>, b: nat, k: nat, ok: bool, lost: Key -> V)
    requires Keys(c) && Right(c, d) && Touches(c, c', b, k) && Lone(c, k, b) && SameElse(c, c', d, k, b) && |d.held| == |c.bufs|
    requires b in c.tree && b < |c.bufs| && InTransfer(c.bufs[b].state) && c'.bufs[b].key == c.bufs[b].key && b < |c'.bufs|
    requires Writes(c, d, k, b) && !Writes(c', d, k, b) && !HoldsBack(c', k, b) && d' == Stored(c, d, b, ok, lost)
    requires if ok && c.bufs[b].state == Transfer then c'.bufs[b].state == Cached && c'.tree == c.tree
             else c'.bufs[b].state == Empty || c'.bufs[b].state == State.Free
    ensures Right(c', d')
  {
    if c.bufs[b].state == Transfer {
      ByFacts(c, d, k, b);
      assert Filled(c, d, b);
      assert d.held[b] == d.store(c.bufs[b].key);
    }
    hide Keys, Touches, Lone, SameElse, Right;
    ActiveTouch(c, d, c', d', b, k);
  }

  lemma FetchedRight<V>(c: Cache, d: World<V>, c': Cache, d': World<V>, b: nat, k: nat, ok: bool)
    requires Keys(c) && Right(c, d) && Touches(c, c', b, k) && Lone(c, k, b) && SameElse(c, c', d, k, b) && |d.held| == |c.bufs|
    requires b in c.tree && b < |c.bufs| && InTransfer(c.bufs[b].state) && c'.bufs[b].key == c.bufs[b].key && b < |c'.bufs|
    requires k !in d.writers && !HoldsBack(c, k, b) && !HoldsBack(c', k, b) && d' == Fetched(c, d, b, ok)
    requires if ok && c.bufs[b].state == Transfer then c'.bufs[b].state == Cached && c'.tree == c.tree
             else c'.bufs[b].state == Empty || c'.bufs[b].state == State.Free
    ensures Right(c', d')
  {
    hide Keys, Touches, Lone, SameElse, Right;
    CleanBlock(c, d, b, k);
    ActiveTouch(c, d, c', d', b, k);
  }

  lemma {:induction false} RequestRight<V>(c: Cache, d: World<V>, k: nat, n: nat, ok: bool, lost: Key -> V)
    requires Inv(c) && Right(c, d) && n <= |ListOf(c, k)|
    ensures RequestDone(c, k, n, ok).Next? && Right(RequestDone(c, k, n, ok).cache, RequestMoves(c, d, k, n, ok, lost))
    decreases n
  {
    hide Inv, Right, FirstTransferred, Moved;
    if n > 0 {
      RequestDoneStep(c, k, 1, ok);
      OneDone(c, k, ok);
      var c1 := FirstTransferred(c, k, ok).cache;
      FirstTask(c, k, ok);
      FirstMovedRight(c, d, k, ok, lost);
      RequestRight(c1, Moved(c, d, k, ListOf(c, k)[0], ok, lost), k, n - 1, ok, lost);
    }
  }

  lemma OneDone(c: Cache, k: nat, ok: bool)
    ensures RequestDone(c, k, 1, ok) == FirstTransferred(c, k, ok)
  {
    hide FirstTransferred;
    if FirstTransferred(c, k, ok).Next? {
      var c1 := FirstTransferred(c, k, ok).cache;
      assert RequestDone(c1, k, 0, ok) == Next(c1);
    }
  }

  // ---- purge ----

  /** States in which a buffer has nothing that anybody expects. */
  predicate Void(s: State) {
    s == State.Free || s == Empty || s == AccessPurged || s == TransferPurged
  }

  /** What a purge does to the buffers it meets, and to no others. */
  ghost predicate Voids(c: Cache, c': Cache, picked: seq<nat>) {
    && |c'.bufs| == |c.bufs| && c'.tasks == c.tasks
    && (forall i: nat | i in c'.tree :: i in c.tree)
    && (forall i | 0 <= i < |c.bufs| :: c'.bufs[i].key == c.bufs[i].key)
    && (forall i | 0 <= i < |c.bufs| :: if i in picked then Void(c'.bufs[i].state) else c'.bufs[i].state == c.bufs[i].state)
    && (forall i: nat | i in c.tree && i !in picked :: i in c'.tree)
  }

  lemma DiscardVoids(c: Cache, c0: Cache, b: nat)
    requires b < |c.bufs| && c0.bufs == c.bufs && c0.tree == c.tree && c0.tasks == c.tasks
    ensures Voids(c, Discard(c0, b), [b])
  {
  }

  lemma PurgeOneVoids(c: Cache, b: nat)
    requires PurgeOne(c, b).Next?
    ensures Voids(c, PurgeOne(c, b).cache, [b])
  {
    hide GroupOf, Without, Discard;
    match c.bufs[b].state
    case Sync => DiscardVoids(c, AddUsers(c, b, -1).(sync := Without(c.sync, b)), b);
    case Modified => DiscardVoids(c, AddUsers(c, b, -1).(modified := Without(c.modified, b)), b);
    case Cached => DiscardVoids(c, c.(lru := Without(c.lru, b)), b);
    case _ =>
  }

  lemma {:induction false} PurgeVoids(c: Cache, order: seq<nat>)
    requires Purge(c, order).Next? && Distinct(order)
    ensures Voids(c, Purge(c, order).cache, order)
    decreases |order|
  {
    hide PurgeOne, Voids, Distinct;
    if order == [] {
      NothingVoid(c);
    } else {
      DistinctTail(order);
      PurgeOneVoids(c, order[0]);
      var c1 := PurgeOne(c, order[0]).cache;
      PurgeVoids(c1, order[1..]);
      MoreVoids(c, c1, Purge(c1, order[1..]).cache, order);
    }
  }

  lemma NothingVoid(c: Cache)
    ensures Voids(c, c, [])
  {
  }

  lemma MoreVoids(c: Cache, m: Cache, c': Cache, order: seq<nat>)
    requires order != [] && Voids(c, m, [order[0]]) && Voids(m, c', order[1..]) && order[0] !in order[1..]
    ensures Voids(c, c', order)
  {
    assert forall i :: i in order <==> i == order[0] || i in order[1..];
  }

  lemma PurgeRight<V>(c: Cache, d: World<V>, dd: nat, order: seq<nat>)
    requires Inv(c) && Right(c, d) && Enabled(c, PurgeDevice(dd, order))
    ensures Purge(c, order).Next? && Right(Purge(c, order).cache, Forgotten(d, dd))
  {
    PurgeStep(c, order);
    PurgeVoids(c, order);
    OnDevice(c, dd, order);
    hide Inv, Purge, Distinct, Right, Voids;
    VoidsRight(c, d, Purge(c, order).cache, dd, order);
  }

  lemma OnDevice(c: Cache, dd: nat, order: seq<nat>)
    requires Inv(c) && Enabled(c, PurgeDevice(dd, order))
    ensures forall i: nat | i in c.tree :: i < |c.bufs| && (i in order <==> c.bufs[i].key.dd == dd)
  {
    hide Active, Slot;
  }

  lemma VoidsRight<V>(c: Cache, d: World<V>, c': Cache, dd: nat, order: seq<nat>)
    requires Right(c, d) && Voids(c, c', order)
    requires forall i: nat | i in c.tree :: i < |c.bufs| && (i in order <==> c.bufs[i].key.dd == dd)
    ensures Right(c', Forgotten(d, dd))
  {
    var d' := Forgotten(d, dd);
    forall i: nat ensures HeldBack(c', i) == HeldBack(c, i) && Writing(c', d', i) == Writing(c, d, i) {
      SameTasks(c, c', d, 0, i);
      forall k ensures Writes(c', d', k, i) == Writes(c, d, k, i) {
      }
    }
    forall i: nat ensures Filled(c', d', i) ==> i !in order && Filled(c, d, i) {
    }
    forall i: nat ensures Dirty(c, d, i) && i !in order ==> Dirty(c', d', i) {
    }
    hide Filled, Dirty;
    forall i: nat | Filled(c', d', i) && i < |c'.bufs| && i < |d'.held| ensures d'.held[i] == d'.store(c'.bufs[i].key) {
      Bounded(c, d, i);
    }
    forall key | forall i: nat | Dirty(c', d', i) && i < |c'.bufs| :: c'.bufs[i].key != key
      ensures d'.store(key) == d'.medium(key)
    {
      if key.dd != dd {
        forall i: nat | Dirty(c, d, i) && i < |c.bufs| ensures c.bufs[i].key != key {
          Bounded(c, d, i);
        }
      }
    }
  }

  // ---- every step ----

  lemma InBuffer(c: Cache, k: nat)
    requires Inv(c) && k in c.tasks && (c.tasks[k].Waiting? || c.tasks[k].Reading? || c.tasks[k].Holding? || c.tasks[k].Releasing?)
    ensures c.tasks[k].b < |c.bufs| && BufferOf(c, k) == c.tasks[k].b
  {
    if c.tasks[k].Waiting? {
      AwaitedInTree(c, k);
    } else {
      assert Has(c, k, c.tasks[k].b);
      OwnerIsLone(c, k, c.tasks[k].b);
    }
  }

  lemma RetryPassive<V>(c: Cache, d: World<V>, k: nat)
    requires Inv(c) && Enabled(c, Retry(k)) && Step(c, Retry(k)).Next?
    ensures Passive(c, d, Step(c, Retry(k)).cache, d)
  {
    hide Inv, TryGet, Passive;
    var t, c0 := c.tasks[k], EndTask(c, k);
    Sleeps(c, d, c0, k);
    IdleTask(c, c0, k);
    TryGetPassive(c0, d, k, t.purpose, t.key);
    PassiveOn(c, d, c0, d, Step(c, Retry(k)).cache, d);
  }

  /** The steps that only wait, look, or give back unmodified. */
  lemma QuietStep<V>(c: Cache, d: World<V>, e: Event)
    requires Inv(c) && Enabled(c, e) && Step(c, e).Next?
    requires e.Get? || e.Read? || e.Retry? || e.AccessAgain? || e.SyncAgain? || e.Releases?
    ensures Passive(c, d, Step(c, e).cache, d)
  {
    hide Inv, TryGet, Passive, BufferStep;
    if e.Get? {
      TryGetPassive(c, d, e.k, ForGet, e.key);
    } else if e.Read? {
      TryGetPassive(c, d, e.k, ForRead, e.key);
    } else if e.Retry? {
      RetryPassive(c, d, e.k);
    } else {
      InBuffer(c, e.k);
      if e.AccessAgain? {
        AccessAgainPassive(c, d, e.k);
      } else if e.SyncAgain? {
        SyncAgainPassive(c, d, e.k);
      } else {
        IsRelease(c, e);
        ReleasePassive(c, d, e.k, c.tasks[e.k].b, e.syncing);
      }
    }
  }

  lemma IsRelease(c: Cache, e: Event)
    requires Enabled(c, e) && e.Releases? && BufferOf(c, e.k) < |c.bufs| && BufferOf(c, e.k) == c.tasks[e.k].b
    ensures BufferStep(c, e) == Release(c, e.k, c.tasks[e.k].b, e.syncing)
  {
    hide Release;
  }

  /** The thread becomes, or ceases to be, a writer, and collects its buffers. */
  lemma CollectsPassive<V>(c: Cache, d: World<V>, e: Event)
    requires Inv(c) && Enabled(c, e) && Step(c, e).Next? && (e.SwapOut? || e.ReadAheadStarts?)
    ensures Passive(c, d, Step(c, e).cache, d.(writers := if e.SwapOut? then d.writers + {e.k} else d.writers - {e.k}))
  {
    hide Inv, Passive, Gather, ReadAhead;
    var d' := d.(writers := if e.SwapOut? then d.writers + {e.k} else d.writers - {e.k});
    WritersChange(c, d, d', e.k);
    if e.SwapOut? {
      GatherPassive(c, d', e.k, e.picks);
    } else {
      ReadAheadPassive(c, d', e.k, e.keys);
    }
    PassiveOn(c, d, c, d', Step(c, e).cache, d');
  }

  lemma CollectsRight<V>(c: Cache, d: World<V>, e: Event)
    requires Inv(c) && Right(c, d) && Enabled(c, e) && Step(c, e).Next? && (e.SwapOut? || e.ReadAheadStarts?)
    ensures Right(Step(c, e).cache, d.(writers := if e.SwapOut? then d.writers + {e.k} else d.writers - {e.k}))
  {
    hide Inv, Right, Passive, Enabled, Step;
    var d' := d.(writers := if e.SwapOut? then d.writers + {e.k} else d.writers - {e.k});
    CollectsPassive(c, d, e);
    PassiveRight(c, d, Step(c, e).cache, d');
  }

  lemma MovesRight<V>(c: Cache, d: World<V>, e: Event, x: Input<V>)
    requires Inv(c) && Right(c, d) && Enabled(c, e) && Step(c, e).Next?
    requires e.ReleasesModified? || e.FinishRelease? || e.Syncs? || e.ReadEnds?
    ensures Right(Step(c, e).cache, Effect(c, d, e, x))
  {
    hide Inv, Right, ReleaseModified, SyncBuffer, ReadDone, ToModified, Written, CameBack, Fetched;
    InBuffer(c, e.k);
    var b := c.tasks[e.k].b;
    match e
    case ReleasesModified(k, syncing) => ReleaseModifiedRight(c, d, k, b, syncing, x.value);
    case Syncs(k) => SyncRight(c, d, k, b, x.value);
    case FinishRelease(k) => FinishRight(c, d, k, b);
    case ReadEnds(k, ok) => ReadEndsRight(c, d, k, b, ok);
  }

  /** Every step of any thread leaves in the buffers and on the medium what is expected. */
  lemma StepRight<V>(c: Cache, d: World<V>, e: Event, x: Input<V>)
    requires Inv(c) && Right(c, d) && Enabled(c, e)
    ensures Step(c, e).Next? && Right(Step(c, e).cache, Effect(c, d, e, x))
  {
    StepIsSafe(c, e);
    hide Inv, Right, Gather, ReadAhead, RequestDone, Purge, BufferStep, Written, CameBack, Fetched, RequestMoves, Forgotten;
    if e.SwapOut? || e.ReadAheadStarts? {
      CollectsRight(c, d, e);
    } else if e.RequestEnds? {
      RequestRight(c, d, e.k, e.n, e.ok, x.lost);
    } else if e.PurgeDevice? {
      PurgeRight(c, d, e.dd, e.order);
    } else if e.ReleasesModified? || e.FinishRelease? || e.Syncs? || e.ReadEnds? {
      MovesRight(c, d, e, x);
    } else {
      QuietStep(c, d, e);
      PassiveRight(c, d, Step(c, e).cache, d);
    }
  }

  // ---- whole runs ----

  ghost function Effects<V>(c: Cache, d: World<V>, events: seq<Event>, xs: seq<Input<V>>): World<V>
    requires |xs| == |events|
    decreases |events|
  {
    if events == [] || !Enabled(c, events[0]) || Step(c, events[0]).Fatal? then d
    else Effects(Step(c, events[0]).cache, Effect(c, d, events[0], xs[0]), events[1..], xs[1..])
  }

  lemma {:induction false} RunRight<V>(c: Cache, d: World<V>, events: seq<Event>, xs: seq<Input<V>>, c': Cache)
    requires Inv(c) && Right(c, d) && |xs| == |events| && Reaches(c, events, c')
    ensures Inv(c') && Right(c', Effects(c, d, events, xs))
    decreases |events|
  {
    hide Inv, Right, Step, Enabled, Effect;
    if events != [] {
      StepIsSafe(c, events[0]);
      StepRight(c, d, events[0], xs[0]);
      RunRight(Step(c, events[0]).cache, Effect(c, d, events[0], xs[0]), events[1..], xs[1..], c');
    }
  }

  /** Before the first step nothing is expected but what the medium has. */
  function Start<V>(medium: Key -> V, n: nat, blank: V): World<V> {
    World(seq(n, _ => blank), medium, medium, {})
  }

  lemma StartRight<V>(maxBds: nat, n: nat, need: seq<nat>, medium: Key -> V, blank: V)
    requires maxBds > 0
    ensures Right(Initial(maxBds, n, need), Start(medium, n, blank))
  {
  }

  /**
   In every run a buffer that a caller holds with data has what is expected of its block, and so has the medium if no
   buffer of the block is dirty.
   */
  lemma HoldersHaveTheirData<V>(maxBds: nat, n: nat, need: seq<nat>, medium: Key -> V, blank: V,
                                events: seq<Event>, xs: seq<Input<V>>, c: Cache)
    requires maxBds > 0 && n % maxBds == 0 && forall i | 0 <= i < |need| :: 1 <= need[i] <= maxBds
    requires |xs| == |events| && Reaches(Initial(maxBds, n, need), events, c)
    ensures var d := Effects(Initial(maxBds, n, need), Start(medium, n, blank), events, xs);
            && |d.held| == |c.bufs|
            && (forall k | k in c.tasks && c.tasks[k].Holding? ::
                  var b := c.tasks[k].b;
                  b < |c.bufs| && (c.bufs[b].state == AccessCached || c.bufs[b].state == AccessModified ==> d.held[b] == d.store(c.bufs[b].key)))
            && forall key | (forall i: nat | Dirty(c, d, i) && i < |c.bufs| :: c.bufs[i].key != key) :: d.medium(key) == d.store(key)
  {
    hide Inv, Step, Enabled, Reaches, Effects, Dirty;
    var start, d0 := Initial(maxBds, n, need), Start(medium, n, blank);
    InitialSafe(maxBds, n, need);
    StartRight(maxBds, n, need, medium, blank);
    RunRight(start, d0, events, xs, c);
    var d := Effects(start, d0, events, xs);
    forall k | k in c.tasks && c.tasks[k].Holding?
      ensures var b := c.tasks[k].b;
              b < |c.bufs| && (c.bufs[b].state == AccessCached || c.bufs[b].state == AccessModified ==> d.held[b] == d.store(c.bufs[b].key))
    {
      assert Has(c, k, c.tasks[k].b);
      OwnerIsLone(c, k, c.tasks[k].b);
      if c.bufs[c.tasks[k].b].state == AccessCached || c.bufs[c.tasks[k].b].state == AccessModified {
        HolderFilled(c, d, c.tasks[k].b);
      }
    }
  }

  lemma HolderFilled<V>(c: Cache, d: World<V>, b: nat)
    requires Right(c, d) && b < |c.bufs| && b in c.tree && (c.bufs[b].state == AccessCached || c.bufs[b].state == AccessModified)
    ensures d.held[b] == d.store(c.bufs[b].key)
  {
    assert Filled(c, d, b);
  }

  // ---- runs in which nothing is lost ----

  /** No device is purged, and no write fails. */
  predicate LossFree(e: Event) {
    !e.PurgeDevice? && (e.RequestEnds? ==> e.ok)
  }

  ghost predicate Unpurged(c: Cache) {
    forall i | 0 <= i < |c.bufs| :: c.bufs[i].state != AccessPurged && c.bufs[i].state != TransferPurged
  }

  /** Only the label of a purge leads to a purged state. */
  lemma NoPurgeNoPurged(labels: set<D.Label>, s: State, s': State)
    requires D.Leads(labels, s, s') && D.Label.Purge !in labels && s != AccessPurged && s != TransferPurged
    ensures s' != AccessPurged && s' != TransferPurged
  {
    var path :| D.Walk(labels, path) && path[0] == s && path[|path| - 1] == s';
    if |path| > 1 {
      var last := |path| - 1;
      assert D.Move(labels, path[last - 1], path[last]);
    }
  }

  lemma StaysUnpurged(c: Cache, e: Event)
    requires Inv(c) && Enabled(c, e) && Unpurged(c) && !e.PurgeDevice?
    ensures Step(c, e).Next? && Unpurged(Step(c, e).cache)
  {
    hide Inv, Step, D.Leads, Enabled;
    NotLate(c, e);
    D.StepFollows(c, e);
    NoPurgeLabel(c, e);
    var c' := Step(c, e).cache;
    forall i | 0 <= i < |c'.bufs| ensures c'.bufs[i].state != AccessPurged && c'.bufs[i].state != TransferPurged {
      NoPurgeNoPurged(D.Labels(c, e), c.bufs[i].state, c'.bufs[i].state);
    }
  }

  lemma NotLate(c: Cache, e: Event)
    requires Unpurged(c)
    ensures !D.LatePurge(c, e)
  {
  }

  lemma NoPurgeLabel(c: Cache, e: Event)
    requires !e.PurgeDevice?
    ensures D.Label.Purge !in D.Labels(c, e)
  {
  }

  /** The value that was last released as modified for every block. */
  ghost function LastReleased<V>(c: Cache, last: Key -> V, e: Event, x: Input<V>): Key -> V
    requires Enabled(c, e)
  {
    if (e.ReleasesModified? || e.Syncs?) && c.tasks[e.k].b < |c.bufs| then Put(last, c.bufs[c.tasks[e.k].b].key, x.value) else last
  }

  ghost function AllReleased<V>(c: Cache, last: Key -> V, events: seq<Event>, xs: seq<Input<V>>): Key -> V
    requires |xs| == |events|
    decreases |events|
  {
    if events == [] || !Enabled(c, events[0]) || Step(c, events[0]).Fatal? then last
    else AllReleased(Step(c, events[0]).cache, LastReleased(c, last, events[0], xs[0]), events[1..], xs[1..])
  }

  lemma {:induction false} RequestKeepsStore<V>(c: Cache, d: World<V>, k: nat, n: nat, lost: Key -> V)
    requires Inv(c) && Unpurged(c) && n <= |ListOf(c, k)|
    ensures RequestMoves(c, d, k, n, true, lost).store == d.store
    decreases n
  {
    hide Inv, FirstTransferred;
    if n > 0 {
      RequestDoneStep(c, k, 1, true);
      OneDone(c, k, true);
      FirstTask(c, k, true);
      var b, c1 := ListOf(c, k)[0], FirstTransferred(c, k, true).cache;
      assert Has(c, k, b);
      TransferredBuffer(c, k, b);
      TransferredTouches(c, c1, k, b, true);
      hide Unpurged, Transferred, Touches;
      FirstUnpurged(c, c1, b, k);
      RequestKeepsStore(c1, Moved(c, d, k, b, true, lost), k, n - 1, lost);
    }
  }

  lemma FirstUnpurged(c: Cache, c': Cache, b: nat, k: nat)
    requires Unpurged(c) && b < |c.bufs| && InTransfer(c.bufs[b].state) && Touches(c, c', b, k)
    requires c.bufs[b].state == Transfer ==> c'.bufs[b].state == Cached
    ensures c.bufs[b].state == Transfer && Unpurged(c')
  {
  }

  /** Such a step expects of every block what was last released. */
  lemma StoreIsReleased<V>(c: Cache, d: World<V>, last: Key -> V, e: Event, x: Input<V>)
    requires Inv(c) && Right(c, d) && Unpurged(c) && Enabled(c, e) && LossFree(e) && forall key :: d.store(key) == last(key)
    ensures forall key :: Effect(c, d, e, x).store(key) == LastReleased(c, last, e, x)(key)
  {
    Sized(c, d);
    hide Inv, Right, RequestMoves, Forgotten;
    if e.RequestEnds? {
      RequestKeepsStore(c, d, e.k, e.n, x.lost);
    } else if e.ReleasesModified? || e.Syncs? || e.FinishRelease? || e.ReadEnds? {
      InBuffer(c, e.k);
      assert c.bufs[c.tasks[e.k].b].state != AccessPurged;
    }
  }

  lemma {:induction false} RunReleases<V>(c: Cache, d: World<V>, last: Key -> V, events: seq<Event>, xs: seq<Input<V>>, c': Cache)
    requires Inv(c) && Right(c, d) && Unpurged(c) && |xs| == |events| && Reaches(c, events, c')
    requires (forall e | e in events :: LossFree(e)) && forall key :: d.store(key) == last(key)
    ensures forall key :: Effects(c, d, events, xs).store(key) == AllReleased(c, last, events, xs)(key)
    decreases |events|
  {
    hide Inv, Right, Step, Enabled, Effect, LastReleased, LossFree, Unpurged;
    if events != [] {
      var e, x := events[0], xs[0];
      assert e in events && forall f | f in events[1..] :: f in events;
      StepRight(c, d, e, x);
      StepIsSafe(c, e);
      IsNoPurge(e);
      StaysUnpurged(c, e);
      StoreIsReleased(c, d, last, e, x);
      RunReleases(Step(c, e).cache, Effect(c, d, e, x), LastReleased(c, last, e, x), events[1..], xs[1..], c');
    }
  }

  lemma IsNoPurge(e: Event)
    requires LossFree(e)
    ensures !e.PurgeDevice?
  {
  }

  /**
   In every run without a purge and without a failed write, a buffer that a caller gets or reads with data has the value
   that was last released as modified for its block by anybody, or what the medium had in the beginning.
   */
  lemma NothingIsLost<V>(maxBds: nat, n: nat, need: seq<nat>, medium: Key -> V, blank: V,
                         events: seq<Event>, xs: seq<Input<V>>, c: Cache, k: nat)
    requires maxBds > 0 && n % maxBds == 0 && forall i | 0 <= i < |need| :: 1 <= need[i] <= maxBds
    requires |xs| == |events| && Reaches(Initial(maxBds, n, need), events, c) && forall e | e in events :: LossFree(e)
    requires k in c.tasks && c.tasks[k].Holding?
    ensures var start, b := Initial(maxBds, n, need), c.tasks[k].b;
            var d := Effects(start, Start(medium, n, blank), events, xs);
            && b < |c.bufs| && b < |d.held|
            && (c.bufs[b].state == AccessCached || c.bufs[b].state == AccessModified ==>
                  d.held[b] == AllReleased(start, medium, events, xs)(c.bufs[b].key))
  {
    hide Inv, Step, Enabled, Reaches, Effects, Dirty, AllReleased, LossFree;
    var start := Initial(maxBds, n, need);
    InitialSafe(maxBds, n, need);
    StartRight(maxBds, n, need, medium, blank);
    HoldersHaveTheirData(maxBds, n, need, medium, blank, events, xs, c);
    RunReleases(start, Start(medium, n, blank), medium, events, xs, c);
  }
}
