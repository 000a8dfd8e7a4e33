/**
 The order of the LRU list over whole runs: buffers without data come first, and those with data follow in the
 order in which they were released or their transfers ended.
 */
module CacheOrder {
  import opened Basics
  import opened CacheState
  import opened CacheSteps
  import opened CacheSafety
  import opened CacheRecycle
  import opened CacheRealloc
  import opened CacheObtain
  import opened CacheTransfers
  import opened CacheRun

  ghost predicate Before(s: seq<nat>, x: nat, y: nat) {
    exists i, j :: 0 <= i < j < |s| && s[i] == x && s[j] == y
  }

  /** The buffer waits on the LRU list with the data of its block. */
  predicate Data(c: Cache, i: nat) {
    i < |c.bufs| && c.bufs[i].state == Cached
  }

  ghost predicate FreeFirst(c: Cache) {
    forall x: nat, y: nat | Before(c.lru, x, y) && Data(c, x) :: Data(c, y)
  }

  /** After a step buffers without data come first, and those that had data before are in the order of before. */
  ghost predicate Ordered(c: Cache, c': Cache) {
    && |c'.bufs| == |c.bufs|
    && forall x: nat, y: nat | Before(c'.lru, x, y) && Data(c', x) :: Data(c', y) && (Data(c, y) ==> Data(c, x) && Before(c.lru, x, y))
  }

  /** No buffer gains data, or none loses it. */
  ghost predicate Dec(c: Cache, c': Cache) {
    forall y: nat :: Data(c', y) ==> Data(c, y)
  }

  ghost predicate Inc(c: Cache, c': Cache) {
    forall y: nat :: Data(c, y) ==> Data(c', y)
  }

  lemma ThenDec(c: Cache, m: Cache, c': Cache)
    requires Ordered(c, m) && Ordered(m, c') && Dec(m, c')
    ensures Ordered(c, c') && (Dec(c, m) ==> Dec(c, c'))
  {
    hide Data, Before;
  }

  lemma ThenInc(c: Cache, m: Cache, c': Cache)
    requires Ordered(c, m) && Ordered(m, c') && Inc(c, m)
    ensures Ordered(c, c') && (Inc(m, c') ==> Inc(c, c'))
  {
    hide Data, Before;
  }

  lemma OrderedIsFreeFirst(c: Cache, c': Cache)
    requires Ordered(c, c')
    ensures FreeFirst(c')
  {
    hide Data, Before;
  }

  // ---- one buffer moves ----

  lemma {:induction false} WithoutBefore(s: seq<nat>, b: nat, x: nat, y: nat)
    requires Before(Without(s, b), x, y)
    ensures Before(s, x, y)
  {
    var r := Without(s, b);
    var i, j :| 0 <= i < j < |r| && r[i] == x && r[j] == y;
    if s[0] == b {
      assert s[i + 1] == x && s[j + 1] == y;
    } else {
      WithoutMembers(s[1..], b, y);
      if i == 0 {
        assert y in Without(s[1..], b);
        var n :| 0 <= n < |s[1..]| && s[1..][n] == y;
        assert s[0] == x && s[n + 1] == y;
      } else {
        var q := Without(s[1..], b);
        assert q[i - 1] == x && q[j - 1] == y;
        WithoutBefore(s[1..], b, x, y);
        var m, n :| 0 <= m < n < |s[1..]| && s[1..][m] == x && s[1..][n] == y;
        assert s[m + 1] == x && s[n + 1] == y;
      }
    }
  }

  lemma {:induction false} WithoutMembers(s: seq<nat>, b: nat, y: nat)
    ensures y in Without(s, b) ==> y in s
  {
    if s != [] && s[0] != b {
      WithoutMembers(s[1..], b, y);
    }
  }

  lemma {:induction false} WithoutAbsent(s: seq<nat>, b: nat)
    requires b !in s
    ensures Without(s, b) == s
  {
    if s != [] {
      WithoutAbsent(s[1..], b);
    }
  }

  /** Only buffer `b` changes its state; it leaves the list, or comes to its front without data, or to its end with data. */
  ghost predicate Moves(c: Cache, c': Cache, b: nat) {
    && |c'.bufs| == |c.bufs| && b < |c.bufs| && Distinct(c.lru)
    && (forall i | 0 <= i < |c.bufs| && i != b :: c'.bufs[i].state == c.bufs[i].state)
    && var rest := Without(c.lru, b);
       || c'.lru == rest
       || (c'.lru == [b] + rest && !Data(c', b))
       || (c'.lru == rest + [b] && Data(c', b) && !Data(c, b))
  }

  lemma MoveOrdered(c: Cache, c': Cache, b: nat)
    requires FreeFirst(c) && Moves(c, c', b)
    ensures Ordered(c, c')
  {
    hide Distinct, Moves, FreeFirst, Before, Data;
    MovedSize(c, c', b);
    forall x: nat, y: nat | Before(c'.lru, x, y) && Data(c', x)
      ensures Data(c', y) && (Data(c, y) ==> Data(c, x) && Before(c.lru, x, y))
    {
      PairOrdered(c, c', b, x, y);
    }
  }

  lemma MovedSize(c: Cache, c': Cache, b: nat)
    requires Moves(c, c', b)
    ensures |c'.bufs| == |c.bufs|
  {
  }

  lemma PairOrdered(c: Cache, c': Cache, b: nat, x: nat, y: nat)
    requires FreeFirst(c) && Moves(c, c', b) && Before(c'.lru, x, y) && Data(c', x)
    ensures Data(c', y) && (Data(c, y) ==> Data(c, x) && Before(c.lru, x, y))
  {
    hide Distinct, FreeFirst;
    WithoutList(c.lru, b);
    var rest := Without(c.lru, b);
    var i, j :| 0 <= i < j < |c'.lru| && c'.lru[i] == x && c'.lru[j] == y;
    if c'.lru == rest + [b] && j == |rest| {
      assert y == b;
    } else {
      var d := if c'.lru == [b] + rest then 1 else 0;
      assert i >= d && rest[i - d] == x && rest[j - d] == y;
      assert Before(rest, x, y) && x in rest && y in rest;
      WithoutBefore(c.lru, b, x, y);
      FreeFirstPair(c, x, y);
    }
  }

  lemma FreeFirstPair(c: Cache, x: nat, y: nat)
    requires FreeFirst(c) && Before(c.lru, x, y)
    ensures Data(c, x) ==> Data(c, y)
  {
  }

  /** What the row of a buffer says about the LRU list. */
  ghost predicate Sane(c: Cache, b: nat) {
    b < |c.bufs| && Distinct(c.lru) && (b in c.lru ==> InLru(c.bufs[b].state))
  }

  lemma InvSane(c: Cache, b: nat)
    requires Inv(c) && b < |c.bufs|
    ensures Sane(c, b)
  {
    hide Active, Slot;
    assert Row(c, b);
  }

  /** The buffer is not on the list. */
  lemma Absent(c: Cache, b: nat)
    requires Sane(c, b)
    ensures !InLru(c.bufs[b].state) ==> Without(c.lru, b) == c.lru
  {
    if b !in c.lru {
      WithoutAbsent(c.lru, b);
    }
  }

  lemma DiscardMoves(c: Cache, c0: Cache, b: nat)
    requires Sane(c, b) && c0.bufs == c.bufs && c0.lru == Without(c.lru, b)
    ensures Moves(c, Discard(c0, b), b) && Dec(c, Discard(c0, b))
  {
  }

  lemma GrantMoves(c: Cache, c0: Cache, k: nat, b: nat, purpose: Purpose)
    requires Sane(c, b) && c0.bufs == c.bufs && c0.lru == Without(c.lru, b) && Grant(c0, k, b, purpose).Next?
    ensures Moves(c, Grant(c0, k, b, purpose).cache, b) && Dec(c, Grant(c0, k, b, purpose).cache)
  {
    hide GroupOf;
  }

  lemma AccessMoves(c: Cache, k: nat, b: nat, purpose: Purpose, key: Key)
    requires Sane(c, b) && Access(c, k, b, purpose, key).Next?
    ensures Moves(c, Access(c, k, b, purpose, key).cache, b) && Dec(c, Access(c, k, b, purpose, key).cache)
  {
    hide GroupOf, Grant;
    Absent(c, b);
    match c.bufs[b].state
    case Modified => GrantMoves(c, AddUsers(c, b, -1).(modified := Without(c.modified, b)), k, b, purpose);
    case Cached => GrantMoves(c, c.(lru := Without(c.lru, b)), k, b, purpose);
    case Empty => GrantMoves(c, c, k, b, purpose);
    case _ =>
  }

  lemma ToCachedMoves(c: Cache, b: nat)
    requires Sane(c, b) && !InLru(c.bufs[b].state)
    ensures Moves(c, ToCached(c, b), b) && Inc(c, ToCached(c, b))
  {
    hide GroupOf;
    Absent(c, b);
  }

  lemma TransferredMoves(c: Cache, b: nat, ok: bool)
    requires Sane(c, b) && InTransfer(c.bufs[b].state)
    ensures Moves(c, Transferred(c, b, ok), b) && Inc(c, Transferred(c, b, ok))
  {
    hide GroupOf, Discard, ToCached;
    Absent(c, b);
    ToCachedMoves(c, b);
    DiscardMoves(c, AddUsers(c, b, -1), b);
    OthersKeep(c, Transferred(c, b, ok), b);
  }

  lemma OthersKeep(c: Cache, c': Cache, b: nat)
    requires Moves(c, c', b) && !Data(c, b)
    ensures Inc(c, c')
  {
  }

  lemma PutAwayMoves(c: Cache, k: nat, b: nat)
    requires Sane(c, b) && Accessed(c.bufs[b].state)
    ensures Moves(c, ToModified(c, k, b), b) && Moves(c, EndTask(ToCached(c, b), k), b)
    ensures Moves(c, SetTask(c, k, Releasing(b)), b) && Moves(c, DiscardAfterAccess(c, k, b), b)
  {
    hide GroupOf, Discard, Without;
    Absent(c, b);
    DiscardMoves(c, AddUsers(c, b, -1), b);
  }

  lemma ReleaseMoves(c: Cache, k: nat, b: nat, syncing: bool)
    requires Sane(c, b) && Accessed(c.bufs[b].state)
    ensures Release(c, k, b, syncing).Next? ==> Moves(c, Release(c, k, b, syncing).cache, b)
    ensures ReleaseModified(c, k, b, syncing).Next? ==> Moves(c, ReleaseModified(c, k, b, syncing).cache, b)
    ensures Moves(c, ToModified(c, k, b), b)
  {
    hide ToModified, ToCached, DiscardAfterAccess, Moves, Sane;
    InBounds(c, b);
    PutAwayMoves(c, k, b);
  }

  lemma InBounds(c: Cache, b: nat)
    requires Sane(c, b)
    ensures b < |c.bufs|
  {
  }

  lemma SyncMoves(c: Cache, k: nat, b: nat)
    requires Sane(c, b) && Accessed(c.bufs[b].state)
    ensures SyncBuffer(c, k, b).Next? ==> Moves(c, SyncBuffer(c, k, b).cache, b)
  {
    hide GroupOf, DiscardAfterAccess, Without;
    Absent(c, b);
    PutAwayMoves(c, k, b);
  }

  lemma ReadDoneMoves(c: Cache, k: nat, b: nat, ok: bool)
    requires Sane(c, b) && c.bufs[b].state == Transfer && ReadDone(c, k, b, ok).Next?
    ensures Moves(c, ReadDone(c, k, b, ok).cache, b)
  {
    hide GroupOf, Discard;
    Absent(c, b);
    DiscardMoves(c, AddUsers(c, b, -1), b);
    WithoutLast(c.lru, b);
  }

  lemma FailedReadMoves(c: Cache, k: nat, b: nat)
    requires Sane(c, b) && InTransfer(c.bufs[b].state)
    ensures ReadDone(c, k, b, false).Next? && Moves(c, ReadDone(c, k, b, false).cache, b)
  {
    hide Transferred;
    TransferredMoves(c, b, false);
  }

  /** Nothing happens to the list. */
  ghost predicate Still(c: Cache, c': Cache) {
    c'.lru == c.lru && |c'.bufs| == |c.bufs| && forall i | 0 <= i < |c.bufs| :: c'.bufs[i].state == c.bufs[i].state
  }

  lemma StillOrdered(c: Cache, c': Cache)
    requires FreeFirst(c) && Still(c, c')
    ensures Ordered(c, c') && Dec(c, c') && Inc(c, c')
  {
    hide Before;
  }

  lemma SyncDoneMoves(c: Cache, k: nat, b: nat)
    requires Sane(c, b) && SyncDone(c, k, b).Next?
    ensures Moves(c, SyncDone(c, k, b).cache, b) || Still(c, SyncDone(c, k, b).cache)
  {
    hide GroupOf;
    Absent(c, b);
  }

  lemma PurgeOneMoves(c: Cache, b: nat)
    requires Sane(c, b) && PurgeOne(c, b).Next?
    ensures Moves(c, PurgeOne(c, b).cache, b) || Still(c, PurgeOne(c, b).cache)
    ensures Dec(c, PurgeOne(c, b).cache)
  {
    hide GroupOf, Discard;
    Absent(c, b);
    match c.bufs[b].state
    case Sync => DiscardMoves(c, AddUsers(c, b, -1).(sync := Without(c.sync, b)), b);
    case Modified => DiscardMoves(c, AddUsers(c, b, -1).(modified := Without(c.modified, b)), b);
    case Cached => DiscardMoves(c, c.(lru := Without(c.lru, b)), b);
    case _ =>
  }

  // ---- several buffers move ----

  lemma {:induction false} PurgeOrdered(c: Cache, order: seq<nat>)
    requires Inv(c) && FreeFirst(c) && Distinct(order) && forall b | b in order :: b in c.tree
    ensures Purge(c, order).Next? && Ordered(c, Purge(c, order).cache) && Dec(c, Purge(c, order).cache)
    decreases |order|
  {
    hide Inv, PurgeOne, FreeFirst, Ordered, Dec, Moves, Distinct;
    if order == [] {
      StillOrdered(c, c);
    } else {
      var b := order[0];
      TreeInRange(c, b);
      InvSane(c, b);
      PurgeOneStep(c, b);
      PurgeOneMoves(c, b);
      var c1 := PurgeOne(c, b).cache;
      if Moves(c, c1, b) {
        MoveOrdered(c, c1, b);
      } else {
        StillOrdered(c, c1);
      }
      OrderedIsFreeFirst(c, c1);
      DistinctTail(order);
      PurgeOrdered(c1, order[1..]);
      ThenDec(c, c1, Purge(c1, order[1..]).cache);
    }
  }

  lemma {:induction false} RequestOrdered(c: Cache, k: nat, n: nat, ok: bool)
    requires Inv(c) && FreeFirst(c) && n <= |ListOf(c, k)|
    ensures RequestDone(c, k, n, ok).Next? && Ordered(c, RequestDone(c, k, n, ok).cache) && Inc(c, RequestDone(c, k, n, ok).cache)
    decreases n
  {
    hide Inv, FreeFirst, Ordered, Inc, Moves, Transferred;
    if n == 0 {
      StillOrdered(c, c);
    } else {
      RequestDoneStep(c, k, 1, ok);
      FirstOrdered(c, k, ok);
      var c1 := FirstTransferred(c, k, ok).cache;
      assert RequestDone(c1, k, 0, ok) == Next(c1);
      assert RequestDone(c, k, 1, ok) == Next(c1);
      OrderedIsFreeFirst(c, c1);
      RequestOrdered(c1, k, n - 1, ok);
      ThenInc(c, c1, RequestDone(c1, k, n - 1, ok).cache);
    }
  }

  lemma FirstOrdered(c: Cache, k: nat, ok: bool)
    requires Inv(c) && FreeFirst(c) && ListOf(c, k) != []
    ensures FirstTransferred(c, k, ok).Next? && Ordered(c, FirstTransferred(c, k, ok).cache) && Inc(c, FirstTransferred(c, k, ok).cache)
    ensures ListOf(FirstTransferred(c, k, ok).cache, k) == ListOf(c, k)[1..]
  {
    hide Inv, FreeFirst, Ordered, Transferred, Without;
    var b := ListOf(c, k)[0];
    assert Has(c, k, b);
    TransferredBuffer(c, k, b);
    InvSane(c, b);
    TransferredMoves(c, b, ok);
    var c' := FirstTransferred(c, k, ok).cache;
    assert Moves(c, c', b);
    MoveOrdered(c, c', b);
  }

  lemma {:induction false} GatherOrdered(c: Cache, k: nat, picks: seq<nat>)
    requires FreeFirst(c) && Gather(c, k, picks).Next?
    ensures Ordered(c, Gather(c, k, picks).cache) && Inc(c, Gather(c, k, picks).cache)
    decreases |picks|
  {
    hide FreeFirst, Ordered, Inc, GatherOne;
    if picks == [] {
      StillOrdered(c, c);
    } else {
      GatherOneOrdered(c, k, picks[0]);
      var c1 := GatherOne(c, k, picks[0]).cache;
      OrderedIsFreeFirst(c, c1);
      GatherOrdered(c1, k, picks[1..]);
      ThenInc(c, c1, Gather(c1, k, picks[1..]).cache);
    }
  }

  lemma GatherOneOrdered(c: Cache, k: nat, b: nat)
    requires FreeFirst(c) && GatherOne(c, k, b).Next?
    ensures Ordered(c, GatherOne(c, k, b).cache) && Inc(c, GatherOne(c, k, b).cache)
  {
    hide Before, Without;
  }

  // ---- obtaining a buffer ----

  lemma {:induction false} OutsideBefore(c: Cache, list: seq<nat>, g: nat, x: nat, y: nat)
    requires Before(OutsideGroup(c, list, g), x, y)
    ensures Before(list, x, y) && GroupOf(c, x) != g && GroupOf(c, y) != g
  {
    hide GroupOf;
    var r := OutsideGroup(c, list, g);
    var q := OutsideGroup(c, list[1..], g);
    var i, j :| 0 <= i < j < |r| && r[i] == x && r[j] == y;
    var d := if GroupOf(c, list[0]) == g then 0 else 1;
    if i < d {
      assert q[j - d] == y;
      OutsideMembers(c, list[1..], g, y);
      var n :| 0 <= n < |list[1..]| && list[1..][n] == y;
      assert list[0] == x && list[n + 1] == y;
    } else {
      assert q[i - d] == x && q[j - d] == y;
      OutsideBefore(c, list[1..], g, x, y);
      var m, n :| 0 <= m < n < |list[1..]| && list[1..][m] == x && list[1..][n] == y;
      assert list[m + 1] == x && list[n + 1] == y;
    }
  }

  lemma {:induction false} OutsideMembers(c: Cache, list: seq<nat>, g: nat, y: nat)
    ensures y in OutsideGroup(c, list, g) ==> y in list && GroupOf(c, y) != g
  {
    if list != [] {
      OutsideMembers(c, list[1..], g, y);
    }
  }

  lemma ReallocOrdered(c: Cache, g: nat, n: nat)
    requires Formed(c) && FreeFirst(c) && g < |c.groups| && 1 <= n <= c.maxBds
    ensures Ordered(c, Realloc(c, g, n)) && Dec(c, Realloc(c, g, n))
  {
    hide Slot, OutsideGroup, Slots;
    var c' := Realloc(c, g, n);
    var a, r := Slots(g * c.maxBds, c.maxBds / n, n), OutsideGroup(c, c.lru, g);
    forall x: nat, y: nat | Before(c'.lru, x, y) && Data(c', x)
      ensures Data(c', y) && (Data(c, y) ==> Data(c, x) && Before(c.lru, x, y))
    {
      var i, j :| 0 <= i < j < |c'.lru| && c'.lru[i] == x && c'.lru[j] == y;
      if i < |a| {
        assert x in a;
        SlotAt(c.maxBds, n, g, x);
      } else {
        assert r[i - |a|] == x && r[j - |a|] == y;
        OutsideBefore(c, c.lru, g, x, y);
      }
    }
  }

  lemma FromLruOrdered(c: Cache, dd: nat)
    requires Inv(c) && FreeFirst(c) && FromLru(c, dd).Source?
    ensures Ordered(c, FromLru(c, dd).cache) && Dec(c, FromLru(c, dd).cache)
  {
    hide Lists, Keys, WaiterCounts, UserCounts, Awaited, Owners, WaitKeys, FreeFirst, Ordered, Dec, Realloc, GroupIdle;
    StillOrdered(c, c);
    var b := FirstUsable(c, c.lru, dd).value;
    if c.groups[GroupOf(c, b)].bdsPerGroup != c.need[dd] {
      ReallocOrdered(c, GroupOf(c, b), c.need[dd]);
    }
  }

  /** A recycled buffer leaves the list, whatever state it is then granted in. */
  lemma RecycleMoves(c: Cache, b: nat, key: Key)
    requires Inv(c) && b < |c.bufs| && Recycle(c, b, key).Next?
    ensures var c' := Recycle(c, b, key).cache; Moves(c, c', b) && Dec(c, c') && Sane(c', b) && c'.bufs[b].state == Empty
  {
    InvSane(c, b);
    hide Inv, Find, Distinct;
    WithoutList(c.lru, b);
  }

  lemma RecycleOrdered(c: Cache, b: nat, key: Key)
    requires Inv(c) && FreeFirst(c) && b < |c.bufs| && Recycle(c, b, key).Next?
    ensures var c' := Recycle(c, b, key).cache; Ordered(c, c') && Dec(c, c') && Sane(c', b) && c'.bufs[b].state == Empty && FreeFirst(c')
  {
    hide Inv, Recycle, FreeFirst, Ordered, Dec, Moves;
    RecycleMoves(c, b, key);
    MoveOrdered(c, Recycle(c, b, key).cache, b);
    OrderedIsFreeFirst(c, Recycle(c, b, key).cache);
  }

  lemma AccessOrdered(c: Cache, k: nat, b: nat, purpose: Purpose, key: Key)
    requires Sane(c, b) && FreeFirst(c) && Access(c, k, b, purpose, key).Next?
    ensures Ordered(c, Access(c, k, b, purpose, key).cache) && Dec(c, Access(c, k, b, purpose, key).cache)
  {
    hide FreeFirst, Ordered, Dec, Moves, Access;
    AccessMoves(c, k, b, purpose, key);
    MoveOrdered(c, Access(c, k, b, purpose, key).cache, b);
  }

  lemma TryGetOrdered(c: Cache, k: nat, purpose: Purpose, key: Key)
    requires Inv(c) && FreeFirst(c) && k !in c.tasks && TryGet(c, k, purpose, key).Next?
    ensures Ordered(c, TryGet(c, k, purpose, key).cache)
  {
    hide Inv, Find, FromLru, Recycle, Access, Suited, FreeFirst, Ordered, Dec, Sane;
    if Find(c, key).Some? {
      FoundSome(c, key);
      InvSane(c, Find(c, key).value);
      AccessOrdered(c, k, Find(c, key).value, purpose, key);
    } else {
      FromLruFacts(c, key);
      match FromLru(c, key.dd)
      case NoBuffer => StillOrdered(c, SetTask(c, k, WaitingForBuffer(purpose, key)));
      case Source(c0, b) =>
        FromLruOrdered(c, key.dd);
        OrderedIsFreeFirst(c, c0);
        RecycleOrdered(c0, b, key);
        var c1 := Recycle(c0, b, key).cache;
        AccessOrdered(c1, k, b, purpose, key);
        var c2 := Access(c1, k, b, purpose, key).cache;
        ThenDec(c, c0, c1);
        ThenDec(c, c1, c2);
    }
  }

  lemma ReadAheadOneOrdered(c: Cache, k: nat, key: Key)
    requires Inv(c) && FreeFirst(c) && ReadAheadOne(c, k, key).Next?
    ensures Ordered(c, ReadAheadOne(c, k, key).cache) && Dec(c, ReadAheadOne(c, k, key).cache)
  {
    hide Inv, Find, FromLru, Recycle, FreeFirst, Ordered, Dec, Sane;
    StillOrdered(c, c);
    if Find(c, key).None? {
      FromLruFacts(c, key);
      var r := FromLru(c, key.dd);
      if r.Source? {
        FromLruOrdered(c, key.dd);
        OrderedIsFreeFirst(c, r.cache);
        RecycleOrdered(r.cache, r.b, key);
        var c1 := Recycle(r.cache, r.b, key).cache;
        AheadOrdered(c1, k, r.b);
        ThenDec(c, r.cache, c1);
        ThenDec(c, c1, ReadAheadOne(c, k, key).cache);
      }
    }
  }

  lemma AheadOrdered(c: Cache, k: nat, b: nat)
    requires Sane(c, b) && FreeFirst(c) && c.bufs[b].state == Empty
    ensures var c' := SetTask(SetState(AddUsers(c, b, 1), b, Transfer), k, Transferring(ListOf(c, k) + [b]));
            Ordered(c, c') && Dec(c, c')
  {
    hide GroupOf;
    var c' := SetTask(SetState(AddUsers(c, b, 1), b, Transfer), k, Transferring(ListOf(c, k) + [b]));
    Absent(c, b);
    assert Moves(c, c', b);
    hide FreeFirst, Ordered;
    MoveOrdered(c, c', b);
  }

  lemma {:induction false} ReadAheadOrdered(c: Cache, k: nat, keys: seq<Key>)
    requires Inv(c) && FreeFirst(c) && Collecting(c, k) && ReadAhead(c, k, keys).Next?
    ensures Ordered(c, ReadAhead(c, k, keys).cache) && Dec(c, ReadAhead(c, k, keys).cache)
    decreases |keys|
  {
    hide Inv, ReadAheadOne, FreeFirst, Ordered, Dec;
    if keys == [] {
      StillOrdered(c, c);
    } else {
      ReadAheadOneStep(c, k, keys[0]);
      ReadAheadOneOrdered(c, k, keys[0]);
      var c1 := ReadAheadOne(c, k, keys[0]).cache;
      if ListOf(c1, k) != ListOf(c, k) {
        OrderedIsFreeFirst(c, c1);
        ReadAheadOrdered(c1, k, keys[1..]);
        ThenDec(c, c1, ReadAhead(c1, k, keys[1..]).cache);
      }
    }
  }

  // ---- every step ----

  lemma HasBuffer(c: Cache, k: nat)
    requires Inv(c) && k in c.tasks && (c.tasks[k].Waiting? || c.tasks[k].Reading? || c.tasks[k].Holding? || c.tasks[k].Releasing?)
    ensures var b := c.tasks[k].b;
            && Sane(c, b)
            && (c.tasks[k].Reading? ==> InTransfer(c.bufs[b].state))
            && (c.tasks[k].Holding? || c.tasks[k].Releasing? ==> Accessed(c.bufs[b].state))
  {
    hide Active, Slot;
    var b := c.tasks[k].b;
    if !c.tasks[k].Waiting? {
      assert Has(c, k, b);
      OwnerFacts(c, k, b);
    }
    InvSane(c, b);
  }

  lemma UnwaitStill(c: Cache, k: nat, b: nat)
    requires Sane(c, b)
    ensures Still(c, Unwait(c, k, b)) && Sane(Unwait(c, k, b), b)
  {
    hide GroupOf;
  }

  /** A thread that waits or has a buffer moves at most this one. */
  lemma BufferStepOrdered(c: Cache, e: Event)
    requires Inv(c) && FreeFirst(c) && Enabled(c, e) && !e.PurgeDevice?
    requires BufferOf(c, e.k) < |c.bufs| && BufferStep(c, e).Next? && e.k in c.tasks
    requires c.tasks[e.k].Waiting? || c.tasks[e.k].Reading? || c.tasks[e.k].Holding? || c.tasks[e.k].Releasing?
    ensures Ordered(c, BufferStep(c, e).cache)
  {
    hide Inv, FreeFirst, Ordered, Dec, Inc, Access, Unwait, SyncDone, ReadDone, Release, ReleaseModified, SyncBuffer, ToModified, Sane, Moves, Still;
    HasBuffer(c, e.k);
    var b, c' := BufferOf(c, e.k), BufferStep(c, e).cache;
    UnwaitStill(c, e.k, b);
    StillOrdered(c, Unwait(c, e.k, b));
    var c0 := Unwait(c, e.k, b);
    OrderedIsFreeFirst(c, c0);
    match e
    case AccessAgain(k) =>
      AccessOrdered(c0, k, b, c.tasks[k].purpose, c.tasks[k].key);
      ThenDec(c, c0, c');
    case SyncAgain(k) =>
      SyncDoneMoves(c0, k, b);
      if Moves(c0, c', b) {
        MoveOrdered(c0, c', b);
      } else {
        StillOrdered(c0, c');
      }
      ThenInc(c, c0, c');
    case ReadEnds(k, ok) =>
      if ok {
        ReadDoneMoves(c, k, b, ok);
      } else {
        FailedReadMoves(c, k, b);
      }
      MoveOrdered(c, c', b);
    case Releases(k, syncing) =>
      ReleaseMoves(c, k, b, syncing);
      MoveOrdered(c, c', b);
    case ReleasesModified(k, syncing) =>
      ReleaseMoves(c, k, b, syncing);
      MoveOrdered(c, c', b);
    case FinishRelease(k) =>
      ReleaseMoves(c, k, b, false);
      MoveOrdered(c, c', b);
    case Syncs(k) =>
      SyncMoves(c, k, b);
      MoveOrdered(c, c', b);
    case _ =>
  }

  /** Every step of any thread keeps the order of the list. */
  lemma StepOrdered(c: Cache, e: Event)
    requires Inv(c) && FreeFirst(c) && Enabled(c, e)
    ensures Step(c, e).Next? && Ordered(c, Step(c, e).cache)
  {
    hide Inv, FreeFirst, Ordered, Dec, Inc, TryGet, ReadAhead, Gather, RequestDone, Purge, BufferStep, Still;
    StepIsSafe(c, e);
    match e
    case Get(k, key) => TryGetOrdered(c, k, ForGet, key);
    case Read(k, key) => TryGetOrdered(c, k, ForRead, key);
    case Retry(k) =>
      var c0 := EndTask(c, k);
      EndStill(c, k);
      RetryStep(c, k);
      IdleTask(c, c0, k);
      StillOrdered(c, c0);
      OrderedIsFreeFirst(c, c0);
      TryGetOrdered(c0, k, c.tasks[k].purpose, c.tasks[k].key);
      ThenInc(c, c0, Step(c, e).cache);
    case ReadAheadStarts(k, keys) => ReadAheadOrdered(c, k, keys);
    case SwapOut(k, picks) => GatherOrdered(c, k, picks);
    case RequestEnds(k, n, ok) => RequestOrdered(c, k, n, ok);
    case PurgeDevice(_, order) => PurgeOrdered(c, order);
    case _ => BufferStepOrdered(c, e);
  }

  lemma EndStill(c: Cache, k: nat)
    ensures Still(c, EndTask(c, k))
  {
  }

  // ---- whole runs ----

  /** The numbers of the steps in which the buffers last got onto the list with data, brought up to date. */
  ghost function Stamped(c: Cache, c': Cache, stamps: map<nat, nat>, now: nat): map<nat, nat> {
    map i | 0 <= i < |c'.bufs| :: if i in stamps && (Data(c, i) || !Data(c', i)) then stamps[i] else now
  }

  ghost function Stamps(c: Cache, events: seq<Event>, stamps: map<nat, nat>, now: nat): map<nat, nat>
    decreases |events|
  {
    if events == [] || !Enabled(c, events[0]) || Step(c, events[0]).Fatal? then stamps
    else
      var c' := Step(c, events[0]).cache;
      Stamps(c', events[1..], Stamped(c, c', stamps, now), now + 1)
  }

  /** Buffers without data come first; those with data come in the order of their stamps. */
  ghost predicate InOrder(c: Cache, stamps: map<nat, nat>) {
    forall x: nat, y: nat | Before(c.lru, x, y) && Data(c, x) ::
      Data(c, y) && x in stamps && y in stamps && stamps[x] <= stamps[y]
  }

  ghost predicate UpTo(c: Cache, stamps: map<nat, nat>, now: nat) {
    (forall i | i in stamps :: stamps[i] < now) && forall i: nat | Data(c, i) :: i in stamps
  }

  lemma StepInOrder(c: Cache, c': Cache, stamps: map<nat, nat>, now: nat)
    requires Ordered(c, c') && InOrder(c, stamps) && UpTo(c, stamps, now)
    ensures InOrder(c', Stamped(c, c', stamps, now)) && UpTo(c', Stamped(c, c', stamps, now), now + 1)
  {
    hide Before;
  }

  lemma {:induction false} RunInOrder(c: Cache, events: seq<Event>, c': Cache, stamps: map<nat, nat>, now: nat)
    requires Inv(c) && FreeFirst(c) && Reaches(c, events, c') && InOrder(c, stamps) && UpTo(c, stamps, now)
    ensures InOrder(c', Stamps(c, events, stamps, now))
    decreases |events|
  {
    hide Inv, Step, Enabled, InOrder, UpTo, Ordered, FreeFirst, Stamped;
    if events != [] {
      StepIsSafe(c, events[0]);
      StepOrdered(c, events[0]);
      var c1 := Step(c, events[0]).cache;
      StepInOrder(c, c1, stamps, now);
      OrderedIsFreeFirst(c, c1);
      RunInOrder(c1, events[1..], c', Stamped(c, c1, stamps, now), now + 1);
    }
  }

  /**
   In every reachable state the LRU list starts with the buffers without data, and the others follow in the order
   of the steps in which they were last released or their transfers ended.
   */
  lemma LeastRecentFirst(maxBds: nat, n: nat, need: seq<nat>, events: seq<Event>, c: Cache)
    requires maxBds > 0 && n % maxBds == 0 && forall d | 0 <= d < |need| :: 1 <= need[d] <= maxBds
    requires Reaches(Initial(maxBds, n, need), events, c)
    ensures InOrder(c, Stamps(Initial(maxBds, n, need), events, map[], 1))
  {
    hide Inv, Step, Enabled, Reaches, Before;
    var start := Initial(maxBds, n, need);
    InitialSafe(maxBds, n, need);
    RunInOrder(start, events, c, map[], 1);
  }
}
