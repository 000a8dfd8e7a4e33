/** Transfers, swap-out, purge and recycling keep the invariant. */
module CacheTransfers {
  import opened Basics
  import opened BlockOrder
  import opened CacheState
  import opened CacheFrame
  import opened CacheSteps
  import opened CacheSafety

  // ---- the end of a transfer ----

  /** The task gives up exactly buffer `b`, and goes on to own what else it owned. */
  ghost predicate Yields(c: Cache, k: nat, b: nat, t: Option<Task>) {
    && Has(c, k, b) && !Owning(t, b) && NoWaiting(c, k, t)
    && (forall j: nat | j != b :: Owning(t, j) <==> Has(c, k, j))
    && (forall j: nat | j != b && Owning(t, j) :: k in c.tasks && c.tasks[k].Transferring? && t.value.Transferring?)
    && (t.Some? && t.value.Transferring? ==> Distinct(t.value.list))
  }

  lemma TransferredBuffer(c: Cache, k: nat, b: nat)
    requires Inv(c) && Has(c, k, b)
    ensures b < |c.bufs| && b in c.tree && GroupOf(c, b) < |c.groups| && OwnedState(c.bufs[b].state)
    ensures Off(c.lru, c.lru, b) && Off(c.modified, c.modified, b) && Off(c.sync, c.sync, b)
    ensures c.tasks[k].Transferring? || c.tasks[k].Reading? ==> InTransfer(c.bufs[b].state)
  {
    hide Active, Slot, Without;
    OwnerFacts(c, k, b);
    BufferFacts(c, b);
    OffList(c.lru, b);
    OffList(c.modified, b);
    OffList(c.sync, b);
  }

  lemma TransferredStep(c: Cache, k: nat, b: nat, ok: bool, t: Option<Task>)
    requires Inv(c) && Yields(c, k, b, t) && b < |c.bufs|
    ensures var c1 := Transferred(c, b, ok); Inv(if t.Some? then SetTask(c1, k, t.value) else EndTask(c1, k))
  {
    hide Active, Slot, Formed, Inv, Distinct, SameBut, Discard, Change;
    TransferredBuffer(c, k, b);
    if ok && c.bufs[b].state == Transfer {
      CachedStep(c, k, b, t);
    } else {
      DiscardStep(c, b, -1, k, t, c.lru, c.modified, c.sync);
      var c1 := AddUsers(c, b, -1);
      assert c1.(lru := c.lru, modified := c.modified, sync := c.sync) == c1;
    }
  }

  lemma CachedStep(c: Cache, k: nat, b: nat, t: Option<Task>)
    requires Inv(c) && Yields(c, k, b, t) && b < |c.bufs|
    ensures var c1 := ToCached(c, b); Inv(if t.Some? then SetTask(c1, k, t.value) else EndTask(c1, k))
  {
    hide Active, Slot, Formed, Inv, Distinct, SameBut;
    TransferredBuffer(c, k, b);
    OffThenFirst(c.lru, c.lru, b);
    BufferFacts(c, b);
    var c1 := ToCached(c, b);
    var c' := if t.Some? then SetTask(c1, k, t.value) else EndTask(c1, k);
    var x := Change(c, b, c.bufs[b].(state := Cached), -1, k, t, c.lru + [b], c.modified, c.sync);
    assert x.bufs == c'.bufs && x.groups == c'.groups && x.tasks == c'.tasks && x.tree == c'.tree;
    PlainStep(c, c', b, Cached, 0, -1, k, t, c.lru + [b], c.modified, c.sync);
  }

  lemma TailYields(c: Cache, k: nat)
    requires Inv(c) && ListOf(c, k) != []
    ensures var list := ListOf(c, k);
            && list[0] < |c.bufs|
            && Yields(c, k, list[0], if |list| == 1 then None else Some(Transferring(list[1..])))
  {
    hide Active, Slot, Formed, Lists, Keys, WaiterCounts, UserCounts, Awaited, WaitKeys;
    var list := ListOf(c, k);
    assert Has(c, k, list[0]);
    OwnerFacts(c, k, list[0]);
    DistinctTail(list);
  }

  /** A finished request is never fatal and keeps the invariant, buffer by buffer. */
  lemma {:induction false} RequestDoneStep(c: Cache, k: nat, n: nat, ok: bool)
    requires Inv(c) && n <= |ListOf(c, k)|
    ensures var o := RequestDone(c, k, n, ok); o.Next? && Inv(o.cache)
    decreases n
  {
    hide Inv, Transferred, Yields;
    if n > 0 {
      var list := ListOf(c, k);
      TailYields(c, k);
      TransferredStep(c, k, list[0], ok, if |list| == 1 then None else Some(Transferring(list[1..])));
      RequestDoneStep(FirstTransferred(c, k, ok).cache, k, n - 1, ok);
    }
  }

  // ---- the end of a read ----

  lemma ReadYields(c: Cache, k: nat, b: nat)
    requires k in c.tasks && c.tasks[k] == Reading(b)
    ensures Yields(c, k, b, None)
  {
  }

  /** A read whose buffer was not purged meanwhile hands the buffer to its caller. */
  lemma ReadDoneStep(c: Cache, k: nat, b: nat, ok: bool)
    requires Inv(c) && k in c.tasks && c.tasks[k] == Reading(b) && b < |c.bufs|
    requires ok ==> c.bufs[b].state == Transfer
    ensures var o := ReadDone(c, k, b, ok);
            o.Next? && Inv(o.cache) && (ok ==> k in o.cache.tasks && o.cache.tasks[k] == Holding(b))
  {
    if ok {
      ReadSucceeds(c, k, b);
    } else {
      hide Inv, Transferred, Yields;
      ReadYields(c, k, b);
      TransferredStep(c, k, b, ok, None);
    }
  }

  lemma ReadSucceeds(c: Cache, k: nat, b: nat)
    requires Inv(c) && k in c.tasks && c.tasks[k] == Reading(b) && b < |c.bufs| && c.bufs[b].state == Transfer
    ensures var o := ReadDone(c, k, b, true); o.Next? && Inv(o.cache) && k in o.cache.tasks && o.cache.tasks[k] == Holding(b)
  {
    hide Active, Slot, Formed, Inv, Distinct, SameBut, Without;
    HeldBuffer(c, k, b);
    ListSame(c.lru, b);
    ListSame(c.modified, b);
    ListSame(c.sync, b);
    WithoutLast(c.lru, b);
    var c' := ReadDone(c, k, b, true).cache;
    var x := Change(c, b, c.bufs[b].(state := AccessCached), 0, k, Some(Holding(b)), c.lru, c.modified, c.sync);
    assert x.bufs == c'.bufs && x.groups == c'.groups && x.tasks == c'.tasks && x.tree == c'.tree && x.lru == c'.lru;
    PlainStep(c, c', b, AccessCached, 0, 0, k, Some(Holding(b)), c.lru, c.modified, c.sync);
  }

  lemma {:induction false} WithoutLast(s: seq<nat>, b: nat)
    requires b !in s
    ensures Without(s + [b], b) == s
  {
    if s != [] {
      assert (s + [b])[1..] == s[1..] + [b];
      WithoutLast(s[1..], b);
    }
  }

  // ---- swap-out ----

  lemma {:induction false} PlaceDistinct(block: nat -> int, list: seq<nat>, b: nat)
    requires b !in list && Distinct(list)
    ensures Distinct(Place(block, list, b)) && forall j :: j in Place(block, list, b) <==> j == b || j in list
    decreases |list|
  {
    if list != [] {
      var last, front := list[|list| - 1], list[..|list| - 1];
      assert list == front + [last];
      if block(b) > block(last) {
        AppendList(list, b);
      } else {
        PlaceDistinct(block, front, b);
        AppendList(Place(block, front, b), last);
      }
    }
  }

  /** The list that a picked buffer is on, without it. */
  function Unlisted(c: Cache, list: seq<nat>, b: nat, s: State): seq<nat>
    requires b < |c.bufs|
  {
    if c.bufs[b].state == s then Without(list, b) else list
  }

  lemma GatherIsChange(c: Cache, k: nat, b: nat)
    requires b < |c.bufs| && b in c.tree && GroupOf(c, b) < |c.groups|
    requires (c.bufs[b].state == Modified && b in c.modified) || (c.bufs[b].state == Sync && b in c.sync)
    ensures GatherOne(c, k, b)
         == Next(Change(c, b, c.bufs[b].(state := Transfer), 0, k, Some(Transferring(Place(BlockOf(c), ListOf(c, k), b))),
                        c.lru, Unlisted(c, c.modified, b, Modified), Unlisted(c, c.sync, b, Sync)))
  {
    hide Place, Without, BlockOf;
    var t := Transferring(Place(BlockOf(c), ListOf(c, k), b));
    var x := Change(c, b, c.bufs[b].(state := Transfer), 0, k, Some(t), c.lru, Unlisted(c, c.modified, b, Modified), Unlisted(c, c.sync, b, Sync));
    var y := GatherOne(c, k, b).cache;
    assert x.bufs == y.bufs && x.groups == y.groups && x.tasks == y.tasks && x.tree == y.tree;
  }

  lemma UnlistedFacts(c: Cache, list: seq<nat>, b: nat, s: State)
    requires b < |c.bufs| && Distinct(list) && (b in list ==> c.bufs[b].state == s)
    ensures var l := Unlisted(c, list, b, s); SameBut(list, l, b) && b !in l && forall j | j != b && j in list :: j in l
  {
    hide Distinct;
    OffList(list, b);
    ListSame(list, b);
    OthersStay(list, Unlisted(c, list, b, s), b);
  }

  lemma GatherOneStep(c: Cache, k: nat, b: nat)
    requires Inv(c) && (k in c.tasks ==> c.tasks[k].Transferring?) && (b in c.modified || b in c.sync)
    ensures var o := GatherOne(c, k, b);
            o.Next? && Inv(o.cache) && k in o.cache.tasks && o.cache.tasks[k].Transferring?
    ensures b < |c.bufs|
    ensures var o := GatherOne(c, k, b);
            forall j | j != b && (j in c.modified || j in c.sync) :: j in o.cache.modified || j in o.cache.sync
  {
    hide Active, Slot, Inv, Distinct, SameBut, Without, Place, GatherOne, Unlisted, BlockOf;
    Listed(c, b);
    BufferFacts(c, b);
    NotOwner(c, k, b);
    NotOnList(c, k, b);
    PlaceDistinct(BlockOf(c), ListOf(c, k), b);
    UnlistedFacts(c, c.modified, b, Modified);
    UnlistedFacts(c, c.sync, b, Sync);
    ListSame(c.lru, b);
    GatherIsChange(c, k, b);
    PlainStep(c, GatherOne(c, k, b).cache, b, Transfer, 0, 0, k, Some(Transferring(Place(BlockOf(c), ListOf(c, k), b))), c.lru,
              Unlisted(c, c.modified, b, Modified), Unlisted(c, c.sync, b, Sync));
  }

  lemma OthersStay(s: seq<nat>, s': seq<nat>, b: nat)
    requires SameBut(s, s', b)
    ensures forall j | j != b :: j in s' <==> j in s
  {
  }

  lemma Listed(c: Cache, b: nat)
    requires Inv(c) && (b in c.modified || b in c.sync)
    ensures b < |c.bufs| && (c.bufs[b].state == Modified || c.bufs[b].state == Sync) && b in c.tree
  {
    hide Active;
    assert Row(c, b);
  }

  lemma NotOnList(c: Cache, k: nat, b: nat)
    requires Inv(c) && !Has(c, k, b)
    ensures b !in ListOf(c, k) && Distinct(ListOf(c, k))
    ensures k in c.tasks && c.tasks[k].Transferring? ==> forall j: nat :: Has(c, k, j) <==> j in ListOf(c, k)
  {
    hide Active;
  }

  /** A read whose buffer was purged meanwhile does break the cache: it should look at the state again. */
  lemma PurgedReadBreaks(c: Cache, k: nat, b: nat)
    requires Inv(c) && k in c.tasks && c.tasks[k] == Reading(b) && b < |c.bufs| && c.bufs[b].state != Transfer
    ensures var o := ReadDone(c, k, b, true); !(o.Next? && Inv(o.cache))
  {
    hide Slot, Lists, Keys, WaiterCounts, UserCounts, Awaited, Owners, WaitKeys, Without;
    OwnerFacts(c, k, b);
    BufferFacts(c, b);
    var o := ReadDone(c, k, b, true);
    if o.Next? {
      OutsideTree(o.cache, b);
    }
  }

  lemma OutsideTree(c: Cache, b: nat)
    requires Active(c, b) && InTree(c.bufs[b].state) && b !in c.tree
    ensures !Inv(c)
  {
    assert !Row(c, b);
  }

  /** So the end of a successful read is safe if and only if no purge has hit its buffer. */
  lemma ReadDoneExactly(c: Cache, k: nat, b: nat)
    requires Inv(c) && k in c.tasks && c.tasks[k] == Reading(b) && b < |c.bufs|
    ensures var o := ReadDone(c, k, b, true); (o.Next? && Inv(o.cache)) <==> c.bufs[b].state == Transfer
  {
    hide Inv;
    if c.bufs[b].state == Transfer {
      ReadDoneStep(c, k, b, true);
    } else {
      PurgedReadBreaks(c, k, b);
    }
  }

  // ---- purge ----

  lemma FreshTask(s: set<nat>) returns (k: nat)
    ensures k !in s && forall x | x in s :: x < k
    decreases |s|
  {
    if s == {} {
      k := 0;
    } else {
      var x :| x in s;
      var k' := FreshTask(s - {x});
      k := if x < k' then k' else x + 1;
      assert s == (s - {x}) + {x};
    }
  }

  lemma PurgeOneStep(c: Cache, b: nat)
    requires Inv(c) && b in c.tree && b < |c.bufs|
    ensures var o := PurgeOne(c, b); o.Next? && Inv(o.cache) && |o.cache.bufs| == |c.bufs|
    ensures var o := PurgeOne(c, b); forall j | j != b && j in c.tree :: j in o.cache.tree
  {
    hide Active, Slot, Formed, Inv, Distinct, SameBut, Without, Discard;
    var k := FreshTask(c.tasks.Keys);
    BufferFacts(c, b);
    match c.bufs[b].state
    case Sync => PurgeListed(c, b, k);
    case Modified => PurgeListed(c, b, k);
    case Cached => PurgeListed(c, b, k);
    case Transfer => Repainted(c, b, k, TransferPurged);
    case AccessCached => Repainted(c, b, k, AccessPurged);
    case AccessEmpty => Repainted(c, b, k, AccessPurged);
    case AccessModified => Repainted(c, b, k, AccessPurged);
    case _ =>
  }

  /** A buffer in use changes its state within the same kind of use. */
  lemma Repainted(c: Cache, b: nat, k: nat, s: State)
    requires Inv(c) && b in c.tree && b < |c.bufs| && k !in c.tasks
    requires OwnedState(c.bufs[b].state) && Accessed(s) == Accessed(c.bufs[b].state) && InTransfer(s) == InTransfer(c.bufs[b].state)
    ensures Inv(SetState(c, b, s))
  {
    hide Active, Slot, Formed, Inv, Distinct, SameBut;
    BufferFacts(c, b);
    ListSame(c.lru, b);
    ListSame(c.modified, b);
    ListSame(c.sync, b);
    var c' := SetState(c, b, s);
    var x := Change(c, b, c.bufs[b].(state := s), 0, k, None, c.lru, c.modified, c.sync);
    assert x.bufs == c'.bufs && x.groups == c'.groups && x.tasks == c'.tasks && x.tree == c'.tree;
    PlainStep(c, c', b, s, 0, 0, k, None, c.lru, c.modified, c.sync);
  }

  lemma PurgeListed(c: Cache, b: nat, k: nat)
    requires Inv(c) && b in c.tree && b < |c.bufs| && k !in c.tasks
    requires c.bufs[b].state == Sync || c.bufs[b].state == Modified || c.bufs[b].state == Cached
    ensures var o := PurgeOne(c, b); o.Next? && Inv(o.cache) && |o.cache.bufs| == |c.bufs|
    ensures var o := PurgeOne(c, b); forall j | j != b && j in c.tree :: j in o.cache.tree
  {
    hide Active, Slot, Formed, Inv, Distinct, SameBut, Without;
    BufferFacts(c, b);
    OffList(c.lru, b);
    OffList(c.modified, b);
    OffList(c.sync, b);
    var s := c.bufs[b].state;
    var l := if s == Cached then Without(c.lru, b) else c.lru;
    var m := if s == Modified then Without(c.modified, b) else c.modified;
    var y := if s == Sync then Without(c.sync, b) else c.sync;
    var du := 0 - UserCount(s);
    DiscardStep(c, b, du, k, None, l, m, y);
    var c1 := Discard(AddUsers(c, b, du).(lru := l, modified := m, sync := y), b);
    assert EndTask(c1, k) == c1;
    NoUsers(c, b);
    assert PurgeOne(c, b) == Next(c1);
  }

  lemma NoUsers(c: Cache, b: nat)
    ensures AddUsers(c, b, 0) == c
  {
    var g := GroupOf(c, b);
    if g < |c.groups| {
      assert c.groups[g := c.groups[g]] == c.groups;
    }
  }

  /** Purging a device is never fatal and keeps the invariant, buffer by buffer. */
  lemma {:induction false} PurgeStep(c: Cache, order: seq<nat>)
    requires Inv(c) && Distinct(order) && forall b | b in order :: b in c.tree
    ensures var o := Purge(c, order); o.Next? && Inv(o.cache)
    decreases |order|
  {
    hide Inv, PurgeOne, Distinct;
    if order != [] {
      TreeInRange(c, order[0]);
      PurgeOneStep(c, order[0]);
      DistinctTail(order);
      PurgeStep(PurgeOne(c, order[0]).cache, order[1..]);
    }
  }

  lemma TreeInRange(c: Cache, b: nat)
    requires Inv(c) && b in c.tree
    ensures b < |c.bufs|
  {
    hide Active, Slot;
  }

  /** Gathering for a write is never fatal and keeps the invariant, buffer by buffer. */
  lemma {:induction false} GatherStep(c: Cache, k: nat, picks: seq<nat>)
    requires Inv(c) && (k in c.tasks ==> c.tasks[k].Transferring?)
    requires Distinct(picks) && forall b | b in picks :: b in c.modified || b in c.sync
    ensures var o := Gather(c, k, picks); o.Next? && Inv(o.cache)
    decreases |picks|
  {
    hide Inv, GatherOne, Distinct;
    if picks != [] {
      GatherOneStep(c, k, picks[0]);
      DistinctTail(picks);
      GatherStep(GatherOne(c, k, picks[0]).cache, k, picks[1..]);
    }
  }
}
