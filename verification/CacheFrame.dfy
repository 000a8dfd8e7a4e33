/**
 A lock-held step of the cache touches one buffer and one task.  Whatever such a step does, the
 invariant survives if it adjusts the lists, counters and ownership of that buffer as stated here.
 */
module CacheFrame {
  import opened CacheState

  /** `c'` differs from `c` at most in buffer `i`, its group's user count, and task `k`. */
  ghost predicate Local(c: Cache, c': Cache, i: nat, k: nat) {
    && c'.maxBds == c.maxBds && c'.need == c.need && |c'.bufs| == |c.bufs| && |c'.groups| == |c.groups|
    && (forall j | 0 <= j < |c.bufs| && j != i :: c'.bufs[j] == c.bufs[j])
    && (forall g | 0 <= g < |c.groups| :: c'.groups[g].bdsPerGroup == c.groups[g].bdsPerGroup)
    && (forall g | 0 <= g < |c.groups| && g != GroupOf(c, i) :: c'.groups[g] == c.groups[g])
    && (forall j | j != i :: j in c'.tree <==> j in c.tree)
    && SameBut(c.lru, c'.lru, i) && SameBut(c.modified, c'.modified, i) && SameBut(c.sync, c'.sync, i)
    && (forall k' | k' != k :: k' in c'.tasks <==> k' in c.tasks)
    && (forall k' | k' != k && k' in c.tasks :: c'.tasks[k'] == c.tasks[k'])
  }

  ghost predicate SameBut(s: seq<nat>, s': seq<nat>, i: nat) {
    (Distinct(s) ==> Distinct(s')) && forall j | j != i :: j in s' <==> j in s
  }

  ghost function Waits(c: Cache, k: nat, i: nat): nat {
    if k in c.tasks && WaitsOn(c.tasks[k], i) then 1 else 0
  }

  ghost function Uses(c: Cache, i: nat): nat
    requires i < |c.bufs|
  {
    if GroupUser(c.bufs[i].state) then 1 else 0
  }

  /** Both counters of the buffer follow its state and the task. */
  ghost predicate CountsFollow(c: Cache, c': Cache, i: nat, k: nat)
    requires i < |c.bufs| && i < |c'.bufs|
  {
    && c'.bufs[i].waiters == c.bufs[i].waiters - Waits(c, k, i) + Waits(c', k, i)
    && (var g := GroupOf(c, i);
        g < |c.groups| && g < |c'.groups|
        && c'.groups[g].users == c.groups[g].users - Uses(c, i) - Waits(c, k, i) + Uses(c', i) + Waits(c', k, i))
    && (k in c.tasks && c.tasks[k].Waiting? ==> c.tasks[k].b == i)
    && (k in c'.tasks && c'.tasks[k].Waiting? ==> c'.tasks[k].b == i)
  }

  /** Ownership of the buffer changes with its state; the task keeps what else it owns. */
  ghost predicate OwnershipFollows(c: Cache, c': Cache, i: nat, k: nat)
    requires i < |c.bufs| && i < |c'.bufs|
  {
    var s, s' := c.bufs[i].state, c'.bufs[i].state;
    && (forall j: nat | j != i :: Has(c', k, j) <==> Has(c, k, j))
    && (|| (Has(c, k, i) == OwnedState(s) && Has(c', k, i) == OwnedState(s'))
        || (Has(c, k, i) == Has(c', k, i) && Accessed(s) == Accessed(s') && InTransfer(s) == InTransfer(s')))
    && (k in c'.tasks ==> && (forall j: nat | Owns(c'.tasks[k], j) && j < |c'.bufs| :: Suits(c'.tasks[k], c'.bufs[j].state))
                          && (c'.tasks[k].Transferring? ==> Distinct(c'.tasks[k].list)))
  }

  /** The key of a buffer changes only while nobody waits on it, and stays unique in the tree. */
  ghost predicate KeyFollows(c: Cache, c': Cache, i: nat, k: nat)
    requires i < |c.bufs| && i < |c'.bufs|
  {
    && (c'.bufs[i].key != c.bufs[i].key ==> c.bufs[i].waiters == 0)
    && (i in c'.tree ==>
          && Suited(c', i, c'.bufs[i].key)
          && forall j | j in c'.tree && j != i && j < |c'.bufs| :: c'.bufs[j].key != c'.bufs[i].key)
    && (k in c'.tasks && c'.tasks[k].Waiting? ==> c'.tasks[k].key == c'.bufs[i].key)
  }

  ghost predicate StepOk(c: Cache, c': Cache, i: nat, k: nat) {
    && Active(c, i) && i < |c'.bufs| && Local(c, c', i, k)
    && Row(c', i) && CountsFollow(c, c', i, k) && OwnershipFollows(c, c', i, k) && KeyFollows(c, c', i, k)
    && (c'.bufs[i].state == Empty ==> c'.bufs[i].waiters > 0)
    && (c'.bufs[i].waiters > 0 ==> c'.bufs[i].state != Free)
  }

  // ---- preservation, conjunct by conjunct ----

  lemma ActiveSame(c: Cache, c': Cache, i: nat, k: nat)
    requires Formed(c) && Local(c, c', i, k)
    ensures Formed(c') && forall j: nat :: Active(c', j) == Active(c, j) && GroupOf(c', j) == GroupOf(c, j)
  {
    hide Slot;
  }

  lemma ListsKept(c: Cache, c': Cache, i: nat, k: nat)
    requires Formed(c) && Lists(c) && i < |c.bufs| && Local(c, c', i, k) && Row(c', i)
    ensures Lists(c')
  {
    ActiveSame(c, c', i, k);
    hide Active;
    forall j | 0 <= j < |c'.bufs| ensures Row(c', j) {
      assert j != i ==> Row(c, j);
    }
  }

  lemma KeysKept(c: Cache, c': Cache, i: nat, k: nat)
    requires Formed(c) && Keys(c) && i < |c.bufs| && Local(c, c', i, k) && i < |c'.bufs| && KeyFollows(c, c', i, k)
    ensures Keys(c')
  {
    ActiveSame(c, c', i, k);
    hide Active;
  }

  lemma SetChange(a: set<nat>, b: set<nat>, x: nat)
    requires a - {x} == b - {x}
    ensures |b| == |a| - (if x in a then 1 else 0) + (if x in b then 1 else 0)
  {
    assert |a - {x}| == |a| - if x in a then 1 else 0;
    assert |b - {x}| == |b| - if x in b then 1 else 0;
  }

  lemma WaiterCountsKept(c: Cache, c': Cache, i: nat, k: nat)
    requires WaiterCounts(c) && i < |c.bufs| && Local(c, c', i, k) && i < |c'.bufs| && CountsFollow(c, c', i, k)
    ensures WaiterCounts(c')
  {
    hide GroupOf, GroupUser;
    forall j | 0 <= j < |c'.bufs| ensures c'.bufs[j].waiters == |WaiterSet(c', j)| {
      SetChange(WaiterSet(c, j), WaiterSet(c', j), k);
    }
  }

  lemma UserCountsKept(c: Cache, c': Cache, i: nat, k: nat)
    requires Formed(c) && UserCounts(c) && Active(c, i) && Local(c, c', i, k) && i < |c'.bufs| && CountsFollow(c, c', i, k)
    ensures UserCounts(c')
  {
    forall g: nat | g < |c'.groups| ensures c'.groups[g].users == |GroupUsers(c', g)| + |GroupWaiters(c', g)| {
      GroupUsersChange(c, c', i, k, g);
      GroupWaitersChange(c, c', i, k, g);
      hide GroupUsers, GroupWaiters, Active, GroupOf, Formed;
    }
  }

  lemma GroupUsersChange(c: Cache, c': Cache, i: nat, k: nat, g: nat)
    requires Formed(c) && Active(c, i) && Local(c, c', i, k) && i < |c'.bufs|
    ensures |GroupUsers(c', g)| == |GroupUsers(c, g)| + if g == GroupOf(c, i) then Uses(c', i) - Uses(c, i) else 0
  {
    ActiveSame(c, c', i, k);
    hide Active, GroupUser;
    SetChange(GroupUsers(c, g), GroupUsers(c', g), i);
  }

  lemma GroupWaitersChange(c: Cache, c': Cache, i: nat, k: nat, g: nat)
    requires Formed(c) && i < |c.bufs| && i < |c'.bufs| && Local(c, c', i, k) && CountsFollow(c, c', i, k)
    ensures |GroupWaiters(c', g)| == |GroupWaiters(c, g)| + if g == GroupOf(c, i) then Waits(c', k, i) - Waits(c, k, i) else 0
  {
    ActiveSame(c, c', i, k);
    hide Active;
    SetChange(GroupWaiters(c, g), GroupWaiters(c', g), k);
  }

  lemma AwaitedKept(c: Cache, c': Cache, i: nat, k: nat)
    requires Formed(c) && Awaited(c) && Active(c, i) && Local(c, c', i, k) && i < |c'.bufs|
    requires c'.bufs[i].state == Empty ==> c'.bufs[i].waiters > 0
    requires c'.bufs[i].waiters > 0 ==> c'.bufs[i].state != Free
    ensures Awaited(c')
  {
    ActiveSame(c, c', i, k);
    hide Active;
  }

  lemma SuitKept(c: Cache, c': Cache, i: nat, k: nat)
    requires Formed(c) && OwnersSuit(c) && OneOwner(c) && Active(c, i) && Local(c, c', i, k)
    requires i < |c'.bufs| && OwnershipFollows(c, c', i, k)
    ensures OwnersSuit(c')
  {
    ActiveSame(c, c', i, k);
    hide Active, GroupOf;
    forall k', j: nat | Has(c', k', j)
      ensures j < |c'.bufs| && Active(c', j) && Suits(c'.tasks[k'], c'.bufs[j].state)
    {
      if k' == k && j != i {
        assert Has(c, k, j);
      } else if k' != k {
        assert Has(c, k', j);
      }
    }
  }

  lemma OneOwnerKept(c: Cache, c': Cache, i: nat, k: nat)
    requires Formed(c) && OwnersSuit(c) && OneOwner(c) && Active(c, i) && Local(c, c', i, k)
    requires i < |c'.bufs| && OwnershipFollows(c, c', i, k)
    ensures OneOwner(c')
  {
    hide Active, GroupOf, Formed;
    forall k1, k2, j: nat | Has(c', k1, j) && Has(c', k2, j) ensures k1 == k2 {
      assert k1 != k ==> Has(c, k1, j);
      assert k2 != k ==> Has(c, k2, j);
    }
  }

  lemma AllOwnedKept(c: Cache, c': Cache, i: nat, k: nat)
    requires Formed(c) && AllOwned(c) && Active(c, i) && Local(c, c', i, k)
    requires i < |c'.bufs| && OwnershipFollows(c, c', i, k)
    ensures AllOwned(c')
  {
    ActiveSame(c, c', i, k);
    hide Active, GroupOf, Formed;
    forall j | 0 <= j < |c'.bufs| && Active(c', j) && OwnedState(c'.bufs[j].state) ensures Owned(c', j) {
      if j == i && Has(c', k, i) {
      } else {
        assert Owned(c, j);
        var k' :| Has(c, k', j);
        assert Has(c', k', j);
      }
    }
  }

  lemma OwnersKept(c: Cache, c': Cache, i: nat, k: nat)
    requires Formed(c) && Owners(c) && Active(c, i) && Local(c, c', i, k)
    requires i < |c'.bufs| && OwnershipFollows(c, c', i, k)
    ensures Owners(c')
  {
    hide Active, GroupOf, Formed, OwnersSuit, OneOwner, AllOwned;
    SuitKept(c, c', i, k);
    OneOwnerKept(c, c', i, k);
    AllOwnedKept(c, c', i, k);
  }

  lemma WaitKeysKept(c: Cache, c': Cache, i: nat, k: nat)
    requires WaiterCounts(c) && WaitKeys(c) && Active(c, i) && Local(c, c', i, k)
    requires i < |c'.bufs| && CountsFollow(c, c', i, k) && KeyFollows(c, c', i, k)
    ensures WaitKeys(c')
  {
    hide GroupOf, Suited;
    forall k' | k' in c'.tasks && c'.tasks[k'].Waiting?
      ensures c'.tasks[k'].b < |c'.bufs| && c'.tasks[k'].key == c'.bufs[c'.tasks[k'].b].key
    {
      if k' != k && c'.tasks[k'].b == i {
        assert k' in WaiterSet(c, i);
      }
    }
  }

  /** A step that follows the rules keeps the invariant. */
  lemma StepKeepsInv(c: Cache, c': Cache, i: nat, k: nat)
    requires Inv(c) && StepOk(c, c', i, k)
    ensures Inv(c')
  {
    assert i < |c.bufs|;
    hide Active, Local, Row, CountsFollow, OwnershipFollows, KeyFollows, Lists, Keys, WaiterCounts, UserCounts, Awaited, Owners, WaitKeys;
    ActiveSame(c, c', i, k);
    ListsKept(c, c', i, k);
    KeysKept(c, c', i, k);
    WaiterCountsKept(c, c', i, k);
    UserCountsKept(c, c', i, k);
    AwaitedKept(c, c', i, k);
    OwnersKept(c, c', i, k);
    WaitKeysKept(c, c', i, k);
  }
}
