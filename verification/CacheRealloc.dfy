/** Re-slicing an idle group keeps the invariant. */
module CacheRealloc {
  import opened Arithmetic
  import opened CacheState
  import opened CacheSteps
  import opened CacheSafety

  // ---- where the slots are ----

  lemma {:induction false} SlotsAt(first: nat, step: nat, n: nat, x: nat)
    ensures x in Slots(first, step, n) <==> exists j: nat :: j < n && x == first + j * step
  {
    if n > 0 {
      SlotsAt(first, step, n - 1, x);
      assert Slots(first, step, n) == [first + (n - 1) * step] + Slots(first, step, n - 1);
      if x == first + (n - 1) * step {
        var m: nat := n - 1;
        assert m < n && x == first + m * step;
      }
    }
  }

  lemma {:induction false} SlotsDistinct(first: nat, step: nat, n: nat)
    requires step > 0
    ensures Distinct(Slots(first, step, n))
  {
    if n > 0 {
      SlotsDistinct(first, step, n - 1);
      var x, r := first + (n - 1) * step, Slots(first, step, n - 1);
      SlotsAt(first, step, n - 1, x);
      forall j: nat | j < n - 1 ensures x != first + j * step {
        Scaled(j, n - 1, step);
      }
      DistinctCons(x, r);
    }
  }

  /** The slots of a group are the descriptors that its layout makes active. */
  lemma SlotAt(m: nat, n: nat, g: nat, x: nat)
    requires 1 <= n <= m
    ensures m / n > 0
    ensures x in Slots(g * m, m / n, n) <==> x / m == g && Slot(m, n, x % m)
  {
    StepFits(m, n);
    SlotsAt(g * m, m / n, n, x);
    if x in Slots(g * m, m / n, n) {
      var j: nat :| j < n && x == g * m + j * (m / n);
      ListedSlot(m, n, m / n, g, j);
    }
    if x / m == g && Slot(m, n, x % m) {
      var j := SlotIndex(m, n, m / n, x);
    }
  }

  lemma ListedSlot(m: nat, n: nat, step: nat, g: nat, j: nat)
    requires 0 < step && n * step <= m && j < n
    ensures var x := g * m + j * step; x / m == g && (x % m) % step == 0 && (x % m) / step == j
  {
    Scaled(j, n, step);
    DivMod(g, m, j * step);
    DivMod(j, step, 0);
  }

  lemma SlotIndex(m: nat, n: nat, step: nat, x: nat) returns (j: nat)
    requires m > 0 && step > 0 && (x % m) % step == 0 && (x % m) / step < n
    ensures j < n && x == (x / m) * m + j * step
  {
    j := (x % m) / step;
    assert x % m == j * step + (x % m) % step;
    assert x == (x / m) * m + x % m;
  }

  lemma StepFits(m: nat, n: nat)
    requires 1 <= n <= m
    ensures m / n > 0 && n * (m / n) <= m
  {
    var q, r := m / n, m % n;
    assert m == q * n + r && r < n;
    assert q * n == n * q;
    assert q == 0 ==> m == r;
  }

  // ---- the LRU list ----

  lemma {:induction false} OutsideOnly(c: Cache, list: seq<nat>, g: nat)
    requires Distinct(list)
    ensures Distinct(OutsideGroup(c, list, g))
    ensures forall x :: x in OutsideGroup(c, list, g) <==> x in list && GroupOf(c, x) != g
  {
    hide GroupOf, Distinct;
    if list == [] {
      assert OutsideGroup(c, list, g) == [];
      EmptyDistinct();
    } else {
      DistinctTail(list);
      OutsideOnly(c, list[1..], g);
      var r := OutsideGroup(c, list[1..], g);
      if GroupOf(c, list[0]) != g {
        DistinctCons(list[0], r);
      } else {
        assert [] + r == r;
      }
    }
  }

  lemma EmptyDistinct()
    ensures Distinct([])
  {
  }

  lemma Joined(a: seq<nat>, b: seq<nat>)
    requires Distinct(a) && Distinct(b) && forall x | x in a :: x !in b
    ensures Distinct(a + b) && forall x :: x in a + b <==> x in a || x in b
  {
    forall i, j | 0 <= i < j < |a + b| ensures (a + b)[i] != (a + b)[j] {
      assert i < |a| <= j ==> a[i] in a && b[j - |a|] in b;
    }
  }

  lemma NewLru(c: Cache, g: nat, n: nat)
    requires Formed(c) && 1 <= n <= c.maxBds && Distinct(c.lru)
    ensures var lru := Slots(g * c.maxBds, c.maxBds / n, n) + OutsideGroup(c, c.lru, g);
            && Distinct(lru)
            && forall x: nat :: x in lru <==> if GroupOf(c, x) == g then Slot(c.maxBds, n, x % c.maxBds) else x in c.lru
  {
    hide Slot, Distinct;
    var a, b := Slots(g * c.maxBds, c.maxBds / n, n), OutsideGroup(c, c.lru, g);
    OutsideOnly(c, c.lru, g);
    StepFits(c.maxBds, n);
    SlotsDistinct(g * c.maxBds, c.maxBds / n, n);
    forall x: nat ensures x in a <==> GroupOf(c, x) == g && Slot(c.maxBds, n, x % c.maxBds) {
      SlotAt(c.maxBds, n, g, x);
    }
    Joined(a, b);
  }

  // ---- an idle group ----

  /** No buffer of the group is used, waited for, empty, or owned. */
  ghost predicate Quiet(c: Cache, g: nat) {
    && (forall i | 0 <= i < |c.bufs| && GroupOf(c, i) == g ::
          c.bufs[i].waiters == 0 && (Active(c, i) ==> InLru(c.bufs[i].state)) && i !in c.modified && i !in c.sync)
    && (forall k | k in c.tasks && c.tasks[k].Waiting? :: GroupOf(c, c.tasks[k].b) != g)
    && (forall k, i: nat | Has(c, k, i) :: GroupOf(c, i) != g)
  }

  lemma NobodyWaits(c: Cache, g: nat)
    requires UserCounts(c) && WaiterCounts(c) && g < |c.groups| && c.groups[g].users == 0
    ensures GroupUsers(c, g) == {} && GroupWaiters(c, g) == {}
    ensures forall i | 0 <= i < |c.bufs| && GroupOf(c, i) == g :: c.bufs[i].waiters == 0
  {
    hide Active, GroupOf;
    assert GroupUsers(c, g) == {} && GroupWaiters(c, g) == {};
    forall i | 0 <= i < |c.bufs| && GroupOf(c, i) == g ensures c.bufs[i].waiters == 0 {
      assert WaiterSet(c, i) <= GroupWaiters(c, g);
    }
  }

  lemma IdleIsQuiet(c: Cache, g: nat)
    requires Inv(c) && g < |c.groups| && c.groups[g].users == 0
    ensures Quiet(c, g)
  {
    hide Active, Slot, GroupOf;
    NobodyWaits(c, g);
    forall i | 0 <= i < |c.bufs| && GroupOf(c, i) == g
      ensures (Active(c, i) ==> InLru(c.bufs[i].state)) && i !in c.modified && i !in c.sync
    {
      assert i !in GroupUsers(c, g);
      assert Row(c, i);
    }
    forall k | k in c.tasks && c.tasks[k].Waiting? ensures GroupOf(c, c.tasks[k].b) != g {
      assert k !in GroupWaiters(c, g);
    }
    forall k, i: nat | Has(c, k, i) ensures GroupOf(c, i) != g {
      OwnerFacts(c, k, i);
      assert i !in GroupUsers(c, g);
    }
  }

  lemma QuietIsIdle(c: Cache, g: nat)
    requires Inv(c) && Quiet(c, g)
    ensures GroupIdle(c, g)
  {
    hide Active, Slot, GroupOf;
    forall i | 0 <= i < |c.bufs| && GroupOf(c, i) == g && Active(c, i) ensures i in c.lru {
      assert Row(c, i);
    }
  }

  // ---- reallocation keeps the invariant, conjunct by conjunct ----

  lemma NewLayout(c: Cache, g: nat, n: nat)
    requires Formed(c) && g < |c.groups| && 1 <= n <= c.maxBds
    ensures var c' := Realloc(c, g, n);
            && Formed(c')
            && forall i: nat :: GroupOf(c', i) == GroupOf(c, i)
                    && Active(c', i) == if GroupOf(c, i) == g then i < |c.bufs| && Slot(c.maxBds, n, i % c.maxBds) else Active(c, i)
  {
    hide Slot;
  }

  lemma ReallocLists(c: Cache, g: nat, n: nat)
    requires Formed(c) && Lists(c) && Quiet(c, g) && g < |c.groups| && 1 <= n <= c.maxBds
    ensures Lists(Realloc(c, g, n))
  {
    var c' := Realloc(c, g, n);
    NewLayout(c, g, n);
    NewLru(c, g, n);
    forall i | i in c'.lru ensures i < |c'.bufs| {
      if GroupOf(c, i) == g {
        InGroup(c, g, i);
      }
    }
    hide Active, Slot, GroupOf, Slots, OutsideGroup, Distinct;
    forall i | 0 <= i < |c'.bufs| ensures Row(c', i) {
      assert Row(c, i);
    }
  }

  lemma InGroup(c: Cache, g: nat, i: nat)
    requires Formed(c) && g < |c.groups| && GroupOf(c, i) == g
    ensures i < |c.bufs|
  {
    assert i == g * c.maxBds + i % c.maxBds;
    Scaled(g, |c.groups|, c.maxBds);
  }

  lemma ReallocKeys(c: Cache, g: nat, n: nat)
    requires Formed(c) && Keys(c) && g < |c.groups| && 1 <= n <= c.maxBds
    ensures Keys(Realloc(c, g, n))
  {
    hide Active, Slot, Slots, OutsideGroup;
    var c' := Realloc(c, g, n);
    forall i | i in c'.tree && i < |c'.bufs| ensures Suited(c', i, c'.bufs[i].key) {
      assert Suited(c, i, c.bufs[i].key);
    }
  }

  lemma ReallocCounts(c: Cache, g: nat, n: nat)
    requires Formed(c) && WaiterCounts(c) && UserCounts(c) && g < |c.groups| && 1 <= n <= c.maxBds
    requires Quiet(c, g) && c.groups[g].users == 0
    ensures WaiterCounts(Realloc(c, g, n)) && UserCounts(Realloc(c, g, n))
  {
    var c' := Realloc(c, g, n);
    NewLayout(c, g, n);
    NobodyWaits(c, g);
    hide Active, Slot, Slots, OutsideGroup, GroupOf, Quiet;
    forall i ensures WaiterSet(c', i) == WaiterSet(c, i) {
    }
    forall h ensures GroupWaiters(c', h) == GroupWaiters(c, h) {
    }
    forall h: nat | h < |c.groups| ensures GroupUsers(c', h) == GroupUsers(c, h) {
      forall i: nat ensures i in GroupUsers(c', h) <==> i in GroupUsers(c, h) {
        assert h == g ==> i !in GroupUsers(c, h);
      }
    }
  }

  lemma ReallocAwaited(c: Cache, g: nat, n: nat)
    requires Formed(c) && Awaited(c) && Quiet(c, g) && g < |c.groups| && 1 <= n <= c.maxBds
    ensures Awaited(Realloc(c, g, n))
  {
    NewLayout(c, g, n);
    hide Active, Slot, Slots, OutsideGroup, GroupOf;
  }

  lemma ReallocOwners(c: Cache, g: nat, n: nat)
    requires Formed(c) && Owners(c) && Quiet(c, g) && g < |c.groups| && 1 <= n <= c.maxBds
    ensures Owners(Realloc(c, g, n))
  {
    var c' := Realloc(c, g, n);
    NewLayout(c, g, n);
    hide Active, Slot, Slots, OutsideGroup, GroupOf;
    forall k, i: nat ensures Has(c', k, i) == Has(c, k, i) {
    }
    forall i | 0 <= i < |c'.bufs| && Active(c', i) && OwnedState(c'.bufs[i].state) ensures Owned(c', i) {
      assert Owned(c, i);
      var k :| Has(c, k, i);
      assert Has(c', k, i);
    }
  }

  lemma ReallocWaitKeys(c: Cache, g: nat, n: nat)
    requires WaitKeys(c) && g < |c.groups| && 1 <= n <= c.maxBds
    ensures WaitKeys(Realloc(c, g, n))
  {
    hide Slot, Slots, OutsideGroup, GroupOf;
  }

  /** A group without users may be cut anew. */
  lemma ReallocStep(c: Cache, g: nat, n: nat)
    requires Inv(c) && g < |c.groups| && c.groups[g].users == 0 && 1 <= n <= c.maxBds
    ensures GroupIdle(c, g) && Inv(Realloc(c, g, n))
  {
    IdleIsQuiet(c, g);
    QuietIsIdle(c, g);
    hide Realloc, Quiet, Lists, Keys, WaiterCounts, UserCounts, Awaited, Owners, WaitKeys, Active, GroupIdle;
    NewLayout(c, g, n);
    ReallocLists(c, g, n);
    ReallocKeys(c, g, n);
    ReallocCounts(c, g, n);
    ReallocAwaited(c, g, n);
    ReallocOwners(c, g, n);
    ReallocWaitKeys(c, g, n);
  }
}
