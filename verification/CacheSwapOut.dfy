/**
 The swap-out that works on lists of what it looks at, and the step of the protocol that moves descriptors: one
 round takes the same buffers in both, and leaves the same lists.
 */
module CacheSwapOut {
  import opened Basics
  import opened BlockOrder
  import opened CacheState
  import opened CacheSteps
  import opened CacheSafety
  import opened CacheTransfers
  import opened CacheRun
  import opened CacheRequests
  import CacheOrder
  import S = SwapOut

  const ZERO: nat -> nat := _ => 0

  // ---- what the swap-out sees of a list ----

  /** Device, block and remaining hold time of a buffer. */
  function Seen(c: Cache, hold: nat -> nat, i: nat): S.Dirty {
    if i < |c.bufs| then S.Dirty(c.bufs[i].key.dd, c.bufs[i].key.block, hold(i)) else S.Dirty(0, 0, 0)
  }

  function View(c: Cache, hold: nat -> nat, list: seq<nat>): seq<S.Dirty> {
    if list == [] then [] else [Seen(c, hold, list[0])] + View(c, hold, list[1..])
  }

  lemma {:induction false} ViewAt(c: Cache, hold: nat -> nat, list: seq<nat>)
    ensures |View(c, hold, list)| == |list| && forall j | 0 <= j < |list| :: View(c, hold, list)[j] == Seen(c, hold, list[j])
  {
    hide Seen;
    if list != [] {
      ViewAt(c, hold, list[1..]);
    }
  }

  /** In a cache that is in order no two of the buffers that wait to be written have the same block. */
  lemma ViewsDistinct(c: Cache, hold: nat -> nat)
    requires Inv(c)
    ensures S.DistinctKeys(View(c, hold, c.sync) + View(c, hold, c.modified))
  {
    var all := c.sync + c.modified;
    ViewAt(c, hold, c.sync);
    ViewAt(c, hold, c.modified);
    var v := View(c, hold, c.sync) + View(c, hold, c.modified);
    forall i: nat, j: nat | i < j < |v| ensures v[i].dd != v[j].dd || v[i].block != v[j].block {
      WaitingApart(c, i, j);
      assert v[i] == Seen(c, hold, all[i]) && v[j] == Seen(c, hold, all[j]);
    }
  }

  lemma WaitingApart(c: Cache, i: nat, j: nat)
    requires Inv(c) && i < j < |c.sync + c.modified|
    ensures var all := c.sync + c.modified;
            all[i] < |c.bufs| && all[j] < |c.bufs| && c.bufs[all[i]].key != c.bufs[all[j]].key
  {
    hide Active, Slot;
    var all := c.sync + c.modified;
    WaitingInTree(c, i);
    WaitingInTree(c, j);
    assert all[i] != all[j];
  }

  lemma WaitingInTree(c: Cache, i: nat)
    requires Inv(c) && i < |c.sync + c.modified|
    ensures var b := (c.sync + c.modified)[i];
            b < |c.bufs| && b in c.tree && c.bufs[b].state == (if i < |c.sync| then Sync else Modified)
  {
    hide Active, Slot;
    var b := (c.sync + c.modified)[i];
    assert if i < |c.sync| then b in c.sync else b in c.modified;
    assert Row(c, b);
  }

  // ---- what one pass takes and leaves ----

  predicate Chosen(c: Cache, hold: nat -> nat, p: S.Pass, to: Option<nat>, i: nat) {
    p.Due(Seen(c, hold, i)) && to == Some(Seen(c, hold, i).dd)
  }

  function Picks(c: Cache, hold: nat -> nat, p: S.Pass, to: Option<nat>, list: seq<nat>): seq<nat> {
    if list == [] then []
    else (if Chosen(c, hold, p, to, list[0]) then [list[0]] else []) + Picks(c, hold, p, to, list[1..])
  }

  function Rest(c: Cache, hold: nat -> nat, p: S.Pass, to: Option<nat>, list: seq<nat>): seq<nat> {
    if list == [] then []
    else (if Chosen(c, hold, p, to, list[0]) then [] else [list[0]]) + Rest(c, hold, p, to, list[1..])
  }

  /** The hold times after a pass. */
  function Later(c: Cache, hold: nat -> nat, p: S.Pass): nat -> nat {
    (i: nat) => p.Age(Seen(c, hold, i)).hold
  }

  lemma SeenLater(c: Cache, hold: nat -> nat, p: S.Pass, to: Option<nat>, i: nat)
    requires i < |c.bufs|
    ensures p.Age(Seen(c, hold, i)) == Seen(c, Later(c, hold, p), i)
    ensures Chosen(c, hold, p, to, i) ==> p.Age(Seen(c, hold, i)) == Seen(c, ZERO, i)
  {
  }

  lemma {:induction false} PassSeen(c: Cache, hold: nat -> nat, p: S.Pass, to: Option<nat>, list: seq<nat>)
    requires forall i | i in list :: i < |c.bufs|
    ensures p.Taken(View(c, hold, list), to) == View(c, ZERO, Picks(c, hold, p, to, list))
    ensures p.Left(View(c, hold, list), to) == View(c, Later(c, hold, p), Rest(c, hold, p, to, list))
  {
    hide Seen, S.Pass.Age, S.Pass.Due, Later;
    if list != [] {
      assert list[0] in list && forall i | i in list[1..] :: i in list;
      PassSeen(c, hold, p, to, list[1..]);
      SeenLater(c, hold, p, to, list[0]);
      ViewMore(c, ZERO, list[0], Picks(c, hold, p, to, list[1..]));
      ViewMore(c, Later(c, hold, p), list[0], Rest(c, hold, p, to, list[1..]));
      FirstOfView(c, hold, list);
    }
  }

  lemma FirstOfView(c: Cache, hold: nat -> nat, list: seq<nat>)
    requires list != []
    ensures View(c, hold, list) != [] && View(c, hold, list)[0] == Seen(c, hold, list[0]) && View(c, hold, list)[1..] == View(c, hold, list[1..])
  {
  }

  lemma ViewMore(c: Cache, hold: nat -> nat, i: nat, list: seq<nat>)
    ensures View(c, hold, [i] + list) == [Seen(c, hold, i)] + View(c, hold, list)
    ensures View(c, hold, [] + list) == [] + View(c, hold, list)
  {
    hide Seen;
    assert ([i] + list)[1..] == list && [] + list == list;
  }

  lemma {:induction false} PickedExactly(c: Cache, hold: nat -> nat, p: S.Pass, to: Option<nat>, list: seq<nat>)
    requires Distinct(list)
    ensures Distinct(Picks(c, hold, p, to, list)) && forall i :: i in Picks(c, hold, p, to, list) <==> i in list && Chosen(c, hold, p, to, i)
  {
    hide Chosen, Distinct;
    if list == [] {
      NoneDistinct();
    } else {
      DistinctTail(list);
      PickedExactly(c, hold, p, to, list[1..]);
      var r := Picks(c, hold, p, to, list[1..]);
      assert [] + r == r;
      if Chosen(c, hold, p, to, list[0]) {
        DistinctCons(list[0], r);
      }
    }
  }

  lemma NoneDistinct()
    ensures Distinct([])
  {
  }

  // ---- the transfer list ----

  function PlaceAll(block: nat -> int, list: seq<nat>, picks: seq<nat>): seq<nat>
    decreases |picks|
  {
    if picks == [] then list else PlaceAll(block, Place(block, list, picks[0]), picks[1..])
  }

  lemma {:induction false} PlaceSeen(c: Cache, list: seq<nat>, b: nat)
    requires b < |c.bufs| && forall i | i in list :: i < |c.bufs|
    ensures View(c, ZERO, Place(BlockOf(c), list, b)) == Place(S.Block, View(c, ZERO, list), Seen(c, ZERO, b))
    decreases |list|
  {
    ViewAt(c, ZERO, list);
    var v := View(c, ZERO, list);
    if list == [] {
      ViewMore(c, ZERO, b, []);
    } else {
      var last, front := list[|list| - 1], list[..|list| - 1];
      assert list == front + [last] && last in list && forall i | i in front :: i in list;
      ViewJoin(c, ZERO, front, last);
      ViewJoin(c, ZERO, list, b);
      ViewJoin(c, ZERO, Place(BlockOf(c), front, b), last);
      assert v == View(c, ZERO, front) + [Seen(c, ZERO, last)];
      assert v[|v| - 1] == Seen(c, ZERO, last) && v[..|v| - 1] == View(c, ZERO, front);
      PlaceSeen(c, front, b);
    }
  }

  lemma {:induction false} ViewJoin(c: Cache, hold: nat -> nat, list: seq<nat>, i: nat)
    ensures View(c, hold, list + [i]) == View(c, hold, list) + [Seen(c, hold, i)]
  {
    hide Seen;
    if list == [] {
      assert [] + [i] == [i] && View(c, hold, [i]) == [Seen(c, hold, i)] + View(c, hold, []);
    } else {
      ViewJoin(c, hold, list[1..], i);
      assert (list + [i])[1..] == list[1..] + [i] && (list + [i])[0] == list[0];
    }
  }

  lemma {:induction false} PlaceAllSeen(c: Cache, list: seq<nat>, picks: seq<nat>)
    requires (forall i | i in list :: i < |c.bufs|) && forall i | i in picks :: i < |c.bufs|
    ensures View(c, ZERO, PlaceAll(BlockOf(c), list, picks)) == S.PlaceAll(View(c, ZERO, list), View(c, ZERO, picks))
    decreases |picks|
  {
    hide Seen, Place;
    if picks != [] {
      var b := picks[0];
      assert b in picks && forall i | i in picks[1..] :: i in picks;
      PlaceAdds(BlockOf(c), list, b);
      PlaceSeen(c, list, b);
      FirstOfView(c, ZERO, picks);
      PlaceAllSeen(c, Place(BlockOf(c), list, b), picks[1..]);
    }
  }

  lemma {:induction false} PlaceAllJoin(t: seq<S.Dirty>, a: seq<S.Dirty>, b: seq<S.Dirty>)
    ensures S.PlaceAll(t, a + b) == S.PlaceAll(S.PlaceAll(t, a), b)
    decreases |a|
  {
    hide Place;
    if a == [] {
      assert [] + b == b;
    } else {
      assert (a + b)[1..] == a[1..] + b;
      PlaceAllJoin(Place(S.Block, t, a[0]), a[1..], b);
    }
  }

  lemma {:induction false} ViewOfBoth(c: Cache, hold: nat -> nat, a: seq<nat>, b: seq<nat>)
    ensures View(c, hold, a + b) == View(c, hold, a) + View(c, hold, b)
  {
    hide Seen;
    if a == [] {
      assert [] + b == b;
    } else {
      ViewOfBoth(c, hold, a[1..], b);
      assert (a + b)[1..] == a[1..] + b && (a + b)[0] == a[0];
    }
  }

  lemma {:induction false} ViewSame(c: Cache, c': Cache, hold: nat -> nat, list: seq<nat>)
    requires |c'.bufs| == |c.bufs| && forall i | 0 <= i < |c.bufs| :: c'.bufs[i].key == c.bufs[i].key
    ensures View(c', hold, list) == View(c, hold, list)
  {
    if list != [] {
      ViewSame(c, c', hold, list[1..]);
    }
  }

  // ---- the step of the protocol ----

  lemma {:induction false} PlaceSame(f: nat -> int, g: nat -> int, list: seq<nat>, x: nat)
    requires forall i :: f(i) == g(i)
    ensures Place(f, list, x) == Place(g, list, x)
    decreases |list|
  {
    if list != [] {
      PlaceSame(f, g, list[..|list| - 1], x);
    }
  }

  lemma {:induction false} PlaceAllSame(f: nat -> int, g: nat -> int, list: seq<nat>, picks: seq<nat>)
    requires forall i :: f(i) == g(i)
    ensures PlaceAll(f, list, picks) == PlaceAll(g, list, picks)
    decreases |picks|
  {
    if picks != [] {
      PlaceSame(f, g, list, picks[0]);
      PlaceAllSame(f, g, Place(f, list, picks[0]), picks[1..]);
    }
  }

  /** A list without some descriptors, taken off one after the other. */
  function Minus(list: seq<nat>, picks: seq<nat>): seq<nat>
    decreases |picks|
  {
    if picks == [] then list else Minus(Without(list, picks[0]), picks[1..])
  }

  lemma GatherOneLists(c: Cache, k: nat, b: nat)
    requires Inv(c) && (b in c.modified || b in c.sync) && GatherOne(c, k, b).Next?
    ensures var c' := GatherOne(c, k, b).cache;
            && c'.sync == Without(c.sync, b) && c'.modified == Without(c.modified, b)
            && ListOf(c', k) == Place(BlockOf(c), ListOf(c, k), b)
            && forall i :: BlockOf(c')(i) == BlockOf(c)(i)
  {
    Listed(c, b);
    BufferFacts(c, b);
    hide Inv, Active, Slot, Place, GroupOf, Distinct;
    if c.bufs[b].state == Modified {
      CacheOrder.WithoutAbsent(c.sync, b);
    } else {
      CacheOrder.WithoutAbsent(c.modified, b);
    }
  }

  lemma {:induction false} GatherLists(c: Cache, k: nat, picks: seq<nat>)
    requires Inv(c) && (k in c.tasks ==> c.tasks[k].Transferring?)
    requires Distinct(picks) && forall b | b in picks :: b in c.modified || b in c.sync
    ensures Gather(c, k, picks).Next?
    ensures var c' := Gather(c, k, picks).cache;
            && c'.sync == Minus(c.sync, picks) && c'.modified == Minus(c.modified, picks)
            && ListOf(c', k) == PlaceAll(BlockOf(c), ListOf(c, k), picks)
    decreases |picks|
  {
    hide Inv, GatherOne, Place, Distinct, Without;
    if picks != [] {
      var b := picks[0];
      DistinctTail(picks);
      GatherOneStep(c, k, b);
      GatherOneLists(c, k, b);
      var c1 := GatherOne(c, k, b).cache;
      GatherLists(c1, k, picks[1..]);
      PlaceAllSame(BlockOf(c), BlockOf(c1), ListOf(c1, k), picks[1..]);
    }
  }

  // ---- what is left ----

  /** A list without some descriptors, at once. */
  function Keep(list: seq<nat>, picks: seq<nat>): seq<nat> {
    if list == [] then [] else (if list[0] in picks then [] else [list[0]]) + Keep(list[1..], picks)
  }

  lemma {:induction false} KeepWithout(list: seq<nat>, b: nat, picks: seq<nat>)
    requires Distinct(list)
    ensures Keep(list, [b] + picks) == Keep(Without(list, b), picks)
  {
    if list != [] {
      DistinctTail(list);
      var rest := list[1..];
      if list[0] == b {
        KeepOthers(rest, b, picks);
        assert [] + Keep(rest, picks) == Keep(rest, picks);
      } else {
        KeepWithout(rest, b, picks);
        assert ([list[0]] + Without(rest, b))[1..] == Without(rest, b);
      }
    }
  }

  lemma {:induction false} KeepOthers(list: seq<nat>, b: nat, picks: seq<nat>)
    requires b !in list
    ensures Keep(list, [b] + picks) == Keep(list, picks)
  {
    if list != [] {
      assert list[0] in list && b !in list[1..];
      KeepOthers(list[1..], b, picks);
    }
  }

  lemma {:induction false} KeepAll(list: seq<nat>)
    ensures Keep(list, []) == list
  {
    if list != [] {
      KeepAll(list[1..]);
      assert [list[0]] + list[1..] == list;
    }
  }

  lemma {:induction false} MinusIsKeep(list: seq<nat>, picks: seq<nat>)
    requires Distinct(list)
    ensures Minus(list, picks) == Keep(list, picks)
    decreases |picks|
  {
    hide Keep, Without, Distinct;
    if picks == [] {
      KeepAll(list);
    } else {
      WithoutList(list, picks[0]);
      MinusIsKeep(Without(list, picks[0]), picks[1..]);
      KeepWithout(list, picks[0], picks[1..]);
      assert [picks[0]] + picks[1..] == picks;
    }
  }

  lemma {:induction false} KeepIsRest(c: Cache, hold: nat -> nat, p: S.Pass, to: Option<nat>, list: seq<nat>, picks: seq<nat>)
    requires forall i | i in list :: i in picks <==> Chosen(c, hold, p, to, i)
    ensures Keep(list, picks) == Rest(c, hold, p, to, list)
  {
    hide Chosen;
    if list != [] {
      assert list[0] in list && forall i | i in list[1..] :: i in list;
      KeepIsRest(c, hold, p, to, list[1..], picks);
    }
  }

  // ---- one round ----

  /** What a round picks: first from the sync list, then from the modified list. */
  function RoundPicks(c: Cache, hold: nat -> nat, first: S.Pass, second: S.Pass): seq<nat> {
    Picks(c, hold, first, first.Device(View(c, hold, c.sync)), c.sync)
    + Picks(c, hold, second, second.Device(View(c, hold, c.modified)), c.modified)
  }

  /** The sync and the modified list are apart, and so are the picks. */
  lemma ListsApart(c: Cache)
    requires Inv(c)
    ensures Distinct(c.sync) && Distinct(c.modified) && forall i | i in c.sync :: i !in c.modified
    ensures forall i | i in c.sync || i in c.modified :: i < |c.bufs|
  {
    hide Active, Slot;
    forall i | i in c.sync ensures i !in c.modified {
      assert Row(c, i);
    }
  }

  lemma BothDistinct(a: seq<nat>, b: seq<nat>)
    requires Distinct(a) && Distinct(b) && forall x | x in a :: x !in b
    ensures Distinct(a + b)
  {
    forall i, j | 0 <= i < j < |a + b| ensures (a + b)[i] != (a + b)[j] {
      assert i < |a| <= j ==> a[i] in a && b[j - |a|] in b;
    }
  }

  lemma PicksFit(c: Cache, hold: nat -> nat, first: S.Pass, second: S.Pass)
    requires Inv(c)
    ensures var picks := RoundPicks(c, hold, first, second);
            && Distinct(picks) && (forall b | b in picks :: b in c.modified || b in c.sync)
            && (forall i | i in c.sync :: i in picks <==> Chosen(c, hold, first, first.Device(View(c, hold, c.sync)), i))
            && (forall i | i in c.modified :: i in picks <==> Chosen(c, hold, second, second.Device(View(c, hold, c.modified)), i))
  {
    hide Inv, Distinct, Chosen, Picks, View, S.Pass.Device;
    ListsApart(c);
    var to, dev := first.Device(View(c, hold, c.sync)), second.Device(View(c, hold, c.modified));
    PickedExactly(c, hold, first, to, c.sync);
    PickedExactly(c, hold, second, dev, c.modified);
    BothDistinct(Picks(c, hold, first, to, c.sync), Picks(c, hold, second, dev, c.modified));
  }

  lemma AscendsSeen(c: Cache, list: seq<nat>)
    requires Ascending(S.Block, View(c, ZERO, list)) && forall i | i in list :: i < |c.bufs|
    ensures Ascending(BlockOf(c), list)
  {
    ViewAt(c, ZERO, list);
    var v := View(c, ZERO, list);
    forall i, j | 0 <= i < j < |list| ensures BlockOf(c)(list[i]) < BlockOf(c)(list[j]) {
      assert list[i] in list && list[j] in list;
      assert S.Block(v[i]) < S.Block(v[j]);
    }
  }

  /**
   A round of the swap-out is a step of the protocol: it can be taken, the transfer list of the step is the one that
   the round puts together, in strictly ascending block order, and the sync and modified lists are what the round
   leaves of them.
   */
  lemma RoundIsStep(c: Cache, k: nat, hold: nat -> nat, first: S.Pass, second: S.Pass)
    requires Inv(c) && k !in c.tasks && first.sync && second.dev == first.Device(View(c, hold, c.sync))
    ensures var s, m, e := View(c, hold, c.sync), View(c, hold, c.modified), SwapOut(k, RoundPicks(c, hold, first, second));
            var to, dev := first.Device(s), second.Device(m);
            && Enabled(c, e) && Step(c, e).Next?
            && var c' := Step(c, e).cache;
               && View(c', ZERO, ListOf(c', k)) == S.PlaceAll(S.PlaceAll([], first.Taken(s, to)), second.Taken(m, dev))
               && Ascending(BlockOf(c'), ListOf(c', k))
               && View(c', Later(c, hold, first), c'.sync) == first.Left(s, to)
               && View(c', Later(c, hold, second), c'.modified) == second.Left(m, dev)
  {
    hide Inv, Gather, Picks, Chosen, View, PlaceAll, S.PlaceAll, S.Pass.Device, S.Pass.Taken, S.Pass.Left, Ascending, Distinct, Minus, Keep, Rest, Later, BlockOf;
    var s, m := View(c, hold, c.sync), View(c, hold, c.modified);
    var to, dev := first.Device(s), second.Device(m);
    var picks := RoundPicks(c, hold, first, second);
    ListsApart(c);
    PicksFit(c, hold, first, second);
    GatherLists(c, k, picks);
    GatherQuietly(c, k, picks);
    var c' := Gather(c, k, picks).cache;
    MinusIsKeep(c.sync, picks);
    MinusIsKeep(c.modified, picks);
    KeepIsRest(c, hold, first, to, c.sync, picks);
    KeepIsRest(c, hold, second, dev, c.modified, picks);
    PassSeen(c, hold, first, to, c.sync);
    PassSeen(c, hold, second, dev, c.modified);
    ViewSame(c, c', Later(c, hold, first), c'.sync);
    ViewSame(c, c', Later(c, hold, second), c'.modified);
    ViewSame(c, c', ZERO, ListOf(c', k));
    RoundTransfer(c, hold, first, second);
    RoundAscends(c, c', k, hold, first, second);
  }

  /** The transfer list of a round, seen as the swap-out sees it. */
  lemma RoundTransfer(c: Cache, hold: nat -> nat, first: S.Pass, second: S.Pass)
    requires Inv(c)
    ensures var s, m := View(c, hold, c.sync), View(c, hold, c.modified);
            View(c, ZERO, PlaceAll(BlockOf(c), [], RoundPicks(c, hold, first, second)))
            == S.PlaceAll(S.PlaceAll([], first.Taken(s, first.Device(s))), second.Taken(m, second.Device(m)))
  {
    hide Inv, Picks, Chosen, PlaceAll, S.PlaceAll, S.Pass.Device, S.Pass.Taken, S.Pass.Left, Seen, Later, Distinct;
    var s, m := View(c, hold, c.sync), View(c, hold, c.modified);
    var a, b := Picks(c, hold, first, first.Device(s), c.sync), Picks(c, hold, second, second.Device(m), c.modified);
    ListsApart(c);
    PicksFit(c, hold, first, second);
    PassSeen(c, hold, first, first.Device(s), c.sync);
    PassSeen(c, hold, second, second.Device(m), c.modified);
    PlaceAllSeen(c, [], a + b);
    ViewOfBoth(c, ZERO, a, b);
    PlaceAllJoin([], View(c, ZERO, a), View(c, ZERO, b));
  }

  lemma RoundAscends(c: Cache, c': Cache, k: nat, hold: nat -> nat, first: S.Pass, second: S.Pass)
    requires Inv(c) && first.sync && second.dev == first.Device(View(c, hold, c.sync))
    requires |c'.bufs| == |c.bufs| && forall i | 0 <= i < |c.bufs| :: c'.bufs[i].key == c.bufs[i].key
    requires ListOf(c', k) == PlaceAll(BlockOf(c), [], RoundPicks(c, hold, first, second))
    ensures Ascending(BlockOf(c'), ListOf(c', k))
  {
    hide Inv, Picks, Chosen, PlaceAll, S.PlaceAll, S.Pass.Device, S.Pass.Taken, S.Pass.Left, Seen, Ascending, Distinct, BlockOf;
    var s, m := View(c, hold, c.sync), View(c, hold, c.modified);
    ListsApart(c);
    PicksFit(c, hold, first, second);
    ViewsDistinct(c, hold);
    S.RoundInOrder(first, second, s, m);
    RoundTransfer(c, hold, first, second);
    PlacedMembers(BlockOf(c), [], RoundPicks(c, hold, first, second));
    ViewSame(c, c', ZERO, ListOf(c', k));
    AscendsSeen(c', ListOf(c', k));
  }

  lemma {:induction false} PlacedMembers(block: nat -> int, list: seq<nat>, picks: seq<nat>)
    ensures forall i :: i in PlaceAll(block, list, picks) <==> i in list || i in picks
    decreases |picks|
  {
    hide Place;
    if picks != [] {
      PlaceAdds(block, list, picks[0]);
      PlacedMembers(block, Place(block, list, picks[0]), picks[1..]);
      assert picks == [picks[0]] + picks[1..];
    }
  }
}
