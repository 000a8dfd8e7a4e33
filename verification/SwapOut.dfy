/**
 The swap-out: it picks the modified buffers of one device that are due, puts them into block order, and
 hands them to the driver in requests of limited size.
 */
module SwapOut {
  import opened Basics
  import opened BlockOrder

  /** What the swap-out looks at: device, block, and the time the buffer is still to be held. */
  datatype Dirty = Dirty(dd: nat, block: nat, hold: nat)

  /** How a pass over a list ages the buffers. `dev` is the device at the start of the pass. */
  datatype Pass = Pass(dev: Option<nat>, sync: bool, waiters: bool, update: bool, delta: nat) {
    predicate Forced(d: Dirty) {
      waiters || (sync && (dev.None? || dev == Some(d.dd)))
    }

    function Age(d: Dirty): Dirty {
      if Forced(d) then d.(hold := 0)
      else if update then d.(hold := if d.hold > delta then d.hold - delta else 0)
      else d
    }

    predicate Due(d: Dirty) {
      Age(d).hold == 0
    }

    /** The device that is written: the given one, or that of the first buffer that is due. */
    function Device(list: seq<Dirty>): Option<nat> {
      if dev.Some? then dev
      else if list == [] then None
      else if Due(list[0]) then Some(list[0].dd)
      else Device(list[1..])
    }

    /** The buffers to write to device `to`, in the order of the list. */
    function Taken(list: seq<Dirty>, to: Option<nat>): seq<Dirty> {
      if list == [] then []
      else (if Due(list[0]) && to == Some(list[0].dd) then [Age(list[0])] else []) + Taken(list[1..], to)
    }

    /** The buffers that stay, aged, in their order. */
    function Left(list: seq<Dirty>, to: Option<nat>): seq<Dirty> {
      if list == [] then []
      else (if Due(list[0]) && to == Some(list[0].dd) then [] else [Age(list[0])]) + Left(list[1..], to)
    }
  }

  function Block(d: Dirty): int { d.block }

  function PlaceAll(transfer: seq<Dirty>, taken: seq<Dirty>): seq<Dirty>
    decreases |taken|
  {
    if taken == [] then transfer else PlaceAll(Place(Block, transfer, taken[0]), taken[1..])
  }

  // ---- what a pass picks ----

  lemma AgeKeeps(p: Pass, d: Dirty)
    ensures p.Age(d).dd == d.dd && p.Age(d).block == d.block && (p.Due(d) <==> p.Age(d).hold == 0)
  {
  }

  lemma Headed(a: Dirty, r: seq<Dirty>)
    ensures multiset([a] + r) == multiset{a} + multiset(r) && multiset([] + r) == multiset(r)
    ensures forall d :: d in [a] + r <==> d == a || d in r
  {
    assert [] + r == r;
  }

  lemma {:induction false} TakenAll(p: Pass, list: seq<Dirty>, to: Option<nat>)
    ensures multiset(p.Taken(list, to)) + multiset(p.Left(list, to)) == multiset(Aged(p, list))
  {
    hide Pass.Age, Pass.Due;
    if list != [] {
      var a, t, l, r := p.Age(list[0]), p.Taken(list[1..], to), p.Left(list[1..], to), Aged(p, list[1..]);
      TakenAll(p, list[1..], to);
      TakenOne(p, list, to);
      Headed(a, l);
      Headed(a, t);
      Headed(a, r);
    }
  }

  lemma {:induction false} TakenDue(p: Pass, list: seq<Dirty>, to: Option<nat>)
    ensures forall d | d in p.Taken(list, to) :: d.hold == 0 && to == Some(d.dd)
    ensures forall d | d in p.Left(list, to) :: d.hold > 0 || to != Some(d.dd)
  {
    hide Pass.Age, Pass.Due;
    if list != [] {
      TakenDue(p, list[1..], to);
      AgeKeeps(p, list[0]);
      Headed(p.Age(list[0]), p.Left(list[1..], to));
      Headed(p.Age(list[0]), p.Taken(list[1..], to));
    }
  }

  /** A buffer is taken if and only if it is due and on the device; the others stay. */
  lemma TakenExactly(p: Pass, list: seq<Dirty>, to: Option<nat>)
    ensures multiset(p.Taken(list, to)) + multiset(p.Left(list, to)) == multiset(Aged(p, list))
    ensures forall d | d in p.Taken(list, to) :: d.hold == 0 && to == Some(d.dd)
    ensures forall d | d in p.Left(list, to) :: d.hold > 0 || to != Some(d.dd)
  {
    TakenAll(p, list, to);
    TakenDue(p, list, to);
  }

  lemma TakenOne(p: Pass, list: seq<Dirty>, to: Option<nat>)
    requires list != []
    ensures var a := p.Age(list[0]); var taken := p.Due(list[0]) && to == Some(list[0].dd);
            && p.Taken(list, to) == (if taken then [a] else []) + p.Taken(list[1..], to)
            && p.Left(list, to) == (if taken then [] else [a]) + p.Left(list[1..], to)
            && Aged(p, list) == [a] + Aged(p, list[1..])
  {
    hide Pass.Age, Pass.Due;
  }

  function Aged(p: Pass, list: seq<Dirty>): seq<Dirty> {
    if list == [] then [] else [p.Age(list[0])] + Aged(p, list[1..])
  }

  /** Without a device at the end of a pass, nothing in the list was due. */
  lemma {:induction false} NoDevice(p: Pass, list: seq<Dirty>)
    ensures p.Device(list).None? ==> p.dev.None? && forall d | d in list :: !p.Due(d)
    ensures p.Device(list).Some? && p.dev.None? ==> p.Taken(list, p.Device(list)) != []
  {
    if list != [] && p.dev.None? && !p.Due(list[0]) {
      NoDevice(p, list[1..]);
    }
  }

  // ---- what becomes of the transfer list ----

  ghost predicate Fresh(transfer: seq<Dirty>, taken: seq<Dirty>) {
    && (forall i, j | 0 <= i < j < |taken| :: taken[i].block != taken[j].block)
    && (forall d, e | d in transfer && e in taken :: d.block != e.block)
  }

  lemma {:induction false} PlacedAll(transfer: seq<Dirty>, taken: seq<Dirty>)
    ensures multiset(PlaceAll(transfer, taken)) == multiset(transfer) + multiset(taken)
    decreases |taken|
  {
    if taken != [] {
      PlaceAdds(Block, transfer, taken[0]);
      PlacedAll(Place(Block, transfer, taken[0]), taken[1..]);
      assert taken == [taken[0]] + taken[1..];
    }
  }

  lemma {:induction false} PlacedInOrder(transfer: seq<Dirty>, taken: seq<Dirty>)
    requires Ascending(Block, transfer) && Fresh(transfer, taken)
    ensures Ascending(Block, PlaceAll(transfer, taken))
    decreases |taken|
  {
    if taken != [] {
      assert taken[0] in taken;
      PlaceAscends(Block, transfer, taken[0]);
      PlaceAdds(Block, transfer, taken[0]);
      var t, r := Place(Block, transfer, taken[0]), taken[1..];
      forall d, e | d in t && e in r ensures d.block != e.block {
        if d == taken[0] {
          var j :| 0 <= j < |r| && r[j] == e;
          assert taken[j + 1] == e;
        } else {
          assert e in taken;
        }
      }
      PlacedInOrder(t, r);
    }
  }

  lemma PlaceFirst(transfer: seq<Dirty>, a: Dirty, r: seq<Dirty>)
    ensures PlaceAll(transfer, [a] + r) == PlaceAll(Place(Block, transfer, a), r) && [] + r == r
  {
    assert ([a] + r)[1..] == r;
  }

  lemma DeviceStart(p: Pass, list: seq<Dirty>)
    ensures p.dev.Some? ==> p.Device(list) == p.dev
  {
  }

  lemma DeviceStep(p: Pass, list: seq<Dirty>)
    requires list != []
    ensures p.Device(list) == if p.dev.Some? then p.dev else if p.Due(list[0]) then Some(list[0].dd) else p.Device(list[1..])
  {
  }

  /** One more buffer is looked at. */
  lemma PassStep(p: Pass, list: seq<Dirty>, to: Option<nat>, transfer: seq<Dirty>)
    requires list != []
    ensures var a := p.Age(list[0]); var taken := a.hold == 0 && to == Some(a.dd);
            && p.Left(list, to) == (if taken then [] else [a]) + p.Left(list[1..], to)
            && PlaceAll(transfer, p.Taken(list, to)) == PlaceAll(if taken then Place(Block, transfer, a) else transfer, p.Taken(list[1..], to))
  {
    AgeKeeps(p, list[0]);
    hide Pass.Age, Place;
    PlaceFirst(transfer, p.Age(list[0]), p.Taken(list[1..], to));
  }

  lemma PassEnd(p: Pass, list: seq<Dirty>, to: Option<nat>, transfer: seq<Dirty>)
    requires list == []
    ensures p.Left(list, to) == [] && PlaceAll(transfer, p.Taken(list, to)) == transfer
    ensures p.Device(list) == p.dev
  {
  }

  lemma Assoc(a: seq<Dirty>, b: seq<Dirty>, c: seq<Dirty>)
    ensures (a + b) + c == a + (b + c)
  {
  }

  // ---- one round ----

  ghost predicate DistinctKeys(list: seq<Dirty>) {
    forall i, j | 0 <= i < j < |list| :: list[i].dd != list[j].dd || list[i].block != list[j].block
  }

  ghost predicate Known(list: seq<Dirty>, dd: nat, block: nat) {
    exists i :: 0 <= i < |list| && list[i].dd == dd && list[i].block == block
  }

  lemma {:induction false} TakenKnown(p: Pass, list: seq<Dirty>, to: Option<nat>)
    ensures forall d | d in p.Taken(list, to) :: Known(list, d.dd, d.block)
    ensures |p.Taken(list, to)| + |p.Left(list, to)| == |list|
  {
    hide Pass.Age, Pass.Due;
    if list != [] {
      TakenKnown(p, list[1..], to);
      AgeKeeps(p, list[0]);
      Headed(p.Age(list[0]), p.Taken(list[1..], to));
      forall d | d in p.Taken(list, to) ensures Known(list, d.dd, d.block) {
        if d in p.Taken(list[1..], to) {
          var i :| 0 <= i < |list[1..]| && list[1..][i].dd == d.dd && list[1..][i].block == d.block;
          assert list[i + 1].dd == d.dd;
        } else {
          assert list[0].dd == d.dd && list[0].block == d.block;
        }
      }
    }
  }

  lemma {:induction false} TakenFresh(p: Pass, list: seq<Dirty>, to: Option<nat>)
    requires DistinctKeys(list)
    ensures Fresh([], p.Taken(list, to))
  {
    hide Pass.Age, Pass.Due;
    if list != [] {
      TakenFresh(p, list[1..], to);
      TakenKnown(p, list[1..], to);
      AgeKeeps(p, list[0]);
      var a, r := p.Age(list[0]), p.Taken(list[1..], to);
      TakenExactly(p, list[1..], to);
      if p.Due(list[0]) && to == Some(a.dd) {
        forall j | 0 <= j < |r| ensures r[j].block != a.block {
          assert r[j] in r;
          assert Known(list[1..], r[j].dd, r[j].block);
        }
      }
    }
  }

  /**
   One round: the transfer list holds exactly the buffers of one device that are due, in strictly ascending
   block order, and the round loses none. If it is empty, then, unless a device was to be synced, nothing is due.
   */
  lemma RoundInOrder(first: Pass, second: Pass, s: seq<Dirty>, m: seq<Dirty>)
    requires DistinctKeys(s + m) && first.sync && second.dev == first.Device(s)
    ensures var to := first.Device(s);
            var dev := second.Device(m);
            var a, b := first.Taken(s, to), second.Taken(m, dev);
            var t := PlaceAll(PlaceAll([], a), b);
            && Ascending(Block, t) && multiset(t) == multiset(a) + multiset(b)
            && (forall d | d in t :: d.hold == 0 && dev == Some(d.dd))
            && |t| + |first.Left(s, to)| + |second.Left(m, dev)| == |s| + |m|
            && (t == [] && first.dev.None? ==> s == [] && forall d | d in m :: !second.Due(d))
  {
    hide Pass.Age, Pass.Due, Pass.Device, Pass.Taken, Pass.Left, PlaceAll, Ascending;
    var to := first.Device(s);
    var dev := second.Device(m);
    var a, b := first.Taken(s, to), second.Taken(m, dev);
    RoundFresh(first, second, s, m);
    OnePlacing(a, b);
    TakenKnown(first, s, to);
    TakenKnown(second, m, dev);
    OfTheDevice(first, second, s, m);
    TakenExactly(second, m, dev);
    if first.dev.None? && a == [] && b == [] {
      NothingDue(first, second, s, m);
    }
  }

  lemma OnePlacing(a: seq<Dirty>, b: seq<Dirty>)
    requires Fresh([], a) && Fresh(a, b)
    ensures var t := PlaceAll(PlaceAll([], a), b);
            && Ascending(Block, t) && multiset(t) == multiset(a) + multiset(b) && |t| == |a| + |b|
            && forall d :: d in t <==> d in a || d in b
  {
    hide PlaceAll;
    var t1 := PlaceAll([], a);
    PlacedAll([], a);
    PlacedAll(t1, b);
    PlacedInOrder([], a);
    FreshSame(a, t1, b);
    PlacedInOrder(t1, b);
    var t := PlaceAll(t1, b);
    assert |t| == |multiset(t)| == |multiset(a)| + |multiset(b)|;
    forall d ensures d in t <==> d in a || d in b {
      assert d in t <==> d in multiset(t);
    }
  }

  lemma FreshSame(a: seq<Dirty>, t: seq<Dirty>, b: seq<Dirty>)
    requires Fresh(a, b) && multiset(t) == multiset(a)
    ensures Fresh(t, b)
  {
    forall d, e | d in t && e in b ensures d.block != e.block {
      assert d in multiset(t);
      assert d in a;
    }
  }

  lemma RoundFresh(first: Pass, second: Pass, s: seq<Dirty>, m: seq<Dirty>)
    requires DistinctKeys(s + m) && second.dev == first.Device(s)
    ensures Fresh([], first.Taken(s, first.Device(s)))
    ensures Fresh(first.Taken(s, first.Device(s)), second.Taken(m, second.Device(m)))
  {
    hide Pass.Age, Pass.Due, Pass.Taken, Pass.Left;
    var to, dev := first.Device(s), second.Device(m);
    var a, b := first.Taken(s, to), second.Taken(m, dev);
    DeviceStart(second, m);
    hide Pass.Device;
    forall i, j | 0 <= i < j < |s| ensures s[i].dd != s[j].dd || s[i].block != s[j].block {
      assert (s + m)[i] == s[i] && (s + m)[j] == s[j];
    }
    forall i, j | 0 <= i < j < |m| ensures m[i].dd != m[j].dd || m[i].block != m[j].block {
      assert (s + m)[|s| + i] == m[i] && (s + m)[|s| + j] == m[j];
    }
    TakenFresh(first, s, to);
    TakenFresh(second, m, dev);
    TakenKnown(first, s, to);
    TakenKnown(second, m, dev);
    TakenExactly(first, s, to);
    TakenExactly(second, m, dev);
    forall d, e | d in a && e in b ensures d.block != e.block {
      assert to == Some(d.dd) && dev == Some(e.dd);
      var i :| 0 <= i < |s| && s[i].dd == d.dd && s[i].block == d.block;
      var j :| 0 <= j < |m| && m[j].dd == e.dd && m[j].block == e.block;
      assert (s + m)[i] == s[i] && (s + m)[|s| + j] == m[j];
    }
  }

  lemma OfTheDevice(first: Pass, second: Pass, s: seq<Dirty>, m: seq<Dirty>)
    requires second.dev == first.Device(s)
    ensures forall d | d in first.Taken(s, first.Device(s)) :: d.hold == 0 && second.Device(m) == Some(d.dd)
  {
    TakenExactly(first, s, first.Device(s));
    DeviceStart(second, m);
  }

  lemma NothingDue(first: Pass, second: Pass, s: seq<Dirty>, m: seq<Dirty>)
    requires first.sync && second.dev == first.Device(s) && first.dev.None?
    requires first.Taken(s, first.Device(s)) == [] && second.Taken(m, second.Device(m)) == []
    ensures s == [] && forall d | d in m :: !second.Due(d)
  {
    assert forall d :: first.Due(d);
    NoDevice(first, s);
    NoDevice(second, m);
  }

  // ---- requests ----

  function Joined(rs: seq<seq<Dirty>>): seq<Dirty> {
    if rs == [] then [] else Joined(rs[..|rs| - 1]) + rs[|rs| - 1]
  }

  /** A request that the driver accepts. A limit of zero still lets one buffer through. */
  ghost predicate Batch(r: seq<Dirty>, maxWrite: nat, contiguous: bool, step: nat) {
    && 0 < |r| <= (if maxWrite == 0 then 1 else maxWrite)
    && (contiguous ==> forall i | 0 < i < |r| :: r[i].block == (r[i - 1].block + step) % U32)
  }

  /** The request could not have taken `next` as well. */
  ghost predicate Cut(r: seq<Dirty>, next: Dirty, maxWrite: nat, contiguous: bool, step: nat)
    requires r != []
  {
    |r| >= maxWrite || (contiguous && next.block != (r[|r| - 1].block + step) % U32)
  }

  /** Requests that the driver accepts, none of them cut short, before `todo` is written. */
  ghost predicate Sound(rs: seq<seq<Dirty>>, todo: seq<Dirty>, maxWrite: nat, contiguous: bool, step: nat) {
    && (forall i | 0 <= i < |rs| :: Batch(rs[i], maxWrite, contiguous, step) && rs[i] != [])
    && (forall i | 0 <= i < |rs| - 1 :: Cut(rs[i], rs[i + 1][0], maxWrite, contiguous, step))
    && (rs != [] && todo != [] ==> Cut(rs[|rs| - 1], todo[0], maxWrite, contiguous, step))
  }

  /** The list is cut into requests that the driver accepts, none of them shorter than necessary. */
  ghost predicate Batches(rs: seq<seq<Dirty>>, list: seq<Dirty>, maxWrite: nat, contiguous: bool, step: nat) {
    Joined(rs) == list && Sound(rs, [], maxWrite, contiguous, step)
  }

  lemma NothingMade(rest: seq<Dirty>, maxWrite: nat, contiguous: bool, step: nat)
    ensures Joined([]) == [] && Joined([]) + ([] + rest) == rest && Sound([], [] + rest, maxWrite, contiguous, step)
  {
  }

  lemma BatchGrows(req: seq<Dirty>, d: Dirty, maxWrite: nat, contiguous: bool, step: nat)
    requires req == [] || (Batch(req, maxWrite, contiguous, step) && |req| < maxWrite)
    requires req != [] && contiguous ==> d.block == (req[|req| - 1].block + step) % U32
    ensures Batch(req + [d], maxWrite, contiguous, step)
  {
  }

  lemma WhyCut(req: seq<Dirty>, rest: seq<Dirty>, maxWrite: nat, contiguous: bool, step: nat)
    requires req != [] && rest != [] && (|req| >= maxWrite || (contiguous && rest[0].block != (req[|req| - 1].block + step) % U32))
    ensures Cut(req, rest[0], maxWrite, contiguous, step)
  {
  }

  lemma RequestMade(made: seq<seq<Dirty>>, req: seq<Dirty>, rest: seq<Dirty>, maxWrite: nat, contiguous: bool, step: nat)
    requires Sound(made, req + rest, maxWrite, contiguous, step) && Batch(req, maxWrite, contiguous, step)
    requires rest != [] ==> req != [] && Cut(req, rest[0], maxWrite, contiguous, step)
    ensures Sound(made + [req], rest, maxWrite, contiguous, step)
    ensures Joined(made + [req]) + rest == Joined(made) + (req + rest)
  {
    var m := made + [req];
    assert req != [] by {
      assert Batch(req, maxWrite, contiguous, step);
    }
    hide Batch, Cut;
    assert m[..|m| - 1] == made;
    Assoc(Joined(made), req, rest);
    assert made != [] ==> Cut(made[|made| - 1], req[0], maxWrite, contiguous, step);
    forall i | 0 <= i < |m| - 1 ensures Cut(m[i], m[i + 1][0], maxWrite, contiguous, step) {
      assert i < |made| - 1 ==> Cut(made[i], made[i + 1][0], maxWrite, contiguous, step);
    }
  }

  // ---- the swap-out itself ----

  class Swapper {
    var sync: seq<Dirty>
    var modified: seq<Dirty>
    var transfer: seq<Dirty>
    var dev: Option<nat>
    var requests: seq<seq<Dirty>>

    constructor ()
      ensures sync == [] && modified == [] && transfer == [] && dev == None && requests == []
    {
      sync, modified, transfer, dev, requests := [], [], [], None, [];
    }

    /** Puts one buffer into the transfer list; the place is searched from the tail. */
    method Insert(d: Dirty)
      modifies this`transfer
      ensures transfer == Place(Block, old(transfer), d)
    {
      var i := |transfer|;
      assert transfer[..i] == transfer && Place(Block, transfer, d) + transfer[i..] == Place(Block, transfer, d);
      while i > 0 && !(d.block > transfer[i - 1].block)
        invariant 0 <= i <= |transfer|
        invariant Place(Block, transfer, d) == Place(Block, transfer[..i], d) + transfer[i..]
      {
        assert transfer[..i][..i - 1] == transfer[..i - 1];
        assert transfer[i - 1..] == [transfer[i - 1]] + transfer[i..];
        i := i - 1;
      }
      transfer := transfer[..i] + [d] + transfer[i..];
    }

    /** Ages one buffer, and moves it to the transfer list if it is due and its device is, or becomes, the chosen one. */
    method Consider(d: Dirty, all: bool, syncing: bool, waiters: bool, update: bool, delta: nat, ghost p: Pass) returns (a: Dirty, taken: bool)
      requires p == Pass(p.dev, syncing, waiters, update, delta) && all == (syncing && p.dev.None?)
      requires dev == p.dev || p.dev.None?
      modifies this`transfer, this`dev
      ensures a == p.Age(d) && taken == (a.hold == 0 && dev == Some(a.dd))
      ensures dev == if old(dev).None? && p.Due(d) then Some(d.dd) else old(dev)
      ensures transfer == if taken then Place(Block, old(transfer), a) else old(transfer)
    {
      hide Place;
      a := d;
      if all || (syncing && dev == Some(a.dd)) || waiters {
        a := a.(hold := 0);
      }
      if a.hold > 0 && update {
        a := a.(hold := if a.hold > delta then a.hold - delta else 0);
      }
      if a.hold == 0 && dev.None? {
        dev := Some(a.dd);
      }
      taken := a.hold == 0 && dev == Some(a.dd);
      if taken {
        Insert(a);
      }
    }

    /** One pass over a list. Buffers that are taken leave it for the transfer list. */
    method Gather(list: seq<Dirty>, syncing: bool, waiters: bool, update: bool, delta: nat) returns (rest: seq<Dirty>)
      modifies this`transfer, this`dev
      ensures var p := Pass(old(dev), syncing, waiters, update, delta);
              && dev == p.Device(list) && rest == p.Left(list, dev)
              && transfer == PlaceAll(old(transfer), p.Taken(list, dev))
    {
      hide Place, Pass.Age, Pass.Due, PlaceAll, Pass.Taken, Pass.Left, Pass.Device;
      ghost var p := Pass(dev, syncing, waiters, update, delta);
      ghost var to := p.Device(list);
      var all := syncing && dev.None?;
      var i := 0;
      rest := list;
      ghost var done := 0;
      DeviceStart(p, list);
      assert list[0..] == list && rest[..0] + p.Left(list, to) == p.Left(list, to);
      while i < |rest|
        invariant 0 <= done <= |list| && i <= |rest|
        invariant rest[i..] == list[done..]
        invariant rest[..i] + p.Left(list[done..], to) == p.Left(list, to)
        invariant PlaceAll(transfer, p.Taken(list[done..], to)) == PlaceAll(old(transfer), p.Taken(list, to))
        invariant dev == p.dev || p.dev.None?
        invariant to == if dev.None? then p.Device(list[done..]) else dev
        decreases |list| - done
      {
        ghost var kept, tail, before := rest[..i], list[done..], transfer;
        assert rest[i] == tail[0] && tail[1..] == list[done + 1..] && rest[i + 1..] == tail[1..];
        PassStep(p, tail, to, transfer);
        DeviceStep(p, tail);
        AgeKeeps(p, tail[0]);
        var a, taken := Consider(rest[i], all, syncing, waiters, update, delta, p);
        ghost var x := if taken then [] else [a];
        assert taken == (a.hold == 0 && to == Some(a.dd));
        assert p.Left(tail, to) == x + p.Left(tail[1..], to);
        Assoc(kept, x, p.Left(tail[1..], to));
        if taken {
          rest := rest[..i] + rest[i + 1..];
          assert rest[..i] == kept && kept + [] == kept;
        } else {
          rest := rest[i := a];
          i := i + 1;
          assert rest[..i] == kept + [a];
        }
        done := done + 1;
      }
      PassEnd(p, list[done..], to, transfer);
      assert rest[..i] == rest && rest + [] == rest;
    }

    /** What one round of the swap-out takes: the sync list first, then the modified list. */
    method Collect(syncDevice: Option<nat>, syncing: bool, waiters: bool, update: bool, delta: nat)
      modifies this`sync, this`modified, this`transfer, this`dev
      ensures var first := Pass(if syncing then syncDevice else None, true, waiters, false, delta);
              var to := first.Device(old(sync));
              var second := Pass(to, syncing, waiters, update, delta);
              && sync == first.Left(old(sync), to)
              && dev == second.Device(old(modified)) && modified == second.Left(old(modified), dev)
              && transfer == PlaceAll(PlaceAll([], first.Taken(old(sync), to)), second.Taken(old(modified), dev))
    {
      hide PlaceAll, Pass.Taken, Pass.Left, Pass.Device;
      transfer := [];
      dev := if syncing then syncDevice else None;
      sync := Gather(sync, true, waiters, false, delta);
      modified := Gather(modified, syncing, waiters, update, delta);
    }

    /** Writes the transfer list: collects buffers into a request until it is full or the driver wants another one. */
    method Write(maxWrite: nat, contiguous: bool, step: nat)
      modifies this`transfer, this`requests
      ensures transfer == [] && |requests| >= |old(requests)| && requests[..|old(requests)|] == old(requests)
      ensures Batches(requests[|old(requests)|..], old(transfer), maxWrite, contiguous, step)
    {
      hide Batch, Cut, Joined, Sound;
      NothingMade(transfer, maxWrite, contiguous, step);
      var req: seq<Dirty> := [];
      var lastBlock := 0;
      ghost var made: seq<seq<Dirty>> := [];
      ghost var before := requests;
      assert requests == before + made;
      while transfer != []
        invariant requests == before + made
        invariant Joined(made) + (req + transfer) == old(transfer)
        invariant req == [] || (Batch(req, maxWrite, contiguous, step) && |req| < maxWrite && lastBlock == req[|req| - 1].block)
        invariant transfer == [] ==> req == []
        invariant Sound(made, req + transfer, maxWrite, contiguous, step)
        decreases |transfer|, |req|
      {
        ghost var todo := req + transfer;
        var d := transfer[0];
        transfer := transfer[1..];
        var write := false;
        if contiguous && |req| > 0 && d.block != (lastBlock + step) % U32 {
          transfer := [d] + transfer;
          write := true;
        } else {
          BatchGrows(req, d, maxWrite, contiguous, step);
          req := req + [d];
          lastBlock := d.block;
        }
        assert req + transfer == todo;
        if transfer == [] || |req| >= maxWrite {
          write := true;
        }
        if write {
          if transfer != [] {
            WhyCut(req, transfer, maxWrite, contiguous, step);
          }
          RequestMade(made, req, transfer, maxWrite, contiguous, step);
          requests := requests + [req];
          made := made + [req];
          req := [];
          assert [] + transfer == transfer;
        }
      }
      assert Joined(made) + ([] + []) == Joined(made);
      assert requests[|before|..] == made;
    }
  }
}
