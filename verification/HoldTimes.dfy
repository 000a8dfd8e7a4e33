/**
 When a modified buffer is written: the time it is still to be held runs down with every timer pass, and a
 synchronisation or a thread that waits for a buffer ends it at once.
 */
module HoldTimes {
  import opened Arithmetic
  import opened Basics
  import opened SwapOut

  /** What is left of a time after some of it has passed. */
  function Remaining(hold: nat, elapsed: nat): (r: nat)
    ensures hold <= elapsed ==> r == 0
    ensures hold >= elapsed ==> r + elapsed == hold
  {
    if hold > elapsed then hold - elapsed else 0
  }

  function Key(d: Dirty): (nat, nat) { (d.dd, d.block) }

  /** The list has a buffer of this device and block. */
  ghost predicate Has(list: seq<Dirty>, key: (nat, nat)) {
    exists d :: d in list && Key(d) == key
  }

  // ---- one pass ----

  /** What a pass makes of one buffer, and in which of its two lists that is found. */
  lemma {:induction false} PassTreats(p: Pass, list: seq<Dirty>, to: Option<nat>, d: Dirty)
    requires d in list
    ensures var hold := if p.waiters || (p.sync && (p.dev == None || p.dev == Some(d.dd))) then 0
                        else Remaining(d.hold, if p.update then p.delta else 0);
            Dirty(d.dd, d.block, hold) in if hold == 0 && to == Some(d.dd) then p.Taken(list, to) else p.Left(list, to)
  {
    if d != list[0] {
      PassTreats(p, list[1..], to, d);
    }
  }

  /** A pass has nothing but the buffers of the list, each of them once. */
  lemma {:induction false} PassKeys(p: Pass, list: seq<Dirty>, to: Option<nat>)
    requires DistinctKeys(list)
    ensures forall e | e in p.Taken(list, to) || e in p.Left(list, to) :: Has(list, Key(e))
    ensures forall e, f | e in p.Taken(list, to) && f in p.Left(list, to) :: Key(e) != Key(f)
  {
    hide Pass.Age, Pass.Due;
    if list != [] {
      var rest := list[1..];
      PassKeys(p, rest, to);
      AgeKeeps(p, list[0]);
      assert Has(list, Key(list[0]));
      forall e | e in p.Taken(rest, to) || e in p.Left(rest, to) ensures Has(list, Key(e)) && Key(e) != Key(list[0]) {
        var d :| d in rest && Key(d) == Key(e);
        var j :| 0 <= j < |rest| && rest[j] == d;
        assert list[j + 1] == d;
      }
    }
  }

  // ---- many passes ----

  /** The time since the first pass. */
  function Elapsed(passes: seq<Pass>): nat {
    if passes == [] then 0 else Elapsed(passes[..|passes| - 1]) + passes[|passes| - 1].delta
  }

  /** What a pass moves to the transfer list. */
  function Written(p: Pass, list: seq<Dirty>): seq<Dirty> {
    p.Taken(list, p.Device(list))
  }

  /**
   Passes of the timer while no thread waits and nothing is synced. What one of them leaves is in the list of the
   next, and other buffers may have come to it.
   */
  ghost predicate TimerPasses(lists: seq<seq<Dirty>>, passes: seq<Pass>) {
    && |lists| == |passes| + 1
    && (forall i | 0 <= i < |passes| :: !passes[i].sync && !passes[i].waiters && passes[i].update && DistinctKeys(lists[i]))
    && (forall i | 0 <= i < |passes| :: forall d | d in passes[i].Left(lists[i], passes[i].Device(lists[i])) :: d in lists[i + 1])
  }

  /** A pass of the timer, for one buffer of the list. */
  lemma TimerPass(p: Pass, list: seq<Dirty>, d: Dirty)
    requires !p.sync && !p.waiters && p.update && DistinctKeys(list) && d in list
    ensures var hold, to := Remaining(d.hold, p.delta), p.Device(list);
            && (hold == 0 ==> to != None)
            && (Has(Written(p, list), Key(d)) <==> hold == 0 && to == Some(d.dd))
            && (!Has(Written(p, list), Key(d)) ==> Dirty(d.dd, d.block, hold) in p.Left(list, to))
  {
    hide Pass.Taken, Pass.Left, Pass.Device, DistinctKeys;
    var hold, to := Remaining(d.hold, p.delta), p.Device(list);
    PassTreats(p, list, to, d);
    PassKeys(p, list, to);
    NoDevice(p, list);
    var e := Dirty(d.dd, d.block, hold);
    assert Key(e) == Key(d);
    if hold == 0 && to == Some(d.dd) {
      assert e in Written(p, list);
    } else {
      assert e in p.Left(list, to);
    }
  }

  /**
   A buffer stays in the list, with what remains of its hold time, until a pass writes it. A pass does so if and only if
   the whole time has run down and the buffer is of the device that is written; it then writes some device.
   */
  lemma {:induction false} HeldUntilDue(lists: seq<seq<Dirty>>, passes: seq<Pass>, d: Dirty, n: nat)
    requires TimerPasses(lists, passes) && n <= |passes| && d in lists[0]
    requires forall i | 0 <= i < n :: !Has(Written(passes[i], lists[i]), Key(d))
    ensures Dirty(d.dd, d.block, Remaining(d.hold, Elapsed(passes[..n]))) in lists[n]
    ensures n < |passes| ==>
              var due, to := Elapsed(passes[..n + 1]) >= d.hold, passes[n].Device(lists[n]);
              && (due ==> to != None)
              && (Has(Written(passes[n], lists[n]), Key(d)) <==> due && to == Some(d.dd))
  {
    hide Pass.Taken, Pass.Left, Pass.Device, Written, Has;
    var now := Dirty(d.dd, d.block, Remaining(d.hold, Elapsed(passes[..n])));
    if n == 0 {
      assert passes[..0] == [];
    } else {
      HeldUntilDue(lists, passes, d, n - 1);
      var before := Dirty(d.dd, d.block, Remaining(d.hold, Elapsed(passes[..n - 1])));
      assert Key(before) == Key(d);
      TimerPass(passes[n - 1], lists[n - 1], before);
      assert passes[..n][..n - 1] == passes[..n - 1];
    }
    if n < |passes| {
      assert Key(now) == Key(d);
      TimerPass(passes[n], lists[n], now);
      assert passes[..n + 1][..n] == passes[..n];
    }
  }

  /** With a steady timer, a buffer is due from the pass on whose number is the hold time over the period, rounded up. */
  lemma {:induction false} DueAfter(passes: seq<Pass>, hold: nat, delta: nat)
    requires delta > 0 && forall i | 0 <= i < |passes| :: passes[i].delta == delta
    ensures Elapsed(passes) == |passes| * delta
    ensures Elapsed(passes) >= hold <==> |passes| >= (hold + delta - 1) / delta
  {
    var n := |passes|;
    if n > 0 {
      DueAfter(passes[..n - 1], hold, delta);
    }
    RoundsUp(n, hold, delta);
  }

  lemma RoundsUp(n: nat, hold: nat, delta: nat)
    requires delta > 0
    ensures n * delta >= hold <==> n >= (hold + delta - 1) / delta
  {
    var q := (hold + delta - 1) / delta;
    DivisionOf(hold + delta - 1, delta);
    if n >= q {
      ProductAtLeast(delta, n, q);
    } else {
      Scaled(n, q, delta);
    }
  }

  // ---- forced writes ----

  /**
   What a round must not leave behind, whatever the hold times: buffers on the sync list or of the device that is synced,
   or anything at all, unless it writes something, while a thread waits for a buffer or all devices are synced.
   */
  lemma RoundForces(syncDevice: Option<nat>, syncing: bool, waiters: bool, update: bool, delta: nat, s: seq<Dirty>, m: seq<Dirty>)
    ensures var first := Pass(if syncing then syncDevice else None, true, waiters, false, delta);
            var to := first.Device(s);
            var second := Pass(to, syncing, waiters, update, delta);
            var dev := second.Device(m);
            var a, b := first.Taken(s, to), second.Taken(m, dev);
            && (forall d | d in s && (if syncing && syncDevice != None then syncDevice == Some(d.dd) else to == Some(d.dd)) ::
                  Dirty(d.dd, d.block, 0) in a)
            && (forall d | d in m && syncing && syncDevice == Some(d.dd) :: Dirty(d.dd, d.block, 0) in b)
            && (forall d | d in m && (waiters || syncing) && dev == Some(d.dd) :: Dirty(d.dd, d.block, 0) in b)
            && ((if syncing then syncDevice == None else waiters) && a == [] && b == [] ==> s == [] && m == [])
  {
    hide Pass.Taken, Pass.Left;
    var first := Pass(if syncing then syncDevice else None, true, waiters, false, delta);
    var to := first.Device(s);
    var second := Pass(to, syncing, waiters, update, delta);
    var dev := second.Device(m);
    DeviceStart(first, s);
    DeviceStart(second, m);
    hide Pass.Device;
    NoDevice(first, s);
    NoDevice(second, m);
    forall d | d in s ensures first.dev.None? || first.dev == Some(d.dd) ==>
                                Dirty(d.dd, d.block, 0) in if to == Some(d.dd) then first.Taken(s, to) else first.Left(s, to) {
      PassTreats(first, s, to, d);
    }
    forall d | d in m ensures waiters || (syncing && (to.None? || to == Some(d.dd))) ==>
                                Dirty(d.dd, d.block, 0) in if dev == Some(d.dd) then second.Taken(m, dev) else second.Left(m, dev) {
      PassTreats(second, m, dev, d);
    }
    assert s != [] && first.dev.None? ==> first.Due(s[0]);
    assert m != [] && to.None? && (waiters || syncing) ==> second.Due(m[0]);
  }
}
