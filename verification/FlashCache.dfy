/** The write-back flash cache: reads and writes of any range go through a few block buffers. */
module FlashCache {
  import opened Arithmetic
  import opened Basics
  import opened Bytes
  import opened FlashState

  // ---- lists ----

  function Drop(s: seq<nat>, p: nat): seq<nat>
    requires p < |s|
  {
    s[..p] + s[p + 1..]
  }

  lemma Dropped(s: seq<nat>, p: nat)
    requires p < |s| && forall i, j | 0 <= i < j < |s| :: s[i] != s[j]
    ensures var r := Drop(s, p);
            && (forall i, j | 0 <= i < j < |r| :: r[i] != r[j])
            && (forall x :: x in r <==> x in s && x != s[p])
  {
    var r := Drop(s, p);
    forall x ensures x in r <==> x in s && x != s[p] {
      if x in s && x != s[p] {
        var j :| 0 <= j < |s| && s[j] == x;
        assert if j < p then r[j] == x else r[j - 1] == x;
      }
    }
  }

  /** The descriptors that a flush leaves dirty, and those that it writes, in the order of the list. */
  function Waiting(descs: seq<Desc>, list: seq<nat>, expired: nat): seq<nat> {
    if list == [] then []
    else
      var x := list[|list| - 1];
      Waiting(descs, list[..|list| - 1], expired) + (if x < |descs| && descs[x].hold > expired then [x] else [])
  }

  function Ripe(descs: seq<Desc>, list: seq<nat>, expired: nat): seq<nat> {
    if list == [] then []
    else
      var x := list[|list| - 1];
      Ripe(descs, list[..|list| - 1], expired) + (if x < |descs| && descs[x].hold > expired then [] else [x])
  }

  lemma {:induction false} WaitingExactly(descs: seq<Desc>, list: seq<nat>, expired: nat)
    ensures forall x :: x in Waiting(descs, list, expired) <==> x in list && x < |descs| && descs[x].hold > expired
    ensures forall x :: x in Ripe(descs, list, expired) <==> x in list && !(x < |descs| && descs[x].hold > expired)
  {
    if list != [] {
      var x := list[|list| - 1];
      WaitingExactly(descs, list[..|list| - 1], expired);
      assert list == list[..|list| - 1] + [x];
    }
  }

  // ---- the lists while a descriptor is taken off and put back ----

  lemma TakenOff(descs: seq<Desc>, cached: seq<nat>, dirty: seq<nat>, p: nat, fromCached: bool)
    requires Listed(descs, cached, dirty, None) && p < (if fromCached then |cached| else |dirty|)
    ensures var i := if fromCached then cached[p] else dirty[p];
            && i < |descs|
            && Listed(descs, if fromCached then Drop(cached, p) else cached, if fromCached then dirty else Drop(dirty, p), Some(i))
  {
    var i := if fromCached then cached[p] else dirty[p];
    if fromCached {
      Dropped(cached, p);
    } else {
      Dropped(dirty, p);
    }
    assert i in (if fromCached then cached else dirty);
  }

  lemma PutBack(descs: seq<Desc>, cached: seq<nat>, dirty: seq<nat>, i: nat)
    requires Listed(descs, cached, dirty, Some(i)) && i < |descs| && (descs[i].state == Invalid ==> descs[i].dd.None?)
    ensures descs[i].state != Dirty ==> Listed(descs, cached + [i], dirty, None)
    ensures descs[i].state == Dirty ==> Listed(descs, cached, dirty + [i], None)
  {
  }

  lemma ListedSame(descs: seq<Desc>, descs': seq<Desc>, cached: seq<nat>, dirty: seq<nat>, i: nat)
    requires Listed(descs, cached, dirty, Some(i)) && |descs'| == |descs|
    requires forall j | 0 <= j < |descs| && j != i :: descs'[j] == descs[j]
    ensures Listed(descs', cached, dirty, Some(i))
  {
  }

  lemma AgedDropped(descs: seq<Desc>, dirty: seq<nat>, age: seq<nat>, period: nat, holdTime: nat, p: nat)
    requires Aged(descs, dirty, age, period, holdTime) && p < |dirty|
    ensures Aged(descs, Drop(dirty, p), age, period, holdTime)
  {
    var r := Drop(dirty, p);
    forall i, j | 0 <= i < j < |r| && r[i] < |descs| && r[j] < |descs| ensures descs[r[i]].hold <= descs[r[j]].hold {
      var x, y := if i < p then i else i + 1, if j < p then j else j + 1;
      assert r[i] == dirty[x] && r[j] == dirty[y];
    }
  }

  lemma AgedSame(descs: seq<Desc>, descs': seq<Desc>, dirty: seq<nat>, age: seq<nat>, period: nat, holdTime: nat, i: nat)
    requires Aged(descs, dirty, age, period, holdTime) && |descs'| == |descs| && i !in dirty
    requires forall j | 0 <= j < |descs| && j != i :: descs'[j] == descs[j]
    ensures Aged(descs', dirty, age, period, holdTime)
  {
    forall x, y | 0 <= x < y < |dirty| && dirty[x] < |descs'| && dirty[y] < |descs'|
      ensures descs'[dirty[x]].hold <= descs'[dirty[y]].hold
    {
      assert dirty[x] in dirty && dirty[y] in dirty;
    }
  }

  /** A block that becomes dirty is the youngest. */
  lemma AgedAppended(descs: seq<Desc>, dirty: seq<nat>, age: seq<nat>, period: nat, holdTime: nat, i: nat)
    requires Aged(descs, dirty, age, period, holdTime) && i < |descs| && i !in dirty && holdTime > 0
    ensures Aged(descs[i := descs[i].(hold := holdTime)], dirty + [i], age[i := 0], period, holdTime)
  {
    var descs', dirty' := descs[i := descs[i].(hold := holdTime)], dirty + [i];
    assert forall x | x in dirty && x < |descs| :: descs[x].hold <= holdTime;
    forall x, y | 0 <= x < y < |dirty'| && dirty'[x] < |descs'| && dirty'[y] < |descs'|
      ensures descs'[dirty'[x]].hold <= descs'[dirty'[y]].hold
    {
      assert x < |dirty| ==> dirty[x] in dirty;
      assert y < |dirty| ==> dirty[y] in dirty;
    }
  }

  /** What a flush does to a descriptor on the dirty list. */
  function Synced(s: Desc, expired: nat): Desc {
    if s.hold > expired then s.(hold := s.hold - expired) else s.(state := Cached)
  }

  /** The first `n` descriptors of the dirty list have been looked at. */
  ghost predicate Scanned(was: seq<Desc>, descs: seq<Desc>, list: seq<nat>, n: nat, expired: nat)
    requires n <= |list|
  {
    |descs| == |was| && forall i | 0 <= i < |descs| :: descs[i] == if i in list[..n] then Synced(was[i], expired) else was[i]
  }

  lemma ScannedOne(was: seq<Desc>, descs: seq<Desc>, list: seq<nat>, n: nat, expired: nat)
    requires n < |list| && Scanned(was, descs, list, n, expired) && list[n] < |was| && list[n] !in list[..n]
    ensures descs[list[n]] == was[list[n]]
    ensures Scanned(was, descs[list[n] := Synced(was[list[n]], expired)], list, n + 1, expired)
  {
    assert list[..n + 1] == list[..n] + [list[n]];
  }

  /** The blocks kept so far are no older than those still to come, even though only they were lowered. */
  ghost predicate Staggered(descs: seq<Desc>, dirty: seq<nat>, pos: nat, expired: nat) {
    forall x, y | 0 <= x < pos <= y < |dirty| && dirty[x] < |descs| && dirty[y] < |descs| ::
      descs[dirty[x]].hold <= descs[dirty[y]].hold - expired
  }

  lemma Lowered(descs: seq<Desc>, dirty: seq<nat>, age: seq<nat>, period: nat, holdTime: nat, pos: nat)
    requires Aged(descs, dirty, age, period, holdTime) && forall i, j | 0 <= i < j < |dirty| :: dirty[i] != dirty[j]
    requires pos < |dirty| && dirty[pos] < |descs| && descs[dirty[pos]].hold > period && Staggered(descs, dirty, pos, period)
    ensures var i := dirty[pos];
            var descs' := descs[i := descs[i].(hold := descs[i].hold - period)];
            Aged(descs', dirty, age[i := age[i] + 1], period, holdTime) && Staggered(descs', dirty, pos + 1, period)
  {
    var i := dirty[pos];
    var h := descs[i].hold - period;
    var descs' := descs[i := descs[i].(hold := h)];
    assert i in dirty;
    OneMore(age[i], period);
    forall x, y | 0 <= x < y < |dirty| && dirty[x] < |descs| && dirty[y] < |descs|
      ensures descs'[dirty[x]].hold <= descs'[dirty[y]].hold
    {
      assert x < pos ==> descs[dirty[x]].hold <= h;
    }
  }

  lemma OneMore(a: nat, period: nat)
    ensures (a + 1) * period == a * period + period
  {
  }

  lemma StaggeredDropped(descs: seq<Desc>, dirty: seq<nat>, pos: nat, expired: nat)
    requires Staggered(descs, dirty, pos, expired) && pos < |dirty|
    ensures Staggered(descs, Drop(dirty, pos), pos, expired)
  {
    var r := Drop(dirty, pos);
    forall x, y | 0 <= x < pos <= y < |r| && r[x] < |descs| && r[y] < |descs|
      ensures descs[r[x]].hold <= descs[r[y]].hold - expired
    {
      assert r[x] == dirty[x] && r[y] == dirty[y + 1];
    }
  }

  lemma YoungEnough(descs: seq<Desc>, dirty: seq<nat>, age: seq<nat>, period: nat, holdTime: nat, i: nat)
    requires Aged(descs, dirty, age, period, holdTime) && i in dirty && i < |descs|
    ensures descs[i].hold <= holdTime
  {
  }

  // ---- the cache ----

  class FlashCache {
    const blk: seq<nat>
    const maxBlk: nat
    const period: nat
    const holdTime: nat
    var flash: seq<seq<byte>>
    var descs: seq<Desc>
    var cached: seq<nat>
    var dirty: seq<nat>
    ghost var logical: seq<seq<byte>>
    ghost var age: seq<nat>

    /** The lists and the contents, but for descriptor `out`, which is in use. */
    ghost predicate Kept(out: Option<nat>)
      reads this
    {
      && Sound(blk, maxBlk, flash, logical, descs) && Listed(descs, cached, dirty, out)
      && Aged(descs, dirty, age, period, holdTime) && |descs| >= 1 && holdTime > 0
    }

    ghost predicate Valid()
      reads this
    {
      Kept(None)
    }

    /** The lock is held, and descriptor `i` is off the lists, for block `b` of device `d`. */
    ghost predicate Busy(i: nat, d: nat, b: nat)
      reads this
    {
      Kept(Some(i)) && i < |descs| && IsFor(descs[i], d, b)
    }

    ghost predicate InRange(d: nat, b: nat)
      reads this
    {
      d < |blk| && |flash| == |blk| && b * blk[d] + blk[d] <= |flash[d]|
    }

    /** `blkdev_init`: all descriptors are on the cached list and belong to no device. */
    constructor (blk: seq<nat>, maxBlk: nat, period: nat, holdTime: nat, n: nat, flash: seq<seq<byte>>)
      requires n >= 1 && holdTime > 0 && |flash| == |blk|
      requires forall d | 0 <= d < |blk| :: 1 <= blk[d] <= maxBlk && |flash[d]| % blk[d] == 0
      ensures Valid() && logical == flash && this.flash == flash && |descs| == n && dirty == []
      ensures this.blk == blk && this.maxBlk == maxBlk && this.period == period && this.holdTime == holdTime
    {
      this.blk, this.maxBlk, this.period, this.holdTime, this.flash := blk, maxBlk, period, holdTime, flash;
      descs := seq(n, _ => Desc(None, 0, Invalid, 0, seq(maxBlk, _ => 0)));
      cached := seq(n, i requires 0 <= i < n => n - 1 - i);
      dirty := [];
      logical := flash;
      age := seq(n, _ => 0);
      new;
      forall i: nat | i < n ensures i in cached {
        assert cached[n - 1 - i] == i;
      }
    }

    // ---- the device ----

    method Erase(d: nat, ofs: nat, len: nat)
      requires d < |flash| && ofs + len <= |flash[d]|
      modifies this`flash
      ensures flash == old(flash)[d := Patch(old(flash)[d], ofs, seq(len, _ => 0xff))]
    {
      flash := flash[d := Patch(flash[d], ofs, seq(len, _ => 0xff))];
    }

    /** Flash can be programmed only where it has been erased. */
    method Program(d: nat, ofs: nat, data: seq<byte>)
      requires d < |flash| && ofs + |data| <= |flash[d]| && forall a | ofs <= a < ofs + |data| :: flash[d][a] == 0xff
      modifies this`flash
      ensures flash == old(flash)[d := Patch(old(flash)[d], ofs, data)]
    {
      flash := flash[d := Patch(flash[d], ofs, data)];
    }

    // ---- flushing ----

    /** Writes one dirty block to flash; its descriptor moves to the cached list. */
    method Flush(pos: nat)
      requires Valid() && pos < |dirty|
      modifies this`flash, this`descs, this`cached, this`dirty
      ensures Valid() && |descs| == |old(descs)|
      ensures var i := old(dirty)[pos]; i < |descs| && descs == old(descs)[i := old(descs)[i].(state := Cached)]
      ensures cached == old(cached) + [old(dirty)[pos]] && dirty == Drop(old(dirty), pos)
    {
      hide Sound, Listed, Aged, Patch;
      var i := dirty[pos];
      TakenOff(descs, cached, dirty, pos, false);
      AgedDropped(descs, dirty, age, period, holdTime, pos);
      OnLists(descs, cached, dirty);
      FlushKeeps(blk, maxBlk, flash, logical, descs, i);
      ShapesKept(blk, maxBlk, flash, logical, descs);
      var d := descs[i].dd.value;
      var ofs := descs[i].blkno * blk[d];
      Erase(d, ofs, blk[d]);
      ErasedPatch(old(flash)[d], ofs, descs[i].buffer[..blk[d]]);
      Program(d, ofs, descs[i].buffer[..blk[d]]);
      assert flash == old(flash)[d := Patch(old(flash)[d], ofs, descs[i].buffer[..blk[d]])];
      dirty := Drop(dirty, pos);
      ghost var before := descs;
      descs := descs[i := descs[i].(state := Cached)];
      OneChanged(before, descs, cached, dirty, age, period, holdTime, i);
      PutBack(descs, cached, dirty, i);
      cached := cached + [i];
    }

    /** One tick less for a dirty block. */
    method Lower(pos: nat)
      requires Valid() && pos < |dirty| && dirty[pos] < |descs| && descs[dirty[pos]].hold > period
      requires Staggered(descs, dirty, pos, period)
      modifies this`descs, this`age
      ensures Valid() && Staggered(descs, dirty, pos + 1, period)
      ensures var i := dirty[pos];
              && i < |old(descs)| && i < |old(age)|
              && descs == old(descs)[i := Synced(old(descs)[i], period)] && age == old(age)[i := old(age)[i] + 1]
    {
      hide Sound, Listed;
      var i := dirty[pos];
      LowerListed(descs, cached, dirty, pos, descs[i].hold - period);
      Lowered(descs, dirty, age, period, holdTime, pos);
      HoldOnly(blk, maxBlk, flash, logical, descs, i, descs[i].hold - period);
      age := age[i := age[i] + 1];
      descs := descs[i := descs[i].(hold := descs[i].hold - period)];
    }

    /** One block of the dirty list: its time is up, or it has less left. */
    method Consider(pos: nat, expired: nat, ghost was: seq<Desc>, ghost list: seq<nat>, ghost clean: seq<nat>, ghost before: seq<nat>, ghost n: nat)
      returns (next: nat)
      requires Valid() && (expired == period || expired >= holdTime) && pos < |dirty|
      requires n <= |list| && Midway(was, list, clean, before, descs, cached, dirty, age, n, pos, expired)
      modifies this`flash, this`descs, this`cached, this`dirty, this`age
      ensures Valid() && n + 1 <= |list| && Midway(was, list, clean, before, descs, cached, dirty, age, n + 1, next, expired)
      ensures expired >= holdTime ==> next == pos
    {
      hide Sound, Listed, Aged, Midway, Synced, Staggered, Drop;
      SyncGoesOn(was, list, clean, before, descs, cached, dirty, age, n, pos, expired);
      YoungEnough(descs, dirty, age, period, holdTime, dirty[pos]);
      ghost var descs0, cached0, dirty0, age0 := descs, cached, dirty, age;
      if descs[dirty[pos]].hold > expired {
        Lower(pos);
        SyncWaiting(was, list, clean, before, descs0, cached, dirty, age0, n, pos, expired, descs, age);
        next := pos + 1;
      } else {
        Flush(pos);
        SyncedDef(descs0[list[n]], expired);
        SyncFlushed(was, list, clean, before, descs0, cached0, dirty0, age, n, pos, expired, descs);
        next := pos;
      }
    }

    /**
     `blkdev_sync_locked`: blocks whose time is up are written, in the order of the list; the others have
     less time left. The timer passes the swap period, everybody else the whole hold time.
     */
    method SyncLocked(expired: nat)
      requires Valid() && (expired == period || expired >= holdTime)
      modifies this`flash, this`descs, this`cached, this`dirty, this`age
      ensures Valid() && |descs| == |old(descs)|
      ensures cached == old(cached) + Ripe(old(descs), old(dirty), expired) && dirty == Waiting(old(descs), old(dirty), expired)
      ensures Scanned(old(descs), descs, old(dirty), |old(dirty)|, expired)
      ensures Older(old(age), age, dirty)
      ensures expired >= holdTime ==> dirty == []
    {
      hide Sound, Listed, Aged, Midway, Waiting, Ripe, Scanned, Synced;
      ghost var was, list, clean, before := descs, dirty, cached, age;
      var pos: nat := 0;
      ghost var n: nat := 0;
      OnLists(descs, cached, dirty);
      AgesFit(descs, dirty, age, period, holdTime);
      SyncStarts(was, list, clean, before, expired);
      while pos < |dirty|
        invariant Valid() && n <= |list| && Midway(was, list, clean, before, descs, cached, dirty, age, n, pos, expired)
        invariant expired >= holdTime ==> pos == 0
        decreases |list| - n
      {
        pos := Consider(pos, expired, was, list, clean, before, n);
        n := n + 1;
      }
      SyncEnds(was, list, clean, before, descs, cached, dirty, age, n, pos, expired);
    }

    /** `blkdev_sync`: afterwards flash holds everything that callers see. */
    method Sync()
      requires Valid()
      modifies this`flash, this`descs, this`cached, this`dirty, this`age
      ensures Valid() && |descs| == |old(descs)| && flash == logical && dirty == []
      ensures forall i | 0 <= i < |descs| :: descs[i].state != Dirty
    {
      hide Sound, Listed, Aged, Waiting, Ripe;
      SyncLocked(holdTime);
      NotEmpty(descs, cached, dirty);
      AllFlushed(blk, maxBlk, flash, logical, descs);
    }

    /**
     `bh_check_cb`: the timer. A block that is still dirty was so before, and has been left alone for one
     tick more.
     */
    method Tick()
      requires Valid()
      modifies this`flash, this`descs, this`cached, this`dirty, this`age
      ensures Valid() && |descs| == |old(descs)|
      ensures forall i | 0 <= i < |descs| && descs[i].state == Dirty ::
                i in old(dirty) && i < |old(age)| && i < |age| && age[i] == old(age)[i] + 1
      ensures AllAlone(old(descs), old(age), descs, age, 1)
    {
      hide Sound, Aged, Ripe;
      ghost var list, was := dirty, descs;
      SyncLocked(period);
      WaitingExactly(was, list, period);
    }

    /** A dirty block has been left alone for less than the hold time, counted in ticks. */
    lemma DirtyIsYoung(i: nat)
      requires Valid() && i < |descs| && descs[i].state == Dirty
      ensures i in dirty && i < |age| && age[i] * period < holdTime
    {
      hide Sound;
    }

    // ---- obtaining a block ----

    /** Searches one list for a block. */
    method FindIn(list: seq<nat>, d: nat, b: nat) returns (p: Option<nat>)
      requires forall j | 0 <= j < |list| :: list[j] < |descs|
      ensures p.Some? ==> p.value < |list| && IsFor(descs[list[p.value]], d, b)
      ensures p.None? ==> forall j | 0 <= j < |list| :: !IsFor(descs[list[j]], d, b)
    {
      var k := 0;
      while k < |list|
        invariant k <= |list|
        invariant forall j | 0 <= j < k :: !IsFor(descs[list[j]], d, b)
      {
        if descs[list[k]].dd == Some(d) && descs[list[k]].blkno == b {
          return Some(k);
        }
        k := k + 1;
      }
      p := None;
    }

    /** `bh_search_locked`: the descriptor of the block, or a clean one for it. */
    method Search(d: nat, b: nat) returns (i: nat)
      requires Valid() && InRange(d, b)
      modifies this`flash, this`descs, this`cached, this`dirty, this`age
      ensures Busy(i, d, b) && |descs| == |old(descs)|
      ensures Known(old(descs), d, b) ==> descs == old(descs) && flash == old(flash) && age == old(age)
      ensures !Known(old(descs), d, b) ==> descs[i].state == Invalid
      ensures Undisturbed(old(descs), old(age), descs, age, i)
    {
      hide Sound, Aged, Listed;
      OnLists(descs, cached, dirty);
      AgesFit(descs, dirty, age, period, holdTime);
      var p := FindIn(cached, d, b);
      if p.Some? {
        i := cached[p.value];
        TakenOff(descs, cached, dirty, p.value, true);
        cached := Drop(cached, p.value);
        return;
      }
      var q := FindIn(dirty, d, b);
      if q.Some? {
        i := dirty[q.value];
        TakenOff(descs, cached, dirty, q.value, false);
        AgedDropped(descs, dirty, age, period, holdTime, q.value);
        dirty := Drop(dirty, q.value);
        return;
      }
      NowhereKnown(descs, cached, dirty, d, b);
      i := Victim(d, b);
    }

    /** A clean descriptor for a block that has none; if there is no clean one, everything is flushed first. */
    method Victim(d: nat, b: nat) returns (i: nat)
      requires Valid() && InRange(d, b) && !Known(descs, d, b)
      modifies this`flash, this`descs, this`cached, this`dirty, this`age
      ensures Busy(i, d, b) && |descs| == |old(descs)| && descs[i].state == Invalid
      ensures Undisturbed(old(descs), old(age), descs, age, i)
    {
      hide Sound, Aged, Listed, Waiting, Ripe, Scanned;
      AgesFit(descs, dirty, age, period, holdTime);
      if cached == [] {
        ghost var was, list := descs, dirty;
        ShapesKept(blk, maxBlk, flash, logical, descs);
        SyncLocked(holdTime);
        ShapesKept(blk, maxBlk, flash, logical, descs);
        StillUnknown(was, descs, list, d, b, holdTime);
        NotEmpty(descs, cached, dirty);
      }
      TakenOff(descs, cached, dirty, 0, true);
      ghost var before := descs;
      i := cached[0];
      OnLists(descs, cached, dirty);
      cached := Drop(cached, 0);
      ReuseKeeps(blk, maxBlk, flash, logical, descs, i, d, b);
      descs := descs[i := descs[i].(dd := Some(d), blkno := b, state := Invalid)];
      OneChanged(before, descs, cached, dirty, age, period, holdTime, i);
    }

    /** `bh_read`: the block with its contents. */
    method ReadBlock(d: nat, b: nat) returns (i: nat)
      requires Valid() && InRange(d, b)
      modifies this`flash, this`descs, this`cached, this`dirty, this`age
      ensures Busy(i, d, b) && |descs| == |old(descs)| && descs[i].state != Invalid
      ensures Undisturbed(old(descs), old(age), descs, age, i)
    {
      hide Sound, Aged, Listed, Known;
      i := Search(d, b);
      if descs[i].state == Invalid {
        Located(i, d, b);
        var ofs := b * blk[d];
        var buffer := flash[d][ofs..ofs + blk[d]] + descs[i].buffer[blk[d]..];
        assert buffer[..blk[d]] == flash[d][ofs..ofs + blk[d]];
        FetchKeeps(blk, maxBlk, flash, logical, descs, i, buffer);
        ghost var before := descs;
        descs := descs[i := descs[i].(state := Cached, buffer := buffer)];
        OneChanged(before, descs, cached, dirty, age, period, holdTime, i);
      }
    }

    /** Where a descriptor in use belongs to. */
    lemma Located(i: nat, d: nat, b: nat)
      requires Busy(i, d, b)
      ensures d < |blk| == |flash| == |logical| && |flash[d]| == |logical[d]| && b * blk[d] + blk[d] <= |flash[d]|
      ensures 0 < blk[d] <= maxBlk == |descs[i].buffer| && OnDevice(blk, maxBlk, logical, descs[i])
      ensures descs[i].state != Invalid ==> descs[i].buffer[..blk[d]] == logical[d][b * blk[d]..b * blk[d] + blk[d]]
    {
      hide Listed, Aged, Unique, Flushed;
      assert OnDevice(blk, maxBlk, logical, descs[i]) && Holds(blk, maxBlk, logical, descs[i]);
    }

    // ---- giving a block back ----

    method EnqueueDirty(i: nat)
      requires Kept(Some(i)) && i < |descs| && descs[i].state == Dirty
      modifies this`descs, this`dirty, this`age
      ensures Valid() && i < |old(age)| && descs == old(descs)[i := old(descs)[i].(hold := holdTime)] && age == old(age)[i := 0]
    {
      hide Sound, Aged, Listed;
      AgesFit(descs, dirty, age, period, holdTime);
      HoldOnly(blk, maxBlk, flash, logical, descs, i, holdTime);
      NotListed(descs, cached, dirty, i);
      AgedAppended(descs, dirty, age, period, holdTime, i);
      ghost var before := descs;
      descs := descs[i := descs[i].(hold := holdTime)];
      ListedSame(before, descs, cached, dirty, i);
      PutBack(descs, cached, dirty, i);
      dirty := dirty + [i];
      age := age[i := 0];
    }

    /** `bh_release`: a dirty block goes back to the dirty list, and its time starts anew. */
    method Release(i: nat, ghost d: nat, ghost b: nat)
      requires Busy(i, d, b) && descs[i].state != Invalid
      modifies this`descs, this`cached, this`dirty, this`age
      ensures Valid() && |descs| == |old(descs)| && Undisturbed(old(descs), old(age), descs, age, i)
      ensures i < |age| && descs[i].state == old(descs)[i].state && (descs[i].state == Dirty ==> age[i] == 0)
      ensures IsFor(descs[i], d, b)
    {
      hide Sound, Aged, Listed;
      AgesFit(descs, dirty, age, period, holdTime);
      if descs[i].state == Dirty {
        EnqueueDirty(i);
      } else {
        PutBack(descs, cached, dirty, i);
        cached := cached + [i];
      }
    }

    /** The copy into the buffer, and `bh_release_modified`. */
    method WriteInto(i: nat, ghost d: nat, ghost b: nat, ghost at: nat, size: nat, ofs: nat, x: seq<byte>)
      requires Busy(i, d, b) && d < |blk| && size == blk[d] && ofs + |x| <= size && (descs[i].state != Invalid || |x| == size)
      requires at == b * size + ofs && d < |logical| && at + |x| <= |logical[d]|
      modifies this`descs, this`dirty, this`age, this`logical
      ensures Valid() && |descs| == |old(descs)| && Undisturbed(old(descs), old(age), descs, age, i)
      ensures logical == Changed(old(logical), d, at, x)
      ensures i < |age| && descs[i].state == Dirty && age[i] == 0 && IsFor(descs[i], d, b)
    {
      hide Sound, Aged, Listed, Patch;
      AgesFit(descs, dirty, age, period, holdTime);
      Located(i, d, b);
      WriteKeeps(blk, maxBlk, flash, logical, descs, i, ofs, x);
      ghost var before := descs;
      logical := logical[d := Patch(logical[d], at, x)];
      descs := descs[i := descs[i].(state := Dirty, buffer := Patch(descs[i].buffer, ofs, x))];
      OneChanged(before, descs, cached, dirty, age, period, holdTime, i);
      EnqueueDirty(i);
    }

    // ---- the interface ----

    /** One turn of the loop of `blkdev_write`: a block that is written whole is not read first. */
    method WriteChunk(d: nat, blkno: nat, blkofs: nat, size: nat, rest: seq<byte>, ghost base: nat) returns (bytes: nat)
      requires Valid() && d < |blk| && size == blk[d] && InRange(d, blkno) && base == blkno * size && blkofs < size && rest != []
      requires d < |logical| && base + blkofs + |rest| <= |logical[d]|
      modifies this`flash, this`descs, this`cached, this`dirty, this`age, this`logical
      ensures Valid() && |descs| == |old(descs)| && 0 < bytes <= |rest| && (bytes < |rest| ==> blkofs + bytes == size)
      ensures logical == Changed(old(logical), d, base + blkofs, rest[..bytes])
      ensures forall from: nat, to: nat | from <= base + blkofs < to :: LeftAlone(old(descs), old(age), descs, age, size, d, from, to)
    {
      hide Sound, Aged, Listed, Patch, Known, Changed, Undisturbed;
      var i;
      if blkofs == 0 && |rest| >= size {
        i := Search(d, blkno);
      } else {
        i := ReadBlock(d, blkno);
      }
      bytes := size - blkofs;
      if bytes > |rest| {
        bytes := |rest|;
      }
      ghost var mid, agesMid := descs, age;
      WriteInto(i, d, blkno, base + blkofs, size, blkofs, rest[..bytes]);
      OneBlockUsed(old(descs), old(age), mid, agesMid, descs, age, i, d, blkno, size, base + blkofs);
    }

    /** `blkdev_write`: callers see the new bytes, and no others change. */
    method Write(d: nat, src: seq<byte>, offset: nat) returns (written: nat)
      requires Valid() && d < |blk| && d < |logical| && offset + |src| <= |logical[d]|
      modifies this`flash, this`descs, this`cached, this`dirty, this`age, this`logical
      ensures Valid() && |descs| == |old(descs)| && written == |src|
      ensures logical == Changed(old(logical), d, offset, src)
      ensures LeftAlone(old(descs), old(age), descs, age, blk[d], d, offset, offset + |src|)
    {
      hide Sound, Aged, Listed, Patch, Changed, LeftAlone;
      var size := blk[d];
      ShapesKept(blk, maxBlk, flash, logical, descs);
      var blkno: nat, blkofs: nat := offset / size, offset % size;
      ghost var before, base, was, ages := logical, blkno * size, descs, age;
      var pos := 0;
      NobodyUsed(descs, dirty, age, period, holdTime, size, d, offset, offset + |src|);
      NothingChanged(logical, d, offset);
      assert src[..0] == [];
      while pos < |src|
        invariant Valid() && |descs| == |old(descs)|
        invariant pos <= |src| && blkofs < size && base == blkno * size && (pos < |src| ==> base + blkofs == offset + pos)
        invariant logical == Changed(before, d, offset, src[..pos])
        invariant LeftAlone(was, ages, descs, age, size, d, offset, offset + |src|)
      {
        ghost var mid, agesMid := descs, age;
        WithinDevice(blk, maxBlk, flash, logical, descs, before, d, offset, src[..pos], blkno, blkofs, base);
        var bytes := WriteChunk(d, blkno, blkofs, size, src[pos..], base);
        assert src[pos..][..bytes] == src[pos..pos + bytes];
        ChangedFurther(before, d, offset, src, pos, bytes);
        AloneStill(was, ages, mid, agesMid, descs, age, size, d, offset, offset + |src|);
        NextBlock(blkno, size);
        pos := pos + bytes;
        blkofs := 0;
        blkno := blkno + 1;
        base := base + size;
      }
      assert src[..pos] == src;
      written := pos;
    }

    /** One turn of the loop of `blkdev_read`. */
    method ReadChunk(d: nat, blkno: nat, blkofs: nat, size: nat, rest: nat, ghost base: nat) returns (chunk: seq<byte>)
      requires Valid() && d < |blk| && size == blk[d] && InRange(d, blkno) && base == blkno * size && blkofs < size && rest > 0
      requires d < |logical| && base + blkofs + rest <= |logical[d]|
      modifies this`flash, this`descs, this`cached, this`dirty, this`age
      ensures Valid() && |descs| == |old(descs)| && 0 < |chunk| <= rest && (|chunk| < rest ==> blkofs + |chunk| == size)
      ensures chunk == logical[d][base + blkofs..base + blkofs + |chunk|]
      ensures forall from: nat, to: nat | from <= base + blkofs < to :: LeftAlone(old(descs), old(age), descs, age, size, d, from, to)
    {
      hide Sound, Aged, Listed, Undisturbed;
      var i := ReadBlock(d, blkno);
      ghost var mid, agesMid := descs, age;
      Located(i, d, blkno);
      var bytes := size - blkofs;
      if bytes > rest {
        bytes := rest;
      }
      chunk := descs[i].buffer[blkofs..blkofs + bytes];
      ReadFurther(logical[d], descs[i].buffer, base, size, blkofs, bytes);
      Release(i, d, blkno);
      OneBlockUsed(old(descs), old(age), mid, agesMid, descs, age, i, d, blkno, size, base + blkofs);
    }

    /** `blkdev_read`: yields the last bytes written. */
    method Read(d: nat, size: nat, offset: nat) returns (dst: seq<byte>)
      requires Valid() && d < |blk| && d < |logical| && offset + size <= |logical[d]|
      modifies this`flash, this`descs, this`cached, this`dirty, this`age
      ensures Valid() && |descs| == |old(descs)|
      ensures dst == logical[d][offset..offset + size]
      ensures LeftAlone(old(descs), old(age), descs, age, blk[d], d, offset, offset + size)
    {
      hide Sound, Aged, Listed, Patch, Changed, LeftAlone;
      var blkSize := blk[d];
      ShapesKept(blk, maxBlk, flash, logical, descs);
      var blkno: nat, blkofs: nat := offset / blkSize, offset % blkSize;
      ghost var base, was, ages := blkno * blkSize, descs, age;
      dst := [];
      NobodyUsed(descs, dirty, age, period, holdTime, blkSize, d, offset, offset + size);
      NothingChanged(logical, d, offset);
      while |dst| < size
        invariant Valid() && |descs| == |old(descs)|
        invariant |dst| <= size && blkofs < blkSize && base == blkno * blkSize && (|dst| < size ==> base + blkofs == offset + |dst|)
        invariant dst == logical[d][offset..offset + |dst|]
        invariant LeftAlone(was, ages, descs, age, blkSize, d, offset, offset + size)
      {
        ghost var mid, agesMid := descs, age;
        WithinDevice(blk, maxBlk, flash, logical, descs, logical, d, offset, [], blkno, blkofs, base);
        var chunk := ReadChunk(d, blkno, blkofs, blkSize, size - |dst|, base);
        AloneStill(was, ages, mid, agesMid, descs, age, blkSize, d, offset, offset + size);
        NextBlock(blkno, blkSize);
        dst := dst + chunk;
        blkofs := 0;
        blkno := blkno + 1;
        base := base + blkSize;
      }
    }

    // ---- runs ----

    /** Any one call of a client, or a tick of the timer. */
    method Serve(call: Call) returns (answer: seq<byte>)
      requires Valid() && InDevice(logical, call)
      modifies this`flash, this`descs, this`cached, this`dirty, this`age, this`logical
      ensures Valid() && logical == FlatAfter(old(logical), call) && answer == FlatAnswer(old(logical), call)
      ensures Spared(blk, old(descs), old(age), descs, age, call)
    {
      hide Sound, Aged, Listed, Changed, LeftAlone, AllAlone;
      answer := [];
      ghost var was, before := descs, age;
      ShapesKept(blk, maxBlk, flash, logical, descs);
      match call {
        case Reading(d, offset, size) =>
          answer := Read(d, size, offset);
          SparedOutside(blk, was, before, descs, age, call, offset + size);
        case Writing(d, offset, src) =>
          var written := Write(d, src, offset);
          SparedOutside(blk, was, before, descs, age, call, offset + |src|);
        case Syncing =>
          Sync();
        case Ticking =>
          Tick();
          SparedAll(blk, was, before, descs, age);
      }
    }

    /**
     Any run of reads, writes, syncs and ticks: the cache answers like flat arrays of bytes, and every block that
     nobody has read or written for so many ticks as make up the hold time is on flash.
     */
    method ServeAll(calls: seq<Call>) returns (answers: seq<seq<byte>>)
      requires Valid() && InDevices(logical, calls)
      modifies this`flash, this`descs, this`cached, this`dirty, this`age, this`logical
      ensures Valid() && logical == FlatRun(old(logical), calls) && answers == FlatAnswers(old(logical), calls)
      ensures forall d: nat, b: nat | d < |blk| && Idle(blk, calls, d, b) * period >= holdTime :: OnFlash(d, b)
    {
      hide Sound, Aged, Listed, FlatAfter, FlatAnswer, Spared, Idle, InDevice;
      answers := [];
      var n := 0;
      ghost var flat := logical;
      NothingIdle(blk, descs, age, dirty, period, holdTime);
      while n < |calls|
        invariant n <= |calls| && Valid()
        invariant logical == FlatRun(flat, calls[..n]) && answers == FlatAnswers(flat, calls[..n])
        invariant IdleAtLeast(blk, descs, age, calls[..n])
      {
        ghost var was, before := descs, age;
        OneCallMore(flat, calls, n);
        SameDevices(flat, calls[..n]);
        var answer := Serve(calls[n]);
        answers := answers + [answer];
        AgesFit(descs, dirty, age, period, holdTime);
        OneCallIdle(blk, was, before, descs, age, calls, n);
        n := n + 1;
      }
      assert calls[..n] == calls;
      forall d: nat, b: nat | d < |blk| && Idle(blk, calls, d, b) * period >= holdTime ensures OnFlash(d, b) {
        IdleIsFlushed(calls, d, b);
      }
    }

    /** Flash holds what callers see of the block. */
    ghost predicate OnFlash(d: nat, b: nat)
      reads this
    {
      d < |blk| == |flash| == |logical| && b * blk[d] + blk[d] <= |flash[d]| == |logical[d]| ==>
        && flash[d][b * blk[d]..b * blk[d] + blk[d]] == logical[d][b * blk[d]..b * blk[d] + blk[d]]
        && forall i | 0 <= i < |descs| && IsFor(descs[i], d, b) :: descs[i].state != Dirty
    }

    lemma IdleIsFlushed(calls: seq<Call>, d: nat, b: nat)
      requires Valid() && d < |blk| && IdleAtLeast(blk, descs, age, calls) && Idle(blk, calls, d, b) * period >= holdTime
      ensures OnFlash(d, b)
    {
      hide Sound, Aged, Listed, Idle;
      forall i | 0 <= i < |descs| && IsFor(descs[i], d, b) ensures descs[i].state != Dirty {
        if descs[i].state == Dirty {
          DirtyIsYoung(i);
          ProductAtLeast(period, age[i], Idle(blk, calls, d, b));
        }
      }
      BlockFlushed(blk, maxBlk, flash, logical, descs, d, b);
    }
  }

  /** A block without a dirty descriptor is on flash. */
  lemma BlockFlushed(blk: seq<nat>, maxBlk: nat, flash: seq<seq<byte>>, logical: seq<seq<byte>>, descs: seq<Desc>, d: nat, b: nat)
    requires Sound(blk, maxBlk, flash, logical, descs) && d < |blk|
    requires forall i | 0 <= i < |descs| && IsFor(descs[i], d, b) :: descs[i].state != Dirty
    ensures b * blk[d] + blk[d] <= |flash[d]| ==>
              flash[d][b * blk[d]..b * blk[d] + blk[d]] == logical[d][b * blk[d]..b * blk[d] + blk[d]]
  {
    var at, size := b * blk[d], blk[d];
    if at + size <= |flash[d]| {
      forall a: nat | at <= a < at + size ensures flash[d][a] == logical[d][a] {
        forall i | 0 <= i < |descs| && descs[i].state == Dirty ensures !Covers(blk, descs[i], d, a) {
          if Covers(blk, descs[i], d, a) {
            BlocksApart(descs[i].blkno, b, size);
          }
        }
        assert !DirtyAt(blk, descs, d, a);
      }
    }
  }

  // ---- what a run looks like to callers ----

  datatype Call =
    | Reading(d: nat, offset: nat, size: nat)
    | Writing(d: nat, offset: nat, src: seq<byte>)
    | Syncing
    | Ticking
  {
    predicate HasRange() { Reading? || Writing? }

    /** The end of the range that is read or written. */
    function End(): nat
      requires HasRange()
    {
      offset + if Reading? then size else |src|
    }
  }

  predicate InDevice(logical: seq<seq<byte>>, call: Call) {
    call.HasRange() ==> call.d < |logical| && call.End() <= |logical[call.d]|
  }

  predicate InDevices(logical: seq<seq<byte>>, calls: seq<Call>) {
    forall n | 0 <= n < |calls| :: InDevice(logical, calls[n])
  }

  /** Flat arrays of bytes: a write changes its range, and nothing else changes anything. */
  function FlatAfter(logical: seq<seq<byte>>, call: Call): seq<seq<byte>> {
    if call.Writing? then Changed(logical, call.d, call.offset, call.src) else logical
  }

  function FlatAnswer(logical: seq<seq<byte>>, call: Call): seq<byte> {
    if call.Reading? && InDevice(logical, call) then logical[call.d][call.offset..call.End()] else []
  }

  function FlatRun(logical: seq<seq<byte>>, calls: seq<Call>): seq<seq<byte>> {
    if calls == [] then logical else FlatAfter(FlatRun(logical, calls[..|calls| - 1]), calls[|calls| - 1])
  }

  function FlatAnswers(logical: seq<seq<byte>>, calls: seq<Call>): seq<seq<byte>> {
    if calls == [] then []
    else
      var before := calls[..|calls| - 1];
      FlatAnswers(logical, before) + [FlatAnswer(FlatRun(logical, before), calls[|calls| - 1])]
  }

  /** The call reads or writes some of the block. */
  predicate Uses(blk: seq<nat>, call: Call, d: nat, b: nat) {
    && call.HasRange() && call.d == d < |blk|
    && call.offset < call.End() && call.offset < b * blk[d] + blk[d] && b * blk[d] < call.End()
  }

  /** For how many ticks nobody has read or written any of the block. */
  function Idle(blk: seq<nat>, calls: seq<Call>, d: nat, b: nat): nat {
    if calls == [] then 0
    else
      var call := calls[|calls| - 1];
      if Uses(blk, call, d, b) then 0
      else Idle(blk, calls[..|calls| - 1], d, b) + (if call.Ticking? then 1 else 0)
  }

  /** A dirty block that the call does not use was dirty before, with the same contents, and ages with the ticks. */
  ghost predicate Spared(blk: seq<nat>, was: seq<Desc>, before: seq<nat>, descs: seq<Desc>, age: seq<nat>, call: Call) {
    && |descs| == |was|
    && forall j | 0 <= j < |descs| && descs[j].state == Dirty && descs[j].dd.Some? && !Uses(blk, call, descs[j].dd.value, descs[j].blkno) ::
         && was[j] == descs[j].(hold := was[j].hold)
         && j < |before| && j < |age| && age[j] == before[j] + if call.Ticking? then 1 else 0
  }

  lemma SparedOutside(blk: seq<nat>, was: seq<Desc>, before: seq<nat>, descs: seq<Desc>, age: seq<nat>, call: Call, end: nat)
    requires call.HasRange() && end == call.End() && call.d < |blk|
    requires LeftAlone(was, before, descs, age, blk[call.d], call.d, call.offset, end)
    ensures Spared(blk, was, before, descs, age, call)
  {
  }

  lemma SparedAll(blk: seq<nat>, was: seq<Desc>, before: seq<nat>, descs: seq<Desc>, age: seq<nat>)
    requires AllAlone(was, before, descs, age, 1)
    ensures Spared(blk, was, before, descs, age, Ticking)
  {
  }

  /** The ages that the cache keeps account of are at least the times that the blocks have been idle for. */
  ghost predicate IdleAtLeast(blk: seq<nat>, descs: seq<Desc>, age: seq<nat>, calls: seq<Call>) {
    && |age| == |descs|
    && forall j | 0 <= j < |descs| && descs[j].state == Dirty && descs[j].dd.Some? ::
         age[j] >= Idle(blk, calls, descs[j].dd.value, descs[j].blkno)
  }

  lemma NothingIdle(blk: seq<nat>, descs: seq<Desc>, age: seq<nat>, dirty: seq<nat>, period: nat, holdTime: nat)
    requires Aged(descs, dirty, age, period, holdTime)
    ensures IdleAtLeast(blk, descs, age, [])
  {
  }

  lemma OneCallIdle(blk: seq<nat>, was: seq<Desc>, before: seq<nat>, descs: seq<Desc>, age: seq<nat>, calls: seq<Call>, n: nat)
    requires n < |calls| && IdleAtLeast(blk, was, before, calls[..n]) && Spared(blk, was, before, descs, age, calls[n])
    requires |age| == |descs|
    ensures IdleAtLeast(blk, descs, age, calls[..n + 1])
  {
    assert calls[..n + 1][..n] == calls[..n];
    forall j | 0 <= j < |descs| && descs[j].state == Dirty && descs[j].dd.Some?
      ensures age[j] >= Idle(blk, calls[..n + 1], descs[j].dd.value, descs[j].blkno)
    {
      if !Uses(blk, calls[n], descs[j].dd.value, descs[j].blkno) {
        assert was[j].dd == descs[j].dd && was[j].blkno == descs[j].blkno;
      }
    }
  }

  lemma OneCallMore(flat: seq<seq<byte>>, calls: seq<Call>, n: nat)
    requires n < |calls|
    ensures FlatRun(flat, calls[..n + 1]) == FlatAfter(FlatRun(flat, calls[..n]), calls[n])
    ensures FlatAnswers(flat, calls[..n + 1]) == FlatAnswers(flat, calls[..n]) + [FlatAnswer(FlatRun(flat, calls[..n]), calls[n])]
  {
    assert calls[..n + 1][..n] == calls[..n];
  }

  lemma {:induction false} SameDevices(flat: seq<seq<byte>>, calls: seq<Call>)
    ensures |FlatRun(flat, calls)| == |flat| && forall d | 0 <= d < |flat| :: |FlatRun(flat, calls)[d]| == |flat[d]|
    ensures forall call :: InDevice(FlatRun(flat, calls), call) == InDevice(flat, call)
  {
    if calls != [] {
      SameDevices(flat, calls[..|calls| - 1]);
    }
  }

  lemma NextBlock(blkno: nat, size: nat)
    ensures (blkno + 1) * size == blkno * size + size
  {
  }

  lemma NothingChanged(logical: seq<seq<byte>>, d: nat, at: nat)
    ensures Changed(logical, d, at, []) == logical
  {
    if d < |logical| && at <= |logical[d]| {
      assert Patch(logical[d], at, []) == logical[d];
    }
  }

  /** The block that holds the next byte lies on the device. */
  lemma WithinDevice(blk: seq<nat>, maxBlk: nat, flash: seq<seq<byte>>, logical: seq<seq<byte>>, descs: seq<Desc>,
                     before: seq<seq<byte>>, d: nat, offset: nat, done: seq<byte>, blkno: nat, blkofs: nat, base: nat)
    requires Sound(blk, maxBlk, flash, logical, descs) && d < |blk| && d < |before| && logical == Changed(before, d, offset, done)
    requires base == blkno * blk[d] && base + blkofs < |before[d]| && blkofs < blk[d]
    ensures d < |flash| == |blk| == |logical| && |flash[d]| == |logical[d]| == |before[d]| && blkno * blk[d] + blk[d] <= |flash[d]|
  {
    var n, size := |flash[d]|, blk[d];
    var q := n / size;
    assert n == q * size;
    if blkno >= q {
      ProductAtLeast(size, blkno, q);
    } else {
      Scaled(blkno, q, size);
    }
  }

  lemma ChangedFurther(before: seq<seq<byte>>, d: nat, offset: nat, src: seq<byte>, pos: nat, bytes: nat)
    requires d < |before| && offset + |src| <= |before[d]| && pos + bytes <= |src|
    ensures Changed(Changed(before, d, offset, src[..pos]), d, offset + pos, src[pos..pos + bytes]) == Changed(before, d, offset, src[..pos + bytes])
  {
    var x, y := Patch(Patch(before[d], offset, src[..pos]), offset + pos, src[pos..pos + bytes]), Patch(before[d], offset, src[..pos + bytes]);
    assert x == y;
  }

  lemma ReadFurther(s: seq<byte>, buffer: seq<byte>, base: nat, size: nat, blkofs: nat, bytes: nat)
    requires base + size <= |s| && size <= |buffer| && buffer[..size] == s[base..base + size] && blkofs + bytes <= size
    ensures buffer[blkofs..blkofs + bytes] == s[base + blkofs..base + blkofs + bytes]
  {
    var block, p, q := s[base..base + size], buffer[blkofs..blkofs + bytes], s[base + blkofs..base + blkofs + bytes];
    forall k | 0 <= k < bytes ensures p[k] == q[k] {
      assert buffer[..size][blkofs + k] == block[blkofs + k];
    }
  }

  /** What callers see after some bytes of a device are written. */
  function Changed(logical: seq<seq<byte>>, d: nat, at: nat, x: seq<byte>): seq<seq<byte>> {
    if d < |logical| && at + |x| <= |logical[d]| then logical[d := Patch(logical[d], at, x)] else logical
  }

  predicate IsFor(s: Desc, d: nat, b: nat) {
    s.dd == Some(d) && s.blkno == b
  }

  ghost predicate Known(descs: seq<Desc>, d: nat, b: nat) {
    exists i :: 0 <= i < |descs| && IsFor(descs[i], d, b)
  }

  /** Every dirty block other than `i` was dirty before, with the same contents, and is no younger. */
  ghost predicate Undisturbed(was: seq<Desc>, before: seq<nat>, descs: seq<Desc>, age: seq<nat>, i: nat) {
    |descs| == |was| && forall j | 0 <= j < |descs| && j != i && descs[j].state == Dirty ::
      was[j] == descs[j] && j < |before| && j < |age| && age[j] == before[j]
  }

  /** The block of the descriptor lies, at least in part, between two positions on a device. */
  predicate Meets(s: Desc, size: nat, d: nat, from: nat, to: nat) {
    s.dd == Some(d) && from < to && from < s.blkno * size + size && s.blkno * size < to
  }

  /** Every dirty block outside the range was dirty before, with the same contents, and is no younger. */
  ghost predicate LeftAlone(was: seq<Desc>, before: seq<nat>, descs: seq<Desc>, age: seq<nat>, size: nat, d: nat, from: nat, to: nat) {
    |descs| == |was| && forall j | 0 <= j < |descs| && descs[j].state == Dirty && !Meets(descs[j], size, d, from, to) ::
      was[j] == descs[j] && j < |before| && j < |age| && age[j] == before[j]
  }

  /** Every dirty block was dirty before, with the same contents, and is older by some ticks. */
  ghost predicate AllAlone(was: seq<Desc>, before: seq<nat>, descs: seq<Desc>, age: seq<nat>, ticks: nat) {
    |descs| == |was| && forall j | 0 <= j < |descs| && descs[j].state == Dirty ::
      was[j] == descs[j].(hold := was[j].hold) && j < |before| && j < |age| && age[j] == before[j] + ticks
  }

  lemma OneBlockUsed(was: seq<Desc>, before: seq<nat>, mid: seq<Desc>, agesMid: seq<nat>, descs: seq<Desc>, age: seq<nat>,
                     i: nat, d: nat, b: nat, size: nat, at: nat)
    requires Undisturbed(was, before, mid, agesMid, i) && Undisturbed(mid, agesMid, descs, age, i)
    requires i < |descs| && IsFor(descs[i], d, b) && b * size <= at < b * size + size
    ensures forall from: nat, to: nat | from <= at < to :: LeftAlone(was, before, descs, age, size, d, from, to)
  {
  }

  lemma NobodyUsed(descs: seq<Desc>, dirty: seq<nat>, age: seq<nat>, period: nat, holdTime: nat,
                   size: nat, d: nat, from: nat, to: nat)
    requires Aged(descs, dirty, age, period, holdTime)
    ensures LeftAlone(descs, age, descs, age, size, d, from, to)
  {
  }

  lemma AloneStill(was: seq<Desc>, before: seq<nat>, mid: seq<Desc>, agesMid: seq<nat>, descs: seq<Desc>, age: seq<nat>,
                   size: nat, d: nat, from: nat, to: nat)
    requires LeftAlone(was, before, mid, agesMid, size, d, from, to) && LeftAlone(mid, agesMid, descs, age, size, d, from, to)
    ensures LeftAlone(was, before, descs, age, size, d, from, to)
  {
    hide Meets;
  }

  ghost predicate Older(before: seq<nat>, age: seq<nat>, dirty: seq<nat>) {
    forall i | i in dirty :: i < |before| && i < |age| && age[i] == before[i] + 1
  }

  lemma OnLists(descs: seq<Desc>, cached: seq<nat>, dirty: seq<nat>)
    requires Listed(descs, cached, dirty, None)
    ensures Separate(dirty) && Separate(cached)
    ensures forall j | 0 <= j < |cached| :: cached[j] < |descs| && descs[cached[j]].state != Dirty
    ensures forall j | 0 <= j < |dirty| :: dirty[j] < |descs| && descs[dirty[j]].state == Dirty
    ensures forall x | x in dirty :: x < |descs|
  {
    forall j | 0 <= j < |cached| ensures cached[j] < |descs| && descs[cached[j]].state != Dirty {
      assert cached[j] in cached;
    }
    forall j | 0 <= j < |dirty| ensures dirty[j] < |descs| && descs[dirty[j]].state == Dirty {
      assert dirty[j] in dirty;
    }
  }

  lemma NowhereKnown(descs: seq<Desc>, cached: seq<nat>, dirty: seq<nat>, d: nat, b: nat)
    requires Listed(descs, cached, dirty, None)
    requires forall j | 0 <= j < |cached| && cached[j] < |descs| :: !IsFor(descs[cached[j]], d, b)
    requires forall j | 0 <= j < |dirty| && dirty[j] < |descs| :: !IsFor(descs[dirty[j]], d, b)
    ensures !Known(descs, d, b)
  {
    hide IsFor;
    forall i | 0 <= i < |descs| ensures !IsFor(descs[i], d, b) {
      if i in cached {
        var j :| 0 <= j < |cached| && cached[j] == i;
      } else {
        var j :| 0 <= j < |dirty| && dirty[j] == i;
      }
    }
  }

  lemma AgesFit(descs: seq<Desc>, dirty: seq<nat>, age: seq<nat>, period: nat, holdTime: nat)
    requires Aged(descs, dirty, age, period, holdTime)
    ensures |age| == |descs|
  {
  }

  /** The descriptor in use may change in any way. */
  lemma OneChanged(descs: seq<Desc>, descs': seq<Desc>, cached: seq<nat>, dirty: seq<nat>, age: seq<nat>, period: nat, holdTime: nat, i: nat)
    requires Listed(descs, cached, dirty, Some(i)) && Aged(descs, dirty, age, period, holdTime) && |descs'| == |descs|
    requires forall j | 0 <= j < |descs| && j != i :: descs'[j] == descs[j]
    ensures Listed(descs', cached, dirty, Some(i)) && Aged(descs', dirty, age, period, holdTime)
  {
    ListedSame(descs, descs', cached, dirty, i);
    NotListed(descs, cached, dirty, i);
    AgedSame(descs, descs', dirty, age, period, holdTime, i);
  }

  lemma NotListed(descs: seq<Desc>, cached: seq<nat>, dirty: seq<nat>, i: nat)
    requires Listed(descs, cached, dirty, Some(i))
    ensures i !in dirty && i !in cached
  {
  }

  lemma NotEmpty(descs: seq<Desc>, cached: seq<nat>, dirty: seq<nat>)
    requires Listed(descs, cached, dirty, None) && dirty == [] && |descs| > 0
    ensures cached != [] && forall j | 0 <= j < |descs| :: descs[j].state != Dirty
  {
    assert 0 in cached;
  }

  /** A flush changes no descriptor's block. */
  lemma StillUnknown(was: seq<Desc>, descs: seq<Desc>, list: seq<nat>, d: nat, b: nat, expired: nat)
    requires Scanned(was, descs, list, |list|, expired) && !Known(was, d, b)
    ensures !Known(descs, d, b)
  {
    forall i | 0 <= i < |descs| ensures !IsFor(descs[i], d, b) {
      assert !IsFor(was[i], d, b);
    }
  }

  lemma ShapesKept(blk: seq<nat>, maxBlk: nat, flash: seq<seq<byte>>, logical: seq<seq<byte>>, descs: seq<Desc>)
    requires Sound(blk, maxBlk, flash, logical, descs)
    ensures |flash| == |logical| == |blk| && forall d | 0 <= d < |blk| :: |flash[d]| == |logical[d]| && 0 < blk[d] <= maxBlk
  {
  }

  /** A flush that has looked at the first `n` dirty descriptors; those that stay are the first `pos` of the list. */
  ghost predicate Midway(was: seq<Desc>, list: seq<nat>, clean: seq<nat>, before: seq<nat>,
                         descs: seq<Desc>, cached: seq<nat>, dirty: seq<nat>, age: seq<nat>, n: nat, pos: nat, expired: nat)
    requires n <= |list|
  {
    && Separate(list) && (forall x | x in list :: x < |was|) && |before| == |age| == |was|
    && pos == |Waiting(was, list[..n], expired)| && dirty == Waiting(was, list[..n], expired) + list[n..]
    && cached == clean + Ripe(was, list[..n], expired)
    && Scanned(was, descs, list, n, expired) && Staggered(descs, dirty, pos, expired)
    && forall i | 0 <= i < |age| :: age[i] == if i in dirty[..pos] then before[i] + 1 else before[i]
  }

  ghost predicate Separate(list: seq<nat>) {
    forall i, j | 0 <= i < j < |list| :: list[i] != list[j]
  }

  lemma SyncStarts(was: seq<Desc>, list: seq<nat>, clean: seq<nat>, before: seq<nat>, expired: nat)
    requires Separate(list) && (forall x | x in list :: x < |was|) && |before| == |was|
    ensures Midway(was, list, clean, before, was, clean, list, before, 0, 0, expired)
  {
    assert list[..0] == [] && [] + list[0..] == list && clean + [] == clean;
  }

  lemma SyncedDef(s: Desc, expired: nat)
    ensures Synced(s, expired) == if s.hold > expired then s.(hold := s.hold - expired) else s.(state := Cached)
  {
  }

  lemma SyncGoesOn(was: seq<Desc>, list: seq<nat>, clean: seq<nat>, before: seq<nat>,
                   descs: seq<Desc>, cached: seq<nat>, dirty: seq<nat>, age: seq<nat>, n: nat, pos: nat, expired: nat)
    requires n <= |list| && Midway(was, list, clean, before, descs, cached, dirty, age, n, pos, expired) && pos < |dirty|
    ensures n < |list| && dirty[pos] == list[n] < |descs| && dirty[pos] in dirty && descs[list[n]] == was[list[n]]
    ensures Staggered(descs, dirty, pos, expired) && |age| == |descs|
  {
    assert n < |list| && list[n] in list;
    SplitList(list, n, Waiting(was, list[..n], expired));
    OffTheRest(list, n);
    ScannedOne(was, descs, list, n, expired);
  }

  lemma SyncWaiting(was: seq<Desc>, list: seq<nat>, clean: seq<nat>, before: seq<nat>,
                 descs: seq<Desc>, cached: seq<nat>, dirty: seq<nat>, age: seq<nat>, n: nat, pos: nat, expired: nat,
                 descs': seq<Desc>, age': seq<nat>)
    requires n < |list| && Midway(was, list, clean, before, descs, cached, dirty, age, n, pos, expired) && pos < |dirty|
    requires list[n] < |descs| && list[n] < |age| && descs[list[n]].hold > expired
    requires descs' == descs[list[n] := Synced(descs[list[n]], expired)] && age' == age[list[n] := age[list[n]] + 1]
    requires Staggered(descs', dirty, pos + 1, expired)
    ensures Midway(was, list, clean, before, descs', cached, dirty, age', n + 1, pos + 1, expired)
  {
    SyncGoesOn(was, list, clean, before, descs, cached, dirty, age, n, pos, expired);
    var kept := Waiting(was, list[..n], expired);
    SplitList(list, n, kept);
    OffTheRest(list, n);
    ScannedOne(was, descs, list, n, expired);
    hide Scanned, Staggered, Synced;
    var ripe := Ripe(was, list[..n], expired);
    assert Ripe(was, list[..n + 1], expired) == ripe + [] == ripe;
    NextWaiting(was, list, dirty, age, before, n, pos, expired);
  }

  lemma SyncFlushed(was: seq<Desc>, list: seq<nat>, clean: seq<nat>, before: seq<nat>,
                    descs: seq<Desc>, cached: seq<nat>, dirty: seq<nat>, age: seq<nat>, n: nat, pos: nat, expired: nat,
                    descs': seq<Desc>)
    requires n < |list| && Midway(was, list, clean, before, descs, cached, dirty, age, n, pos, expired) && pos < |dirty|
    requires list[n] < |descs| && descs[list[n]].hold <= expired
    requires descs' == descs[list[n] := Synced(descs[list[n]], expired)]
    ensures Midway(was, list, clean, before, descs', cached + [list[n]], Drop(dirty, pos), age, n + 1, pos, expired)
  {
    SyncGoesOn(was, list, clean, before, descs, cached, dirty, age, n, pos, expired);
    var kept := Waiting(was, list[..n], expired);
    SplitList(list, n, kept);
    OffTheRest(list, n);
    ScannedOne(was, descs, list, n, expired);
    SeparateAll(was, list, dirty, n, expired);
    StaggeredFlush(descs, dirty, pos, expired);
    hide Scanned, Staggered;
    assert Drop(dirty, pos)[..pos] == dirty[..pos];
    RipeNext(was, list, n, clean, expired);
  }

  lemma RipeNext(was: seq<Desc>, list: seq<nat>, n: nat, clean: seq<nat>, expired: nat)
    requires n < |list| && list[n] < |was| && was[list[n]].hold <= expired
    ensures clean + Ripe(was, list[..n + 1], expired) == (clean + Ripe(was, list[..n], expired)) + [list[n]]
    ensures Waiting(was, list[..n + 1], expired) == Waiting(was, list[..n], expired)
  {
    SplitList(list, n, []);
    assert Waiting(was, list[..n], expired) + [] == Waiting(was, list[..n], expired);
  }

  lemma NextWaiting(was: seq<Desc>, list: seq<nat>, dirty: seq<nat>, age: seq<nat>, before: seq<nat>, n: nat, pos: nat, expired: nat)
    requires n < |list| && Separate(list) && list[n] < |was| == |age| == |before| && was[list[n]].hold > expired
    requires pos == |Waiting(was, list[..n], expired)| && dirty == Waiting(was, list[..n], expired) + list[n..]
    requires forall i | 0 <= i < |age| :: age[i] == if i in dirty[..pos] then before[i] + 1 else before[i]
    ensures Waiting(was, list[..n + 1], expired) == Waiting(was, list[..n], expired) + [list[n]]
    ensures var age' := age[list[n] := age[list[n]] + 1];
            forall i | 0 <= i < |age| :: age'[i] == if i in dirty[..pos + 1] then before[i] + 1 else before[i]
  {
    SplitList(list, n, Waiting(was, list[..n], expired));
    WaitingExactly(was, list[..n], expired);
    OffTheRest(list, n);
    assert dirty[..pos + 1] == dirty[..pos] + [list[n]];
    assert dirty[..pos] == Waiting(was, list[..n], expired);
  }

  lemma SeparateAll(was: seq<Desc>, list: seq<nat>, dirty: seq<nat>, n: nat, expired: nat)
    requires n <= |list| && Separate(list) && dirty == Waiting(was, list[..n], expired) + list[n..]
    ensures Separate(dirty)
  {
    WaitingSeparate(was, list[..n], expired);
    WaitingExactly(was, list[..n], expired);
    var kept := Waiting(was, list[..n], expired);
    forall i, j | 0 <= i < j < |dirty| ensures dirty[i] != dirty[j] {
      if i < |kept| <= j {
        assert kept[i] in kept && kept[i] in list[..n];
      }
    }
  }

  lemma {:induction false} WaitingSeparate(was: seq<Desc>, list: seq<nat>, expired: nat)
    requires Separate(list)
    ensures Separate(Waiting(was, list, expired))
  {
    if list != [] {
      WaitingSeparate(was, list[..|list| - 1], expired);
      WaitingExactly(was, list[..|list| - 1], expired);
    }
  }

  lemma SyncEnds(was: seq<Desc>, list: seq<nat>, clean: seq<nat>, before: seq<nat>,
                 descs: seq<Desc>, cached: seq<nat>, dirty: seq<nat>, age: seq<nat>, n: nat, pos: nat, expired: nat)
    requires n <= |list| && Midway(was, list, clean, before, descs, cached, dirty, age, n, pos, expired) && pos >= |dirty|
    ensures cached == clean + Ripe(was, list, expired) && dirty == Waiting(was, list, expired)
    ensures Scanned(was, descs, list, |list|, expired)
    ensures Older(before, age, dirty) && pos == |dirty|
  {
    var kept := Waiting(was, list[..n], expired);
    assert |dirty| == |kept| + (|list| - n);
    assert list[..n] == list && kept + list[n..] == kept;
    assert dirty[..pos] == dirty;
    WaitingExactly(was, list, expired);
  }

  lemma LowerListed(descs: seq<Desc>, cached: seq<nat>, dirty: seq<nat>, pos: nat, hold: int)
    requires Listed(descs, cached, dirty, None) && pos < |dirty|
    ensures var i := dirty[pos]; i < |descs| && Listed(descs[i := descs[i].(hold := hold)], cached, dirty, None)
    ensures Separate(dirty)
  {
    assert dirty[pos] in dirty;
  }

  lemma StaggeredFlush(descs: seq<Desc>, dirty: seq<nat>, pos: nat, expired: nat)
    requires Staggered(descs, dirty, pos, expired) && pos < |dirty| && dirty[pos] < |descs|
    requires forall i, j | 0 <= i < j < |dirty| :: dirty[i] != dirty[j]
    ensures var i := dirty[pos]; Staggered(descs[i := descs[i].(state := Cached)], Drop(dirty, pos), pos, expired)
  {
    StaggeredDropped(descs, dirty, pos, expired);
  }

  lemma OffTheRest(list: seq<nat>, n: nat)
    requires n < |list| && forall i, j | 0 <= i < j < |list| :: list[i] != list[j]
    ensures list[n] !in list[..n]
  {
  }

  lemma SplitList(list: seq<nat>, n: nat, kept: seq<nat>)
    requires n < |list|
    ensures var all := kept + list[n..];
            && all[|kept|] == list[n]
            && Drop(all, |kept|) == kept + list[n + 1..]
            && all == (kept + [list[n]]) + list[n + 1..]
            && list[..n + 1][..n] == list[..n] && list[..n + 1][n] == list[n]
  {
  }

  lemma ErasedPatch(s: seq<byte>, at: nat, x: seq<byte>)
    requires at + |x| <= |s|
    ensures var e := Patch(s, at, seq(|x|, _ => 0xff));
            && (forall a | at <= a < at + |x| :: e[a] == 0xff)
            && Patch(e, at, x) == Patch(s, at, x)
  {
  }
}
