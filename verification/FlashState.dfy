/**
 What the write-back flash cache keeps at all times between two operations: a few descriptors on two
 lists, some flash devices, and the contents that callers see.
 */
module FlashState {
  import opened Arithmetic
  import opened Basics
  import opened Bytes

  datatype State = Invalid | Dirty | Cached

  datatype Desc = Desc(dd: Option<nat>, blkno: nat, state: State, hold: int, buffer: seq<byte>)

  /** Byte `a` of device `d` lies in the block that the descriptor is for. */
  predicate Covers(blk: seq<nat>, s: Desc, d: nat, a: nat) {
    d < |blk| && s.dd == Some(d) && s.blkno * blk[d] <= a < s.blkno * blk[d] + blk[d]
  }

  predicate SameBlock(s: Desc, t: Desc) {
    s.dd.Some? && s.dd == t.dd && s.blkno == t.blkno
  }

  ghost predicate Shapes(blk: seq<nat>, maxBlk: nat, flash: seq<seq<byte>>, logical: seq<seq<byte>>) {
    && |flash| == |blk| && |logical| == |blk|
    && forall d | 0 <= d < |blk| :: 1 <= blk[d] <= maxBlk && |logical[d]| == |flash[d]| && |flash[d]| % blk[d] == 0
  }

  /** The block of the descriptor lies on its device. */
  ghost predicate OnDevice(blk: seq<nat>, maxBlk: nat, logical: seq<seq<byte>>, s: Desc) {
    && |s.buffer| == maxBlk
    && (s.dd.Some? ==>
          && s.dd.value < |blk| && |logical| == |blk| && blk[s.dd.value] <= maxBlk
          && s.blkno * blk[s.dd.value] + blk[s.dd.value] <= |logical[s.dd.value]|)
    && (s.dd.None? ==> s.state == Invalid)
  }

  /** A descriptor with contents holds what callers see. */
  ghost predicate Holds(blk: seq<nat>, maxBlk: nat, logical: seq<seq<byte>>, s: Desc)
    requires OnDevice(blk, maxBlk, logical, s)
  {
    s.state != Invalid ==>
      var d := s.dd.value;
      s.buffer[..blk[d]] == logical[d][s.blkno * blk[d]..s.blkno * blk[d] + blk[d]]
  }

  ghost predicate Tied(blk: seq<nat>, maxBlk: nat, logical: seq<seq<byte>>, descs: seq<Desc>) {
    forall i | 0 <= i < |descs| :: OnDevice(blk, maxBlk, logical, descs[i]) && Holds(blk, maxBlk, logical, descs[i])
  }

  /** No block has two descriptors. */
  ghost predicate Unique(descs: seq<Desc>) {
    forall i, j | 0 <= i < j < |descs| :: !SameBlock(descs[i], descs[j])
  }

  ghost predicate DirtyAt(blk: seq<nat>, descs: seq<Desc>, d: nat, a: nat) {
    exists i :: 0 <= i < |descs| && descs[i].state == Dirty && Covers(blk, descs[i], d, a)
  }

  /** Where no descriptor is dirty, flash holds what callers see. */
  ghost predicate Flushed(blk: seq<nat>, flash: seq<seq<byte>>, logical: seq<seq<byte>>, descs: seq<Desc>)
    requires |flash| == |logical| == |blk|
  {
    forall d, a: nat | 0 <= d < |blk| && a < |flash[d]| && a < |logical[d]| && !DirtyAt(blk, descs, d, a) ::
      flash[d][a] == logical[d][a]
  }

  /** Every descriptor, except one that is in use, is on exactly one list; a dirty one on the dirty list. */
  ghost predicate Listed(descs: seq<Desc>, cached: seq<nat>, dirty: seq<nat>, out: Option<nat>) {
    && (forall i, j | 0 <= i < j < |cached| :: cached[i] != cached[j])
    && (forall i, j | 0 <= i < j < |dirty| :: dirty[i] != dirty[j])
    && (forall i | i in cached :: i < |descs| && descs[i].state != Dirty && out != Some(i))
    && (forall i | i in dirty :: i < |descs| && descs[i].state == Dirty && out != Some(i))
    && (forall i | 0 <= i < |descs| && out != Some(i) :: i in cached || i in dirty)
    && (forall i | 0 <= i < |descs| && out != Some(i) && descs[i].state == Invalid :: descs[i].dd.None?)
  }

  /** How long a dirty block is still held says how many ticks it has been left alone; the oldest come first. */
  ghost predicate Aged(descs: seq<Desc>, dirty: seq<nat>, age: seq<nat>, period: nat, holdTime: nat) {
    && |age| == |descs|
    && (forall i | i in dirty && i < |descs| :: descs[i].hold == holdTime - age[i] * period && descs[i].hold > 0)
    && (forall i, j | 0 <= i < j < |dirty| && dirty[i] < |descs| && dirty[j] < |descs| :: descs[dirty[i]].hold <= descs[dirty[j]].hold)
  }

  /** What holds even while a descriptor is in use. */
  ghost predicate Sound(blk: seq<nat>, maxBlk: nat, flash: seq<seq<byte>>, logical: seq<seq<byte>>, descs: seq<Desc>) {
    && Shapes(blk, maxBlk, flash, logical) && Tied(blk, maxBlk, logical, descs) && Unique(descs)
    && Flushed(blk, flash, logical, descs)
  }

  // ---- lemmas about blocks ----

  /** Two blocks of one device are the same or apart. */
  lemma BlocksApart(a: nat, b: nat, size: nat)
    requires size > 0 && a != b
    ensures a * size + size <= b * size || b * size + size <= a * size
  {
    if a < b {
      Scaled(a, b, size);
    } else {
      Scaled(b, a, size);
    }
  }

  lemma OneBlock(blk: seq<nat>, s: Desc, t: Desc, d: nat, a: nat)
    requires d < |blk| && Covers(blk, s, d, a) && Covers(blk, t, d, a)
    ensures SameBlock(s, t)
  {
    if s.blkno != t.blkno {
      BlocksApart(s.blkno, t.blkno, blk[d]);
    }
  }

  /** A change of one block is seen in that block only. */
  lemma OtherBlocks(s: seq<byte>, at: nat, x: seq<byte>, b: nat, size: nat)
    requires at + |x| <= |s| && b + size <= |s| && (b + size <= at || at + |x| <= b)
    ensures Patch(s, at, x)[b..b + size] == s[b..b + size]
  {
    var p, q := Patch(s, at, x)[b..b + size], s[b..b + size];
    forall k | 0 <= k < size ensures p[k] == q[k] {
      assert Patch(s, at, x)[b + k] == s[b + k];
    }
  }

  /** A change of one descriptor leaves what the others cover. */
  lemma OthersDirty(blk: seq<nat>, descs: seq<Desc>, descs': seq<Desc>, i: nat, d: nat, a: nat)
    requires |descs'| == |descs| && i < |descs| && forall j | 0 <= j < |descs| && j != i :: descs'[j] == descs[j]
    ensures DirtyAt(blk, descs, d, a) ==> DirtyAt(blk, descs', d, a) || (descs[i].state == Dirty && Covers(blk, descs[i], d, a))
  {
    if DirtyAt(blk, descs, d, a) {
      var j :| 0 <= j < |descs| && descs[j].state == Dirty && Covers(blk, descs[j], d, a);
      assert j != i ==> descs'[j].state == Dirty && Covers(blk, descs'[j], d, a);
    }
  }

  lemma NoOtherDirty(blk: seq<nat>, descs: seq<Desc>, i: nat, d: nat, a: nat)
    requires Unique(descs) && i < |descs| && descs[i].state != Dirty && Covers(blk, descs[i], d, a)
    ensures !DirtyAt(blk, descs, d, a)
  {
    forall j | 0 <= j < |descs| && descs[j].state == Dirty ensures !Covers(blk, descs[j], d, a) {
      assert if i < j then !SameBlock(descs[i], descs[j]) else !SameBlock(descs[j], descs[i]);
      if Covers(blk, descs[j], d, a) {
        OneBlock(blk, descs[i], descs[j], d, a);
      }
    }
  }

  // ---- writing a dirty block to flash ----

  /** Flash gets the block of a dirty descriptor, which is then clean. */
  lemma FlushKeeps(blk: seq<nat>, maxBlk: nat, flash: seq<seq<byte>>, logical: seq<seq<byte>>, descs: seq<Desc>, i: nat)
    requires Sound(blk, maxBlk, flash, logical, descs) && i < |descs| && descs[i].state == Dirty
    ensures var d := descs[i].dd.value;
            && descs[i].dd.Some? && d < |flash| && descs[i].blkno * blk[d] + blk[d] <= |flash[d]| && blk[d] <= |descs[i].buffer|
            && var flash' := flash[d := Patch(flash[d], descs[i].blkno * blk[d], descs[i].buffer[..blk[d]])];
               var descs' := descs[i := descs[i].(state := Cached)];
               Sound(blk, maxBlk, flash', logical, descs')
  {
    assert OnDevice(blk, maxBlk, logical, descs[i]) && Holds(blk, maxBlk, logical, descs[i]);
    var d := descs[i].dd.value;
    var at := descs[i].blkno * blk[d];
    var flash' := flash[d := Patch(flash[d], at, descs[i].buffer[..blk[d]])];
    var descs' := descs[i := descs[i].(state := Cached)];
    forall e, a: nat | 0 <= e < |blk| && a < |flash'[e]| && a < |logical[e]| && !DirtyAt(blk, descs', e, a)
      ensures flash'[e][a] == logical[e][a]
    {
      OthersDirty(blk, descs, descs', i, e, a);
      if Covers(blk, descs[i], e, a) {
        assert descs[i].buffer[..blk[d]][a - at] == logical[d][at..at + blk[d]][a - at];
      }
    }
    forall j, k | 0 <= j < k < |descs'| ensures !SameBlock(descs'[j], descs'[k]) {
      assert !SameBlock(descs[j], descs[k]);
    }
    forall j | 0 <= j < |descs'| ensures OnDevice(blk, maxBlk, logical, descs'[j]) && Holds(blk, maxBlk, logical, descs'[j]) {
      assert OnDevice(blk, maxBlk, logical, descs[j]) && Holds(blk, maxBlk, logical, descs[j]);
    }
  }

  // ---- reusing a descriptor ----

  /** A clean descriptor may be given to a block that nobody has. */
  lemma ReuseKeeps(blk: seq<nat>, maxBlk: nat, flash: seq<seq<byte>>, logical: seq<seq<byte>>, descs: seq<Desc>, i: nat, d: nat, b: nat)
    requires Sound(blk, maxBlk, flash, logical, descs) && i < |descs| && descs[i].state != Dirty
    requires d < |blk| && b * blk[d] + blk[d] <= |flash[d]|
    requires forall j | 0 <= j < |descs| :: descs[j].dd != Some(d) || descs[j].blkno != b
    ensures var descs' := descs[i := descs[i].(dd := Some(d), blkno := b, state := Invalid)];
            Sound(blk, maxBlk, flash, logical, descs')
  {
    var descs' := descs[i := descs[i].(dd := Some(d), blkno := b, state := Invalid)];
    assert OnDevice(blk, maxBlk, logical, descs[i]);
    StillFlushed(blk, flash, logical, descs, descs', i);
    forall j, k | 0 <= j < k < |descs'| ensures !SameBlock(descs'[j], descs'[k]) {
      assert !SameBlock(descs[j], descs[k]);
    }
    forall j | 0 <= j < |descs'| ensures OnDevice(blk, maxBlk, logical, descs'[j]) && Holds(blk, maxBlk, logical, descs'[j]) {
      assert OnDevice(blk, maxBlk, logical, descs[j]) && Holds(blk, maxBlk, logical, descs[j]);
    }
  }

  lemma StillFlushed(blk: seq<nat>, flash: seq<seq<byte>>, logical: seq<seq<byte>>, descs: seq<Desc>, descs': seq<Desc>, i: nat)
    requires |flash| == |logical| == |blk| && Flushed(blk, flash, logical, descs)
    requires |descs'| == |descs| && i < |descs| && descs[i].state != Dirty
    requires forall j | 0 <= j < |descs| && j != i :: descs'[j] == descs[j]
    ensures Flushed(blk, flash, logical, descs')
  {
    forall d, a: nat | 0 <= d < |blk| && a < |flash[d]| && a < |logical[d]| && !DirtyAt(blk, descs', d, a)
      ensures flash[d][a] == logical[d][a]
    {
      OthersDirty(blk, descs, descs', i, d, a);
    }
  }

  /** A block read from flash is what callers see, since no dirty descriptor is for it. */
  lemma FetchKeeps(blk: seq<nat>, maxBlk: nat, flash: seq<seq<byte>>, logical: seq<seq<byte>>, descs: seq<Desc>, i: nat, buffer: seq<byte>)
    requires Sound(blk, maxBlk, flash, logical, descs) && i < |descs| && descs[i].state == Invalid && descs[i].dd.Some?
    requires |buffer| == maxBlk && OnDevice(blk, maxBlk, logical, descs[i])
    requires var d := descs[i].dd.value;
             buffer[..blk[d]] == flash[d][descs[i].blkno * blk[d]..descs[i].blkno * blk[d] + blk[d]]
    ensures var descs' := descs[i := descs[i].(state := Cached, buffer := buffer)];
            Sound(blk, maxBlk, flash, logical, descs')
  {
    var d := descs[i].dd.value;
    var at := descs[i].blkno * blk[d];
    var descs' := descs[i := descs[i].(state := Cached, buffer := buffer)];
    StillFlushed(blk, flash, logical, descs, descs', i);
    forall a | at <= a < at + blk[d] ensures flash[d][a] == logical[d][a] {
      NoOtherDirty(blk, descs, i, d, a);
    }
    assert buffer[..blk[d]] == logical[d][at..at + blk[d]];
    forall j, k | 0 <= j < k < |descs'| ensures !SameBlock(descs'[j], descs'[k]) {
      assert !SameBlock(descs[j], descs[k]);
    }
    forall j | 0 <= j < |descs'| ensures OnDevice(blk, maxBlk, logical, descs'[j]) && Holds(blk, maxBlk, logical, descs'[j]) {
      assert OnDevice(blk, maxBlk, logical, descs[j]) && Holds(blk, maxBlk, logical, descs[j]);
    }
  }

  // ---- writing into a descriptor ----

  /** Bytes written into a descriptor, whose block is complete afterwards, change what callers see. */
  lemma WriteKeeps(blk: seq<nat>, maxBlk: nat, flash: seq<seq<byte>>, logical: seq<seq<byte>>, descs: seq<Desc>, i: nat, ofs: nat, x: seq<byte>)
    requires Sound(blk, maxBlk, flash, logical, descs) && i < |descs| && descs[i].dd.Some? && OnDevice(blk, maxBlk, logical, descs[i])
    requires var d := descs[i].dd.value; ofs + |x| <= blk[d] && (descs[i].state != Invalid || |x| == blk[d])
    ensures var d := descs[i].dd.value;
            var at := descs[i].blkno * blk[d] + ofs;
            && at + |x| <= |logical[d]| && ofs + |x| <= |descs[i].buffer|
            && var logical' := logical[d := Patch(logical[d], at, x)];
               var descs' := descs[i := descs[i].(state := Dirty, buffer := Patch(descs[i].buffer, ofs, x))];
               Sound(blk, maxBlk, flash, logical', descs')
  {
    var d := descs[i].dd.value;
    var base := descs[i].blkno * blk[d];
    var logical' := logical[d := Patch(logical[d], base + ofs, x)];
    var descs' := descs[i := descs[i].(state := Dirty, buffer := Patch(descs[i].buffer, ofs, x))];
    WriteFlushed(blk, flash, logical, descs, logical', descs', i, base + ofs, x);
    forall j, k | 0 <= j < k < |descs'| ensures !SameBlock(descs'[j], descs'[k]) {
      assert !SameBlock(descs[j], descs[k]);
    }
    WriteTied(blk, maxBlk, flash, logical, descs, i, ofs, x);
    hide Tied, Flushed;
  }

  /** The bytes that change are those of a block that is dirty from now on. */
  lemma WriteFlushed(blk: seq<nat>, flash: seq<seq<byte>>, logical: seq<seq<byte>>, descs: seq<Desc>,
                     logical': seq<seq<byte>>, descs': seq<Desc>, i: nat, at: nat, x: seq<byte>)
    requires |flash| == |logical| == |blk| && Flushed(blk, flash, logical, descs) && i < |descs| == |descs'| && descs[i].dd.Some?
    requires var d := descs[i].dd.value;
             && d < |blk| && descs[i].blkno * blk[d] <= at && at + |x| <= descs[i].blkno * blk[d] + blk[d] && at + |x| <= |logical[d]|
             && logical' == logical[d := Patch(logical[d], at, x)]
    requires descs'[i].state == Dirty && descs'[i].dd == descs[i].dd && descs'[i].blkno == descs[i].blkno
    requires forall j | 0 <= j < |descs| && j != i :: descs'[j] == descs[j]
    ensures |logical'| == |blk| && Flushed(blk, flash, logical', descs')
  {
    forall e, a: nat | 0 <= e < |blk| && a < |flash[e]| && a < |logical'[e]| && !DirtyAt(blk, descs', e, a)
      ensures flash[e][a] == logical'[e][a]
    {
      assert !Covers(blk, descs'[i], e, a);
      OthersDirty(blk, descs, descs', i, e, a);
    }
  }

  /** The written descriptor holds the block with the new bytes in it. */
  lemma WrittenHolds(block: seq<byte>, buffer: seq<byte>, at: nat, size: nat, ofs: nat, x: seq<byte>)
    requires at + size <= |block| && size <= |buffer| && ofs + |x| <= size
    requires buffer[..size] == block[at..at + size] || |x| == size
    ensures Patch(buffer, ofs, x)[..size] == Patch(block, at + ofs, x)[at..at + size]
  {
    var p, q := Patch(buffer, ofs, x)[..size], Patch(block, at + ofs, x)[at..at + size];
    forall k | 0 <= k < size ensures p[k] == q[k] {
      if !(ofs <= k < ofs + |x|) {
        assert buffer[..size][k] == block[at..at + size][k];
      }
    }
  }

  lemma OtherHolds(blk: seq<nat>, maxBlk: nat, logical: seq<seq<byte>>, s: Desc, t: Desc, ofs: nat, x: seq<byte>)
    requires s.dd.Some? && OnDevice(blk, maxBlk, logical, s) && OnDevice(blk, maxBlk, logical, t) && Holds(blk, maxBlk, logical, t)
    requires !SameBlock(s, t) && ofs + |x| <= blk[s.dd.value] && blk[s.dd.value] > 0
    ensures s.dd.value < |logical| && s.blkno * blk[s.dd.value] + ofs + |x| <= |logical[s.dd.value]|
    ensures var d := s.dd.value;
            var logical' := logical[d := Patch(logical[d], s.blkno * blk[d] + ofs, x)];
            OnDevice(blk, maxBlk, logical', t) && Holds(blk, maxBlk, logical', t)
  {
    var d := s.dd.value;
    if t.dd == Some(d) {
      BlocksApart(s.blkno, t.blkno, blk[d]);
      OtherBlocks(logical[d], s.blkno * blk[d] + ofs, x, t.blkno * blk[d], blk[d]);
    }
  }

  lemma WrittenTied(blk: seq<nat>, maxBlk: nat, logical: seq<seq<byte>>, s: Desc, ofs: nat, x: seq<byte>)
    requires s.dd.Some? && OnDevice(blk, maxBlk, logical, s) && Holds(blk, maxBlk, logical, s)
    requires var d := s.dd.value; ofs + |x| <= blk[d] && (s.state != Invalid || |x| == blk[d])
    ensures var d := s.dd.value;
            var logical' := logical[d := Patch(logical[d], s.blkno * blk[d] + ofs, x)];
            var s' := s.(state := Dirty, buffer := Patch(s.buffer, ofs, x));
            OnDevice(blk, maxBlk, logical', s') && Holds(blk, maxBlk, logical', s')
  {
    hide Patch;
    var d := s.dd.value;
    WrittenHolds(logical[d], s.buffer, s.blkno * blk[d], blk[d], ofs, x);
  }

  /** Any descriptor, after a write into descriptor `i`. */
  lemma TiedAfterWrite(blk: seq<nat>, maxBlk: nat, logical: seq<seq<byte>>, descs: seq<Desc>, i: nat, j: nat, ofs: nat, x: seq<byte>)
    requires Tied(blk, maxBlk, logical, descs) && Unique(descs) && i < |descs| && j < |descs| && descs[i].dd.Some?
    requires descs[i].dd.value < |blk| && blk[descs[i].dd.value] > 0
    requires var d := descs[i].dd.value; ofs + |x| <= blk[d] && (descs[i].state != Invalid || |x| == blk[d])
    ensures var d := descs[i].dd.value;
            && d < |logical| && descs[i].blkno * blk[d] + ofs + |x| <= |logical[d]| && ofs + |x| <= |descs[i].buffer|
            && var logical' := logical[d := Patch(logical[d], descs[i].blkno * blk[d] + ofs, x)];
               var t := if j == i then descs[i].(state := Dirty, buffer := Patch(descs[i].buffer, ofs, x)) else descs[j];
               OnDevice(blk, maxBlk, logical', t) && Holds(blk, maxBlk, logical', t)
  {
    hide Patch, SameBlock, Unique;
    assert OnDevice(blk, maxBlk, logical, descs[i]) && Holds(blk, maxBlk, logical, descs[i]);
    assert OnDevice(blk, maxBlk, logical, descs[j]) && Holds(blk, maxBlk, logical, descs[j]);
    if j == i {
      WrittenTied(blk, maxBlk, logical, descs[i], ofs, x);
    } else {
      Symmetric(descs, i, j);
      OtherHolds(blk, maxBlk, logical, descs[i], descs[j], ofs, x);
    }
  }

  lemma WriteTied(blk: seq<nat>, maxBlk: nat, flash: seq<seq<byte>>, logical: seq<seq<byte>>, descs: seq<Desc>, i: nat, ofs: nat, x: seq<byte>)
    requires Shapes(blk, maxBlk, flash, logical) && Tied(blk, maxBlk, logical, descs) && Unique(descs)
    requires i < |descs| && descs[i].dd.Some? && OnDevice(blk, maxBlk, logical, descs[i])
    requires var d := descs[i].dd.value; ofs + |x| <= blk[d] && (descs[i].state != Invalid || |x| == blk[d])
    ensures var d := descs[i].dd.value;
            var logical' := logical[d := Patch(logical[d], descs[i].blkno * blk[d] + ofs, x)];
            Tied(blk, maxBlk, logical', descs[i := descs[i].(state := Dirty, buffer := Patch(descs[i].buffer, ofs, x))])
  {
    var d := descs[i].dd.value;
    assert d < |blk| && blk[d] > 0;
    hide Patch, Holds, OnDevice, Unique, Shapes;
    forall j: nat | j < |descs| {
      TiedAfterWrite(blk, maxBlk, logical, descs, i, j, ofs, x);
    }
  }

  lemma Symmetric(descs: seq<Desc>, i: nat, j: nat)
    requires Unique(descs) && i < |descs| && j < |descs| && i != j
    ensures !SameBlock(descs[i], descs[j])
  {
    assert if i < j then !SameBlock(descs[i], descs[j]) else !SameBlock(descs[j], descs[i]);
  }

  // ---- counting down ----

  lemma HoldOnly(blk: seq<nat>, maxBlk: nat, flash: seq<seq<byte>>, logical: seq<seq<byte>>, descs: seq<Desc>, i: nat, hold: int)
    requires Sound(blk, maxBlk, flash, logical, descs) && i < |descs|
    ensures var descs' := descs[i := descs[i].(hold := hold)];
            Sound(blk, maxBlk, flash, logical, descs')
  {
    var descs' := descs[i := descs[i].(hold := hold)];
    forall d, a: nat | 0 <= d < |blk| && a < |flash[d]| && a < |logical[d]| && !DirtyAt(blk, descs', d, a)
      ensures flash[d][a] == logical[d][a]
    {
      OthersDirty(blk, descs, descs', i, d, a);
      assert descs[i].state == Dirty && Covers(blk, descs[i], d, a) ==> descs'[i].state == Dirty && Covers(blk, descs'[i], d, a);
    }
    forall j, k | 0 <= j < k < |descs'| ensures !SameBlock(descs'[j], descs'[k]) {
      assert !SameBlock(descs[j], descs[k]);
    }
    forall j | 0 <= j < |descs'| ensures OnDevice(blk, maxBlk, logical, descs'[j]) && Holds(blk, maxBlk, logical, descs'[j]) {
      assert OnDevice(blk, maxBlk, logical, descs[j]) && Holds(blk, maxBlk, logical, descs[j]);
    }
  }

  /** Without a dirty descriptor flash holds everything that callers see. */
  lemma AllFlushed(blk: seq<nat>, maxBlk: nat, flash: seq<seq<byte>>, logical: seq<seq<byte>>, descs: seq<Desc>)
    requires Sound(blk, maxBlk, flash, logical, descs) && forall i | 0 <= i < |descs| :: descs[i].state != Dirty
    ensures flash == logical
  {
    forall d, a: nat | 0 <= d < |blk| && a < |flash[d]| ensures flash[d][a] == logical[d][a] {
      assert !DirtyAt(blk, descs, d, a);
    }
    forall d | 0 <= d < |flash| ensures flash[d] == logical[d] {
    }
  }
}
