/** The circular log on flash: it keeps the last bytes that were put in. */
module DiskLog {
  import opened Arithmetic
  import opened Basics
  import opened Bytes
  import opened Ring

  const EINVAL: int := 22
  const EIO: int := 5
  const LOG_SIZE: nat := 1024

  /** The last bytes of some data, as many as fit. */
  function Last(s: seq<byte>, cap: nat): seq<byte> {
    s[|s| - Min(|s|, cap)..]
  }

  /** Byte `j` of the history lies `j` places behind the origin; the last round of bytes is still there. */
  ghost predicate Keeps(ring: seq<byte>, origin: nat, history: seq<byte>) {
    && |ring| > 0
    && forall j: nat | |history| <= j + |ring| && j < |history| :: ring[(origin + j) % |ring|] == history[j]
  }

  /** A piece of data that ends at the end of the ring, or before it, replaces the oldest bytes. */
  lemma KeepsMore(ring: seq<byte>, origin: nat, history: seq<byte>, x: seq<byte>, at: nat)
    requires Keeps(ring, origin, history) && at == (origin + |history|) % |ring| && at + |x| <= |ring|
    ensures Keeps(Patch(ring, at, x), origin, history + x)
  {
    var r, h, m := Patch(ring, at, x), history + x, |ring|;
    forall j: nat | |h| <= j + m && j < |h| ensures r[(origin + j) % m] == h[j] {
      var p := (origin + j) % m;
      if j >= |history| {
        var k := j - |history|;
        ModAdd(origin + |history|, k, m);
        Within(at + k, m);
        assert p == at + k;
      } else {
        Elsewhere(origin + j, origin + |history|, |x|, m);
      }
    }
  }

  /** A byte less than a turn before some position is not among the bytes written from there on. */
  lemma Elsewhere(old_: nat, pos: nat, n: nat, m: nat)
    requires m > 0 && old_ < pos && pos + n <= old_ + m && pos % m + n <= m
    ensures !(pos % m <= old_ % m < pos % m + n)
  {
    var k := old_ % m - pos % m;
    if 0 <= k < n {
      ModAdd(pos, k, m);
      Within(pos % m + k, m);
      Apart(old_, pos + k, m);
    }
  }

  /** Reading around the ring from the oldest byte yields the last bytes of the history in order. */
  lemma ReadsLast(ring: seq<byte>, origin: nat, history: seq<byte>, size: nat, at: nat)
    requires Keeps(ring, origin, history) && size == Min(|history|, |ring|)
    requires at == (origin + |history| - size) % |ring|
    ensures Slice(ring, at, size) == Last(history, |ring|)
  {
    var first := |history| - size;
    var p, q := Slice(ring, at, size), Last(history, |ring|);
    hide Keeps, At;
    forall k: nat | k < size ensures p[k] == q[k] {
      ReadsOne(ring, origin, history, first, k, at);
    }
  }

  lemma ReadsOne(ring: seq<byte>, origin: nat, history: seq<byte>, first: nat, k: nat, at: nat)
    requires Keeps(ring, origin, history) && first + k < |history| <= first + k + |ring| && at == (origin + first) % |ring|
    ensures At(ring, at, k) == history[first + k]
  {
    KeptAt(ring, origin, history, first + k);
    hide Keeps;
    Shifted(origin, first, k, |ring|);
  }

  lemma Shifted(a: nat, b: nat, k: nat, m: nat)
    requires m > 0
    ensures ((a + b) % m + k) % m == (a + (b + k)) % m
  {
    ModAdd(a + b, k, m);
  }

  lemma KeptAt(ring: seq<byte>, origin: nat, history: seq<byte>, j: nat)
    requires Keeps(ring, origin, history) && j < |history| <= j + |ring|
    ensures |ring| > 0 && ring[(origin + j) % |ring|] == history[j]
  {
  }

  /**
   The counter of the bytes that are kept is a machine word: a huge input may wrap it below the capacity.
   If it wraps to the capacity exactly, whole rounds must have been written for the oldest byte to be right.
   */
  predicate Counted(dSize: nat, n: nat, cap: nat)
    requires cap > 0
  {
    || dSize + n < U32
    || (dSize + n) % U32 > cap
    || ((dSize + n) % U32 == cap && (dSize + n) % cap == 0)
  }

  /** For example, a log of 8192 bytes that holds 4096 forgets all but 96 bytes of an input of almost 4 GiB. */
  lemma CounterWraps()
    ensures var n := U32 - 4000; (4096 + n) % U32 == 96 && !Counted(4096, n, 8192)
  {
  }

  class DiskLog {
    const start: nat
    const end: nat
    var flash: seq<byte>
    var wrOfs: nat
    var rdOfs: nat
    var dSize: nat
    ghost var history: seq<byte>
    ghost var origin: nat

    ghost predicate Placed()
      reads this
    {
      && start < end <= |flash| && end < U32 && start <= wrOfs < end
      && Keeps(flash[start..end], origin, history) && wrOfs - start == (origin + |history|) % (end - start)
    }

    /** All offsets are inside the log, whatever the counter says. */
    ghost predicate Sane()
      reads this
    {
      Placed() && start <= rdOfs < end && dSize <= end - start
    }

    ghost predicate Valid()
      reads this
    {
      && Placed() && start <= rdOfs < end && dSize == Min(|history|, end - start)
      && rdOfs - start == (origin + |history| - dSize) % (end - start)
    }

    /** The bytes that the offsets and the counter stand for. */
    ghost function Kept(): (s: seq<byte>)
      requires Sane() || Empty()
      reads this
      ensures |s| == dSize
    {
      if Empty() then [] else Slice(flash[start..end], rdOfs - start, dSize)
    }

    lemma KeptIsLast()
      requires Valid()
      ensures Sane() && Kept() == Last(history, end - start)
    {
      hide Keeps;
      ReadsLast(flash[start..end], origin, history, dSize, rdOfs - start);
    }

    /** The partition has no block for the log, which then holds nothing. */
    ghost predicate Empty()
      reads this
    {
      start == end == wrOfs == rdOfs && dSize == 0
    }

    /** `disklog_reset_locked`: the first block holds the header, and whole blocks behind it the log. */
    constructor (flash: seq<byte>, blksz: nat)
      requires 0 < blksz <= |flash| < U32
      ensures history == [] && this.flash == flash && start == blksz
      ensures end == blksz + (|flash| - blksz) / blksz * blksz
      ensures if |flash| >= 2 * blksz then Valid() else Empty()
    {
      var n := (|flash| - blksz) / blksz;
      WholeBlocks(|flash| - blksz, blksz);
      start := blksz;
      end := blksz + n * blksz;
      this.flash, wrOfs, rdOfs, dSize := flash, blksz, blksz, 0;
      history, origin := [], 0;
      new;
      if n > 0 {
        DivMod(0, end - start, 0);
      }
    }

    /**
     `disklog_input`, while the device works. A log without a block reports success and keeps nothing. In any other the
     offsets stay inside the log, and the last bytes are kept if and only if the counter does not wrap to a wrong value.
     */
    method Input(buf: seq<byte>) returns (r: int)
      requires Sane() || Empty()
      modifies this
      ensures |flash| == |old(flash)| && r == if buf == [] then -EINVAL else 0
      ensures old(Sane()) ==> Sane() && history == old(history) + buf
      ensures old(Valid()) ==> (Valid() <==> buf == [] || Counted(old(dSize), |buf|, end - start))
      ensures old(Empty()) ==> Empty() && flash == old(flash)
    {
      hide Keeps;
      if buf == [] {
        return -EINVAL;
      }
      if wrOfs == end {
        // a write of no bytes ends the loop
        return 0;
      }
      var pos := 0;
      ghost var was := history;
      assert was + buf[..0] == was;
      while pos < |buf|
        invariant pos <= |buf| && Placed() && |flash| == |old(flash)| && origin == old(origin)
        invariant history == was + buf[..pos]
        invariant rdOfs == old(rdOfs) && dSize == old(dSize)
      {
        var bytes := Min(end - wrOfs, |buf| - pos);
        WriteChunk(buf[pos..pos + bytes]);
        assert (was + buf[..pos]) + buf[pos..pos + bytes] == was + buf[..pos + bytes];
        pos := pos + bytes;
      }
      assert buf[..pos] == buf;
      Account(|buf|, was);
      r := 0;
    }

    /** The end of `disklog_input`: the counter of kept bytes follows, and the oldest byte is the next to go. */
    method Account(n: nat, ghost was: seq<byte>)
      requires Sane() && |history| == |was| + n && n > 0
      modifies this`dSize, this`rdOfs
      ensures Sane()
      ensures old(dSize == Min(|was|, end - start) && rdOfs - start == (origin + |was| - dSize) % (end - start)) ==>
                (Valid() <==> Counted(old(dSize), n, end - start))
    {
      hide Keeps, Counted;
      if dSize == Min(|was|, end - start) {
        CountedExactly(origin, |was|, dSize, n, end - start);
      }
      var count := (dSize + n) % U32;
      dSize := count;
      if dSize > end - start {
        dSize := end - start;
        rdOfs := wrOfs;
      }
    }

    /** One turn of the loop of `disklog_input`: as much as fits before the end. */
    method WriteChunk(x: seq<byte>)
      requires Placed() && |x| <= end - wrOfs && x != []
      modifies this`flash, this`wrOfs, this`history
      ensures Placed() && |flash| == |old(flash)| && history == old(history) + x
    {
      ghost var ring := flash[start..end];
      KeepsMore(ring, origin, history, x, wrOfs - start);
      Window(flash, start, end, wrOfs, x);
      NextPlace(origin, |history|, |x|, end - start);
      flash := Patch(flash, wrOfs, x);
      history := history + x;
      wrOfs := wrOfs + |x|;
      if wrOfs >= end {
        wrOfs := start;
      }
    }

    /** One turn of the loop of `disklog_ouput`. */
    method ReadChunk(ofs: nat, bytes: nat, ghost done: nat) returns (buffer: seq<byte>, next: nat)
      requires Sane() && start <= ofs && ofs + bytes <= end && done + bytes <= dSize && bytes > 0
      requires ofs - start == (rdOfs - start + done) % (end - start)
      ensures done + bytes <= |Kept()| && buffer == Kept()[done..done + bytes]
      ensures start <= next < end && next - start == (rdOfs - start + done + bytes) % (end - start)
    {
      hide Keeps;
      buffer := flash[ofs..ofs + bytes];
      Around(flash[start..end], rdOfs - start, dSize, done, bytes, ofs - start);
      InWindow(flash, start, end, ofs, bytes);
      NextPlace(rdOfs - start, done, bytes, end - start);
      next := ofs + bytes;
      if next >= end {
        next := start;
      }
    }

    /**
     `disklog_ouput`: hands the log to the callback in pieces, which `accepts` its first, second, … call or
     ends the output.
     */
    method Output(maxSize: nat, accepts: nat -> bool) returns (pieces: seq<seq<byte>>, r: int)
      requires Sane() || Empty()
      ensures var limit := if maxSize == 0 then LOG_SIZE else maxSize;
              forall i | 0 <= i < |pieces| :: 0 < |pieces[i]| <= limit
      ensures r == 0 ==> Joined(pieces) == Kept() && forall i: nat | i < |pieces| :: accepts(i)
      ensures r != 0 ==> r == -EIO && pieces != [] && !accepts(|pieces| - 1)
                         && Joined(pieces) <= Kept() && forall i: nat | i < |pieces| - 1 :: accepts(i)
      ensures Valid() ==> Kept() == Last(history, end - start)
    {
      hide Keeps, Kept, Joined, Last;
      if Valid() {
        KeptIsLast();
      }
      var limit := if maxSize == 0 then LOG_SIZE else maxSize;
      var left, ofs := dSize, rdOfs;
      ghost var all, done := Kept(), 0;
      pieces := [];
      NoPieces();
      if left > 0 {
        SmallOffset(rdOfs - start, end - start);
      }
      while left > 0
        invariant done + left == dSize == |all|
        invariant left > 0 ==> start <= ofs < end && ofs - start == (rdOfs - start + done) % (end - start)
        invariant Joined(pieces) == all[..done]
        invariant forall i | 0 <= i < |pieces| :: 0 < |pieces[i]| <= limit
        invariant forall i: nat | i < |pieces| :: accepts(i)
      {
        var bytes := Min(Min(end - ofs, left), limit);
        var buffer, next := ReadChunk(ofs, bytes, done);
        assert all[..done] + all[done..done + bytes] == all[..done + bytes];
        OnePieceMore(pieces, buffer);
        pieces := pieces + [buffer];
        if !accepts(|pieces| - 1) {
          return pieces, -EIO;
        }
        left := left - bytes;
        done := done + bytes;
        ofs := next;
      }
      assert all[..done] == all;
      r := 0;
    }
  }

  lemma NoPieces()
    ensures Joined([]) == []
  {
  }

  lemma OnePieceMore(pieces: seq<seq<byte>>, x: seq<byte>)
    ensures Joined(pieces + [x]) == Joined(pieces) + x
  {
    var all := pieces + [x];
    assert all[..|all| - 1] == pieces;
  }

  lemma SmallOffset(x: nat, turn: nat)
    requires x < turn
    ensures x % turn == x
  {
  }

  /** A piece of the ring that does not cross its end is a piece of what is read around it. */
  lemma Around(ring: seq<byte>, from: nat, size: nat, done: nat, n: nat, at: nat)
    requires |ring| > 0 && done + n <= size && at == (from + done) % |ring| && at + n <= |ring|
    ensures ring[at..at + n] == Slice(ring, from, size)[done..done + n]
  {
    var p, q := ring[at..at + n], Slice(ring, from, size)[done..done + n];
    forall k: nat | k < n ensures p[k] == q[k] {
      ModAdd(from + done, k, |ring|);
      SmallOffset(at + k, |ring|);
      assert q[k] == At(ring, from, done + k);
    }
  }

  function Joined(pieces: seq<seq<byte>>): seq<byte> {
    if pieces == [] then [] else Joined(pieces[..|pieces| - 1]) + pieces[|pieces| - 1]
  }

  lemma WholeBlocks(n: nat, blksz: nat)
    requires 0 < blksz
    ensures n / blksz * blksz <= n && (n >= blksz <==> n / blksz * blksz > 0) && (n >= blksz <==> n / blksz > 0)
  {
    var q := n / blksz;
    var r := n % blksz;
    assert n == q * blksz + r && r < blksz;
    if q > 0 {
      ProductAtLeast(blksz, q, 1);
    }
  }

  /** The new counter and read position, as the source computes them, are right if and only if the guard holds. */
  lemma CountedExactly(origin: nat, was: nat, d: nat, n: nat, cap: nat)
    requires 0 < cap && d == Min(was, cap) && n > 0
    ensures var c := (d + n) % U32;
            var rd := if c > cap then (origin + was + n) % cap else (origin + was - d) % cap;
            var d' := if c > cap then cap else c;
            Counted(d, n, cap) <==> d' == Min(was + n, cap) && rd == (origin + was + n - d') % cap
  {
    WordWraps(d, n);
    if d + n >= cap {
      Rounds(origin + was - d, d + n - cap, cap);
      Turned(0, d + n, cap);
      Turned(origin, was + n, cap);
    }
  }

  /** A full turn earlier is the same place. */
  lemma Turned(origin: nat, n: nat, turn: nat)
    requires turn > 0
    ensures n >= turn ==> (origin + n - turn) % turn == (origin + n) % turn
  {
    if n >= turn {
      ModShift(origin + n - turn, 1, turn);
    }
  }

  lemma WordWraps(a: nat, n: nat)
    ensures a + n < U32 ==> (a + n) % U32 == a + n
  {
  }

  lemma Rounds(x: nat, m: nat, turn: nat)
    requires turn > 0
    ensures (x + m) % turn == x % turn <==> m % turn == 0
  {
    ModAdd(x, m, turn);
    ModAdd(m, x % turn, turn);
    Within(m % turn + x % turn, turn);
  }

  lemma NextPlace(origin: nat, n: nat, k: nat, turn: nat)
    requires turn > 0 && (origin + n) % turn + k <= turn
    ensures (origin + (n + k)) % turn == if (origin + n) % turn + k == turn then 0 else (origin + n) % turn + k
  {
    ModAdd(origin + n, k, turn);
    if (origin + n) % turn + k == turn {
      DivMod(1, turn, 0);
    } else {
      Within((origin + n) % turn + k, turn);
    }
  }

  lemma Window(s: seq<byte>, start: nat, end: nat, at: nat, x: seq<byte>)
    requires start <= at && at + |x| <= end <= |s|
    ensures Patch(s, at, x)[start..end] == Patch(s[start..end], at - start, x)
  {
  }

  lemma InWindow(s: seq<byte>, start: nat, end: nat, at: nat, n: nat)
    requires start <= at && at + n <= end <= |s|
    ensures s[start..end][at - start..at - start + n] == s[at..at + n]
  {
    var p, q := s[start..end][at - start..at - start + n], s[at..at + n];
    forall k | 0 <= k < n ensures p[k] == q[k] {
      assert s[start..end][at - start + k] == s[at + k];
    }
  }
}
