/**
 The compressor: it finds matches through a lossy hash table and writes past the end of what it
 needs.  Whatever the hash function, it emits the block that is planned for the source, if the output has room for
 it; the block stands for the source, and every byte it touches lies within the compression bound.
 */
module Lz4Compressor {
  import opened Basics
  import opened Bytes
  import opened Lz4Format
  import opened Lz4Plan
  import Lz4Decode
  import Lz4Decoder

  const LIMIT_64K := 65547
  const ACCELERATION_DEFAULT := 1
  const ACCELERATION_MAX := 65537
  const HASH_SIZE_U16 := 8192
  const HASH_SIZE_U32 := 4096

  function Bound(n: nat): nat {
    if n > MAX_INPUT_SIZE then 0 else n + n / 255 + 16
  }

  // ---- matches ----

  /** Comparing two words of `n` bytes. */
  predicate Equal(src: array<byte>, a: nat, b: nat, n: nat)
    requires b < a && a + n <= src.Length
    reads src
    ensures Equal(src, a, b, n) <==> Periodic(src[..], a, a + n, a - b)
  {
    EqualPeriodic(src[..], a, b, n);
    src[a..a + n] == src[b..b + n]
  }

  lemma EqualPeriodic(t: seq<byte>, a: nat, b: nat, n: nat)
    requires b < a && a + n <= |t|
    ensures t[a..a + n] == t[b..b + n] <==> Periodic(t, a, a + n, a - b)
  {
    var x, y := t[a..a + n], t[b..b + n];
    assert forall i | 0 <= i < n :: x[i] == t[a + i] && y[i] == t[b + i];
    if x == y {
      forall k | a <= k < a + n ensures t[k] == t[k - (a - b)] {
        assert x[k - a] == y[k - a];
      }
    }
  }

  /** `LZ4_NbCommonBytes` of two words that differ: the number of leading bytes they share. */
  method CommonBytes(src: array<byte>, a: nat, b: nat) returns (n: nat)
    requires b < a && a + 8 <= src.Length && !Equal(src, a, b, 8)
    ensures n < 8 && Periodic(src[..], a, a + n, a - b) && src[a + n] != src[b + n]
  {
    n := 0;
    while n < 8 && src[a + n] == src[b + n]
      invariant n <= 8 && Periodic(src[..], a, a + n, a - b)
    {
      n := n + 1;
    }
  }

  /** `LZ4_count`: the longest common run of `a` and `b` up to `limit`, 8 bytes at a time. */
  method Count(src: array<byte>, a0: nat, b0: nat, limit: nat) returns (n: nat)
    requires b0 < a0 <= limit <= src.Length
    ensures a0 + n <= limit && Periodic(src[..], a0, a0 + n, a0 - b0)
    ensures a0 + n == limit || src[a0 + n] != src[b0 + n]
    ensures n == Common(src[..], a0, b0, limit)
  {
    n := CountWords(src, a0, b0, limit);
    CommonExactly(src[..], a0, b0, limit, n);
  }

  method CountWords(src: array<byte>, a0: nat, b0: nat, limit: nat) returns (n: nat)
    requires b0 < a0 <= limit <= src.Length
    ensures a0 + n <= limit && Periodic(src[..], a0, a0 + n, a0 - b0)
    ensures a0 + n == limit || src[a0 + n] != src[b0 + n]
  {
    hide Equal;
    var a, b := a0, b0;
    if a < limit - 7 {
      if Equal(src, a, b, 8) {
        a, b := a + 8, b + 8;
      } else {
        n := CommonBytes(src, a, b);
        return;
      }
    }
    while a < limit - 7
      invariant a0 <= a <= limit && b - b0 == a - a0 && Periodic(src[..], a0, a, a0 - b0)
    {
      if Equal(src, a, b, 8) {
        a, b := a + 8, b + 8;
        continue;
      }
      n := CommonBytes(src, a, b);
      return n + (a - a0);
    }
    a := CountTail(src, a, b, limit);
    n := a - a0;
  }

  /** Whichever of the three comparisons succeed, the first difference, if any, comes next. */
  lemma Tail(t: seq<byte>, a0: nat, a1: nat, a2: nat, a3: nat, limit: nat, d: nat)
    requires d <= a0 <= limit <= |t| && limit <= a0 + 7
    requires a1 == (if a0 < limit - 3 && Periodic(t, a0, a0 + 4, d) then a0 + 4 else a0)
    requires a2 == (if a1 < limit - 1 && Periodic(t, a1, a1 + 2, d) then a1 + 2 else a1)
    requires a3 == (if a2 < limit && t[a2] == t[a2 - d] then a2 + 1 else a2)
    ensures a3 <= limit && Periodic(t, a0, a3, d) && (a3 == limit || t[a3] != t[a3 - d])
  {
    if a3 == a2 + 1 && a3 < limit {
      if a2 == a1 {
        assert !Periodic(t, a1, a1 + 2, d);
      } else {
        assert a1 == a0 && !Periodic(t, a0, a0 + 4, d);
      }
    }
  }

  /** The last 7 bytes: 4, 2 and 1 at a time. */
  method CountTail(src: array<byte>, a0: nat, b0: nat, limit: nat) returns (a: nat)
    requires b0 < a0 <= limit <= src.Length && limit <= a0 + 7
    ensures a0 <= a <= limit && Periodic(src[..], a0, a, a0 - b0)
    ensures a == limit || src[a] != src[a - (a0 - b0)]
  {
    hide Equal, Periodic;
    a := a0;
    var b := b0;
    if a < limit - 3 && Equal(src, a, b, 4) {
      a, b := a + 4, b + 4;
    }
    ghost var a1 := a;
    if a < limit - 1 && Equal(src, a, b, 2) {
      a, b := a + 2, b + 2;
    }
    ghost var a2 := a;
    if a < limit && src[b] == src[a] {
      a := a + 1;
    }
    Tail(src[..], a0, a1, a2, a, limit, a0 - b0);
  }

  // ---- the hash table ----

  /** The table has the last position on record for every hash. */
  ghost predicate OnRecord(job: Job, table: seq<nat>, log: seq<nat>) {
    forall h | 0 <= h < |table| :: table[h] == job.Latest(log, h)
  }

  lemma Recorded(job: Job, table: seq<nat>, log: seq<nat>, p: nat, table': seq<nat>)
    requires OnRecord(job, table, log) && job.HashAt(p) < |table| && table' == table[job.HashAt(p) := p]
    ensures OnRecord(job, table', log + [p])
  {
    hide Job.Latest, Job.HashAt;
    forall h | 0 <= h < |table'| ensures table'[h] == job.Latest(log + [p], h) {
      LatestAfter(job, log, p, h);
    }
  }

  lemma NothingRecorded(job: Job, table: seq<nat>)
    requires forall h | 0 <= h < |table| :: table[h] == 0
    ensures OnRecord(job, table, [])
  {
  }

  /** `LZ4_hashPosition` reads 8 bytes at `p`; what it makes of them does not matter. */
  method HashPosition(src: array<byte>, hash: seq<byte> -> nat, p: nat, ghost job: Job) returns (h: nat)
    requires p + 8 <= src.Length && job.src == src[..] && job.hash == hash
    ensures h == job.HashAt(p) && exists s :: h == hash(s)
  {
    assert src[..][p..p + 8] == src[p..p + 8];
    h := hash(src[p..p + 8]);
  }

  /** `LZ4_putPosition`. 16-bit entries truncate nothing, for no position reaches 65536. */
  method PutPosition(src: array<byte>, table: array<nat>, hash: seq<byte> -> nat, p: nat, byU16: bool, ghost job: Job, ghost log: seq<nat>)
    requires p + 8 <= src.Length && (forall s :: hash(s) < table.Length)
    requires byU16 ==> p < 65536
    requires table as object != src && job.src == src[..] && job.hash == hash && OnRecord(job, table[..], log)
    modifies table
    ensures OnRecord(job, table[..], log + [p])
  {
    hide OnRecord, Job.HashAt;
    ghost var before := table[..];
    var h := HashPosition(src, hash, p, job);
    table[h] := if byU16 then p % 65536 else p;
    Recorded(job, before, log, p, table[..]);
  }

  /**
   The search loop: steps forward until the table offers a match of 4 bytes within reach, or the end
   comes too near. It gives up only if no probe repeats the last position on record with its hash.
   */
  method FindMatch(src: array<byte>, table: array<nat>, hash: seq<byte> -> nat, start: nat, acceleration: nat, byU16: bool,
                   ghost job: Job, ghost log: seq<nat>)
    returns (found: bool, ip: nat, match_: nat, ghost i: nat)
    requires MIN_LENGTH <= src.Length && 1 <= start <= src.Length - MFLIMIT + 1 && acceleration >= 1
    requires byU16 ==> src.Length < LIMIT_64K
    requires forall s :: hash(s) < table.Length
    requires table as object != src && job == Job(src[..], hash, acceleration) && OnRecord(job, table[..], log) && Before(log, start)
    modifies table
    ensures job.FirstHit(log, start, 0) == if found then Some(i) else None
    ensures found ==> ip == job.Probe(start, i) && match_ == job.Candidate(log, start, i) && OnRecord(job, table[..], job.Probed(log, start, i + 1))
    ensures !found ==> forall k: nat | job.Tested(start, k) ::
              !MatchAt(src[..], job.Probe(start, k), job.Candidate(log, start, k), MINMATCH)
  {
    hide OnRecord, Job.HashAt, Before, Job.Latest, Equal, MatchAt;
    hide Job.Probe, Job.Stride, Job.Probed, Job.Candidate, Job.FirstHit, Job.Tested, Job.Hit;
    SearchStart(job, log, start);
    var forwardH := HashPosition(src, hash, start, job);
    var forwardIp, step, searchMatchNb := start, 1, acceleration * SKIP_TRIGGER;
    i := 0;
    while true
      invariant start <= forwardIp <= src.Length - MFLIMIT + 1
      invariant forwardIp == job.Probe(start, i) && step == job.Stride(i) && searchMatchNb == acceleration * SKIP_TRIGGER + i
      invariant forwardH == job.HashAt(forwardIp) < table.Length
      invariant OnRecord(job, table[..], job.Probed(log, start, i))
      invariant job.FirstHit(log, start, 0) == job.FirstHit(log, start, i)
      decreases src.Length - forwardIp
    {
      ghost var before, seen := table[..], job.Probed(log, start, i);
      SearchStep(job, log, start, i);
      var h, current := forwardH, forwardIp;
      match_ := table[h];
      RecordedHere(job, table[..], seen, h);
      ip := forwardIp;
      forwardIp := forwardIp + step;
      step := searchMatchNb / SKIP_TRIGGER;
      searchMatchNb := searchMatchNb + 1;
      if forwardIp > src.Length - MFLIMIT + 1 {
        GivenUp(job, log, start);
        return false, ip, match_, i;
      }
      forwardH := HashPosition(src, hash, forwardIp, job);
      table[h] := current;
      Recorded(job, before, seen, current, table[..]);
      ProbedBefore(job, log, start, i);
      LatestBefore(job, seen, h, current);
      EqualIsMatch(src, ip, match_);
      if !byU16 && match_ + DISTANCE_MAX < current {
        i := i + 1;
        continue;
      }
      if Equal(src, ip, match_, 4) {
        return true, ip, match_, i;
      }
      i := i + 1;
    }
  }

  lemma SearchStart(job: Job, log: seq<nat>, start: nat)
    ensures job.Probe(start, 0) == start && job.Stride(0) == 1 && job.Probed(log, start, 0) == log
  {
  }

  /** One more position of the search. */
  lemma SearchStep(job: Job, log: seq<nat>, start: nat, i: nat)
    requires job.acceleration >= 1
    ensures job.Probe(start, i + 1) == job.Probe(start, i) + job.Stride(i) > job.Probe(start, i)
    ensures job.Stride(i + 1) == (job.acceleration * SKIP_TRIGGER + i) / SKIP_TRIGGER
    ensures job.Probed(log, start, i + 1) == job.Probed(log, start, i) + [job.Probe(start, i)]
    ensures job.Candidate(log, start, i) == job.Latest(job.Probed(log, start, i), job.HashAt(job.Probe(start, i)))
    ensures job.FirstHit(log, start, i) ==
              if job.Probe(start, i + 1) + MFLIMIT > |job.src| + 1 then None
              else if MatchAt(job.src, job.Probe(start, i), job.Candidate(log, start, i), MINMATCH) then Some(i)
              else job.FirstHit(log, start, i + 1)
  {
    hide Job.Latest, Job.HashAt, MatchAt;
    job.ProbeGrows(start, i);
  }

  lemma RecordedHere(job: Job, table: seq<nat>, log: seq<nat>, h: nat)
    requires OnRecord(job, table, log) && h < |table|
    ensures table[h] == job.Latest(log, h)
  {
  }

  lemma EqualIsMatch(src: array<byte>, ip: nat, m: nat)
    requires m < ip && ip + 4 <= src.Length
    ensures MatchAt(src[..], ip, m, MINMATCH) <==> ip <= m + DISTANCE_MAX && Equal(src, ip, m, 4)
  {
  }

  lemma GivenUp(job: Job, log: seq<nat>, start: nat)
    requires job.acceleration >= 1 && job.FirstHit(log, start, 0) == None
    ensures forall k: nat | job.Tested(start, k) :: !MatchAt(job.src, job.Probe(start, k), job.Candidate(log, start, k), MINMATCH)
  {
    forall k: nat | job.Tested(start, k) ensures !job.Hit(log, start, k) {
      FirstHitExactly(job, log, start, 0, k);
    }
  }

  /** Extends a match backwards over the pending literals, as far as it goes. */
  method CatchUp(src: array<byte>, anchor: nat, ip0: nat, match0: nat) returns (ip: nat, match_: nat)
    requires anchor <= ip0 && MatchAt(src[..], ip0, match0, MINMATCH)
    ensures anchor <= ip <= ip0 && ip - match_ == ip0 - match0
    ensures MatchAt(src[..], ip, match_, ip0 - ip + MINMATCH)
    ensures ip == anchor || match_ == 0 || src[ip - 1] != src[match_ - 1]
    ensures ip0 - ip == Back(src[..], anchor, ip0, match0)
  {
    MatchReach(src[..], ip0, match0, MINMATCH);
    BackMatches(src[..], anchor, ip0, match0, MINMATCH);
    hide MatchAt, Back;
    ghost var t := src[..];
    ip, match_ := ip0, match0;
    while ip > anchor && match_ > 0 && src[ip - 1] == src[match_ - 1]
      invariant anchor <= ip <= ip0 && ip - match_ == ip0 - match0
      invariant ip0 - ip + Back(t, anchor, ip, match_) == Back(t, anchor, ip0, match0)
    {
      BackStep(t, anchor, ip, match_);
      ip, match_ := ip - 1, match_ - 1;
    }
    BackStep(t, anchor, ip, match_);
  }

  lemma BackStep(t: seq<byte>, anchor: nat, ip: nat, m: nat)
    requires anchor <= ip <= |t| && m < ip
    ensures Back(t, anchor, ip, m) == if ip > anchor && m > 0 && t[ip - 1] == t[m - 1] then 1 + Back(t, anchor, ip - 1, m - 1) else 0
  {
  }

  /** Records a position inside the match just emitted and looks for another match right behind it. */
  method TestNext(src: array<byte>, table: array<nat>, hash: seq<byte> -> nat, ip: nat, byU16: bool, ghost job: Job, ghost log: seq<nat>)
    returns (found: bool, match_: nat)
    requires 4 <= ip <= src.Length - MFLIMIT
    requires byU16 ==> src.Length < LIMIT_64K
    requires forall s :: hash(s) < table.Length
    requires table as object != src && job.src == src[..] && job.hash == hash && OnRecord(job, table[..], log) && Before(log, ip)
    modifies table
    ensures OnRecord(job, table[..], log + [ip - 2, ip]) && Before(log + [ip - 2, ip], ip + 1)
    ensures match_ == job.Latest(log + [ip - 2], job.HashAt(ip))
    ensures found <==> MatchAt(src[..], ip, match_, MINMATCH)
  {
    hide OnRecord, Job.HashAt, Job.Latest, Equal, MatchAt;
    PutPosition(src, table, hash, ip - 2, byU16, job, log);
    ghost var before, seen := table[..], log + [ip - 2];
    var h := HashPosition(src, hash, ip, job);
    match_ := table[h];
    RecordedHere(job, table[..], seen, h);
    table[h] := ip;
    Recorded(job, before, seen, ip, table[..]);
    LatestBefore(job, seen, h, ip);
    assert seen + [ip] == log + [ip - 2, ip];
    EqualIsMatch(src, ip, match_);
    found := (byU16 || match_ + DISTANCE_MAX >= ip) && Equal(src, ip, match_, 4);
  }

  // ---- writing a sequence ----

  lemma {:induction false} ExtensionBytes(v: nat)
    ensures LengthExtension(v) == seq(v / 255, _ => 255 as byte) + [v % 255]
    decreases v
  {
    if v >= 255 {
      ExtensionBytes(v - 255);
      assert seq(v / 255, _ => 255 as byte) == [255] + seq((v - 255) / 255, _ => 255 as byte);
    } else {
      assert seq(v / 255, _ => 255 as byte) == [];
    }
  }

  /** The byte loop that writes the rest of a literal length. */
  method WriteLength(dst: array<byte>, op0: nat, v: nat) returns (op: nat)
    requires op0 + v / 255 + 1 <= dst.Length
    modifies dst
    ensures op == op0 + v / 255 + 1
    ensures dst[..op] == old(dst[..op0]) + LengthExtension(v)
  {
    op := op0;
    var len := v;
    while len >= 255
      invariant op0 <= op && op + len / 255 == op0 + v / 255
      invariant dst[..op] + LengthExtension(len) == old(dst[..op0]) + LengthExtension(v)
    {
      ghost var before := dst[..op];
      dst[op] := 255;
      assert dst[..op + 1] == before + [255];
      op, len := op + 1, len - 255;
    }
    ghost var before := dst[..op];
    dst[op] := len;
    assert dst[..op + 1] == before + [len];
    op := op + 1;
  }

  /** Four bytes 255 at `op`. */
  method Write32Ones(dst: array<byte>, op: nat)
    requires op + 4 <= dst.Length
    modifies dst
    ensures forall k | op <= k < op + 4 :: dst[k] == 255
    ensures forall k | 0 <= k < op || op + 4 <= k < dst.Length :: dst[k] == old(dst[k])
  {
    dst[op], dst[op + 1], dst[op + 2], dst[op + 3] := 255, 255, 255, 255;
  }

  /** The rest of a match length: bytes 255 are written 4 at a time, up to 3 too many. */
  method WriteMatchLength(dst: array<byte>, op0: nat, v: nat) returns (op: nat)
    requires op0 + v / 255 + 4 <= dst.Length
    modifies dst
    ensures op == op0 + v / 255 + 1
    ensures dst[..op] == old(dst[..op0]) + LengthExtension(v)
  {
    op := op0;
    var code := v;
    Write32Ones(dst, op);
    while code >= 1020
      invariant op0 <= op && op + code / 255 == op0 + v / 255 && code % 255 == v % 255
      invariant forall k | 0 <= k < op0 :: dst[k] == old(dst[k])
      invariant forall k | op0 <= k < op + 4 :: dst[k] == 255
    {
      op := op + 4;
      Write32Ones(dst, op);
      code := code - 1020;
    }
    op := op + code / 255;
    dst[op] := code % 255;
    op := op + 1;
    ExtensionBytes(v);
  }

  /** A token for `lit` literals, and the rest of their number. */
  method WriteToken(dst: array<byte>, op0: nat, lit: nat) returns (op: nat)
    requires op0 + 1 + |Extension(lit)| <= dst.Length
    modifies dst
    ensures op == op0 + 1 + |Extension(lit)|
    ensures dst[..op] == old(dst[..op0]) + ([Token(lit, 0)] + Extension(lit))
  {
    hide LengthExtension;
    ghost var pre := dst[..op0];
    op := op0 + 1;
    dst[op0] := Nibble(lit) * 16;
    assert dst[..op] == pre + [Token(lit, 0)];
    if lit >= RUN_MASK {
      op := WriteLength(dst, op, lit - RUN_MASK);
    }
  }

  /** There is room for a token, the literals with their over-copied bytes, and the offset behind them. */
  predicate HasRoom(op: nat, lit: nat, capacity: nat) {
    var at := op + 1 + |Extension(lit)|;
    at + lit + 2 <= capacity && Lz4Decoder.WildEnd(at, at + lit) <= capacity
  }

  /** The check before the literals: it is just enough, over-copied bytes included. */
  lemma CheckedRoom(op: nat, lit: nat, capacity: nat)
    requires op + 1 + lit + (2 + 1 + LASTLITERALS) + lit / 255 <= capacity
    ensures HasRoom(op, lit, capacity)
  {
    hide Extension;
    ExtensionSize(lit);
  }

  /** Token, length and literals. The copy runs up to 8 bytes past the literals. */
  method EncodeLiterals(src: array<byte>, dst: array<byte>, op0: nat, anchor: nat, ip: nat) returns (op: nat)
    requires src != dst && anchor <= ip <= src.Length - 8 && HasRoom(op0, ip - anchor, dst.Length)
    modifies dst
    ensures op == op0 + 1 + |Extension(ip - anchor)| + (ip - anchor)
    ensures dst[..op] == old(dst[..op0]) + ([Token(ip - anchor, 0)] + (Extension(ip - anchor) + src[anchor..ip]))
  {
    hide Token, Extension;
    op := WriteToken(dst, op0, ip - anchor);
    Lz4Decoder.CopyLiterals(dst, op, src, anchor, ip - anchor, Lz4Decoder.Wild);
    op := op + (ip - anchor);
  }

  /** The final run: token, length and exactly the remaining bytes of the source. */
  method EncodeLastLiterals(src: array<byte>, dst: array<byte>, op0: nat, anchor: nat) returns (op: nat)
    requires src != dst && anchor <= src.Length
    requires op0 + 1 + |Extension(src.Length - anchor)| + (src.Length - anchor) <= dst.Length
    modifies dst
    ensures op == op0 + 1 + |Extension(src.Length - anchor)| + (src.Length - anchor)
    ensures dst[..op] == old(dst[..op0]) + EncodeLast(src[anchor..])
  {
    hide Token, Extension;
    op := WriteToken(dst, op0, src.Length - anchor);
    assert src[anchor..anchor + (src.Length - anchor)] == src[anchor..];
    Lz4Decoder.CopyLiterals(dst, op, src, anchor, src.Length - anchor, Lz4Decoder.Exact);
    op := op + (src.Length - anchor);
  }

  /**
   Offset and match length; the low half of the token is filled in. With an output limit the length is written
   only if it leaves room for the last literals of the block.
   */
  method EncodeMatch(dst: array<byte>, op0: nat, token: nat, offset: nat, matchCode: nat, limited: bool) returns (ok: bool, op: nat)
    requires token < op0 && op0 + 2 <= dst.Length && (limited || op0 + 2 + matchCode / 255 + 4 <= dst.Length)
    requires dst[token] % 16 == 0 && offset <= DISTANCE_MAX
    modifies dst
    ensures !limited ==> ok
    ensures !ok ==> op0 + 2 + |Extension(matchCode)| + 1 + LASTLITERALS > dst.Length
    ensures op <= dst.Length
    ensures ok ==>
      && op == op0 + 2 + |Extension(matchCode)| && (limited ==> op + 1 + LASTLITERALS <= dst.Length)
      && old(dst[token]) + Nibble(matchCode) < 256
      && dst[..op] == old(dst[..op0])[token := old(dst[token]) + Nibble(matchCode)]
                      + (Little16(offset) + Extension(matchCode))
  {
    hide Extension, Nibble;
    ghost var pre := dst[..op0];
    dst[op0], dst[op0 + 1] := offset % 256, offset / 256 % 256;
    op := op0 + 2;
    assert dst[..op] == pre + Little16(offset);
    ExtensionSize(matchCode);
    if limited && op + (1 + LASTLITERALS) + (matchCode + 240) / 255 > dst.Length {
      return false, op;
    }
    ok := true;
    op := FinishToken(dst, op, token, matchCode);
  }

  /** The match length, in the token and behind it. */
  method FinishToken(dst: array<byte>, op0: nat, token: nat, matchCode: nat) returns (op: nat)
    requires token < op0 && op0 + matchCode / 255 + 4 <= dst.Length && dst[token] % 16 == 0
    modifies dst
    ensures op == op0 + |Extension(matchCode)| && old(dst[token]) + Nibble(matchCode) < 256
    ensures dst[..op] == old(dst[..op0])[token := old(dst[token]) + Nibble(matchCode)] + Extension(matchCode)
  {
    ghost var pre := dst[..op0];
    dst[token] := dst[token] + Nibble(matchCode);
    op := op0;
    assert dst[..op] == pre[token := pre[token] + Nibble(matchCode)];
    if matchCode >= ML_MASK {
      op := WriteMatchLength(dst, op, matchCode - ML_MASK);
    }
  }

  // ---- the invariant of the main loop ----

  /** The first `anchor` bytes of the source are encoded in the first `op` bytes of the output. */
  ghost predicate Emitted(src: seq<byte>, anchor: nat, t: seq<byte>, b: seq<Sequence>) {
    && anchor <= |src| && Encodable(b) && WfFrom(0, b, |src|)
    && t == EncodeAll(b) && ApplyAll([], b) == src[..anchor]
  }

  lemma TokenSum(lit: nat, m: nat)
    ensures Token(lit, 0) % 16 == 0 && Token(lit, 0) + Nibble(m) == Token(lit, m)
  {
  }

  /** The bytes written by the literal and match parts are those of one sequence. */
  lemma SequenceWritten(pre: seq<byte>, s: Sequence, t1: seq<byte>, t2: seq<byte>)
    requires s.mlen >= MINMATCH
    requires t1 == pre + ([Token(|s.lits|, 0)] + (Extension(|s.lits|) + s.lits))
    requires var m := s.mlen - MINMATCH;
             t1[|pre|] + Nibble(m) < 256 && t2 == t1[|pre| := t1[|pre|] + Nibble(m)] + (Little16(s.offset) + Extension(m))
    ensures t2 == pre + EncodeSequence(s)
  {
    hide Token, Nibble, Extension, Little16;
    var m := s.mlen - MINMATCH;
    TokenSum(|s.lits|, m);
    assert t1[|pre| := t1[|pre|] + Nibble(m)] == pre + ([Token(|s.lits|, m)] + (Extension(|s.lits|) + s.lits));
  }

  lemma MatchIsRepeat(src: seq<byte>, ip: nat, m: nat, len: nat)
    requires MatchAt(src, ip, m, len)
    ensures src[..ip + len] == Repeat(src[..ip], ip - m, len)
  {
    var t := src[..ip + len];
    assert t[..ip] == src[..ip];
    RepeatUnique(src[..ip], ip - m, len, t);
  }

  lemma AppendSequence(src: seq<byte>, anchor: nat, ip: nat, m: nat, len: nat, pre: seq<byte>, b: seq<Sequence>)
    requires Emitted(src, anchor, pre, b) && anchor <= ip && len >= MINMATCH
    requires MatchAt(src, ip, m, len)
    requires ip + MFLIMIT <= |src| && ip + len + LASTLITERALS <= |src|
    ensures var s := Sequence(src[anchor..ip], ip - m, len);
            Emitted(src, ip + len, pre + EncodeSequence(s), b + [s])
  {
    hide EncodeSequence, Repeat;
    var s := Sequence(src[anchor..ip], ip - m, len);
    ApplyAllAppend([], b, s);
    EncodeAllAppend(b, s);
    assert src[..anchor] + s.lits == src[..ip];
    MatchIsRepeat(src, ip, m, len);
    assert WfFrom(|ApplyAll([], b)|, [s], |src|);
    WfAppend([], b, s, |src|);
  }

  // ---- the compression bound ----

  /** A sequence takes at most 256/255 of the bytes that it stands for. */
  lemma SequenceSize(lit: nat, len: nat)
    requires len >= MINMATCH
    ensures 255 * (3 + |Extension(lit)| + lit + |Extension(len - MINMATCH)|) <= 256 * (lit + len)
  {
    hide Extension;
    ExtensionSize(lit);
    ExtensionSize(len - MINMATCH);
  }

  /** There is room for every byte the encoders touch, over-copied ones included. */
  lemma Room(n: nat, op: nat, anchor: nat, ip: nat)
    requires n <= MAX_INPUT_SIZE && anchor <= ip && ip + MFLIMIT <= n && 255 * op <= 256 * anchor
    ensures HasRoom(op, ip - anchor, Bound(n))
    ensures forall code: nat | ip + MINMATCH + code + LASTLITERALS <= n ::
              op + 1 + |Extension(ip - anchor)| + (ip - anchor) + 2 + code / 255 + 4 <= Bound(n)
  {
    hide Extension;
    ExtensionSize(ip - anchor);
  }

  lemma LastRoom(n: nat, op: nat, anchor: nat)
    requires n <= MAX_INPUT_SIZE && anchor <= n && 255 * op <= 256 * anchor
    ensures op + 1 + |Extension(n - anchor)| + (n - anchor) <= Bound(n)
  {
    hide Extension;
    ExtensionSize(n - anchor);
  }

  // ---- the compressor ----

  /** Token and literals; right behind a match (`pending`) there are none and the token starts from 0. */
  method StartSequence(src: array<byte>, dst: array<byte>, op0: nat, anchor: nat, ip: nat, pending: bool) returns (op: nat)
    requires src != dst && anchor <= ip <= src.Length - 8 && (pending ==> anchor == ip)
    requires if pending then op0 + 3 <= dst.Length else HasRoom(op0, ip - anchor, dst.Length)
    modifies dst
    ensures op == op0 + 1 + |Extension(ip - anchor)| + (ip - anchor) <= dst.Length - 2
    ensures dst[op0] % 16 == 0
    ensures dst[..op] == old(dst[..op0]) + ([Token(ip - anchor, 0)] + (Extension(ip - anchor) + src[anchor..ip]))
  {
    hide Extension, Token;
    TokenSum(ip - anchor, 0);
    ghost var pre := dst[..op0];
    if pending {
      NoLiterals();
      dst[op0] := 0;
      op := op0 + 1;
      assert src[anchor..ip] == [];
    } else {
      op := EncodeLiterals(src, dst, op0, anchor, ip);
      assert dst[op0] == dst[..op][op0];
    }
  }

  lemma NoLiterals()
    ensures Token(0, 0) == 0 && Extension(0) == []
  {
  }

  /** Where the output has an end that may be too near: the checks are made only then. */
  ghost predicate Capacity(n: nat, capacity: nat, limited: bool) {
    n <= MAX_INPUT_SIZE && (limited || capacity >= Bound(n))
  }

  /** The output has no room for the sequence and the least that follows it. */
  ghost predicate TooLong(op: nat, s: Sequence, capacity: nat) {
    s.mlen >= MINMATCH && op + |EncodeSequence(s)| + 1 + LASTLITERALS > capacity
  }

  /**
   Encodes the literals from `anchor` and the match at `ip`, as long as it can be. It gives up only if there is a limit
   and no room up to it.
   */
  method EmitSequence(src: array<byte>, dst: array<byte>, op0: nat, anchor: nat, ip: nat, match_: nat, pending: bool, limited: bool,
                      ghost b: seq<Sequence>)
    returns (ok: bool, op: nat, end: nat, ghost s: Sequence)
    requires src != dst && Capacity(src.Length, dst.Length, limited)
    requires 255 * op0 <= 256 * anchor && op0 <= dst.Length && Emitted(src[..], anchor, dst[..op0], b)
    requires anchor <= ip <= src.Length - MFLIMIT && (pending ==> anchor == ip)
    requires limited && pending ==> op0 + 1 + LASTLITERALS <= dst.Length
    requires MatchAt(src[..], ip, match_, MINMATCH)
    modifies dst
    ensures !limited ==> ok
    ensures s == NextSequence(src[..], anchor, ip, match_)
    ensures !ok ==> TooLong(op0, s, dst.Length)
    ensures ok ==> ip + MINMATCH <= end <= src.Length - LASTLITERALS
    ensures ok ==> end == ip + s.mlen && (end == src.Length - LASTLITERALS || src[end] != src[end - (ip - match_)])
    ensures ok ==> 255 * op <= 256 * end && op <= dst.Length && (limited ==> op + 1 + LASTLITERALS <= dst.Length)
    ensures ok ==> Emitted(src[..], end, dst[..op], b + [s])
  {
    hide Extension, Emitted, EncodeSequence, Token, Nibble, Little16, HasRoom, Capacity, MatchAt, Periodic, Common, TooLong;
    MatchReach(src[..], ip, match_, MINMATCH);
    s := NextSequence(src[..], anchor, ip, match_);
    ok := CheckLimit(src.Length, op0, anchor, ip, dst.Length, pending, limited);
    if !ok {
      LiteralsTooLong(op0, s, dst.Length);
      return false, op0, ip, s;
    }
    ghost var pre := dst[..op0];
    var literals := StartSequence(src, dst, op0, anchor, ip, pending);
    ok, op, end := EmitMatch(src, dst, op0, literals, anchor, ip, match_, limited, pre, b, s);
  }

  /** The check before the literals is not too strict. */
  lemma LiteralsTooLong(op: nat, s: Sequence, capacity: nat)
    requires s.mlen >= MINMATCH && op + 1 + |s.lits| + (2 + 1 + LASTLITERALS) + |s.lits| / 255 > capacity
    ensures TooLong(op, s, capacity)
  {
    hide Extension;
    SequenceBytes(s);
    ExtensionSize(|s.lits|);
  }

  /** The second half of a sequence: its match, behind the token and the literals. */
  method EmitMatch(src: array<byte>, dst: array<byte>, token: nat, op1: nat, anchor: nat, ip: nat, match_: nat, limited: bool,
                   ghost pre: seq<byte>, ghost b: seq<Sequence>, ghost s: Sequence)
    returns (ok: bool, op: nat, end: nat)
    requires src != dst && anchor <= ip <= src.Length - MFLIMIT && MatchAt(src[..], ip, match_, MINMATCH)
    requires s == NextSequence(src[..], anchor, ip, match_)
    requires Emitted(src[..], anchor, pre, b) && 255 * token <= 256 * anchor && |pre| == token
    requires op1 == token + 1 + |Extension(ip - anchor)| + (ip - anchor) <= dst.Length - 2 && dst[token] % 16 == 0
    requires dst[..op1] == pre + ([Token(ip - anchor, 0)] + (Extension(ip - anchor) + src[anchor..ip]))
    requires !limited ==> forall code: nat | ip + MINMATCH + code + LASTLITERALS <= src.Length :: op1 + 2 + code / 255 + 4 <= dst.Length
    modifies dst
    ensures !limited ==> ok
    ensures !ok ==> TooLong(token, s, dst.Length)
    ensures ok ==> ip + MINMATCH <= end <= src.Length - LASTLITERALS
    ensures ok ==> end == ip + s.mlen && (end == src.Length - LASTLITERALS || src[end] != src[end - (ip - match_)])
    ensures ok ==> 255 * op <= 256 * end && op <= dst.Length && (limited ==> op + 1 + LASTLITERALS <= dst.Length)
    ensures ok ==> Emitted(src[..], end, dst[..op], b + [s])
  {
    hide Extension, Emitted, EncodeSequence, Token, Nibble, Little16, MatchAt, Periodic, Common;
    MatchReach(src[..], ip, match_, MINMATCH);
    ghost var t1 := dst[..op1];
    var matchCode := Count(src, ip + MINMATCH, match_ + MINMATCH, src.Length - LASTLITERALS);
    end := ip + matchCode + MINMATCH;
    assert s == Sequence(src[..][anchor..ip], ip - match_, matchCode + MINMATCH);
    ok, op := EncodeMatch(dst, op1, token, ip - match_, matchCode, limited);
    if ok {
      SequenceSize(ip - anchor, end - ip);
      MatchGrows(src[..], ip, match_, matchCode);
      SequenceEmitted(src[..], anchor, ip, match_, matchCode, pre, t1, dst[..op], b);
    } else {
      SequenceBytes(s);
    }
  }

  lemma MatchReach(src: seq<byte>, ip: nat, m: nat, len: nat)
    requires MatchAt(src, ip, m, len)
    ensures m < ip <= m + DISTANCE_MAX && ip + len <= |src|
  {
  }

  lemma MatchGrows(src: seq<byte>, ip: nat, m: nat, more: nat)
    requires MatchAt(src, ip, m, MINMATCH) && ip + MINMATCH + more <= |src|
    requires Periodic(src, ip + MINMATCH, ip + MINMATCH + more, ip - m)
    ensures MatchAt(src, ip, m, more + MINMATCH)
  {
  }

  /** The check before the literals; without an output limit the compression bound makes it unnecessary. */
  method CheckLimit(n: nat, op: nat, anchor: nat, ip: nat, capacity: nat, pending: bool, limited: bool) returns (ok: bool)
    requires Capacity(n, capacity, limited) && 255 * op <= 256 * anchor && anchor <= ip <= n - MFLIMIT
    requires limited && pending ==> op + 1 + LASTLITERALS <= capacity
    ensures !limited ==> ok
    ensures !ok ==> op + 1 + (ip - anchor) + (2 + 1 + LASTLITERALS) + (ip - anchor) / 255 > capacity
    ensures ok ==> if pending then op + 3 <= capacity else HasRoom(op, ip - anchor, capacity)
    ensures !limited ==> forall code: nat | ip + MINMATCH + code + LASTLITERALS <= n ::
                           op + 1 + |Extension(ip - anchor)| + (ip - anchor) + 2 + code / 255 + 4 <= capacity
  {
    hide HasRoom, Bound, Extension;
    if limited {
      if !pending {
        ok := op + 1 + (ip - anchor) + (2 + 1 + LASTLITERALS) + (ip - anchor) / 255 <= capacity;
        if ok {
          CheckedRoom(op, ip - anchor, capacity);
        }
        return;
      }
    } else {
      Room(n, op, anchor, ip);
      MoreRoom(op, ip - anchor, Bound(n), capacity);
    }
    ok := true;
  }

  lemma MoreRoom(op: nat, lit: nat, a: nat, b: nat)
    requires HasRoom(op, lit, a) && a <= b
    ensures HasRoom(op, lit, b) && op + 3 <= b
  {
  }

  lemma SequenceEmitted(src: seq<byte>, anchor: nat, ip: nat, m: nat, code: nat, pre: seq<byte>, t1: seq<byte>, t2: seq<byte>, b: seq<Sequence>)
    requires Emitted(src, anchor, pre, b) && anchor <= ip && MatchAt(src, ip, m, code + MINMATCH)
    requires ip + MFLIMIT <= |src| && ip + code + MINMATCH + LASTLITERALS <= |src|
    requires t1 == pre + ([Token(ip - anchor, 0)] + (Extension(ip - anchor) + src[anchor..ip]))
    requires t1[|pre|] + Nibble(code) < 256
    requires t2 == t1[|pre| := t1[|pre|] + Nibble(code)] + (Little16(ip - m) + Extension(code))
    ensures Emitted(src, ip + code + MINMATCH, t2, b + [Sequence(src[anchor..ip], ip - m, code + MINMATCH)])
  {
    hide Extension, Emitted, EncodeSequence, Token, Nibble, Little16;
    SequenceWritten(pre, Sequence(src[anchor..ip], ip - m, code + MINMATCH), t1, t2);
    AppendSequence(src, anchor, ip, m, code + MINMATCH, pre, b);
  }

  /** Finds the next match and extends it backwards. */
  method NextMatch(src: array<byte>, table: array<nat>, hash: seq<byte> -> nat, anchor: nat, start: nat, acceleration: nat, byU16: bool,
                   ghost job: Job, ghost log0: seq<nat>)
    returns (found: bool, ip: nat, match_: nat, ghost log: seq<nat>, ghost filled: nat)
    requires MIN_LENGTH <= src.Length && 1 <= start <= src.Length - MFLIMIT + 1 && anchor <= start && acceleration >= 1
    requires byU16 ==> src.Length < LIMIT_64K
    requires forall s :: hash(s) < table.Length
    requires table as object != src && job == Job(src[..], hash, acceleration) && OnRecord(job, table[..], log0) && Before(log0, start)
    modifies table
    ensures !found ==> job.Plan(log0, anchor, start) == []
    ensures found ==> OnRecord(job, table[..], log) && Before(log, filled + 1)
    ensures found ==> anchor <= ip <= filled <= src.Length - MFLIMIT && MatchAt(src[..], ip, match_, filled - ip + MINMATCH)
    ensures found ==> MatchAt(src[..], ip, match_, MINMATCH) && job.Plan(log0, anchor, start) == job.Emit(log, anchor, ip, match_)
  {
    hide OnRecord, Job.Emit, Job.HashAt, Job.Candidate, Before, Periodic, Back;
    ghost var i;
    found, ip, match_, i := FindMatch(src, table, hash, start, acceleration, byU16, job, log0);
    filled := ip;
    log := job.Probed(log0, start, i + 1);
    if found {
      job.ProbeGrows(start, i);
      ProbedUpTo(job, log0, start, i);
      ip, match_ := CatchUp(src, anchor, ip, match_);
      LongerMatch(src[..], ip, match_, filled - ip + MINMATCH);
    }
  }

  lemma ProbedUpTo(job: Job, log: seq<nat>, start: nat, i: nat)
    requires job.acceleration >= 1 && Before(log, start)
    ensures Before(job.Probed(log, start, i + 1), job.Probe(start, i) + 1)
  {
    ProbedBefore(job, log, start, i);
  }

  lemma LongerMatch(src: seq<byte>, ip: nat, m: nat, len: nat)
    requires MatchAt(src, ip, m, len) && len >= MINMATCH
    ensures MatchAt(src, ip, m, MINMATCH)
  {
  }

  /** What is emitted already and what is planned from here on are the whole plan. */
  ghost predicate OnPlan(job: Job, b: seq<Sequence>, log: seq<nat>, pending: bool, anchor: nat, ip: nat, m: nat)
    requires job.acceleration >= 1 && anchor <= |job.src| && anchor <= ip
    requires pending ==> ip + MFLIMIT <= |job.src| && MatchAt(job.src, ip, m, MINMATCH)
  {
    job.Plan([0], 0, 1) == b + if pending then job.Emit(log, anchor, ip, m) else job.Plan(log, anchor, ip)
  }

  /** What follows a sequence. */
  ghost predicate Follows(job: Job, b: seq<Sequence>, log: seq<nat>, end: nat)
    requires job.acceleration >= 1 && 2 <= end <= |job.src|
  {
    if end + MFLIMIT > |job.src| then job.Plan([0], 0, 1) == b
    else
      var m := job.Latest(log + [end - 2], job.HashAt(end));
      var log' := log + [end - 2, end];
      job.Plan([0], 0, 1) == b + if MatchAt(job.src, end, m, MINMATCH) then job.Emit(log', end, end, m) else job.Plan(log', end, end + 1)
  }

  lemma PlanGoesOn(job: Job, b: seq<Sequence>, log: seq<nat>, anchor: nat, ip: nat, m: nat)
    requires job.acceleration >= 1 && anchor <= ip && ip + MFLIMIT <= |job.src| && MatchAt(job.src, ip, m, MINMATCH)
    requires OnPlan(job, b, log, true, anchor, ip, m)
    ensures var s := NextSequence(job.src, anchor, ip, m); Follows(job, b + [s], log, ip + s.mlen)
  {
    hide Job.Plan, Job.Latest, Job.HashAt, Common;
    var s := NextSequence(job.src, anchor, ip, m);
    var end := ip + s.mlen;
    assert (b + [s]) + [] == b + ([s] + []);
    if end + MFLIMIT <= |job.src| {
      var m' := job.Latest(log + [end - 2], job.HashAt(end));
      var log' := log + [end - 2, end];
      Joined(b, s, if MatchAt(job.src, end, m', MINMATCH) then job.Emit(log', end, end, m') else job.Plan(log', end, end + 1));
    }
  }

  lemma Joined(b: seq<Sequence>, s: Sequence, r: seq<Sequence>)
    ensures b + ([s] + r) == (b + [s]) + r
  {
  }

  /** When a sequence does not fit, neither does the block. */
  lemma PlanTooLong(job: Job, b: seq<Sequence>, pre: seq<byte>, log: seq<nat>, anchor: nat, ip: nat, m: nat, capacity: nat)
    requires job.acceleration >= 1 && anchor <= ip && ip + MFLIMIT <= |job.src| && MatchAt(job.src, ip, m, MINMATCH)
    requires |job.src| >= MIN_LENGTH && OnPlan(job, b, log, true, anchor, ip, m)
    requires Emitted(job.src, anchor, pre, b) && TooLong(|pre|, NextSequence(job.src, anchor, ip, m), capacity)
    ensures |Packed(job)| > capacity
  {
    var s := NextSequence(job.src, anchor, ip, m);
    var plan := job.Plan([0], 0, 1);
    var rest := job.Emit(log, anchor, ip, m);
    assert rest[0] == s;
    assert plan != [];
    hide Job.Plan, Job.Emit, EncodeSequence, Common, MatchAt;
    EncodedLength(b, rest);
    LastBytes(BlockOf(job).last);
  }

  lemma {:induction false} EncodedLength(b: seq<Sequence>, rest: seq<Sequence>)
    requires Encodable(b) && Encodable(b + rest) && rest != []
    ensures |EncodeAll(b + rest)| >= |EncodeAll(b)| + |EncodeSequence(rest[0])|
    decreases |b|
  {
    hide EncodeSequence;
    if b == [] {
      assert b + rest == rest;
    } else {
      assert (b + rest)[1..] == b[1..] + rest;
      EncodedLength(b[1..], rest);
    }
  }

  /** The main loop, up to `_last_literals`. It gives up only if the planned block does not fit. */
  method CompressLoop(src: array<byte>, dst: array<byte>, table: array<nat>, hash: seq<byte> -> nat, acceleration: nat, byU16: bool, limited: bool,
                      ghost job: Job)
    returns (ok: bool, op: nat, anchor: nat, ghost b: seq<Sequence>)
    requires src != dst && MIN_LENGTH <= src.Length && Capacity(src.Length, dst.Length, limited)
    requires byU16 ==> src.Length < LIMIT_64K
    requires forall s :: hash(s) < table.Length
    requires table as object != src && table as object != dst && acceleration >= 1 && job == Job(src[..], hash, acceleration)
    requires forall h | 0 <= h < table.Length :: table[h] == 0
    modifies dst, table
    ensures !limited ==> ok
    ensures !ok ==> |Packed(job)| > dst.Length
    ensures ok ==> anchor <= src.Length && 255 * op <= 256 * anchor && op <= dst.Length && Emitted(src[..], anchor, dst[..op], b)
    ensures ok ==> b == job.Plan([0], 0, 1)
  {
    hide Emitted, Bound, OnRecord, Job.Plan, Job.Emit, Job.HashAt, Job.Latest, Before, MatchAt, Packed, Common, OnPlan, TooLong, Follows, NextSequence, Capacity;
    ok, op, anchor, b := true, 0, 0, [];
    var ip, match_, pending, found := 1, 0, false, true;
    ghost var log: seq<nat>, filled: nat, s := [], 0, Sequence([], 0, 0);
    NothingRecorded(job, table[..]);
    PutPosition(src, table, hash, 0, byU16, job, log);
    log := [0];
    PlanStarts(job);
    NothingEmitted(src[..], dst[..op]);
    while true
      invariant 1 <= ip <= src.Length - MFLIMIT + 1 && anchor <= ip
      invariant 255 * op <= 256 * anchor && op <= dst.Length && Emitted(src[..], anchor, dst[..op], b)
      invariant pending ==> anchor == ip && ip <= src.Length - MFLIMIT && MatchAt(src[..], ip, match_, MINMATCH)
      invariant OnRecord(job, table[..], log) && Before(log, if pending then ip + 1 else ip)
      invariant OnPlan(job, b, log, pending, anchor, ip, match_)
      invariant ok && (limited && pending ==> op + 1 + LASTLITERALS <= dst.Length)
      decreases src.Length - anchor
    {
      filled := ip;
      if !pending {
        ghost var log0, start, m0 := log, ip, match_;
        found, ip, match_, log, filled := NextMatch(src, table, hash, anchor, ip, acceleration, byU16, job, log);
        NowPending(job, b, log0, anchor, start, m0, found, log, ip, match_);
        if !found {
          return;
        }
      }
      PlanGoesOn(job, b, log, anchor, ip, match_);
      EndBeyond(job.src, anchor, ip, match_, filled);
      ghost var pre := dst[..op];
      var end;
      ok, op, end, s := EmitSequence(src, dst, op, anchor, ip, match_, pending, limited, b);
      if !ok {
        PlanTooLong(job, b, pre, log, anchor, ip, match_, dst.Length);
        return;
      }
      b := b + [s];
      anchor, ip := end, end;
      LaterBefore(log, filled + 1, end);
      if ip >= src.Length - MFLIMIT + 1 {
        PlanContinued(job, b, log, end);
        return;
      }
      pending, ip, match_, log := Advance(src, table, hash, end, byU16, job, log, b);
    }
  }

  /** The end of one turn of the main loop: it goes on with a match right here, or with a search behind here. */
  method Advance(src: array<byte>, table: array<nat>, hash: seq<byte> -> nat, end: nat, byU16: bool,
                 ghost job: Job, ghost log0: seq<nat>, ghost b: seq<Sequence>)
    returns (pending: bool, ip: nat, match_: nat, ghost log: seq<nat>)
    requires 4 <= end <= src.Length - MFLIMIT
    requires byU16 ==> src.Length < LIMIT_64K
    requires forall s :: hash(s) < table.Length
    requires table as object != src && job.src == src[..] && job.hash == hash && job.acceleration >= 1
    requires OnRecord(job, table[..], log0) && Before(log0, end) && Follows(job, b, log0, end)
    modifies table
    ensures if pending then ip == end && MatchAt(src[..], ip, match_, MINMATCH) else ip == end + 1
    ensures OnRecord(job, table[..], log) && Before(log, if pending then ip + 1 else ip)
    ensures OnPlan(job, b, log, pending, end, ip, match_)
  {
    hide OnRecord, Job.Plan, Job.Emit, Job.HashAt, Job.Latest, Before, MatchAt, OnPlan, Follows;
    PlanContinued(job, b, log0, end);
    pending, match_ := TestNext(src, table, hash, end, byU16, job, log0);
    log := log0 + [end - 2, end];
    ip := if pending then end else end + 1;
  }

  /** The longest match ends no earlier than the one that was found. */
  lemma EndBeyond(src: seq<byte>, anchor: nat, ip: nat, m: nat, filled: nat)
    requires anchor <= ip <= filled && filled + MFLIMIT <= |src| && MatchAt(src, ip, m, filled - ip + MINMATCH)
    ensures ip + NextSequence(src, anchor, ip, m).mlen >= filled + MINMATCH
  {
    hide Common;
    CommonMatches(src, ip + MINMATCH, m + MINMATCH, |src| - LASTLITERALS);
  }

  lemma PlanStarts(job: Job)
    requires job.acceleration >= 1
    ensures OnPlan(job, [], [0], false, 0, 1, 0) && Before([0], 1) && [] + [0] == [0]
  {
    assert [] + job.Plan([0], 0, 1) == job.Plan([0], 0, 1);
  }

  lemma LaterBefore(log: seq<nat>, p: nat, q: nat)
    requires Before(log, p) && p <= q
    ensures Before(log, q)
  {
  }

  lemma NowPending(job: Job, b: seq<Sequence>, log: seq<nat>, anchor: nat, start: nat, m0: nat, found: bool, log': seq<nat>, ip: nat, m: nat)
    requires job.acceleration >= 1 && anchor <= |job.src| && anchor <= start && OnPlan(job, b, log, false, anchor, start, m0)
    requires !found ==> job.Plan(log, anchor, start) == []
    requires found ==> anchor <= ip && ip + MFLIMIT <= |job.src| && MatchAt(job.src, ip, m, MINMATCH)
    requires found ==> job.Plan(log, anchor, start) == job.Emit(log', anchor, ip, m)
    ensures if found then OnPlan(job, b, log', true, anchor, ip, m) else b == job.Plan([0], 0, 1)
  {
    hide Job.Plan, Job.Emit, MatchAt;
    assert b + [] == b;
  }

  lemma PlanContinued(job: Job, b: seq<Sequence>, log: seq<nat>, end: nat)
    requires job.acceleration >= 1 && 2 <= end <= |job.src| && Follows(job, b, log, end)
    ensures end + MFLIMIT > |job.src| ==> b == job.Plan([0], 0, 1)
    ensures end + MFLIMIT <= |job.src| ==>
              var m, log' := job.Latest(log + [end - 2], job.HashAt(end)), log + [end - 2, end];
              if MatchAt(job.src, end, m, MINMATCH) then OnPlan(job, b, log', true, end, end, m) else OnPlan(job, b, log', false, end, end + 1, m)
  {
    hide Job.Plan, Job.Emit, MatchAt, Job.Latest, Job.HashAt;
  }

  lemma NothingEmitted(src: seq<byte>, t: seq<byte>)
    requires t == []
    ensures Emitted(src, 0, t, [])
  {
  }

  /** The last literals complete a block for the whole source. */
  lemma BlockComplete(src: seq<byte>, anchor: nat, pre: seq<byte>, b: seq<Sequence>)
    requires Emitted(src, anchor, pre, b)
    ensures IsBlockFor(pre + EncodeLast(src[anchor..]), src)
  {
    var block := Block(b, src[anchor..]);
    assert Expand(block) == src[..anchor] + src[anchor..] == src;
    assert Encode(block) == pre + EncodeLast(src[anchor..]);
  }

  /** What is emitted and the last literals are the block that is planned. */
  lemma PlanComplete(job: Job, anchor: nat, pre: seq<byte>, b: seq<Sequence>)
    requires job.acceleration >= 1 && Emitted(job.src, anchor, pre, b)
    requires b == if |job.src| < MIN_LENGTH then [] else job.Plan([0], 0, 1)
    ensures Packed(job) == pre + EncodeLast(job.src[anchor..])
  {
    hide Job.Plan, EncodeLast, EncodeSequence;
    AppliedLength([], b);
    assert |job.src[..anchor]| == anchor;
  }

  /**
   `LZ4_compress_generic_validated` without a dictionary; `limited` is the directive `limitedOutput`. The result is the
   planned block, and 0 if and only if the output has no room for it.
   */
  method CompressValidated(src: array<byte>, dst: array<byte>, table: array<nat>, hash: seq<byte> -> nat, acceleration: nat, byU16: bool, limited: bool,
                           ghost job: Job)
    returns (r: nat)
    requires src != dst && 0 < src.Length && Capacity(src.Length, dst.Length, limited)
    requires forall s :: hash(s) < table.Length
    requires table as object != src && table as object != dst && acceleration >= 1 && job == Job(src[..], hash, acceleration)
    requires forall h | 0 <= h < table.Length :: table[h] == 0
    modifies dst, table
    ensures byU16 && src.Length >= LIMIT_64K ==> r == 0
    ensures !(byU16 && src.Length >= LIMIT_64K) ==> r == if |Packed(job)| <= dst.Length then |Packed(job)| else 0
    ensures r > 0 ==> dst[..r] == Packed(job)
    ensures !limited ==> (r == 0 <==> byU16 && src.Length >= LIMIT_64K)
    ensures r > 0 ==> r <= dst.Length && r <= Bound(src.Length) && IsBlockFor(dst[..r], src[..])
  {
    hide Emitted, Bound, IsBlockFor, Extension, Job.Plan, Packed, EncodeLast;
    if byU16 && src.Length >= LIMIT_64K {
      return 0;
    }
    var ok, op, anchor := true, 0, 0;
    ghost var b := [];
    NothingEmitted(src[..], dst[..op]);
    if src.Length >= MIN_LENGTH {
      ok, op, anchor, b := CompressLoop(src, dst, table, hash, acceleration, byU16, limited, job);
      if !ok {
        return 0;
      }
    }
    LastRoom(src.Length, op, anchor);
    var lastRun := src.Length - anchor;
    ExtensionSize(lastRun);
    PlanComplete(job, anchor, dst[..op], b);
    LastBytes(src[..][anchor..]);
    if limited && op + lastRun + 1 + (lastRun + 255 - RUN_MASK) / 255 > dst.Length {
      return 0;
    }
    BlockComplete(src[..], anchor, dst[..op], b);
    r := EncodeLastLiterals(src, dst, op, anchor);
    assert src[..][anchor..] == src[anchor..];
  }

  predicate Uses16BitTable(n: nat) {
    n < LIMIT_64K
  }

  function HashSize(n: nat): nat {
    if Uses16BitTable(n) then HASH_SIZE_U16 else HASH_SIZE_U32
  }

  function Acceleration(acceleration: int): nat {
    if acceleration < 1 then ACCELERATION_DEFAULT
    else if acceleration > ACCELERATION_MAX then ACCELERATION_MAX
    else acceleration
  }

  /**
   `LZ4_compress_fast` into a buffer of any size: the planned block, unless the source is oversized or the buffer has no
   room for it. The block stands for the source and meets the compression bound. That for a run of one byte is a 255th
   of the run, and 11 bytes, at most.
   */
  method CompressFast(src: array<byte>, dst: array<byte>, hash: seq<byte> -> nat, acceleration: int) returns (r: nat)
    requires src != dst && forall s :: hash(s) < HashSize(src.Length)
    modifies dst
    ensures src.Length > MAX_INPUT_SIZE ==> r == 0
    ensures src.Length <= MAX_INPUT_SIZE ==>
              var c := Packed(Job(src[..], hash, Acceleration(acceleration)));
              if |c| <= dst.Length then r == |c| > 0 && dst[..r] == c else r == 0
    ensures src.Length <= MAX_INPUT_SIZE && dst.Length >= Bound(src.Length) ==> r > 0
    ensures r > 0 ==> r <= dst.Length && r <= Bound(src.Length) && IsBlockFor(dst[..r], src[..])
    ensures MIN_LENGTH <= src.Length <= MAX_INPUT_SIZE && (forall i | 0 <= i < src.Length :: src[i] == src[0]) ==>
              var size := 10 + |Extension(src.Length - 10)|;
              size <= 11 + src.Length / 255 && r == if size <= dst.Length then size else 0
  {
    hide IsBlockFor, Packed, BlockOf, Extension;
    var accel := if acceleration < 1 then ACCELERATION_DEFAULT
                 else if acceleration > ACCELERATION_MAX then ACCELERATION_MAX else acceleration;
    ghost var job := Job(src[..], hash, accel);
    var limited := dst.Length < Bound(src.Length);
    if src.Length > MAX_INPUT_SIZE {
      return 0;
    }
    PackedNotEmpty(job);
    if src.Length == 0 {
      EmptyPacked(job);
      if limited && dst.Length <= 0 {
        return 0;
      }
      dst[0] := 0;
      EmptyBlock(dst[..1], src[..]);
      return 1;
    }
    if src.Length >= MIN_LENGTH && forall i | 0 <= i < src.Length :: src[i] == src[0] {
      EqualBytes(job, src[0]);
    }
    var table := new nat[HashSize(src.Length)](_ => 0);
    r := CompressValidated(src, dst, table, hash, accel, Uses16BitTable(src.Length), limited, job);
  }

  lemma PackedNotEmpty(job: Job)
    requires job.acceleration >= 1
    ensures |Packed(job)| > 0
  {
    hide BlockOf;
    LastBytes(BlockOf(job).last);
  }

  lemma EmptyPacked(job: Job)
    requires job.acceleration >= 1 && job.src == []
    ensures Packed(job) == [0]
  {
    hide Encode;
    EmptyEncodes(BlockOf(job));
  }

  lemma EmptyBlock(c: seq<byte>, data: seq<byte>)
    requires c == [0] && data == []
    ensures IsBlockFor(c, data)
  {
    hide Encode, Expand, WfFrom;
    var b := Block([], data);
    EmptyEncodes(b);
    EmptyExpands(b);
    assert Wf(b, |data|);
  }

  lemma EmptyExpands(b: Block)
    requires b.seqs == [] && b.last == []
    ensures Expand(b) == [] && WfFrom(0, b.seqs, 0)
  {
    hide Apply;
  }

  /**
   Compressing and decompressing, into any buffer that has room for the source, restores the source, whatever the source,
   the hash function and the acceleration, unless it was not compressed because of the limit of the output. A buffer
   that has no room for the source makes the decompression fail.
   */
  method RoundTrip(src: array<byte>, packed: array<byte>, room: nat, hash: seq<byte> -> nat, acceleration: int)
    returns (size: nat, out: array<byte>, n: int)
    requires src != packed && src.Length <= MAX_INPUT_SIZE
    requires forall s :: hash(s) < HashSize(src.Length)
    modifies packed
    ensures packed.Length >= Bound(src.Length) ==> size > 0
    ensures out.Length == room
    ensures size > 0 ==> if src.Length <= room then n == src.Length && out[..n] == old(src[..]) else n < 0
  {
    hide IsBlockFor, Bound, HashSize, Lz4Decode.Decode, Packed;
    ghost var data := src[..];
    size := CompressFast(src, packed, hash, acceleration);
    out := new byte[room];
    n := 0;
    if size > 0 {
      var block := new byte[size](i requires 0 <= i < size reads packed => packed[i]);
      assert block[..] == packed[..size];
      Lz4Decode.DecodeInvertsEncode(block[..], data, out.Length);
      n := Lz4Decoder.DecompressSafe(block, out);
    }
  }
}
