/**
 What the compressor is to emit: which positions are probed, which earlier position each is compared with, and the
 sequences that follow from it. An earlier position is known by the hash of the 8 bytes that it starts, whatever
 the hash function, and of several with the same hash only the last one recorded is known.
 */
module Lz4Plan {
  import opened Basics
  import opened Bytes
  import opened Lz4Format

  const MIN_LENGTH := 13
  const SKIP_TRIGGER := 64

  /** The `len` bytes at `ip` repeat those at `m`, within the reach of a 16-bit offset. */
  ghost predicate MatchAt(src: seq<byte>, ip: nat, m: nat, len: nat) {
    m < ip <= m + DISTANCE_MAX && Periodic(src, ip, ip + len, ip - m)
  }

  /** How many bytes before `limit` two positions have in common. */
  function Common(src: seq<byte>, a: nat, b: nat, limit: nat): (n: nat)
    requires b < a <= limit <= |src|
    ensures a + n <= limit
    decreases limit - a
  {
    if a < limit && src[a] == src[b] then 1 + Common(src, a + 1, b + 1, limit) else 0
  }

  /** How many bytes before two positions, but not before `anchor`, are the same. */
  function Back(src: seq<byte>, anchor: nat, ip: nat, m: nat): (n: nat)
    requires anchor <= ip <= |src| && m < ip
    ensures anchor + n <= ip && n <= m
  {
    if ip > anchor && m > 0 && src[ip - 1] == src[m - 1] then 1 + Back(src, anchor, ip - 1, m - 1) else 0
  }

  /** The sequence of the literals from `anchor` and the longest match at `ip` that leaves the last literals alone. */
  function NextSequence(src: seq<byte>, anchor: nat, ip: nat, m: nat): (s: Sequence)
    requires anchor <= ip && m < ip && ip + MFLIMIT <= |src|
    ensures MINMATCH <= s.mlen && ip + s.mlen + LASTLITERALS <= |src|
  {
    Sequence(src[anchor..ip], ip - m, MINMATCH + Common(src, ip + MINMATCH, m + MINMATCH, |src| - LASTLITERALS))
  }

  /** The bytes that the sequences stand for. */
  function Length(b: seq<Sequence>): nat {
    if b == [] then 0 else |b[0].lits| + b[0].mlen + Length(b[1..])
  }

  datatype Job = Job(src: seq<byte>, hash: seq<byte> -> nat, acceleration: nat) {
    function HashAt(p: nat): nat {
      if p + 8 <= |src| then hash(src[p..p + 8]) else 0
    }

    /** The last position on record with this hash. At first every entry of the table is 0. */
    function Latest(log: seq<nat>, h: nat): nat {
      if log == [] then 0
      else if HashAt(log[|log| - 1]) == h then log[|log| - 1]
      else Latest(log[..|log| - 1], h)
    }

    /** The search takes larger steps the longer it fails. */
    function Stride(i: nat): nat {
      if i == 0 then 1 else (acceleration * SKIP_TRIGGER + i - 1) / SKIP_TRIGGER
    }

    /** The `i`-th position of a search. */
    function Probe(start: nat, i: nat): nat {
      if i == 0 then start else Probe(start, i - 1) + Stride(i - 1)
    }

    /** What is on record after `i` positions. */
    function Probed(log: seq<nat>, start: nat, i: nat): seq<nat> {
      if i == 0 then log else Probed(log, start, i - 1) + [Probe(start, i - 1)]
    }

    /** The position that a probe is compared with. */
    function Candidate(log: seq<nat>, start: nat, i: nat): nat {
      Latest(Probed(log, start, i), HashAt(Probe(start, i)))
    }

    ghost predicate Hit(log: seq<nat>, start: nat, i: nat) {
      MatchAt(src, Probe(start, i), Candidate(log, start, i), MINMATCH)
    }

    /** A probe counts only if the next one is not too near to the end. */
    predicate Tested(start: nat, i: nat) {
      Probe(start, i + 1) + MFLIMIT <= |src| + 1
    }

    lemma {:induction false} ProbeGrows(start: nat, i: nat)
      requires acceleration >= 1
      ensures Probe(start, i + 1) > Probe(start, i) >= start + i
    {
      if i > 0 {
        ProbeGrows(start, i - 1);
      }
      StrideSteps(i);
    }

    lemma StrideSteps(i: nat)
      requires acceleration >= 1
      ensures Stride(i) >= 1
    {
    }

    /** The first hit among the tested probes, from the `i`-th on. */
    ghost function FirstHit(log: seq<nat>, start: nat, i: nat): (r: Option<nat>)
      requires acceleration >= 1
      ensures r.Some? ==> i <= r.value && Tested(start, r.value) && Hit(log, start, r.value)
      decreases |src| - i
    {
      ProbeGrows(start, i);
      if !Tested(start, i) then None
      else if Hit(log, start, i) then Some(i)
      else FirstHit(log, start, i + 1)
    }

    /** What the compressor emits when it searches from `ip`, and when it has a match at `ip`. */
    ghost function Plan(log: seq<nat>, anchor: nat, ip: nat): (b: seq<Sequence>)
      requires acceleration >= 1 && anchor <= ip && anchor <= |src|
      ensures Encodable(b) && anchor + Length(b) <= |src| && (b != [] ==> anchor + Length(b) + LASTLITERALS <= |src|)
      decreases |src| - anchor, 1
    {
      match FirstHit(log, ip, 0)
      case None => []
      case Some(i) =>
        var p, m := Probe(ip, i), Candidate(log, ip, i);
        ProbeGrows(ip, i);
        var n := Back(src, anchor, p, m);
        BackMatches(src, anchor, p, m, MINMATCH);
        Emit(Probed(log, ip, i + 1), anchor, p - n, m - n)
    }

    ghost function Emit(log: seq<nat>, anchor: nat, ip: nat, m: nat): (b: seq<Sequence>)
      requires acceleration >= 1 && anchor <= ip && ip + MFLIMIT <= |src| && MatchAt(src, ip, m, MINMATCH)
      ensures b != [] && Encodable(b) && anchor + Length(b) + LASTLITERALS <= |src|
      decreases |src| - anchor, 0
    {
      var s := NextSequence(src, anchor, ip, m);
      var end := ip + s.mlen;
      [s] + if end + MFLIMIT > |src| then [] else
        var m' := Latest(log + [end - 2], HashAt(end));
        var log' := log + [end - 2, end];
        if MatchAt(src, end, m', MINMATCH) then Emit(log', end, end, m') else Plan(log', end, end + 1)
    }
  }

  /** A match that is extended backwards stays a match. */
  lemma {:induction false} BackMatches(src: seq<byte>, anchor: nat, ip: nat, m: nat, len: nat)
    requires anchor <= ip <= |src| && MatchAt(src, ip, m, len)
    ensures var n := Back(src, anchor, ip, m); MatchAt(src, ip - n, m - n, len + n)
  {
    if ip > anchor && m > 0 && src[ip - 1] == src[m - 1] {
      BackMatches(src, anchor, ip - 1, m - 1, len + 1);
    }
  }

  // ---- what is on record ----

  /** What a hash stands for is the last position on record that has it. */
  lemma {:induction false} LatestExactly(job: Job, log: seq<nat>, h: nat, i: nat)
    requires i < |log| && job.HashAt(log[i]) == h && forall j | i < j < |log| :: job.HashAt(log[j]) != h
    ensures job.Latest(log, h) == log[i]
  {
    if i < |log| - 1 {
      LatestExactly(job, log[..|log| - 1], h, i);
    }
  }

  lemma {:induction false} LatestNone(job: Job, log: seq<nat>, h: nat)
    requires forall j | 0 <= j < |log| :: job.HashAt(log[j]) != h
    ensures job.Latest(log, h) == 0
  {
    if log != [] {
      LatestNone(job, log[..|log| - 1], h);
    }
  }

  /** Every position on record lies before `p`. */
  ghost predicate Before(log: seq<nat>, p: nat) {
    forall i | 0 <= i < |log| :: log[i] < p
  }

  lemma {:induction false} LatestBefore(job: Job, log: seq<nat>, h: nat, p: nat)
    requires Before(log, p) && p > 0
    ensures job.Latest(log, h) < p
  {
    if log != [] {
      LatestBefore(job, log[..|log| - 1], h, p);
    }
  }

  lemma LatestAfter(job: Job, log: seq<nat>, p: nat, h: nat)
    ensures job.Latest(log + [p], h) == if job.HashAt(p) == h then p else job.Latest(log, h)
  {
    assert (log + [p])[..|log|] == log;
  }

  // ---- the search ----

  lemma {:induction false} ProbesAscend(job: Job, start: nat, i: nat, j: nat)
    requires job.acceleration >= 1 && i <= j
    ensures job.Probe(start, i) <= job.Probe(start, j)
    decreases j - i
  {
    if i < j {
      job.ProbeGrows(start, i);
      ProbesAscend(job, start, i + 1, j);
    }
  }

  /** The search finds the first probe that repeats its candidate, and fails only if no tested probe does. */
  lemma {:induction false} FirstHitExactly(job: Job, log: seq<nat>, start: nat, i: nat, k: nat)
    requires job.acceleration >= 1 && i <= k && job.Tested(start, k)
    ensures var r := job.FirstHit(log, start, i);
            && (r.None? ==> !job.Hit(log, start, k))
            && (r.Some? && k < r.value ==> !job.Hit(log, start, k))
    decreases k - i
  {
    hide Job.Hit;
    ProbesAscend(job, start, i + 1, k + 1);
    if i < k {
      FirstHitExactly(job, log, start, i + 1, k);
    }
  }

  lemma {:induction false} ProbedBefore(job: Job, log: seq<nat>, start: nat, i: nat)
    requires job.acceleration >= 1 && Before(log, start)
    ensures Before(job.Probed(log, start, i), job.Probe(start, i))
  {
    if i > 0 {
      ProbedBefore(job, log, start, i - 1);
      job.ProbeGrows(start, i - 1);
    }
  }

  // ---- how far a match goes ----

  /** The longest common run is the one behind which the bytes differ or the limit lies. */
  lemma {:induction false} CommonExactly(src: seq<byte>, a: nat, b: nat, limit: nat, n: nat)
    requires b < a && a + n <= limit <= |src| && Periodic(src, a, a + n, a - b)
    requires a + n == limit || src[a + n] != src[b + n]
    ensures n == Common(src, a, b, limit)
    decreases n
  {
    if n > 0 {
      assert src[a] == src[a - (a - b)];
      CommonExactly(src, a + 1, b + 1, limit, n - 1);
    }
  }

  lemma {:induction false} CommonMatches(src: seq<byte>, a: nat, b: nat, limit: nat)
    requires b < a <= limit <= |src|
    ensures var n := Common(src, a, b, limit);
            Periodic(src, a, a + n, a - b) && (a + n == limit || src[a + n] != src[b + n])
    decreases limit - a
  {
    if a < limit && src[a] == src[b] {
      CommonMatches(src, a + 1, b + 1, limit);
    }
  }

  // ---- the block ----

  lemma {:induction false} AppliedLength(out: seq<byte>, b: seq<Sequence>)
    ensures |ApplyAll(out, b)| == |out| + Length(b)
    decreases |b|
  {
    if b != [] {
      AppliedLength(Apply(out, b[0]), b[1..]);
    }
  }

  /** The block for a source: sources of less than 13 bytes are not searched. */
  ghost function BlockOf(job: Job): (b: Block)
    requires job.acceleration >= 1
    ensures Encodable(b.seqs)
  {
    var seqs := if |job.src| < MIN_LENGTH then [] else job.Plan([0], 0, 1);
    Block(seqs, job.src[Length(seqs)..])
  }

  ghost function Packed(job: Job): seq<byte>
    requires job.acceleration >= 1
  {
    Encode(BlockOf(job))
  }

  // ---- repetitions ----

  /** A source of period `d` whose first `d` windows have hashes of their own, and start differently from the first. */
  ghost predicate Repetitive(job: Job, d: nat) {
    && 1 <= d && |job.src| >= d + MFLIMIT && Periodic(job.src, d, |job.src|, d)
    && (forall i, j | 0 <= i < j < d :: job.HashAt(i) != job.HashAt(j))
    && (forall p | 0 < p < d :: Word(job.src, p) != Word(job.src, 0))
  }

  function Word(src: seq<byte>, p: nat): seq<byte>
    requires p + 4 <= |src|
  {
    src[p..p + 4]
  }

  lemma PeriodFits(job: Job, d: nat)
    requires Repetitive(job, d)
    ensures 1 <= d && |job.src| >= d + MFLIMIT
  {
  }

  /** The search has not begun to skip. */
  lemma {:induction false} Unskipped(job: Job, i: nat)
    requires i <= 1 || (job.acceleration == 1 && i <= 65)
    ensures job.Probe(1, i) == i + 1
    ensures |job.Probed([0], 1, i)| == i + 1 && forall j | 0 <= j <= i :: job.Probed([0], 1, i)[j] == j
  {
    if i > 0 {
      Unskipped(job, i - 1);
    }
  }

  lemma SameWindow(job: Job, d: nat)
    requires Repetitive(job, d)
    ensures job.HashAt(d) == job.HashAt(0) && MatchAt(job.src, d, 0, MINMATCH) == (d <= DISTANCE_MAX)
  {
    assert job.src[d..d + 8] == job.src[0..8];
  }

  /** The probes before `d` do not match, and the one at `d` does. */
  lemma ProbeOf(job: Job, d: nat, i: nat)
    requires job.acceleration >= 1 && (d == 1 || (job.acceleration == 1 && d <= 65)) && Repetitive(job, d) && i < d
    ensures job.Tested(1, i) && job.Candidate([0], 1, i) == 0 && (job.Hit([0], 1, i) <==> i == d - 1)
  {
    hide Job.HashAt, Job.Latest;
    var log := job.Probed([0], 1, i);
    Unskipped(job, i);
    Unskipped(job, i + 1);
    SameWindow(job, d);
    if i == d - 1 {
      LatestExactly(job, log, job.HashAt(d), 0);
    } else {
      LatestNone(job, log, job.HashAt(i + 1));
      MatchedWord(job.src, i + 1);
    }
  }

  lemma MatchedWord(src: seq<byte>, p: nat)
    requires p > 0 && p + 4 <= |src|
    ensures MatchAt(src, p, 0, MINMATCH) ==> Word(src, p) == Word(src, 0)
  {
    if MatchAt(src, p, 0, MINMATCH) {
      var u, v := Word(src, p), Word(src, 0);
      forall k | 0 <= k < 4 ensures u[k] == v[k] {
        assert src[p + k] == src[p + k - p];
      }
    }
  }

  lemma {:induction false} FoundAt(job: Job, d: nat, i: nat)
    requires job.acceleration >= 1 && (d == 1 || (job.acceleration == 1 && d <= 65)) && Repetitive(job, d) && i < d
    ensures job.FirstHit([0], 1, i) == Some(d - 1)
    decreases d - i
  {
    hide Job.Hit, Job.Tested, Repetitive;
    ProbeOf(job, d, i);
    if i < d - 1 {
      FoundAt(job, d, i + 1);
    }
  }

  lemma EmitRest(job: Job, d: nat, log: seq<nat>)
    requires job.acceleration >= 1 && Repetitive(job, d) && d <= DISTANCE_MAX
    ensures MatchAt(job.src, d, 0, MINMATCH) && job.Emit(log, 0, d, 0) == [Sequence(job.src[..d], d, |job.src| - 5 - d)]
  {
    SameWindow(job, d);
    RestMatches(job, d);
    hide Repetitive, Common, Job.Latest, Job.HashAt, Job.Plan;
  }

  lemma RestMatches(job: Job, d: nat)
    requires Repetitive(job, d)
    ensures |job.src| >= d + MFLIMIT && NextSequence(job.src, 0, d, 0) == Sequence(job.src[..d], d, |job.src| - 5 - d)
  {
    var n := |job.src|;
    CommonExactly(job.src, d + 4, 4, n - 5, n - 9 - d);
    assert job.src[0..d] == job.src[..d];
  }

  /** Such a source becomes its first period, one match for all the rest, and the last literals. */
  lemma RepetitionShrinks(job: Job, d: nat)
    requires job.acceleration >= 1 && (d == 1 || (job.acceleration == 1 && d <= 65)) && Repetitive(job, d)
    ensures var n := |job.src|;
            && BlockOf(job) == Block([Sequence(job.src[..d], d, n - 5 - d)], job.src[n - 5..])
            && |Packed(job)| == 9 + |Extension(d)| + d + |Extension(n - 9 - d)|
  {
    hide Extension, Job.Emit, Job.Plan, Repetitive;
    var n := |job.src|;
    PeriodFits(job, d);
    SearchedPlan(job, d);
    var b := BlockOf(job);
    assert b.seqs[1..] == [];
    assert Length(b.seqs) == n - 5;
    OneSequence(b.seqs, b.last);
  }

  lemma SearchedPlan(job: Job, d: nat)
    requires job.acceleration >= 1 && (d == 1 || (job.acceleration == 1 && d <= 65)) && Repetitive(job, d)
    ensures job.Plan([0], 0, 1) == [Sequence(job.src[..d], d, |job.src| - 5 - d)]
  {
    hide Job.Emit, Job.FirstHit, Job.Hit, Job.Tested, Repetitive, Job.Candidate;
    PeriodFits(job, d);
    FoundAt(job, d, 0);
    ProbeOf(job, d, d - 1);
    Unskipped(job, d - 1);
    EmitRest(job, d, job.Probed([0], 1, d));
  }

  /** Equal bytes shrink whatever the hash function and the acceleration. */
  lemma EqualBytes(job: Job, x: byte)
    requires job.acceleration >= 1 && |job.src| >= MIN_LENGTH && forall i | 0 <= i < |job.src| :: job.src[i] == x
    ensures var n := |job.src|;
            && BlockOf(job) == Block([Sequence([x], 1, n - 6)], [x, x, x, x, x])
            && |Packed(job)| == 10 + |Extension(n - 10)| <= 11 + n / 255
  {
    hide Job.Plan, BlockOf, Packed;
    var n := |job.src|;
    assert Repetitive(job, 1);
    RepetitionShrinks(job, 1);
    assert job.src[..1] == [x] && job.src[n - 5..] == [x, x, x, x, x];
    ExtensionSize(1);
    ExtensionSize(n - 10);
  }

  // ---- runs ----

  datatype Run = Run(x: byte, n: nat)

  function Spread(r: seq<Run>): seq<byte> {
    if r == [] then [] else seq(r[0].n, _ => r[0].x) + Spread(r[1..])
  }

  /** Every run is long enough to be found, and none has the byte of another. */
  predicate Apart(r: seq<Run>) {
    && (forall i | 0 <= i < |r| :: r[i].n >= MIN_LENGTH)
    && (forall i, j | 0 <= i < j < |r| :: r[i].x != r[j].x)
  }

  /** One literal and one match for each run; the last match leaves five bytes. */
  function RunSequences(r: seq<Run>): seq<Sequence>
    requires Apart(r) && r != []
  {
    if |r| == 1 then [Sequence([r[0].x], 1, r[0].n - 6)]
    else [Sequence([r[0].x], 1, r[0].n - 1)] + RunSequences(r[1..])
  }

  /** The run at `p`, with nothing of it before and nothing of it behind. */
  ghost predicate RunAt(src: seq<byte>, p: nat, x: byte, n: nat) {
    && MIN_LENGTH <= n && p + n <= |src|
    && (forall i | p <= i < p + n :: src[i] == x) && (forall i | 0 <= i < p :: src[i] != x)
    && (p + n < |src| ==> src[p + n] != x && p + n + MIN_LENGTH <= |src|)
  }

  /** The second byte of a run matches the first one. */
  lemma RunFound(job: Job, p: nat, x: byte, n: nat, log: seq<nat>)
    requires job.acceleration >= 1 && RunAt(job.src, p, x, n)
    ensures var log' := log + [p];
            && MatchAt(job.src, p + 1, p, MINMATCH)
            && job.Plan(log', p, p + 1) == job.Emit(log' + [p + 1], p, p + 1, p)
  {
    hide Job.Emit;
    var log' := log + [p];
    assert job.src[p..p + 8] == job.src[p + 1..p + 9];
    assert job.HashAt(p) == job.HashAt(p + 1);
    LatestAfter(job, log, p, job.HashAt(p + 1));
    hide Job.HashAt, Job.Latest;
    assert job.Stride(0) == 1 && job.Probe(p + 1, 0) == p + 1 && job.Probe(p + 1, 1) == p + 2 && job.Tested(p + 1, 0);
    assert job.Candidate(log', p + 1, 0) == p;
    assert job.FirstHit(log', p + 1, 0) == Some(0);
    assert job.Probed(log', p + 1, 1) == log' + [p + 1];
    assert Back(job.src, p, p + 1, p) == 0;
  }

  lemma RunMatch(src: seq<byte>, p: nat, x: byte, n: nat)
    requires RunAt(src, p, x, n)
    ensures p + 1 + MFLIMIT <= |src| && NextSequence(src, p, p + 1, p) == Sequence([x], 1, if p + n == |src| then n - 6 else n - 1)
  {
    var limit := |src| - LASTLITERALS;
    CommonExactly(src, p + 5, p + 4, limit, if p + n == |src| then n - 10 else n - 5);
    assert src[p..p + 1] == [x];
  }

  /** Right behind a run nothing matches, because its byte has not been seen. */
  lemma NothingSeen(job: Job, log: seq<nat>, p: nat, x: byte, n: nat)
    requires RunAt(job.src, p, x, n) && Before(log, p)
    ensures !MatchAt(job.src, p, job.Latest(log, job.HashAt(p)), MINMATCH)
  {
    var m := job.Latest(log, job.HashAt(p));
    assert job.src[p] == x;
    if m < p {
      assert job.src[m] != x;
    }
  }

  /** The search goes on behind a match that nothing follows. */
  lemma EmitThenPlan(job: Job, log: seq<nat>, anchor: nat, ip: nat, m: nat)
    requires job.acceleration >= 1 && anchor <= ip && ip + MFLIMIT <= |job.src| && MatchAt(job.src, ip, m, MINMATCH)
    ensures var s := NextSequence(job.src, anchor, ip, m);
            var end := ip + s.mlen;
            && (end + MFLIMIT > |job.src| ==> job.Emit(log, anchor, ip, m) == [s])
            && (end + MFLIMIT <= |job.src| && !MatchAt(job.src, end, job.Latest(log + [end - 2], job.HashAt(end)), MINMATCH) ==>
                  job.Emit(log, anchor, ip, m) == [s] + job.Plan(log + [end - 2, end], end, end + 1))
  {
    hide Job.Plan, Job.Latest, Job.HashAt, MatchAt, NextSequence;
  }

  lemma RunEmitted(job: Job, p: nat, x: byte, n: nat, y: byte, k: nat, log: seq<nat>)
    requires job.acceleration >= 1 && RunAt(job.src, p, x, n) && Before(log, p + 2)
    requires p + n < |job.src| ==> RunAt(job.src, p + n, y, k)
    ensures MatchAt(job.src, p + 1, p, MINMATCH)
    ensures job.Emit(log, p, p + 1, p) ==
              if p + n == |job.src| then [Sequence([x], 1, n - 6)]
              else [Sequence([x], 1, n - 1)] + job.Plan((log + [p + n - 2]) + [p + n], p + n, p + n + 1)
  {
    hide Job.Emit, Job.Plan, Job.Latest, Job.HashAt, MatchAt, Common, NextSequence;
    RunFound(job, p, x, n, []);
    RunMatch(job.src, p, x, n);
    EmitThenPlan(job, log, p, p + 1, p);
    RunFits(job.src, p, x, n);
    var end := p + n;
    if end < |job.src| {
      RunFits(job.src, end, y, k);
      NothingSeen(job, log + [end - 2], end, y, k);
      assert (log + [end - 2]) + [end] == log + [end - 2, end];
    }
  }

  lemma RunFits(src: seq<byte>, p: nat, x: byte, n: nat)
    requires RunAt(src, p, x, n)
    ensures MIN_LENGTH <= n && p + n <= |src|
  {
  }

  /** The bytes of the runs do not come before `p`. */
  ghost predicate Unseen(src: seq<byte>, p: nat, r: seq<Run>)
    requires p <= |src|
  {
    forall i, j | 0 <= i < p && 0 <= j < |r| :: src[i] != r[j].x
  }

  lemma SpreadHead(src: seq<byte>, p: nat, r: seq<Run>)
    requires r != [] && p <= |src| && src[p..] == Spread(r)
    ensures p + r[0].n <= |src| && src[p + r[0].n..] == Spread(r[1..])
    ensures forall i | p <= i < p + r[0].n :: src[i] == r[0].x
  {
    var n := r[0].n;
    var here, rest := seq(n, _ => r[0].x), Spread(r[1..]);
    assert src[p..] == here + rest;
    assert src[p + n..] == rest;
    forall i | p <= i < p + n ensures src[i] == r[0].x {
      assert src[i] == src[p..][i - p] == here[i - p];
    }
  }

  lemma SpreadRun(src: seq<byte>, p: nat, r: seq<Run>)
    requires Apart(r) && r != [] && p <= |src| && src[p..] == Spread(r) && Unseen(src, p, r)
    ensures RunAt(src, p, r[0].x, r[0].n) && p + r[0].n <= |src| && src[p + r[0].n..] == Spread(r[1..])
    ensures p + r[0].n == |src| <==> |r| == 1
    ensures Apart(r[1..]) && Unseen(src, p + r[0].n, r[1..])
  {
    SpreadHead(src, p, r);
    var end, more := p + r[0].n, r[1..];
    if more != [] {
      SpreadHead(src, end, more);
    }
    assert |r| == 1 ==> Spread(more) == [];
    hide Spread;
    ApartRest(src, p, r);
    assert forall i | 0 <= i < p :: src[i] != r[0].x;
  }

  lemma ApartRest(src: seq<byte>, p: nat, r: seq<Run>)
    requires Apart(r) && r != [] && p + r[0].n <= |src| && Unseen(src, p, r)
    requires forall i | p <= i < p + r[0].n :: src[i] == r[0].x
    ensures Apart(r[1..]) && Unseen(src, p + r[0].n, r[1..])
  {
    var more := r[1..];
    forall i, j | 0 <= i < p + r[0].n && 0 <= j < |more| ensures src[i] != more[j].x {
      assert more[j] == r[j + 1];
    }
  }

  lemma LaterLog(log: seq<nat>, p: nat, n: nat)
    requires Before(log, p) && n >= MIN_LENGTH
    ensures var log' := (log + [p]) + [p + 1]; Before(log', p + 2) && Before(log' + [p + n - 2], p + n)
  {
  }

  /** From the beginning of one run to the beginning of the next. */
  lemma RunPlanned(job: Job, p: nat, x: byte, n: nat, y: byte, k: nat, log: seq<nat>)
    requires job.acceleration >= 1 && RunAt(job.src, p, x, n) && Before(log, p)
    requires p + n < |job.src| ==> RunAt(job.src, p + n, y, k)
    ensures var log' := ((log + [p]) + [p + 1]) + [p + n - 2];
            && Before(log', p + n) && p + n <= |job.src|
            && job.Plan(log + [p], p, p + 1) ==
                 if p + n == |job.src| then [Sequence([x], 1, n - 6)]
                 else [Sequence([x], 1, n - 1)] + job.Plan(log' + [p + n], p + n, p + n + 1)
  {
    hide Job.Plan, Job.Emit, RunAt, Before, MatchAt;
    RunFits(job.src, p, x, n);
    LaterLog(log, p, n);
    RunFound(job, p, x, n, log);
    RunEmitted(job, p, x, n, y, k, (log + [p]) + [p + 1]);
  }

  lemma {:induction false} RunsFrom(job: Job, r: seq<Run>, p: nat, log: seq<nat>)
    requires job.acceleration >= 1 && Apart(r) && r != [] && p <= |job.src| && job.src[p..] == Spread(r) && Unseen(job.src, p, r)
    requires Before(log, p)
    ensures job.Plan(log + [p], p, p + 1) == RunSequences(r)
    decreases |r|
  {
    hide Job.Plan, RunAt, Spread, Apart, Unseen, Before;
    var x, n, more := r[0].x, r[0].n, r[1..];
    SpreadRun(job.src, p, r);
    RunFits(job.src, p, x, n);
    if |r| == 1 {
      RunPlanned(job, p, x, n, x, n, log);
    } else {
      SpreadRun(job.src, p + n, more);
      RunPlanned(job, p, x, n, more[0].x, more[0].n, log);
      RunsFrom(job, more, p + n, ((log + [p]) + [p + 1]) + [p + n - 2]);
    }
  }

  /** A source of runs takes one literal and one match for each of them, whatever the hash function and the acceleration. */
  lemma RunsShrink(job: Job, r: seq<Run>)
    requires job.acceleration >= 1 && Apart(r) && r != [] && job.src == Spread(r)
    ensures BlockOf(job).seqs == RunSequences(r)
  {
    hide Job.Plan, Spread, RunAt, Apart;
    assert job.src[0..] == job.src;
    SpreadRun(job.src, 0, r);
    RunFits(job.src, 0, r[0].x, r[0].n);
    RunsFrom(job, r, 0, []);
    assert [] + [0] == [0];
  }

  lemma OneSequence(seqs: seq<Sequence>, last: seq<byte>)
    requires |last| == 5 && |seqs| == 1 && seqs[0].mlen >= MINMATCH
    ensures Encodable(seqs)
    ensures |Encode(Block(seqs, last))| == 9 + |Extension(|seqs[0].lits|)| + |seqs[0].lits| + |Extension(seqs[0].mlen - MINMATCH)|
  {
    hide EncodeSequence, EncodeLast;
    assert seqs[1..] == [];
    assert EncodeAll(seqs) == EncodeSequence(seqs[0]) + [];
    SequenceBytes(seqs[0]);
    LastBytes(last);
    ExtensionSize(5);
  }

  // ---- sizes ----

  lemma ExtensionSize(v: nat)
    ensures |Extension(v)| == if v < 15 then 0 else (v - 15) / 255 + 1
    ensures |Extension(v)| == (v + 240) / 255 && 255 * |Extension(v)| <= v + 240
  {
  }

  lemma SequenceBytes(s: Sequence)
    requires s.mlen >= MINMATCH
    ensures |EncodeSequence(s)| == 3 + |Extension(|s.lits|)| + |s.lits| + |Extension(s.mlen - MINMATCH)|
  {
    hide Extension;
  }

  lemma LastBytes(last: seq<byte>)
    ensures |EncodeLast(last)| == 1 + |Extension(|last|)| + |last|
  {
    hide Extension;
  }
}
