/**
 The LZ4 block format: sequences of literals and back-references, their meaning, and their bytes.
 The meaning copies a match one byte at a time, so a match may overlap its own output.
 */
module Lz4Format {
  import opened Bytes

  const MINMATCH := 4
  const LASTLITERALS := 5
  const MFLIMIT := 12
  const RUN_MASK := 15
  const ML_MASK := 15
  const DISTANCE_MAX := 65535
  const MAX_INPUT_SIZE := 0x7E000000

  datatype Sequence = Sequence(lits: seq<byte>, offset: nat, mlen: nat)
  datatype Block = Block(seqs: seq<Sequence>, last: seq<byte>)

  // ---- meaning ----

  /** The byte that a match of distance `offset` yields next.  Distance 0 yields zeros. */
  function Next(out: seq<byte>, offset: nat): byte {
    if 0 < offset <= |out| then out[|out| - offset] else 0
  }

  function Repeat(out: seq<byte>, offset: nat, n: nat): (r: seq<byte>)
    ensures |r| == |out| + n
    decreases n
  {
    if n == 0 then out else Repeat(out + [Next(out, offset)], offset, n - 1)
  }

  function Apply(out: seq<byte>, s: Sequence): (r: seq<byte>)
    ensures |r| == |out| + |s.lits| + s.mlen
  {
    Repeat(out + s.lits, s.offset, s.mlen)
  }

  function ApplyAll(out: seq<byte>, seqs: seq<Sequence>): seq<byte>
    decreases |seqs|
  {
    if seqs == [] then out else ApplyAll(Apply(out, seqs[0]), seqs[1..])
  }

  function Expand(b: Block): seq<byte> {
    ApplyAll([], b.seqs) + b.last
  }

  // ---- parsing restrictions ----

  /** The sequences may follow `pos` bytes of output in a block of `n` bytes. */
  predicate WfFrom(pos: nat, seqs: seq<Sequence>, n: nat)
    decreases |seqs|
  {
    seqs == [] ||
    var start := pos + |seqs[0].lits|;
    && 1 <= seqs[0].offset <= DISTANCE_MAX
    && seqs[0].offset <= start
    && MINMATCH <= seqs[0].mlen
    && start + MFLIMIT <= n
    && start + seqs[0].mlen + LASTLITERALS <= n
    && WfFrom(start + seqs[0].mlen, seqs[1..], n)
  }

  predicate Wf(b: Block, n: nat) {
    WfFrom(0, b.seqs, n) && |Expand(b)| == n
  }

  // ---- bytes ----

  function LengthExtension(v: nat): (r: seq<byte>)
    ensures |r| == v / 255 + 1
  {
    if v >= 255 then [255] + LengthExtension(v - 255) else [v]
  }

  function Extension(v: nat): seq<byte> {
    if v >= 15 then LengthExtension(v - 15) else []
  }

  function Nibble(v: nat): (r: nat)
    ensures r <= 15
  {
    if v >= 15 then 15 else v
  }

  function Token(lit: nat, match_: nat): byte {
    16 * Nibble(lit) + Nibble(match_)
  }

  function Little16(v: nat): seq<byte> {
    [v % 256, v / 256 % 256]
  }

  function EncodeSequence(s: Sequence): seq<byte>
    requires s.mlen >= MINMATCH
  {
    [Token(|s.lits|, s.mlen - MINMATCH)]
      + ((Extension(|s.lits|) + s.lits) + (Little16(s.offset) + Extension(s.mlen - MINMATCH)))
  }

  function EncodeLast(last: seq<byte>): seq<byte> {
    [Token(|last|, 0)] + (Extension(|last|) + last)
  }

  predicate Encodable(seqs: seq<Sequence>) {
    forall s | s in seqs :: s.mlen >= MINMATCH
  }

  function EncodeAll(seqs: seq<Sequence>): seq<byte>
    requires Encodable(seqs)
    decreases |seqs|
  {
    if seqs == [] then [] else EncodeSequence(seqs[0]) + EncodeAll(seqs[1..])
  }

  function Encode(b: Block): seq<byte>
    requires Encodable(b.seqs)
  {
    EncodeAll(b.seqs) + EncodeLast(b.last)
  }

  /** `c` is a block that obeys the parsing restrictions and stands for `data`. */
  ghost predicate IsBlockFor(c: seq<byte>, data: seq<byte>) {
    exists b: Block :: Encodable(b.seqs) && Wf(b, |data|) && c == Encode(b) && Expand(b) == data
  }

  // ---- the block for an empty source ----

  lemma EmptyEncodes(b: Block)
    requires b.seqs == [] && b.last == []
    ensures Encodable(b.seqs) && Encode(b) == [0]
  {
    hide EncodeLast, EncodeSequence;
    EmptyLast(b.last);
  }

  lemma EmptyLast(last: seq<byte>)
    requires last == []
    ensures EncodeLast(last) == [0]
  {
    hide LengthExtension, Token;
    NoLength(last);
    var r := EncodeLast(last);
    assert |r| == 1 && r[0] == 0;
  }

  lemma NoLength(last: seq<byte>)
    requires last == []
    ensures Extension(|last|) == [] && Token(|last|, 0) == 0
  {
    hide LengthExtension;
  }

  // ---- a match copy is determined by its period ----

  /** Positions `lo` to `hi` of `t` repeat what lies `d` before them. */
  ghost predicate Periodic(t: seq<byte>, lo: int, hi: int, d: int) {
    0 <= d <= lo && hi <= |t| && forall k | lo <= k < hi :: t[k] == t[k - d]
  }

  /** Any sequence that continues `out` with period `offset` is the byte-by-byte copy. */
  lemma {:induction false} RepeatUnique(out: seq<byte>, offset: nat, n: nat, t: seq<byte>)
    requires offset <= |out|
    requires |t| == |out| + n && t[..|out|] == out
    requires forall k | |out| <= k < |t| :: t[k] == if offset == 0 then 0 else t[k - offset]
    ensures t == Repeat(out, offset, n)
    decreases n
  {
    if n > 0 {
      var out' := out + [Next(out, offset)];
      if offset > 0 {
        assert t[|out| - offset] == t[..|out|][|out| - offset];
      }
      assert t[..|out'|] == out';
      RepeatUnique(out', offset, n - 1, t);
    } else {
      assert t[..|out|] == t;
    }
  }

  // ---- appending a sequence ----

  lemma {:induction false} ApplyAllAppend(out: seq<byte>, seqs: seq<Sequence>, s: Sequence)
    ensures ApplyAll(out, seqs + [s]) == Apply(ApplyAll(out, seqs), s)
    decreases |seqs|
  {
    if seqs == [] {
      assert (seqs + [s])[1..] == [];
    } else {
      assert (seqs + [s])[1..] == seqs[1..] + [s];
      ApplyAllAppend(Apply(out, seqs[0]), seqs[1..], s);
    }
  }

  lemma {:induction false} EncodeAllAppend(seqs: seq<Sequence>, s: Sequence)
    requires Encodable(seqs) && s.mlen >= MINMATCH
    ensures Encodable(seqs + [s])
    ensures EncodeAll(seqs + [s]) == EncodeAll(seqs) + EncodeSequence(s)
    decreases |seqs|
  {
    if seqs == [] {
      assert (seqs + [s])[1..] == [];
    } else {
      assert (seqs + [s])[1..] == seqs[1..] + [s];
      EncodeAllAppend(seqs[1..], s);
    }
  }

  lemma {:induction false} WfAppend(out: seq<byte>, seqs: seq<Sequence>, s: Sequence, n: nat)
    requires WfFrom(|out|, seqs, n)
    requires WfFrom(|ApplyAll(out, seqs)|, [s], n)
    ensures WfFrom(|out|, seqs + [s], n)
    decreases |seqs|
  {
    if seqs == [] {
      assert seqs + [s] == [s];
    } else {
      assert (seqs + [s])[1..] == seqs[1..] + [s];
      WfAppend(Apply(out, seqs[0]), seqs[1..], s, n);
    }
  }
}
