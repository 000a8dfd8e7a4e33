/**
 What the decoder accepts: only sequences of literals and matches, each written as the format says, and its output is
 what they stand for.
 */
module Lz4Accepts {
  import opened Basics
  import opened Bytes
  import opened Lz4Format
  import opened Lz4Decode

  /** The literals that end a block; the low half of their token, here `junk`, means nothing. */
  function EndsWith(last: seq<byte>, junk: nat): seq<byte>
    requires junk < 16
  {
    [16 * Nibble(|last|) + junk] + (Extension(|last|) + last)
  }

  /**
   What the decoder lets pass of a sequence behind `pos` bytes of output: the match starts within the output, or has offset
   0, and leaves room for the last literals, unless there was so much room that this was not looked at.
   */
  predicate Passes(pos: nat, s: Sequence, cap: nat) {
    var start := pos + |s.lits|;
    && s.offset <= start && s.offset <= DISTANCE_MAX && MINMATCH <= s.mlen && start + MFLIMIT <= cap
    && (start + s.mlen + LASTLITERALS <= cap || (pos + 32 <= cap && |s.lits| < 15 && s.mlen < 19 && s.offset >= 8))
  }

  predicate AllPass(pos: nat, seqs: seq<Sequence>, cap: nat)
    decreases |seqs|
  {
    seqs == [] || (Passes(pos, seqs[0], cap) && AllPass(pos + |seqs[0].lits| + seqs[0].mlen, seqs[1..], cap))
  }

  /** No sum of length bytes leaves the machine word. */
  predicate Small(src: seq<byte>) {
    255 * |src| + 15 < U32
  }

  lemma HoldsJoin(src: seq<byte>, ip: nat, a: seq<byte>, b: seq<byte>)
    requires Holds(src, ip, a) && Holds(src, ip + |a|, b)
    ensures Holds(src, ip, a + b)
  {
    var n := |a| + |b|;
    assert src[ip..ip + n] == src[ip..ip + |a|] + src[ip + |a|..ip + n];
  }

  // ---- lengths ----

  /** A length that is read is written as the format says, unless the limit cut it off behind a byte 255. */
  lemma {:induction false} LengthRead(src: seq<byte>, ip: nat, acc: nat, lencheck: int) returns (v: nat)
    requires ip < |src| && lencheck <= |src| && acc + 255 * (|src| - ip) < U32
    ensures var r := ReadLength(src, ip, acc, lencheck);
            || (Holds(src, ip, LengthExtension(v)) && r.value == acc + v && r.ip == ip + |LengthExtension(v)|)
            || (r.hit && r.value >= acc + 255 && r.ip >= lencheck)
    decreases |src| - ip
  {
    hide Holds, LengthExtension;
    ReadOne(src, ip, acc, lencheck);
    v := src[ip];
    OneByte(src, ip);
    FirstOfExtension(v);
    if src[ip] == 255 && ip + 1 < lencheck {
      var more := LengthRead(src, ip + 1, acc + 255, lencheck);
      v := 255 + more;
      FirstOfExtension(v);
      if Holds(src, ip + 1, LengthExtension(more)) {
        HoldsJoin(src, ip, [255], LengthExtension(more));
      }
    }
  }

  lemma OneByte(src: seq<byte>, ip: nat)
    requires ip < |src|
    ensures Holds(src, ip, [src[ip]]) && Holds(src, ip, [])
  {
    assert src[ip..ip + 1] == [src[ip]];
  }

  /** The number of literals, unless it was cut off so near to the end that it cannot be right. */
  lemma LiteralsRead(src: seq<byte>, lit: nat, ip: nat) returns (n: nat)
    requires ip < |src| && lit <= 15 && Small(src) && (lit == RUN_MASK ==> ip < |src| - RUN_MASK)
    ensures var ext := LiteralLength(src, lit, ip);
            || (n == lit + ext.value && lit == Nibble(n) && Holds(src, ip, Extension(n)) && ext.ip == ip + |Extension(n)|)
            || (ext.ip >= |src| - RUN_MASK && lit + ext.value >= 270)
  {
    hide Holds, LengthExtension, ReadLength;
    OneByte(src, ip);
    n := lit;
    if lit == RUN_MASK {
      var v := LengthRead(src, ip, 0, |src| - RUN_MASK);
      n := 15 + v;
    }
  }

  // ---- one sequence ----

  /** Literals that are accepted are written as the format says. */
  lemma LiteralsAccepted(src: seq<byte>, token: byte, ip: nat, out: seq<byte>, cap: nat) returns (lits: seq<byte>)
    requires ip <= |src| && |out| <= cap && Small(src) && !StepLiterals(src, token, ip, out, cap).Bad?
    ensures token / 16 == Nibble(|lits|) && Holds(src, ip, Extension(|lits|) + lits)
    ensures var r, end := StepLiterals(src, token, ip, out, cap), ip + |Extension(|lits|)| + |lits|;
            if r.More? then r == More(end, out + lits) else r == Last(out + lits) && end == |src|
  {
    hide LiteralLength, Small, CopyRun, Holds;
    var lit := token / 16;
    if Roomy(lit, ip, |src|, |out|, cap) {
      lits := src[ip..ip + lit];
      OneByte(src, ip);
      HoldsRun(src, ip, lit, []);
    } else {
      lits := RunAccepted(src, lit, ip, out, cap);
    }
  }

  lemma HoldsRun(src: seq<byte>, at: nat, n: nat, e: seq<byte>)
    requires |e| <= at && at + n <= |src| && Holds(src, at - |e|, e)
    ensures Holds(src, at - |e|, e + src[at..at + n])
    ensures at + n == |src| ==> src[at..at + n] == src[at..]
  {
    HoldsJoin(src, at - |e|, e, src[at..at + n]);
  }

  lemma RunAccepted(src: seq<byte>, lit: nat, ip: nat, out: seq<byte>, cap: nat) returns (lits: seq<byte>)
    requires ip <= |src| && |out| <= cap && Small(src) && lit <= 15 && (lit == RUN_MASK ==> ip < |src| - RUN_MASK)
    requires var ext := LiteralLength(src, lit, ip); !CopyRun(src, ext.ip, lit + ext.value, out, cap).Bad?
    ensures lit == Nibble(|lits|) && Holds(src, ip, Extension(|lits|) + lits)
    ensures var ext := LiteralLength(src, lit, ip);
            var r, end := CopyRun(src, ext.ip, lit + ext.value, out, cap), ip + |Extension(|lits|)| + |lits|;
            if r.More? then r == More(end, out + lits) else r == Last(out + lits) && end == |src|
  {
    hide ReadLength, LengthExtension, Holds;
    if ip == |src| {
      lits := [];
      NoBytes(src);
      return;
    }
    var n := LiteralsRead(src, lit, ip);
    var at := LiteralLength(src, lit, ip).ip;
    hide LiteralLength, Small;
    lits := src[at..at + n];
    HoldsRun(src, at, n, Extension(n));
  }

  lemma NoBytes(src: seq<byte>)
    ensures Holds(src, |src|, Extension(0) + []) && Nibble(0) == 0
  {
  }

  /** A match that is accepted is written as the format says. */
  lemma MatchAccepted(src: seq<byte>, token: byte, roomy: bool, ip: nat, out: seq<byte>, cap: nat) returns (offset: nat, m: nat)
    requires ip + 2 < |src| && Small(src) && |out| <= cap - if roomy then 18 else MFLIMIT
    requires StepMatch(src, token, roomy, ip, out, cap).More?
    ensures offset <= |out| && offset <= DISTANCE_MAX && token % 16 == Nibble(m)
    ensures Holds(src, ip, Little16(offset) + Extension(m))
    ensures StepMatch(src, token, roomy, ip, out, cap) == More(ip + 2 + |Extension(m)|, Repeat(out, offset, m + MINMATCH))
    ensures |out| + m + MINMATCH + LASTLITERALS <= cap || (roomy && m < 15 && offset >= 8)
  {
    hide ReadLength, LengthExtension, Holds, Repeat;
    offset := Read16(src, ip);
    m := token % 16;
    TwoBytes(src, ip);
    OneByte(src, ip + 2);
    if m == ML_MASK && !(roomy && m != ML_MASK && 8 <= offset <= |out|) {
      var v := LengthRead(src, ip + 2, 0, |src| - LASTLITERALS + 1);
      m := 15 + v;
    }
    HoldsJoin(src, ip, Little16(offset), Extension(m));
  }

  lemma TwoBytes(src: seq<byte>, ip: nat)
    requires ip + 2 <= |src|
    ensures Holds(src, ip, Little16(Read16(src, ip))) && Read16(src, ip) <= DISTANCE_MAX
  {
    assert src[ip..ip + 2] == Little16(Read16(src, ip));
  }

  /** A token that does not end the block stands for one sequence. */
  lemma SequenceAccepted(src: seq<byte>, ip: nat, out: seq<byte>, cap: nat) returns (s: Sequence)
    requires ip < |src| && |out| <= cap && Small(src) && StepSequence(src, ip, out, cap).More?
    ensures Passes(|out|, s, cap) && s.mlen >= MINMATCH && Holds(src, ip, EncodeSequence(s))
    ensures StepSequence(src, ip, out, cap) == More(ip + |EncodeSequence(s)|, Apply(out, s))
  {
    hide Holds, Extension, StepLiterals, StepMatch, Little16, Small, Repeat;
    var token := src[ip];
    var lits := LiteralsAccepted(src, token, ip + 1, out, cap);
    var l, roomy := StepLiterals(src, token, ip + 1, out, cap), Roomy(token / 16, ip + 1, |src|, |out|, cap);
    var offset, m := MatchAccepted(src, token, roomy, l.ip, l.out, cap);
    s := Sequence(lits, offset, m + MINMATCH);
    OneByte(src, ip);
    Tokens(token, |lits|, m);
    SequenceHeld(src, ip, s);
  }

  lemma Tokens(token: byte, lit: nat, m: nat)
    requires token / 16 == Nibble(lit) && token % 16 == Nibble(m)
    ensures token == Token(lit, m) && (token / 16 != RUN_MASK ==> lit < 15)
  {
  }

  lemma SequenceHeld(src: seq<byte>, ip: nat, s: Sequence)
    requires s.mlen >= MINMATCH && Holds(src, ip, [Token(|s.lits|, s.mlen - MINMATCH)])
    requires var lit := Extension(|s.lits|) + s.lits;
             && Holds(src, ip + 1, lit) && Holds(src, ip + 1 + |lit|, Little16(s.offset) + Extension(s.mlen - MINMATCH))
    ensures Holds(src, ip, EncodeSequence(s))
    ensures |EncodeSequence(s)| == 1 + |Extension(|s.lits|)| + |s.lits| + 2 + |Extension(s.mlen - MINMATCH)|
  {
    hide Holds, Extension, Token;
    var token, lit, rest := [Token(|s.lits|, s.mlen - MINMATCH)], Extension(|s.lits|) + s.lits, Little16(s.offset) + Extension(s.mlen - MINMATCH);
    HoldsJoin(src, ip + 1, lit, rest);
    HoldsJoin(src, ip, token, lit + rest);
  }

  /** The token that ends the block stands for the last literals. */
  lemma LastAccepted(src: seq<byte>, ip: nat, out: seq<byte>, cap: nat) returns (last: seq<byte>, junk: nat)
    requires ip < |src| && |out| <= cap && Small(src) && StepSequence(src, ip, out, cap).Last?
    ensures junk < 16 && src[ip..] == EndsWith(last, junk) && StepSequence(src, ip, out, cap) == Last(out + last)
  {
    hide Extension, StepLiterals, StepMatch;
    last := LiteralsAccepted(src, src[ip], ip + 1, out, cap);
    junk := src[ip] % 16;
    OneByte(src, ip);
    var body := Extension(|last|) + last;
    HoldsJoin(src, ip, [src[ip]], body);
    assert src[ip..] == src[ip..ip + |[src[ip]] + body|];
  }

  // ---- whole blocks ----

  lemma HeldRest(src: seq<byte>, ip: nat, e: seq<byte>, rest: seq<byte>)
    requires Holds(src, ip, e) && src[ip + |e|..] == rest
    ensures src[ip..] == e + rest
  {
    assert src[ip..] == src[ip..ip + |e|] + src[ip + |e|..];
  }

  lemma {:induction false} AcceptedFrom(src: seq<byte>, ip: nat, out: seq<byte>, cap: nat) returns (seqs: seq<Sequence>, last: seq<byte>, junk: nat)
    requires ip < |src| && |out| <= cap && Small(src) && DecodeFrom(src, ip, out, cap).Done?
    ensures junk < 16 && Encodable(seqs) && AllPass(|out|, seqs, cap)
    ensures src[ip..] == EncodeAll(seqs) + EndsWith(last, junk)
    ensures DecodeFrom(src, ip, out, cap) == Done(ApplyAll(out, seqs) + last)
    decreases |src| - ip
  {
    hide StepSequence, EncodeSequence, EndsWith, Holds, Apply, Passes, Small;
    if StepSequence(src, ip, out, cap).Last? {
      last, junk := LastAccepted(src, ip, out, cap);
      seqs := [];
      assert EncodeAll([]) + EndsWith(last, junk) == EndsWith(last, junk);
    } else {
      var s := SequenceAccepted(src, ip, out, cap);
      var more;
      more, last, junk := AcceptedFrom(src, ip + |EncodeSequence(s)|, Apply(out, s), cap);
      seqs := [s] + more;
      PassesMore(|out|, s, more, cap);
      var e, a, z := EncodeSequence(s), EncodeAll(more), EndsWith(last, junk);
      HeldRest(src, ip, e, a + z);
      assert (e + a) + z == e + (a + z);
    }
  }

  lemma PassesMore(pos: nat, s: Sequence, more: seq<Sequence>, cap: nat)
    requires Passes(pos, s, cap) && AllPass(pos + |s.lits| + s.mlen, more, cap) && Encodable(more)
    ensures AllPass(pos, [s] + more, cap) && Encodable([s] + more) && ([s] + more)[1..] == more
  {
    assert ([s] + more)[1..] == more;
  }

  /**
   What the decoder accepts is a row of sequences that it lets pass, and last literals, all of them written as the format
   says but for the low half of the last token; and its output is what they stand for.
   */
  lemma AcceptsOnlyBlocks(src: seq<byte>, cap: nat) returns (seqs: seq<Sequence>, last: seq<byte>, junk: nat)
    requires Small(src) && Decode(src, cap).Done?
    ensures junk < 16 && Encodable(seqs) && AllPass(0, seqs, cap)
    ensures src == EncodeAll(seqs) + EndsWith(last, junk)
    ensures Decode(src, cap) == Done(ApplyAll([], seqs) + last) && |ApplyAll([], seqs) + last| <= cap
  {
    hide EndsWith, Small, EncodeSequence, DecodeFrom;
    if cap == 0 {
      seqs, last, junk := [], [], 0;
      EndsEmpty();
      assert ApplyAll([], []) + [] == [] && EncodeAll([]) + [0] == [0];
    } else {
      seqs, last, junk := AcceptedFrom(src, 0, [], cap);
      assert src[0..] == src;
    }
  }

  lemma EndsEmpty()
    ensures EndsWith([], 0) == [0]
  {
    NoBytes([]);
  }
}
