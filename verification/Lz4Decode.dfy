/**
 Decoding an LZ4 block: a reference decoder that copies one byte at a time, and the theorem that
 it inverts the encoding of every block that obeys the parsing restrictions.
 */
module Lz4Decode {
  import opened Basics
  import opened Bytes
  import opened Lz4Format

  datatype Outcome = Done(out: seq<byte>) | Fail(ip: nat)

  /** What one token does: ends the block, yields more output, or is an error at `ip`. */
  datatype Step = Last(out: seq<byte>) | More(ip: nat, out: seq<byte>) | Bad(ip: nat)

  datatype Length = Length(value: nat, ip: nat, hit: bool)

  /** The loop of `read_variable_length`: a 32-bit sum of bytes up to the first that is not 255. */
  function ReadLength(src: seq<byte>, ip: nat, acc: nat, lencheck: int): (r: Length)
    requires ip < |src| && lencheck <= |src|
    ensures ip < r.ip <= |src|
    ensures !r.hit ==> r.ip < lencheck
    decreases |src| - ip
  {
    var acc' := (acc + src[ip]) % U32;
    if ip + 1 >= lencheck then Length(acc', ip + 1, true)
    else if src[ip] == 255 then ReadLength(src, ip + 1, acc', lencheck)
    else Length(acc', ip + 1, false)
  }

  function Read16(src: seq<byte>, ip: nat): nat
    requires ip + 2 <= |src|
  {
    src[ip] as int + 256 * src[ip + 1] as int
  }

  /** The output and input both leave room for the unconditional 16- and 18-byte copies. */
  predicate Roomy(lit: nat, ip: nat, len: nat, op: nat, cap: nat) {
    lit != RUN_MASK && ip < len - 16 && op <= cap - 32
  }

  /** What follows the token if it does not hold the whole number of literals. */
  function LiteralLength(src: seq<byte>, lit: nat, ip: nat): (r: Length)
    requires ip <= |src|
    ensures ip <= r.ip <= |src|
  {
    if lit == RUN_MASK && ip < |src| - RUN_MASK then ReadLength(src, ip, 0, |src| - RUN_MASK) else Length(0, ip, false)
  }

  /** `n` literals at `ip`, which end the block if they are its last bytes. */
  function CopyRun(src: seq<byte>, ip: nat, n: nat, out: seq<byte>, cap: nat): (r: Step)
    requires ip <= |src| && |out| <= cap
    ensures r.More? ==> r.ip + 2 < |src| && |r.out| <= cap - MFLIMIT && |out| <= |r.out| && ip <= r.ip
    ensures r.Last? ==> |r.out| <= cap
  {
    if |out| + n > cap - MFLIMIT || ip + n > |src| - (2 + 1 + LASTLITERALS) then
      if ip + n != |src| || |out| + n > cap then Bad(ip) else Last(out + src[ip..])
    else
      More(ip + n, out + src[ip..ip + n])
  }

  /** The literals of one token. `ip` is the position just after the token. */
  function StepLiterals(src: seq<byte>, token: byte, ip: nat, out: seq<byte>, cap: nat): (r: Step)
    requires ip <= |src| && |out| <= cap
    ensures r.More? ==> r.ip + 2 < |src| && |r.out| <= cap - MFLIMIT
    ensures r.More? && Roomy(token / 16, ip, |src|, |out|, cap) ==> |r.out| <= cap - 18
    ensures r.More? ==> |out| <= |r.out| && ip <= r.ip
    ensures r.Last? ==> |r.out| <= cap
  {
    var lit := token / 16;
    if Roomy(lit, ip, |src|, |out|, cap) then
      More(ip + lit, out + src[ip..ip + lit])
    else if lit == RUN_MASK && ip >= |src| - RUN_MASK then
      Bad(ip)
    else
      var ext := LiteralLength(src, lit, ip);
      CopyRun(src, ext.ip, lit + ext.value, out, cap)
  }

  /** The match of one token. `ip` is the position of its 2-byte offset. */
  function StepMatch(src: seq<byte>, token: byte, roomy: bool, ip: nat, out: seq<byte>, cap: nat): (r: Step)
    requires ip + 2 < |src|
    requires |out| <= cap - if roomy then 18 else MFLIMIT
    ensures !r.Last?
    ensures r.More? ==> ip < r.ip < |src| && |r.out| <= cap
  {
    var offset := Read16(src, ip);
    var code := token % 16;
    if roomy && code != ML_MASK && 8 <= offset <= |out| then
      More(ip + 2, Repeat(out, offset, code + MINMATCH))
    else
      var ext := if code == ML_MASK then ReadLength(src, ip + 2, 0, |src| - LASTLITERALS + 1) else Length(0, ip + 2, false);
      var n := code + ext.value + MINMATCH;
      if ext.hit || offset > |out| || |out| + n > cap - LASTLITERALS then Bad(ext.ip)
      else More(ext.ip, Repeat(out, offset, n))
  }

  function StepSequence(src: seq<byte>, ip: nat, out: seq<byte>, cap: nat): (r: Step)
    requires ip < |src| && |out| <= cap
    ensures r.More? ==> ip < r.ip < |src| && |r.out| <= cap
    ensures r.Last? ==> |r.out| <= cap
  {
    var token := src[ip];
    var s := StepLiterals(src, token, ip + 1, out, cap);
    if s.More? then
      StepMatch(src, token, Roomy(token / 16, ip + 1, |src|, |out|, cap), s.ip, s.out, cap)
    else s
  }

  function DecodeFrom(src: seq<byte>, ip: nat, out: seq<byte>, cap: nat): (r: Outcome)
    requires ip < |src| && |out| <= cap
    ensures r.Done? ==> |r.out| <= cap
    decreases |src| - ip
  {
    match StepSequence(src, ip, out, cap)
    case Last(o) => Done(o)
    case Bad(i) => Fail(i)
    case More(i, o) => DecodeFrom(src, i, o, cap)
  }

  function Decode(src: seq<byte>, cap: nat): (r: Outcome)
    ensures r.Done? ==> |r.out| <= cap
  {
    if cap == 0 then (if src == [0] then Done([]) else Fail(0))
    else if src == [] then Fail(0)
    else DecodeFrom(src, 0, [], cap)
  }

  /** The C return value. */
  function ReturnCode(o: Outcome): int {
    if o.Done? then |o.out| else -1 - o.ip
  }

  // ---- decoding inverts encoding ----

  lemma TokenNibbles(lit: nat, m: nat)
    ensures Token(lit, m) / 16 == Nibble(lit) && Token(lit, m) % 16 == Nibble(m)
  {
    hide Nibble;
  }

  /** `src` holds `part` at `ip`. */
  ghost predicate Holds(src: seq<byte>, ip: nat, part: seq<byte>) {
    ip + |part| <= |src| && src[ip..ip + |part|] == part
  }

  lemma HoldsSplit(src: seq<byte>, ip: nat, a: seq<byte>, b: seq<byte>)
    requires Holds(src, ip, a + b)
    ensures Holds(src, ip, a) && Holds(src, ip + |a|, b)
  {
    var ab := src[ip..ip + |a| + |b|];
    assert src[ip..ip + |a|] == ab[..|a|] == a;
    assert src[ip + |a|..ip + |a| + |b|] == ab[|a|..] == b;
  }

  /** Reading back a length extension, as long as the limit lies beyond its bytes 255. */
  lemma {:induction false} ReadExtension(src: seq<byte>, ip: nat, v: nat, acc: nat, lencheck: int)
    requires Holds(src, ip, LengthExtension(v)) && lencheck <= |src|
    requires acc + v < U32
    requires ip + |LengthExtension(v)| <= lencheck
    ensures var r := ReadLength(src, ip, acc, lencheck);
            && r.value == acc + v && r.ip == ip + |LengthExtension(v)|
            && r.hit == (r.ip == lencheck)
    decreases v
  {
    hide LengthExtension, ReadLength, Holds;
    FirstOfExtension(v);
    if v >= 255 {
      var rest := LengthExtension(v - 255);
      assert |LengthExtension(v)| == 1 + |rest| && |rest| >= 1;
      HoldsSplit(src, ip, [255], rest);
      HoldsFirst(src, ip, 255);
      ReadOne(src, ip, acc, lencheck);
      ReadExtension(src, ip + 1, v - 255, acc + 255, lencheck);
    } else {
      HoldsFirst(src, ip, v);
      ReadOne(src, ip, acc, lencheck);
    }
  }

  lemma ReadOne(src: seq<byte>, ip: nat, acc: nat, lencheck: int)
    requires ip < |src| && lencheck <= |src| && acc + src[ip] < U32
    ensures ReadLength(src, ip, acc, lencheck)
         == if ip + 1 >= lencheck then Length(acc + src[ip], ip + 1, true)
            else if src[ip] == 255 then ReadLength(src, ip + 1, acc + 255, lencheck)
            else Length(acc + src[ip], ip + 1, false)
  {
  }

  lemma FirstOfExtension(v: nat)
    ensures LengthExtension(v) == if v >= 255 then [255] + LengthExtension(v - 255) else [v]
    ensures |LengthExtension(v)| >= 1 && (v >= 255 ==> |LengthExtension(v)| == 1 + |LengthExtension(v - 255)| >= 2)
  {
  }

  lemma HoldsFirst(src: seq<byte>, ip: nat, x: byte)
    requires Holds(src, ip, [x])
    ensures ip < |src| && src[ip] == x
  {
    assert src[ip] == src[ip..ip + 1][0];
  }

  lemma ReadLiteralLength(src: seq<byte>, token: byte, ip: nat, n: nat)
    requires token / 16 == Nibble(n) && n < U32
    requires Holds(src, ip, Extension(n)) && ip + |Extension(n)| + n <= |src|
    ensures token / 16 == RUN_MASK ==> ip < |src| - RUN_MASK
    ensures var ext := LiteralLength(src, token / 16, ip);
            ext.ip == ip + |Extension(n)| && token / 16 + ext.value == n
  {
    hide LengthExtension, ReadLength;
    if n >= 15 {
      FirstOfExtension(n - 15);
      ReadExtension(src, ip, n - 15, 0, |src| - RUN_MASK);
    }
  }

  /** Literals whose number is read are copied, whichever way. */
  lemma RunRead(src: seq<byte>, token: byte, ip: nat, out: seq<byte>, cap: nat, n: nat)
    requires token / 16 == Nibble(n) && n < U32 && |out| <= cap
    requires Holds(src, ip, Extension(n)) && ip + |Extension(n)| + n <= |src|
    ensures StepLiterals(src, token, ip, out, cap)
         == if Roomy(token / 16, ip, |src|, |out|, cap) then More(ip + n, out + src[ip..ip + n])
            else CopyRun(src, ip + |Extension(n)|, n, out, cap)
    ensures Roomy(token / 16, ip, |src|, |out|, cap) ==> |Extension(n)| == 0 && token / 16 == n
  {
    hide CopyRun, LiteralLength, LengthExtension;
    ReadLiteralLength(src, token, ip, n);
  }

  /** The literals of a sequence are copied, unless the output has no room for what must follow them. */
  lemma StepLiteralsEncoded(src: seq<byte>, token: byte, ip: nat, out: seq<byte>, cap: nat, lits: seq<byte>)
    requires token / 16 == Nibble(|lits|) && |lits| < U32 && |out| <= cap
    requires Holds(src, ip, Extension(|lits|) + lits)
    requires ip + |Extension(|lits|)| + |lits| <= |src| - 8
    ensures var r := StepLiterals(src, token, ip, out, cap);
            && (r.Bad? || r == More(ip + |Extension(|lits|)| + |lits|, out + lits))
            && (|out| + |lits| <= cap - MFLIMIT ==> r.More?)
  {
    hide StepLiterals, Extension, Nibble, Roomy;
    HoldsSplit(src, ip, Extension(|lits|), lits);
    RunRead(src, token, ip, out, cap, |lits|);
  }

  /** The last literals are copied if and only if the output has room for them. */
  lemma StepLastEncoded(src: seq<byte>, token: byte, ip: nat, out: seq<byte>, cap: nat, last: seq<byte>)
    requires token / 16 == Nibble(|last|) && |last| < U32 && |out| <= cap
    requires Holds(src, ip, Extension(|last|) + last)
    requires ip + |Extension(|last|)| + |last| == |src|
    ensures var r := StepLiterals(src, token, ip, out, cap); if |out| + |last| <= cap then r == Last(out + last) else r.Bad?
  {
    HoldsSplit(src, ip, Extension(|last|), last);
    RunRead(src, token, ip, out, cap, |last|);
    hide StepLiterals, Extension, Nibble;
    assert src[ip + |Extension(|last|)|..] == last;
  }

  lemma ReadOffset(src: seq<byte>, ip: nat, offset: nat)
    requires Holds(src, ip, Little16(offset)) && offset <= DISTANCE_MAX
    ensures Read16(src, ip) == offset
  {
    assert src[ip] == src[ip..ip + 2][0] && src[ip + 1] == src[ip..ip + 2][1];
  }

  lemma ReadMatchLength(src: seq<byte>, token: byte, ip: nat, m: nat)
    requires token % 16 == Nibble(m) && m < U32 && ip < |src|
    requires Holds(src, ip, Extension(m)) && ip + |Extension(m)| <= |src| - 6
    ensures var ext := if token % 16 == ML_MASK then ReadLength(src, ip, 0, |src| - LASTLITERALS + 1) else Length(0, ip, false);
            ext.ip == ip + |Extension(m)| && token % 16 + ext.value == m && !ext.hit
  {
    if m >= 15 {
      ReadExtension(src, ip, m - 15, 0, |src| - LASTLITERALS + 1);
    }
  }

  /** A match is copied, unless the output has no room for it and for the last literals. */
  lemma StepMatchEncoded(src: seq<byte>, token: byte, roomy: bool, ip: nat, out: seq<byte>, cap: nat, offset: nat, mlen: nat)
    requires MINMATCH <= mlen < U32 && token % 16 == Nibble(mlen - MINMATCH)
    requires Holds(src, ip, Little16(offset)) && Holds(src, ip + 2, Extension(mlen - MINMATCH))
    requires ip + 2 + |Extension(mlen - MINMATCH)| <= |src| - 6
    requires 1 <= offset <= |out| && offset <= DISTANCE_MAX
    requires |out| <= cap - if roomy then 18 else MFLIMIT
    ensures var r := StepMatch(src, token, roomy, ip, out, cap);
            && (r.Bad? || r == More(ip + 2 + |Extension(mlen - MINMATCH)|, Repeat(out, offset, mlen)))
            && (|out| + mlen <= cap - LASTLITERALS ==> r.More?)
  {
    hide Holds, Repeat, ReadLength;
    ReadOffset(src, ip, offset);
    ReadMatchLength(src, token, ip + 2, mlen - MINMATCH);
    if roomy && token % 16 != ML_MASK && 8 <= offset {
      assert Extension(mlen - MINMATCH) == [] && token % 16 + MINMATCH == mlen;
    }
  }

  lemma HoldsHead(src: seq<byte>, ip: nat, x: byte, rest: seq<byte>)
    requires Holds(src, ip, [x] + rest)
    ensures src[ip] == x && Holds(src, ip + 1, rest)
  {
    HoldsSplit(src, ip, [x], rest);
    assert src[ip] == src[ip..ip + 1][0];
  }

  lemma EncodeSequenceParts(src: seq<byte>, ip: nat, s: Sequence)
    requires s.mlen >= MINMATCH && Holds(src, ip, EncodeSequence(s))
    ensures var e, m := |Extension(|s.lits|)|, s.mlen - MINMATCH;
            && ip < |src| && src[ip] == Token(|s.lits|, m)
            && Holds(src, ip + 1, Extension(|s.lits|) + s.lits)
            && Holds(src, ip + 1 + e + |s.lits|, Little16(s.offset))
            && Holds(src, ip + 1 + e + |s.lits| + 2, Extension(m))
            && |EncodeSequence(s)| == 1 + e + |s.lits| + 2 + |Extension(m)|
  {
    hide Holds, Extension, Token;
    var m := s.mlen - MINMATCH;
    var lit, off, ext := Extension(|s.lits|) + s.lits, Little16(s.offset), Extension(m);
    HoldsHead(src, ip, Token(|s.lits|, m), lit + (off + ext));
    HoldsSplit(src, ip + 1, lit, off + ext);
    HoldsSplit(src, ip + 1 + |lit|, off, ext);
  }

  lemma WfHead(pos: nat, s: Sequence, n: nat)
    requires WfFrom(pos, [s], n)
    ensures MINMATCH <= s.mlen && 1 <= s.offset <= DISTANCE_MAX && s.offset <= pos + |s.lits|
    ensures pos + |s.lits| + MFLIMIT <= n && pos + |s.lits| + s.mlen + LASTLITERALS <= n
  {
  }

  /** A sequence of a block for `n` bytes is decoded, or refused if the output has no room for `n` bytes. */
  lemma StepSequenceEncoded(src: seq<byte>, ip: nat, out: seq<byte>, cap: nat, s: Sequence, rest: nat, n: nat)
    requires n < U32 && rest >= 6 && |out| <= cap
    requires WfFrom(|out|, [s], n)
    requires Holds(src, ip, EncodeSequence(s)) && ip + |EncodeSequence(s)| + rest == |src|
    ensures ip < |src|
    ensures var r := StepSequence(src, ip, out, cap);
            && (r.Bad? || r == More(ip + |EncodeSequence(s)|, Apply(out, s)))
            && (n <= cap ==> r.More?)
  {
    hide Holds, EncodeSequence, Extension, Repeat, StepLiterals, StepMatch, WfFrom, Token, Nibble, Little16;
    WfHead(|out|, s, n);
    EncodeSequenceParts(src, ip, s);
    var e := |Extension(|s.lits|)|;
    TokenNibbles(|s.lits|, s.mlen - MINMATCH);
    StepLiteralsEncoded(src, src[ip], ip + 1, out, cap, s.lits);
    var roomy := Roomy(src[ip] / 16, ip + 1, |src|, |out|, cap);
    if StepLiterals(src, src[ip], ip + 1, out, cap).More? {
      StepMatchEncoded(src, src[ip], roomy, ip + 1 + e + |s.lits|, out + s.lits, cap, s.offset, s.mlen);
    }
  }

  /** A well-formed block that continues with a sequence ends with at least 5 literals. */
  lemma {:induction false} LastLiterals(out: seq<byte>, seqs: seq<Sequence>, n: nat)
    requires WfFrom(|out|, seqs, n) && seqs != []
    ensures |ApplyAll(out, seqs)| + LASTLITERALS <= n
    decreases |seqs|
  {
    if seqs[1..] != [] {
      LastLiterals(Apply(out, seqs[0]), seqs[1..], n);
    }
  }

  lemma DecodeLast(src: seq<byte>, ip: nat, out: seq<byte>, cap: nat, last: seq<byte>)
    requires |last| < U32 && |out| <= cap
    requires ip <= |src| && src[ip..] == EncodeLast(last)
    ensures ip < |src|
    ensures var r := DecodeFrom(src, ip, out, cap); if |out| + |last| <= cap then r == Done(out + last) else r.Fail?
  {
    var body := Extension(|last|) + last;
    HoldsHead(src, ip, Token(|last|, 0), body);
    TokenNibbles(|last|, 0);
    StepLastEncoded(src, src[ip], ip + 1, out, cap, last);
  }

  /** What is left of a block for `n` bytes is decoded if and only if the output has room for `n` bytes. */
  lemma {:induction false} DecodeEncoded(src: seq<byte>, ip: nat, out: seq<byte>, cap: nat, seqs: seq<Sequence>, last: seq<byte>, n: nat)
    requires n < U32 && Encodable(seqs)
    requires WfFrom(|out|, seqs, n) && |ApplyAll(out, seqs)| + |last| == n && |out| <= cap
    requires ip <= |src| && src[ip..] == EncodeAll(seqs) + EncodeLast(last)
    ensures ip < |src|
    ensures var r := DecodeFrom(src, ip, out, cap); if n <= cap then r == Done(ApplyAll(out, seqs) + last) else r.Fail?
    decreases |seqs|
  {
    hide EncodeSequence, StepSequence, EncodeLast, Apply, Holds;
    if seqs == [] {
      assert EncodeAll(seqs) + EncodeLast(last) == EncodeLast(last);
      DecodeLast(src, ip, out, cap, last);
    } else {
      var e, rest := EncodeSequence(seqs[0]), EncodeAll(seqs[1..]) + EncodeLast(last);
      LastLiterals(out, seqs, n);
      EncodedRest(src, ip, seqs, last);
      StepSequenceEncoded(src, ip, out, cap, seqs[0], |rest|, n);
      if StepSequence(src, ip, out, cap).More? {
        DecodeEncoded(src, ip + |e|, Apply(out, seqs[0]), cap, seqs[1..], last, n);
      }
    }
  }

  lemma EncodedRest(src: seq<byte>, ip: nat, seqs: seq<Sequence>, last: seq<byte>)
    requires Encodable(seqs) && seqs != []
    requires ip <= |src| && src[ip..] == EncodeAll(seqs) + EncodeLast(last)
    ensures var e, rest := EncodeSequence(seqs[0]), EncodeAll(seqs[1..]) + EncodeLast(last);
            && Holds(src, ip, e) && ip + |e| + |rest| == |src| && src[ip + |e|..] == rest
            && |rest| >= 1 + |last|
  {
    hide EncodeSequence, EncodeLast;
    var e, more, z := EncodeSequence(seqs[0]), EncodeAll(seqs[1..]), EncodeLast(last);
    assert EncodeAll(seqs) == e + more;
    assert (e + more) + z == e + (more + z);
    LastIsLonger(last);
    RestHeld(src, ip, e, more + z);
  }

  lemma LastIsLonger(last: seq<byte>)
    ensures |EncodeLast(last)| >= 1 + |last|
  {
  }

  lemma RestHeld(src: seq<byte>, ip: nat, e: seq<byte>, rest: seq<byte>)
    requires ip <= |src| && src[ip..] == e + rest
    ensures Holds(src, ip, e) && ip + |e| + |rest| == |src| && src[ip + |e|..] == rest
  {
    var w := src[ip..];
    assert |w| == |src| - ip;
    assert src[ip..ip + |e|] == w[..|e|] == e;
    assert src[ip + |e|..] == w[|e|..] == rest;
  }

  /** Decoding inverts encoding, on every block: into a buffer that has room for the data, and into no smaller one. */
  lemma DecodeInvertsEncode(c: seq<byte>, data: seq<byte>, cap: nat)
    requires IsBlockFor(c, data) && |data| <= MAX_INPUT_SIZE
    ensures if |data| <= cap then Decode(c, cap) == Done(data) else Decode(c, cap).Fail?
  {
    var b: Block :| Encodable(b.seqs) && Wf(b, |data|) && c == Encode(b) && Expand(b) == data;
    if cap > 0 {
      hide Decode, Encode, Expand;
      DecodeWhole(c, data, b, cap);
    } else if data == [] {
      DecodeNothing(b);
    } else {
      hide Encode, Expand, DecodeFrom;
      DecodeWhole(c, data, b, |data|);
      DecodeWhole(c, data, b, 1);
      OnlyNothing(|data|);
    }
  }

  /** The block `[0]` stands for nothing. */
  lemma OnlyNothing(cap: nat)
    requires cap > 0
    ensures Decode([0], cap) == Done([])
  {
    hide EncodeLast, DecodeFrom;
    EmptyLast([]);
    assert [0][0..] == [0];
    DecodeLast([0], 0, [], cap, []);
  }

  /** The parsing restrictions leave no room for a match in an empty block. */
  lemma NothingExpands(b: Block)
    requires Wf(b, 0)
    ensures b.seqs == [] && b.last == []
  {
  }

  lemma DecodeNothing(b: Block)
    requires Encodable(b.seqs) && Wf(b, 0) && Expand(b) == []
    ensures Decode(Encode(b), 0) == Done([])
  {
    NothingExpands(b);
    hide Expand, Wf, Encode;
    EmptyEncodes(b);
  }

  lemma DecodeWhole(c: seq<byte>, data: seq<byte>, b: Block, cap: nat)
    requires Encodable(b.seqs) && Wf(b, |data|) && c == Encode(b) && Expand(b) == data && cap > 0 && |data| <= MAX_INPUT_SIZE
    ensures if |data| <= cap then Decode(c, cap) == Done(data) else Decode(c, cap).Fail?
  {
    hide EncodeSequence, EncodeLast;
    assert c[0..] == c;
    DecodeEncoded(c, 0, [], cap, b.seqs, b.last, |data|);
  }
}
