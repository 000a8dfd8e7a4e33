/**
 The decoder as it runs: it copies 8 bytes at a time, past the end of what it needs, and repairs
 overlapping matches with two small tables.  It computes exactly what the reference decoder computes.
 Every array access below is checked to stay inside the source and destination buffers.
 */
module Lz4Decoder {
  import opened Basics
  import opened Bytes
  import opened Lz4Format
  import opened Lz4Decode

  const INC32: seq<int> := [0, 1, 2, 1, 0, 4, 4, 4]
  const DEC64: seq<int> := [0, 0, 0, -1, -4, 1, 2, 3]

  /** The distance between destination and source once 8 bytes of a short-offset match are out. */
  function Stride(offset: nat): (d: nat)
    requires offset < 8
    ensures d >= 8
  {
    8 + offset - INC32[offset] + DEC64[offset]
  }

  // ---- strides keep the period ----

  lemma {:induction false} Chain(t: seq<byte>, lo: nat, hi: nat, o: nat, k: nat, m: nat)
    requires 0 < o && Periodic(t, lo, hi, o)
    requires k < hi && lo + (m - 1) * o <= k && m > 0
    ensures k >= m * o && t[k] == t[k - m * o]
    decreases m
  {
    if m > 1 {
      assert (m - 1) * o == (m - 2) * o + o && m * o == (m - 1) * o + o;
      Chain(t, lo, hi, o, k, m - 1);
      assert t[k - (m - 1) * o] == t[k - (m - 1) * o - o];
    }
  }

  /** Four single bytes and four table-adjusted bytes continue the period. */
  lemma FirstEight(t: seq<byte>, op: nat, o: nat)
    requires 0 < o < 8 && o <= op && op + 8 <= |t|
    requires Periodic(t, op, op + 4, o) && Periodic(t, op + 4, op + 8, 4 + o - INC32[o])
    ensures Periodic(t, op, op + 8, o)
  {
    FirstFive(t, op, o);
  }

  lemma FirstFive(t: seq<byte>, op: nat, o: nat)
    requires 0 < o < 8 && o <= op && op + 8 <= |t|
    requires Periodic(t, op, op + 4, o) && Periodic(t, op + 4, op + 8, 4 + o - INC32[o])
    ensures forall k | op + 4 <= k < op + 8 :: t[k] == t[k - o]
  {
    assert t[op] == t[op - o] && t[op + 1] == t[op + 1 - o] && t[op + 2] == t[op + 2 - o] && t[op + 3] == t[op + 3 - o];
    assert t[op + 4] == t[op + 4 - (4 + o - INC32[o])] && t[op + 5] == t[op + 5 - (4 + o - INC32[o])];
    assert t[op + 6] == t[op + 6 - (4 + o - INC32[o])] && t[op + 7] == t[op + 7 - (4 + o - INC32[o])];
    if o == 1 {} else if o == 2 {} else if o == 3 {} else if o == 4 {} else {}
  }

  lemma StrideMultiple(o: nat) returns (m: nat)
    requires 0 < o < 8
    ensures m > 0 && Stride(o) == m * o && Stride(o) <= 8 + o
  {
    m := if o == 1 then 8 else if o == 2 then 4 else if o == 3 then 3 else 2;
  }

  lemma {:induction false} PeriodFromStride(t: seq<byte>, op: nat, hi: nat, o: nat)
    requires 0 < o < 8 && o <= op && op + 8 <= hi
    requires Periodic(t, op, op + 8, o) && Periodic(t, op + 8, hi, Stride(o))
    ensures Periodic(t, op, hi, o)
    decreases hi
  {
    if hi > op + 8 {
      PeriodFromStride(t, op, hi - 1, o);
      var k := hi - 1;
      var m := StrideMultiple(o);
      assert t[k] == t[k - Stride(o)];
      if m > 1 {
        assert (m - 1) * o == (m - 2) * o + o && m * o == (m - 1) * o + o;
        Chain(t, op, hi - 1, o, k - o, m - 1);
      }
    }
  }

  lemma {:induction false} ZeroFromStride(t: seq<byte>, op: nat, hi: nat)
    requires op + 8 <= hi && (forall k | op <= k < op + 8 :: k < |t| && t[k] == 0)
    requires Periodic(t, op + 8, hi, 8)
    ensures forall k | op <= k < hi :: t[k] == 0
    decreases hi
  {
    if hi > op + 8 {
      ZeroFromStride(t, op, hi - 1);
      assert t[hi - 1] == t[hi - 1 - 8];
    }
  }

  // ---- copying ----

  /** Where the 8-byte strides from `d` that cover `e` end. */
  function WildEnd(d: nat, e: nat): (r: nat)
    ensures r >= e && r >= d + 8 && (r == d + 8 || r < e + 8)
  {
    if e <= d + 8 then d + 8 else d + (e - d + 7) / 8 * 8
  }

  /** `LZ4_wildCopy8`: 8-byte strides, up to 7 bytes past `e`. */
  method WildCopy8(dst: array<byte>, d: nat, src: array<byte>, s: nat, e: nat)
    requires dst != src || s + 8 <= d
    requires WildEnd(d, e) <= dst.Length && s + (WildEnd(d, e) - d) <= src.Length
    modifies dst
    ensures forall k | 0 <= k < d || WildEnd(d, e) <= k < dst.Length :: dst[k] == old(dst[k])
    ensures forall k | d <= k < WildEnd(d, e) :: dst[k] == src[s + (k - d)]
  {
    MemCopy(dst, d, src, s, 8);
    var i := 8;
    while d + i < e
      invariant 8 <= i && d + i <= WildEnd(d, e) && i % 8 == 0
      invariant d + i >= e ==> d + i == WildEnd(d, e)
      invariant forall k | 0 <= k < d || d + i <= k < dst.Length :: dst[k] == old(dst[k])
      invariant forall k | d <= k < d + i :: dst[k] == src[s + (k - d)]
    {
      MemCopy(dst, d + i, src, s + i, 8);
      i := i + 8;
    }
  }

  /** The distance at which a match is copied after its first 8 bytes. */
  function Distance(offset: nat): (d: nat)
    ensures d >= 8
  {
    if offset < 8 then Stride(offset) else offset
  }

  /** What the bytes of a match must satisfy from `op` up to `hi`. */
  ghost predicate MatchBytes(t: seq<byte>, op: nat, hi: nat, offset: nat) {
    && hi <= |t|
    && if offset == 0 then forall k | op <= k < hi :: t[k] == 0 else Periodic(t, op, hi, offset)
  }

  /** Four single bytes, after a write of zeros that makes an offset of 0 harmless. */
  method FourBytes(dst: array<byte>, op: nat, offset: nat)
    requires offset < 8 && offset <= op && op + 4 <= dst.Length
    modifies dst
    ensures forall k | 0 <= k < op || op + 4 <= k < dst.Length :: dst[k] == old(dst[k])
    ensures MatchBytes(dst[..], op, op + 4, offset)
  {
    var match_ := op - offset;
    dst[op], dst[op + 1], dst[op + 2], dst[op + 3] := 0, 0, 0, 0;
    dst[op] := dst[match_];
    dst[op + 1] := dst[match_ + 1];
    dst[op + 2] := dst[match_ + 2];
    dst[op + 3] := dst[match_ + 3];
  }

  /** Eight bytes, the second half of them copied from where the table says. */
  lemma EightBytes(was: seq<byte>, t: seq<byte>, op: nat, offset: nat)
    requires offset < 8 && offset <= op && op + 8 <= |t| == |was| && MatchBytes(was, op, op + 4, offset)
    requires forall k | 0 <= k < op + 4 :: t[k] == was[k]
    requires forall k | op + 4 <= k < op + 8 :: t[k] == was[k - (4 + offset - INC32[offset])]
    ensures MatchBytes(t, op, op + 8, offset)
  {
    if offset > 0 {
      assert Periodic(t, op, op + 4, offset) && Periodic(t, op + 4, op + 8, 4 + offset - INC32[offset]);
      FirstEight(t, op, offset);
    }
  }

  /** The first 8 bytes of a match at distance less than 8. */
  method ShortChunk(dst: array<byte>, op: nat, offset: nat) returns (match_: nat)
    requires offset < 8 && offset <= op && op + 8 <= dst.Length
    modifies dst
    ensures forall k | 0 <= k < op :: dst[k] == old(dst[k])
    ensures op + 8 >= Stride(offset) && match_ == op + 8 - Stride(offset)
    ensures MatchBytes(dst[..], op, op + 8, offset)
  {
    hide MatchBytes;
    FourBytes(dst, op, offset);
    ghost var was := dst[..];
    match_ := op - offset + INC32[offset];
    MemCopy(dst, op + 4, dst, match_, 4);
    EightBytes(was, dst[..], op, offset);
    match_ := match_ - DEC64[offset];
  }

  /** The first 8 bytes of a match, and where the copy goes on from. */
  method FirstChunk(dst: array<byte>, op: nat, offset: nat) returns (match_: nat)
    requires offset <= op && op + 8 <= dst.Length
    modifies dst
    ensures forall k | 0 <= k < op :: dst[k] == old(dst[k])
    ensures op + 8 >= Distance(offset) && match_ == op + 8 - Distance(offset)
    ensures MatchBytes(dst[..], op, op + 8, offset)
  {
    if offset < 8 {
      match_ := ShortChunk(dst, op, offset);
    } else {
      MemCopy(dst, op, dst, op - offset, 8);
      match_ := op - offset + 8;
    }
  }

  /** Eight repaired bytes and a copy at `Distance(offset)` make the whole match. */
  lemma FinishMatch(t: seq<byte>, out: seq<byte>, op: nat, offset: nat, length: nat)
    requires offset <= op == |out| && length >= MINMATCH
    requires op + length <= |t| && t[..op] == out
    requires MatchBytes(t, op, op + 8, offset)
    requires Periodic(t, op + 8, op + length, Distance(offset))
    ensures t[..op + length] == Repeat(out, offset, length)
  {
    if length > 8 {
      if offset == 0 {
        ZeroFromStride(t, op, op + length);
      } else if offset < 8 {
        PeriodFromStride(t, op, op + length, offset);
      }
    }
    var r := t[..op + length];
    assert r[..op] == t[..op];
    RepeatUnique(out, offset, length, r);
  }

  /**
   Copies a match of `length` bytes, or reports that it would run into the last 5 bytes.
   The result is the byte-by-byte copy, although the copy moves 8 bytes at a time.
   */
  method CopyMatch(dst: array<byte>, op0: nat, offset: nat, length: nat) returns (ok: bool)
    requires offset <= op0 <= dst.Length - MFLIMIT && length >= MINMATCH
    modifies dst
    ensures ok == (op0 + length <= dst.Length - LASTLITERALS)
    ensures ok ==> dst[..op0 + length] == Repeat(old(dst[..op0]), offset, length)
  {
    hide Repeat, Distance, WildEnd;
    ghost var out := dst[..op0];
    var match_ := FirstChunk(dst, op0, offset);
    var op, cpy := op0 + 8, op0 + length;
    if cpy > dst.Length - MFLIMIT {
      if cpy > dst.Length - LASTLITERALS {
        return false;
      }
      CopyTail(dst, op, match_, cpy);
    } else {
      CopyBody(dst, op, match_, length, cpy);
    }
    assert dst[..op0] == out;
    FinishMatch(dst[..], out, op0, offset, length);
    assert dst[..][..cpy] == dst[..cpy];
    ok := true;
  }

  /** The rest of a match well inside the buffer: 8 bytes, and strides past `cpy` if there is more. */
  method CopyBody(dst: array<byte>, op: nat, match_: nat, length: nat, cpy: nat)
    requires match_ + 8 <= op && op + length == cpy + 8 && cpy <= dst.Length - MFLIMIT && op + 8 <= dst.Length
    modifies dst
    ensures forall k | 0 <= k < op :: dst[k] == old(dst[k])
    ensures Periodic(dst[..], op, cpy, op - match_)
  {
    MemCopy(dst, op, dst, match_, 8);
    if length > 16 {
      WildCopy8(dst, op + 8, dst, match_ + 8, cpy);
    }
  }

  /** The end of a match near the end of the buffer: strides up to a limit, then single bytes. */
  method CopyTail(dst: array<byte>, op0: nat, match0: nat, cpy: nat)
    requires match0 + 8 <= op0 <= dst.Length - 4 && cpy <= dst.Length - LASTLITERALS
    modifies dst
    ensures forall k | 0 <= k < op0 :: dst[k] == old(dst[k])
    ensures Periodic(dst[..], op0, cpy, op0 - match0)
  {
    var op, match_ := op0, match0;
    var limit := dst.Length - 7;
    if op < limit {
      WildCopy8(dst, op, dst, match_, limit);
      match_ := match_ + (limit - op);
      op := limit;
    }
    while op < cpy
      invariant op0 <= op <= dst.Length && op - match_ == op0 - match0
      invariant forall k | 0 <= k < op0 :: dst[k] == old(dst[k])
      invariant forall k | op0 <= k < op :: dst[k] == dst[k - (op0 - match0)]
    {
      dst[op] := dst[match_];
      op, match_ := op + 1, match_ + 1;
    }
  }

  // ---- decoding ----

  datatype LengthError = NoError | InitialError | LoopError

  method ReadVariableLength(src: array<byte>, ip0: nat, lencheck: int, initialCheck: bool)
    returns (length: nat, ip: nat, error: LengthError)
    requires lencheck <= src.Length && (ip0 < src.Length || (initialCheck && ip0 >= lencheck))
    ensures error.InitialError? <==> initialCheck && ip0 >= lencheck
    ensures error.InitialError? ==> ip == ip0
    ensures !error.InitialError? ==> ip0 < src.Length && Length(length, ip, error.LoopError?) == ReadLength(src[..], ip0, 0, lencheck)
  {
    length, ip, error := 0, ip0, NoError;
    if initialCheck && ip >= lencheck {
      return 0, ip, InitialError;
    }
    while true
      invariant ip0 <= ip < src.Length
      invariant ReadLength(src[..], ip, length, lencheck) == ReadLength(src[..], ip0, 0, lencheck)
      decreases src.Length - ip
    {
      var s := src[ip];
      ip := ip + 1;
      length := (length + s) % U32;
      if ip >= lencheck {
        return length, ip, LoopError;
      }
      if s != 255 {
        return length, ip, NoError;
      }
    }
  }

  datatype Status = Continue | Finished | Error

  /** The decoder's variables show the outcome of one reference step. */
  ghost predicate Shows(step: Step, status: Status, ip: nat, op: nat, t: seq<byte>) {
    match step
    case Last(o) => status == Finished && op <= |t| && t[..op] == o
    case More(i, o) => status == Continue && ip == i && op <= |t| && t[..op] == o
    case Bad(i) => status == Error && ip == i
  }

  /**
   Copies `length` literals: exactly, 16 bytes unconditionally, or in 8-byte strides that run past the end.
   The bytes beyond the literals are written over later.
   */
  datatype LiteralCopy = Exact | Sixteen | Wild

  method CopyLiterals(dst: array<byte>, op: nat, src: array<byte>, ip: nat, length: nat, how: LiteralCopy)
    requires src != dst
    requires how.Exact? ==> op + length <= dst.Length && ip + length <= src.Length
    requires how.Sixteen? ==> length <= 16 && op + 16 <= dst.Length && ip + 16 <= src.Length
    requires how.Wild? ==> WildEnd(op, op + length) <= dst.Length && ip + (WildEnd(op, op + length) - op) <= src.Length
    modifies dst
    ensures op + length <= dst.Length && ip + length <= src.Length
    ensures dst[..op + length] == old(dst[..op]) + src[ip..ip + length]
  {
    match how
    case Exact => MemCopy(dst, op, src, ip, length);
    case Sixteen => MemCopy(dst, op, src, ip, 16);
    case Wild => WildCopy8(dst, op, src, ip, op + length);
  }

  method CountLiterals(src: array<byte>, token: byte, ip0: nat) returns (ok: bool, length: nat, ip: nat)
    requires ip0 <= src.Length
    ensures ok <==> !(token / 16 == RUN_MASK && ip0 >= src.Length - RUN_MASK)
    ensures !ok ==> ip == ip0
    ensures ok ==> var ext := LiteralLength(src[..], token / 16, ip0); length == token / 16 + ext.value && ip == ext.ip <= src.Length
  {
    hide ReadLength;
    length, ip := token / 16, ip0;
    if length == RUN_MASK {
      var ext, error;
      ext, ip, error := ReadVariableLength(src, ip, src.Length - RUN_MASK, true);
      if error == InitialError {
        return false, length, ip;
      }
      length := length + ext;
    }
    ok := true;
  }

  method DecodeLiterals(src: array<byte>, dst: array<byte>, token: byte, ip0: nat, op0: nat)
    returns (status: Status, ip: nat, op: nat)
    requires src != dst && ip0 <= src.Length && op0 <= dst.Length
    modifies dst
    ensures Shows(StepLiterals(src[..], token, ip0, old(dst[..op0]), dst.Length), status, ip, op, dst[..])
  {
    hide CopyRun, LiteralLength;
    ip, op := ip0, op0;
    if token / 16 != RUN_MASK && ip < src.Length - 16 && op <= dst.Length - 32 {
      CopyLiterals(dst, op, src, ip, token / 16, Sixteen);
      return Continue, ip + token / 16, op + token / 16;
    }
    var ok, length;
    ok, length, ip := CountLiterals(src, token, ip);
    if !ok {
      return Error, ip, op;
    }
    status, ip, op := DecodeRun(src, dst, ip, op, length);
  }

  /** Literals whose number is known, up to the end of the block or well before it. */
  method DecodeRun(src: array<byte>, dst: array<byte>, ip0: nat, op0: nat, length: nat)
    returns (status: Status, ip: nat, op: nat)
    requires src != dst && ip0 <= src.Length && op0 <= dst.Length
    modifies dst
    ensures Shows(CopyRun(src[..], ip0, length, old(dst[..op0]), dst.Length), status, ip, op, dst[..])
  {
    ip, op := ip0, op0;
    if op + length > dst.Length - MFLIMIT || ip + length > src.Length - (2 + 1 + LASTLITERALS) {
      if ip + length != src.Length || op + length > dst.Length {
        return Error, ip, op;
      }
      CopyLiterals(dst, op, src, ip, length, Exact);
      ToTheEnd(src[..], ip, length);
      return Finished, ip + length, op + length;
    }
    CopyLiterals(dst, op, src, ip, length, Wild);
    return Continue, ip + length, op + length;
  }

  lemma ToTheEnd(s: seq<byte>, ip: nat, length: nat)
    requires ip + length == |s|
    ensures s[ip..ip + length] == s[ip..]
  {
  }

  /** The second stage of the shortcut: 8 + 8 + 2 bytes of a match that does not overlap itself closely. */
  method CopyEighteen(dst: array<byte>, op: nat, offset: nat, length: nat)
    requires 8 <= offset <= op <= dst.Length - 18 && MINMATCH <= length <= 18
    modifies dst
    ensures dst[..op + length] == Repeat(old(dst[..op]), offset, length)
  {
    hide Repeat;
    ghost var out := dst[..op];
    var match_ := op - offset;
    MemCopy(dst, op, dst, match_, 8);
    MemCopy(dst, op + 8, dst, match_ + 8, 8);
    MemCopy(dst, op + 16, dst, match_ + 16, 2);
    ghost var t := dst[..op + length];
    assert t[..op] == out;
    RepeatUnique(out, offset, length, t);
  }

  method DecodeMatch(src: array<byte>, dst: array<byte>, token: byte, roomy: bool, ip0: nat, op0: nat)
    returns (status: Status, ip: nat, op: nat)
    requires src != dst && ip0 + 2 < src.Length
    requires op0 <= dst.Length - if roomy then 18 else MFLIMIT
    modifies dst
    ensures Shows(StepMatch(src[..], token, roomy, ip0, old(dst[..op0]), dst.Length), status, ip, op, dst[..])
  {
    hide ReadLength, Repeat;
    ip, op := ip0 + 2, op0;
    var offset := src[ip0] as int + 256 * src[ip0 + 1] as int;
    var length := token % 16;
    if roomy && length != ML_MASK && offset >= 8 && offset <= op {
      CopyEighteen(dst, op, offset, length + MINMATCH);
      return Continue, ip, op + (length + MINMATCH);
    }
    if length == ML_MASK {
      var ext, error;
      ext, ip, error := ReadVariableLength(src, ip, src.Length - LASTLITERALS + 1, false);
      if error != NoError {
        return Error, ip, op;
      }
      length := length + ext;
    }
    length := length + MINMATCH;
    if offset > op {
      return Error, ip, op;
    }
    var ok := CopyMatch(dst, op, offset, length);
    if !ok {
      return Error, ip, op;
    }
    return Continue, ip, op + length;
  }

  method DecodeSequence(src: array<byte>, dst: array<byte>, ip0: nat, op0: nat)
    returns (status: Status, ip: nat, op: nat)
    requires src != dst && ip0 < src.Length && op0 <= dst.Length
    modifies dst
    ensures Shows(StepSequence(src[..], ip0, old(dst[..op0]), dst.Length), status, ip, op, dst[..])
  {
    hide StepLiterals, StepMatch;
    var token := src[ip0];
    status, ip, op := DecodeLiterals(src, dst, token, ip0 + 1, op0);
    if status == Continue {
      status, ip, op := DecodeMatch(src, dst, token, Roomy(token / 16, ip0 + 1, src.Length, op0, dst.Length), ip, op);
    }
  }

  /** The main loop: one token after another. */
  method DecodeLoop(src: array<byte>, dst: array<byte>) returns (r: int)
    requires src != dst && src.Length > 0
    modifies dst
    ensures var o := DecodeFrom(src[..], 0, [], dst.Length);
            r == ReturnCode(o) && (o.Done? ==> dst[..r] == o.out)
  {
    hide StepSequence;
    var ip: nat, op: nat := 0, 0;
    ghost var result := DecodeFrom(src[..], 0, [], dst.Length);
    assert dst[..0] == [];
    while true
      invariant ip < src.Length && op <= dst.Length
      invariant result == DecodeFrom(src[..], ip, dst[..op], dst.Length)
      decreases src.Length - ip
    {
      var status, ip', op' := DecodeSequence(src, dst, ip, op);
      if status == Finished {
        return op';
      }
      if status == Error {
        return -1 - ip' as int;
      }
      ip, op := ip', op';
    }
  }

  /**
   `LZ4_decompress_safe`, for every input whatever: the return code and, on success, the output are
   those of the reference decoder.
   */
  method DecompressSafe(src: array<byte>, dst: array<byte>) returns (r: int)
    requires src != dst
    modifies dst
    ensures var o := Decode(src[..], dst.Length);
            r == ReturnCode(o) && (o.Done? ==> dst[..r] == o.out)
  {
    hide DecodeFrom;
    if dst.Length == 0 {
      assert src.Length == 1 && src[0] == 0 ==> src[..] == [0];
      return if src.Length == 1 && src[0] == 0 then 0 else -1;
    }
    if src.Length == 0 {
      return -1;
    }
    r := DecodeLoop(src, dst);
  }
}
