/** Records of bytes, each preceded by its length in one or two bytes, low byte first. */
module RecordFormat {
  import opened Basics
  import opened Bytes

  /** The longest record that a length of one or two bytes can describe; `__kfifo_max_r` clips to it. */
  function Max(recsize: nat): nat {
    if recsize == 1 then 0xff else 0xffff
  }

  function Prefix(n: nat, recsize: nat): seq<byte> {
    if recsize == 1 then [n % 256] else [n % 256, n / 256 % 256]
  }

  function Record(r: seq<byte>, recsize: nat): seq<byte> {
    Prefix(|r|, recsize) + r
  }

  function Records(rs: seq<seq<byte>>, recsize: nat): seq<byte> {
    if rs == [] then [] else Record(rs[0], recsize) + Records(rs[1..], recsize)
  }

  function Length(s: seq<byte>, recsize: nat): nat
    requires 1 <= recsize <= 2 && |s| >= recsize
  {
    if recsize == 1 then s[0] else s[0] as nat + 256 * (s[1] as nat)
  }

  /** The records in some bytes, if the bytes are records and nothing else. */
  function Parse(s: seq<byte>, recsize: nat): Option<seq<seq<byte>>>
    requires 1 <= recsize <= 2
    decreases |s|
  {
    if s == [] then Some([])
    else if |s| < recsize then None
    else
      var n := Length(s, recsize);
      if |s| < recsize + n then None
      else
        match Parse(s[recsize + n..], recsize)
        case None => None
        case Some(rs) => Some([s[recsize..recsize + n]] + rs)
  }

  predicate Fit(rs: seq<seq<byte>>, recsize: nat) {
    forall i | 0 <= i < |rs| :: |rs[i]| <= Max(recsize)
  }

  lemma Framed(r: seq<byte>, recsize: nat, rest: seq<byte>)
    requires 1 <= recsize <= 2 && |r| <= Max(recsize)
    ensures var s := Record(r, recsize) + rest;
            |s| == recsize + |r| + |rest| && Length(s, recsize) == |r| && s[recsize..recsize + |r|] == r && s[recsize + |r|..] == rest
  {
  }

  lemma {:induction false} Appended(rs: seq<seq<byte>>, r: seq<byte>, recsize: nat)
    ensures Records(rs + [r], recsize) == Records(rs, recsize) + Record(r, recsize)
  {
    hide Record;
    var all := rs + [r];
    if rs == [] {
      assert all == [r] && all[0] == r && all[1..] == [];
      assert Records([], recsize) == [];
    } else {
      var rest, first := rs[1..], Record(rs[0], recsize);
      Appended(rest, r, recsize);
      assert all != [] && all[0] == rs[0] && all[1..] == rest + [r];
      assert first + (Records(rest, recsize) + Record(r, recsize)) == (first + Records(rest, recsize)) + Record(r, recsize);
    }
  }

  function Before(rs: seq<seq<byte>>, more: Option<seq<seq<byte>>>): Option<seq<seq<byte>>> {
    match more
    case None => None
    case Some(m) => Some(rs + m)
  }

  lemma ParseOne(r: seq<byte>, rest: seq<byte>, recsize: nat)
    requires 1 <= recsize <= 2 && |r| <= Max(recsize)
    ensures Parse(Record(r, recsize) + rest, recsize) == Before([r], Parse(rest, recsize))
  {
    Framed(r, recsize, rest);
    hide Record, Length;
  }

  lemma ParseNothing(recsize: nat)
    requires 1 <= recsize <= 2
    ensures Parse([], recsize) == Some([])
  {
  }

  lemma {:induction false} RoundTrip(rs: seq<seq<byte>>, recsize: nat)
    requires 1 <= recsize <= 2 && Fit(rs, recsize)
    ensures Parse(Records(rs, recsize), recsize) == Some(rs)
  {
    hide Parse, Record;
    if rs == [] {
      ParseNothing(recsize);
    } else {
      var rest := rs[1..];
      ParseOne(rs[0], Records(rest, recsize), recsize);
      RoundTrip(rest, recsize);
      assert rs == [rs[0]] + rest;
    }
  }

  lemma {:induction false} ParseFirst(rs: seq<seq<byte>>, rest: seq<byte>, recsize: nat)
    requires 1 <= recsize <= 2 && Fit(rs, recsize)
    ensures Parse(Records(rs, recsize) + rest, recsize) == Before(rs, Parse(rest, recsize))
  {
    hide Parse, Record;
    if rs == [] {
      assert Records(rs, recsize) + rest == rest;
      NoneBefore(Parse(rest, recsize));
    } else {
      var tail := Records(rs[1..], recsize) + rest;
      assert Records(rs, recsize) + rest == Record(rs[0], recsize) + tail;
      ParseOne(rs[0], tail, recsize);
      ParseFirst(rs[1..], rest, recsize);
      OneBefore(rs, Parse(rest, recsize));
    }
  }

  lemma NoneBefore(more: Option<seq<seq<byte>>>)
    ensures Before([], more) == more
  {
    if more.Some? {
      assert [] + more.value == more.value;
    }
  }

  lemma OneBefore(rs: seq<seq<byte>>, more: Option<seq<seq<byte>>>)
    requires rs != []
    ensures Before([rs[0]], Before(rs[1..], more)) == Before(rs, more)
  {
    if more.Some? {
      assert [rs[0]] + (rs[1..] + more.value) == rs + more.value;
    }
  }

  lemma SameRest(rs: seq<seq<byte>>, a: seq<seq<byte>>, b: seq<seq<byte>>)
    ensures rs + a == rs + b <==> a == b
  {
    assert a == (rs + a)[|rs|..] && b == (rs + b)[|rs|..];
  }

  /** A record that is appended comes out again if and only if its length fits the prefix. */
  lemma AppendedExactly(rs: seq<seq<byte>>, r: seq<byte>, recsize: nat)
    requires 1 <= recsize <= 2 && Fit(rs, recsize)
    ensures Parse(Records(rs, recsize) + Record(r, recsize), recsize) == Some(rs + [r]) <==> |r| <= Max(recsize)
  {
    if |r| <= Max(recsize) {
      Appended(rs, r, recsize);
      RoundTrip(rs + [r], recsize);
    } else {
      ParseFirst(rs, Record(r, recsize), recsize);
      Overlong(r, recsize);
      var more := Parse(Record(r, recsize), recsize);
      if more.Some? {
        SameRest(rs, more.value, [r]);
      }
    }
  }

  lemma Overlong(r: seq<byte>, recsize: nat)
    requires 1 <= recsize <= 2 && |r| > Max(recsize)
    ensures Parse(Record(r, recsize), recsize) != Some([r])
  {
    var s := Record(r, recsize);
    assert Length(s, recsize) < |r|;
  }

  lemma OneMoreFits(rs: seq<seq<byte>>, r: seq<byte>, recsize: nat)
    ensures Fit(rs + [r], recsize) <==> Fit(rs, recsize) && |r| <= Max(recsize)
  {
    var all := rs + [r];
    assert all[|rs|] == r && all[..|rs|] == rs;
    assert forall i | 0 <= i < |rs| :: all[i] == rs[i];
  }

  lemma Framing(before: seq<byte>, r: seq<byte>, recsize: nat)
    ensures (before + Prefix(|r|, recsize)) + r == before + Record(r, recsize)
  {
  }

  // ---- the queue that a fifo of records is for its clients ----

  datatype Call = Put(record: seq<byte>) | Get(len: nat) | Peek(len: nat) | Skip

  predicate Accepted(rs: seq<seq<byte>>, r: seq<byte>, size: nat, recsize: nat) {
    |Records(rs, recsize)| + recsize + |r| <= size
  }

  /** The records after a call. */
  function After(rs: seq<seq<byte>>, call: Call, size: nat, recsize: nat): seq<seq<byte>> {
    match call
    case Put(r) => if Accepted(rs, r, size, recsize) then rs + [r] else rs
    case Peek(_) => rs
    case _ => if rs == [] then [] else rs[1..]
  }

  /** A short read gets the beginning of the record. */
  function Answer(rs: seq<seq<byte>>, call: Call): seq<byte> {
    if rs == [] || call.Put? || call.Skip? then [] else rs[0][..Min(call.len, |rs[0]|)]
  }

  /** The two things that clients must not do. */
  predicate Proper(rs: seq<seq<byte>>, call: Call, size: nat, recsize: nat) {
    match call
    case Put(r) => Accepted(rs, r, size, recsize) ==> |r| <= Max(recsize)
    case Skip => rs != []
    case _ => true
  }

  function AfterRun(rs: seq<seq<byte>>, calls: seq<Call>, size: nat, recsize: nat): seq<seq<byte>> {
    if calls == [] then rs
    else After(AfterRun(rs, calls[..|calls| - 1], size, recsize), calls[|calls| - 1], size, recsize)
  }

  function Answers(rs: seq<seq<byte>>, calls: seq<Call>, size: nat, recsize: nat): seq<seq<byte>> {
    if calls == [] then []
    else
      var before := calls[..|calls| - 1];
      Answers(rs, before, size, recsize) + [Answer(AfterRun(rs, before, size, recsize), calls[|calls| - 1])]
  }

  predicate ProperRun(rs: seq<seq<byte>>, calls: seq<Call>, size: nat, recsize: nat) {
    forall n | 0 <= n < |calls| :: Proper(AfterRun(rs, calls[..n], size, recsize), calls[n], size, recsize)
  }

  lemma OneCallMore(rs: seq<seq<byte>>, calls: seq<Call>, n: nat, size: nat, recsize: nat)
    requires n < |calls| && ProperRun(rs, calls, size, recsize)
    ensures ProperRun(rs, calls[..n + 1], size, recsize)
    ensures var now := AfterRun(rs, calls[..n], size, recsize);
            && Proper(now, calls[n], size, recsize)
            && AfterRun(rs, calls[..n + 1], size, recsize) == After(now, calls[n], size, recsize)
            && Answers(rs, calls[..n + 1], size, recsize) == Answers(rs, calls[..n], size, recsize) + [Answer(now, calls[n])]
  {
    hide After, Answer, Proper;
    assert calls[..n + 1][..n] == calls[..n];
    var first := calls[..n + 1];
    forall m | 0 <= m < |first| ensures Proper(AfterRun(rs, first[..m], size, recsize), first[m], size, recsize) {
      assert first[..m] == calls[..m];
    }
  }

  /** The records that a run stores, and those that leave in it, read or skipped. */
  function Stored(rs: seq<seq<byte>>, calls: seq<Call>, size: nat, recsize: nat): seq<seq<byte>> {
    if calls == [] then []
    else
      var before, call := calls[..|calls| - 1], calls[|calls| - 1];
      Stored(rs, before, size, recsize)
      + (if call.Put? && Accepted(AfterRun(rs, before, size, recsize), call.record, size, recsize) then [call.record] else [])
  }

  function Gone(rs: seq<seq<byte>>, calls: seq<Call>, size: nat, recsize: nat): seq<seq<byte>> {
    if calls == [] then []
    else
      var before, call := calls[..|calls| - 1], calls[|calls| - 1];
      var now := AfterRun(rs, before, size, recsize);
      Gone(rs, before, size, recsize) + (if (call.Get? || call.Skip?) && now != [] then [now[0]] else [])
  }

  /** One call: what has left, and what is there, before and after. */
  lemma OneCallInOrder(all: seq<seq<byte>>, gone: seq<seq<byte>>, now: seq<seq<byte>>, call: Call, size: nat, recsize: nat)
    requires gone + now == all
    ensures var left := if (call.Get? || call.Skip?) && now != [] then [now[0]] else [];
            var more := if call.Put? && Accepted(now, call.record, size, recsize) then [call.record] else [];
            (gone + left) + After(now, call, size, recsize) == all + more
  {
    hide Accepted;
    assert gone + [] == gone && all + [] == all;
    if call.Put? && Accepted(now, call.record, size, recsize) {
      assert gone + (now + [call.record]) == (gone + now) + [call.record];
    } else if (call.Get? || call.Skip?) && now != [] {
      assert [now[0]] + now[1..] == now;
      assert (gone + [now[0]]) + now[1..] == gone + ([now[0]] + now[1..]);
    }
  }

  /** In every run the records leave whole, in the order in which they were stored, and none is lost. */
  lemma {:induction false} FirstInFirstOut(rs: seq<seq<byte>>, calls: seq<Call>, size: nat, recsize: nat)
    ensures Gone(rs, calls, size, recsize) + AfterRun(rs, calls, size, recsize) == rs + Stored(rs, calls, size, recsize)
  {
    hide Accepted, After;
    if calls == [] {
      assert [] + rs == rs && rs + [] == rs;
    } else {
      var before, call := calls[..|calls| - 1], calls[|calls| - 1];
      FirstInFirstOut(rs, before, size, recsize);
      var stored := Stored(rs, before, size, recsize);
      var more := if call.Put? && Accepted(AfterRun(rs, before, size, recsize), call.record, size, recsize) then [call.record] else [];
      OneCallInOrder(rs + stored, Gone(rs, before, size, recsize), AfterRun(rs, before, size, recsize), call, size, recsize);
      assert (rs + stored) + more == rs + (stored + more);
    }
  }
}

/**
 A fifo over a ring buffer whose indices run freely and wrap with the machine word, and its record mode,
 in which every record is preceded by its length.
 */
module Fifo {
  import opened Arithmetic
  import opened Basics
  import opened Bytes
  import opened RecordFormat
  import opened Ring

  /** The indices run freely and wrap with the word. */
  function Next(index: nat, n: nat): nat {
    (index + n) % U32
  }

  function Diff(input: nat, output: nat): nat
    requires output < U32
  {
    (input + U32 - output) % U32
  }

  /** Where in the buffer an index points to. */
  function Pos(index: nat, size: nat, esize: nat): nat
    requires size > 0
  {
    index % size * esize
  }

  /** Index `(out + n) mod 2^32` points `n` elements behind index `out`, also across the wrap of the word. */
  lemma IndexWraps(output: nat, n: nat, size: nat, esize: nat)
    requires 0 < size && 0 < esize && U32 % size == 0
    ensures 0 < size * esize
    ensures Pos(Next(output, n), size, esize) % (size * esize) == (Pos(output, size, esize) + n * esize) % (size * esize)
  {
    ModMod(output + n, U32, size);
    ModAdd(output, n, size);
    var a := output % size + n;
    var q, r := a / size, a % size;
    assert a == q * size + r;
    Spread(q, size, r, esize);
    ModShift(r * esize, q, size * esize);
    assert a * esize == output % size * esize + n * esize;
    ProductAtLeast(size, esize, 1);
  }

  lemma HalfWord(size: nat)
    requires 0 < size < U32 && U32 % size == 0
    ensures size <= U32 / 2
  {
    var q := U32 / size;
    assert U32 == q * size;
    assert size > U32 / 2 ==> q < 2;
  }

  lemma Spread(q: nat, size: nat, r: nat, esize: nat)
    ensures (q * size + r) * esize == q * (size * esize) + r * esize
  {
    assert q * (size * esize) == (q * size) * esize;
  }

  lemma InRange(o: nat, size: nat, esize: nat)
    requires o < size && esize > 0
    ensures o * esize + esize <= size * esize
  {
    Scaled(o, size, esize);
  }

  lemma PosOne(output: nat, k: nat, size: nat)
    requires size > 0 && U32 % size == 0
    ensures (Pos(output, size, 1) + k) % size == Next(output, k) % size
  {
    ModAdd(output, k, size);
    ModMod(output + k, U32, size);
  }

  lemma Distributed(a: nat, b: nat, esize: nat)
    ensures (a + b) * esize == a * esize + b * esize
  {
  }

  lemma Placed(before: seq<byte>, start: nat, used: nat, src: seq<byte>, after: seq<byte>, at: nat)
    requires Written(before, at, src, after) && at % |before| == (start + used) % |before| && used + |src| <= |before|
    ensures Slice(after, start, used + |src|) == Slice(before, start, used) + src
  {
    SameWritten(before, at, start + used, src, after);
    SliceWritten(before, start, used, src, after);
  }

  /** The difference of the indices follows either of them, across the wrap of the word. */
  lemma Advance(input: nat, output: nat, used: nat, r: nat)
    requires input < U32 && output < U32 && used == Diff(input, output)
    ensures used + r < U32 ==> Diff(Next(input, r), output) == used + r
    ensures r <= used ==> Diff(input, Next(output, r)) == used - r
    ensures input == Next(output, used) && Next(input, r) < U32 && Next(output, r) < U32
  {
    DiffIs(input, output);
    NextIs(output, used);
    NextInRange(input, r);
    NextInRange(output, r);
    hide Diff, Next;
    if used + r < U32 {
      NextIs(input, r);
      DiffIs(Next(input, r), output);
    }
    if r <= used {
      NextIs(output, r);
      DiffIs(input, Next(output, r));
    }
  }

  lemma DiffIs(input: nat, output: nat)
    requires input < U32 && output < U32
    ensures Diff(input, output) == if input >= output then input - output else input + U32 - output
  {
  }

  lemma NextIs(index: nat, n: nat)
    requires index < U32 && n < U32
    ensures Next(index, n) == if index + n < U32 then index + n else index + n - U32
  {
  }

  lemma NextInRange(index: nat, n: nat)
    ensures Next(index, n) < U32
  {
  }

  lemma NextZero(index: nat)
    requires index < U32
    ensures Next(index, 0) == index
  {
  }

  lemma NextNext(index: nat, a: nat, b: nat)
    ensures Next(Next(index, a), b) == Next(index, a + b)
  {
  }

  /** Two copies that follow each other, and what lies behind them. */
  lemma CopiedTwice(before: seq<byte>, mid: seq<byte>, after: seq<byte>, data: seq<byte>, o: nat, n: nat, l: nat)
    requires |before| == |mid| == |after| && l <= n <= |before| && o + l <= |data| && n - l <= |data|
    requires forall k | 0 <= k < l :: mid[k] == data[o + k]
    requires forall k | l <= k < |before| :: mid[k] == before[k]
    requires forall k | l <= k < n :: after[k] == data[k - l]
    requires forall k | 0 <= k < l || n <= k < |before| :: after[k] == mid[k]
    ensures after == (data[o..o + l] + data[..n - l]) + before[n..]
  {
  }

  lemma EqualIndices(input: nat, output: nat)
    requires input < U32 && output < U32
    ensures Diff(input, output) == 0 <==> input == output
  {
  }

  lemma Dropped(data: seq<byte>, start: nat, n: nat, i: nat, at: nat)
    requires |data| > 0 && i <= n && at % |data| == (start + i) % |data|
    ensures Slice(data, at, n - i) == Slice(data, start, n)[i..]
  {
    SliceParts(data, start, n, i);
    SameStart(data, at, start + i, n - i);
  }

  ghost predicate PowerOfTwo(p: nat) {
    p == 1 || (p > 0 && p % 2 == 0 && PowerOfTwo(p / 2))
  }

  /** `rounddown_pow_of_two`, also for zero. */
  function RoundedDown(n: nat): (r: nat)
    ensures n > 0 ==> r <= n < 2 * r && PowerOfTwo(r)
    ensures n == 0 ==> r == 0
  {
    if n < 2 then n else 2 * RoundedDown(n / 2)
  }

  lemma {:induction false} Divides(p: nat, q: nat)
    requires PowerOfTwo(p) && PowerOfTwo(q) && p <= q
    ensures q % p == 0
  {
    if p > 1 {
      Divides(p / 2, q / 2);
      var k := (q / 2) / (p / 2);
      assert q / 2 == k * (p / 2);
      assert q == k * p;
      DivMod(k, p, 0);
    }
  }

  lemma Fits(n: nat, size: nat, esize: nat, bytes: nat)
    requires 1 <= esize && n == bytes / esize && bytes < U32 && size == RoundedDown(n)
    ensures size * esize <= bytes
    ensures size > 0 ==> U32 % size == 0
    ensures esize <= 1 * esize && (bytes < esize ==> size == 0)
  {
    Quotient(bytes, esize, n);
    ProductAtLeast(esize, n, size);
    if size > 0 {
      WordIsPower();
      Divides(size, U32);
    }
  }

  lemma Quotient(bytes: nat, esize: nat, n: nat)
    requires 1 <= esize && n == bytes / esize
    ensures n * esize <= bytes && n <= bytes && (bytes < esize ==> n == 0)
  {
    assert bytes == n * esize + bytes % esize;
    ProductAtLeast(n, esize, 1);
  }

  lemma WordIsPower()
    ensures PowerOfTwo(U32)
  {
    assert PowerOfTwo(2);
    Product(2, 2);
    Product(4, 4);
    Product(16, 16);
    Product(256, 256);
    Product(65536, 65536);
  }

  lemma TwiceIsPower(r: nat)
    requires PowerOfTwo(r)
    ensures PowerOfTwo(2 * r)
  {
    assert 2 * r / 2 == r;
  }

  lemma {:induction false} Product(p: nat, q: nat)
    requires PowerOfTwo(p) && PowerOfTwo(q)
    ensures PowerOfTwo(p * q)
  {
    if p == 1 {
      assert p * q == q;
    } else {
      var h := p / 2;
      assert p == 2 * h;
      Product(h, q);
      hide PowerOfTwo;
      TwiceIsPower(h * q);
      Twice(h, q);
    }
  }

  lemma Twice(h: nat, q: nat)
    ensures (2 * h) * q == 2 * (h * q)
  {
  }

  class Fifo {
    const data: array<byte>
    const size: nat
    const esize: nat
    var input: nat
    var output: nat

    /** A ring of a power of two of elements, with two indices that may point anywhere. */
    ghost predicate Formed()
      reads this, data
    {
      && 2 <= size && U32 % size == 0 && 1 <= esize && size * esize < U32 && size * esize <= data.Length
      && input < U32 && output < U32
    }

    ghost predicate Valid()
      reads this, data
    {
      Formed() && Diff(input, output) <= size
    }

    /** The part of the buffer that the fifo uses. */
    ghost function Ring(): seq<byte>
      requires size * esize <= data.Length
      reads this, data
    {
      data[..size * esize]
    }

    /** How many elements are in the fifo; the difference of the indices wraps. */
    function Used(): nat
      requires output < U32
      reads this
    {
      Diff(input, output)
    }

    function Start(): nat
      requires size > 0
      reads this
    {
      Pos(output, size, esize)
    }

    ghost function Contents(): (s: seq<byte>)
      requires Valid()
      reads this, data
      ensures |s| == Used() * esize
    {
      Slice(Ring(), Start(), Used() * esize)
    }

    /**
     `__kfifo_init`: the fifo gets the largest power of two of elements that the buffer holds, if that are
     at least two; otherwise the source returns an error, and the fifo is not usable.
     */
    constructor (buffer: array<byte>, bytes: nat, esize: nat)
      requires 1 <= esize && bytes < U32 && bytes <= buffer.Length
      ensures data == buffer && this.esize == esize && input == 0 && output == 0
      ensures Valid() <==> bytes / esize >= 2
      ensures Valid() ==> PowerOfTwo(size) && size <= bytes / esize < 2 * size && Contents() == []
    {
      var n := bytes / esize;
      var rounded := RoundedDown(n);
      this.data, this.esize, this.input, this.output := buffer, esize, 0, 0;
      this.size := if rounded < 2 then 1 else rounded;
      Fits(n, rounded, esize, bytes);
    }

    /** `kfifo_unused`. */
    function Unused(): (r: nat)
      requires Valid()
      reads this, data
      ensures r == size - Used()
    {
      Elapsed(input, output);
      (size + U32 - Used()) % U32
    }

    lemma Elapsed(a: nat, b: nat)
      requires Valid() && a == input && b == output
      ensures (size + U32 - Diff(a, b)) % U32 == size - Used()
    {
      ProductAtLeast(size, esize, 1);
    }

    /** Where an index points to, and how many bytes some elements are. */
    method Bytes(len: nat, off: nat) returns (o: nat, n: nat, total: nat)
      requires Formed() && len <= size
      ensures o == Pos(off, size, esize) < total == size * esize && n == len * esize <= total
    {
      ProductAtLeast(esize, size, len);
      InRange(off % size, size, esize);
      o, n, total := off % size, len, size;
      if esize != 1 {
        o, total, n := o * esize, total * esize, n * esize;
      }
    }

    method CopyIn(src: array<byte>, len: nat, off: nat)
      requires Valid() && src != data && len <= size && len * esize <= src.Length
      modifies data
      ensures Written(old(Ring()), Pos(off, size, esize), src[..len * esize], Ring())
      ensures data[size * esize..] == old(data[size * esize..])
    {
      var o, n, total := Bytes(len, off);
      var l := if n < total - o then n else total - o;
      CopyTwice(src, o, n, l, total);
    }

    method CopyTwice(src: array<byte>, o: nat, n: nat, l: nat, total: nat)
      requires src != data && o < total <= data.Length && n <= total && n <= src.Length
      requires l == if n < total - o then n else total - o
      modifies data
      ensures Written(old(data[..total]), o, src[..n], data[..total])
      ensures data[total..] == old(data[total..])
    {
      MemCopy(data, o, src, 0, l);
      MemCopy(data, 0, src, l, n - l);
      TwoCopies(old(data[..total]), o, src[..n], data[..total]);
    }

    method CopyOut(dst: array<byte>, len: nat, off: nat)
      requires Formed() && dst != data && len <= size && len * esize <= dst.Length
      modifies dst
      ensures dst[..] == Slice(Ring(), Pos(off, size, esize), len * esize) + old(dst[len * esize..])
    {
      var o, n, total := Bytes(len, off);
      var l := if n < total - o then n else total - o;
      ReadTwice(dst, o, n, l, total);
    }

    method ReadTwice(dst: array<byte>, o: nat, n: nat, l: nat, total: nat)
      requires dst != data && o < total <= data.Length && n <= total && n <= dst.Length
      requires l == if n < total - o then n else total - o
      modifies dst
      ensures dst[..] == Slice(data[..total], o, n) + old(dst[n..])
    {
      hide Slice;
      ghost var before := dst[..];
      MemCopy(dst, 0, data, o, l);
      ghost var mid := dst[..];
      MemCopy(dst, l, data, 0, n - l);
      TwoReads(data[..total], o, n);
      CopiedTwice(before, mid, dst[..], data[..total], o, n, l);
    }

    lemma WriteExtends(before: seq<byte>, src: seq<byte>, len: nat)
      requires Valid() && Written(before, Pos(input, size, esize), src, Ring()) && |src| == len * esize && Used() + len <= size
      ensures Slice(Ring(), Start(), (Used() + len) * esize) == Slice(before, Start(), Used() * esize) + src
    {
      Advance(input, output, Used(), 0);
      hide Pos, Next, Diff, Written, Slice;
      IndexWraps(output, Used(), size, esize);
      ProductAtLeast(esize, size, Used() + len);
      Distributed(Used(), len, esize);
      Placed(before, Start(), Used() * esize, src, Ring(), Pos(input, size, esize));
    }

    /** `__kfifo_in`: as many elements as fit are appended. */
    method In(buf: array<byte>, len: nat) returns (r: nat)
      requires Valid() && buf != data && len < U32 && len * esize <= buf.Length
      modifies this`input, data
      ensures Valid() && r == (if len > size - old(Used()) then size - old(Used()) else len) && r <= len && r * esize <= buf.Length
      ensures Contents() == old(Contents()) + buf[..r * esize] && data[size * esize..] == old(data[size * esize..])
    {
      hide Pos, Next, Diff, Written;
      r := len;
      var l := Unused();
      if r > l {
        r := l;
      }
      ProductAtLeast(esize, len, r);
      ghost var before := Ring();
      CopyIn(buf, r, input);
      WriteExtends(before, buf[..r * esize], r);
      Advance(input, output, Used(), r);
      ProductAtLeast(size, esize, 1);
      input := Next(input, r);
    }

    /** `__kfifo_out_peek`. */
    method OutPeek(buf: array<byte>, len: nat) returns (r: nat)
      requires Valid() && buf != data && len < U32 && len * esize <= buf.Length
      modifies buf
      ensures r == (if len > Used() then Used() else len) && r <= len && r * esize <= buf.Length && r * esize <= |Contents()|
      ensures buf[..] == Contents()[..r * esize] + old(buf[r * esize..])
    {
      hide Pos, Next, Diff;
      r := len;
      var l := Used();
      if r > l {
        r := l;
      }
      ProductAtLeast(esize, len, r);
      ProductAtLeast(esize, l, r);
      CopyOut(buf, r, output);
      SliceParts(Ring(), Start(), Used() * esize, r * esize);
      assert Slice(Ring(), Start(), r * esize) == Contents()[..r * esize];
    }

    /** `__kfifo_out`: what is read leaves the fifo. */
    method Out(buf: array<byte>, len: nat) returns (r: nat)
      requires Valid() && buf != data && len < U32 && len * esize <= buf.Length
      modifies this`output, buf
      ensures Valid() && r == (if len > old(Used()) then old(Used()) else len) && r <= len && r * esize <= buf.Length && r * esize <= |old(Contents())|
      ensures buf[..] == old(Contents())[..r * esize] + old(buf[r * esize..])
      ensures Contents() == old(Contents())[r * esize..]
    {
      hide Pos, Next, Diff;
      r := OutPeek(buf, len);
      Drop(r);
      output := Next(output, r);
    }

    /** Some elements from an index on. */
    ghost function Part(index: nat, n: nat): seq<byte>
      requires Formed()
      reads this, data
    {
      ProductAtLeast(size, esize, 1);
      Slice(Ring(), Pos(index, size, esize), n * esize)
    }

    /** Advancing the read index drops the oldest elements. */
    lemma Drop(r: nat)
      requires Valid() && r <= Used()
      ensures var o := Next(output, r);
              && o < U32 && Diff(input, o) == Used() - r && r * esize <= |Contents()|
              && Part(o, Used() - r) == Contents()[r * esize..]
    {
      hide Pos, Next, Diff, Slice;
      Advance(input, output, Used(), r);
      IndexWraps(output, r, size, esize);
      Distributed(Used() - r, r, esize);
      Dropped(Ring(), Start(), Used() * esize, r * esize, Pos(Next(output, r), size, esize));
    }

    // ---- record mode ----

    /** The fifo holds exactly these records. */
    ghost predicate Holds(rs: seq<seq<byte>>, recsize: nat)
      reads this, data
    {
      Valid() && esize == 1 && 1 <= recsize <= 2 && Contents() == Records(rs, recsize) && Fit(rs, recsize)
    }

    /** Bytes that are written `done` bytes behind the newest one. */
    lemma WriteBehind(before: seq<byte>, src: seq<byte>, done: nat)
      requires Valid() && esize == 1 && Used() + done + |src| <= size
      requires Written(before, Pos(Next(input, done), size, 1), src, Ring())
      ensures Slice(Ring(), Start(), Used() + done + |src|) == Slice(before, Start(), Used() + done) + src
    {
      Advance(input, output, Used(), 0);
      NextNext(output, Used(), done);
      hide Pos, Next, Diff, Written, Slice;
      IndexWraps(output, Used() + done, size, 1);
      Placed(before, Start(), Used() + done, src, Ring(), Pos(Next(input, done), size, 1));
    }

    method Poke(off: nat, val: byte)
      requires Valid() && esize == 1
      modifies data
      ensures Written(old(Ring()), Pos(off, size, 1), [val], Ring())
    {
      data[off % size] := val;
      TwoCopies(old(Ring()), off % size, [val], Ring());
    }

    /** `__kfifo_poke_n`. */
    method PokeN(n: nat, recsize: nat)
      requires Valid() && esize == 1 && 1 <= recsize <= 2 && Used() + recsize <= size
      modifies data
      ensures Slice(Ring(), Start(), Used() + recsize) == old(Contents()) + Prefix(n, recsize)
    {
      Advance(input, output, Used(), 0);
      hide Pos, Next, Diff, Written, Slice;
      ghost var before := Ring();
      Poke(input, n % 256);
      NextZero(input);
      WriteBehind(before, [n % 256], 0);
      if recsize > 1 {
        before := Ring();
        Poke(Next(input, 1), n / 256 % 256);
        WriteBehind(before, [n / 256 % 256], 1);
      }
    }

    /**
     `__kfifo_in_r`: a record is stored whole, or not at all. A fifo of records `rs` then holds one more,
     but only if the length of the new one fits the prefix.
     */
    method InR(buf: array<byte>, len: nat, recsize: nat, ghost rs: seq<seq<byte>>) returns (r: nat)
      requires Valid() && esize == 1 && 1 <= recsize <= 2 && buf != data && len < U32 && len <= buf.Length
      modifies this`input, data
      ensures Valid()
      ensures if len + recsize > size - old(Used()) then r == 0 && Contents() == old(Contents())
              else r == len && Contents() == old(Contents()) + Record(buf[..len], recsize)
      ensures old(Holds(rs, recsize)) ==>
                if len + recsize > size - old(Used()) then Holds(rs, recsize)
                else Holds(rs + [buf[..len]], recsize) <==> len <= Max(recsize)
    {
      hide Pos, Next, Diff, Written, Slice, Record, Records, Fit;
      if len + recsize > Unused() {
        return 0;
      }
      Appended(rs, buf[..len], recsize);
      OneMoreFits(rs, buf[..len], recsize);
      WriteRecord(buf, len, recsize);
      Advance(input, output, Used(), len + recsize);
      input := Next(input, len + recsize);
      r := len;
    }

    /** Prefix and bytes of a record, behind the newest element. */
    method WriteRecord(buf: array<byte>, len: nat, recsize: nat)
      requires Valid() && esize == 1 && 1 <= recsize <= 2 && buf != data && len <= buf.Length && Used() + recsize + len <= size
      modifies data
      ensures Slice(Ring(), Start(), Used() + (len + recsize)) == old(Contents()) + Record(buf[..len], recsize)
    {
      hide Pos, Next, Diff, Written, Slice, Prefix;
      ghost var was := Contents();
      PokeN(len, recsize);
      ghost var before := Ring();
      CopyIn(buf, len, Next(input, recsize));
      WriteBehind(before, buf[..len], recsize);
      Framing(was, buf[..len], recsize);
    }

    /** What the bytes at the read index say about a length, whether or not they belong to a record. */
    function Peeked(recsize: nat): (n: nat)
      requires Formed() && esize == 1 && 1 <= recsize <= 2
      reads this, data
      ensures n <= Max(recsize)
    {
      InRange(output % size, size, 1);
      InRange(Next(output, 1) % size, size, 1);
      if recsize == 1 then data[output % size] else data[output % size] as nat + 256 * (data[Next(output, 1) % size] as nat)
    }

    /** `__kfifo_peek_n`: the length of the next record. */
    method PeekN(recsize: nat) returns (n: nat)
      requires Formed() && esize == 1 && 1 <= recsize <= 2
      ensures n == Peeked(recsize)
    {
      hide Next;
      InRange(output % size, size, 1);
      InRange(Next(output, 1) % size, size, 1);
      n := data[output % size];
      if recsize > 1 {
        var high: nat := data[Next(output, 1) % size];
        n := n + 256 * high;
      }
    }

    /** If there is a record, its length is what the bytes at the read index say. */
    lemma PeekedLength(recsize: nat)
      requires Valid() && esize == 1 && 1 <= recsize <= 2 && recsize <= Used()
      ensures Peeked(recsize) == Length(Contents(), recsize)
    {
      hide Slice, Next, Pos, Diff;
      FirstByte(0);
      FirstByte(recsize - 1);
    }

    lemma FirstByte(k: nat)
      requires Valid() && esize == 1 && k < Used()
      ensures Contents()[k] == data[Next(output, k) % size] && Next(output, 0) == output
    {
      assert Contents()[k] == At(Ring(), Start(), k);
      hide Slice, Diff;
      PosOne(output, k, size);
    }

    /** The first record, as the fifo that holds it shows it. */
    lemma FirstRecord(rs: seq<seq<byte>>, recsize: nat)
      requires Holds(rs, recsize) && rs != []
      ensures Peeked(recsize) == |rs[0]| && recsize + |rs[0]| <= Used()
      ensures Contents()[recsize..recsize + |rs[0]|] == rs[0] && Contents()[recsize + |rs[0]|..] == Records(rs[1..], recsize)
    {
      hide Slice, Pos, Next, Diff, Peeked;
      Framed(rs[0], recsize, Records(rs[1..], recsize));
      PeekedLength(recsize);
    }

    /** Where the bytes of the record at the read index are, if there is one. */
    ghost function Behind(recsize: nat, r: nat): seq<byte>
      requires Formed() && esize == 1
      reads this, data
    {
      Slice(Ring(), Pos(Next(output, recsize), size, 1), r)
    }

    /** `kfifo_out_copy_r`: copies as much of the next record as fits. */
    method OutCopyR(buf: array<byte>, len: nat, recsize: nat) returns (r: nat, n: nat)
      requires Formed() && esize == 1 && 1 <= recsize <= 2 && buf != data && len <= buf.Length
      requires Min(len, Peeked(recsize)) <= size
      modifies buf
      ensures n == Peeked(recsize) && r == Min(len, n) && buf[..] == Behind(recsize, r) + old(buf[r..])
    {
      hide Pos, Next, Slice, Peeked;
      n := PeekN(recsize);
      r := len;
      if r > n {
        r := n;
      }
      CopyOut(buf, r, Next(output, recsize));
    }

    lemma RecordBytes(recsize: nat, r: nat, first: seq<byte>)
      requires Valid() && esize == 1 && r <= |first| && recsize + |first| <= Used() && Contents()[recsize..recsize + |first|] == first
      ensures Behind(recsize, r) == first[..r]
    {
      hide Pos, Next, Diff, Slice;
      IndexWraps(output, recsize, size, 1);
      Dropped(Ring(), Start(), recsize + r, recsize, Pos(Next(output, recsize), size, 1));
      SliceParts(Ring(), Start(), Used(), recsize + r);
      assert Slice(Ring(), Start(), recsize + r) == Contents()[..recsize + r];
      assert Contents()[..recsize + r][recsize..] == first[..r];
    }

    /** What a fifo of records shows of its first one. */
    lemma RecordShown(rs: seq<seq<byte>>, recsize: nat, len: nat)
      requires Holds(rs, recsize)
      ensures input == output <==> rs == []
      ensures rs != [] ==> var r := Min(len, |rs[0]|); Peeked(recsize) == |rs[0]| && r <= size && Behind(recsize, r) == rs[0][..r]
    {
      hide Pos, Slice, Next, Diff, Peeked, Records, Behind;
      EqualIndices(input, output);
      if rs != [] {
        FirstRecord(rs, recsize);
        RecordBytes(recsize, Min(len, |rs[0]|), rs[0]);
      } else {
        NothingHeld(recsize);
      }
    }

    lemma NothingHeld(recsize: nat)
      requires Holds([], recsize)
      ensures Used() == 0
    {
      hide Slice, Diff;
    }

    /** The places that a call reads; a record that claims to be longer than the fifo would lead out of it. */
    ghost predicate Readable(len: nat, recsize: nat)
      requires Formed() && esize == 1 && 1 <= recsize <= 2
      reads this, data
    {
      input == output || Min(len, Peeked(recsize)) <= size
    }

    /**
     `__kfifo_out_peek_r`: the bytes behind the prefix at the read index. In a fifo of records that is the
     beginning of the first one.
     */
    method OutPeekR(buf: array<byte>, len: nat, recsize: nat, ghost rs: seq<seq<byte>>) returns (r: nat)
      requires Formed() && esize == 1 && 1 <= recsize <= 2 && buf != data && len <= buf.Length && Readable(len, recsize)
      modifies buf
      ensures input == output ==> r == 0 && buf[..] == old(buf[..])
      ensures input != output ==> r == Min(len, Peeked(recsize)) && buf[..] == Behind(recsize, r) + old(buf[r..])
      ensures Holds(rs, recsize) && rs != [] ==> r == Min(len, |rs[0]|) && buf[..] == rs[0][..r] + old(buf[r..])
      ensures Holds(rs, recsize) && rs == [] ==> r == 0 && buf[..] == old(buf[..])
    {
      hide Pos, Next, Diff, Slice, Records, Peeked, Behind, Holds;
      if Holds(rs, recsize) {
        RecordShown(rs, recsize, len);
      }
      if input == output {
        return 0;
      }
      var n;
      r, n := OutCopyR(buf, len, recsize);
    }

    /** The read index passes some elements, which may be more than there are. */
    method Pass(k: nat, recsize: nat, ghost rs: seq<seq<byte>>)
      requires Formed() && esize == 1 && 1 <= recsize <= 2 && k == Peeked(recsize) + recsize
      modifies this`output
      ensures Formed() && output == Next(old(output), k)
      ensures old(Valid()) ==> (Valid() <==> k <= old(Used()))
      ensures old(Holds(rs, recsize)) ==> (Holds(if rs == [] then [] else rs[1..], recsize) <==> rs != [])
    {
      hide Pos, Next, Diff, Slice, Records, Peeked;
      NextInRange(output, k);
      if Valid() {
        Passed(k, recsize, rs);
      }
      output := Next(output, k);
    }

    lemma Passed(k: nat, recsize: nat, rs: seq<seq<byte>>)
      requires Valid() && esize == 1 && 1 <= recsize <= 2 && k == Peeked(recsize) + recsize
      ensures var o := Next(output, k);
              && o < U32 && (Diff(input, o) <= size <==> k <= Used())
              && (Holds(rs, recsize) ==>
                    (rs != [] <==> Diff(input, o) <= size)
                    && (rs != [] ==> Slice(Ring(), Pos(o, size, 1), Diff(input, o)) == Records(rs[1..], recsize)))
    {
      hide Pos, Next, Diff, Slice, Records, Peeked;
      NextInRange(output, k);
      if k <= Used() {
        Drop(k);
      } else {
        Overtaken(k);
      }
      if Holds(rs, recsize) {
        if rs != [] {
          FirstRecord(rs, recsize);
        } else {
          NothingHeld(recsize);
        }
      }
    }

    /** `__kfifo_out_r`: the record leaves the fifo whole, even if only its beginning was asked for. */
    method OutR(buf: array<byte>, len: nat, recsize: nat, ghost rs: seq<seq<byte>>) returns (r: nat)
      requires Formed() && esize == 1 && 1 <= recsize <= 2 && buf != data && len <= buf.Length && Readable(len, recsize)
      modifies this`output, buf
      ensures Formed()
      ensures old(input == output) ==> r == 0 && buf[..] == old(buf[..]) && output == old(output)
      ensures old(input != output) ==>
        && r == Min(len, old(Peeked(recsize))) && buf[..] == old(Behind(recsize, Min(len, Peeked(recsize)))) + old(buf[..])[r..]
        && output == Next(old(output), old(Peeked(recsize)) + recsize)
        && (old(Valid()) ==> (Valid() <==> old(Peeked(recsize)) + recsize <= old(Used())))
      ensures old(Holds(rs, recsize)) && rs != [] ==>
        r == Min(len, |rs[0]|) && buf[..] == rs[0][..r] + old(buf[..])[r..] && Holds(rs[1..], recsize)
      ensures old(Holds(rs, recsize)) && rs == [] ==> r == 0 && buf[..] == old(buf[..]) && Holds([], recsize)
    {
      hide Pos, Next, Diff, Slice, Records, Peeked, Behind, Holds;
      if Holds(rs, recsize) {
        Holding(rs, recsize);
        RecordShown(rs, recsize, len);
      }
      if input == output {
        return 0;
      }
      var n;
      r, n := OutCopyR(buf, len, recsize);
      Pass(n + recsize, recsize, rs);
    }

    lemma Holding(rs: seq<seq<byte>>, recsize: nat)
      requires Holds(rs, recsize)
      ensures Valid()
    {
    }

    /**
     `__kfifo_skip_r`: the next record leaves. The source does not look whether there is one: it takes the
     bytes at the read index for a length, and on an empty fifo the indices pass each other.
     */
    method SkipR(recsize: nat, ghost rs: seq<seq<byte>>)
      requires Formed() && esize == 1 && 1 <= recsize <= 2
      modifies this`output
      ensures Formed() && output == Next(old(output), old(Peeked(recsize)) + recsize)
      ensures old(Valid()) ==> (Valid() <==> old(Peeked(recsize)) + recsize <= old(Used()))
      ensures old(Holds(rs, recsize)) ==> (Holds(if rs == [] then [] else rs[1..], recsize) <==> rs != [])
    {
      hide Pos, Next, Diff, Slice, Records, Peeked, Holds;
      var n := PeekN(recsize);
      Pass(n + recsize, recsize, rs);
    }

    /** For example, a new fifo of eight bytes is unusable after one skip. */
    static method SkipNothing() returns (f: Fifo)
      ensures f.size == 8 && f.input == 0 && 1 <= f.output <= 0x100 && !f.Valid()
    {
      var buffer := new byte[8](_ => 0);
      f := new Fifo(buffer, 8, 1);
      assert f.size == 8 by {
        assert PowerOfTwo(f.size) && 8 < 2 * f.size && f.size <= 8;
      }
      f.SkipR(1, []);
    }

    /** More is taken than there is: the fifo then seems to hold more than its size. */
    lemma Overtaken(k: nat)
      requires Valid() && esize == 1 && Used() < k <= 0x1_0001
      ensures Diff(input, Next(output, k)) > size
    {
      HalfWord(size);
      Advance(input, output, Used(), 0);
      hide Diff, Next;
      NextIs(output, k);
      DiffIs(input, output);
      DiffIs(input, Next(output, k));
    }

    // ---- runs of the record mode ----

    lemma HoldsRecords(rs: seq<seq<byte>>, recsize: nat)
      requires Holds(rs, recsize)
      ensures esize == 1 && 1 <= recsize <= 2 && Used() == |Records(rs, recsize)|
    {
      hide Slice, Diff;
    }

    /** Any one call of a client. */
    method Serve(call: Call, recsize: nat, ghost rs: seq<seq<byte>>) returns (answer: seq<byte>)
      requires Holds(rs, recsize) && (call.Put? ==> |call.record| < U32)
      modifies this`input, this`output, data
      ensures Holds(After(rs, call, size, recsize), recsize) <==> Proper(rs, call, size, recsize)
      ensures Proper(rs, call, size, recsize) ==> answer == Answer(rs, call)
    {
      hide Pos, Next, Diff, Slice, Records, Peeked, Behind, Holds, Fit;
      Holding(rs, recsize);
      HoldsRecords(rs, recsize);
      answer := [];
      match call {
        case Put(record) =>
          var buf := new byte[|record|](i requires 0 <= i < |record| => record[i]);
          assert buf[..] == buf[..|record|] == record;
          var r := InR(buf, |record|, recsize, rs);
        case Get(len) =>
          RecordShown(rs, recsize, len);
          var buf := new byte[len](_ => 0);
          var r := OutR(buf, len, recsize, rs);
          answer := buf[..r];
        case Peek(len) =>
          RecordShown(rs, recsize, len);
          var buf := new byte[len](_ => 0);
          var r := OutPeekR(buf, len, recsize, rs);
          answer := buf[..r];
        case Skip =>
          SkipR(recsize, rs);
      }
    }

    /**
     Any run of calls: the fifo answers like a queue of whole records, as long as no record is too long for its
     prefix and nothing is skipped when there is nothing.
     */
    method ServeAll(calls: seq<Call>, recsize: nat, ghost rs: seq<seq<byte>>) returns (answers: seq<seq<byte>>)
      requires Holds(rs, recsize) && ProperRun(rs, calls, size, recsize)
      requires forall i | 0 <= i < |calls| && calls[i].Put? :: |calls[i].record| < U32
      modifies this`input, this`output, data
      ensures Holds(AfterRun(rs, calls, size, recsize), recsize)
      ensures answers == Answers(rs, calls, size, recsize)
    {
      answers := [];
      var n := 0;
      while n < |calls|
        invariant n <= |calls| && ProperRun(rs, calls[..n], size, recsize)
        invariant Holds(AfterRun(rs, calls[..n], size, recsize), recsize)
        invariant answers == Answers(rs, calls[..n], size, recsize)
      {
        hide Holds, After, Answer, Proper;
        OneCallMore(rs, calls, n, size, recsize);
        var answer := Serve(calls[n], recsize, AfterRun(rs, calls[..n], size, recsize));
        answers := answers + [answer];
        n := n + 1;
      }
      assert calls[..n] == calls;
    }
  }
}
