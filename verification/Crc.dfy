/** The CRC-32 of the boot loader: two table look-ups a byte, against the bitwise definition. */
module Crc {
  import opened Bytes

  const POLYNOMIAL: bv32 := 0xedb88320

  // ---- the bitwise definition ----

  function Bit(crc: bv32): bv32 {
    if crc & 1 == 1 then (crc >> 1) ^ POLYNOMIAL else crc >> 1
  }

  function FourBits(crc: bv32): bv32 {
    Bit(Bit(Bit(Bit(crc))))
  }

  function Byte(crc: bv32, b: byte): bv32 {
    FourBits(FourBits(Xor(crc, b as bv32)))
  }

  /** The register after some bytes. */
  function Register(crc: bv32, data: seq<byte>): bv32 {
    if data == [] then crc else Byte(Register(crc, data[..|data| - 1]), data[|data| - 1])
  }

  /** The checksum of some bytes: the register starts with all ones and is inverted in the end. */
  function Checksum(data: seq<byte>): bv32 {
    Not(Register(0xffffffff, data))
  }

  // ---- the table ----

  function Table(i: bv32): bv32 {
    if i == 0 then 0x00000000 else if i == 1 then 0x1db71064 else if i == 2 then 0x3b6e20c8 else if i == 3 then 0x26d930ac
    else if i == 4 then 0x76dc4190 else if i == 5 then 0x6b6b51f4 else if i == 6 then 0x4db26158 else if i == 7 then 0x5005713c
    else if i == 8 then 0xedb88320 else if i == 9 then 0xf00f9344 else if i == 10 then 0xd6d6a3e8 else if i == 11 then 0xcb61b38c
    else if i == 12 then 0x9b64c2b0 else if i == 13 then 0x86d3d2d4 else if i == 14 then 0xa00ae278 else 0xbdbdf21c
  }

  // The operations by name, so that proofs need not look into their bits.

  function Xor(x: bv32, y: bv32): bv32 { x ^ y }

  function Shift4(x: bv32): bv32 { x >> 4 }

  function Low4(x: bv32): bv32 { x & 0x0f }

  function Not(x: bv32): bv32 { !x }

  lemma SwapXor(x: bv32, y: bv32, z: bv32)
    ensures Xor(Xor(x, y), z) == Xor(Xor(x, z), y)
  {
    hide Xor;
    JoinXor(x, y, z);
    JoinXor(x, z, y);
    TurnXor(y, z);
  }

  lemma TurnXor(x: bv32, y: bv32)
    ensures Xor(x, y) == Xor(y, x)
  {
  }

  lemma JoinXor(x: bv32, y: bv32, z: bv32)
    ensures Xor(Xor(x, y), z) == Xor(x, Xor(y, z))
  {
  }

  function Half(x: bv32): bv32 { x >> 1 }

  /** What a step adds to the shifted register. */
  function Feedback(x: bv32): bv32 { if x & 1 == 1 then POLYNOMIAL else 0 }

  lemma BitParts(x: bv32)
    ensures Bit(x) == Xor(Half(x), Feedback(x))
  {
  }

  lemma HalfXor(x: bv32, y: bv32)
    ensures Half(Xor(x, y)) == Xor(Half(x), Half(y))
  {
  }

  lemma LowXor(x: bv32, y: bv32)
    ensures (x & 1 == 0 || x & 1 == 1) && (y & 1 == 0 || y & 1 == 1)
    ensures Xor(x, y) & 1 == if x & 1 == y & 1 then 0 else 1
  {
  }

  lemma FeedbackXor(x: bv32, y: bv32)
    ensures Feedback(Xor(x, y)) == Xor(Feedback(x), Feedback(y))
  {
    LowXor(x, y);
    assert Xor(POLYNOMIAL, POLYNOMIAL) == 0 && Xor(POLYNOMIAL, 0) == POLYNOMIAL && Xor(0, POLYNOMIAL) == POLYNOMIAL && Xor(0, 0) == 0;
    hide Xor;
  }

  lemma BitXor(x: bv32, y: bv32)
    ensures Bit(Xor(x, y)) == Xor(Bit(x), Bit(y))
  {
    hide Bit, Xor, Half, Feedback;
    BitParts(x);
    BitParts(y);
    BitParts(Xor(x, y));
    HalfXor(x, y);
    FeedbackXor(x, y);
    JoinXor(Xor(Half(x), Half(y)), Feedback(x), Feedback(y));
    SwapXor(Half(x), Half(y), Feedback(x));
    JoinXor(Bit(x), Half(y), Feedback(y));
  }

  /** Four bits of a sum are the sum of four bits. */
  lemma FourBitsXor(x: bv32, y: bv32)
    ensures FourBits(Xor(x, y)) == Xor(FourBits(x), FourBits(y))
  {
    hide Bit, Xor;
    BitXor(x, y);
    BitXor(Bit(x), Bit(y));
    BitXor(Bit(Bit(x)), Bit(Bit(y)));
    BitXor(Bit(Bit(Bit(x))), Bit(Bit(Bit(y))));
  }

  /** Without low bits four steps are a shift. */
  lemma HighBits(crc: bv32)
    requires Low4(crc) == 0
    ensures FourBits(crc) == Shift4(crc)
  {
  }

  lemma LowBits(crc: bv32)
    requires crc < 16
    ensures FourBits(crc) == Table(crc)
  {
  }

  function High(crc: bv32): bv32 { crc & 0xfffffff0 }

  lemma Halves(crc: bv32)
    ensures crc == Xor(High(crc), Low4(crc)) && Low4(High(crc)) == 0 && Low4(crc) < 16 && Shift4(High(crc)) == Shift4(crc)
  {
  }

  /** A look-up does four bits at once. */
  lemma FourAtOnce(crc: bv32)
    ensures FourBits(crc) == Xor(Shift4(crc), Table(Low4(crc)))
  {
    hide FourBits, Xor, Shift4, Low4, High, Table;
    Halves(crc);
    FourBitsXor(High(crc), Low4(crc));
    HighBits(High(crc));
    LowBits(Low4(crc));
  }

  lemma ShiftXor(x: bv32, y: bv32)
    ensures Shift4(Xor(x, y)) == Xor(Shift4(x), Shift4(y))
  {
  }

  lemma FirstLookUp(crc: bv32, b: bv32, t: bv32)
    ensures Xor(Shift4(Xor(crc, b)), t) == Xor(Xor(Shift4(crc), t), Shift4(b))
  {
    hide Xor, Shift4;
    ShiftXor(crc, b);
    SwapXor(Shift4(crc), Shift4(b), t);
  }

  lemma SecondLookUp(c: bv32, b: bv32)
    requires b < 256
    ensures Shift4(Xor(c, Shift4(b))) == Shift4(c)
  {
  }

  /** One table look-up of `crc32_update`. */
  function LookUp(crc: bv32, n: bv32): bv32 {
    Xor(Shift4(crc), Table(Low4(Xor(crc, n))))
  }

  /** The two look-ups for a byte do what eight bits do. */
  lemma TwoLookUps(crc: bv32, b: bv32)
    requires b < 256
    ensures LookUp(LookUp(crc, b), Shift4(b)) == FourBits(FourBits(Xor(crc, b)))
  {
    hide FourBits, Table, Xor, Shift4, Low4;
    FourAtOnce(Xor(crc, b));
    FirstLookUp(crc, b, Table(Low4(Xor(crc, b))));
    var c := LookUp(crc, b);
    FourAtOnce(Xor(c, Shift4(b)));
    SecondLookUp(c, b);
  }

  lemma ByteFits(b: byte)
    ensures b as bv32 < 256
  {
  }

  /** `crc32_update`. */
  method Update(start: bv32, data: seq<byte>) returns (crc: bv32)
    ensures crc == Not(Register(Not(start), data))
  {
    hide FourBits, LookUp, Xor, Shift4, Not;
    crc := Not(start);
    var i := 0;
    while i < |data|
      invariant 0 <= i <= |data| && crc == Register(Not(start), data[..i])
    {
      var b := data[i] as bv32;
      ByteFits(data[i]);
      TwoLookUps(crc, b);
      assert data[..i + 1][..i] == data[..i];
      crc := LookUp(crc, b);
      crc := LookUp(crc, Shift4(b));
      i := i + 1;
    }
    assert data[..i] == data;
    crc := Not(crc);
  }

  lemma {:induction false} RegisterJoins(crc: bv32, a: seq<byte>, b: seq<byte>)
    ensures Register(crc, a + b) == Register(Register(crc, a), b)
    decreases |b|
  {
    hide Byte;
    if b == [] {
      assert a + b == a;
    } else {
      var s := a + b;
      assert s[..|s| - 1] == a + b[..|b| - 1] && s[|s| - 1] == b[|b| - 1];
      RegisterJoins(crc, a, b[..|b| - 1]);
    }
  }

  lemma Invert(x: bv32)
    ensures Not(Not(x)) == x
  {
  }

  lemma NoData()
    ensures Checksum([]) == 0
  {
  }

  /** The checksum of a whole image may be computed chunk by chunk, from zero on. */
  lemma Chunked(a: seq<byte>, b: seq<byte>)
    ensures Not(Register(Not(Checksum(a)), b)) == Checksum(a + b)
  {
    hide Register, Not;
    Invert(Register(0xffffffff, a));
    RegisterJoins(0xffffffff, a, b);
  }
}
