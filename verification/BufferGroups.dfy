/** How a group's memory is cut into buffers, and why every buffer is large enough and overlaps no other. */
module BufferGroups {
  import opened Arithmetic
  import opened Basics
  import opened CacheState

  const U64: nat := 0x1_0000_0000_0000_0000

  /** The values of a machine word of the sizes that `size_t` has. */
  predicate IsWord(word: nat) {
    word == U32 || word == U64
  }

  /** The smallest power of two, from `p` on, that is at least `n`. */
  function PowerFrom(p: nat, n: nat): (r: nat)
    requires p > 0
    ensures r >= n && r >= p && (r == p || r < 2 * n)
    decreases n - p
  {
    if p >= n then p else PowerFrom(2 * p, n)
  }

  /** How many smallest buffers a block needs. An empty block wraps around. */
  function Pieces(size: nat, bufferMin: nat, word: nat): nat
    requires bufferMin > 0 && word > 0
  {
    (((size + word - 1) % word) / bufferMin + 1) % word
  }

  function BdsFor(size: nat, bufferMin: nat, bufferMax: nat, word: nat): (n: nat)
    requires bufferMin > 0 && word > 0
    ensures n <= bufferMax / bufferMin
  {
    if size > bufferMax then 0
    else Share(bufferMax / bufferMin, PowerFrom(1, Pieces(size, bufferMin, word)))
  }

  /** `m` smallest buffers, `p` of them for each block. */
  function Share(m: nat, p: nat): (n: nat)
    requires p > 0
    ensures n <= m
  {
    Shrinks(m, p);
    m / p
  }

  lemma Shrinks(m: nat, p: nat)
    requires p > 0
    ensures m / p <= m
  {
    var q := m / p;
    assert m == q * p + m % p;
    ProductAtLeast(q, p, 1);
  }

  /** The doubling reaches the number of pieces before it leaves the machine word. */
  predicate Ends(size: nat, bufferMin: nat, bufferMax: nat, word: nat)
    requires bufferMin > 0 && word > 0
  {
    size > bufferMax || Pieces(size, bufferMin, word) <= word / 2
  }

  /** `rtems_bdbuf_bds_per_group`, for any size of the machine word, if its loop ends. */
  method BdsPerGroup(size: nat, bufferMin: nat, bufferMax: nat, word: nat) returns (n: nat)
    requires IsWord(word) && size < word && 0 < bufferMin < U32 && bufferMax < U32 && Ends(size, bufferMin, bufferMax, word)
    ensures n == BdsFor(size, bufferMin, bufferMax, word)
  {
    hide Pieces, PowerFrom, Share;
    if size > bufferMax {
      return 0;
    }
    var bdsPerSize := SmallestPower(Pieces(size, bufferMin, word), word);
    n := Share(bufferMax / bufferMin, bdsPerSize);
  }

  method SmallestPower(bufsPerSize: nat, word: nat) returns (bdsPerSize: nat)
    requires IsWord(word) && bufsPerSize <= word / 2
    ensures bdsPerSize == PowerFrom(1, bufsPerSize)
  {
    bdsPerSize := 1;
    while bdsPerSize < bufsPerSize
      invariant 0 < bdsPerSize < word
      invariant PowerFrom(bdsPerSize, bufsPerSize) == PowerFrom(1, bufsPerSize)
      decreases bufsPerSize - bdsPerSize
    {
      Within(bdsPerSize * 2, word);
      bdsPerSize := (bdsPerSize * 2) % word;
    }
  }

  /** The variable of the doubling loop after `k` turns. */
  function Doubled(k: nat, word: nat): nat
    requires word > 0
  {
    if k == 0 then 1 % word else Doubled(k - 1, word) * 2 % word
  }

  function PowerOfTwo(k: nat): (p: nat)
    ensures p > 0
  {
    if k == 0 then 1 else 2 * PowerOfTwo(k - 1)
  }

  /** The word has one more bit than `top`. */
  ghost predicate TopBit(word: nat, top: nat) {
    word == 2 * PowerOfTwo(top)
  }

  lemma TopBits()
    ensures TopBit(U32, 31) && TopBit(U64, 63)
  {
    assert PowerOfTwo(15) == 0x8000;
    PowersMultiply(1, 15);
    PowersMultiply(15, 16);
    PowersMultiply(1, 31);
    PowersMultiply(31, 32);
  }

  lemma {:induction false} PowersMultiply(a: nat, b: nat)
    ensures PowerOfTwo(a + b) == PowerOfTwo(a) * PowerOfTwo(b)
  {
    if a > 0 {
      PowersMultiply(a - 1, b);
    }
  }

  /** The variable is a power of two while there are bits left, and zero from then on. */
  lemma {:induction false} DoubledPower(k: nat, word: nat, top: nat)
    requires TopBit(word, top)
    ensures Doubled(k, word) == if k <= top then PowerOfTwo(k) else 0
  {
    hide PowerOfTwo;
    FirstPower();
    if k == 0 {
      DoubleOnce(0, word, top);
    } else {
      DoubledPower(k - 1, word, top);
      DoubleOnce(k - 1, word, top);
    }
  }

  lemma FirstPower()
    ensures PowerOfTwo(0) == 1
  {
  }

  lemma DoubleOnce(k: nat, word: nat, top: nat)
    requires TopBit(word, top)
    ensures k < top ==> PowerOfTwo(k) * 2 % word == PowerOfTwo(k + 1)
    ensures PowerOfTwo(top) * 2 % word == 0 && 0 * 2 % word == 0 && 1 % word == 1
  {
    if k < top {
      PowersGrow(k + 1, top);
      Within(PowerOfTwo(k + 1), word);
    }
    Within(word, word);
    Within(0, word);
    Within(1, word);
  }

  lemma {:induction false} PowersGrow(k: nat, top: nat)
    requires k <= top
    ensures PowerOfTwo(k) <= PowerOfTwo(top)
  {
    if k < top {
      PowersGrow(k, top - 1);
    }
  }

  /** The loop ends if and only if the number of pieces is at most half of the machine word. */
  lemma LoopEnds(pieces: nat, word: nat)
    requires IsWord(word) && pieces < word
    ensures (exists k: nat :: Doubled(k, word) >= pieces) <==> pieces <= word / 2
  {
    hide Doubled, PowerOfTwo, TopBit;
    TopBits();
    var top := if word == U32 then 31 else 63;
    Half(word, top);
    forall k: nat ensures Doubled(k, word) <= word / 2 {
      DoubledPower(k, word, top);
      if k <= top {
        PowersGrow(k, top);
      }
    }
    DoubledPower(top, word, top);
  }

  lemma Half(word: nat, top: nat)
    requires TopBit(word, top)
    ensures PowerOfTwo(top) == word / 2
  {
  }

  /** So it fails to end only on a machine with 32-bit words, for buffers that may be single bytes and a block of over 2 GiB. */
  lemma EndsExactly(size: nat, bufferMin: nat, bufferMax: nat, word: nat)
    requires IsWord(word) && size <= bufferMax < U32 && bufferMin > 0
    ensures Ends(size, bufferMin, bufferMax, word) <==> word == U64 || bufferMin > 1 || size <= U32 / 2
  {
    var w := (size + word - 1) % word;
    WrappedBelow(size, word);
    if bufferMin > 1 {
      HalfAtMost(w, bufferMin, word);
    } else {
      assert w / 1 == w;
    }
  }

  /** One less than the size, in the machine word. */
  lemma WrappedBelow(size: nat, word: nat)
    requires IsWord(word) && size < word
    ensures (size + word - 1) % word == if size == 0 then word - 1 else size - 1
  {
  }

  lemma HalfAtMost(w: nat, bufferMin: nat, word: nat)
    requires IsWord(word) && w < word && bufferMin > 1
    ensures (w / bufferMin + 1) % word <= word / 2
  {
    var q := w / bufferMin;
    assert w == q * bufferMin + w % bufferMin;
    ProductAtLeast(q, bufferMin, 2);
    assert q + 1 <= word / 2;
  }

  /** The bytes of one buffer, if a group holds `n` of them. */
  function SliceBytes(n: nat, bufferMin: nat, bufferMax: nat): nat
    requires bufferMin > 0 && n > 0
  {
    ((bufferMax / bufferMin) / n) * bufferMin
  }

  /** A buffer is never smaller than the block it is for. */
  lemma LargeEnough(size: nat, bufferMin: nat, bufferMax: nat, word: nat)
    requires IsWord(word) && bufferMin > 0 && bufferMax < U32 && BdsFor(size, bufferMin, bufferMax, word) > 0
    ensures SliceBytes(BdsFor(size, bufferMin, bufferMax, word), bufferMin, bufferMax) >= size
  {
    var m := bufferMax / bufferMin;
    var k := Pieces(size, bufferMin, word);
    var p := PowerFrom(1, k);
    if size > 0 {
      EnoughPieces(size, bufferMin, word);
      DoubleDivision(m, p);
      ProductAtLeast(bufferMin, m / (m / p), k);
    }
  }

  lemma PiecesOf(size: nat, bufferMin: nat, word: nat)
    requires IsWord(word) && 0 < size < U32 && bufferMin > 0
    ensures Pieces(size, bufferMin, word) == (size - 1) / bufferMin + 1
  {
    WrappedBelow(size, word);
    SmallQuotient(size - 1, bufferMin, word);
  }

  lemma EnoughPieces(size: nat, bufferMin: nat, word: nat)
    requires IsWord(word) && 0 < size < U32 && bufferMin > 0
    ensures Pieces(size, bufferMin, word) * bufferMin >= size
  {
    PiecesOf(size, bufferMin, word);
    hide Pieces;
    var w := size - 1;
    var q := w / bufferMin;
    assert w == q * bufferMin + w % bufferMin;
    assert (q + 1) * bufferMin == q * bufferMin + bufferMin;
  }

  lemma SmallQuotient(w: nat, bufferMin: nat, word: nat)
    requires IsWord(word) && bufferMin > 0 && w < U32 - 1
    ensures (w / bufferMin + 1) % word == w / bufferMin + 1
  {
    var q := w / bufferMin;
    assert w == q * bufferMin + w % bufferMin;
    ProductAtLeast(q, bufferMin, 1);
    assert q + 1 < word;
  }

  lemma DoubleDivision(m: nat, p: nat)
    requires p > 0 && m / p > 0
    ensures m / (m / p) >= p
  {
    var q := m / p;
    assert m == q * p + m % p;
    var r := m / q;
    assert m == r * q + m % q;
    assert q * (r + 1) == r * q + q;
    if r < p {
      ProductAtLeast(q, p, r + 1);
    }
  }

  /** The bytes count from the start of the cache's memory; every descriptor stands for one smallest buffer. */
  function Width(c: Cache, i: nat): nat {
    if GroupOf(c, i) < |c.groups| && c.groups[GroupOf(c, i)].bdsPerGroup > 0 then c.maxBds / c.groups[GroupOf(c, i)].bdsPerGroup else 0
  }

  /** A buffer that suits a device holds a whole block of it. */
  lemma SuitedIsLargeEnough(c: Cache, i: nat, key: Key, size: nat, bufferMin: nat, bufferMax: nat, word: nat)
    requires IsWord(word) && Formed(c) && bufferMin > 0 && bufferMax < U32 && c.maxBds == bufferMax / bufferMin
    requires Suited(c, i, key) && c.need[key.dd] == BdsFor(size, bufferMin, bufferMax, word)
    ensures Width(c, i) * bufferMin >= size
  {
    LargeEnough(size, bufferMin, bufferMax, word);
  }

  /** A buffer lies inside its group. */
  lemma InsideGroup(c: Cache, i: nat)
    requires Active(c, i)
    ensures var g := GroupOf(c, i); g * c.maxBds <= i && i + Width(c, i) <= (g + 1) * c.maxBds
  {
    var g, m := GroupOf(c, i), c.maxBds;
    var n := c.groups[g].bdsPerGroup;
    var b := i % m;
    assert i == g * m + b;
    Contained(m, n, m / n, b);
    assert (g + 1) * m == g * m + m;
  }

  lemma Contained(m: nat, n: nat, step: nat, b: nat)
    requires n > 0 && step == m / n && step > 0 && b % step == 0 && b / step < n
    ensures b + step <= m
  {
    var q := b / step;
    assert b == q * step;
    assert m == step * n + m % n;
    ProductAtLeast(step, n, q + 1);
    assert step * (q + 1) == q * step + step;
  }

  /** No two buffers in use overlap, whatever layouts their groups have. */
  lemma Disjoint(c: Cache, i: nat, j: nat)
    requires Active(c, i) && Active(c, j) && i < j
    ensures i + Width(c, i) <= j
  {
    InsideGroup(c, i);
    InsideGroup(c, j);
    var m, g, h := c.maxBds, GroupOf(c, i), GroupOf(c, j);
    if g == h {
      var step := m / c.groups[g].bdsPerGroup;
      SameGroup(i, j, m, step, g);
    } else {
      EarlierGroup(i, j, m);
      ProductAtLeast(m, h, g + 1);
    }
  }

  lemma EarlierGroup(i: nat, j: nat, m: nat)
    requires m > 0 && i < j
    ensures i / m <= j / m
  {
    var g, h := i / m, j / m;
    assert i == g * m + i % m && j == h * m + j % m;
    assert (h + 1) * m == h * m + m;
    if g >= h + 1 {
      ProductAtLeast(m, g, h + 1);
    }
  }

  lemma SameGroup(i: nat, j: nat, m: nat, step: nat, g: nat)
    requires m > 0 && step > 0 && i / m == g && j / m == g && (i % m) % step == 0 && (j % m) % step == 0 && i < j
    ensures i + step <= j
  {
    var a, b := i % m, j % m;
    assert i == g * m + a && j == g * m + b;
    var x, y := a / step, b / step;
    assert a == x * step && b == y * step;
    if y <= x {
      ProductAtLeast(step, x, y);
    } else {
      ProductAtLeast(step, y, x + 1);
      assert (x + 1) * step == x * step + step;
    }
  }
}
