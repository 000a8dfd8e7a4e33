/** A ring of elements, and what reading and writing across its end means. */
module Ring {
  import opened Arithmetic
  /** Element `k` counted from position `start`, wrapping at the end. */
  function At<T>(data: seq<T>, start: nat, k: nat): T
    requires |data| > 0
  {
    data[(start + k) % |data|]
  }

  function Slice<T>(data: seq<T>, start: nat, n: nat): (r: seq<T>)
    requires |data| > 0
    ensures |r| == n
  {
    seq(n, k requires 0 <= k < n => At(data, start, k))
  }

  /** `data` with `src` written from position `start` on. */
  ghost predicate Written<T>(data: seq<T>, start: nat, src: seq<T>, data': seq<T>) {
    && |data'| == |data| > 0 && |src| <= |data|
    && (forall k | 0 <= k < |src| :: At(data', start, k) == src[k])
    && (forall k | |src| <= k < |data| :: At(data', start, k) == At(data, start, k))
  }

  /** What lies behind the written part is as before, and the written part is what was written. */
  lemma SliceWritten<T>(data: seq<T>, start: nat, used: nat, src: seq<T>, data': seq<T>)
    requires Written(data, start + used, src, data') && used + |src| <= |data|
    ensures Slice(data', start, used + |src|) == Slice(data, start, used) + src
  {
    var m := |data|;
    forall k: nat | k < used + |src| ensures At(data', start, k) == (Slice(data, start, used) + src)[k] {
      if k < used {
        var j := m - used + k;
        assert start + used + j == (start + k) + m;
        ModShift(start + k, 1, m);
        assert At(data', start + used, j) == At(data, start + used, j);
      } else {
        assert At(data', start + used, k - used) == src[k - used];
      }
    }
  }

  lemma SliceParts<T>(data: seq<T>, start: nat, n: nat, i: nat)
    requires |data| > 0 && i <= n
    ensures Slice(data, start, n) == Slice(data, start, i) + Slice(data, start + i, n - i)
  {
  }

  lemma SameStart<T>(data: seq<T>, a: nat, b: nat, n: nat)
    requires |data| > 0 && a % |data| == b % |data|
    ensures Slice(data, a, n) == Slice(data, b, n)
  {
    hide At;
    var x, y := Slice(data, a, n), Slice(data, b, n);
    forall k: nat | k < n ensures x[k] == y[k] {
      SameAt(data, a, b, k);
    }
    assert x == y;
  }

  lemma SameAt<T>(data: seq<T>, a: nat, b: nat, k: nat)
    requires |data| > 0 && a % |data| == b % |data|
    ensures At(data, a, k) == At(data, b, k)
  {
    SameOffset(a, b, k, |data|);
  }

  lemma SameWritten<T>(data: seq<T>, a: nat, b: nat, src: seq<T>, data': seq<T>)
    requires Written(data, a, src, data') && a % |data| == b % |data|
    ensures Written(data, b, src, data')
  {
    hide At;
    forall k: nat | k < |data| ensures At(data', a, k) == At(data', b, k) && At(data, a, k) == At(data, b, k) {
      SameAt(data', a, b, k);
      SameAt(data, a, b, k);
    }
  }

  /** Two copies, up to the end of the ring and from its start, write across the end. */
  lemma TwoCopies<T>(data: seq<T>, o: nat, src: seq<T>, data': seq<T>)
    requires o < |data| == |data'| && |src| <= |data|
    requires var l := if |src| < |data| - o then |src| else |data| - o;
             && (forall i | o <= i < o + l :: data'[i] == src[i - o])
             && (forall i | 0 <= i < |src| - l :: data'[i] == src[l + i])
             && (forall i | |src| - l <= i < |data| && !(o <= i < o + l) :: data'[i] == data[i])
    ensures Written(data, o, src, data')
  {
    forall k: nat | k < |data| ensures At(data', o, k) == if k < |src| then src[k] else At(data, o, k) {
      Within(o + k, |data|);
    }
  }

  lemma TwoReads<T>(data: seq<T>, o: nat, n: nat)
    requires o < |data| && n <= |data|
    ensures var l := if n < |data| - o then n else |data| - o; Slice(data, o, n) == data[o..o + l] + data[..n - l]
  {
    var l := if n < |data| - o then n else |data| - o;
    forall k: nat | k < n ensures At(data, o, k) == (data[o..o + l] + data[..n - l])[k] {
      Within(o + k, |data|);
    }
  }
}
