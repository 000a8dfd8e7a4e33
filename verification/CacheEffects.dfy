/** What the steps of the cache achieve, beyond keeping the invariant. */
module CacheEffects {
  import opened CacheState
  import opened CacheSteps
  import opened CacheRun
  import opened BlockOrder

  // ---- purge ----

  /** The buffer holds no data of its block that anybody could still get. */
  predicate Gone(s: State) {
    s == State.Free || s == Empty || s == AccessPurged || s == TransferPurged
  }

  /** Buffer `b` holds no data any more, and no other buffer changes its state. */
  ghost predicate Cleans(c: Cache, c': Cache, b: nat) {
    && |c'.bufs| == |c.bufs| && b < |c.bufs| && Gone(c'.bufs[b].state)
    && forall i | 0 <= i < |c.bufs| && i != b :: c'.bufs[i].state == c.bufs[i].state
  }

  lemma DiscardCleans(c: Cache, c0: Cache, b: nat)
    requires b < |c.bufs| && c0.bufs == c.bufs
    ensures Cleans(c, Discard(c0, b), b)
  {
  }

  lemma PurgeOneCleans(c: Cache, b: nat)
    requires PurgeOne(c, b).Next?
    ensures Cleans(c, PurgeOne(c, b).cache, b)
  {
    hide GroupOf, Without, Discard;
    match c.bufs[b].state
    case Sync => DiscardCleans(c, AddUsers(c, b, -1).(sync := Without(c.sync, b)), b);
    case Modified => DiscardCleans(c, AddUsers(c, b, -1).(modified := Without(c.modified, b)), b);
    case Cached => DiscardCleans(c, c.(lru := Without(c.lru, b)), b);
    case _ =>
  }

  lemma {:induction false} PurgeCleans(c: Cache, order: seq<nat>)
    requires Purge(c, order).Next?
    ensures var c' := Purge(c, order).cache;
            && |c'.bufs| == |c.bufs|
            && (forall i | 0 <= i < |c.bufs| && (i in order || Gone(c.bufs[i].state)) :: Gone(c'.bufs[i].state))
            && (forall i | 0 <= i < |c.bufs| && i !in order :: c'.bufs[i].state == c.bufs[i].state)
    decreases |order|
  {
    hide PurgeOne, Gone;
    if order != [] {
      PurgeOneCleans(c, order[0]);
      PurgeCleans(PurgeOne(c, order[0]).cache, order[1..]);
    }
  }

  /** After a purge no buffer of the device holds data, and the buffers of other devices are as they were. */
  lemma PurgedDevice(c: Cache, dd: nat, order: seq<nat>)
    requires Inv(c) && Enabled(c, PurgeDevice(dd, order))
    ensures var o := Step(c, PurgeDevice(dd, order));
            && o.Next? && |o.cache.bufs| == |c.bufs|
            && forall i | 0 <= i < |c.bufs| && i in c.tree ::
                 if c.bufs[i].key.dd == dd then Gone(o.cache.bufs[i].state) else o.cache.bufs[i].state == c.bufs[i].state
  {
    hide Inv;
    StepIsSafe(c, PurgeDevice(dd, order));
    PurgeCleans(c, order);
  }

  // ---- swap-out ----

  /** The transfer list of a swap-out gains exactly the buffers that are picked. */
  lemma {:induction false} GatherTakes(c: Cache, k: nat, picks: seq<nat>)
    requires Gather(c, k, picks).Next?
    ensures multiset(ListOf(Gather(c, k, picks).cache, k)) == multiset(ListOf(c, k)) + multiset(picks)
    decreases |picks|
  {
    hide GatherOne;
    if picks != [] {
      GatherOneTakes(c, k, picks[0]);
      GatherTakes(GatherOne(c, k, picks[0]).cache, k, picks[1..]);
      assert picks == [picks[0]] + picks[1..];
    }
  }

  /** A swap-out starts with exactly the buffers that are picked. */
  lemma SwapOutTakes(c: Cache, k: nat, picks: seq<nat>)
    requires Inv(c) && Enabled(c, SwapOut(k, picks))
    ensures var o := Step(c, SwapOut(k, picks)); o.Next? && multiset(ListOf(o.cache, k)) == multiset(picks)
  {
    hide Inv, Gather;
    StepIsSafe(c, SwapOut(k, picks));
    GatherTakes(c, k, picks);
  }

  lemma GatherOneTakes(c: Cache, k: nat, b: nat)
    requires GatherOne(c, k, b).Next?
    ensures multiset(ListOf(GatherOne(c, k, b).cache, k)) == multiset(ListOf(c, k)) + multiset{b}
  {
    hide Place;
    PlaceAdds(BlockOf(c), ListOf(c, k), b);
  }

  lemma FirstLeaves(c: Cache, k: nat, ok: bool)
    requires FirstTransferred(c, k, ok).Next?
    ensures ListOf(c, k) != [] && ListOf(FirstTransferred(c, k, ok).cache, k) == ListOf(c, k)[1..]
  {
    hide Transferred;
  }

  /** A finished request leaves the rest of the transfer list, whose buffers it does not touch. */
  lemma {:induction false} RequestLeaves(c: Cache, k: nat, n: nat, ok: bool)
    requires n <= |ListOf(c, k)| && RequestDone(c, k, n, ok).Next?
    ensures ListOf(RequestDone(c, k, n, ok).cache, k) == ListOf(c, k)[n..]
    decreases n
  {
    hide FirstTransferred;
    if n > 0 {
      FirstLeaves(c, k, ok);
      RequestLeaves(FirstTransferred(c, k, ok).cache, k, n - 1, ok);
    }
  }

  lemma RequestEnded(c: Cache, k: nat, n: nat, ok: bool)
    requires Inv(c) && Enabled(c, RequestEnds(k, n, ok))
    ensures var o := Step(c, RequestEnds(k, n, ok)); o.Next? && ListOf(o.cache, k) == ListOf(c, k)[n..]
  {
    hide Inv, RequestDone;
    StepIsSafe(c, RequestEnds(k, n, ok));
    RequestLeaves(c, k, n, ok);
  }

  // ---- giving a buffer back ----

  /**
   A caller that gives a buffer back holds nothing any more. It is held back exactly for modified data
   while a sync of the device is active, and after a request to sync the buffer it waits for exactly this buffer.
   */
  lemma GivenBack(c: Cache, k: nat, syncing: bool)
    requires Inv(c) && k in c.tasks && c.tasks[k].Holding?
    ensures var b, s := c.tasks[k].b, BufferOf(c, k);
            var o, m, y := Step(c, Releases(k, syncing)), Step(c, ReleasesModified(k, syncing)), Step(c, Syncs(k));
            && o.Next? && m.Next? && y.Next? && b < |c.bufs|
            && (k in o.cache.tasks <==> syncing && c.bufs[b].state == AccessModified) && (k in o.cache.tasks ==> o.cache.tasks[k] == Releasing(b))
            && (k in m.cache.tasks <==> syncing && c.bufs[b].state != AccessPurged) && (k in m.cache.tasks ==> m.cache.tasks[k] == Releasing(b))
            && (k in y.cache.tasks ==> y.cache.tasks[k] == Waiting(b, ForSync, c.bufs[b].key) && b in y.cache.sync)
            && (k !in y.cache.tasks <==> c.bufs[b].state == AccessPurged)
  {
    hide Inv, GroupOf, Discard, Without;
    ReleaseSteps(c, k, c.tasks[k].b, syncing);
  }
}
