/**
 One writer and one reader use a fifo without a lock.  The writer looks at the read index, copies elements
 one by one in any order, and then advances the write index; the reader does the same the other way round.
 Between any two of these steps the other thread may take any number of its own.
 */
module FifoThreads {
  import opened Arithmetic
  import opened Basics
  import opened Fifo

  datatype Writer<T> = NotWriting | Writing(items: seq<T>, done: set<nat>)

  datatype Reader<T> = NotReading | Reading(want: nat, got: map<nat, T>)

  /** Besides the fifo and its two threads: all elements ever accepted, and all ever delivered. */
  datatype System<T> = System(
    size: nat, data: seq<T>, input: nat, output: nat,
    writer: Writer<T>, reader: Reader<T>,
    accepted: seq<T>, delivered: seq<T>)

  datatype Event<T> =
    | WriterStarts(offer: seq<T>)
    | WriterCopies(j: nat)
    | WriterAdvances
    | ReaderStarts(limit: nat)
    | ReaderCopies(j: nat)
    | ReaderAdvances

  predicate Sized<T>(s: System<T>) {
    1 <= s.size < U32 && U32 % s.size == 0 && |s.data| == s.size && s.output < U32
  }

  ghost predicate Enabled<T>(s: System<T>, e: Event<T>) {
    && Sized(s)
    && match e
       case WriterStarts(_) => s.writer.NotWriting?
       case WriterCopies(j) => s.writer.Writing? && j < |s.writer.items|
       case WriterAdvances => s.writer.Writing? && forall j: nat | j < |s.writer.items| :: j in s.writer.done
       case ReaderStarts(_) => s.reader.NotReading?
       case ReaderCopies(j) => s.reader.Reading? && j < s.reader.want
       case ReaderAdvances => s.reader.Reading? && forall j: nat | j < s.reader.want :: j in s.reader.got
  }

  ghost function Step<T>(s: System<T>, e: Event<T>): System<T>
    requires Enabled(s, e)
  {
    match e
    case WriterStarts(offer) =>
      var free := (s.size + U32 - Diff(s.input, s.output)) % U32;
      s.(writer := Writing(offer[..Min(|offer|, free)], {}))
    case WriterCopies(j) =>
      s.(data := s.data[Next(s.input, j) % s.size := s.writer.items[j]], writer := s.writer.(done := s.writer.done + {j}))
    case WriterAdvances =>
      s.(input := Next(s.input, |s.writer.items|), writer := NotWriting, accepted := s.accepted + s.writer.items)
    case ReaderStarts(limit) =>
      s.(reader := Reading(Min(limit, Diff(s.input, s.output)), map[]))
    case ReaderCopies(j) =>
      s.(reader := s.reader.(got := s.reader.got[j := s.data[Next(s.output, j) % s.size]]))
    case ReaderAdvances =>
      s.(output := Next(s.output, s.reader.want), reader := NotReading,
         delivered := s.delivered + Got(s.reader.want, s.reader.got))
  }

  function Initial<T>(data: seq<T>): System<T> {
    System(|data|, data, 0, 0, NotWriting, NotReading, [], [])
  }

  // ---- the invariant ----

  ghost predicate Indices<T>(s: System<T>) {
    && Sized(s) && s.input == |s.accepted| % U32 && s.output == |s.delivered| % U32
    && |s.delivered| <= |s.accepted| <= |s.delivered| + s.size
  }

  /** What is delivered is a prefix of what was accepted, and the rest is in the ring. */
  ghost predicate Stored<T>(s: System<T>)
    requires Sized(s)
  {
    && s.delivered <= s.accepted
    && forall j | |s.delivered| <= j < |s.accepted| :: s.data[j % s.size] == s.accepted[j]
  }

  /** The writer stays clear of what the reader has not released, however old its look at the index is. */
  ghost predicate WriterClear<T>(s: System<T>)
    requires Sized(s)
  {
    s.writer.Writing? ==>
      && |s.accepted| + |s.writer.items| <= |s.delivered| + s.size
      && forall j | j in s.writer.done :: j < |s.writer.items| && s.data[(|s.accepted| + j) % s.size] == s.writer.items[j]
  }

  /** The reader takes only what is accepted, however old its look at the index is. */
  ghost predicate ReaderSafe<T>(s: System<T>) {
    s.reader.Reading? ==>
      && |s.delivered| + s.reader.want <= |s.accepted|
      && forall j | j in s.reader.got :: j < s.reader.want && s.reader.got[j] == s.accepted[|s.delivered| + j]
  }

  ghost predicate Inv<T>(s: System<T>) {
    Indices(s) && Stored(s) && WriterClear(s) && ReaderSafe(s)
  }

  // ---- the word wraps ----

  lemma Distance(a: nat, d: nat)
    requires d <= a < d + U32
    ensures Diff(a % U32, d % U32) == a - d
  {
  }

  /** A wrapped index and the count it stands for point to the same place. */
  lemma SamePlace(total: nat, j: nat, size: nat)
    requires size > 0 && U32 % size == 0
    ensures Next(total % U32, j) % size == (total + j) % size && Next(total % U32, j) == (total + j) % U32
  {
    ModAdd(total, j, U32);
    ModMod(total + j, U32, size);
  }

  // ---- every step keeps the invariant ----

  lemma StartsKeep<T>(s: System<T>, e: Event<T>)
    requires Inv(s) && Enabled(s, e) && (e.WriterStarts? || e.ReaderStarts?)
    ensures Inv(Step(s, e))
  {
    Distance(|s.accepted|, |s.delivered|);
  }

  /** An element that is copied lies clear of what the reader may still take. */
  lemma CopyStored<T>(s: System<T>, j: nat)
    requires Inv(s) && Enabled(s, WriterCopies(j))
    ensures Stored(Step(s, WriterCopies(j)))
  {
    hide ReaderSafe, Indices;
    var s' := Step(s, WriterCopies(j));
    CopyPlace(s, j);
    forall i | |s.delivered| <= i < |s.accepted| ensures s'.data[i % s.size] == s.accepted[i] {
      Apart(i, |s.accepted| + j, s.size);
    }
  }

  /** An element that is copied lies clear of those that are copied already. */
  lemma CopyClear<T>(s: System<T>, j: nat)
    requires Inv(s) && Enabled(s, WriterCopies(j))
    ensures WriterClear(Step(s, WriterCopies(j)))
  {
    hide ReaderSafe, Indices, Stored;
    var s' := Step(s, WriterCopies(j));
    CopyPlace(s, j);
    var at := |s.accepted| + j;
    forall i | i in s'.writer.done
      ensures i < |s.writer.items| && s'.data[(|s.accepted| + i) % s.size] == s.writer.items[i]
    {
      if i < j {
        Apart(|s.accepted| + i, at, s.size);
      } else if i > j && i < |s.writer.items| {
        Apart(at, |s.accepted| + i, s.size);
      }
    }
  }

  /** Where a copied element goes to. */
  lemma CopyPlace<T>(s: System<T>, j: nat)
    requires Inv(s) && Enabled(s, WriterCopies(j))
    ensures var s', p := Step(s, WriterCopies(j)), (|s.accepted| + j) % s.size;
            && p < |s.data| && s'.data == s.data[p := s.writer.items[j]] && Sized(s) && Sized(s')
            && s' == s.(data := s'.data, writer := Writing(s.writer.items, s.writer.done + {j}))
            && |s.accepted| + |s.writer.items| <= |s.delivered| + s.size && |s.delivered| <= |s.accepted|
  {
    SamePlace(|s.accepted|, j, s.size);
    hide Next, Diff;
  }

  lemma WriterCopyKeeps<T>(s: System<T>, j: nat)
    requires Inv(s) && Enabled(s, WriterCopies(j))
    ensures Inv(Step(s, WriterCopies(j)))
  {
    hide Next, Diff, Stored, WriterClear;
    CopyPlace(s, j);
    CopyStored(s, j);
    CopyClear(s, j);
  }

  /** What is accepted is what was copied. */
  lemma AdvanceStored<T>(s: System<T>)
    requires Inv(s) && Enabled(s, WriterAdvances)
    ensures var s' := Step(s, WriterAdvances);
            Sized(s) && (forall i | |s.delivered| <= i < |s'.accepted| :: s'.data[i % s.size] == s'.accepted[i]) && s'.delivered <= s'.accepted
  {
    hide Next, Diff, ReaderSafe, Indices;
    var s' := Step(s, WriterAdvances);
    assert s'.accepted == s.accepted + s.writer.items;
    forall i | |s.delivered| <= i < |s'.accepted| ensures s'.data[i % s.size] == s'.accepted[i] {
      if i >= |s.accepted| {
        var j: nat := i - |s.accepted|;
        assert j in s.writer.done;
        assert s.data[(|s.accepted| + j) % s.size] == s.writer.items[j];
      }
    }
  }

  lemma WriterAdvanceKeeps<T>(s: System<T>)
    requires Inv(s) && Enabled(s, WriterAdvances)
    ensures Inv(Step(s, WriterAdvances))
  {
    AdvanceStored(s);
    SamePlace(|s.accepted|, |s.writer.items|, s.size);
    hide Next, Diff;
  }

  lemma ReaderCopyKeeps<T>(s: System<T>, j: nat)
    requires Inv(s) && Enabled(s, ReaderCopies(j))
    ensures Inv(Step(s, ReaderCopies(j)))
  {
    SamePlace(|s.delivered|, j, s.size);
    hide Next, Diff;
  }

  function Got<T>(want: nat, got: map<nat, T>): (r: seq<T>)
    requires forall j: nat | j < want :: j in got
    ensures |r| == want
  {
    seq(want, j requires 0 <= j < want => got[j])
  }

  lemma GotNext<T>(s: System<T>)
    requires Inv(s) && Enabled(s, ReaderAdvances)
    ensures s.delivered + Got(s.reader.want, s.reader.got) == s.accepted[..|s.delivered| + s.reader.want]
  {
    hide Next, Diff, Indices, WriterClear;
    var g := Got(s.reader.want, s.reader.got);
    forall j | 0 <= j < |g| ensures g[j] == s.accepted[|s.delivered| + j] {
      assert j in s.reader.got;
    }
    assert s.delivered == s.accepted[..|s.delivered|];
  }

  lemma ReaderAdvanceKeeps<T>(s: System<T>)
    requires Inv(s) && Enabled(s, ReaderAdvances)
    ensures Inv(Step(s, ReaderAdvances))
  {
    GotNext(s);
    SamePlace(|s.delivered|, s.reader.want, s.size);
    hide Next, Diff, Got;
    var s' := Step(s, ReaderAdvances);
    assert s'.delivered == s.accepted[..|s.delivered| + s.reader.want];
  }

  lemma StepKeeps<T>(s: System<T>, e: Event<T>)
    requires Inv(s) && Enabled(s, e)
    ensures Inv(Step(s, e))
  {
    hide Inv;
    match e
    case WriterStarts(_) => StartsKeep(s, e);
    case WriterCopies(j) => WriterCopyKeeps(s, j);
    case WriterAdvances => WriterAdvanceKeeps(s);
    case ReaderStarts(_) => StartsKeep(s, e);
    case ReaderCopies(j) => ReaderCopyKeeps(s, j);
    case ReaderAdvances => ReaderAdvanceKeeps(s);
  }

  // ---- runs ----

  ghost predicate Reaches<T>(s: System<T>, events: seq<Event<T>>, s': System<T>)
    decreases |events|
  {
    if events == [] then s' == s
    else Enabled(s, events[0]) && Reaches(Step(s, events[0]), events[1..], s')
  }

  lemma {:induction false} RunKeeps<T>(s: System<T>, events: seq<Event<T>>, s': System<T>)
    requires Inv(s) && Reaches(s, events, s')
    ensures Inv(s')
    decreases |events|
  {
    hide Inv, Step, Enabled;
    if events != [] {
      StepKeeps(s, events[0]);
      RunKeeps(Step(s, events[0]), events[1..], s');
    }
  }

  /**
   In every interleaving, and however often the indices wrap, what the reader got is a prefix of what the
   writer put in, and never more than the size of the fifo is on its way.
   */
  lemma EveryRunDelivers<T>(data: seq<T>, events: seq<Event<T>>, s: System<T>)
    requires 1 <= |data| < U32 && U32 % |data| == 0 && Reaches(Initial(data), events, s)
    ensures s.delivered <= s.accepted && |s.accepted| - |s.delivered| <= |data|
    ensures s.writer.Writing? ==> |s.accepted| + |s.writer.items| - |s.delivered| <= |data|
  {
    hide Step, Enabled;
    RunKeeps(Initial(data), events, s);
    SizeStays(Initial(data), events, s);
  }

  lemma {:induction false} SizeStays<T>(s: System<T>, events: seq<Event<T>>, s': System<T>)
    requires Reaches(s, events, s')
    ensures s'.size == s.size
    decreases |events|
  {
    if events != [] {
      SizeStays(Step(s, events[0]), events[1..], s');
    }
  }

  /** A writer that finds room for everything it offers gets everything accepted, and at once if it may run alone. */
  lemma RoomIsUsed<T>(s: System<T>, offer: seq<T>)
    requires Inv(s) && Enabled(s, WriterStarts(offer))
    ensures var room := s.size - (|s.accepted| - |s.delivered|);
            Step(s, WriterStarts(offer)).writer.items == offer[..Min(|offer|, room)]
  {
    Distance(|s.accepted|, |s.delivered|);
  }

  /** Likewise a reader gets everything that had been accepted when it looked. */
  lemma StockIsUsed<T>(s: System<T>, limit: nat)
    requires Inv(s) && Enabled(s, ReaderStarts(limit))
    ensures Step(s, ReaderStarts(limit)).reader.want == Min(limit, |s.accepted| - |s.delivered|)
  {
    Distance(|s.accepted|, |s.delivered|);
  }
}
