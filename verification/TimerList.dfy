/** The list of timers, each of which holds only the time that lies between it and the one before it. */
module TimerList {
  import opened TimerQueue

  const EBUSY: int := 16

  function Delta(x: map<nat, int>, id: nat): int {
    if id in x then x[id] else 0
  }

  function Sum(list: seq<nat>, x: map<nat, int>): int {
    if list == [] then 0 else Delta(x, list[0]) + Sum(list[1..], x)
  }

  /** The absolute deadlines that the differences stand for. */
  function Deadlines(list: seq<nat>, x: map<nat, int>, base: int): (q: seq<Entry>)
    ensures |q| == |list|
  {
    if list == [] then []
    else
      var d := base + Delta(x, list[0]);
      [Entry(list[0], d)] + Deadlines(list[1..], x, d)
  }

  lemma {:induction false} JoinSum(a: seq<nat>, b: seq<nat>, x: map<nat, int>)
    ensures Sum(a + b, x) == Sum(a, x) + Sum(b, x)
  {
    if a == [] {
      assert a + b == b;
    } else {
      JoinSum(a[1..], b, x);
      assert (a + b)[1..] == a[1..] + b && (a + b)[0] == a[0];
    }
  }

  lemma Assoc(a: seq<Entry>, b: seq<Entry>, c: seq<Entry>)
    ensures (a + b) + c == a + (b + c)
  {
  }

  lemma {:induction false} Join(a: seq<nat>, b: seq<nat>, x: map<nat, int>, base: int)
    ensures Deadlines(a + b, x, base) == Deadlines(a, x, base) + Deadlines(b, x, base + Sum(a, x))
  {
    hide Delta;
    if a == [] {
      assert a + b == b;
      assert [] + Deadlines(b, x, base) == Deadlines(b, x, base);
    } else {
      var d := base + Delta(x, a[0]);
      Join(a[1..], b, x, d);
      assert (a + b)[1..] == a[1..] + b && (a + b)[0] == a[0];
      Assoc([Entry(a[0], d)], Deadlines(a[1..], x, d), Deadlines(b, x, base + Sum(a, x)));
    }
  }

  lemma {:induction false} SameDeltas(list: seq<nat>, x: map<nat, int>, y: map<nat, int>, base: int)
    requires forall id | id in list :: Delta(x, id) == Delta(y, id)
    ensures Deadlines(list, x, base) == Deadlines(list, y, base) && Sum(list, x) == Sum(list, y)
  {
    if list != [] {
      assert list[0] in list;
      SameDeltas(list[1..], x, y, base + Delta(x, list[0]));
    }
  }

  lemma {:induction false} DeadlineAt(list: seq<nat>, x: map<nat, int>, base: int, k: nat)
    requires k < |list|
    ensures Deadlines(list, x, base)[k] == Entry(list[k], base + Sum(list[..k], x) + Delta(x, list[k]))
  {
    hide Delta;
    var rest, d := list[1..], base + Delta(x, list[0]);
    if k == 0 {
      assert list[..0] == [];
    } else {
      DeadlineAt(rest, x, d, k - 1);
      var front := list[..k];
      assert front[0] == list[0] && front[1..] == rest[..k - 1];
      assert rest[k - 1] == list[k];
      assert Sum(front, x) == Delta(x, list[0]) + Sum(rest[..k - 1], x);
    }
  }

  lemma Ids(list: seq<nat>, x: map<nat, int>, base: int)
    ensures forall k | 0 <= k < |list| :: Deadlines(list, x, base)[k].id == list[k]
    ensures forall id :: id in list <==> exists k :: 0 <= k < |list| && Deadlines(list, x, base)[k].id == id
  {
    forall k | 0 <= k < |list| ensures Deadlines(list, x, base)[k].id == list[k] {
      DeadlineAt(list, x, base, k);
    }
  }

  /** A later base and a smaller first difference make the same deadlines. */
  lemma Rebased(b: seq<nat>, x: map<nat, int>, y: map<nat, int>, base: int, shift: int)
    requires b != [] ==> Delta(y, b[0]) == Delta(x, b[0]) - shift
    requires forall id | id in b && id != b[0] :: Delta(y, id) == Delta(x, id)
    requires b != [] ==> b[0] !in b[1..]
    ensures Deadlines(b, y, base + shift) == Deadlines(b, x, base)
  {
    if b != [] {
      SameDeltas(b[1..], x, y, base + Delta(x, b[0]));
    }
  }

  /** A timer between `a` and `b` takes its time off the one behind it. */
  lemma Spliced(a: seq<nat>, id: nat, b: seq<nat>, x: map<nat, int>, y: map<nat, int>, base: int, rem: int)
    requires Delta(y, id) == rem && id !in a && id !in b
    requires forall i | i in a :: Delta(y, i) == Delta(x, i)
    requires b != [] ==> Delta(y, b[0]) == Delta(x, b[0]) - rem && b[0] !in b[1..]
    requires forall i | i in b && i != b[0] :: Delta(y, i) == Delta(x, i)
    ensures Deadlines(a + [id] + b, y, base)
         == Deadlines(a, x, base) + [Entry(id, base + Sum(a, x) + rem)] + Deadlines(b, x, base + Sum(a, x))
  {
    SameDeltas(a, x, y, base);
    Join(a + [id], b, y, base);
    Join(a, [id], y, base);
    JoinSum(a, [id], y);
    assert Sum([id], y) == rem + Sum([], y);
    Rebased(b, x, y, base + Sum(a, x), rem);
  }

  lemma Parts(a: seq<nat>, id: nat, b: seq<nat>, x: map<nat, int>, base: int)
    ensures Deadlines(a + [id] + b, x, base)
         == Deadlines(a, x, base) + [Entry(id, base + Sum(a, x) + Delta(x, id))] + Deadlines(b, x, base + Sum(a, x) + Delta(x, id))
  {
    Join(a + [id], b, x, base);
    Join(a, [id], x, base);
    JoinSum(a, [id], x);
    assert Sum([id], x) == Delta(x, id) + Sum([], x);
  }

  lemma NewDeltas(x: map<nat, int>, y: map<nat, int>, id: nat, rem: int, list: seq<nat>, k: nat)
    requires id !in list && k <= |list| && (forall i | i in list :: i in x)
    requires y == (if k < |list| && list[k] in x then x[list[k] := x[list[k]] - rem] else x)[id := rem]
    ensures Inserts(list, x, y, id, k, rem)
  {
    assert k < |list| ==> list[k] in list;
  }

  ghost predicate Distinct(list: seq<nat>) {
    forall i, j | 0 <= i < j < |list| :: list[i] != list[j]
  }

  /** The difference that a new timer takes off the one behind it. */
  ghost predicate Inserts(list: seq<nat>, x: map<nat, int>, y: map<nat, int>, id: nat, k: nat, rem: int) {
    && id !in list && k <= |list| && Delta(y, id) == rem && (k < |list| ==> Delta(y, list[k]) == Delta(x, list[k]) - rem)
    && forall i | i in list && (k < |list| ==> i != list[k]) :: Delta(y, i) == Delta(x, i)
  }

  lemma AddedQueue(list: seq<nat>, x: map<nat, int>, y: map<nat, int>, base: int, id: nat, e: int, k: nat, rem: int)
    requires Distinct(list) && Inserts(list, x, y, id, k, rem)
    requires rem == e - Sum(list[..k], x)
    requires forall j | 0 <= j < k && j < |list| :: Deadlines(list, x, base)[j].deadline <= base + e
    requires k < |list| ==> base + e < Deadlines(list, x, base)[k].deadline
    ensures Deadlines(list[..k] + [id] + list[k..], y, base) == Insert(Deadlines(list, x, base), Entry(id, base + e))
  {
    var a, b := list[..k], list[k..];
    assert list == a + b;
    AddedList(list, id, k);
    hide Delta, Deadlines, Sum, Insert, Distinct;
    InsertAt(Deadlines(list, x, base), Entry(id, base + e), k);
    Join(a, b, x, base);
    Spliced(a, id, b, x, y, base, rem);
    Halves(Deadlines(a, x, base), Deadlines(b, x, base + Sum(a, x)), k);
  }

  lemma Halves(a: seq<Entry>, b: seq<Entry>, k: nat)
    requires |a| == k
    ensures (a + b)[..k] == a && (a + b)[k..] == b
  {
  }

  /** What adding a timer at its place does to the deadlines. */
  lemma Added(list: seq<nat>, x: map<nat, int>, y: map<nat, int>, base: int, id: nat, e: int, k: nat, rem: int)
    requires Distinct(list) && Proper(Deadlines(list, x, base)) && Inserts(list, x, y, id, k, rem)
    requires rem == e - Sum(list[..k], x)
    requires forall j | 0 <= j < k && j < |list| :: Deadlines(list, x, base)[j].deadline <= base + e
    requires k < |list| ==> base + e < Deadlines(list, x, base)[k].deadline
    ensures var list', q := list[..k] + [id] + list[k..], Deadlines(list, x, base);
            && Deadlines(list', y, base) == Insert(q, Entry(id, base + e)) && Proper(Deadlines(list', y, base))
            && Distinct(list') && forall i :: i in list' <==> i == id || i in list
  {
    hide Delta, Deadlines, Sum, Insert, Ordered, Separate, Distinct;
    var q := Deadlines(list, x, base);
    AddedQueue(list, x, y, base, id, e, k, rem);
    AddedList(list, id, k);
    NotThere(list, x, base, id);
    InsertOrdered(q, Entry(id, base + e));
    InsertSeparate(q, Entry(id, base + e));
  }

  lemma AddedList(list: seq<nat>, id: nat, k: nat)
    requires Distinct(list) && id !in list && k <= |list|
    ensures var list' := list[..k] + [id] + list[k..]; Distinct(list') && forall i :: i in list' <==> i == id || i in list
    ensures forall i | i in list[..k] :: i in list && (k < |list| ==> i != list[k])
    ensures forall i | i in list[k..] :: i in list
    ensures k < |list| ==> list[k..][0] == list[k] && list[k] !in list[k..][1..]
  {
    assert list == list[..k] + list[k..];
  }

  lemma NotThere2(list: seq<nat>, x: map<nat, int>, base: int, id: nat)
    requires id !in list
    ensures Without(Deadlines(list, x, base), id) == Deadlines(list, x, base)
  {
    NotThere(list, x, base, id);
    WithoutNone(Deadlines(list, x, base), id);
  }

  /** Taking a timer out gives its time to the one behind it. */
  lemma Removed(list: seq<nat>, x: map<nat, int>, y: map<nat, int>, base: int, p: nat)
    requires Distinct(list) && Proper(Deadlines(list, x, base)) && p < |list|
    requires p + 1 < |list| ==> Delta(y, list[p + 1]) == Delta(x, list[p + 1]) + Delta(x, list[p])
    requires forall i | i in list && (p + 1 < |list| ==> i != list[p + 1]) :: Delta(y, i) == Delta(x, i)
    ensures var list' := list[..p] + list[p + 1..];
            && Deadlines(list', y, base) == Without(Deadlines(list, x, base), list[p]) && Proper(Deadlines(list', y, base))
            && Distinct(list') && forall i :: i in list' <==> i in list && i != list[p]
  {
    hide Delta, Deadlines, Sum, Ordered, Separate, Without, Distinct;
    var a, id, b := list[..p], list[p], list[p + 1..];
    RemovedList(list, p);
    RemovedEntry(list, x, base, p);
    SameDeltas(a, x, y, base);
    Join(a, b, y, base);
    Rebased(b, y, x, base + Sum(a, x), Delta(x, id));
  }

  lemma RemovedEntry(list: seq<nat>, x: map<nat, int>, base: int, p: nat)
    requires Distinct(list) && Proper(Deadlines(list, x, base)) && p < |list|
    ensures var a, q := list[..p], Deadlines(list, x, base);
            var r := Deadlines(a, x, base) + Deadlines(list[p + 1..], x, base + Sum(a, x) + Delta(x, list[p]));
            Without(q, list[p]) == r && Proper(r)
  {
    hide Delta, Deadlines, Sum, Ordered, Separate, Without;
    var a, id, b := list[..p], list[p], list[p + 1..];
    assert list == a + [id] + b;
    Parts(a, id, b, x, base);
    WithoutMiddle(Deadlines(a, x, base), Entry(id, base + Sum(a, x) + Delta(x, id)), Deadlines(b, x, base + Sum(a, x) + Delta(x, id)));
  }

  lemma MoreDelta(x: map<nat, int>, y: map<nat, int>, list: seq<nat>, p: nat)
    requires p < |list| && (forall i | i in list :: i in x) && Distinct(list)
    requires list[p] in x && y == if p + 1 < |list| && list[p + 1] in x then x[list[p + 1] := x[list[p + 1]] + x[list[p]]] else x
    ensures p + 1 < |list| ==> Delta(y, list[p + 1]) == Delta(x, list[p + 1]) + Delta(x, list[p])
    ensures forall i | i in list && (p + 1 < |list| ==> i != list[p + 1]) :: Delta(y, i) == Delta(x, i)
  {
    assert p + 1 < |list| ==> list[p + 1] in list;
  }

  lemma WithoutMiddle(a: seq<Entry>, e: Entry, b: seq<Entry>)
    requires Proper(a + [e] + b)
    ensures Without(a + [e] + b, e.id) == a + b && Proper(a + b)
  {
    var q := a + [e] + b;
    assert q[|a|] == e && q[..|a|] == a && q[|a| + 1..] == b;
    CutProper(q, |a|);
    hide Ordered, Without;
    WithoutAt(q, |a|);
  }

  lemma CutProper(q: seq<Entry>, p: nat)
    requires Proper(q) && p < |q|
    ensures Proper(q[..p] + q[p + 1..])
  {
  }

  lemma RemovedList(list: seq<nat>, p: nat)
    requires Distinct(list) && p < |list|
    ensures var list' := list[..p] + list[p + 1..]; Distinct(list') && forall i :: i in list' <==> i in list && i != list[p]
    ensures forall i | i in list[..p] :: i in list && (p + 1 < |list| ==> i != list[p + 1])
    ensures forall i | i in list[p + 1..] :: i in list
    ensures p + 1 < |list| ==> list[p + 1..][0] == list[p + 1] && list[p + 1] !in list[p + 1..][1..]
  {
    var list' := list[..p] + list[p + 1..];
    assert list == list[..p] + [list[p]] + list[p + 1..];
    forall i ensures i in list' <==> i in list && i != list[p] {
    }
  }

  lemma NotThere(list: seq<nat>, x: map<nat, int>, base: int, id: nat)
    requires id !in list
    ensures forall e | e in Deadlines(list, x, base) :: e.id != id
  {
    Ids(list, x, base);
  }

  class TimerList {
    var list: seq<nat>
    var expires: map<nat, int>
    /** The timers that add themselves again when they fire, and the period they do it with. */
    const periods: map<nat, nat>
    ghost var now: int

    ghost predicate Valid()
      reads this
    {
      && Distinct(list) && (forall id | id in list :: id in expires)
      && Positive(periods) && Proper(Queue())
    }

    /** The timers that are armed, with the times at which they are due. */
    ghost function Queue(): seq<Entry>
      reads this
    {
      Deadlines(list, expires, now)
    }

    constructor (periods: map<nat, nat>)
      requires Positive(periods)
      ensures Valid() && Queue() == [] && now == 0 && this.periods == periods
    {
      list, expires, this.periods, now := [], map[], periods, 0;
    }

    /** The place for a timer, and the time that remains behind the timers in front of it. */
    method Place(e: int) returns (k: nat, rem: int)
      requires Valid()
      ensures k <= |list| && rem == e - Sum(list[..k], expires)
      ensures forall j | 0 <= j < k :: Deadlines(list, expires, now)[j].deadline <= now + e
      ensures k < |list| ==> rem < Delta(expires, list[k]) && now + e < Deadlines(list, expires, now)[k].deadline
    {
      k, rem := 0, e;
      while k < |list|
        invariant k <= |list| && rem == e - Sum(list[..k], expires)
        invariant forall j | 0 <= j < k :: Deadlines(list, expires, now)[j].deadline <= now + e
      {
        assert list[k] in list;
        DeadlineAt(list, expires, now, k);
        if rem < expires[list[k]] {
          return;
        }
        JoinSum(list[..k], [list[k]], expires);
        assert list[..k + 1] == list[..k] + [list[k]];
        assert Sum([list[k]], expires) == expires[list[k]] + Sum([], expires);
        rem := rem - expires[list[k]];
        k := k + 1;
      }
    }

    /** `timer_add`: a timer that is armed already is refused. The others keep their deadlines. */
    method Add(id: nat, e: int) returns (r: int)
      requires Valid()
      modifies this`list, this`expires
      ensures Valid()
      ensures id in old(list) ==> r == -EBUSY && list == old(list) && expires == old(expires)
      ensures id !in old(list) ==> r == 0 && Queue() == Insert(old(Queue()), Entry(id, now + e)) && id in list
    {
      hide Delta, Deadlines, Sum, Insert, Ordered, Separate;
      if id in list {
        return -EBUSY;
      }
      ghost var x := expires;
      var k, rem := Place(e);
      if k < |list| {
        assert list[k] in list;
        expires := expires[list[k] := expires[list[k]] - rem];
      }
      expires := expires[id := rem];
      NewDeltas(x, expires, id, rem, list, k);
      Added(list, x, expires, now, id, e, k, rem);
      list := list[..k] + [id] + list[k..];
      r := 0;
    }

    /** `timer_del`: reports whether the timer was armed. The others keep their deadlines. */
    method Remove(id: nat) returns (r: int)
      requires Valid()
      modifies this`list, this`expires
      ensures Valid()
      ensures id !in old(list) ==> r == 0 && list == old(list) && expires == old(expires)
      ensures id in old(list) ==> r == 1 && Queue() == Without(old(Queue()), id) && id !in list
    {
      hide Delta, Deadlines, Sum, Without, Ordered, Separate;
      if id !in list {
        return 0;
      }
      ghost var x := expires;
      var p := Find(id);
      if p + 1 < |list| {
        assert list[p + 1] in list;
        expires := expires[list[p + 1] := expires[list[p + 1]] + expires[id]];
      }
      MoreDelta(x, expires, list, p);
      Removed(list, x, expires, now, p);
      list := list[..p] + list[p + 1..];
      r := 1;
    }

    method Find(id: nat) returns (p: nat)
      requires id in list
      ensures p < |list| && list[p] == id
    {
      p := 0;
      while list[p] != id
        invariant p < |list| && id in list[p..]
        decreases |list| - p
      {
        assert list[p..] == [list[p]] + list[p + 1..];
        p := p + 1;
      }
    }

    /** `timer_mod`: the timer is armed anew. */
    method Modify(id: nat, e: int) returns (r: int)
      requires Valid()
      modifies this`list, this`expires
      ensures Valid() && r == 0 && id in list
      ensures Queue() == Insert(Without(old(Queue()), id), Entry(id, now + e))
    {
      hide Deadlines, Without, Insert, Ordered, Separate;
      if id !in list {
        NotThere2(list, expires, now, id);
      }
      var pending := Remove(id);
      r := Add(id, e);
    }

    /** One operation of a callback. */
    method Perform(op: Op)
      requires Valid()
      modifies this`list, this`expires
      ensures Valid() && Queue() == Apply(old(Queue()), op, now)
    {
      hide Deadlines, Insert, Without, Ordered, Separate;
      Ids(list, expires, now);
      ghost var q := Queue();
      assert op.id in list <==> Armed(q, op.id);
      match op {
        case Adds(id, e) =>
          var r := Add(id, e);
        case Deletes(id) =>
          if id !in list {
            NotThere2(list, expires, now, id);
          }
          var r := Remove(id);
        case Modifies(id, e) =>
          var r := Modify(id, e);
      }
    }

    /** The operations of a callback. */
    method PerformAll(ops: seq<Op>)
      requires Valid()
      modifies this`list, this`expires
      ensures Valid() && Queue() == ApplyAll(old(Queue()), ops, now)
    {
      hide Deadlines, Apply, Ordered, Separate;
      ghost var q := Queue();
      var n := 0;
      assert ops[0..] == ops;
      while n < |ops|
        invariant n <= |ops| && Valid() && ApplyAll(Queue(), ops[n..], now) == ApplyAll(q, ops, now)
      {
        assert ops[n..][0] == ops[n] && ops[n..][1..] == ops[n + 1..];
        Perform(ops[n]);
        n := n + 1;
      }
    }

    /** The first timer is taken off, and its callback runs; its deadline is the time that counts now. */
    method Fire(ops: seq<Op>) returns (id: nat, d: int)
      requires Valid() && list != []
      modifies this`list, this`expires, this`now
      ensures Valid() && d == old(Delta(expires, list[0])) && now == old(now) + d && id == old(list[0])
      ensures Entry(id, now) == old(Queue())[0] && Queue() == After(old(Queue()), periods, ops)
    {
      id := list[0];
      assert id in list;
      d := expires[id];
      ghost var q := Queue();
      FirstOff(list, expires, now);
      NotThere(list[1..], expires, now + d, id);
      hide Deadlines, Insert, Ordered, Separate, ApplyAll;
      list := list[1..];
      now := now + d;
      if id in periods {
        var r := Add(id, periods[id]);
      }
      assert Queue() == Again(q, periods);
      PerformAll(ops);
    }

    /**
     `timer_schedule`: `t` has passed, and the timers that are due by now fire. Their callbacks may add, delete and
     modify any timers, as the script says, and periodic timers add themselves again. The result is the time until
     the next timer is due.
     */
    method Schedule(t: int, script: seq<seq<Op>>) returns (next: int, fired: seq<nat>)
      requires Valid()
      modifies this`list, this`expires, this`now
      ensures Valid() && now == old(now) + t
      ensures var r := Run(old(Queue()), periods, script, now); fired == IdsOf(r.fired) && Queue() == r.queue
      ensures next == if Queue() == [] then 0 else Queue()[0].deadline - now
    {
      ghost var until := now + t;
      ghost var q, log := Queue(), [];
      fired := [];
      var left, rest := t, script;
      FirstQueue(list, expires, now);
      RunOne(q, periods, script, until);
      if list == [] {
        now := until;
        return 0, [];
      }
      hide Run, Work, Deadlines, Ordered, Separate, After;
      NoneYet(Run(q, periods, script, until));
      while Delta(expires, list[0]) <= left
        invariant Valid() && list != [] && now + left == until && fired == IdsOf(log)
        invariant Run(q, periods, script, until) == Logged(log, Run(Queue(), periods, rest, until))
        decreases |rest|, Work(Queue(), until)
      {
        FirstQueue(list, expires, now);
        RunOne(Queue(), periods, rest, until);
        ghost var before := Queue();
        var id, d := Fire(Head(rest));
        rest := Tail(rest);
        OneMore(log, before[0], Run(Queue(), periods, rest, until));
        log := log + [before[0]];
        left := left - d;
        fired := fired + [id];
        FirstQueue(list, expires, now);
        if list == [] {
          RunOne(Queue(), periods, rest, until);
          NoneLeft(log);
          now := until;
          EmptyQueue(expires, now);
          return 0, fired;
        }
      }
      FirstQueue(list, expires, now);
      RunOne(Queue(), periods, rest, until);
      NoneLeft(log);
      next := Delta(expires, list[0]) - left;
      Lowered(list, expires, now, left);
      expires := expires[list[0] := next];
      now := until;
    }
  }

  function IdsOf(q: seq<Entry>): seq<nat> {
    seq(|q|, i requires 0 <= i < |q| => q[i].id)
  }

  /** A result that comes after what has fired already. */
  function Logged(log: seq<Entry>, r: Result): Result {
    Result(log + r.fired, r.queue)
  }

  lemma NoneYet(r: Result)
    ensures Logged([], r) == r
  {
    assert [] + r.fired == r.fired;
  }

  lemma OneMore(log: seq<Entry>, e: Entry, r: Result)
    ensures Logged(log, Result([e] + r.fired, r.queue)) == Logged(log + [e], r) && IdsOf(log + [e]) == IdsOf(log) + [e.id]
  {
    Assoc(log, [e], r.fired);
  }

  lemma NoneLeft(log: seq<Entry>)
    ensures forall q: seq<Entry> :: Logged(log, Result([], q)) == Result(log, q)
  {
    assert log + [] == log;
  }

  lemma EmptyQueue(x: map<nat, int>, base: int)
    ensures Deadlines([], x, base) == [] && Proper([])
  {
  }

  lemma FirstQueue(list: seq<nat>, x: map<nat, int>, base: int)
    ensures Deadlines(list, x, base) == [] <==> list == []
    ensures list != [] ==> Deadlines(list, x, base)[0] == Entry(list[0], base + Delta(x, list[0]))
  {
  }

  lemma FirstOff(list: seq<nat>, x: map<nat, int>, base: int)
    requires list != [] && Distinct(list) && Proper(Deadlines(list, x, base))
    ensures var q := Deadlines(list, x, base);
            && q[0] == Entry(list[0], base + Delta(x, list[0])) && q[1..] == Deadlines(list[1..], x, base + Delta(x, list[0]))
            && Proper(q[1..]) && Distinct(list[1..]) && list[0] !in list[1..] && forall i | i in list[1..] :: i in list
  {
  }

  /** Time that has passed comes off the first timer, and no deadline changes. */
  lemma Lowered(list: seq<nat>, x: map<nat, int>, base: int, left: int)
    requires list != [] && Distinct(list)
    ensures Deadlines(list, x[list[0] := Delta(x, list[0]) - left], base + left) == Deadlines(list, x, base)
  {
    Rebased(list, x, x[list[0] := Delta(x, list[0]) - left], base, left);
  }
}
