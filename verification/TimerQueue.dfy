/** Timers by their absolute deadlines: what a list of differences between neighbours stands for. */
module TimerQueue {
  datatype Entry = Entry(id: nat, deadline: int)

  ghost predicate Ordered(q: seq<Entry>) {
    forall i, j | 0 <= i < j < |q| :: q[i].deadline <= q[j].deadline
  }

  ghost predicate Separate(q: seq<Entry>) {
    forall i, j | 0 <= i < j < |q| :: q[i].id != q[j].id
  }

  /** A new timer comes after all that are due no later. */
  function Insert(q: seq<Entry>, e: Entry): seq<Entry> {
    if q == [] then [e]
    else if e.deadline < q[0].deadline then [e] + q
    else [q[0]] + Insert(q[1..], e)
  }

  function Without(q: seq<Entry>, id: nat): seq<Entry> {
    if q == [] then [] else (if q[0].id == id then [] else [q[0]]) + Without(q[1..], id)
  }

  /** The deadlines of a timer, in order. */
  function Times(q: seq<Entry>, id: nat): seq<int> {
    if q == [] then [] else (if q[0].id == id then [q[0].deadline] else []) + Times(q[1..], id)
  }

  lemma {:induction false} InsertAt(q: seq<Entry>, e: Entry, k: nat)
    requires k <= |q| && (forall j | 0 <= j < k :: q[j].deadline <= e.deadline) && (k < |q| ==> e.deadline < q[k].deadline)
    ensures Insert(q, e) == q[..k] + [e] + q[k..]
  {
    if k > 0 {
      InsertAt(q[1..], e, k - 1);
      assert q[..k] == [q[0]] + q[1..][..k - 1] && q[k..] == q[1..][k - 1..];
    }
  }

  lemma {:induction false} InsertOrdered(q: seq<Entry>, e: Entry)
    requires Ordered(q)
    ensures Ordered(Insert(q, e)) && |Insert(q, e)| == |q| + 1
    ensures forall x :: x in Insert(q, e) <==> x == e || x in q
  {
    if q != [] {
      InsertOrdered(q[1..], e);
      if e.deadline >= q[0].deadline {
        var r := Insert(q[1..], e);
        forall j | 0 <= j < |r| ensures q[0].deadline <= r[j].deadline {
          assert r[j] in r;
        }
      }
    }
  }

  lemma {:induction false} InsertTimes(q: seq<Entry>, e: Entry, id: nat)
    requires forall x | x in q :: x.id != e.id
    ensures id != e.id ==> Times(Insert(q, e), id) == Times(q, id)
    ensures Times(Insert(q, e), e.id) == [e.deadline]
  {
    if q == [] {
      assert Times([e], id) == (if e.id == id then [e.deadline] else []) + Times([], id);
      assert Times([e], e.id) == [e.deadline] + Times([], e.id);
    } else if e.deadline < q[0].deadline {
      var r := [e] + q;
      assert r[1..] == q;
      NoTimes(q, e.id);
    } else {
      InsertTimes(q[1..], e, id);
      var r := [q[0]] + Insert(q[1..], e);
      assert r[1..] == Insert(q[1..], e);
      assert q[0] in q;
    }
  }

  lemma {:induction false} NoTimes(q: seq<Entry>, id: nat)
    requires forall x | x in q :: x.id != id
    ensures Times(q, id) == []
  {
    if q != [] {
      assert q[0] in q;
      NoTimes(q[1..], id);
    }
  }

  lemma {:induction false} WithoutAt(q: seq<Entry>, k: nat)
    requires Separate(q) && k < |q|
    ensures Without(q, q[k].id) == q[..k] + q[k + 1..]
  {
    if k == 0 {
      WithoutNone(q[1..], q[0].id);
      assert q == [q[0]] + q[1..];
    } else {
      WithoutAt(q[1..], k - 1);
      assert q[1..][k - 1] == q[k];
      assert q[..k] == [q[0]] + q[1..][..k - 1] && q[k + 1..] == q[1..][k..];
    }
  }

  lemma {:induction false} WithoutNone(q: seq<Entry>, id: nat)
    requires forall x | x in q :: x.id != id
    ensures Without(q, id) == q
  {
    if q != [] {
      assert q[0] in q;
      WithoutNone(q[1..], id);
    }
  }

  /** Taking a timer out leaves the times of all others. */
  lemma {:induction false} WithoutTimes(q: seq<Entry>, id: nat, other: nat)
    ensures Times(Without(q, id), other) == if other == id then [] else Times(q, other)
  {
    if q != [] {
      WithoutTimes(q[1..], id, other);
      var r := Without(q[1..], id);
      assert q[0].id != id ==> ([q[0]] + r)[1..] == r;
      assert [] + r == r;
    }
  }

  // ---- the passing of time ----

  /** `periods` says which timers arm themselves again when they fire, and after how long. */
  datatype Result = Result(fired: seq<Entry>, queue: seq<Entry>)

  ghost predicate Positive(periods: map<nat, nat>) {
    forall id | id in periods :: periods[id] > 0
  }

  /** How many firings are left at most until some time. */
  function Work(q: seq<Entry>, until: int): nat {
    if q == [] then 0 else (if q[0].deadline <= until then until - q[0].deadline + 1 else 0) + Work(q[1..], until)
  }

  lemma {:induction false} InsertWork(q: seq<Entry>, e: Entry, until: int)
    ensures Work(Insert(q, e), until) == Work(q, until) + Work([e], until)
  {
    if q == [] {
    } else if e.deadline < q[0].deadline {
      assert ([e] + q)[1..] == q;
    } else {
      InsertWork(q[1..], e, until);
      assert ([q[0]] + Insert(q[1..], e))[1..] == Insert(q[1..], e);
    }
  }

  /** What a callback may do to its own timer and to others. */
  datatype Op = Adds(id: nat, e: int) | Deletes(id: nat) | Modifies(id: nat, e: int)

  ghost predicate Armed(q: seq<Entry>, id: nat) {
    exists k :: 0 <= k < |q| && q[k].id == id
  }

  /** An operation at some time; a timer that is armed is not added again. */
  ghost function Apply(q: seq<Entry>, op: Op, now: int): seq<Entry> {
    match op
    case Adds(id, e) => if Armed(q, id) then q else Insert(q, Entry(id, now + e))
    case Deletes(id) => Without(q, id)
    case Modifies(id, e) => Insert(Without(q, id), Entry(id, now + e))
  }

  ghost function ApplyAll(q: seq<Entry>, ops: seq<Op>, now: int): seq<Entry>
    decreases |ops|
  {
    if ops == [] then q else ApplyAll(Apply(q, ops[0], now), ops[1..], now)
  }

  /** The first timer fires: it adds itself again if it is periodic, and its callback does some operations. */
  ghost function After(q: seq<Entry>, periods: map<nat, nat>, ops: seq<Op>): seq<Entry>
    requires q != []
  {
    ApplyAll(Again(q, periods), ops, q[0].deadline)
  }

  function Again(q: seq<Entry>, periods: map<nat, nat>): seq<Entry>
    requires q != []
  {
    var e := q[0];
    if e.id in periods then Insert(q[1..], Entry(e.id, e.deadline + periods[e.id])) else q[1..]
  }

  lemma LessWork(q: seq<Entry>, periods: map<nat, nat>, until: int)
    requires q != [] && q[0].deadline <= until && Positive(periods)
    ensures Work(After(q, periods, []), until) < Work(q, until)
  {
    var e := q[0];
    if e.id in periods {
      InsertWork(q[1..], Entry(e.id, e.deadline + periods[e.id]), until);
    }
  }

  function Head(script: seq<seq<Op>>): seq<Op> {
    if script == [] then [] else script[0]
  }

  function Tail(script: seq<seq<Op>>): seq<seq<Op>> {
    if script == [] then [] else script[1..]
  }

  /**
   The timers that are due by some time fire one after the other, the earliest first. The script holds the
   operations of the callbacks in the order in which they run; callbacks behind its end do nothing.
   */
  ghost function Run(q: seq<Entry>, periods: map<nat, nat>, script: seq<seq<Op>>, until: int): Result
    requires Positive(periods)
    decreases |script|, Work(q, until)
  {
    if q == [] || q[0].deadline > until then Result([], q)
    else
      LessWork(q, periods, until);
      var r := Run(After(q, periods, Head(script)), periods, Tail(script), until);
      Result([q[0]] + r.fired, r.queue)
  }

  ghost predicate Proper(q: seq<Entry>) {
    Ordered(q) && Separate(q)
  }

  /** No operation sets a time in the past. */
  predicate Forward(ops: seq<Op>) {
    forall n | 0 <= n < |ops| && !ops[n].Deletes? :: ops[n].e >= 0
  }

  predicate AllForward(script: seq<seq<Op>>) {
    forall n | 0 <= n < |script| :: Forward(script[n])
  }

  ghost predicate NoneBefore(q: seq<Entry>, d: int) {
    forall x | x in q :: x.deadline >= d
  }

  lemma AgainProper(q: seq<Entry>, periods: map<nat, nat>)
    requires Proper(q) && q != []
    ensures Proper(Again(q, periods)) && NoneBefore(Again(q, periods), q[0].deadline)
  {
    var t := q[1..];
    assert forall x | x in t :: x.id != q[0].id && x.deadline >= q[0].deadline;
    if q[0].id in periods {
      var e := Entry(q[0].id, q[0].deadline + periods[q[0].id]);
      InsertOrdered(t, e);
      InsertSeparate(t, e);
    }
  }

  lemma {:induction false} WithoutMembers(q: seq<Entry>, id: nat)
    ensures forall x :: x in Without(q, id) <==> x in q && x.id != id
  {
    if q != [] {
      WithoutMembers(q[1..], id);
      assert q == [q[0]] + q[1..];
    }
  }

  lemma FirstProper(e: Entry, r: seq<Entry>)
    requires Proper(r) && forall x | x in r :: x.deadline >= e.deadline && x.id != e.id
    ensures Proper([e] + r)
  {
  }

  lemma RestProper(q: seq<Entry>)
    requires Proper(q) && q != []
    ensures Proper(q[1..]) && forall x | x in q[1..] :: x.deadline >= q[0].deadline && x.id != q[0].id
  {
  }

  lemma {:induction false} WithoutProper(q: seq<Entry>, id: nat)
    requires Proper(q)
    ensures Proper(Without(q, id)) && forall x :: x in Without(q, id) <==> x in q && x.id != id
  {
    hide Proper;
    WithoutMembers(q, id);
    if q != [] {
      RestProper(q);
      WithoutProper(q[1..], id);
      if q[0].id != id {
        FirstProper(q[0], Without(q[1..], id));
      } else {
        assert [] + Without(q[1..], id) == Without(q[1..], id);
      }
    }
  }

  lemma ApplyProper(q: seq<Entry>, op: Op, now: int)
    requires Proper(q)
    ensures Proper(Apply(q, op, now))
    ensures NoneBefore(q, now) && (op.Deletes? || op.e >= 0) ==> NoneBefore(Apply(q, op, now), now)
  {
    hide Ordered, Separate, Insert, Without;
    WithoutProper(q, op.id);
    if op.Adds? && !Armed(q, op.id) {
      InsertOrdered(q, Entry(op.id, now + op.e));
      InsertSeparate(q, Entry(op.id, now + op.e));
    } else if op.Modifies? {
      InsertOrdered(Without(q, op.id), Entry(op.id, now + op.e));
      InsertSeparate(Without(q, op.id), Entry(op.id, now + op.e));
    }
  }

  lemma {:induction false} ApplyAllProper(q: seq<Entry>, ops: seq<Op>, now: int)
    requires Proper(q)
    ensures Proper(ApplyAll(q, ops, now))
    ensures NoneBefore(q, now) && Forward(ops) ==> NoneBefore(ApplyAll(q, ops, now), now)
    decreases |ops|
  {
    hide Apply, Proper, NoneBefore;
    if ops != [] {
      ApplyProper(q, ops[0], now);
      ApplyAllProper(Apply(q, ops[0], now), ops[1..], now);
    }
  }

  lemma AfterProper(q: seq<Entry>, periods: map<nat, nat>, ops: seq<Op>)
    requires Proper(q) && q != []
    ensures Proper(After(q, periods, ops))
    ensures Forward(ops) ==> NoneBefore(After(q, periods, ops), q[0].deadline)
  {
    hide ApplyAll, Again, Proper, NoneBefore;
    AgainProper(q, periods);
    ApplyAllProper(Again(q, periods), ops, q[0].deadline);
  }

  lemma {:induction false} InsertSeparate(q: seq<Entry>, e: Entry)
    requires Separate(q) && forall x | x in q :: x.id != e.id
    ensures Separate(Insert(q, e))
    ensures forall x :: x in Insert(q, e) <==> x == e || x in q
  {
    if q != [] && e.deadline >= q[0].deadline {
      InsertSeparate(q[1..], e);
      var r := Insert(q[1..], e);
      forall j | 0 <= j < |r| ensures r[j].id != q[0].id {
        assert r[j] in r;
        assert q[0] in q;
      }
    }
  }

  /** Timers fire in the order of their deadlines, none too early; those that remain are not due. */
  lemma {:induction false} RunInOrder(q: seq<Entry>, periods: map<nat, nat>, script: seq<seq<Op>>, until: int)
    requires Positive(periods) && Proper(q)
    ensures var r := Run(q, periods, script, until);
            && Proper(r.queue) && (forall x | x in r.fired :: x.deadline <= until) && (forall x | x in r.queue :: x.deadline > until)
            && (AllForward(script) ==> Ordered(r.fired) && forall x | x in r.fired :: q != [] && x.deadline >= q[0].deadline)
    decreases |script|, Work(q, until)
  {
    hide Run, Work, Insert, Separate, After, Forward;
    RunOne(q, periods, script, until);
    if q != [] && q[0].deadline <= until {
      AfterProper(q, periods, Head(script));
      var a := After(q, periods, Head(script));
      RunInOrder(a, periods, Tail(script), until);
      var r := Run(a, periods, Tail(script), until);
      if AllForward(script) {
        NothingForward();
        assert Forward(Head(script)) && AllForward(Tail(script));
        assert a != [] ==> a[0] in a;
        FirstFires(q[0], r.fired);
      }
    } else {
      forall x | x in q ensures x.deadline > until {
        var j :| 0 <= j < |q| && q[j] == x;
      }
    }
  }

  lemma NothingForward()
    ensures Forward([])
  {
  }

  lemma FirstFires(e: Entry, r: seq<Entry>)
    requires Ordered(r) && forall x | x in r :: x.deadline >= e.deadline
    ensures Ordered([e] + r) && forall x | x in [e] + r :: x == e || x in r
  {
  }

  /** When a timer that is first due at `d` fires up to some time. */
  function Expected(d: int, period: nat, until: int): seq<int>
    decreases until - d
  {
    if d > until then [] else if period == 0 then [d] else [d] + Expected(d + period, period, until)
  }

  /** Where it stands then. A timer without a period is gone once it has fired. */
  function Standing(d: int, period: nat, until: int): seq<int>
    decreases until - d
  {
    if d > until then [d] else if period == 0 then [] else Standing(d + period, period, until)
  }

  function Period(periods: map<nat, nat>, id: nat): nat {
    if id in periods then periods[id] else 0
  }

  lemma Others(q: seq<Entry>)
    requires Proper(q) && q != []
    ensures forall x | x in q[1..] :: x.id != q[0].id
  {
  }

  lemma AgainTimes(q: seq<Entry>, periods: map<nat, nat>, id: nat)
    requires Proper(q) && q != []
    ensures id != q[0].id ==> Times(Again(q, periods), id) == Times(q, id)
    ensures Times(Again(q, periods), q[0].id) == if q[0].id in periods then [q[0].deadline + periods[q[0].id]] else []
    ensures Times(q, q[0].id) == [q[0].deadline]
  {
    hide Insert, Ordered, Separate, Times;
    var t := q[1..];
    Others(q);
    NoTimes(t, q[0].id);
    assert q == [q[0]] + t;
    TimesFirst(q[0], t, id);
    TimesFirst(q[0], t, q[0].id);
    if q[0].id in periods {
      InsertTimes(t, Entry(q[0].id, q[0].deadline + periods[q[0].id]), id);
    }
  }

  /** No callback does anything to the timer. */
  predicate Untouched(ops: seq<Op>, id: nat) {
    forall n | 0 <= n < |ops| :: ops[n].id != id
  }

  predicate NeverTouched(script: seq<seq<Op>>, id: nat) {
    forall n | 0 <= n < |script| :: Untouched(script[n], id)
  }

  lemma ApplyTimes(q: seq<Entry>, op: Op, now: int, id: nat)
    requires Proper(q) && op.id != id
    ensures Times(Apply(q, op, now), id) == Times(q, id)
  {
    hide Ordered, Separate, Insert, Without, Times;
    WithoutProper(q, op.id);
    WithoutTimes(q, op.id, id);
    if op.Adds? && !Armed(q, op.id) {
      InsertTimes(q, Entry(op.id, now + op.e), id);
    } else if op.Modifies? {
      InsertTimes(Without(q, op.id), Entry(op.id, now + op.e), id);
    }
  }

  /** Whatever callbacks do to other timers, a timer keeps its time. */
  lemma {:induction false} ApplyAllTimes(q: seq<Entry>, ops: seq<Op>, now: int, id: nat)
    requires Proper(q) && Untouched(ops, id)
    ensures Times(ApplyAll(q, ops, now), id) == Times(q, id)
    decreases |ops|
  {
    hide Apply, Proper, Times;
    if ops != [] {
      ApplyProper(q, ops[0], now);
      ApplyTimes(q, ops[0], now, id);
      ApplyAllTimes(Apply(q, ops[0], now), ops[1..], now, id);
    }
  }

  lemma AfterTimes(q: seq<Entry>, periods: map<nat, nat>, ops: seq<Op>, id: nat)
    requires Proper(q) && q != [] && Untouched(ops, id)
    ensures id != q[0].id ==> Times(After(q, periods, ops), id) == Times(q, id)
    ensures id == q[0].id ==> Times(After(q, periods, ops), id) == if id in periods then [q[0].deadline + periods[id]] else []
    ensures Times(q, q[0].id) == [q[0].deadline]
  {
    hide Ordered, Separate, Times, Again, ApplyAll;
    AgainTimes(q, periods, id);
    AgainProper(q, periods);
    ApplyAllTimes(Again(q, periods), ops, q[0].deadline, id);
  }

  /**
   Every timer that the callbacks of others leave alone fires exactly at its deadline and, if it is periodic, at
   every period after it, up to the given time; then it stands at the first such time that is still to come.
   */
  lemma {:induction false} RunFires(q: seq<Entry>, periods: map<nat, nat>, script: seq<seq<Op>>, until: int, id: nat)
    requires Positive(periods) && Proper(q) && |Times(q, id)| <= 1 && NeverTouched(script, id)
    ensures var r, p := Run(q, periods, script, until), Period(periods, id);
            && Times(r.fired, id) == (if Times(q, id) == [] then [] else Expected(Times(q, id)[0], p, until))
            && Times(r.queue, id) == (if Times(q, id) == [] then [] else Standing(Times(q, id)[0], p, until))
    decreases |script|, Work(q, until)
  {
    hide Run, Work, Proper, Times, After, NeverTouched, Head, Tail;
    RunOne(q, periods, script, until);
    if q != [] && q[0].deadline <= until {
      RestUntouched(script, id);
      AfterProper(q, periods, Head(script));
      AfterTimes(q, periods, Head(script), id);
      var a := After(q, periods, Head(script));
      RunFires(a, periods, Tail(script), until, id);
      TimesFirst(q[0], Run(a, periods, Tail(script), until).fired, id);
    } else {
      OrderOf(q);
      NotDue(q, id, until);
      TimesFirst(Entry(0, 0), [], id);
      assert Times(q, id) != [] ==> Times(q, id)[0] in Times(q, id);
    }
  }

  lemma RestUntouched(script: seq<seq<Op>>, id: nat)
    requires NeverTouched(script, id)
    ensures Untouched(Head(script), id) && NeverTouched(Tail(script), id) && (script != [] ==> |Tail(script)| < |script|)
    ensures script == [] ==> Head(script) == [] && Tail(script) == []
  {
  }

  lemma OrderOf(q: seq<Entry>)
    requires Proper(q)
    ensures Ordered(q)
  {
  }

  lemma RunOne(q: seq<Entry>, periods: map<nat, nat>, script: seq<seq<Op>>, until: int)
    requires Positive(periods)
    ensures q == [] || q[0].deadline > until ==> Run(q, periods, script, until) == Result([], q)
    ensures q != [] && q[0].deadline <= until ==>
      && (script != [] || Work(After(q, periods, []), until) < Work(q, until))
      && var r := Run(After(q, periods, Head(script)), periods, Tail(script), until);
         Run(q, periods, script, until) == Result([q[0]] + r.fired, r.queue)
  {
    if q != [] && q[0].deadline <= until {
      LessWork(q, periods, until);
    }
  }

  lemma TimesFirst(e: Entry, r: seq<Entry>, id: nat)
    ensures Times([e] + r, id) == (if e.id == id then [e.deadline] else []) + Times(r, id)
    ensures Times([], id) == []
  {
    assert ([e] + r)[1..] == r;
  }

  lemma {:induction false} NotDue(q: seq<Entry>, id: nat, until: int)
    requires Ordered(q) && (q != [] ==> q[0].deadline > until)
    ensures forall d | d in Times(q, id) :: d > until
  {
    if q != [] {
      assert q[1..] != [] ==> q[1..][0] == q[1];
      NotDue(q[1..], id, until);
    }
  }
}
