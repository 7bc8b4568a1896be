/** The futex table of a process: wait, wake, requeue and interruption by a signal
    (`futex_wake`, `futex_requeue`, `WaitFutex`, `sys_futex`). Tasks yield only at an await,
    so each of these is one atomic step. */
module Futexes {
  import opened Common

  type Table = map<nat, seq<nat>>

  function Queue(table: Table, uaddr: nat): seq<nat> {
    if uaddr in table then table[uaddr] else []
  }

  /** `in_futex`: the task is in some queue. */
  predicate InFutex(table: Table, tid: nat) {
    exists u :: u in table && tid in table[u]
  }

  ghost predicate NoDuplicates(q: seq<nat>) {
    forall i, j :: 0 <= i < j < |q| ==> q[i] != q[j]
  }

  /** No task is queued twice, in one queue or in two. */
  ghost predicate Unique(table: Table) {
    && (forall u :: u in table ==> NoDuplicates(table[u]))
    && forall u, w, t :: u in table && w in table && t in table[u] && t in table[w] ==> u == w
  }

  /** Each queue is in the order of arrival. */
  ghost predicate Ordered(table: Table, stamp: map<nat, nat>) {
    && (forall u, t :: u in table && t in table[u] ==> t in stamp)
    && forall u :: u in table ==> Increasing(table[u], stamp)
  }

  ghost predicate Increasing(q: seq<nat>, stamp: map<nat, nat>)
    requires forall t :: t in q ==> t in stamp
  {
    forall i, j :: 0 <= i < j < |q| ==> stamp[q[i]] < stamp[q[j]]
  }

  ghost predicate Before(stamp: map<nat, nat>, clock: nat) {
    forall t :: t in stamp ==> stamp[t] < clock
  }

  function Remove(q: seq<nat>, tid: nat): (r: seq<nat>)
    ensures forall t :: t in r <==> t in q && t != tid
    ensures |r| <= |q|
  {
    if q == [] then []
    else
      var rest := Remove(q[..|q| - 1], tid);
      if q[|q| - 1] == tid then rest else rest + [q[|q| - 1]]
  }

  /** Removing a task keeps the order of the others. */
  lemma {:induction false} RemoveOrdered(q: seq<nat>, tid: nat, stamp: map<nat, nat>)
    requires forall t :: t in q ==> t in stamp
    requires Increasing(q, stamp)
    ensures Increasing(Remove(q, tid), stamp)
    decreases |q|
  {
    if q != [] {
      var front, last := q[..|q| - 1], q[|q| - 1];
      RemoveOrdered(front, tid, stamp);
      var rest := Remove(front, tid);
      forall i | 0 <= i < |rest| ensures stamp[rest[i]] < stamp[last] {
        assert rest[i] in rest && rest[i] in front;
        var j :| 0 <= j < |front| && front[j] == rest[i];
        assert q[j] == rest[i];
      }
    }
  }

  /** Strictly increasing stamps rule out duplicates. */
  lemma OrderedNoDuplicates(table: Table, stamp: map<nat, nat>, u: nat)
    requires Ordered(table, stamp) && u in table
    ensures NoDuplicates(table[u])
  {
  }

  // ---------- what one queue's change does to the table ----------

  /** A queue may shrink to some of its tasks in order. */
  lemma ShrinkQueue(table: Table, stamp: map<nat, nat>, u: nat, q: seq<nat>)
    requires Unique(table) && Ordered(table, stamp) && u in table
    requires forall t :: t in q ==> t in table[u]
    requires Increasing(q, stamp)
    ensures Unique(table[u := q]) && Ordered(table[u := q], stamp)
  {
    var table' := table[u := q];
    assert forall w, t :: w in table' && t in table'[w] ==> w in table && t in table[w];
    forall i, j | 0 <= i < j < |q| ensures q[i] != q[j] {
      assert stamp[q[i]] < stamp[q[j]];
    }
  }

  /** New arrivals go to the end of a queue. */
  lemma ExtendQueue(table: Table, stamp: map<nat, nat>, stamp': map<nat, nat>, clock: nat, u: nat, more: seq<nat>)
    requires Unique(table) && Ordered(table, stamp) && Before(stamp, clock)
    requires forall t :: t in more ==> !InFutex(table, t)
    requires forall t :: t in stamp && t !in more ==> t in stamp' && stamp'[t] == stamp[t]
    requires forall i :: 0 <= i < |more| ==> more[i] in stamp' && stamp'[more[i]] == clock + i
    ensures Unique(table[u := Queue(table, u) + more]) && Ordered(table[u := Queue(table, u) + more], stamp')
  {
    var q, table' := Queue(table, u), table[u := Queue(table, u) + more];
    forall t | t in q ensures t !in more && stamp'[t] == stamp[t] < clock {
      assert InFutex(table, t);
    }
    forall w, t | w in table && t in table[w] ensures t !in more {
      assert InFutex(table, t);
    }
    forall w, t | w in table' && t in table'[w] ensures t in stamp' {
    }
    forall w | w in table' ensures Increasing(table'[w], stamp') {
      if w == u {
        forall i, j | 0 <= i < j < |table'[u]| ensures stamp'[table'[u][i]] < stamp'[table'[u][j]] {
          if i < |q| {
            assert table'[u][i] == q[i] && q[i] in q;
          }
          if j < |q| {
            assert table'[u][j] == q[j] && q[j] in q;
          }
        }
      } else {
        forall i, j | 0 <= i < j < |table[w]| ensures stamp'[table[w][i]] < stamp'[table[w][j]] {
          assert table[w][i] in table[w] && table[w][j] in table[w];
        }
      }
    }
    forall w | w in table' ensures NoDuplicates(table'[w]) {
      forall i, j | 0 <= i < j < |table'[w]| ensures table'[w][i] != table'[w][j] {
        assert stamp'[table'[w][i]] < stamp'[table'[w][j]];
      }
    }
  }

  datatype PollResult = Pending | Woken | Interrupted

  /** The stamps after the tasks of `more` arrive one after the other. */
  ghost function Arrive(stamp: map<nat, nat>, clock: nat, more: seq<nat>): map<nat, nat> {
    if more == [] then stamp
    else Arrive(stamp, clock, more[..|more| - 1])[more[|more| - 1] := clock + |more| - 1]
  }

  lemma {:induction false} ArriveIs(stamp: map<nat, nat>, clock: nat, more: seq<nat>)
    requires NoDuplicates(more)
    ensures var s := Arrive(stamp, clock, more);
            && (forall t :: t in stamp && t !in more ==> t in s && s[t] == stamp[t])
            && (forall t :: t in s ==> t in stamp || t in more)
            && forall i :: 0 <= i < |more| ==> more[i] in s && s[more[i]] == clock + i
    decreases |more|
  {
    if more != [] {
      var n := |more| - 1;
      ArriveIs(stamp, clock, more[..n]);
      assert more == more[..n] + [more[n]];
    }
  }

  class FutexTable {
    var table: Table
    /** The tasks inside a wait. */
    var waiting: set<nat>
    ghost var stamp: map<nat, nat>
    ghost var clock: nat

    /** Nobody is queued twice, and queues are in the order of arrival. */
    ghost predicate Sound()
      reads this
    {
      Unique(table) && Ordered(table, stamp) && Before(stamp, clock)
    }

    /** Moreover every queued task is waiting. */
    ghost predicate Valid()
      reads this
    {
      Sound() && forall t :: InFutex(table, t) ==> t in waiting
    }

    ghost function State(): FutexState
      reads this
    {
      FutexState(table, waiting)
    }

    constructor ()
      ensures Valid() && table == map[] && waiting == {}
    {
      table, waiting := map[], {};
      stamp, clock := map[], 0;
    }

    /** The wait step of `sys_futex`: joins the queue if the word still has the value. */
    method Wait(tid: nat, uaddr: nat, equal: bool) returns (blocked: bool)
      requires Valid() && tid !in waiting
      modifies this
      ensures Valid() && blocked == equal
      ensures !blocked ==> table == old(table) && waiting == old(waiting)
      ensures blocked ==> && table == old(table)[uaddr := Queue(old(table), uaddr) + [tid]]
                          && waiting == old(waiting) + {tid}
      ensures Stepped(WaitOp(tid, uaddr, equal), Blocked(blocked), old(State()), State())
    {
      hide Unique, Ordered;
      if !equal {
        return false;
      }
      ExtendQueue(table, stamp, stamp[tid := clock], clock, uaddr, [tid]);
      if uaddr in table {
        table := table[uaddr := table[uaddr] + [tid]];
      } else {
        table := table[uaddr := [tid]];
        assert [tid] == Queue(old(table), uaddr) + [tid];
      }
      assert table == old(table)[uaddr := Queue(old(table), uaddr) + [tid]];
      waiting := waiting + {tid};
      stamp := stamp[tid := clock];
      clock := clock + 1;
      return true;
    }

    /** Polling a wait: it goes on exactly while the task is queued and has no signal; a
        signal takes the task out of its queue, and nobody else out of any. */
    method Poll(tid: nat, hasSignal: bool) returns (r: PollResult)
      requires Valid() && tid in waiting
      modifies this
      ensures Valid()
      ensures r.Pending? <==> InFutex(old(table), tid) && !hasSignal
      ensures r.Woken? <==> !InFutex(old(table), tid)
      ensures !r.Interrupted? ==> table == old(table)
      ensures waiting == if r.Pending? then old(waiting) else old(waiting) - {tid}
      ensures forall t :: InFutex(table, t) <==> InFutex(old(table), t) && (r.Interrupted? ==> t != tid)
      ensures Stepped(PollOp(tid, hasSignal), Polled(r), old(State()), State())
    {
      if !InFutex(table, tid) {
        waiting := waiting - {tid};
        return Woken;
      }
      if !hasSignal {
        return Pending;
      }
      var u :| u in table && tid in table[u];
      RemoveOrdered(table[u], tid, stamp);
      ShrinkQueue(table, stamp, u, Remove(table[u], tid));
      RemoveLeaves(table, u, tid);
      table := table[u := Remove(table[u], tid)];
      waiting := waiting - {tid};
      return Interrupted;
    }

    /** `futex_wake`: releases the oldest waiters, at most `count` of them, and returns how many. */
    method Wake(uaddr: nat, count: nat) returns (woken: nat)
      requires Sound()
      modifies this`table
      ensures Sound() && (old(Valid()) ==> Valid())
      ensures woken == Min(count, |Queue(old(table), uaddr)|)
      ensures table == if uaddr in old(table) then old(table)[uaddr := old(table)[uaddr][woken..]] else old(table)
      ensures forall t :: InFutex(table, t) <==> InFutex(old(table), t) && t !in Queue(old(table), uaddr)[..woken]
      ensures forall t, t' :: t in Queue(old(table), uaddr)[..woken] && t' in Queue(table, uaddr) ==>
                t in stamp && t' in stamp && stamp[t] < stamp[t']
      ensures Stepped(WakeOp(uaddr, count), Woke(woken), old(State()), State())
    {
      var size := |Queue(table, uaddr)|;
      if size == 0 {
        assert uaddr in table ==> table[uaddr][0..] == table[uaddr] && table == table[uaddr := table[uaddr]];
        return 0;
      }
      woken := Min(count, size);
      DrainFront(table, stamp, uaddr, woken);
      table := table[uaddr := table[uaddr][woken..]];
    }

    /** `futex_requeue`: releases the `wake` oldest waiters of one address and moves the next
        `requeue` to the end of another's queue. Draining more than there are is a panic
        (`None`), which in the second drain comes after the first has released its tasks. */
    method Requeue(uaddr: nat, wake: nat, uaddr2: nat, requeue: nat) returns (r: Option<nat>)
      requires Valid()
      modifies this`table, this`stamp, this`clock
      ensures Valid()
      ensures r.None? <==> uaddr in old(table) && wake + requeue > |old(table)[uaddr]|
      ensures uaddr !in old(table) ==> table == old(table)
      ensures r.None? ==>
                table == if wake <= |old(table)[uaddr]| then old(table)[uaddr := old(table)[uaddr][wake..]]
                    else old(table)
      ensures r.Some? && uaddr !in old(table) ==> r.value == 0
      ensures r.Some? && uaddr in old(table) ==>
                var q := old(table)[uaddr];
                var rest := old(table)[uaddr := q[wake + requeue..]];
                && r.value == wake
                && table == rest[uaddr2 := Queue(rest, uaddr2) + q[wake..wake + requeue]]
                && forall t :: InFutex(table, t) <==> InFutex(old(table), t) && t !in q[..wake]
      ensures Stepped(RequeueOp(uaddr, wake, uaddr2, requeue), Requeued(r), old(State()), State())
    {
      if uaddr !in table {
        return Some(0);
      }
      var q := table[uaddr];
      if wake > |q| {
        return None;
      }
      if requeue > |q[wake..]| {
        DrainFront(table, stamp, uaddr, wake);
        table := table[uaddr := q[wake..]];
        return None;
      }
      var moved := q[wake..wake + requeue];
      var rest := table[uaddr := q[wake + requeue..]];
      MoveTasks(table, stamp, clock, uaddr, wake, uaddr2, requeue);
      table := rest[uaddr2 := Queue(rest, uaddr2) + moved];
      stamp := Arrive(stamp, clock, moved);
      clock := clock + |moved|;
      return Some(wake);
    }

    /** A timed wait that expires leaves the queue as it is: what every other step keeps is
        kept exactly when the task was not queued any more. */
    method TimeOut(tid: nat)
      requires Valid() && tid in waiting
      modifies this`waiting
      ensures Sound() && waiting == old(waiting) - {tid}
      ensures Valid() <==> !InFutex(table, tid)
    {
      waiting := waiting - {tid};
    }

    method Step(op: FutexOp) returns (r: FutexResult)
      requires Valid()
      modifies this
      ensures Valid() && Stepped(op, r, old(State()), State())
    {
      hide Unique, Ordered, Before;
      r := Ignored;
      match op {
        case WaitOp(tid, uaddr, equal) =>
          if tid !in waiting {
            var blocked := Wait(tid, uaddr, equal);
            r := Blocked(blocked);
          }
        case PollOp(tid, hasSignal) =>
          if tid in waiting {
            var polled := Poll(tid, hasSignal);
            r := Polled(polled);
          }
        case WakeOp(uaddr, count) =>
          var woken := Wake(uaddr, count);
          r := Woke(woken);
        case RequeueOp(uaddr, wake, uaddr2, requeue) =>
          var requeued := Requeue(uaddr, wake, uaddr2, requeue);
          r := Requeued(requeued);
      }
    }

    /** In every run of untimed waits, polls, wakes and requeues each operation answers and does what
        it has to, no task is queued twice, only waiting tasks are queued, and queues are in the
        order of arrival. */
    method Run(ops: seq<FutexOp>) returns (results: seq<FutexResult>, ghost states: seq<FutexState>)
      requires Valid()
      modifies this
      ensures Valid()
      ensures |results| == |ops| && |states| == |ops| + 1 && states[0] == old(State()) && states[|ops|] == State()
      ensures forall i :: 0 <= i < |ops| ==> StepAt(ops, results, states, i)
    {
      hide Stepped, Unique, Ordered, Before, InFutex;
      results, states := [], [State()];
      for n := 0 to |ops|
        invariant Valid() && |results| == n && |states| == n + 1 && states[0] == old(State()) && states[n] == State()
        invariant forall i :: 0 <= i < n ==> StepAt(ops, results, states, i)
      {
        var r := Step(ops[n]);
        StepsNext(ops, results, states, r, State());
        results, states := results + [r], states + [State()];
      }
    }
  }

  datatype FutexState = FutexState(table: Table, waiting: set<nat>)

  datatype FutexResult =
    | Ignored
    | Blocked(blocked: bool)
    | Polled(polled: PollResult)
    | Woke(woken: nat)
    | Requeued(requeued: Option<nat>)

  /** What an operation answers and makes of the queues. */
  ghost predicate Stepped(op: FutexOp, r: FutexResult, s: FutexState, s': FutexState) {
    match op
    case WaitOp(tid, uaddr, equal) =>
      if tid in s.waiting then r == Ignored && s' == s
      else
        && r == Blocked(equal)
        && s' == if equal
                 then FutexState(s.table[uaddr := Queue(s.table, uaddr) + [tid]], s.waiting + {tid})
                 else s
    case PollOp(tid, hasSignal) =>
      if tid !in s.waiting then r == Ignored && s' == s
      else if !InFutex(s.table, tid) then r == Polled(Woken) && s' == s.(waiting := s.waiting - {tid})
      else if !hasSignal then r == Polled(Pending) && s' == s
      else
        && r == Polled(Interrupted)
        && exists u :: && u in s.table && tid in s.table[u]
                       && s' == FutexState(s.table[u := Remove(s.table[u], tid)], s.waiting - {tid})
    case WakeOp(uaddr, count) =>
      && r == Woke(Min(count, |Queue(s.table, uaddr)|))
      && s' == if uaddr in s.table then s.(table := s.table[uaddr := s.table[uaddr][r.woken..]]) else s
    case RequeueOp(uaddr, wake, uaddr2, requeue) =>
      if uaddr !in s.table then r == Requeued(Some(0)) && s' == s
      else
        var q := s.table[uaddr];
        if wake > |q| then r == Requeued(None) && s' == s
        else if wake + requeue > |q| then r == Requeued(None) && s' == s.(table := s.table[uaddr := q[wake..]])
        else
          var rest := s.table[uaddr := q[wake + requeue..]];
          && r == Requeued(Some(wake))
          && s' == s.(table := rest[uaddr2 := Queue(rest, uaddr2) + q[wake..wake + requeue]])
  }

  ghost predicate StepAt(ops: seq<FutexOp>, results: seq<FutexResult>, states: seq<FutexState>, i: nat)
    requires i < |ops| && i < |results| && i + 1 < |states|
  {
    Stepped(ops[i], results[i], states[i], states[i + 1])
  }

  lemma StepsNext(ops: seq<FutexOp>, results: seq<FutexResult>, states: seq<FutexState>, r: FutexResult, s: FutexState)
    requires |results| < |ops| && |states| == |results| + 1
    requires forall i :: 0 <= i < |results| ==> StepAt(ops, results, states, i)
    requires Stepped(ops[|results|], r, states[|results|], s)
    ensures forall i :: 0 <= i <= |results| ==> StepAt(ops, results + [r], states + [s], i)
  {
    hide Stepped;
    forall i | 0 <= i < |results| ensures StepAt(ops, results + [r], states + [s], i) {
      assert StepAt(ops, results, states, i);
    }
  }

  method OneWaiter() returns (t: FutexTable)
    ensures fresh(t) && t.Valid() && t.table == map[0x100 := [1]] && t.waiting == {1}
  {
    hide Unique, Ordered, Before, InFutex;
    t := new FutexTable();
    assert Queue(t.table, 0x100) + [1] == [1];
    var _ := t.Wait(1, 0x100, true);
  }

  /** After a wait that expired, the task is still queued. */
  method TimeOutBreaks() returns (t: FutexTable)
    ensures !t.Valid() && InFutex(t.table, 1) && 1 !in t.waiting
  {
    t := OneWaiter();
    assert 0x100 in t.table && 1 in t.table[0x100];
    t.TimeOut(1);
  }

  /** Two tasks wait and the first wait expires: a wake of one is used up by the expired task, and
      the task that still waits stays queued. */
  method StaleEntryTakesWake() returns (t: FutexTable, woken: nat)
    ensures woken == 1 && t.table == map[0x100 := [2]] && t.waiting == {2}
  {
    hide Unique, Ordered, Before, InFutex;
    t := OneWaiter();
    var _ := t.Wait(2, 0x100, true);
    assert [1] + [2] == [1, 2];
    assert t.table == map[0x100 := [1, 2]];
    t.TimeOut(1);
    woken := t.Wake(0x100, 1);
    assert [1, 2][1..] == [2];
  }

  /** One task waits, one is to be released and one to be moved: a panic, with the task released
      already. */
  method RequeuePanics() returns (t: FutexTable, r: Option<nat>)
    ensures r == None && t.table == map[0x100 := []] && 1 in t.waiting
  {
    hide Unique, Ordered, Before, InFutex;
    t := OneWaiter();
    r := t.Requeue(0x100, 1, 0x200, 1);
  }

  datatype FutexOp =
    | WaitOp(tid: nat, uaddr: nat, equal: bool)
    | PollOp(tid: nat, hasSignal: bool)
    | WakeOp(uaddr: nat, count: nat)
    | RequeueOp(uaddr: nat, wake: nat, uaddr2: nat, requeue: nat)

  /** Taking the front out of a queue and putting its second part at the end of another (or
      the same) queue takes exactly the first part out of the table. */
  lemma MoveTasks(table: Table, stamp: map<nat, nat>, clock: nat, u: nat, wake: nat, u2: nat, requeue: nat)
    requires Unique(table) && Ordered(table, stamp) && Before(stamp, clock)
    requires u in table && wake + requeue <= |table[u]|
    ensures var q := table[u];
            var moved := q[wake..wake + requeue];
            var rest := table[u := q[wake + requeue..]];
            var table' := rest[u2 := Queue(rest, u2) + moved];
            && Unique(table') && Ordered(table', Arrive(stamp, clock, moved))
            && Before(Arrive(stamp, clock, moved), clock + |moved|)
            && forall t :: InFutex(table', t) <==> InFutex(table, t) && t !in q[..wake]
  {
    var q, n := table[u], wake + requeue;
    var moved := q[wake..n];
    var rest := table[u := q[n..]];
    DrainFront(table, stamp, u, n);
    OrderedNoDuplicates(table, stamp, u);
    assert q[..n] == q[..wake] + moved;
    assert forall t :: t in moved ==> t in q[..n];
    MovedStay(table, rest, u, wake, u2, n);
    hide InFutex; hide Unique; hide Ordered;
    ArriveIs(stamp, clock, moved);
    ArriveBefore(stamp, clock, moved);
    ExtendQueue(rest, stamp, Arrive(stamp, clock, moved), clock, u2, moved);
  }

  lemma ArriveBefore(stamp: map<nat, nat>, clock: nat, more: seq<nat>)
    requires NoDuplicates(more) && Before(stamp, clock)
    ensures Before(Arrive(stamp, clock, more), clock + |more|)
  {
    ArriveIs(stamp, clock, more);
    var stamp' := Arrive(stamp, clock, more);
    forall t | t in stamp' ensures stamp'[t] < clock + |more| {
      if t in more {
        var i :| 0 <= i < |more| && more[i] == t;
      }
    }
  }

  lemma MovedStay(table: Table, rest: Table, u: nat, wake: nat, u2: nat, n: nat)
    requires u in table && wake <= n <= |table[u]| && NoDuplicates(table[u]) && rest == table[u := table[u][n..]]
    requires forall t :: InFutex(rest, t) <==> InFutex(table, t) && t !in table[u][..n]
    ensures var moved := table[u][wake..n];
            forall t :: InFutex(rest[u2 := Queue(rest, u2) + moved], t) <==> InFutex(table, t) && t !in table[u][..wake]
  {
    var q := table[u];
    var moved := q[wake..n];
    var table' := rest[u2 := Queue(rest, u2) + moved];
    assert q[..n] == q[..wake] + moved;
    forall t ensures InFutex(table', t) <==> InFutex(rest, t) || t in moved {
      if InFutex(rest, t) {
        var w :| w in rest && t in rest[w];
        assert w in table' && t in table'[w];
      }
      if t in moved {
        assert u2 in table' && t in table'[u2];
      }
    }
    forall t | t in moved ensures InFutex(table, t) && t !in q[..wake] {
      assert t in q;
    }
  }

  lemma RemoveLeaves(table: Table, u: nat, tid: nat)
    requires Unique(table) && u in table && tid in table[u]
    ensures forall t :: InFutex(table[u := Remove(table[u], tid)], t) <==> InFutex(table, t) && t != tid
  {
    var table' := table[u := Remove(table[u], tid)];
    forall t ensures InFutex(table', t) <==> InFutex(table, t) && t != tid {
      if InFutex(table', t) {
        var w :| w in table' && t in table'[w];
        assert w in table && t in table[w];
      }
      if InFutex(table, t) && t != tid {
        var w :| w in table && t in table[w];
        assert w in table' && t in table'[w];
      }
    }
  }

  /** Draining the front of a queue takes exactly those tasks out, and they are the oldest. */
  lemma DrainFront(table: Table, stamp: map<nat, nat>, u: nat, n: nat)
    requires Unique(table) && Ordered(table, stamp) && u in table && n <= |table[u]|
    ensures var table' := table[u := table[u][n..]];
            && Unique(table') && Ordered(table', stamp)
            && (forall t :: InFutex(table', t) <==> InFutex(table, t) && t !in table[u][..n])
            && forall t, t' :: t in table[u][..n] && t' in table[u][n..] ==>
                t in stamp && t' in stamp && stamp[t] < stamp[t']
  {
    var q := table[u];
    assert Increasing(q, stamp);
    DrainOrder(q, stamp, n);
    ShrinkQueue(table, stamp, u, q[n..]);
    DrainMembers(table, u, n);
  }

  lemma DrainOrder(q: seq<nat>, stamp: map<nat, nat>, n: nat)
    requires (forall t :: t in q ==> t in stamp) && Increasing(q, stamp) && n <= |q|
    ensures forall t :: t in q[n..] ==> t in q
    ensures Increasing(q[n..], stamp)
    ensures forall t, t' :: t in q[..n] && t' in q[n..] ==> t in stamp && t' in stamp && stamp[t] < stamp[t']
  {
    forall t, t' | t in q[..n] && t' in q[n..] ensures t in stamp && t' in stamp && stamp[t] < stamp[t'] {
      var i :| 0 <= i < n && q[..n][i] == t;
      var j :| 0 <= j < |q| - n && q[n..][j] == t';
      assert q[i] == t && q[n + j] == t';
    }
    forall i, j | 0 <= i < j < |q[n..]| ensures stamp[q[n..][i]] < stamp[q[n..][j]] {
      assert stamp[q[n + i]] < stamp[q[n + j]];
    }
  }

  lemma FrontBackApart(q: seq<nat>, n: nat, t: nat)
    requires NoDuplicates(q) && n <= |q| && t in q[n..]
    ensures t !in q[..n]
  {
    var j :| 0 <= j < |q| - n && q[n..][j] == t;
    assert q[n + j] == t;
  }

  lemma DrainMembers(table: Table, u: nat, n: nat)
    requires Unique(table) && u in table && n <= |table[u]|
    ensures forall t :: InFutex(table[u := table[u][n..]], t) <==> InFutex(table, t) && t !in table[u][..n]
  {
    var q := table[u];
    var table' := table[u := q[n..]];
    assert q == q[..n] + q[n..];
    forall t ensures InFutex(table', t) <==> InFutex(table, t) && t !in q[..n] {
      if InFutex(table', t) {
        var w :| w in table' && t in table'[w];
        assert w in table && t in table[w];
        if w == u {
          FrontBackApart(q, n, t);
        } else {
          assert t !in q;
        }
      }
      if InFutex(table, t) && t !in q[..n] {
        var w :| w in table && t in table[w];
        assert w in table' && t in table'[w];
      }
    }
  }
}
