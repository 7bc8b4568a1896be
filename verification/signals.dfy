/** Signal sending and delivery of one task (`SignalFlags`, `SignalList`, `sys_tkill`,
    `sys_tgkill`, `sys_kill`, `check_signal`). A 64-bit signal word is the set of its bit
    numbers. Sends happen between the start and the end of a handler too. */
module Signals {
  import opened Common

  const WORD_BITS: nat := 64
  const REAL_TIME_SIGNAL_NUM: nat := 33

  /** The bit that `from_num` shifts to. In the release build the subtraction and the shift wrap,
      so every number names a bit. */
  function BitOf(num: nat): (b: nat)
    ensures b < WORD_BITS && (num - 1 - b) % WORD_BITS == 0
  {
    (num + WORD_BITS - 1) % WORD_BITS
  }

  function FromNum(num: nat): set<nat> {
    {BitOf(num)}
  }

  /** The bits of the mask 0xFFFFFFFE00000000. */
  predicate RealTimeBit(b: nat) {
    33 <= b < WORD_BITS
  }

  /** `try_get_signal`, and `num` less one: the lowest bit of a word. */
  method LowestBit(bits: set<nat>) returns (r: Option<nat>)
    requires forall b :: b in bits ==> b < WORD_BITS
    ensures r.None? <==> bits == {}
    ensures r.Some? ==> r.value in bits && forall b :: b in bits ==> r.value <= b
  {
    for i := 0 to WORD_BITS
      invariant forall b :: b in bits ==> i <= b
    {
      if i in bits {
        return Some(i);
      }
    }
    assert forall b :: b !in bits;
    return None;
  }

  /** `num`. */
  method Num(bits: set<nat>) returns (r: nat)
    requires forall b :: b in bits ==> b < WORD_BITS
    ensures r == 0 <==> bits == {}
    ensures forall n: nat :: bits == FromNum(n) ==> r == BitOf(n) + 1 && (r == n <==> 1 <= n <= WORD_BITS)
  {
    var lowest := LowestBit(bits);
    match lowest {
      case Some(b) =>
        forall n: nat | bits == FromNum(n) ensures b == BitOf(n) {
          assert BitOf(n) in bits;
        }
        return b + 1;
      case None => return 0;
    }
  }

  /** `real_time_index` of a single signal: a slot of the queue array for the signals 34 to 64,
      different signals having different slots, and none for the others. */
  method RealTimeIndex(bits: set<nat>, num: nat) returns (r: Option<nat>)
    requires bits == FromNum(num)
    ensures r == Slot(BitOf(num))
    ensures 1 <= num <= 64 ==> r == if 34 <= num then Some(num - 32) else None
    ensures r.Some? ==> r.value < REAL_TIME_SIGNAL_NUM
  {
    if exists b :: b in bits && RealTimeBit(b) {
      var n := Num(bits);
      return Some(n - 32);
    }
    assert BitOf(num) in bits;
    return None;
  }

  function Slot(b: nat): Option<nat> {
    if RealTimeBit(b) then Some(b - 31) else None
  }

  /** `remove_signal`, and `add_signal` again for a send in the slot. */
  method ClearSignal(signal: set<nat>, queue: seq<nat>, b: nat) returns (signal': set<nat>, queue': seq<nat>)
    requires |queue| == REAL_TIME_SIGNAL_NUM && b in signal && b < WORD_BITS
    ensures if RealTimeBit(b) && queue[b - 31] > 0
            then signal' == signal && queue' == queue[b - 31 := queue[b - 31] - 1]
            else signal' == signal - {b} && queue' == queue
    ensures |queue'| == REAL_TIME_SIGNAL_NUM && signal' <= signal
  {
    assert BitOf(b + 1) == b;
    var index := RealTimeIndex(FromNum(b + 1), b + 1);
    signal', queue' := signal - FromNum(b + 1), queue;
    if index.Some? && queue[index.value] > 0 {
      signal' := signal' + FromNum(b + 1);
      queue' := queue[index.value := queue[index.value] - 1];
    }
  }

  /** The sends of a signal that are waiting: its bit and its queue slot. */
  function Waiting(signal: set<nat>, queue: seq<nat>, b: nat): nat
    requires |queue| == REAL_TIME_SIGNAL_NUM
  {
    (if b in signal then 1 else 0) + if RealTimeBit(b) then queue[b - 31] else 0
  }

  function Sum(s: seq<nat>): nat {
    if s == [] then 0 else Sum(s[..|s| - 1]) + s[|s| - 1]
  }

  lemma {:induction false} SumUpdate(s: seq<nat>, i: nat, v: nat)
    requires i < |s|
    ensures Sum(s[i := v]) + s[i] == Sum(s) + v
    decreases |s|
  {
    var n := |s| - 1;
    if i < n {
      SumUpdate(s[..n], i, v);
      assert s[i := v][..n] == s[..n][i := v];
    } else {
      assert s[i := v][..n] == s[..n];
    }
  }

  /** Every send of a real-time signal is delivered or waiting, and a filled slot has its bit
      set; of another signal, repeated sends may have merged. */
  ghost predicate Account(signal: set<nat>, queue: seq<nat>, sent: seq<nat>, delivered: seq<nat>)
    requires |queue| == REAL_TIME_SIGNAL_NUM && |sent| == |delivered| == WORD_BITS
  {
    && (forall i: nat :: i < REAL_TIME_SIGNAL_NUM && queue[i] > 0 ==> RealTimeBit(i + 31) && i + 31 in signal)
    && (forall b: nat :: RealTimeBit(b) ==> sent[b] == delivered[b] + Waiting(signal, queue, b))
    && (forall b: nat :: b < WORD_BITS ==> sent[b] >= delivered[b] + Waiting(signal, queue, b))
  }

  /** A real-time signal sent since its handler last started will be handled again. */
  ghost predicate StillDue(signal: set<nat>, queue: seq<nat>, handling: Option<nat>, unseen: set<nat>)
    requires |queue| == REAL_TIME_SIGNAL_NUM
  {
    forall b: nat :: b in unseen && RealTimeBit(b) ==> b in signal && (handling == Some(b) ==> queue[b - 31] > 0)
  }

  /** One waiting send of the signal is gone, and nothing else. */
  ghost predicate TookOne(signal: set<nat>, queue: seq<nat>, signal': set<nat>, queue': seq<nat>, b: nat) {
    && |queue| == |queue'| == REAL_TIME_SIGNAL_NUM
    && (forall c: nat :: c < WORD_BITS ==>
          Waiting(signal', queue', c) == Waiting(signal, queue, c) - if c == b then 1 else 0)
    && (forall c :: c in signal' <==> c in signal && (c == b ==> Waiting(signal', queue', b) > 0))
    && |signal'| + Sum(queue') == |signal| + Sum(queue) - 1
  }

  /** Clearing the bit, and setting it again when the slot gives one up, takes one waiting send. */
  lemma TakeOne(signal: set<nat>, queue: seq<nat>, sent: seq<nat>, delivered: seq<nat>, b: nat,
                signal': set<nat>, queue': seq<nat>)
    requires |queue| == REAL_TIME_SIGNAL_NUM && |sent| == |delivered| == WORD_BITS
    requires Account(signal, queue, sent, delivered)
    requires b in signal && b < WORD_BITS
    requires if RealTimeBit(b) && queue[b - 31] > 0
             then signal' == signal && queue' == queue[b - 31 := queue[b - 31] - 1]
             else signal' == signal - {b} && queue' == queue
    ensures TookOne(signal, queue, signal', queue', b)
    ensures Account(signal', queue', sent, delivered[b := delivered[b] + 1])
  {
    if RealTimeBit(b) && queue[b - 31] > 0 {
      SumUpdate(queue, b - 31, queue[b - 31] - 1);
    }
    hide Sum;
    forall c: nat | c < WORD_BITS
      ensures Waiting(signal', queue', c) == Waiting(signal, queue, c) - if c == b then 1 else 0
    {
    }
    forall i: nat | i < REAL_TIME_SIGNAL_NUM && queue'[i] > 0 ensures RealTimeBit(i + 31) && i + 31 in signal' {
      assert queue[i] > 0;
    }
  }

  /** Setting the bit, or counting in the slot when it is set already, adds one waiting send of a
      real-time signal. */
  lemma AddOne(signal: set<nat>, queue': seq<nat>, queue: seq<nat>, sent: seq<nat>, delivered: seq<nat>, b: nat)
    requires |queue| == REAL_TIME_SIGNAL_NUM && |sent| == |delivered| == WORD_BITS
    requires Account(signal, queue, sent, delivered) && b < WORD_BITS
    requires queue' == if RealTimeBit(b) && b in signal then queue[b - 31 := queue[b - 31] + 1] else queue
    ensures forall c: nat :: c < WORD_BITS ==>
              Waiting(signal + {b}, queue', c) == Waiting(signal, queue, c) +
              if c == b && (RealTimeBit(c) || c !in signal) then 1 else 0
    ensures Account(signal + {b}, queue', sent[b := sent[b] + 1], delivered)
  {
    forall i: nat | i < REAL_TIME_SIGNAL_NUM && queue'[i] > 0 ensures RealTimeBit(i + 31) && i + 31 in signal {
      assert i + 31 == b || queue[i] > 0;
    }
  }

  lemma AddDue(signal: set<nat>, queue': seq<nat>, queue: seq<nat>, handling: Option<nat>, unseen: set<nat>, b: nat)
    requires |queue| == REAL_TIME_SIGNAL_NUM
    requires StillDue(signal, queue, handling, unseen) && (handling.Some? ==> handling.value in signal)
    requires queue' == if RealTimeBit(b) && b in signal then queue[b - 31 := queue[b - 31] + 1] else queue
    ensures StillDue(signal + {b}, queue', handling, unseen + {b})
  {
  }

  /** A real-time signal sent while its handler ran is pending again after it; another one sent
      meanwhile is not. */
  lemma TakeDue(signal: set<nat>, queue: seq<nat>, unseen: set<nat>, b: nat, signal': set<nat>, queue': seq<nat>)
    requires |queue| == REAL_TIME_SIGNAL_NUM
    requires StillDue(signal, queue, Some(b), unseen)
    requires if RealTimeBit(b) && queue[b - 31] > 0
             then signal' == signal && queue' == queue[b - 31 := queue[b - 31] - 1]
             else signal' == signal - {b} && queue' == queue
    ensures StillDue(signal', queue', None, unseen)
    ensures unseen <= signal ==> (unseen <= signal' <==> RealTimeBit(b) || b !in unseen)
  {
  }

  /** `b` is the lowest of the bits. */
  ghost predicate Lowest(bits: set<nat>, b: nat) {
    b in bits && forall c :: c in bits ==> b <= c
  }

  /** A handler that started has finished, was dropped, or is running. */
  ghost predicate StartsAdd(starts: seq<nat>, delivered: seq<nat>, aborts: seq<nat>, handling: Option<nat>)
    requires |starts| == |delivered| == |aborts| == WORD_BITS
  {
    forall b: nat :: b < WORD_BITS ==> starts[b] == delivered[b] + aborts[b] + if handling == Some(b) then 1 else 0
  }

  lemma StartsOne(starts: seq<nat>, delivered: seq<nat>, aborts: seq<nat>, b: nat)
    requires |starts| == |delivered| == |aborts| == WORD_BITS && b < WORD_BITS
    requires StartsAdd(starts, delivered, aborts, None)
    ensures StartsAdd(starts[b := starts[b] + 1], delivered, aborts, Some(b))
  {
  }

  lemma EndsOne(starts: seq<nat>, delivered: seq<nat>, aborts: seq<nat>, b: nat)
    requires |starts| == |delivered| == |aborts| == WORD_BITS && b < WORD_BITS
    requires StartsAdd(starts, delivered, aborts, Some(b))
    ensures StartsAdd(starts, delivered[b := delivered[b] + 1], aborts, None)
    ensures StartsAdd(starts, delivered, aborts[b := aborts[b] + 1], None)
  {
  }

  lemma StartDue(signal: set<nat>, queue: seq<nat>, unseen: set<nat>, b: nat)
    requires |queue| == REAL_TIME_SIGNAL_NUM && StillDue(signal, queue, None, unseen)
    ensures StillDue(signal, queue, Some(b), unseen - {b})
  {
  }

  datatype SigMaskHow = Block | Unblock | Setmask

  /** `handle` of the signal mask. */
  function NewMask(mask: set<nat>, how: SigMaskHow, arg: set<nat>): set<nat> {
    match how
    case Block => mask + arg
    case Unblock => mask - arg
    case Setmask => arg
  }

  class TaskSignals {
    var signal: set<nat>
    var queue: seq<nat>
    var mask: set<nat>
    /** The signal whose handler is running. */
    var handling: Option<nat>
    /** The mask that a running user handler will put back. */
    var saved: Option<set<nat>>
    /** How often each signal was sent, and how often its handler has finished, started and been
        dropped. */
    ghost var sent: seq<nat>
    ghost var delivered: seq<nat>
    ghost var starts: seq<nat>
    ghost var aborts: seq<nat>
    /** The signals sent since their handler last started. */
    ghost var unseen: set<nat>

    ghost predicate WellFormed()
      reads this
    {
      && |queue| == REAL_TIME_SIGNAL_NUM && |sent| == |delivered| == |starts| == |aborts| == WORD_BITS
      && (forall b :: b in signal ==> b < WORD_BITS)
      && (handling.Some? ==> handling.value in signal)
    }

    ghost function State(): TaskState
      reads this
    {
      TaskState(signal, queue, mask, handling, saved)
    }

    ghost predicate Valid()
      reads this
    {
      && WellFormed()
      && Account(signal, queue, sent, delivered)
      && StillDue(signal, queue, handling, unseen)
      && StartsAdd(starts, delivered, aborts, handling)
    }

    /** No signal was dropped: each one sent since its handler started is pending. */
    ghost predicate NoneDropped()
      reads this
    {
      unseen <= signal
    }

    constructor ()
      ensures Valid() && NoneDropped() && signal == {} && mask == {} && handling == None && unseen == {}
      ensures saved == None && forall i :: 0 <= i < |queue| ==> queue[i] == 0
      ensures forall b :: 0 <= b < WORD_BITS ==> sent[b] == delivered[b] == starts[b] == aborts[b] == 0
    {
      signal, mask, handling, saved := {}, {}, None, None;
      queue := seq(REAL_TIME_SIGNAL_NUM, _ => 0);
      sent, delivered, unseen := seq(WORD_BITS, _ => 0), seq(WORD_BITS, _ => 0), {};
      starts, aborts := seq(WORD_BITS, _ => 0), seq(WORD_BITS, _ => 0);
    }

    /** `sys_tkill` and `sys_tgkill`: a real-time signal that is pending already is counted,
        another one merges. */
    method Send(num: nat)
      requires Valid()
      modifies this`signal, this`queue, this`sent, this`unseen
      ensures Valid()
      ensures signal == old(signal) + {BitOf(num)} && sent == old(sent)[BitOf(num) := old(sent)[BitOf(num)] + 1]
      ensures unseen == old(unseen) + {BitOf(num)}
      ensures old(NoneDropped()) ==> NoneDropped()
      ensures forall b: nat :: b < WORD_BITS ==>
                Waiting(signal, queue, b) == Waiting(old(signal), old(queue), b) +
                if b == BitOf(num) && (RealTimeBit(b) || b !in old(signal)) then 1 else 0
      ensures Stepped(SendOp(num), old(State()), State())
    {
      hide Account, Waiting, StillDue, StartsAdd;
      var b := BitOf(num);
      assert signal * FromNum(num) == {} <==> b !in signal by {
        if b in signal {
          assert b in signal * FromNum(num);
        }
      }
      if signal * FromNum(num) == {} {
        signal := signal + FromNum(num);
      } else {
        var index := RealTimeIndex(FromNum(num), num);
        if index.Some? {
          queue := queue[index.value := queue[index.value] + 1];
        }
      }
      assert signal == old(signal) + {b};
      AddOne(old(signal), queue, old(queue), sent, delivered, b);
      AddDue(old(signal), queue, old(queue), handling, unseen, b);
      sent := sent[b := sent[b] + 1];
      unseen := unseen + {b};
    }

    /** `sys_kill`, and the kernel's own `SIGCHLD` and `SIGALRM`: only the bit. It keeps the
        account of sends exactly when it does not repeat a pending real-time signal. */
    method Kill(num: nat)
      requires Valid()
      modifies this`signal, this`sent, this`unseen
      ensures signal == old(signal) + {BitOf(num)} && sent == old(sent)[BitOf(num) := old(sent)[BitOf(num)] + 1]
      ensures unseen == old(unseen) + {BitOf(num)}
      ensures old(NoneDropped()) ==> NoneDropped()
      ensures WellFormed() && (Valid() <==> !(RealTimeBit(BitOf(num)) && BitOf(num) in old(signal)))
    {
      signal := signal + FromNum(num);
      sent := sent[BitOf(num) := sent[BitOf(num)] + 1];
      unseen := unseen + {BitOf(num)};
    }

    method SetMask(how: SigMaskHow, arg: set<nat>)
      requires Valid()
      modifies this`mask
      ensures Valid()
      ensures forall b :: b in mask <==> (b in old(mask) && !how.Setmask? && !(how.Unblock? && b in arg))
                                          || (b in arg && !how.Unblock?)
      ensures Stepped(MaskOp(how, arg), old(State()), State())
    {
      mask := NewMask(mask, how, arg);
    }

    /** The first half of an iteration of `check_signal`: the handler of the lowest unmasked
        pending signal starts. A user handler runs under the mask `action` of its signal. */
    method Start(action: Option<set<nat>>) returns (r: Option<nat>)
      requires Valid() && handling == None
      modifies this`handling, this`unseen, this`mask, this`saved, this`starts
      ensures Valid() && handling == r
      ensures r.None? <==> signal <= old(mask)
      ensures r.Some? ==> Lowest(signal - old(mask), r.value)
      ensures unseen == if r.Some? then old(unseen) - {r.value} else old(unseen)
      ensures mask == if r.Some? && action.Some? then action.value else old(mask)
      ensures r.Some? ==> saved == if action.Some? then Some(old(mask)) else None
      ensures starts == if r.Some? then old(starts)[r.value := old(starts)[r.value] + 1] else old(starts)
      ensures Stepped(StartOp(action), old(State()), State())
    {
      hide Account, StillDue;
      r := LowestBit(signal - mask);
      if r.Some? {
        StartsOne(starts, delivered, aborts, r.value);
        StartDue(signal, queue, unseen, r.value);
        starts := starts[r.value := starts[r.value] + 1];
        unseen := unseen - {r.value};
        saved := if action.Some? then Some(mask) else None;
        mask := if action.Some? then action.value else mask;
      } else {
        assert forall b :: b in signal ==> b !in signal - mask;
      }
      handling := r;
    }

    /** The second half: the bit is cleared, and set again for a queued send. Nothing is dropped
        exactly when the signal is real-time or was not sent while its handler ran. The mask is
        the one before a user handler exactly when the handler came to its end: where it gives
        up before it runs, the mask stays. */
    method Finish(restores: bool)
      requires Valid() && handling.Some?
      modifies this`signal, this`queue, this`handling, this`delivered, this`mask, this`saved
      ensures Valid() && handling == None
      ensures mask == if restores && old(saved).Some? then old(saved).value else old(mask)
      ensures var b := old(handling).value;
              && delivered == old(delivered)[b := old(delivered)[b] + 1]
              && TookOne(old(signal), old(queue), signal, queue, b)
              && (old(NoneDropped()) ==> (NoneDropped() <==> RealTimeBit(b) || b !in unseen))
      ensures Stepped(FinishOp(restores), old(State()), State())
    {
      hide Account, StillDue, StartsAdd, Stepped, TookOne, RealTimeBit;
      var b := handling.value;
      var left, slots := ClearSignal(signal, queue, b);
      TakeOne(signal, queue, sent, delivered, b, left, slots);
      TakeDue(signal, queue, unseen, b, left, slots);
      EndsOne(starts, delivered, aborts, b);
      signal, queue := left, slots;
      mask := if restores && saved.Some? then saved.value else mask;
      handling, saved := None, None;
      delivered := delivered[b := delivered[b] + 1];
      FinishSteps(old(State()), State(), b, restores);
    }

    /** The system call that `check_signal` is raced against finishes first, and the handler is
        dropped where it is: nothing is delivered and nothing is lost, but its mask stays. */
    method Abort()
      requires Valid() && handling.Some?
      modifies this`handling, this`saved, this`aborts
      ensures Valid() && handling == None
      ensures aborts == old(aborts)[old(handling).value := old(aborts)[old(handling).value] + 1]
      ensures old(NoneDropped()) ==> NoneDropped()
      ensures Stepped(AbortOp, old(State()), State())
    {
      hide Account;
      EndsOne(starts, delivered, aborts, handling.value);
      aborts := aborts[handling.value := aborts[handling.value] + 1];
      handling, saved := None, None;
    }

    /** `check_signal` with handlers that send nothing and leave the mask alone: it ends, and
        has delivered every waiting send of every unmasked signal and none of a masked one. */
    method CheckSignal()
      requires Valid() && handling == None
      modifies this`signal, this`queue, this`handling, this`delivered, this`unseen, this`mask, this`saved, this`starts
      ensures Valid() && handling == None && mask == old(mask)
      ensures signal == old(signal) * mask
      ensures forall b: nat :: b < WORD_BITS ==>
                && Waiting(signal, queue, b) == (if b in mask then Waiting(old(signal), old(queue), b) else 0)
                && delivered[b] + Waiting(signal, queue, b) == old(delivered[b] + Waiting(signal, queue, b))
      ensures old(NoneDropped()) ==> NoneDropped()
    {
      hide StillDue, StartsAdd, Stepped;
      while true
        invariant Valid() && handling == None && mask == old(mask)
        invariant signal <= old(signal) && old(signal) * mask <= signal
        invariant forall b: nat :: b < WORD_BITS ==>
                    && (b in mask ==> Waiting(signal, queue, b) == Waiting(old(signal), old(queue), b))
                    && delivered[b] + Waiting(signal, queue, b) == old(delivered[b] + Waiting(signal, queue, b))
        invariant old(NoneDropped()) ==> NoneDropped()
        decreases |signal| + Sum(queue)
      {
        var r := Start(None);
        if r.None? {
          break;
        }
        Finish(true);
      }
    }

    method Step(op: SignalOp)
      requires Valid()
      modifies this
      ensures Valid() && Stepped(op, old(State()), State())
      ensures forall b: nat :: b < WORD_BITS ==>
                && sent[b] == old(sent)[b] + (if op.SendOp? && BitOf(op.num) == b then 1 else 0)
                && delivered[b] == old(delivered)[b] + (if op.FinishOp? && old(handling) == Some(b) then 1 else 0)
                && aborts[b] == old(aborts)[b] + (if op.AbortOp? && old(handling) == Some(b) then 1 else 0)
    {
      hide Account, StillDue, StartsAdd, Waiting, Sum;
      match op {
        case SendOp(num) => Send(num);
        case MaskOp(how, arg) => SetMask(how, arg);
        case StartOp(action) =>
          if handling.None? {
            var _ := Start(action);
          }
        case FinishOp(restores) =>
          if handling.Some? {
            Finish(restores);
          }
        case AbortOp =>
          if handling.Some? {
            Abort();
          }
      }
    }

    /** In every run of sends, mask changes and handlers that start, end or are dropped, interleaved
        anyhow, each operation does what it has to, and the accounts grow by what the run did. */
    method Run(ops: seq<SignalOp>) returns (ghost states: seq<TaskState>)
      requires Valid()
      modifies this
      ensures Valid()
      ensures |states| == |ops| + 1 && states[0] == old(State()) && states[|ops|] == State()
      ensures forall i :: 0 <= i < |ops| ==> StepAt(ops, states, i)
      ensures forall b: nat :: b < WORD_BITS ==>
                && sent[b] == old(sent)[b] + Sends(ops, b)
                && delivered[b] == old(delivered)[b] + Finished(ops, states, b)
                && aborts[b] == old(aborts)[b] + Aborted(ops, states, b)
                && (starts[b] == delivered[b] + (if handling == Some(b) then 1 else 0) <==> aborts[b] == 0)
    {
      hide Account, StillDue, Stepped;
      states := [State()];
      for n := 0 to |ops|
        invariant Valid() && |states| == n + 1 && states[0] == old(State()) && states[n] == State()
        invariant forall i :: 0 <= i < n ==> StepAt(ops, states, i)
        invariant forall b: nat :: b < WORD_BITS ==>
                    && sent[b] == old(sent)[b] + Sends(ops[..n], b)
                    && delivered[b] == old(delivered)[b] + Finished(ops[..n], states, b)
                    && aborts[b] == old(aborts)[b] + Aborted(ops[..n], states, b)
      {
        Step(ops[n]);
        ghost var states' := states + [State()];
        forall b: nat | b < WORD_BITS
          ensures && sent[b] == old(sent)[b] + Sends(ops[..n + 1], b)
                  && delivered[b] == old(delivered)[b] + Finished(ops[..n + 1], states', b)
                  && aborts[b] == old(aborts)[b] + Aborted(ops[..n + 1], states', b)
        {
          CountNext(ops, states, n, State(), b);
        }
        StepsNext(ops, states, n, State());
        states := states';
      }
      assert ops[..|ops|] == ops;
    }
  }

  datatype TaskState = TaskState(signal: set<nat>, queue: seq<nat>, mask: set<nat>, handling: Option<nat>,
                                 saved: Option<set<nat>>)

  /** What an operation makes of the signals of a task. */
  ghost predicate Stepped(op: SignalOp, s: TaskState, s': TaskState) {
    && |s.queue| == REAL_TIME_SIGNAL_NUM
    && match op
       case SendOp(num) =>
         var b := BitOf(num);
         s' == s.(signal := s.signal + {b},
                  queue := if RealTimeBit(b) && b in s.signal then s.queue[b - 31 := s.queue[b - 31] + 1] else s.queue)
       case MaskOp(how, arg) => s' == s.(mask := NewMask(s.mask, how, arg))
       case StartOp(action) =>
         if s.handling.Some? || s.signal <= s.mask then s' == s
         else
           && s'.handling.Some? && Lowest(s.signal - s.mask, s'.handling.value)
           && s' == s.(handling := s'.handling, saved := if action.Some? then Some(s.mask) else None,
                       mask := if action.Some? then action.value else s.mask)
       case FinishOp(restores) =>
         if s.handling.None? then s' == s
         else
           var b := s.handling.value;
           var again := RealTimeBit(b) && s.queue[b - 31] > 0;
           s' == TaskState(if again then s.signal else s.signal - {b},
                           if again then s.queue[b - 31 := s.queue[b - 31] - 1] else s.queue,
                           if restores && s.saved.Some? then s.saved.value else s.mask, None, None)
       case AbortOp => s' == if s.handling.None? then s else s.(handling := None, saved := None)
  }

  lemma FinishSteps(s: TaskState, s': TaskState, b: nat, restores: bool)
    requires |s.queue| == REAL_TIME_SIGNAL_NUM && s.handling == Some(b) && s'.handling == None && s'.saved == None
    requires s'.mask == if restores && s.saved.Some? then s.saved.value else s.mask
    requires if RealTimeBit(b) && s.queue[b - 31] > 0
             then s'.signal == s.signal && s'.queue == s.queue[b - 31 := s.queue[b - 31] - 1]
             else s'.signal == s.signal - {b} && s'.queue == s.queue
    ensures Stepped(FinishOp(restores), s, s')
  {
  }

  ghost predicate StepAt(ops: seq<SignalOp>, states: seq<TaskState>, i: nat)
    requires i < |ops| && i + 1 < |states|
  {
    Stepped(ops[i], states[i], states[i + 1])
  }

  lemma StepsNext(ops: seq<SignalOp>, states: seq<TaskState>, n: nat, s: TaskState)
    requires n < |ops| && |states| == n + 1 && Stepped(ops[n], states[n], s)
    requires forall i :: 0 <= i < n ==> StepAt(ops, states, i)
    ensures forall i :: 0 <= i <= n ==> StepAt(ops, states + [s], i)
  {
    hide Stepped;
    forall i | 0 <= i < n ensures StepAt(ops, states + [s], i) {
      assert StepAt(ops, states, i);
    }
  }

  /** How often the run sends the signal. */
  ghost function Sends(ops: seq<SignalOp>, b: nat): nat {
    if ops == [] then 0
    else
      var op := ops[|ops| - 1];
      Sends(ops[..|ops| - 1], b) + if op.SendOp? && BitOf(op.num) == b then 1 else 0
  }

  /** How often the run finishes a handler of the signal. */
  ghost function Finished(ops: seq<SignalOp>, states: seq<TaskState>, b: nat): nat
    requires |ops| <= |states|
  {
    if ops == [] then 0
    else
      var n := |ops| - 1;
      Finished(ops[..n], states, b) + if ops[n].FinishOp? && states[n].handling == Some(b) then 1 else 0
  }

  /** How often the run drops a handler of the signal. */
  ghost function Aborted(ops: seq<SignalOp>, states: seq<TaskState>, b: nat): nat
    requires |ops| <= |states|
  {
    if ops == [] then 0
    else
      var n := |ops| - 1;
      Aborted(ops[..n], states, b) + if ops[n].AbortOp? && states[n].handling == Some(b) then 1 else 0
  }

  lemma {:induction false} CountsStay(ops: seq<SignalOp>, states: seq<TaskState>, s: TaskState, b: nat)
    requires |ops| <= |states|
    ensures Finished(ops, states + [s], b) == Finished(ops, states, b)
    ensures Aborted(ops, states + [s], b) == Aborted(ops, states, b)
    decreases |ops|
  {
    if ops != [] {
      CountsStay(ops[..|ops| - 1], states, s, b);
    }
  }

  lemma CountNext(ops: seq<SignalOp>, states: seq<TaskState>, n: nat, s: TaskState, b: nat)
    requires n < |ops| && |states| == n + 1
    ensures Sends(ops[..n + 1], b)
         == Sends(ops[..n], b) + if ops[n].SendOp? && BitOf(ops[n].num) == b then 1 else 0
    ensures Finished(ops[..n + 1], states + [s], b)
         == Finished(ops[..n], states, b) + if ops[n].FinishOp? && states[n].handling == Some(b) then 1 else 0
    ensures Aborted(ops[..n + 1], states + [s], b)
         == Aborted(ops[..n], states, b) + if ops[n].AbortOp? && states[n].handling == Some(b) then 1 else 0
  {
    assert ops[..n + 1][..n] == ops[..n];
    CountsStay(ops[..n], states, s, b);
  }

  datatype SignalOp =
    | SendOp(num: nat)
    | MaskOp(how: SigMaskHow, arg: set<nat>)
    | StartOp(action: Option<set<nat>>)
    | FinishOp(restores: bool)
    | AbortOp

  /** A standard signal sent while its own handler runs is dropped. */
  method StandardSignalDropped() returns (t: TaskSignals)
    ensures t.Valid() && !t.NoneDropped() && t.signal == {} && 9 in t.unseen && t.sent[9] == 2 && t.delivered[9] == 1
  {
    hide Account, StillDue, Waiting, TookOne, StartsAdd;
    t := new TaskSignals();
    t.Send(10);
    var _ := t.Start(None);
    t.Send(10);
    t.Finish(true);
    assert t.signal == {};
  }

  /** A real-time signal sent twice with `kill` is delivered once. */
  method KilledTwiceDeliveredOnce() returns (t: TaskSignals)
    ensures t.WellFormed() && !t.Valid() && t.sent[39] == 2 && Waiting(t.signal, t.queue, 39) == 1
  {
    t := new TaskSignals();
    t.Kill(40);
    t.Kill(40);
    assert t.signal == {39};
  }

  /** Of two sends of a signal that is not pending both are handled exactly for the signals 34 to
      64; of another signal one is. */
  method SentTwice(num: nat) returns (t: TaskSignals)
    requires 1 <= num <= 64
    ensures t.Valid() && t.signal == {} && t.delivered[num - 1] == if 34 <= num then 2 else 1
  {
    hide Account, StillDue, TookOne, StartsAdd;
    t := new TaskSignals();
    t.Send(num);
    t.Send(num);
    t.CheckSignal();
  }

  /** A handler that is dropped starts again for the same send. */
  method HandlerStartsAgain() returns (t: TaskSignals, first: Option<nat>, again: Option<nat>)
    ensures t.Valid() && first == again == Some(9) && t.sent[9] == 1 && t.starts[9] == 2
  {
    hide Account, StillDue, Waiting, TookOne;
    t := new TaskSignals();
    t.Send(10);
    first := t.Start(None);
    t.Abort();
    again := t.Start(None);
  }

  /** Signal 0, which asks only whether the target exists, sends signal 64. */
  method NullSignalIsSent() returns (t: TaskSignals)
    ensures t.Valid() && t.signal == {63}
  {
    t := new TaskSignals();
    t.Send(0);
  }

  /** The mask of a handler that is dropped stays in force. */
  method DroppedMaskStays() returns (t: TaskSignals)
    ensures t.Valid() && t.mask == {4} && t.handling == None
  {
    hide Account, StillDue, Waiting, TookOne, StartsAdd;
    t := new TaskSignals();
    t.Send(10);
    var _ := t.Start(Some({4}));
    t.Abort();
  }
}
