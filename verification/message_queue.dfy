/** System V message queues (`MessageQueue`, `sys_msgsnd`, `sys_msgrcv`): limits, selection and
    the order of delivery. */
module MessageQueues {
  import opened Common

  const MAX_BYTES: nat := 16384
  const MAX_MESSAGES: nat := 40
  const I64_MIN: int := -0x8000_0000_0000_0000

  type I64 = t: int | I64_MIN <= t < 0x8000_0000_0000_0000

  datatype Message = Message(mtype: I64, mtext: seq<Byte>)

  function Bytes(ms: seq<Message>): nat {
    if ms == [] then 0 else |ms[0].mtext| + Bytes(ms[1..])
  }

  /** The messages of one type, in order. */
  function OfType(ms: seq<Message>, t: I64): seq<Message> {
    if ms == [] then []
    else (if ms[0].mtype == t then [ms[0]] else []) + OfType(ms[1..], t)
  }

  /** What `msgrcv` of POSIX asks of a message for a requested type: any one for 0, that type
      (or any other, with `MSG_EXCEPT`) for a positive, and at most its absolute value for a
      negative one. */
  predicate Wanted(m: Message, mtype: I64, except: bool) {
    if mtype == 0 then true
    else if mtype > 0 then (m.mtype == mtype) != except
    else m.mtype as int <= -(mtype as int)
  }

  /** What the code takes for the absolute value: in the release build the negation of the least
      type wraps to itself. */
  function Bound(mtype: I64): I64
    requires mtype < 0
  {
    if mtype == I64_MIN then I64_MIN else -mtype
  }

  /** The messages the code looks at. */
  predicate Matches(m: Message, mtype: I64, except: bool) {
    if mtype < 0 then m.mtype <= Bound(mtype) else Wanted(m, mtype, except)
  }

  /** The message at `i` goes before the one at `j`: of a lower type when the request is
      negative, and otherwise earlier. */
  predicate Precedes(ms: seq<Message>, mtype: I64, i: nat, j: nat)
    requires i < |ms| && j < |ms|
  {
    if mtype < 0 && ms[i].mtype != ms[j].mtype then ms[i].mtype < ms[j].mtype else i <= j
  }

  /** The message POSIX asks for. */
  ghost predicate Selects(ms: seq<Message>, mtype: I64, except: bool, r: Option<nat>) {
    && (r.None? <==> forall j :: 0 <= j < |ms| ==> !Wanted(ms[j], mtype, except))
    && (r.Some? ==> && r.value < |ms| && Wanted(ms[r.value], mtype, except)
                    && forall j :: 0 <= j < |ms| && Wanted(ms[j], mtype, except) ==> Precedes(ms, mtype, r.value, j))
  }

  /** The message the code takes. */
  ghost predicate Picks(ms: seq<Message>, mtype: I64, except: bool, r: Option<nat>) {
    && (r.None? <==> forall j :: 0 <= j < |ms| ==> !Matches(ms[j], mtype, except))
    && (r.Some? ==> && r.value < |ms| && Matches(ms[r.value], mtype, except)
                    && forall j :: 0 <= j < |ms| && Matches(ms[j], mtype, except) ==> Precedes(ms, mtype, r.value, j))
  }

  /** For the least type the code looks only at messages of that very type. */
  predicate Overlooks(ms: seq<Message>, mtype: I64) {
    mtype == I64_MIN && ms != [] && forall j :: 0 <= j < |ms| ==> ms[j].mtype != I64_MIN
  }

  /** The code takes the message POSIX asks for exactly when it does not overlook all of them. */
  lemma PicksIsPosixIff(ms: seq<Message>, mtype: I64, except: bool, r: Option<nat>)
    requires Picks(ms, mtype, except, r)
    ensures Selects(ms, mtype, except, r) <==> !Overlooks(ms, mtype)
  {
    if mtype == I64_MIN {
      assert forall j :: 0 <= j < |ms| ==> Wanted(ms[j], mtype, except);
      assert forall j :: 0 <= j < |ms| ==> (Matches(ms[j], mtype, except) <==> ms[j].mtype == I64_MIN);
      if r.Some? {
        forall j | 0 <= j < |ms| ensures Precedes(ms, mtype, r.value, j) {
          assert ms[j].mtype == I64_MIN ==> Matches(ms[j], mtype, except);
        }
      } else if ms != [] {
        assert !Matches(ms[0], mtype, except) && Wanted(ms[0], mtype, except);
        assert forall j :: 0 <= j < |ms| ==> !Matches(ms[j], mtype, except) && ms[j].mtype != I64_MIN;
      }
    } else {
      forall j | 0 <= j < |ms| ensures Matches(ms[j], mtype, except) <==> Wanted(ms[j], mtype, except) {
      }
    }
  }

  /** Whatever is taken is the oldest message of its type. */
  lemma PickedIsOldest(ms: seq<Message>, mtype: I64, except: bool, i: nat)
    requires Picks(ms, mtype, except, Some(i))
    ensures forall j :: 0 <= j < i ==> ms[j].mtype != ms[i].mtype
  {
    forall j | 0 <= j < i ensures ms[j].mtype != ms[i].mtype {
      assert ms[j].mtype == ms[i].mtype ==> Matches(ms[j], mtype, except);
    }
  }

  lemma {:induction false} OfTypeAppend(a: seq<Message>, b: seq<Message>, t: I64)
    ensures OfType(a + b, t) == OfType(a, t) + OfType(b, t)
    decreases |a|
  {
    if a == [] {
      assert a + b == b;
    } else {
      OfTypeAppend(a[1..], b, t);
      var head := if a[0].mtype == t then [a[0]] else [];
      assert (a + b)[1..] == a[1..] + b && (a + b)[0] == a[0];
      assert OfType(a + b, t) == head + (OfType(a[1..], t) + OfType(b, t));
    }
  }

  lemma {:induction false} OfTypeNone(ms: seq<Message>, t: I64)
    requires forall j :: 0 <= j < |ms| ==> ms[j].mtype != t
    ensures OfType(ms, t) == []
    decreases |ms|
  {
    if ms != [] {
      OfTypeNone(ms[1..], t);
    }
  }

  /** Taking out the oldest message of its type takes the head of that type's queue and leaves
      every other type's queue. */
  lemma TakeOldest(ms: seq<Message>, i: nat, t: I64)
    requires i < |ms| && forall j :: 0 <= j < i ==> ms[j].mtype != ms[i].mtype
    ensures OfType(ms, t) == OfType([ms[i]], t) + OfType(RemoveAt(ms, i), t)
  {
    var front, m, back := ms[..i], [ms[i]], ms[i + 1..];
    assert ms == front + (m + back);
    OfTypeAppend(front, m + back, t);
    OfTypeAppend(m, back, t);
    OfTypeAppend(front, back, t);
    if t == ms[i].mtype {
      OfTypeNone(front, t);
    } else {
      OfTypeNone(m, t);
    }
  }

  /** Taking out the oldest message of its type keeps each type a queue. */
  lemma TakeKeepsOrder(accepted: seq<Message>, taken: seq<Message>, ms: seq<Message>, i: nat)
    requires i < |ms| && forall j :: 0 <= j < i ==> ms[j].mtype != ms[i].mtype
    requires forall t :: OfType(accepted, t) == OfType(taken, t) + OfType(ms, t)
    ensures forall t :: OfType(accepted, t) == OfType(taken + [ms[i]], t) + OfType(RemoveAt(ms, i), t)
    ensures OfType(ms, ms[i].mtype) == [ms[i]] + OfType(RemoveAt(ms, i), ms[i].mtype)
  {
    forall t ensures OfType(accepted, t) == OfType(taken + [ms[i]], t) + OfType(RemoveAt(ms, i), t) {
      TakeOldest(ms, i, t);
      OfTypeAppend(taken, [ms[i]], t);
    }
    TakeOldest(ms, i, ms[i].mtype);
    assert OfType([ms[i]], ms[i].mtype) == [ms[i]];
  }

  lemma {:induction false} BytesAppend(a: seq<Message>, b: seq<Message>)
    ensures Bytes(a + b) == Bytes(a) + Bytes(b)
    decreases |a|
  {
    if a == [] {
      assert a + b == b;
    } else {
      BytesAppend(a[1..], b);
      assert (a + b)[1..] == a[1..] + b;
    }
  }

  lemma BytesWithout(ms: seq<Message>, i: nat)
    requires i < |ms|
    ensures Bytes(ms) == |ms[i].mtext| + Bytes(RemoveAt(ms, i))
  {
    assert ms == ms[..i] + ([ms[i]] + ms[i + 1..]);
    BytesAppend(ms[..i], [ms[i]] + ms[i + 1..]);
    BytesAppend([ms[i]], ms[i + 1..]);
    BytesAppend(ms[..i], ms[i + 1..]);
  }

  /** The search of `receive_message`. */
  method Position(ms: seq<Message>, mtype: I64, except: bool) returns (r: Option<nat>)
    ensures Picks(ms, mtype, except, r)
    ensures Selects(ms, mtype, except, r) <==> !Overlooks(ms, mtype)
  {
    r := None;
    if mtype == 0 {
      if ms != [] {
        assert Matches(ms[0], mtype, except);
        r := Some(0);
      }
    } else if mtype > 0 {
      for i := 0 to |ms|
        invariant r.None? && forall j :: 0 <= j < i ==> !Matches(ms[j], mtype, except)
      {
        if if except then ms[i].mtype != mtype else ms[i].mtype == mtype {
          r := Some(i);
          break;
        }
      }
    } else {
      for i := 0 to |ms|
        invariant r.None? ==> forall j :: 0 <= j < i ==> !Matches(ms[j], mtype, except)
        invariant r.Some? ==> && r.value < i && Matches(ms[r.value], mtype, except)
                              && forall j :: 0 <= j < i && Matches(ms[j], mtype, except) ==>
                                   Precedes(ms, mtype, r.value, j)
      {
        if ms[i].mtype <= Bound(mtype) && (r.None? || ms[i].mtype < ms[r.value].mtype) {
          r := Some(i);
        }
      }
    }
    PicksIsPosixIff(ms, mtype, except, r);
  }

  datatype SendResult = Sent | Again | BadSendAddress
  datatype ReceiveResult =
    | Received(mtype: I64, text: seq<Byte>)
    | TooBig(mtype: I64, text: seq<Byte>)
    | NoMessage
    | BadAddress

  class MessageQueue {
    var messages: seq<Message>
    var currentBytes: nat
    /** Everything accepted and everything handed out so far, in order. */
    ghost var accepted: seq<Message>
    ghost var taken: seq<Message>

    /** The limits hold, the byte count is right, and each type is a queue: what was accepted
        of it is what was taken and then what is left, in that order. */
    ghost predicate Valid()
      reads this
    {
      && |messages| <= MAX_MESSAGES && currentBytes == Bytes(messages) <= MAX_BYTES
      && forall t :: OfType(accepted, t) == OfType(taken, t) + OfType(messages, t)
    }

    constructor ()
      ensures Valid() && messages == [] && accepted == [] && taken == []
    {
      messages, currentBytes, accepted, taken := [], 0, [], [];
    }

    predicate CanSend(size: nat)
      reads this
    {
      |messages| < MAX_MESSAGES && currentBytes + size <= MAX_BYTES
    }

    method SendMessage(mtype: I64, data: seq<Byte>) returns (ok: bool)
      requires Valid()
      modifies this
      ensures Valid() && taken == old(taken)
      ensures ok <==> |old(messages)| < 40 && Bytes(old(messages)) + |data| <= 16384
      ensures messages == old(messages) + if ok then [Message(mtype, data)] else []
      ensures accepted == old(accepted) + if ok then [Message(mtype, data)] else []
    {
      if CanSend(|data|) {
        var m := [Message(mtype, data)];
        BytesAppend(messages, m);
        forall t ensures OfType(accepted + m, t) == OfType(taken, t) + OfType(messages + m, t) {
          OfTypeAppend(accepted, m, t);
          OfTypeAppend(messages, m, t);
        }
        currentBytes := currentBytes + |data|;
        messages := messages + m;
        accepted := accepted + m;
        return true;
      }
      return false;
    }

    /** `receive_message`: takes out the message the code picks, which is the oldest of its type,
        and is the one POSIX asks for unless all of those are overlooked. */
    method ReceiveMessage(mtype: I64, except: bool) returns (r: Option<Message>)
      requires Valid()
      modifies this
      ensures Valid() && accepted == old(accepted)
      ensures r.None? <==> Picks(old(messages), mtype, except, None)
      ensures r.None? ==> messages == old(messages) && taken == old(taken)
      ensures r.Some? ==> exists i: nat :: && Picks(old(messages), mtype, except, Some(i))
                                           && (Selects(old(messages), mtype, except, Some(i))
                                               <==> !Overlooks(old(messages), mtype))
                                           && r.value == old(messages)[i] && messages == RemoveAt(old(messages), i)
      ensures r.Some? ==> taken == old(taken) + [r.value]
      ensures r.Some? ==> OfType(old(messages), r.value.mtype) == [r.value] + OfType(messages, r.value.mtype)
    {
      hide OfType, Bytes, Wanted, Matches, Precedes;
      var pos := Position(messages, mtype, except);
      if pos.None? {
        return None;
      }
      var i := pos.value;
      var m := messages[i];
      PickedIsOldest(messages, mtype, except, i);
      assert Picks(messages, mtype, except, Some(i));
      BytesWithout(messages, i);
      TakeKeepsOrder(accepted, taken, messages, i);
      messages := RemoveAt(messages, i);
      currentBytes := currentBytes - |m.mtext|;
      taken := taken + [m];
      return Some(m);
    }

    /** `sys_msgsnd` on an existing queue, where `readable` says whether the message's address is
        valid. Success means that the message was queued exactly when there was room: a blocking
        send to a full queue reports success and queues nothing. */
    method MsgSnd(mtype: I64, data: seq<Byte>, noWait: bool, readable: bool) returns (r: SendResult)
      requires Valid()
      modifies this
      ensures Valid() && taken == old(taken)
      ensures r.BadSendAddress? <==> !readable
      ensures r.Again? <==> readable && !old(CanSend(|data|)) && noWait
      ensures accepted == old(accepted) + [Message(mtype, data)] <==> readable && old(CanSend(|data|))
      ensures readable && old(CanSend(|data|)) ==> messages == old(messages) + [Message(mtype, data)]
      ensures !(readable && old(CanSend(|data|))) ==> messages == old(messages) && accepted == old(accepted)
      ensures Stepped(SendOp(mtype, data, noWait, readable), SendAnswer(r), old(messages), messages)
    {
      if !readable {
        assert |accepted| != |accepted + [Message(mtype, data)]|;
        return BadSendAddress;
      }
      if CanSend(|data|) {
        var _ := SendMessage(mtype, data);
        return Sent;
      }
      assert |accepted| != |accepted + [Message(mtype, data)]|;
      return if noWait then Again else Sent;
    }

    /** `sys_msgrcv` on an existing queue, with the bytes that reach the caller's buffer, where
        `writable` says whether the buffer's address is valid. The message is taken out whether
        or not an error is reported, and reaches the caller whole exactly when the address is
        valid and it fits. */
    method MsgRcv(size: nat, mtype: I64, except: bool, noError: bool, writable: bool) returns (r: ReceiveResult)
      requires Valid()
      modifies this
      ensures Valid() && accepted == old(accepted)
      ensures r.NoMessage? <==> Picks(old(messages), mtype, except, None)
      ensures r.NoMessage? ==> taken == old(taken)
      ensures !r.NoMessage? ==>
                && |taken| == |old(taken)| + 1 && taken[..|old(taken)|] == old(taken)
                && var m := taken[|old(taken)|];
                   && (exists i: nat :: && Picks(old(messages), mtype, except, Some(i)) && m == old(messages)[i]
                                        && messages == RemoveAt(old(messages), i))
                   && (r.BadAddress? <==> !writable)
                   && (r.TooBig? <==> writable && |m.mtext| > size && !noError)
                   && (!r.BadAddress? ==> && r.mtype == m.mtype && r.text == m.mtext[..Min(|m.mtext|, size)]
                                          && (r.text == m.mtext <==> |m.mtext| <= size))
      ensures Stepped(ReceiveOp(size, mtype, except, noError, writable), ReceiveAnswer(r), old(messages), messages)
    {
      hide OfType, Bytes, Wanted, Matches, Precedes;
      var got := ReceiveMessage(mtype, except);
      match got {
        case None => return NoMessage;
        case Some(m) =>
          return AnswerFor(m, size, noError, writable);
      }
    }

    method Step(op: QueueOp) returns (r: QueueResult)
      requires Valid()
      modifies this
      ensures Valid() && Stepped(op, r, old(messages), messages)
      ensures accepted == old(accepted) + AcceptedOf(op, old(messages))
    {
      hide OfType, Bytes, Picks;
      match op {
        case SendOp(mtype, data, noWait, readable) =>
          var sent := MsgSnd(mtype, data, noWait, readable);
          r := SendAnswer(sent);
        case ReceiveOp(size, mtype, except, noError, writable) =>
          var got := MsgRcv(size, mtype, except, noError, writable);
          r := ReceiveAnswer(got);
      }
    }

    /** In every run the limits hold, each operation answers and does what it has to, the messages
        accepted are those that found room, and each type is delivered in the order it was sent. */
    method Run(ops: seq<QueueOp>) returns (results: seq<QueueResult>, ghost states: seq<seq<Message>>)
      requires Valid()
      modifies this
      ensures Valid()
      ensures |results| == |ops| && |states| == |ops| + 1 && states[0] == old(messages) && states[|ops|] == messages
      ensures forall i :: 0 <= i < |ops| ==> StepAt(ops, results, states, i)
      ensures accepted == old(accepted) + Accepted(ops, states)
    {
      hide OfType, Bytes, Stepped, AcceptedOf;
      results, states := [], [messages];
      for n := 0 to |ops|
        invariant Valid() && |results| == n && |states| == n + 1 && states[0] == old(messages) && states[n] == messages
        invariant forall i :: 0 <= i < n ==> StepAt(ops, results, states, i)
        invariant accepted == old(accepted) + Accepted(ops[..n], states)
      {
        var r := Step(ops[n]);
        StepsNext(ops, results, states, r, messages);
        AcceptedNext(ops, states, n, messages);
        results, states := results + [r], states + [messages];
      }
      assert ops[..|ops|] == ops;
    }
  }

  datatype QueueResult = SendAnswer(sent: SendResult) | ReceiveAnswer(got: ReceiveResult)

  /** There is room for `n` more bytes. */
  predicate RoomFor(ms: seq<Message>, n: nat) {
    |ms| < MAX_MESSAGES && Bytes(ms) + n <= MAX_BYTES
  }

  /** What the caller gets for a message taken out. */
  function AnswerFor(m: Message, size: nat, noError: bool, writable: bool): ReceiveResult {
    var text := m.mtext[..Min(|m.mtext|, size)];
    if !writable then BadAddress
    else if |m.mtext| > size && !noError then TooBig(m.mtype, text)
    else Received(m.mtype, text)
  }

  /** What an operation answers and makes of the messages. */
  ghost predicate Stepped(op: QueueOp, r: QueueResult, ms: seq<Message>, ms': seq<Message>) {
    match op
    case SendOp(mtype, data, noWait, readable) =>
      && ms' == ms + AcceptedOf(op, ms)
      && r == SendAnswer(if !readable then BadSendAddress else if !RoomFor(ms, |data|) && noWait then Again else Sent)
    case ReceiveOp(size, mtype, except, noError, writable) =>
      if Picks(ms, mtype, except, None) then r == ReceiveAnswer(NoMessage) && ms' == ms
      else exists i: nat :: && Picks(ms, mtype, except, Some(i)) && ms' == RemoveAt(ms, i)
                            && r == ReceiveAnswer(AnswerFor(ms[i], size, noError, writable))
  }

  /** The message the operation adds to the queue. */
  function AcceptedOf(op: QueueOp, ms: seq<Message>): seq<Message> {
    if op.SendOp? && op.readable && RoomFor(ms, |op.data|) then [Message(op.mtype, op.data)] else []
  }

  /** The messages a run adds, in order. */
  ghost function Accepted(ops: seq<QueueOp>, states: seq<seq<Message>>): seq<Message>
    requires |ops| <= |states|
  {
    if ops == [] then [] else Accepted(ops[..|ops| - 1], states) + AcceptedOf(ops[|ops| - 1], states[|ops| - 1])
  }

  lemma {:induction false} AcceptedStays(ops: seq<QueueOp>, states: seq<seq<Message>>, ms: seq<Message>)
    requires |ops| <= |states|
    ensures Accepted(ops, states + [ms]) == Accepted(ops, states)
    decreases |ops|
  {
    if ops != [] {
      AcceptedStays(ops[..|ops| - 1], states, ms);
    }
  }

  lemma AcceptedNext(ops: seq<QueueOp>, states: seq<seq<Message>>, n: nat, ms: seq<Message>)
    requires n < |ops| && |states| == n + 1
    ensures Accepted(ops[..n + 1], states + [ms]) == Accepted(ops[..n], states) + AcceptedOf(ops[n], states[n])
  {
    hide AcceptedOf;
    assert ops[..n + 1][..n] == ops[..n];
    AcceptedStays(ops[..n], states, ms);
  }

  ghost predicate StepAt(ops: seq<QueueOp>, results: seq<QueueResult>, states: seq<seq<Message>>, i: nat)
    requires i < |ops| && i < |results| && i + 1 < |states|
  {
    Stepped(ops[i], results[i], states[i], states[i + 1])
  }

  lemma StepsNext(ops: seq<QueueOp>, results: seq<QueueResult>, states: seq<seq<Message>>, r: QueueResult,
                  ms: seq<Message>)
    requires |results| < |ops| && |states| == |results| + 1
    requires forall i :: 0 <= i < |results| ==> StepAt(ops, results, states, i)
    requires Stepped(ops[|results|], r, states[|results|], ms)
    ensures forall i :: 0 <= i <= |results| ==> StepAt(ops, results + [r], states + [ms], i)
  {
    hide Stepped;
    forall i | 0 <= i < |results| ensures StepAt(ops, results + [r], states + [ms], i) {
      assert StepAt(ops, results, states, i);
    }
  }

  datatype QueueOp =
    | SendOp(mtype: I64, data: seq<Byte>, noWait: bool, readable: bool)
    | ReceiveOp(size: nat, mtype: I64, except: bool, noError: bool, writable: bool)

  /** The second message does not fit, and sending it is reported as a success. */
  method SendIsLost() returns (q: MessageQueue, r: SendResult)
    ensures q.Valid() && r == Sent && |q.accepted| == 1
  {
    q := new MessageQueue();
    var _ := q.MsgSnd(1, Zeros(MAX_BYTES), false, true);
    BytesOne(q.messages, MAX_BYTES);
    r := q.MsgSnd(1, [7], false, true);
  }

  lemma BytesOne(ms: seq<Message>, n: nat)
    requires |ms| == 1 && |ms[0].mtext| == n
    ensures Bytes(ms) == n
  {
    assert Bytes(ms[1..]) == 0;
  }

  /** A message of two bytes read with room for one: an error, and the message is gone. */
  method ReceiveLoses() returns (q: MessageQueue, r: ReceiveResult)
    ensures q.Valid() && r == TooBig(1, [7]) && q.messages == []
  {
    q := new MessageQueue();
    var _ := q.MsgSnd(1, [7, 8], false, true);
    assert q.accepted == [Message(1, [7, 8])];
    assert Matches(q.messages[0], 0, false);
    r := q.MsgRcv(1, 0, false, false, true);
    assert r.text == [7, 8][..1] == [7];
  }

  /** A request for the least type finds nothing in a queue that is not empty. */
  method LeastTypeOverlooks() returns (q: MessageQueue, r: Option<Message>)
    ensures q.Valid() && r == None && |q.messages| == 1 && Overlooks(q.messages, I64_MIN)
  {
    q := new MessageQueue();
    var _ := q.SendMessage(1, [7]);
    r := q.ReceiveMessage(I64_MIN, false);
  }
}
