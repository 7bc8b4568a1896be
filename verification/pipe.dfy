/** Pipes (`PipeSender`, `PipeReceiver`, `create_pipe`): a byte queue shared by one receiver and
    the holders of a counted sender. */
module Pipes {
  import opened Common

  const PIPE_BUFFER_SIZE: nat := 0x10000
  const SMALL_WRITE: nat := 16

  datatype IoResult = Done(count: nat) | WouldBlock

  class Pipe {
    var queue: seq<Byte>
    /** The strong count of the sender. */
    var senders: nat
    /** The bytes of the accepted writes, and the bytes read, from the start. */
    ghost var accepted: seq<Byte>
    ghost var delivered: seq<Byte>

    /** Nothing is lost, repeated or reordered. */
    ghost predicate Valid()
      reads this
    {
      accepted == delivered + queue
    }

    ghost function State(): PipeState
      reads this
    {
      PipeState(queue, senders)
    }

    lemma DeliveredIsShorter()
      requires Valid()
      ensures |delivered| <= |accepted|
    {
    }

    constructor ()
      ensures Valid() && queue == [] && senders == 1 && accepted == []
    {
      queue, senders, accepted, delivered := [], 1, [], [];
    }

    /** `writeat` of a sender: all of the data or none of it, and a write of more than 16 bytes
        never leaves more than 64 KiB queued. A queue within the limit stays within it exactly
        when the write is not a small one that passes it. */
    method WriteAt(data: seq<Byte>) returns (r: IoResult)
      requires Valid() && senders > 0
      modifies this`queue, this`accepted
      ensures Valid()
      ensures r == WouldBlock || r == Done(|data|)
      ensures r.WouldBlock? <==> |data| > 16 && |old(queue)| + |data| > 0x10000
      ensures accepted == old(accepted) + if r.Done? then data else []
      ensures r.Done? && |data| > SMALL_WRITE ==> |queue| <= PIPE_BUFFER_SIZE
      ensures |old(queue)| <= PIPE_BUFFER_SIZE ==>
                (|queue| <= PIPE_BUFFER_SIZE
                 <==> !(|data| <= SMALL_WRITE && |old(queue)| + |data| > PIPE_BUFFER_SIZE))
      ensures queue == old(queue) + if r.Done? then data else []
    {
      if |data| == 0 {
        assert accepted == accepted + data && queue == queue + data;
        return Done(0);
      }
      if |data| <= SMALL_WRITE || |queue| + |data| <= PIPE_BUFFER_SIZE {
        queue := queue + data;
        accepted := accepted + data;
        return Done(|data|);
      }
      return WouldBlock;
    }

    /** `readat` of the receiver: the oldest bytes. A read into a nonempty buffer returns 0
        exactly when every sender is gone and every accepted byte was read. */
    method ReadAt(buffer: array<Byte>) returns (r: IoResult)
      requires Valid()
      modifies this`queue, this`delivered, buffer
      ensures Valid()
      ensures r.Done? ==> && r.count <= buffer.Length
                          && delivered == old(delivered) + buffer[..r.count]
                          && buffer[r.count..] == old(buffer[r.count..])
      ensures r.WouldBlock? ==> delivered == old(delivered) && buffer[..] == old(buffer[..])
      ensures r.WouldBlock? <==> buffer.Length > 0 && old(delivered) == accepted && senders > 0
      ensures buffer.Length > 0 ==> (r == Done(0) <==> old(delivered) == accepted && senders == 0)
      ensures r.Done? && old(delivered) != accepted ==> r.count == Min(|accepted| - |old(delivered)|, buffer.Length)
      ensures r.Done? ==> && r.count == Min(|old(queue)|, buffer.Length) && queue == old(queue)[r.count..]
                          && buffer[..r.count] == old(queue)[..r.count]
      ensures r.WouldBlock? ==> queue == old(queue) == []
    {
      assert delivered == accepted <==> queue == [] by {
        assert |accepted| == |delivered| + |queue|;
      }
      if buffer.Length == 0 {
        assert delivered == delivered + buffer[..0];
        return Done(0);
      }
      if |queue| > 0 {
        var count := Min(|queue|, buffer.Length);
        for i := 0 to count
          invariant buffer[..i] == queue[..i]
          invariant buffer[i..] == old(buffer[i..])
          modifies buffer
        {
          buffer[i] := queue[i];
        }
        assert queue == queue[..count] + queue[count..];
        queue, delivered := queue[count..], delivered + queue[..count];
        return Done(count);
      }
      if senders > 0 {
        return WouldBlock;
      }
      return Done(0);
    }

    /** A copy of the sender is made from a live one. */
    method CloneSender()
      requires Valid() && senders > 0
      modifies this`senders
      ensures Valid() && senders == old(senders) + 1
    {
      senders := senders + 1;
    }

    method DropSender()
      requires Valid() && senders > 0
      modifies this`senders
      ensures Valid() && senders == old(senders) - 1
    {
      senders := senders - 1;
    }

    method Step(op: PipeOp) returns (r: PipeResult)
      requires Valid()
      modifies this
      ensures Valid() && State() == After(old(State()), op) && r == Answer(old(State()), op)
      ensures accepted == old(accepted) + AcceptedOf(old(State()), op)
      ensures delivered == old(delivered) + if r.Bytes? then r.data else []
    {
      r := Ignored;
      match op {
        case WriteOp(data) =>
          if senders > 0 {
            var io := WriteAt(data);
            r := if io.Done? then Wrote(io.count) else Blocked;
          }
        case ReadOp(size) =>
          var buffer := new Byte[size];
          var io := ReadAt(buffer);
          r := if io.Done? then Bytes(buffer[..io.count]) else Blocked;
        case CloneOp =>
          if senders > 0 {
            CloneSender();
            r := Changed;
          }
        case DropOp =>
          if senders > 0 {
            DropSender();
            r := Changed;
          }
      }
    }

    /** In every run the results and the queue are those of the byte queue it models, and the bytes
        read and then the bytes queued are the accepted bytes. After the last sender is gone nothing
        is accepted any more, and end of file stays. */
    method Run(ops: seq<PipeOp>) returns (results: seq<PipeResult>)
      requires Valid()
      modifies this
      ensures Valid() && State() == AfterAll(old(State()), ops)
      ensures |results| == |ops| && forall i :: 0 <= i < |ops| ==>
                results[i] == Answer(AfterAll(old(State()), ops[..i]), ops[i])
      ensures delivered == old(delivered) + AllBytes(results)
      ensures accepted == old(accepted) + AllAccepted(old(State()), ops)
      ensures old(senders) == 0 ==> senders == 0 && accepted == old(accepted)
      ensures old(senders) == 0 && old(delivered) == old(accepted) ==> delivered == old(delivered)
    {
      hide After; hide Answer; hide AcceptedOf; hide AfterAll; hide AllBytes; hide AllAccepted; hide Valid;
      results := [];
      ghost var start := State();
      AfterNone(start, ops);
      for n := 0 to |ops|
        invariant Valid() && |results| == n && State() == AfterAll(start, ops[..n])
        invariant forall i :: 0 <= i < n ==> results[i] == Answer(AfterAll(start, ops[..i]), ops[i])
        invariant delivered == old(delivered) + AllBytes(results)
        invariant accepted == old(accepted) + AllAccepted(start, ops[..n])
      {
        var r := Step(ops[n]);
        AfterNext(start, ops, n);
        BytesNext(results, r);
        results := results + [r];
      }
      assert ops[..|ops|] == ops;
      if start.senders == 0 {
        NoneAccepted(start, ops);
        DeliveredIsShorter();
      }
    }
  }

  datatype PipeOp = WriteOp(data: seq<Byte>) | ReadOp(size: nat) | CloneOp | DropOp

  datatype PipeResult = Wrote(n: nat) | Bytes(data: seq<Byte>) | Blocked | Changed | Ignored

  datatype PipeState = PipeState(queue: seq<Byte>, senders: nat)

  predicate Fits(s: PipeState, data: seq<Byte>) {
    |data| <= SMALL_WRITE || |s.queue| + |data| <= PIPE_BUFFER_SIZE
  }

  /** What an operation answers. */
  function Answer(s: PipeState, op: PipeOp): PipeResult {
    match op
    case WriteOp(data) => if s.senders == 0 then Ignored else if Fits(s, data) then Wrote(|data|) else Blocked
    case ReadOp(size) =>
      if size > 0 && s.queue == [] && s.senders > 0 then Blocked else Bytes(s.queue[..Min(|s.queue|, size)])
    case CloneOp => if s.senders == 0 then Ignored else Changed
    case DropOp => if s.senders == 0 then Ignored else Changed
  }

  /** What an operation adds to the queue. */
  function AcceptedOf(s: PipeState, op: PipeOp): seq<Byte> {
    if op.WriteOp? && s.senders > 0 && Fits(s, op.data) then op.data else []
  }

  function After(s: PipeState, op: PipeOp): PipeState {
    match op
    case WriteOp(_) => s.(queue := s.queue + AcceptedOf(s, op))
    case ReadOp(size) => s.(queue := s.queue[Min(|s.queue|, size)..])
    case CloneOp => if s.senders == 0 then s else s.(senders := s.senders + 1)
    case DropOp => if s.senders == 0 then s else s.(senders := s.senders - 1)
  }

  function AfterAll(s: PipeState, ops: seq<PipeOp>): PipeState {
    if ops == [] then s else After(AfterAll(s, ops[..|ops| - 1]), ops[|ops| - 1])
  }

  /** The bytes of the writes that were accepted, one after the other. */
  function AllAccepted(s: PipeState, ops: seq<PipeOp>): seq<Byte> {
    if ops == [] then []
    else
      var before := ops[..|ops| - 1];
      AllAccepted(s, before) + AcceptedOf(AfterAll(s, before), ops[|ops| - 1])
  }

  /** The bytes the reads returned, one after the other. */
  function AllBytes(rs: seq<PipeResult>): seq<Byte> {
    if rs == [] then []
    else AllBytes(rs[..|rs| - 1]) + if rs[|rs| - 1].Bytes? then rs[|rs| - 1].data else []
  }

  /** Once the last sender is gone no sender comes back and nothing is accepted. */
  lemma {:induction false} NoneAccepted(s: PipeState, ops: seq<PipeOp>)
    requires s.senders == 0
    ensures AfterAll(s, ops).senders == 0 && AllAccepted(s, ops) == []
  {
    if ops != [] {
      NoneAccepted(s, ops[..|ops| - 1]);
    }
  }

  lemma AfterNone(s: PipeState, ops: seq<PipeOp>)
    ensures AfterAll(s, ops[..0]) == s && AllBytes([]) == [] && AllAccepted(s, ops[..0]) == []
  {
  }

  lemma AfterNext(s: PipeState, ops: seq<PipeOp>, n: nat)
    requires n < |ops|
    ensures AfterAll(s, ops[..n + 1]) == After(AfterAll(s, ops[..n]), ops[n])
    ensures AllAccepted(s, ops[..n + 1]) == AllAccepted(s, ops[..n]) + AcceptedOf(AfterAll(s, ops[..n]), ops[n])
  {
    assert ops[..n + 1][..n] == ops[..n];
  }

  lemma BytesNext(rs: seq<PipeResult>, r: PipeResult)
    ensures AllBytes(rs + [r]) == AllBytes(rs) + if r.Bytes? then r.data else []
  {
    assert (rs + [r])[..|rs|] == rs;
  }

  /** Small writes are not held to the buffer size: they queue any number of bytes. */
  method SmallWritesPileUp(n: nat) returns (p: Pipe)
    ensures p.Valid() && |p.queue| == n && p.senders == 1
  {
    p := new Pipe();
    for i := 0 to n
      invariant p.Valid() && |p.queue| == i && p.senders == 1 && p.delivered == []
    {
      var r := p.WriteAt([7]);
      assert |p.accepted| == i + 1;
    }
  }
}
