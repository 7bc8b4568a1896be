/** Every frame is free, held by one tracker, or part of one live heap block, in every run. */
module FrameLedgers {
  import opened Common
  import opened FrameRegions
  import opened FrameAllocators
  import opened LargeAllocators

  datatype FrameOp =
    | AllocOne
    | AllocMany(pages: nat)
    | DropOne(frame: nat)
    | LargeAlloc(size: nat, align: nat)
    | LargeFree(ptr: nat, size: nat)

  /** The heap asks for large blocks only with a positive size and alignment. */
  predicate Legal(op: FrameOp) {
    op.LargeAlloc? ==> op.size > 0 && op.align > 0
  }

  /** `a`, `b` and `c` partition `all`. */
  ghost predicate Partition(all: set<nat>, a: set<nat>, b: set<nat>, c: set<nat>) {
    a !! b && b !! c && a !! c && a + b + c == all
  }

  /** Moving frames from one part to another keeps the partition. */
  lemma PartitionMove(all: set<nat>, a: set<nat>, b: set<nat>, c: set<nat>, x: set<nat>, a': set<nat>, b': set<nat>)
    requires Partition(all, a, b, c) && x <= a && a' == a - x && b' == b + x
    ensures Partition(all, a', b', c)
  {
  }

  lemma PartitionSwap(all: set<nat>, a: set<nat>, b: set<nat>, c: set<nat>)
    requires Partition(all, a, b, c)
    ensures Partition(all, b, a, c) && Partition(all, a, c, b)
  {
  }

  lemma PartitionBack(all: set<nat>, a: set<nat>, b: set<nat>, c: set<nat>, x: nat)
    requires Partition(all, a, b, c) && x in b
    ensures Partition(all, a + {x}, b - {x}, c) && x in all
  {
  }

  lemma PartitionCount(all: set<nat>, a: set<nat>, b: set<nat>, c: set<nat>)
    requires Partition(all, a, b, c)
    ensures |a| + |b| + |c| == |all|
  {
    assert |a + b| == |a| + |b|;
    assert |a + b + c| == |a + b| + |c|;
  }

  class FrameLedger {
    const frames: FrameAllocator
    const large: LargeAllocator
    /** Frames of live trackers outside the heap. */
    var held: set<nat>

    ghost predicate Valid()
      reads this, frames, frames.regions, large
    {
      && large.frames == frames && frames.Valid()
      && BlocksDisjoint(large.allocations)
      && Partition(Managed(frames.regions), frames.Free(), held, HeldBy(large.allocations))
    }

    constructor (frames: FrameAllocator, large: LargeAllocator)
      requires large.frames == frames && large.Valid() && large.allocations == []
      requires frames.Free() == Managed(frames.regions)
      ensures Valid() && this.frames == frames && this.large == large && held == {}
    {
      this.frames, this.large := frames, large;
      held := {};
    }

    /** A frame that is handed out was free, so neither held nor part of a block. */
    method AllocOne() returns (r: Option<nat>)
      requires Valid()
      modifies this, frames.regions
      ensures Valid()
      ensures r.None? <==> old(frames.Free()) == {}
      ensures r.Some? ==> && r.value in old(frames.Free()) && held == old(held) + {r.value}
                          && TookFirst(old(frames.Sets()), frames.Sets(), r.value)
      ensures r.None? ==> held == old(held) && frames.Sets() == old(frames.Sets())
      ensures frames.Free() == old(frames.Free()) - if r.Some? then {r.value} else {}
    {
      hide FrameAllocator.Valid; hide FrameAllocator.Free; hide Managed; hide Partition;
      ghost var all, free, blocks := Managed(frames.regions), frames.Free(), HeldBy(large.allocations);
      r := frames.FrameAlloc();
      if r.Some? {
        held := held + {r.value};
        PartitionMove(all, free, old(held), blocks, {r.value}, frames.Free(), held);
      } else {
        assert frames.Free() == free;
      }
    }

    method AllocMany(pages: nat) returns (r: Option<seq<nat>>)
      requires Valid()
      modifies this, frames.regions
      ensures Valid()
      ensures r.None? <==> if pages > 0 then old(frames.NoRun(pages)) else old(frames.Free()) == {}
      ensures r.Some? ==> && |r.value| == pages && SeqSet(r.value) <= old(frames.Free())
                          && held == old(held) + SeqSet(r.value)
                          && frames.Free() == old(frames.Free()) - SeqSet(r.value)
                          && Taken(old(frames.Sets()), frames.Sets(), r.value, pages)
      ensures r.None? ==> frames.Free() == old(frames.Free()) && held == old(held)
                          && frames.Sets() == old(frames.Sets())
    {
      hide FrameAllocator.Valid; hide FrameAllocator.Free; hide Managed; hide Partition; hide Taken; hide NoRunAtAll;
      hide HeldBy; hide BlocksDisjoint; hide FrameAllocator.Sets;
      ghost var all, free, blocks := Managed(frames.regions), frames.Free(), HeldBy(large.allocations);
      r := frames.FrameAllocMuch(pages);
      if r.Some? {
        held := held + set p | p in r.value;
        PartitionMove(all, free, old(held), blocks, SeqSet(r.value), frames.Free(), held);
      } else {
        assert frames.Free() == free;
      }
    }

    method DropOne(frame: nat)
      requires Valid()
      modifies this, frames.regions
      ensures Valid()
      ensures held == old(held) - {frame}
      ensures frames.Free() == old(frames.Free()) + if frame in old(held) then {frame} else {}
      ensures frames.Sets() == if frame in old(held) then GiveBack(Homes(frames.regions), old(frames.Sets()), {frame})
                               else old(frames.Sets())
    {
      hide FrameAllocator.Valid; hide FrameAllocator.Free; hide Managed; hide Partition; hide HeldBy;
      hide BlocksDisjoint;
      if frame in held {
        PartitionBack(Managed(frames.regions), frames.Free(), held, HeldBy(large.allocations), frame);
        frames.DropTracker(frame);
        held := held - {frame};
      }
    }

    method LargeAlloc(size: nat, align: nat) returns (r: Option<nat>)
      requires Valid() && size > 0 && align > 0
      modifies large, frames.regions
      ensures Valid()
      ensures r.Some? ==> && r.value % align == 0
                          && SeqSet(BlockFrames(r.value, size)) <= old(frames.Free())
                          && large.allocations
                             == old(large.allocations) + [Block(r.value, size, BlockFrames(r.value, size))]
                          && large.Held() == old(large.Held()) + SeqSet(BlockFrames(r.value, size))
                          && frames.Free() == old(frames.Free()) - SeqSet(BlockFrames(r.value, size))
                          && Taken(old(frames.Sets()), frames.Sets(), BlockFrames(r.value, size),
                                   DivCeil(size, PAGE_SIZE))
      ensures r.None? ==> && frames.Free() == old(frames.Free()) && large.allocations == old(large.allocations)
                          && frames.Sets() == old(frames.Sets())
      ensures r.None? <==> || old(frames.NoRun(DivCeil(size, PAGE_SIZE)))
                           || Misaligned(old(frames.Sets()), DivCeil(size, PAGE_SIZE), align)
    {
      hide FrameAllocator.Valid; hide FrameAllocator.Free; hide Managed; hide FrameAllocator.NoRun;
      ghost var all, free, blocks := Managed(frames.regions), frames.Free(), HeldBy(large.allocations);
      r := large.Alloc(size, align);
      if r.Some? {
        ghost var block := large.allocations[|large.allocations| - 1];
        assert block.frames == BlockFrames(r.value, size);
        PartitionSwap(all, free, held, blocks);
        PartitionMove(all, free, blocks, held, SeqSet(block.frames), frames.Free(), HeldBy(large.allocations));
        PartitionSwap(all, frames.Free(), HeldBy(large.allocations), held);
      }
    }

    /** `released` are the frames of the block that contains the pointer, if there is one. */
    method LargeFree(ptr: nat, size: nat) returns (ghost released: seq<nat>)
      requires Valid()
      modifies large, frames.regions
      ensures Valid()
      ensures SeqSet(released) !! old(frames.Free()) && frames.Free() == old(frames.Free()) + SeqSet(released)
      ensures forall i :: 0 <= i < |old(large.allocations)| && old(large.allocations)[i].Contains(ptr) ==>
                && released == old(large.allocations)[i].frames
                && large.allocations == RemoveAt(old(large.allocations), i)
                && frames.Sets() == GiveBack(Homes(frames.regions), old(frames.Sets()), SeqSet(released))
      ensures (forall i :: 0 <= i < |old(large.allocations)| ==> !old(large.allocations)[i].Contains(ptr)) ==>
                released == [] && large.allocations == old(large.allocations) && frames.Sets() == old(frames.Sets())
    {
      hide FrameAllocator.Valid; hide FrameAllocator.Free; hide Managed;
      ghost var all, free, blocks := Managed(frames.regions), frames.Free(), HeldBy(large.allocations);
      ghost var before := large.allocations;
      released := [];
      large.Dealloc(ptr, size);
      if i :| 0 <= i < |before| && before[i].Contains(ptr) {
        assert SeqSet(before[i].frames) <= HeldBy(before);
        released := before[i].frames;
        forall j | 0 <= j < |before| && before[j].Contains(ptr) ensures j == i {
          ContainingBlockUnique(before, i, j, ptr);
        }
        PartitionSwap(all, free, held, blocks);
        PartitionSwap(all, free, blocks, held);
        PartitionMove(all, blocks, free, held, SeqSet(before[i].frames), HeldBy(large.allocations), frames.Free());
        PartitionSwap(all, HeldBy(large.allocations), frames.Free(), held);
        PartitionSwap(all, frames.Free(), HeldBy(large.allocations), held);
      }
    }

    /** All frames and the free frames of each region, the held frames and the live blocks. */
    ghost function State(): Books
      requires Valid()
      reads this, frames, frames.regions, large
    {
      Books(Homes(frames.regions), frames.Sets(), held, large.allocations)
    }

    method StepAllocOne() returns (ghost ev: FrameEvent)
      requires Valid()
      modifies this, large, frames.regions
      ensures Valid()
      ensures Stepped(FrameOp.AllocOne, ev, old(State()), State()) && Moves(ev, old(State()).Free(), State().Free())
    {
      hide FrameAllocator.Valid; hide FrameAllocator.Free; hide Managed; hide Partition; hide HeldBy; hide Union;
      hide BlocksDisjoint; hide Taken; hide TookFirst; hide GiveBack; hide NoRunAtAll; hide SeqSet; hide Stepped;
      hide Moves; hide FrameAllocator.Sets; hide Books.Free;
      FreeIsUnion();
      var r := AllocOne();
      FreeIsUnion();
      ev := if r.Some? then Gave([r.value]) else Nothing;
      OneSteps(old(State()), State(), r);
    }

    method StepAllocMany(pages: nat) returns (ghost ev: FrameEvent)
      requires Valid()
      modifies this, large, frames.regions
      ensures Valid()
      ensures Stepped(FrameOp.AllocMany(pages), ev, old(State()), State())
      ensures Moves(ev, old(State()).Free(), State().Free())
    {
      hide FrameAllocator.Valid; hide FrameAllocator.Free; hide Managed; hide Partition; hide HeldBy; hide Union;
      hide BlocksDisjoint; hide Taken; hide TookFirst; hide GiveBack; hide NoRunAtAll; hide SeqSet; hide Stepped;
      hide Moves; hide FrameAllocator.Sets; hide Books.Free;
      FreeIsUnion();
      var r := AllocMany(pages);
      FreeIsUnion();
      ev := if r.Some? then Gave(r.value) else Nothing;
      ManySteps(old(State()), State(), pages, r);
    }

    method StepDropOne(frame: nat) returns (ghost ev: FrameEvent)
      requires Valid()
      modifies this, large, frames.regions
      ensures Valid()
      ensures Stepped(FrameOp.DropOne(frame), ev, old(State()), State())
      ensures Moves(ev, old(State()).Free(), State().Free())
    {
      hide FrameAllocator.Valid; hide FrameAllocator.Free; hide Managed; hide Partition; hide HeldBy; hide Union;
      hide BlocksDisjoint; hide Taken; hide TookFirst; hide GiveBack; hide NoRunAtAll; hide SeqSet; hide Stepped;
      hide Moves; hide FrameAllocator.Sets; hide Books.Free;
      FreeIsUnion();
      if frame in held {
        HeldNotFree(Managed(frames.regions), frames.Free(), held, HeldBy(large.allocations), frame);
      }
      DropOne(frame);
      FreeIsUnion();
      ev := if frame in old(held) then TookBack([frame]) else Nothing;
      DropSteps(old(State()), State(), frame);
    }

    method StepLargeAlloc(size: nat, align: nat) returns (ghost ev: FrameEvent)
      requires Valid() && size > 0 && align > 0
      modifies this, large, frames.regions
      ensures Valid()
      ensures Stepped(FrameOp.LargeAlloc(size, align), ev, old(State()), State())
      ensures Moves(ev, old(State()).Free(), State().Free())
    {
      hide FrameAllocator.Valid; hide FrameAllocator.Free; hide Managed; hide Partition; hide HeldBy; hide Union;
      hide BlocksDisjoint; hide Taken; hide TookFirst; hide GiveBack; hide NoRunAtAll; hide SeqSet; hide Stepped;
      hide Moves; hide Misaligned; hide BlockFrames; hide FrameAllocator.Sets; hide Books.Free;
      FreeIsUnion();
      var r := LargeAlloc(size, align);
      FreeIsUnion();
      ev := if r.Some? then Gave(BlockFrames(r.value, size)) else Nothing;
      LargeSteps(old(State()), State(), size, align, r);
    }

    method StepLargeFree(ptr: nat, size: nat) returns (ghost ev: FrameEvent)
      requires Valid()
      modifies this, large, frames.regions
      ensures Valid()
      ensures Stepped(FrameOp.LargeFree(ptr, size), ev, old(State()), State())
      ensures Moves(ev, old(State()).Free(), State().Free())
    {
      hide FrameAllocator.Valid; hide FrameAllocator.Free; hide Managed; hide Partition; hide HeldBy; hide Union;
      hide BlocksDisjoint; hide Taken; hide TookFirst; hide GiveBack; hide NoRunAtAll; hide SeqSet; hide Stepped;
      hide Moves; hide Misaligned; hide BlockFrames; hide FrameAllocator.Sets; hide Books.Free;
      FreeIsUnion();
      ghost var released := LargeFree(ptr, size);
      FreeIsUnion();
      ev := FreeSteps(old(State()), State(), ptr, size, released);
    }

    method Step(op: FrameOp) returns (ghost ev: FrameEvent)
      requires Valid() && Legal(op)
      modifies this, large, frames.regions
      ensures Valid()
      ensures Stepped(op, ev, old(State()), State()) && Moves(ev, old(State()).Free(), State().Free())
    {
      hide Valid; hide State; hide Stepped; hide Moves; hide Books.Free;
      match op {
        case AllocOne => ev := StepAllocOne();
        case AllocMany(pages) => ev := StepAllocMany(pages);
        case DropOne(frame) => ev := StepDropOne(frame);
        case LargeAlloc(size, align) => ev := StepLargeAlloc(size, align);
        case LargeFree(ptr, size) => ev := StepLargeFree(ptr, size);
      }
    }

    lemma FreeIsUnion()
      requires Valid()
      ensures frames.Free() == State().Free()
    {
    }

    /** In every run each operation does to the books what it has to, and the frames stay
        partitioned, so their numbers add up. A frame that is handed out twice was taken back in
        between, and one taken back twice was handed out in between. */
    method Run(ops: seq<FrameOp>) returns (ghost trace: seq<FrameEvent>, ghost states: seq<Books>)
      requires Valid() && forall i :: 0 <= i < |ops| ==> Legal(ops[i])
      modifies this, large, frames.regions
      ensures Valid()
      ensures |frames.Free()| + |held| + |large.Held()| == |Managed(frames.regions)|
      ensures |trace| == |ops| && |states| == |ops| + 1 && states[0] == old(State()) && states[|ops|] == State()
      ensures forall i :: 0 <= i < |ops| ==> StepAt(ops, trace, states, i)
      ensures forall i, j, f :: 0 <= i < j < |trace| && Gives(trace[i], f) && Gives(trace[j], f) ==>
                exists k :: i < k < j && Takes(trace[k], f)
      ensures forall i, j, f :: 0 <= i < j < |trace| && Takes(trace[i], f) && Takes(trace[j], f) ==>
                exists k :: i < k < j && Gives(trace[k], f)
    {
      hide FrameAllocator.Valid; hide FrameAllocator.Free; hide Managed; hide Partition; hide HeldBy;
      hide BlocksDisjoint; hide Stepped; hide Moves; hide Books.Free;
      trace, states := [], [State()];
      for n := 0 to |ops|
        invariant Valid() && |trace| == n && |states| == n + 1
        invariant states[0] == old(State()) && states[n] == State()
        invariant forall i :: 0 <= i < n ==> StepAt(ops, trace, states, i)
        invariant Alternates(trace, State().Free())
      {
        ghost var before := State();
        ghost var ev := Step(ops[n]);
        AlternatesNext(trace, before.Free(), ev, State().Free());
        StepsNext(ops, trace, states, ev, State());
        trace, states := trace + [ev], states + [State()];
      }
      PartitionCount(Managed(frames.regions), frames.Free(), held, large.Held());
    }
  }

  datatype Books = Books(homes: seq<set<nat>>, sets: seq<set<nat>>, held: set<nat>, blocks: seq<Block>) {
    ghost function Free(): set<nat> {
      Union(sets)
    }
  }

  /** What the operation makes of the books, and which frames it hands out or takes back. */
  ghost predicate Stepped(op: FrameOp, ev: FrameEvent, s: Books, s': Books)
    requires Legal(op)
  {
    && |s.homes| == |s.sets|
    && match op
       case AllocOne =>
         if s.Free() == {} then ev == Nothing && s' == s
         else && ev.Gave? && |ev.frames| == 1 && TookFirst(s.sets, s'.sets, ev.frames[0])
              && s' == s.(sets := s'.sets, held := s.held + {ev.frames[0]})
       case AllocMany(n) =>
         if (if n > 0 then NoRunAtAll(s.sets, n) else s.Free() == {}) then ev == Nothing && s' == s
         else && ev.Gave? && |ev.frames| == n && Taken(s.sets, s'.sets, ev.frames, n)
              && s' == s.(sets := s'.sets, held := s.held + SeqSet(ev.frames))
       case DropOne(f) =>
         if f in s.held then && ev == TookBack([f])
                             && s' == s.(sets := GiveBack(s.homes, s.sets, {f}), held := s.held - {f})
         else ev == Nothing && s' == s
       case LargeAlloc(size, align) =>
         var n := DivCeil(size, PAGE_SIZE);
         if NoRunAtAll(s.sets, n) || Misaligned(s.sets, n, align) then ev == Nothing && s' == s
         else && ev.Gave? && |ev.frames| > 0 && ev.frames[0] % align == 0
              && ev.frames == BlockFrames(ev.frames[0], size) && Taken(s.sets, s'.sets, ev.frames, n)
              && s' == s.(sets := s'.sets, blocks := s.blocks + [Block(ev.frames[0], size, ev.frames)])
       case LargeFree(ptr, _) =>
         && (forall i :: 0 <= i < |s.blocks| && s.blocks[i].Contains(ptr) ==>
               && ev == TookBack(s.blocks[i].frames)
               && s' == s.(sets := GiveBack(s.homes, s.sets, SeqSet(ev.frames)), blocks := RemoveAt(s.blocks, i)))
         && ((forall i :: 0 <= i < |s.blocks| ==> !s.blocks[i].Contains(ptr)) ==> ev == Nothing && s' == s)
  }

  lemma OneSteps(s: Books, s': Books, r: Option<nat>)
    requires |s.homes| == |s.sets| && (r.None? <==> s.Free() == {}) && (r.None? ==> s' == s)
    requires r.Some? ==> && TookFirst(s.sets, s'.sets, r.value) && r.value in s.Free()
                         && s' == s.(sets := s'.sets, held := s.held + {r.value}) && s'.Free() == s.Free() - {r.value}
    ensures var ev := if r.Some? then Gave([r.value]) else Nothing;
            Stepped(FrameOp.AllocOne, ev, s, s') && Moves(ev, s.Free(), s'.Free())
  {
    hide Union; hide TookFirst;
    if r.Some? {
      OneFrame(r.value);
    }
  }

  lemma ManySteps(s: Books, s': Books, n: nat, r: Option<seq<nat>>)
    requires |s.homes| == |s.sets| && (r.None? ==> s' == s)
    requires r.None? <==> if n > 0 then NoRunAtAll(s.sets, n) else s.Free() == {}
    requires r.Some? ==> && |r.value| == n && Taken(s.sets, s'.sets, r.value, n) && SeqSet(r.value) <= s.Free()
                         && s' == s.(sets := s'.sets, held := s.held + SeqSet(r.value))
                         && s'.Free() == s.Free() - SeqSet(r.value)
    ensures var ev := if r.Some? then Gave(r.value) else Nothing;
            Stepped(FrameOp.AllocMany(n), ev, s, s') && Moves(ev, s.Free(), s'.Free())
  {
    hide Union; hide Taken; hide NoRunAtAll; hide SeqSet;
  }

  lemma DropSteps(s: Books, s': Books, f: nat)
    requires |s.homes| == |s.sets| && (f in s.held ==> f !in s.Free())
    requires s' == if f in s.held then s.(sets := GiveBack(s.homes, s.sets, {f}), held := s.held - {f}) else s
    requires s'.Free() == s.Free() + if f in s.held then {f} else {}
    ensures var ev := if f in s.held then TookBack([f]) else Nothing;
            Stepped(FrameOp.DropOne(f), ev, s, s') && Moves(ev, s.Free(), s'.Free())
  {
    hide Union; hide GiveBack;
    OneFrame(f);
  }

  lemma LargeSteps(s: Books, s': Books, size: nat, align: nat, r: Option<nat>)
    requires |s.homes| == |s.sets| && size > 0 && align > 0 && (r.None? ==> s' == s)
    requires var n := DivCeil(size, PAGE_SIZE); r.None? <==> NoRunAtAll(s.sets, n) || Misaligned(s.sets, n, align)
    requires r.Some? ==>
               var fs := BlockFrames(r.value, size);
               && r.value % align == 0 && SeqSet(fs) <= s.Free() && Taken(s.sets, s'.sets, fs, DivCeil(size, PAGE_SIZE))
               && s' == s.(sets := s'.sets, blocks := s.blocks + [Block(r.value, size, fs)])
               && s'.Free() == s.Free() - SeqSet(fs)
    ensures var ev := if r.Some? then Gave(BlockFrames(r.value, size)) else Nothing;
            Stepped(FrameOp.LargeAlloc(size, align), ev, s, s') && Moves(ev, s.Free(), s'.Free())
  {
    hide Union; hide Taken; hide NoRunAtAll; hide SeqSet; hide Misaligned;
  }

  lemma FreeSteps(s: Books, s': Books, ptr: nat, size: nat, released: seq<nat>) returns (ev: FrameEvent)
    requires |s.homes| == |s.sets|
    requires SeqSet(released) !! s.Free() && s'.Free() == s.Free() + SeqSet(released)
    requires forall i :: 0 <= i < |s.blocks| && s.blocks[i].Contains(ptr) ==>
               && released == s.blocks[i].frames
               && s' == s.(sets := GiveBack(s.homes, s.sets, SeqSet(released)), blocks := RemoveAt(s.blocks, i))
    requires (forall i :: 0 <= i < |s.blocks| ==> !s.blocks[i].Contains(ptr)) ==> released == [] && s' == s
    ensures Stepped(FrameOp.LargeFree(ptr, size), ev, s, s') && Moves(ev, s.Free(), s'.Free())
  {
    hide Union; hide GiveBack; hide RemoveAt;
    ev := if exists i :: 0 <= i < |s.blocks| && s.blocks[i].Contains(ptr) then TookBack(released) else Nothing;
  }

  /** The books before an operation determine its event and the books after it. */
  lemma SteppedUnique(op: FrameOp, s: Books, ev: FrameEvent, t: Books, ev': FrameEvent, t': Books)
    requires Legal(op) && Stepped(op, ev, s, t) && Stepped(op, ev', s, t')
    ensures ev == ev' && t == t'
  {
    hide GiveBack; hide Union; hide Misaligned; hide NoRunAtAll; hide TookFirst; hide Taken; hide SeqSet;
    match op
    case AllocOne =>
      if s.Free() != {} {
        TookFirstUnique(s.sets, t.sets, ev.frames[0], t'.sets, ev'.frames[0]);
        assert ev.frames == ev'.frames;
      }
    case AllocMany(n) =>
      if n == 0 {
        if s.Free() != {} {
          TakenNone(s.sets, t.sets, ev.frames);
          TakenNone(s.sets, t'.sets, ev'.frames);
        }
      } else if !NoRunAtAll(s.sets, n) {
        TakenUnique(s.sets, t.sets, ev.frames, t'.sets, ev'.frames, n);
      }
    case DropOne(f) =>
    case LargeAlloc(size, align) =>
      var n := DivCeil(size, PAGE_SIZE);
      if !(NoRunAtAll(s.sets, n) || Misaligned(s.sets, n, align)) {
        TakenUnique(s.sets, t.sets, ev.frames, t'.sets, ev'.frames, n);
      }
    case LargeFree(ptr, _) =>
      if i :| 0 <= i < |s.blocks| && s.blocks[i].Contains(ptr) {
      }
  }

  /** The first books determine every event and all books of a run. */
  lemma {:induction false} RunUnique(ops: seq<FrameOp>, trace: seq<FrameEvent>, states: seq<Books>,
                                     trace': seq<FrameEvent>, states': seq<Books>, n: nat)
    requires n <= |ops| == |trace| == |trace'| && |states| == |states'| == |ops| + 1
    requires forall i :: 0 <= i < |ops| ==> Legal(ops[i])
    requires forall i :: 0 <= i < |ops| ==> StepAt(ops, trace, states, i) && StepAt(ops, trace', states', i)
    requires states[0] == states'[0]
    ensures trace[..n] == trace'[..n] && states[..n + 1] == states'[..n + 1]
    decreases n
  {
    if n > 0 {
      RunUnique(ops, trace, states, trace', states', n - 1);
      hide Stepped; hide Moves;
      assert states[..n][n - 1] == states[n - 1] && states'[..n][n - 1] == states'[n - 1];
      assert StepAt(ops, trace, states, n - 1) && StepAt(ops, trace', states', n - 1);
      SteppedUnique(ops[n - 1], states[n - 1], trace[n - 1], states[n], trace'[n - 1], states'[n]);
      assert trace[..n] == trace[..n - 1] + [trace[n - 1]] && trace'[..n] == trace'[..n - 1] + [trace'[n - 1]];
      assert states[..n + 1] == states[..n] + [states[n]] && states'[..n + 1] == states'[..n] + [states'[n]];
    }
  }

  ghost predicate StepAt(ops: seq<FrameOp>, trace: seq<FrameEvent>, states: seq<Books>, i: nat)
    requires i < |ops| && i < |trace| && i + 1 < |states| && Legal(ops[i])
  {
    && Stepped(ops[i], trace[i], states[i], states[i + 1])
    && Moves(trace[i], states[i].Free(), states[i + 1].Free())
  }

  lemma StepsNext(ops: seq<FrameOp>, trace: seq<FrameEvent>, states: seq<Books>, ev: FrameEvent, s: Books)
    requires |trace| < |ops| && |states| == |trace| + 1 && forall i :: 0 <= i < |ops| ==> Legal(ops[i])
    requires forall i :: 0 <= i < |trace| ==> StepAt(ops, trace, states, i)
    requires Stepped(ops[|trace|], ev, states[|trace|], s) && Moves(ev, states[|trace|].Free(), s.Free())
    ensures forall i :: 0 <= i <= |trace| ==> StepAt(ops, trace + [ev], states + [s], i)
  {
    hide Stepped; hide Moves; hide Books.Free;
    forall i | 0 <= i < |trace| ensures StepAt(ops, trace + [ev], states + [s], i) {
      assert StepAt(ops, trace, states, i);
    }
  }

  /** The frames a step hands out or takes back. */
  datatype FrameEvent = Gave(frames: seq<nat>) | TookBack(frames: seq<nat>) | Nothing

  ghost predicate Gives(ev: FrameEvent, f: nat) {
    ev.Gave? && f in ev.frames
  }

  ghost predicate Takes(ev: FrameEvent, f: nat) {
    ev.TookBack? && f in ev.frames
  }

  /** The frames of a block at `addr`. */
  ghost function BlockFrames(addr: nat, size: nat): (fs: seq<nat>)
    ensures |fs| == DivCeil(size, PAGE_SIZE) && forall j :: 0 <= j < |fs| ==> fs[j] == addr + j * PAGE_SIZE
  {
    seq(DivCeil(size, PAGE_SIZE), j requires 0 <= j => addr + j * PAGE_SIZE)
  }

  /** What an event does to the free frames. */
  ghost predicate Moves(ev: FrameEvent, free: set<nat>, free': set<nat>) {
    match ev
    case Gave(fs) => SeqSet(fs) <= free && free' == free - SeqSet(fs)
    case TookBack(fs) => SeqSet(fs) !! free && free' == free + SeqSet(fs)
    case Nothing => free' == free
  }

  lemma OneFrame(f: nat)
    ensures SeqSet([f]) == {f}
  {
  }

  lemma HeldNotFree(all: set<nat>, a: set<nat>, b: set<nat>, c: set<nat>, x: nat)
    requires Partition(all, a, b, c) && x in b
    ensures x !in a
  {
  }

  ghost predicate TakenBetween(trace: seq<FrameEvent>, i: nat, j: nat, f: nat)
    requires j <= |trace|
  {
    exists k :: i < k < j && Takes(trace[k], f)
  }

  ghost predicate GivenBetween(trace: seq<FrameEvent>, i: nat, j: nat, f: nat)
    requires j <= |trace|
  {
    exists k :: i < k < j && Gives(trace[k], f)
  }

  /** Handing out and taking back alternate for every frame, and the free frames are those
      taken back last. */
  ghost predicate Alternates(trace: seq<FrameEvent>, free: set<nat>) {
    && (forall i: nat, f :: i < |trace| && Gives(trace[i], f) && f in free ==> TakenBetween(trace, i, |trace|, f))
    && (forall i: nat, f :: i < |trace| && Takes(trace[i], f) && f !in free ==> GivenBetween(trace, i, |trace|, f))
    && (forall i: nat, j: nat, f :: i < j < |trace| && Gives(trace[i], f) && Gives(trace[j], f) ==>
        TakenBetween(trace, i, j, f))
    && (forall i: nat, j: nat, f :: i < j < |trace| && Takes(trace[i], f) && Takes(trace[j], f) ==>
        GivenBetween(trace, i, j, f))
  }

  lemma BetweenStays(trace: seq<FrameEvent>, ev: FrameEvent, i: nat, j: nat, f: nat)
    requires j <= |trace|
    ensures TakenBetween(trace, i, j, f) ==>
            TakenBetween(trace + [ev], i, j, f) && TakenBetween(trace + [ev], i, j + 1, f)
    ensures GivenBetween(trace, i, j, f) ==>
            GivenBetween(trace + [ev], i, j, f) && GivenBetween(trace + [ev], i, j + 1, f)
  {
    if k :| i < k < j && Takes(trace[k], f) {
      assert Takes((trace + [ev])[k], f);
    }
    if k :| i < k < j && Gives(trace[k], f) {
      assert Gives((trace + [ev])[k], f);
    }
  }

  lemma AlternatesNext(trace: seq<FrameEvent>, free: set<nat>, ev: FrameEvent, free': set<nat>)
    requires Alternates(trace, free) && Moves(ev, free, free')
    ensures Alternates(trace + [ev], free')
  {
    var n, t := |trace|, trace + [ev];
    assert t[n] == ev;
    hide Moves;
    forall i: nat, f | i < |t| && Gives(t[i], f) && f in free' ensures TakenBetween(t, i, |t|, f) {
      GivenThenFree(trace, free, ev, free', i, f);
    }
    forall i: nat, f | i < |t| && Takes(t[i], f) && f !in free' ensures GivenBetween(t, i, |t|, f) {
      TakenThenUsed(trace, free, ev, free', i, f);
    }
    forall i: nat, j: nat, f | i < j < |t| && Gives(t[i], f) && Gives(t[j], f) ensures TakenBetween(t, i, j, f) {
      BetweenStays(trace, ev, i, Min(j, n), f);
      GivenWasFree(ev, free, free', f);
      assert Gives(trace[i], f);
    }
    forall i: nat, j: nat, f | i < j < |t| && Takes(t[i], f) && Takes(t[j], f) ensures GivenBetween(t, i, j, f) {
      BetweenStays(trace, ev, i, Min(j, n), f);
      GivenWasFree(ev, free, free', f);
      assert Takes(trace[i], f);
    }
  }

  lemma GivenWasFree(ev: FrameEvent, free: set<nat>, free': set<nat>, f: nat)
    requires Moves(ev, free, free')
    ensures Gives(ev, f) ==> f in free && f !in free'
    ensures Takes(ev, f) ==> f !in free && f in free'
    ensures f in free' && f !in free ==> Takes(ev, f)
    ensures f in free && f !in free' ==> Gives(ev, f)
  {
    assert ev.Gave? && f in ev.frames ==> f in SeqSet(ev.frames);
    assert ev.TookBack? && f in ev.frames ==> f in SeqSet(ev.frames);
  }

  lemma GivenThenFree(trace: seq<FrameEvent>, free: set<nat>, ev: FrameEvent, free': set<nat>, i: nat, f: nat)
    requires Alternates(trace, free) && Moves(ev, free, free')
    requires i <= |trace| && Gives((trace + [ev])[i], f) && f in free'
    ensures TakenBetween(trace + [ev], i, |trace| + 1, f)
  {
    var n, t := |trace|, trace + [ev];
    GivenWasFree(ev, free, free', f);
    assert i < n && Gives(trace[i], f);
    BetweenStays(trace, ev, i, n, f);
    if f !in free {
      assert Takes(t[n], f);
    }
  }

  lemma TakenThenUsed(trace: seq<FrameEvent>, free: set<nat>, ev: FrameEvent, free': set<nat>, i: nat, f: nat)
    requires Alternates(trace, free) && Moves(ev, free, free')
    requires i <= |trace| && Takes((trace + [ev])[i], f) && f !in free'
    ensures GivenBetween(trace + [ev], i, |trace| + 1, f)
  {
    var n, t := |trace|, trace + [ev];
    GivenWasFree(ev, free, free', f);
    assert i < n && Takes(trace[i], f);
    BetweenStays(trace, ev, i, n, f);
    if f in free {
      assert Gives(t[n], f);
    }
  }

  /** The books over one region of memory: everything starts free. */
  method NewLedger(start: nat, end: nat) returns (ledger: FrameLedger)
    requires start % PAGE_SIZE == 0 && end % PAGE_SIZE == 0 && start <= end
    ensures fresh(ledger) && ledger.Valid() && ledger.held == {} && ledger.large.Held() == {}
    ensures ledger.frames.Free() == set p: nat | start <= p < end && p % PAGE_SIZE == 0
  {
    var frames := new FrameAllocator();
    frames.AddMemoryRegion(start, end);
    OneRegionManaged(frames.regions, start, end);
    var large := new LargeAllocator(frames);
    ledger := new FrameLedger(frames, large);
  }

  lemma OneRegionManaged(rs: seq<FrameRegion>, start: nat, end: nat)
    requires |rs| == 1 && rs[0].start == start && rs[0].end == end
    ensures Managed(rs) == set p: nat | start <= p < end && p % PAGE_SIZE == 0
  {
    forall p: nat | start <= p < end && p % PAGE_SIZE == 0 ensures p in Managed(rs) {
      assert p in FramesOf(rs[0]);
    }
  }
}
