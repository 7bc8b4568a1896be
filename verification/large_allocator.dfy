/** The large-block allocator of the kernel heap (`LargeAllocator`), which takes runs of
    frames from the frame allocator, and the account of every frame over whole runs. */
module LargeAllocators {
  import opened Common
  import opened FrameRegions
  import opened FrameAllocators

  datatype Block = Block(addr: nat, size: nat, frames: seq<nat>) {
    predicate Contains(ptr: nat) {
      addr <= ptr < addr + size
    }

    /** The frames are the consecutive pages that hold the block's bytes. */
    ghost predicate WellFormed() {
      && size > 0 && addr % PAGE_SIZE == 0
      && |frames| == DivCeil(size, PAGE_SIZE)
      && forall j :: 0 <= j < |frames| ==> frames[j] == addr + j * PAGE_SIZE
    }
  }

  ghost predicate FramesDisjoint(blocks: seq<Block>) {
    forall i, j :: 0 <= i < j < |blocks| ==> SeqSet(blocks[i].frames) !! SeqSet(blocks[j].frames)
  }

  ghost predicate BlocksDisjoint(blocks: seq<Block>) {
    FramesDisjoint(blocks) && forall i :: 0 <= i < |blocks| ==> blocks[i].WellFormed()
  }

  ghost function HeldBy(blocks: seq<Block>): set<nat> {
    set i, p | 0 <= i < |blocks| && p in blocks[i].frames :: p
  }

  /** A byte of a block lies in one of its frames, so no two blocks contain one address. */
  lemma ContainingBlockUnique(blocks: seq<Block>, i: nat, j: nat, ptr: nat)
    requires BlocksDisjoint(blocks) && i < |blocks| && j < |blocks|
    requires blocks[i].Contains(ptr) && blocks[j].Contains(ptr)
    ensures i == j
  {
    FrameOfByte(blocks[i], ptr);
    FrameOfByte(blocks[j], ptr);
    assert PageAlignDown(ptr) in SeqSet(blocks[i].frames) * SeqSet(blocks[j].frames);
  }

  lemma FrameOfByte(b: Block, ptr: nat)
    requires b.WellFormed() && b.Contains(ptr)
    ensures PageAlignDown(ptr) in b.frames
  {
    var k := (ptr - b.addr) / PAGE_SIZE;
    assert b.frames[k] == b.addr + k * PAGE_SIZE;
  }

  lemma HeldByWithout(blocks: seq<Block>, i: nat)
    requires i < |blocks| && BlocksDisjoint(blocks)
    ensures BlocksDisjoint(RemoveAt(blocks, i))
    ensures HeldBy(RemoveAt(blocks, i)) == HeldBy(blocks) - SeqSet(blocks[i].frames)
  {
    var rest := RemoveAt(blocks, i);
    forall p | p in HeldBy(rest) ensures p in HeldBy(blocks) - SeqSet(blocks[i].frames) {
      var k :| 0 <= k < |rest| && p in rest[k].frames;
      var k' := if k < i then k else k + 1;
      assert p in SeqSet(blocks[k'].frames);
      assert SeqSet(blocks[k'].frames) !! SeqSet(blocks[i].frames);
    }
    forall p | p in HeldBy(blocks) - SeqSet(blocks[i].frames) ensures p in HeldBy(rest) {
      var k :| 0 <= k < |blocks| && p in blocks[k].frames;
      assert p in rest[if k < i then k else k - 1].frames;
    }
  }

  lemma HeldByAppend(blocks: seq<Block>, b: Block)
    ensures HeldBy(blocks + [b]) == HeldBy(blocks) + SeqSet(b.frames)
  {
    var more := blocks + [b];
    forall p | p in HeldBy(blocks) + SeqSet(b.frames) ensures p in HeldBy(more) {
      if p in b.frames {
        assert p in more[|blocks|].frames;
      } else {
        var k :| 0 <= k < |blocks| && p in blocks[k].frames;
        assert p in more[k].frames;
      }
    }
    forall p | p in HeldBy(more) ensures p in HeldBy(blocks) + SeqSet(b.frames) {
      var k :| 0 <= k < |more| && p in more[k].frames;
      assert k < |blocks| ==> p in blocks[k].frames;
    }
  }

  lemma AppendDisjoint(blocks: seq<Block>, b: Block)
    requires BlocksDisjoint(blocks) && b.WellFormed() && HeldBy(blocks) !! SeqSet(b.frames)
    ensures BlocksDisjoint(blocks + [b])
  {
    var more := blocks + [b];
    forall i, j | 0 <= i < j < |more| ensures SeqSet(more[i].frames) !! SeqSet(more[j].frames) {
      if j == |blocks| {
        forall p | p in more[i].frames ensures p in HeldBy(blocks) {
          assert p in blocks[i].frames;
        }
      }
    }
  }

  lemma {:induction false} DistinctFrames(b: Block, n: nat)
    requires b.WellFormed() && n <= |b.frames|
    ensures |SeqSet(b.frames[..n])| == n
    decreases n
  {
    if n > 0 {
      DistinctFrames(b, n - 1);
      assert SeqSet(b.frames[..n]) == SeqSet(b.frames[..n - 1]) + {b.frames[n - 1]};
      assert b.frames[n - 1] !in b.frames[..n - 1];
    } else {
      assert SeqSet(b.frames[..0]) == {};
    }
  }

  lemma DisjointFromPrefix(blocks: seq<Block>, i: nat)
    requires FramesDisjoint(blocks) && i < |blocks|
    ensures HeldBy(blocks[..i]) !! SeqSet(blocks[i].frames)
  {
    forall p | p in HeldBy(blocks[..i]) ensures p !in SeqSet(blocks[i].frames) {
      var k :| 0 <= k < i && p in blocks[..i][k].frames;
      assert p in SeqSet(blocks[k].frames);
      assert SeqSet(blocks[k].frames) !! SeqSet(blocks[i].frames);
    }
  }

  lemma HeldByPrefix(blocks: seq<Block>, i: nat)
    requires FramesDisjoint(blocks) && i < |blocks|
    requires |SeqSet(blocks[i].frames)| == |blocks[i].frames|
    ensures |HeldBy(blocks[..i + 1])| == |HeldBy(blocks[..i])| + |blocks[i].frames|
  {
    HeldByAppend(blocks[..i], blocks[i]);
    assert blocks[..i + 1] == blocks[..i] + [blocks[i]];
    DisjointFromPrefix(blocks, i);
  }

  method CountPages(blocks: seq<Block>) returns (pages: nat)
    requires BlocksDisjoint(blocks)
    ensures pages == |HeldBy(blocks)|
  {
    pages := 0;
    for i := 0 to |blocks|
      invariant pages == |HeldBy(blocks[..i])|
    {
      DistinctFrames(blocks[i], |blocks[i].frames|);
      assert blocks[i].frames[..|blocks[i].frames|] == blocks[i].frames;
      HeldByPrefix(blocks, i);
      pages := pages + |blocks[i].frames|;
    }
    assert blocks[..|blocks|] == blocks;
  }

  lemma PageAligned(addr: nat, align: nat)
    requires align > 0 && PAGE_SIZE % align == 0 && addr % PAGE_SIZE == 0
    ensures addr % align == 0
  {
    var a, b := PAGE_SIZE / align, addr / PAGE_SIZE;
    assert addr == b * PAGE_SIZE && PAGE_SIZE == a * align;
    assert addr == (b * a) * align;
    RestIsUnique(addr, b * a, 0, align);
  }

  lemma RestIsUnique(x: int, q: int, r: int, a: int)
    requires a > 0 && 0 <= r < a && x == q * a + r
    ensures x % a == r
  {
    var q', r' := x / a, x % a;
    assert x == q' * a + r';
    assert (q - q') * a == r' - r;
    assert q - q' >= 1 ==> (q - q') * a >= a;
    assert q - q' <= -1 ==> (q - q') * a <= -a;
  }

  /** The lowest run of the first region that has one starts off the alignment. */
  ghost predicate Misaligned(ss: seq<set<nat>>, n: nat, align: nat)
    requires align > 0
  {
    exists ss', fs :: Taken(ss, ss', fs, n) && |fs| > 0 && fs[0] % align != 0
  }

  lemma ChosenDecides(ss: seq<set<nat>>, ss': seq<set<nat>>, fs: seq<nat>, n: nat, align: nat)
    requires Taken(ss, ss', fs, n) && n > 0 && |fs| == n && align > 0
    ensures Misaligned(ss, n, align) <==> fs[0] % align != 0
  {
    if Misaligned(ss, n, align) {
      var tt, gs :| Taken(ss, tt, gs, n) && |gs| > 0 && gs[0] % align != 0;
      TakenUnique(ss, ss', fs, tt, gs, n);
    }
  }

  /** An alignment that divides the page size is never missed. */
  lemma NeverMisaligned(ss: seq<set<nat>>, n: nat, align: nat)
    requires align > 0 && PAGE_SIZE % align == 0
    requires forall i, p :: 0 <= i < |ss| && p in ss[i] ==> p % PAGE_SIZE == 0
    ensures !Misaligned(ss, n, align)
  {
    if Misaligned(ss, n, align) {
      var tt, fs :| Taken(ss, tt, fs, n) && |fs| > 0 && fs[0] % align != 0;
      var i: nat :| Chosen(ss, i, fs, n) && tt == ss[i := ss[i] - SeqSet(fs)];
      assert fs[0] in ss[i];
      PageAligned(fs[0], align);
    }
  }

  class LargeAllocator {
    var allocations: seq<Block>
    const frames: FrameAllocator

    ghost predicate Valid()
      reads this, frames, frames.regions
    {
      && frames.Valid()
      && BlocksDisjoint(allocations)
      && Held() !! frames.Free()
      && Held() <= Managed(frames.regions)
    }

    /** The frames of the live blocks. */
    ghost function Held(): set<nat>
      reads this
    {
      HeldBy(allocations)
    }

    constructor (frames: FrameAllocator)
      requires frames.Valid()
      ensures Valid() && this.frames == frames && allocations == []
    {
      this.frames := frames;
      allocations := [];
    }

    /** Takes the first run of frames that holds `size` bytes. If its address is not a multiple
        of `align` it is given back, and the request fails, although another run might do. */
    method Alloc(size: nat, align: nat) returns (r: Option<nat>)
      requires Valid() && size > 0 && align > 0
      modifies this, frames.regions
      ensures Valid()
      ensures r.None? ==> allocations == old(allocations) && frames.Free() == old(frames.Free())
                          && frames.Sets() == old(frames.Sets())
      ensures r.None? <==> || old(frames.NoRun(DivCeil(size, PAGE_SIZE)))
                           || Misaligned(old(frames.Sets()), DivCeil(size, PAGE_SIZE), align)
      ensures r.Some? ==> r.value % align == 0 && |allocations| == |old(allocations)| + 1
      ensures r.Some? ==>
                var block := allocations[|old(allocations)|];
                && allocations == old(allocations) + [block]
                && block.addr == r.value && block.size == size
                && SeqSet(block.frames) <= old(frames.Free())
                && Taken(old(frames.Sets()), frames.Sets(), block.frames, DivCeil(size, PAGE_SIZE))
                && frames.Free() == old(frames.Free()) - SeqSet(block.frames)
                && Held() == old(Held()) + SeqSet(block.frames)
    {
      hide FrameAllocator.Valid; hide FrameAllocator.Free; hide Managed; hide FrameAllocator.NoRun;
      hide FrameAllocator.Sets; hide Taken; hide Misaligned; hide AtHome; hide GiveBack;
      FreeAtHome(frames);
      var trackers := frames.FrameAllocMuch(DivCeil(size, PAGE_SIZE));
      if trackers.None? {
        return None;
      }
      var addr := trackers.value[0];
      ChosenDecides(old(frames.Sets()), frames.Sets(), trackers.value, DivCeil(size, PAGE_SIZE), align);
      if addr % align != 0 {
        GiveBackTaken(Homes(frames.regions), old(frames.Sets()), frames.Sets(), trackers.value,
                      DivCeil(size, PAGE_SIZE));
        frames.DropTrackers(trackers.value);
        return None;
      }
      var block := Block(addr, size, trackers.value);
      HeldByAppend(allocations, block);
      AppendDisjoint(allocations, block);
      allocations := allocations + [block];
      return Some(addr);
    }

    /** Releases the block that contains `ptr`, whether or not `size` is the size it was
        requested with, and nothing when no block contains it. */
    method Dealloc(ptr: nat, size: nat)
      requires Valid()
      modifies this, frames.regions
      ensures Valid()
      ensures forall i :: 0 <= i < |old(allocations)| && old(allocations)[i].Contains(ptr) ==>
                && allocations == RemoveAt(old(allocations), i)
                && frames.Free() == old(frames.Free()) + SeqSet(old(allocations)[i].frames)
                && frames.Sets()
                   == GiveBack(Homes(frames.regions), old(frames.Sets()), SeqSet(old(allocations)[i].frames))
                && Held() == old(Held()) - SeqSet(old(allocations)[i].frames)
      ensures (forall i :: 0 <= i < |old(allocations)| ==> !old(allocations)[i].Contains(ptr)) ==>
                && allocations == old(allocations) && frames.Free() == old(frames.Free())
                && frames.Sets() == old(frames.Sets())
    {
      for i := 0 to |allocations|
        invariant allocations == old(allocations) && unchanged(frames.regions)
      {
        if allocations[i].addr == ptr && allocations[i].size == size {
          Remove(i, ptr);
          return;
        }
      }
      for i := 0 to |allocations|
        invariant allocations == old(allocations) && unchanged(frames.regions)
        invariant forall j :: 0 <= j < i ==> !allocations[j].Contains(ptr)
      {
        if allocations[i].Contains(ptr) {
          Remove(i, ptr);
          return;
        }
      }
    }

    /** Removes block `i` and drops its trackers. */
    method Remove(i: nat, ghost ptr: nat)
      requires Valid() && i < |allocations| && allocations[i].Contains(ptr)
      modifies this, frames.regions
      ensures Valid()
      ensures allocations == RemoveAt(old(allocations), i)
      ensures frames.Free() == old(frames.Free()) + SeqSet(old(allocations)[i].frames)
      ensures frames.Sets() == GiveBack(Homes(frames.regions), old(frames.Sets()), SeqSet(old(allocations)[i].frames))
      ensures Held() == old(Held()) - SeqSet(old(allocations)[i].frames)
      ensures forall j :: 0 <= j < |old(allocations)| && old(allocations)[j].Contains(ptr) ==> j == i
    {
      forall j | 0 <= j < |allocations| && allocations[j].Contains(ptr) ensures j == i {
        ContainingBlockUnique(allocations, i, j, ptr);
      }
      HeldByWithout(allocations, i);
      var dropped := allocations[i].frames;
      forall k | 0 <= k < |dropped| ensures dropped[k] in Managed(frames.regions) {
        assert dropped[k] in allocations[i].frames;
        assert dropped[k] in Held();
      }
      allocations := RemoveAt(allocations, i);
      frames.DropTrackers(dropped);
    }

    /** The number of live blocks and the number of frames they hold. */
    method GetAllocationStats() returns (blocks: nat, pages: nat)
      requires Valid()
      ensures blocks == |allocations| && pages == |Held()|
    {
      blocks := |allocations|;
      pages := CountPages(allocations);
    }
  }

  /** Sixty-six free frames and a request for sixty-five: the run that starts at the second frame
      would do, but the one at the first is tried and the request fails. */
  method MisalignedFails() returns (frames: FrameAllocator, r: Option<nat>)
    ensures frames.Valid() && r == None && RunIn(frames.Free(), 0x2000, DivCeil(0x41000, PAGE_SIZE))
  {
    frames := new FrameAllocator();
    frames.AddMemoryRegion(0x1000, 0x43000);
    var large := new LargeAllocator(frames);
    FirstIsMisaligned(frames.Sets());
    SecondIsRun(frames.Free());
    hide FrameAllocator.Valid; hide FrameAllocator.Free; hide Managed; hide FrameAllocator.NoRun;
    hide FrameAllocator.Sets; hide Misaligned; hide RunIn;
    r := large.Alloc(0x41000, 0x2000);
  }

  lemma FirstIsMisaligned(ss: seq<set<nat>>)
    requires ss == [set p: nat | 0x1000 <= p < 0x43000 && p % PAGE_SIZE == 0]
    ensures Misaligned(ss, DivCeil(0x41000, PAGE_SIZE), 0x2000)
  {
    var n := DivCeil(0x41000, PAGE_SIZE);
    var fs: seq<nat> := seq(n, j requires 0 <= j => 0x1000 + j * PAGE_SIZE);
    forall j | 0 <= j < n ensures fs[j] in ss[0] && fs[j] == fs[0] + j * PAGE_SIZE {
    }
    forall p: nat | p < 0x1000 ensures !RunIn(ss[0], p, n) {
      assert p + 0 * PAGE_SIZE !in ss[0];
    }
    assert Chosen(ss, 0, fs, n);
    assert Taken(ss, ss[0 := ss[0] - SeqSet(fs)], fs, n);
  }

  lemma SecondIsRun(free: set<nat>)
    requires free == set p: nat | 0x1000 <= p < 0x43000 && p % PAGE_SIZE == 0
    ensures RunIn(free, 0x2000, DivCeil(0x41000, PAGE_SIZE))
  {
  }
}
