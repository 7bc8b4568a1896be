/** Multi-page allocation for a user task (`UserTask::frame_alloc`, `map_frames`): one run of
    frames if there is one, otherwise segments. */
module UserAllocs {
  import opened Common
  import opened FrameAllocators
  import opened MemAreas

  const STACK_AREA_START: nat := 0x7000_0000
  const STACK_AREA_LEN: nat := 0x1000_0000

  /** Half of what remains, at least one page and at most 16. */
  function SegmentSize(remaining: nat): (n: nat)
    requires remaining > 0
    ensures 1 <= n <= 16 && n <= remaining
    ensures if remaining >= 32 then n == 16 else remaining > 1 ==> 2 * n <= remaining < 2 * n + 2
  {
    Min(Max(remaining / 2, 1), 16)
  }

  /** The address of the `i`th page; address 0 asks for pages that are not mapped. */
  function PageAt(vaddr: nat, i: nat): nat {
    if vaddr == 0 then 0 else vaddr + i * PAGE_SIZE
  }

  function Frames(ts: seq<MapTrack>): (fs: seq<nat>)
    ensures |fs| == |ts| && forall i :: 0 <= i < |ts| ==> fs[i] == ts[i].frame
  {
    seq(|ts|, i requires 0 <= i < |ts| => ts[i].frame)
  }

  /** Trackers for consecutive pages from `vaddr`, with distinct frames out of `free`. */
  ghost predicate FreshRun(ts: seq<MapTrack>, vaddr: nat, free: set<nat>) {
    && (forall i :: 0 <= i < |ts| ==> ts[i].vaddr == PageAt(vaddr, i) && ts[i].frame in free)
    && forall i, j :: 0 <= i < j < |ts| ==> ts[i].frame != ts[j].frame
  }

  function TracksFor(vaddr: nat, fs: seq<nat>): (ts: seq<MapTrack>)
    ensures |ts| == |fs|
    ensures forall i :: 0 <= i < |fs| ==> ts[i] == MapTrack(PageAt(vaddr, i), fs[i])
  {
    seq(|fs|, i requires 0 <= i < |fs| => MapTrack(PageAt(vaddr, i), fs[i]))
  }

  /** A further segment continues the run of pages. */
  lemma AppendRun(ts: seq<MapTrack>, vaddr: nat, fs: seq<nat>, free: set<nat>)
    requires FreshRun(ts, vaddr, free) && SeqSet(fs) <= free - SeqSet(Frames(ts))
    requires forall j :: 0 <= j < |fs| ==> fs[j] == fs[0] + j * PAGE_SIZE
    ensures FreshRun(ts + TracksFor(PageAt(vaddr, |ts|), fs), vaddr, free)
    ensures SeqSet(Frames(ts + TracksFor(PageAt(vaddr, |ts|), fs))) == SeqSet(Frames(ts)) + SeqSet(fs)
  {
    var more := TracksFor(PageAt(vaddr, |ts|), fs);
    var all := ts + more;
    assert Frames(all) == Frames(ts) + fs;
    forall i | 0 <= i < |ts| ensures Frames(ts)[i] in SeqSet(Frames(ts)) {
    }
    forall j | 0 <= j < |fs| ensures fs[j] in SeqSet(fs) {
    }
    forall i | 0 <= i < |all| ensures all[i].vaddr == PageAt(vaddr, i) && all[i].frame in free {
      if i >= |ts| {
        assert all[i] == more[i - |ts|] && fs[i - |ts|] in free;
      }
    }
    forall i, j | 0 <= i < j < |all| ensures all[i].frame != all[j].frame {
      if i < |ts| <= j {
        assert fs[j - |ts|] !in SeqSet(Frames(ts)) && Frames(ts)[i] in SeqSet(Frames(ts));
      }
    }
  }

  /** A run of frames by itself. */
  lemma FirstRun(vaddr: nat, fs: seq<nat>, free: set<nat>)
    requires SeqSet(fs) <= free && forall j :: 0 <= j < |fs| ==> fs[j] == fs[0] + j * PAGE_SIZE
    ensures FreshRun(TracksFor(vaddr, fs), vaddr, free) && Frames(TracksFor(vaddr, fs)) == fs
  {
    AppendRun([], vaddr, fs, free);
    assert [] + TracksFor(vaddr, fs) == TracksFor(vaddr, fs);
  }

  /** `n` pages can be had in segments, each the first run the allocator finds. */
  ghost predicate Segmentable(ss: seq<set<nat>>, n: nat)
    decreases n
  {
    || n == 0
    || exists ss', fs :: Taken(ss, ss', fs, SegmentSize(n)) && Segmentable(ss', n - SegmentSize(n))
  }

  /** After a segment the question is the same for the rest. */
  lemma SegmentNext(ss: seq<set<nat>>, ss': seq<set<nat>>, fs: seq<nat>, n: nat)
    requires n > 0 && Taken(ss, ss', fs, SegmentSize(n))
    ensures Segmentable(ss, n) <==> Segmentable(ss', n - SegmentSize(n))
  {
    if Segmentable(ss, n) {
      var tt, gs :| Taken(ss, tt, gs, SegmentSize(n)) && Segmentable(tt, n - SegmentSize(n));
      TakenUnique(ss, ss', fs, tt, gs, SegmentSize(n));
    }
  }

  lemma NothingLeft(ss: seq<set<nat>>)
    ensures Segmentable(ss, 0)
  {
  }

  lemma SegmentStuck(ss: seq<set<nat>>, n: nat)
    requires n > 0 && NoRunAtAll(ss, SegmentSize(n))
    ensures !Segmentable(ss, n)
  {
    if Segmentable(ss, n) {
      var ss', fs :| Taken(ss, ss', fs, SegmentSize(n)) && Segmentable(ss', n - SegmentSize(n));
      var i: nat :| Chosen(ss, i, fs, SegmentSize(n)) && ss' == ss[i := ss[i] - SeqSet(fs)];
      ChosenRefutes(ss, i, fs, SegmentSize(n));
    }
  }

  datatype AllocResult = Allocated(frame: nat) | NoFrames | Panic

  class UserTask {
    const frames: FrameAllocator
    var areas: seq<MemArea>
    /** The page table: which frame each page is mapped to. */
    var table: map<nat, nat>

    constructor (frames: FrameAllocator)
      ensures this.frames == frames && areas == [] && table == map[]
    {
      this.frames := frames;
      areas, table := [], map[];
    }

    /** Maps the pages of the trackers, except page 0. */
    method MapAll(ts: seq<MapTrack>)
      modifies this`table
      ensures table == MapTracks(old(table), ts)
    {
      for i := 0 to |ts|
        invariant table == MapTracks(old(table), ts[..i])
      {
        assert ts[..i + 1][..i] == ts[..i];
        if ts[i].vaddr != 0 {
          table := table[ts[i].vaddr := ts[i].frame];
        }
      }
      assert ts[..|ts|] == ts;
    }

    /** Drops the trackers taken so far. */
    method ReturnAll(ts: seq<MapTrack>, ghost vaddr: nat, ghost free: set<nat>)
      requires frames.Valid() && FreshRun(ts, vaddr, free) && free <= Managed(frames.regions)
      requires frames.Free() == free - SeqSet(Frames(ts))
      modifies frames.regions
      ensures frames.Valid() && frames.Free() == free
    {
      hide FrameAllocator.Valid; hide FrameAllocator.Free; hide Managed; hide FrameAllocator.Sets; hide FreshRun;
      hide GiveBack;
      RunIsTaken(ts, vaddr, free);
      forall j | 0 <= j < |ts| ensures Frames(ts)[j] in Managed(frames.regions) {
        assert Frames(ts)[j] in SeqSet(Frames(ts));
      }
      frames.DropTrackers(Frames(ts));
    }

    /** Trackers for `count` pages from segments of at most 16 pages. When a segment cannot be
        had, the frames taken so far go back. */
    method AllocSegmented(vaddr: nat, count: nat) returns (r: Option<seq<MapTrack>>)
      requires frames.Valid()
      modifies frames.regions
      ensures frames.Valid()
      ensures r.Some? <==> Segmentable(old(frames.Sets()), count)
      ensures r.None? ==> frames.Free() == old(frames.Free())
      ensures r.Some? ==> && |r.value| == count && FreshRun(r.value, vaddr, old(frames.Free()))
                          && frames.Free() == old(frames.Free()) - SeqSet(Frames(r.value))
    {
      hide FrameAllocator.Valid; hide FrameAllocator.Free; hide Managed; hide FrameAllocator.Sets;
      hide Segmentable; hide Taken; hide NoRunAtAll; hide SegmentSize;
      FreeIsManaged(frames);
      var ts: seq<MapTrack> := [];
      var remaining := count;
      var current := vaddr;
      while remaining > 0
        invariant frames.Valid()
        invariant remaining >= 0 && |ts| + remaining == count && current == PageAt(vaddr, |ts|)
        invariant FreshRun(ts, vaddr, old(frames.Free())) && old(frames.Free()) <= Managed(frames.regions)
        invariant frames.Free() == old(frames.Free()) - SeqSet(Frames(ts))
        invariant Segmentable(old(frames.Sets()), count) <==> Segmentable(frames.Sets(), remaining)
        decreases remaining
      {
        ghost var sets := frames.Sets();
        var size := SegmentSize(remaining);
        var run := frames.FrameAllocMuch(size);
        if run.None? {
          SegmentStuck(sets, remaining);
          ReturnAll(ts, vaddr, old(frames.Free()));
          return None;
        }
        SegmentNext(sets, frames.Sets(), run.value, remaining);
        AppendRun(ts, vaddr, run.value, old(frames.Free()));
        ts := ts + TracksFor(current, run.value);
        remaining := remaining - size;
        if current != 0 {
          current := current + size * PAGE_SIZE;
        }
      }
      NothingLeft(frames.Sets());
      return Some(ts);
    }

    /** `frame_alloc`: installs exactly `count` trackers at consecutive pages, or leaves the
        task and the free frames as they were. The trackers make a new area, except that those of
        a stack go to the first stack area if there is one. It asserts a positive count, and
        mapping a page asserts its alignment. */
    method FrameAlloc(vaddr: nat, mtype: MemType, count: nat) returns (r: AllocResult, ghost ts: seq<MapTrack>)
      requires frames.Valid()
      modifies this, frames.regions
      ensures frames.Valid()
      ensures !r.Allocated? ==> areas == old(areas) && table == old(table)
      ensures r.NoFrames? ==> frames.Free() == old(frames.Free())
      ensures r.NoFrames? <==> && count > 0 && old(frames.NoRun(count))
                               && !(mtype == Mmap && count > 1 && Segmentable(old(frames.Sets()), count))
      ensures r.Panic? <==> count == 0 || (vaddr % PAGE_SIZE != 0 && !r.NoFrames?)
      ensures r.Allocated? ==> |ts| == count && r.frame == ts[0].frame
      ensures r.Allocated? ==> forall i :: 0 <= i < count ==>
                && ts[i].vaddr == (if vaddr == 0 then 0 else vaddr + i * PAGE_SIZE)
                && ts[i].frame in old(frames.Free()) && forall j :: 0 <= j < i ==> ts[j].frame != ts[i].frame
      ensures r.Allocated? ==> frames.Free() == old(frames.Free()) - set i | 0 <= i < count :: ts[i].frame
      ensures r.Allocated? && mtype != Stack ==>
                areas == old(areas) + [MemArea(mtype, ts, false, vaddr, count * PAGE_SIZE)]
      ensures r.Allocated? && mtype == Stack && (forall i :: 0 <= i < |old(areas)| ==> old(areas)[i].mtype != Stack) ==>
                areas == old(areas) + [MemArea(Stack, ts, false, 0x7000_0000, 0x1000_0000)]
      ensures r.Allocated? && mtype == Stack ==> forall i ::
                && 0 <= i < |old(areas)| && old(areas)[i].mtype == Stack
                && (forall j :: 0 <= j < i ==> old(areas)[j].mtype != Stack) ==>
                  areas == old(areas)[i := old(areas)[i].(tracks := old(areas)[i].tracks + ts)]
      ensures r.Allocated? && vaddr == 0 ==> table == old(table)
      ensures r.Allocated? && vaddr > 0 ==>
                && (forall i :: 0 <= i < count ==> ts[i].vaddr in table && table[ts[i].vaddr] == ts[i].frame)
                && forall v :: (forall i :: 0 <= i < count ==> ts[i].vaddr != v) ==>
                     (v in table <==> v in old(table)) && (v in table ==> table[v] == old(table)[v])
    {
      hide FrameAllocator.Valid; hide FrameAllocator.Free; hide Managed; hide FreshRun; hide FrameAllocator.NoRun;
      hide FrameAllocator.Sets; hide Segmentable; hide MapTracks; hide Installed; hide SeqSet; hide Frames;
      ts := [];
      if count == 0 {
        return Panic, ts;
      }
      var found := FindFrames(vaddr, mtype, count);
      if found.None? {
        return NoFrames, ts;
      }
      if vaddr % PAGE_SIZE != 0 {
        return Panic, ts;
      }
      ts := found.value;
      RunIs(ts, vaddr, old(frames.Free()));
      MapsRun(table, ts, vaddr, old(frames.Free()));
      InstalledIs(areas, mtype, ts, vaddr, count);
      MapAll(found.value);
      areas := Installed(areas, mtype, found.value, vaddr, count);
      r := Allocated(found.value[0].frame);
    }

    /** Trackers for one run of frames or, for a mapping of several pages, for segments. */
    method FindFrames(vaddr: nat, mtype: MemType, count: nat) returns (r: Option<seq<MapTrack>>)
      requires frames.Valid() && count > 0
      modifies frames.regions
      ensures frames.Valid()
      ensures r.None? <==> && old(frames.NoRun(count))
                           && !(mtype == Mmap && count > 1 && Segmentable(old(frames.Sets()), count))
      ensures r.None? ==> frames.Free() == old(frames.Free())
      ensures r.Some? ==> && |r.value| == count && FreshRun(r.value, vaddr, old(frames.Free()))
                          && frames.Free() == old(frames.Free()) - SeqSet(Frames(r.value))
    {
      hide FrameAllocator.Valid; hide FrameAllocator.Free; hide Managed; hide FreshRun; hide FrameAllocator.NoRun;
      hide FrameAllocator.Sets; hide Segmentable; hide SeqSet;
      r := FrameRun(vaddr, count);
      if r.None? && mtype == Mmap && count > 1 {
        r := AllocSegmented(vaddr, count);
      }
    }

    /** Trackers for one run of frames. */
    method FrameRun(vaddr: nat, count: nat) returns (r: Option<seq<MapTrack>>)
      requires frames.Valid()
      modifies frames.regions
      ensures frames.Valid()
      ensures count > 0 ==> (r.None? <==> old(frames.NoRun(count)))
      ensures r.None? ==> frames.Free() == old(frames.Free()) && frames.Sets() == old(frames.Sets())
      ensures r.Some? ==> && |r.value| == count && FreshRun(r.value, vaddr, old(frames.Free()))
                          && frames.Free() == old(frames.Free()) - SeqSet(Frames(r.value))
    {
      hide FrameAllocator.Valid; hide FrameAllocator.Free; hide Managed; hide FreshRun; hide SeqSet;
      hide FrameAllocator.NoRun; hide FrameAllocator.Sets; hide Taken;
      ghost var free := frames.Free();
      var run := frames.FrameAllocMuch(count);
      if run.None? {
        assert frames.Free() == free;
        return None;
      }
      FirstRun(vaddr, run.value, free);
      return Some(TracksFor(vaddr, run.value));
    }
  }

  lemma RunIsTaken(ts: seq<MapTrack>, vaddr: nat, free: set<nat>)
    requires FreshRun(ts, vaddr, free)
    ensures SeqSet(Frames(ts)) <= free
  {
  }

  lemma RunIs(ts: seq<MapTrack>, vaddr: nat, free: set<nat>)
    requires FreshRun(ts, vaddr, free)
    ensures forall i :: 0 <= i < |ts| ==>
              && ts[i].vaddr == (if vaddr == 0 then 0 else vaddr + i * PAGE_SIZE)
              && ts[i].frame in free && forall j :: 0 <= j < i ==> ts[j].frame != ts[i].frame
    ensures SeqSet(Frames(ts)) == set i | 0 <= i < |ts| :: ts[i].frame
  {
    forall i | 0 <= i < |ts| ensures ts[i].frame in SeqSet(Frames(ts)) {
      assert Frames(ts)[i] in Frames(ts);
    }
  }

  function MapTracks(table: map<nat, nat>, ts: seq<MapTrack>): map<nat, nat> {
    if ts == [] then table
    else
      var t := ts[|ts| - 1];
      var before := MapTracks(table, ts[..|ts| - 1]);
      if t.vaddr != 0 then before[t.vaddr := t.frame] else before
  }

  /** Every page of the run is mapped to the frame of its tracker, and no other page changes. */
  lemma {:induction false} MapTracksIff(table: map<nat, nat>, ts: seq<MapTrack>, vaddr: nat, free: set<nat>, v: nat)
    requires FreshRun(ts, vaddr, free) && vaddr > 0
    ensures forall i :: 0 <= i < |ts| && ts[i].vaddr == v ==>
              v in MapTracks(table, ts) && MapTracks(table, ts)[v] == ts[i].frame
    ensures (forall i :: 0 <= i < |ts| ==> ts[i].vaddr != v) ==>
              (v in MapTracks(table, ts) <==> v in table) && (v in table ==> MapTracks(table, ts)[v] == table[v])
    decreases |ts|
  {
    if ts != [] {
      MapTracksIff(table, ts[..|ts| - 1], vaddr, free, v);
    }
  }

  lemma {:induction false} MapsNothing(table: map<nat, nat>, ts: seq<MapTrack>)
    requires forall i :: 0 <= i < |ts| ==> ts[i].vaddr == 0
    ensures MapTracks(table, ts) == table
    decreases |ts|
  {
    if ts != [] {
      MapsNothing(table, ts[..|ts| - 1]);
    }
  }

  /** The table after mapping a run, at address 0 as it was. */
  lemma MapsRun(table: map<nat, nat>, ts: seq<MapTrack>, vaddr: nat, free: set<nat>)
    requires FreshRun(ts, vaddr, free)
    ensures vaddr == 0 ==> MapTracks(table, ts) == table
    ensures vaddr > 0 ==>
              var t := MapTracks(table, ts);
              && (forall i :: 0 <= i < |ts| ==> ts[i].vaddr in t && t[ts[i].vaddr] == ts[i].frame)
              && forall v :: (forall i :: 0 <= i < |ts| ==> ts[i].vaddr != v) ==>
                   (v in t <==> v in table) && (v in t ==> t[v] == table[v])
  {
    if vaddr == 0 {
      MapsNothing(table, ts);
    } else {
      forall v: nat
        ensures forall i :: 0 <= i < |ts| && ts[i].vaddr == v ==>
                  v in MapTracks(table, ts) && MapTracks(table, ts)[v] == ts[i].frame
        ensures (forall i :: 0 <= i < |ts| ==> ts[i].vaddr != v) ==>
                  (v in MapTracks(table, ts) <==> v in table) && (v in table ==> MapTracks(table, ts)[v] == table[v])
      {
        MapTracksIff(table, ts, vaddr, free, v);
      }
    }
  }

  lemma InstalledIs(areas: seq<MemArea>, mtype: MemType, ts: seq<MapTrack>, vaddr: nat, count: nat)
    ensures mtype != Stack ==>
              Installed(areas, mtype, ts, vaddr, count) == areas + [MemArea(mtype, ts, false, vaddr, count * PAGE_SIZE)]
    ensures mtype == Stack && (forall i :: 0 <= i < |areas| ==> areas[i].mtype != Stack) ==>
              Installed(areas, mtype, ts, vaddr, count)
              == areas + [MemArea(Stack, ts, false, 0x7000_0000, 0x1000_0000)]
    ensures mtype == Stack ==> forall i ::
              && 0 <= i < |areas| && areas[i].mtype == Stack && (forall j :: 0 <= j < i ==> areas[j].mtype != Stack) ==>
                Installed(areas, mtype, ts, vaddr, count) == areas[i := areas[i].(tracks := areas[i].tracks + ts)]
  {
  }

  /** Where the trackers go: to the stack area if there is one, otherwise to a new area. */
  function Installed(areas: seq<MemArea>, mtype: MemType, ts: seq<MapTrack>, vaddr: nat, count: nat): seq<MemArea> {
    if mtype == Stack then
      var i := FirstStack(areas);
      if i < |areas| then areas[i := areas[i].(tracks := areas[i].tracks + ts)]
      else areas + [MemArea(Stack, ts, false, STACK_AREA_START, STACK_AREA_LEN)]
    else areas + [MemArea(mtype, ts, false, vaddr, count * PAGE_SIZE)]
  }

  function FirstStack(areas: seq<MemArea>): (i: nat)
    ensures i <= |areas|
    ensures i < |areas| ==> areas[i].mtype == Stack
    ensures forall j :: 0 <= j < i ==> areas[j].mtype != Stack
    decreases |areas|
  {
    if areas == [] || areas[0].mtype == Stack then 0 else 1 + FirstStack(areas[1..])
  }
}
