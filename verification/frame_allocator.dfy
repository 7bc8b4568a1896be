/** The physical frame allocator: a list of regions searched in order (`FrameAllocator`). */
module FrameAllocators {
  import opened Common
  import opened FrameRegions

  predicate Apart(a: FrameRegion, b: FrameRegion) {
    a.end <= b.start || b.end <= a.start
  }

  ghost predicate AllValid(rs: seq<FrameRegion>)
    reads rs
  {
    && (forall i :: 0 <= i < |rs| ==> rs[i].Valid())
    && forall i, j :: 0 <= i < j < |rs| ==> rs[i] != rs[j] && Apart(rs[i], rs[j])
  }

  ghost function Union(ss: seq<set<nat>>): set<nat> {
    set i, p | 0 <= i < |ss| && p in ss[i] :: p
  }

  ghost predicate Disjoint(ss: seq<set<nat>>) {
    forall i, j :: 0 <= i < j < |ss| ==> ss[i] !! ss[j]
  }

  lemma UnionRemove(ss: seq<set<nat>>, i: nat, x: set<nat>)
    requires i < |ss| && Disjoint(ss) && x <= ss[i]
    ensures Union(ss[i := ss[i] - x]) == Union(ss) - x
  {
    var ss' := ss[i := ss[i] - x];
    forall p | p in Union(ss) - x ensures p in Union(ss') {
      var k :| 0 <= k < |ss| && p in ss[k];
      assert p in ss'[k];
    }
    forall p | p in Union(ss') ensures p in Union(ss) - x {
      var k :| 0 <= k < |ss'| && p in ss'[k];
      assert p in ss[k];
      assert k < i ==> ss[k] !! ss[i];
      assert i < k ==> ss[i] !! ss[k];
    }
  }

  lemma UnionAdd(ss: seq<set<nat>>, i: nat, x: set<nat>)
    requires i < |ss|
    ensures Union(ss[i := ss[i] + x]) == Union(ss) + x
  {
    var ss' := ss[i := ss[i] + x];
    assert ss'[i] == ss[i] + x;
    forall p | p in Union(ss) + x ensures p in Union(ss') {
      if p in x {
        assert p in ss'[i];
      } else {
        var k :| 0 <= k < |ss| && p in ss[k];
        assert p in ss'[k];
      }
    }
    forall p | p in Union(ss') ensures p in Union(ss) + x {
      var k :| 0 <= k < |ss'| && p in ss'[k];
      assert k != i ==> p in ss[k];
      assert k == i ==> p in ss[i] || p in x;
    }
  }

  lemma UnionAppend(ss: seq<set<nat>>, x: set<nat>)
    ensures Union(ss + [x]) == Union(ss) + x
  {
    var ss' := ss + [x];
    forall p | p in Union(ss') ensures p in Union(ss) + x {
      var k :| 0 <= k < |ss'| && p in ss'[k];
      assert k < |ss| ==> p in ss[k];
    }
    forall p | p in Union(ss) + x ensures p in Union(ss') {
      if p in x {
        assert p in ss'[|ss|];
      } else {
        var k :| 0 <= k < |ss| && p in ss[k];
        assert p in ss'[k];
      }
    }
  }

  lemma NothingFree(ss: seq<set<nat>>)
    ensures Union(ss[..0]) == {}
  {
  }

  lemma UnionCount(ss: seq<set<nat>>, i: nat)
    requires Disjoint(ss) && i < |ss|
    ensures |Union(ss[..i + 1])| == |Union(ss[..i])| + |ss[i]|
  {
    assert ss[..i + 1] == ss[..i] + [ss[i]];
    UnionAppend(ss[..i], ss[i]);
    assert Union(ss[..i]) !! ss[i];
  }

  /** The free frames of each region. */
  ghost function FreeSets(rs: seq<FrameRegion>): (ss: seq<set<nat>>)
    requires AllValid(rs)
    reads rs
    ensures |ss| == |rs|
    ensures forall i :: 0 <= i < |rs| ==> ss[i] == rs[i].Free()
    ensures Disjoint(ss)
  {
    seq(|rs|, i requires 0 <= i < |rs| && rs[i].Valid() reads rs => rs[i].Free())
  }

  ghost predicate NoRunAtAll(ss: seq<set<nat>>, n: nat) {
    forall i :: 0 <= i < |ss| ==> NoRunIn(ss[i], n)
  }

  /** `frames` are the lowest run of set `i`, which is the first set that has a run. */
  ghost predicate Chosen(ss: seq<set<nat>>, i: nat, frames: seq<nat>, n: nat) {
    && i < |ss| && LowestRun(ss[i], frames, n)
    && (n > 0 ==> forall j :: 0 <= j < i ==> NoRunIn(ss[j], n))
  }

  /** Taking the chosen run out of its set. */
  ghost predicate Taken(ss: seq<set<nat>>, ss': seq<set<nat>>, frames: seq<nat>, n: nat) {
    exists i: nat :: Chosen(ss, i, frames, n) && ss' == ss[i := ss[i] - SeqSet(frames)]
  }

  lemma LowestIsRun(s: set<nat>, frames: seq<nat>, n: nat)
    requires LowestRun(s, frames, n) && n > 0
    ensures RunIn(s, frames[0], n)
  {
    forall j | 0 <= j < n ensures frames[0] + j * PAGE_SIZE in s {
      assert frames[j] in s;
    }
  }

  /** There is a run to choose exactly when some set has one. */
  lemma ChosenRefutes(ss: seq<set<nat>>, i: nat, frames: seq<nat>, n: nat)
    requires Chosen(ss, i, frames, n) && n > 0
    ensures !NoRunAtAll(ss, n)
  {
    LowestIsRun(ss[i], frames, n);
  }

  /** Only one run can be chosen. */
  lemma TakenUnique(ss: seq<set<nat>>, a: seq<set<nat>>, fs: seq<nat>, b: seq<set<nat>>, gs: seq<nat>, n: nat)
    requires n > 0 && Taken(ss, a, fs, n) && Taken(ss, b, gs, n)
    ensures a == b && fs == gs
  {
    var i: nat :| Chosen(ss, i, fs, n) && a == ss[i := ss[i] - SeqSet(fs)];
    var j: nat :| Chosen(ss, j, gs, n) && b == ss[j := ss[j] - SeqSet(gs)];
    LowestIsRun(ss[i], fs, n);
    LowestIsRun(ss[j], gs, n);
    hide RunIn;
    assert i == j && fs[0] == gs[0];
    forall k | 0 <= k < n ensures fs[k] == gs[k] {
    }
    assert fs == gs;
  }

  lemma TakenNone(ss: seq<set<nat>>, ss': seq<set<nat>>, frames: seq<nat>)
    requires Taken(ss, ss', frames, 0)
    ensures frames == [] && ss' == ss
  {
    var i: nat :| Chosen(ss, i, frames, 0) && ss' == ss[i := ss[i] - SeqSet(frames)];
    assert ss[i] - SeqSet(frames) == ss[i];
  }

  /** Taking the lowest frame of the first nonempty set. */
  ghost predicate TookFirst(ss: seq<set<nat>>, ss': seq<set<nat>>, p: nat) {
    exists i: nat :: i < |ss| && LowestOfFirst(ss, i, p) && ss' == ss[i := ss[i] - {p}]
  }

  /** Only one frame can be taken. */
  lemma TookFirstUnique(ss: seq<set<nat>>, a: seq<set<nat>>, p: nat, b: seq<set<nat>>, q: nat)
    requires TookFirst(ss, a, p) && TookFirst(ss, b, q)
    ensures a == b && p == q
  {
    var i: nat :| i < |ss| && LowestOfFirst(ss, i, p) && a == ss[i := ss[i] - {p}];
    var j: nat :| j < |ss| && LowestOfFirst(ss, j, q) && b == ss[j := ss[j] - {q}];
    assert i == j;
  }

  lemma {:induction false} Lowest(s: set<nat>) returns (p: nat)
    requires s != {}
    ensures p in s && forall q :: q in s ==> p <= q
    decreases |s|
  {
    var x :| x in s;
    p := x;
    if s - {x} != {} {
      var q := Lowest(s - {x});
      p := Min(q, x);
    }
    assert forall q :: q in s ==> q == x || q in s - {x};
  }

  /** While a frame is free there is one to take. */
  lemma {:induction false} CanTake(ss: seq<set<nat>>, n: nat) returns (ss': seq<set<nat>>, p: nat)
    requires Disjoint(ss) && n <= |ss| && Union(ss) != {} && forall j :: 0 <= j < n ==> ss[j] == {}
    ensures |ss'| == |ss| && TookFirst(ss, ss', p) && p in Union(ss)
    ensures Union(ss') == Union(ss) - {p} && Disjoint(ss')
    decreases |ss| - n
  {
    assert n < |ss| by {
      var q :| q in Union(ss);
      var k :| 0 <= k < |ss| && q in ss[k];
    }
    if ss[n] == {} {
      ss', p := CanTake(ss, n + 1);
    } else {
      p := Lowest(ss[n]);
      ss' := ss[n := ss[n] - {p}];
      assert LowestOfFirst(ss, n, p);
      UnionRemove(ss, n, {p});
    }
  }

  /** Each set gets back the frames of its own home. */
  ghost function GiveBack(homes: seq<set<nat>>, ss: seq<set<nat>>, x: set<nat>): (ss': seq<set<nat>>)
    requires |homes| == |ss|
    ensures |ss'| == |ss| && forall i :: 0 <= i < |ss| ==> ss'[i] == ss[i] + x * homes[i]
  {
    seq(|ss|, i requires 0 <= i < |ss| => ss[i] + x * homes[i])
  }

  /** Each set is part of its home, and homes are apart. */
  ghost predicate AtHome(homes: seq<set<nat>>, ss: seq<set<nat>>) {
    |homes| == |ss| && Disjoint(homes) && forall i :: 0 <= i < |ss| ==> ss[i] <= homes[i]
  }

  lemma GiveBackMore(homes: seq<set<nat>>, ss: seq<set<nat>>, x: set<nat>, y: set<nat>)
    requires |homes| == |ss|
    ensures GiveBack(homes, GiveBack(homes, ss, x), y) == GiveBack(homes, ss, x + y)
  {
    var a, b := GiveBack(homes, GiveBack(homes, ss, x), y), GiveBack(homes, ss, x + y);
    assert forall i :: 0 <= i < |ss| ==> a[i] == b[i];
  }

  lemma GiveBackNone(homes: seq<set<nat>>, ss: seq<set<nat>>)
    requires |homes| == |ss|
    ensures GiveBack(homes, ss, {}) == ss
  {
    assert forall i :: 0 <= i < |ss| ==> GiveBack(homes, ss, {})[i] == ss[i];
  }

  /** A run that is taken and given back leaves the sets as they were. */
  lemma GiveBackTaken(homes: seq<set<nat>>, ss: seq<set<nat>>, ss': seq<set<nat>>, frames: seq<nat>, n: nat)
    requires AtHome(homes, ss) && Taken(ss, ss', frames, n)
    ensures |ss'| == |ss| && GiveBack(homes, ss', SeqSet(frames)) == ss
  {
    var i: nat :| Chosen(ss, i, frames, n) && ss' == ss[i := ss[i] - SeqSet(frames)];
    assert SeqSet(frames) <= ss[i] <= homes[i];
    forall j | 0 <= j < |ss| ensures ss'[j] + SeqSet(frames) * homes[j] == ss[j] {
      assert j < i ==> homes[j] !! homes[i];
      assert i < j ==> homes[i] !! homes[j];
    }
  }

  class FrameAllocator {
    var regions: seq<FrameRegion>

    ghost predicate Valid()
      reads this, regions
    {
      AllValid(regions)
    }

    /** The free frames of all regions, by physical address. */
    ghost function Free(): set<nat>
      requires Valid()
      reads this, regions
    {
      Union(FreeSets(regions))
    }

    /** The free frames of each region, in the order of the regions. */
    ghost function Sets(): (ss: seq<set<nat>>)
      requires Valid()
      reads this, regions
      ensures |ss| == |regions|
    {
      FreeSets(regions)
    }

    /** No region has `pages` consecutive free frames. */
    ghost predicate NoRun(pages: nat)
      requires Valid()
      reads this, regions
    {
      NoRunAtAll(Sets(), pages)
    }

    constructor ()
      ensures Valid() && regions == [] && Free() == {} && Sets() == []
    {
      regions := [];
    }

    /** Adds the page-aligned memory from `start` to `end`; all of it becomes free. */
    method AddMemoryRegion(start: nat, end: nat)
      requires Valid() && start % PAGE_SIZE == 0 && end % PAGE_SIZE == 0 && start <= end
      requires forall i :: 0 <= i < |regions| ==> end <= regions[i].start || regions[i].end <= start
      modifies this
      ensures Valid()
      ensures |regions| == |old(regions)| + 1 && regions[..|old(regions)|] == old(regions)
      ensures fresh(regions[|old(regions)|])
      ensures regions[|old(regions)|].start == start && regions[|old(regions)|].end == end
      ensures Sets() == old(Sets()) + [set p: nat | start <= p < end && p % PAGE_SIZE == 0]
      ensures Free() == old(Free()) + set p: nat | start <= p < end && p % PAGE_SIZE == 0
    {
      hide Union;
      var region := new FrameRegion(start, end);
      ghost var before := regions;
      regions := regions + [region];
      assert FreeSets(regions) == FreeSets(before) + [region.Free()];
      UnionAppend(FreeSets(before), region.Free());
    }

    method CountIn(i: nat) returns (n: nat)
      requires Valid() && i < |regions|
      ensures n == |FreeSets(regions)[i]|
    {
      n := regions[i].GetFreePageCount();
    }

    method GetFreePageCount() returns (sum: nat)
      requires Valid()
      ensures sum == |Free()|
    {
      hide AllValid; hide Union; hide Disjoint;
      sum := 0;
      ghost var ss := FreeSets(regions);
      NothingFree(ss);
      for i := 0 to |regions|
        invariant sum == |Union(ss[..i])|
      {
        var n := CountIn(i);
        sum := sum + n;
        UnionCount(ss, i);
      }
      assert ss[..|ss|] == ss;
    }

    /** One region's part of an allocation: the region gives up frames or nothing changes. */
    method AllocIn(i: nat) returns (r: Option<nat>)
      requires Valid() && i < |regions|
      modifies regions[i]
      ensures Valid()
      ensures r.None? ==> FreeSets(regions) == old(FreeSets(regions)) && FreeSets(regions)[i] == {}
      ensures r.Some? ==> && r.value in old(FreeSets(regions))[i]
                          && (forall p :: p in old(FreeSets(regions))[i] ==> r.value <= p)
                          && FreeSets(regions) == old(FreeSets(regions))[i := old(FreeSets(regions))[i] - {r.value}]
    {
      r := regions[i].Alloc();
    }

    method AllocMuchIn(i: nat, pages: nat) returns (r: Option<seq<nat>>)
      requires Valid() && i < |regions|
      modifies regions[i]
      ensures Valid()
      ensures r.None? ==> FreeSets(regions) == old(FreeSets(regions))
      ensures r.None? && pages > 0 ==> NoRunIn(old(FreeSets(regions))[i], pages)
      ensures pages == 0 ==> (r.None? <==> old(FreeSets(regions))[i] == {})
      ensures r.Some? ==> LowestRun(old(FreeSets(regions))[i], r.value, pages)
      ensures r.Some? ==> FreeSets(regions)
                          == old(FreeSets(regions))[i := old(FreeSets(regions))[i] - SeqSet(r.value)]
    {
      r := regions[i].AllocMuch(pages);
    }

    /** Takes the lowest free frame of the first region that has one. */
    method Alloc() returns (r: Option<nat>)
      requires Valid()
      modifies regions
      ensures Valid()
      ensures r.None? <==> old(Free()) == {}
      ensures r.None? ==> Free() == old(Free()) && Sets() == old(Sets())
      ensures r.Some? ==> r.value in old(Free()) && Free() == old(Free()) - {r.value}
      ensures r.Some? ==> TookFirst(old(Sets()), Sets(), r.value)
    {
      hide AllValid; hide Disjoint; hide FreeSets;
      ghost var ss := FreeSets(regions);
      for i := 0 to |regions|
        invariant Valid() && FreeSets(regions) == ss
        invariant forall j :: 0 <= j < i ==> ss[j] == {}
      {
        r := AllocIn(i);
        if r.Some? {
          UnionRemove(ss, i, {r.value});
          assert r.value in ss[i];
          assert r.value in Union(ss);
          assert LowestOfFirst(ss, i, r.value);
          return;
        }
      }
      return None;
    }

    /** Takes the lowest run of `pages` free frames of the first region that has one. */
    method AllocMuch(pages: nat) returns (r: Option<seq<nat>>)
      requires Valid()
      modifies regions
      ensures Valid()
      ensures r.None? ==> Free() == old(Free()) && Sets() == old(Sets())
      ensures pages > 0 ==> (r.None? <==> old(NoRun(pages)))
      ensures pages == 0 ==> (r.None? <==> old(Free()) == {})
      ensures r.Some? ==> |r.value| == pages && Free() == old(Free()) - SeqSet(r.value)
      ensures r.Some? ==> forall j :: 0 <= j < pages ==>
                r.value[j] in old(Free()) && r.value[j] == r.value[0] + j * PAGE_SIZE
      ensures r.Some? ==> Taken(old(Sets()), Sets(), r.value, pages)
    {
      hide AllValid; hide Disjoint; hide FreeSets; hide RunIn;
      ghost var ss := FreeSets(regions);
      for i := 0 to |regions|
        invariant Valid() && FreeSets(regions) == ss
        invariant forall j :: 0 <= j < i ==> if pages > 0 then NoRunIn(ss[j], pages) else ss[j] == {}
      {
        r := AllocMuchIn(i, pages);
        if r.Some? {
          UnionRemove(ss, i, SeqSet(r.value));
          assert Chosen(ss, i, r.value, pages);
          if pages > 0 {
            ChosenRefutes(ss, i, r.value, pages);
          } else {
            SomeFree(ss, i);
          }
          return;
        }
      }
      return None;
    }

    /** `frame_alloc`: a tracker for the lowest free frame of the first region that has one; fails
        exactly when no frame is free. */
    method FrameAlloc() returns (r: Option<nat>)
      requires Valid()
      modifies regions
      ensures Valid()
      ensures r.None? <==> old(Free()) == {}
      ensures Free() == old(Free()) - if r.Some? then {r.value} else {}
      ensures r.Some? ==> r.value in old(Free()) && r.value in Managed(regions) && r.value % PAGE_SIZE == 0
      ensures if r.Some? then TookFirst(old(Sets()), Sets(), r.value) else Sets() == old(Sets())
    {
      FreeIsManaged(this);
      hide TookFirst, Sets;
      r := Alloc();
      if r.Some? {
        ManagedInSomeRegion(regions, r.value);
      }
    }

    /** `frame_alloc_much`: trackers for the lowest run of the first region that has one; fails
        exactly when no region has such a run. */
    method FrameAllocMuch(pages: nat) returns (r: Option<seq<nat>>)
      requires Valid()
      modifies regions
      ensures Valid()
      ensures Free() == old(Free()) - if r.Some? then SeqSet(r.value) else {}
      ensures r.Some? ==> |r.value| == pages && SeqSet(r.value) <= old(Free()) && SeqSet(r.value) <= Managed(regions)
      ensures r.Some? ==> forall j :: 0 <= j < pages ==>
                r.value[j] == r.value[0] + j * PAGE_SIZE && r.value[j] % PAGE_SIZE == 0
      ensures pages > 0 ==> (r.None? <==> old(NoRun(pages)))
      ensures pages == 0 ==> (r.None? <==> old(Free()) == {})
      ensures if r.Some? then Taken(old(Sets()), Sets(), r.value, pages) else Sets() == old(Sets())
    {
      FreeIsManaged(this);
      hide NoRun, Taken;
      r := AllocMuch(pages);
      if r.Some? {
        forall j | 0 <= j < pages ensures r.value[j] % PAGE_SIZE == 0 {
          ManagedInSomeRegion(regions, r.value[j]);
        }
      }
    }

    /** Dropping a frame tracker frees its frame. */
    method DropTracker(p: nat)
      requires Valid() && p in Managed(regions)
      modifies regions
      ensures Valid() && Free() == old(Free()) + {p}
      ensures Sets() == GiveBack(Homes(regions), old(Sets()), {p})
    {
      hide AllValid; hide GiveBack; hide Free; hide Managed; hide PageAlignDown;
      ManagedInSomeRegion(regions, p);
      Dealloc(p);
      GivesBackOne(regions, old(Sets()), Sets(), p);
    }

    /** Dropping a list of frame trackers frees each of their frames. */
    method DropTrackers(trackers: seq<nat>)
      requires Valid()
      requires forall j :: 0 <= j < |trackers| ==> trackers[j] in Managed(regions)
      modifies regions
      ensures Valid()
      ensures Free() == old(Free()) + SeqSet(trackers)
      ensures Sets() == GiveBack(Homes(regions), old(Sets()), SeqSet(trackers))
    {
      hide AllValid; hide GiveBack; hide Free; hide Sets; hide Managed;
      ghost var homes, ss := Homes(regions), Sets();
      GiveBackNone(homes, ss);
      assert SeqSet(trackers[..0]) == {};
      for j := 0 to |trackers|
        invariant Valid()
        invariant Free() == old(Free()) + SeqSet(trackers[..j])
        invariant |Sets()| == |homes| == |ss| && Sets() == GiveBack(homes, ss, SeqSet(trackers[..j]))
      {
        GiveBackMore(homes, ss, SeqSet(trackers[..j]), {trackers[j]});
        DropTracker(trackers[j]);
        assert SeqSet(trackers[..j + 1]) == SeqSet(trackers[..j]) + {trackers[j]};
      }
      assert trackers[..|trackers|] == trackers;
    }

    method DeallocIn(i: nat, paddr: nat)
      requires Valid() && i < |regions| && regions[i].start <= paddr < regions[i].end
      modifies regions[i]
      ensures Valid()
      ensures FreeSets(regions) == old(FreeSets(regions))[i := old(FreeSets(regions))[i] + {PageAlignDown(paddr)}]
    {
      regions[i].Dealloc(paddr);
    }

    /** Frees the frame that holds `paddr`, in the region that contains it and no other;
        an address outside every region is ignored. */
    method Dealloc(paddr: nat)
      requires Valid()
      modifies regions
      ensures Valid()
      ensures forall i :: 0 <= i < |regions| ==>
                FreeSets(regions)[i] == old(FreeSets(regions))[i]
                  + if regions[i].start <= paddr < regions[i].end then {PageAlignDown(paddr)} else {}
      ensures Free() == old(Free()) + if InSomeRegion(regions, paddr) then {PageAlignDown(paddr)} else {}
    {
      ghost var ss := FreeSets(regions);
      for i := 0 to |regions|
        invariant Valid() && FreeSets(regions) == ss
        invariant forall j :: 0 <= j < i ==> !(regions[j].start <= paddr < regions[j].end)
      {
        if regions[i].start <= paddr < regions[i].end {
          OneRegion(regions, i, paddr);
          DeallocIn(i, paddr);
          UnionAdd(ss, i, {PageAlignDown(paddr)});
          return;
        }
      }
    }
  }

  /** Disjoint regions: an address lies in one region only. */
  lemma OneRegion(rs: seq<FrameRegion>, i: nat, p: nat)
    requires AllValid(rs) && i < |rs| && rs[i].start <= p < rs[i].end
    ensures forall j :: 0 <= j < |rs| && rs[j].start <= p < rs[j].end ==> j == i
  {
  }

  predicate InSomeRegion(rs: seq<FrameRegion>, p: nat) {
    exists i :: 0 <= i < |rs| && rs[i].start <= p < rs[i].end
  }

  ghost function FramesOf(r: FrameRegion): set<nat> {
    set p: nat | r.start <= p < r.end && p % PAGE_SIZE == 0
  }

  /** Every frame of the regions, free or not. */
  ghost function Managed(rs: seq<FrameRegion>): set<nat> {
    set i, p | 0 <= i < |rs| && p in FramesOf(rs[i]) :: p
  }

  /** The frames of each region, free or not. */
  ghost function Homes(rs: seq<FrameRegion>): (hs: seq<set<nat>>)
    ensures |hs| == |rs| && forall i :: 0 <= i < |rs| ==> hs[i] == FramesOf(rs[i])
  {
    seq(|rs|, i requires 0 <= i < |rs| => FramesOf(rs[i]))
  }

  lemma GivesBackOne(rs: seq<FrameRegion>, ss: seq<set<nat>>, ss': seq<set<nat>>, p: nat)
    requires |ss| == |ss'| == |rs| && p in Managed(rs)
    requires forall i :: 0 <= i < |rs| ==> ss'[i] == ss[i] + if rs[i].start <= p < rs[i].end then {p} else {}
    ensures ss' == GiveBack(Homes(rs), ss, {p})
  {
    forall i | 0 <= i < |rs| ensures ss'[i] == ss[i] + {p} * Homes(rs)[i] {
    }
  }

  /** Free frames are frames of their region, and no frame is in two regions. */
  lemma FreeAtHome(a: FrameAllocator)
    requires a.Valid()
    ensures AtHome(Homes(a.regions), a.Sets())
  {
    forall i, j | 0 <= i < j < |a.regions| ensures Homes(a.regions)[i] !! Homes(a.regions)[j] {
      assert Apart(a.regions[i], a.regions[j]);
    }
  }

  lemma SomeFree(ss: seq<set<nat>>, i: nat)
    requires i < |ss| && ss[i] != {}
    ensures Union(ss) != {}
  {
    var p :| p in ss[i];
    assert p in Union(ss);
  }

  lemma FreeIsManaged(a: FrameAllocator)
    requires a.Valid()
    ensures a.Free() <= Managed(a.regions)
  {
    forall p | p in a.Free() ensures p in Managed(a.regions) {
      var i :| 0 <= i < |a.regions| && p in FreeSets(a.regions)[i];
      assert p in FramesOf(a.regions[i]);
    }
  }

  lemma ManagedInSomeRegion(rs: seq<FrameRegion>, p: nat)
    requires p in Managed(rs)
    ensures InSomeRegion(rs, p) && PageAlignDown(p) == p
  {
  }

  /** `p` is the lowest frame of the first nonempty set. */
  ghost predicate LowestOfFirst(ss: seq<set<nat>>, i: nat, p: nat)
    requires i < |ss|
  {
    && p in ss[i]
    && (forall q :: q in ss[i] ==> p <= q)
    && forall j :: 0 <= j < i ==> ss[j] == {}
  }

  ghost predicate NoRunIn(s: set<nat>, n: nat) {
    forall p: nat :: !RunIn(s, p, n)
  }

  /** `frames` are `n` consecutive frames of `s`, and no run of that length begins lower. */
  ghost predicate LowestRun(s: set<nat>, frames: seq<nat>, n: nat) {
    && |frames| == n
    && (forall j :: 0 <= j < n ==> frames[j] in s && frames[j] == frames[0] + j * PAGE_SIZE)
    && (n > 0 ==> forall p: nat :: p < frames[0] ==> !RunIn(s, p, n))
  }
}
