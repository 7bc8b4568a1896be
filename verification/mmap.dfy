/** `mmap` and `munmap` as steps over the areas of one process. */
module MmapCalls {
  import opened Common
  import opened MemAreas

  const MAP_AREA_START: nat := 0x2_0000_0000

  /** An attached System V shared memory segment. */
  datatype Shm = Shm(start: nat, size: nat)

  datatype MmapResult = Mapped(addr: nat) | EINVAL | EFAULT | ReadFailed | Panic | Unmapped

  /** The request, together with what the outside world answers: the frames the allocator
      finds for it, and whether the file can be read. */
  datatype MmapCall = MmapCall(start: nat, len: nat, fixed: bool, shared: bool, file: bool,
                               frames: Option<seq<nat>>, readOk: bool) {
    /** Only anonymous private mappings are filled lazily. */
    predicate Populated() {
      shared || file
    }

    /** The allocator answers with one frame a page. */
    predicate Legal() {
      frames.Some? ==> |frames.value| == DivCeil(len, PAGE_SIZE)
    }
  }

  /** What every call keeps: nonempty, disjoint areas, and stacks below the mapping area. */
  ghost predicate Layout(areas: seq<MemArea>) {
    && Disjoint(areas)
    && (forall i :: 0 <= i < |areas| ==> areas[i].len > 0)
    && forall i :: 0 <= i < |areas| && areas[i].mtype == Stack ==> areas[i].End() <= MAP_AREA_START
  }

  lemma SubAreaLayout(areas: seq<MemArea>, lo: nat, hi: nat)
    requires Layout(areas) && lo <= hi
    ensures Layout(SubArea(areas, lo, hi))
  {
    SubAreaDisjoint(areas, lo, hi);
    forall b | b in SubArea(areas, lo, hi)
      ensures b.len > 0 && (b.mtype == Stack ==> b.End() <= MAP_AREA_START)
    {
      var i := PieceOf(areas, lo, hi, b);
    }
  }

  lemma SubAreaClears(areas: seq<MemArea>, lo: nat, hi: nat)
    requires Layout(areas) && lo < hi
    ensures Clear(SubArea(areas, lo, hi), lo, hi)
  {
    forall b | b in SubArea(areas, lo, hi) ensures !b.Overlapping(lo, hi) {
      var i := PieceOf(areas, lo, hi, b);
    }
  }

  /** Cutting a range that no area overlaps changes nothing. */
  lemma {:induction false} SubAreaOfClear(areas: seq<MemArea>, lo: nat, hi: nat)
    requires lo <= hi && Clear(areas, lo, hi) && forall i :: 0 <= i < |areas| ==> areas[i].len > 0
    ensures Kept(areas, lo, hi) == areas && Splits(areas, lo, hi) == []
    decreases |areas|
  {
    if areas != [] {
      var n := |areas| - 1;
      SubAreaOfClear(areas[..n], lo, hi);
      assert areas == areas[..n] + [areas[n]];
    }
  }

  /** Taking back the area pushed last leaves the areas before the push. */
  lemma SubAreaOfLast(areas: seq<MemArea>, a: MemArea)
    requires Clear(areas, a.start, a.End()) && a.len > 0
    requires forall i :: 0 <= i < |areas| ==> areas[i].len > 0
    ensures SubArea(areas + [a], a.start, a.End()) == areas
  {
    SubAreaOfClear(areas, a.start, a.End());
    assert (areas + [a])[..|areas|] == areas;
  }

  lemma PushLayout(areas: seq<MemArea>, a: MemArea)
    requires Layout(areas) && Clear(areas, a.start, a.End()) && a.len > 0 && a.mtype != Stack
    ensures Layout(areas + [a])
  {
  }

  /** The areas without the range, if any of them overlaps it. */
  function CutFor(areas: seq<MemArea>, lo: nat, hi: nat, fixed: bool): seq<MemArea>
    requires lo <= hi
  {
    if fixed && exists i :: 0 <= i < |areas| && areas[i].Overlapping(lo, hi) then SubArea(areas, lo, hi) else areas
  }

  lemma CutForClears(areas: seq<MemArea>, lo: nat, hi: nat, fixed: bool)
    requires Layout(areas) && lo < hi && (fixed || Clear(areas, lo, hi))
    ensures Layout(CutFor(areas, lo, hi, fixed)) && Clear(CutFor(areas, lo, hi, fixed), lo, hi)
    ensures forall addr: nat :: Covers(CutFor(areas, lo, hi, fixed), addr)
              <==> Covers(areas, addr) && !(lo <= addr < hi)
  {
    SubAreaLayout(areas, lo, hi);
    SubAreaClears(areas, lo, hi);
    forall addr: nat ensures Covers(CutFor(areas, lo, hi, fixed), addr)
                        <==> Covers(areas, addr) && !(lo <= addr < hi)
    {
      SubAreaCovers(areas, lo, hi, addr);
      if Clear(areas, lo, hi) {
        SubAreaOfClear(areas, lo, hi);
        assert SubArea(areas, lo, hi) == areas;
      }
    }
  }

  /** The answer to a nonempty request at `addr`, given whether there is room for it. Mapping a
      page asserts its alignment. */
  function MapOutcome(call: MmapCall, addr: nat, room: bool): MmapResult {
    if !room then EINVAL
    else if call.Populated() && call.frames.None? then EFAULT
    else if call.Populated() && addr % PAGE_SIZE != 0 then Panic
    else if call.file && !call.readOk then ReadFailed
    else Mapped(addr)
  }

  /** The area is of the kind, has the file and covers the range the call asks for; it has a tracker
      for each page if the mapping is shared or of a file, and none otherwise. */
  ghost predicate AsAsked(a: MemArea, call: MmapCall, addr: nat, len: nat) {
    && a.start == addr && a.len == len
    && (a.mtype == Shared <==> call.shared && !call.file)
    && (a.mtype == ShareFile <==> call.shared && call.file)
    && (a.mtype == MemType.Mmap <==> !call.shared)
    && (a.hasFile <==> call.shared && call.file)
    && if !call.shared && !call.file then a.tracks == []
       else && call.frames.Some? && |a.tracks| == |call.frames.value|
            && forall i :: 0 <= i < |a.tracks| ==> a.tracks[i] == MapTrack(addr + i * 4096, call.frames.value[i])
  }

  function NewArea(call: MmapCall, addr: nat, len: nat): (a: MemArea)
    requires call.Populated() ==> call.frames.Some?
    ensures AsAsked(a, call, addr, len)
  {
    if !call.Populated() then MemArea(MemType.Mmap, [], false, addr, len)
    else
      var frames := call.frames.value;
      var tracks := seq(|frames|, i requires 0 <= i < |frames| => MapTrack(addr + i * PAGE_SIZE, frames[i]));
      if !call.shared then MemArea(MemType.Mmap, tracks, false, addr, len)
      else if call.file then MemArea(ShareFile, tracks, true, addr, len)
      else MemArea(Shared, tracks, false, addr, len)
  }

  /** The greatest end of an area that is not a stack. */
  function LastEnd(areas: seq<MemArea>): nat {
    if areas == [] then 0
    else
      var before, a := LastEnd(areas[..|areas| - 1]), areas[|areas| - 1];
      if a.mtype != Stack then Max(before, a.End()) else before
  }

  lemma {:induction false} LastEndIs(areas: seq<MemArea>)
    ensures forall i :: 0 <= i < |areas| && areas[i].mtype != Stack ==> areas[i].End() <= LastEnd(areas)
    ensures LastEnd(areas) == 0
         || exists i :: 0 <= i < |areas| && areas[i].mtype != Stack && areas[i].End() == LastEnd(areas)
    decreases |areas|
  {
    if areas != [] {
      var n := |areas| - 1;
      LastEndIs(areas[..n]);
      if i :| 0 <= i < n && areas[..n][i].mtype != Stack && areas[..n][i].End() == LastEnd(areas[..n]) {
        assert areas[i].End() == LastEnd(areas[..n]);
      }
    }
  }

  /** The greatest end of an attached segment. */
  function LastShm(shms: seq<Shm>): nat {
    if shms == [] then 0 else Max(LastShm(shms[..|shms| - 1]), shms[|shms| - 1].start + shms[|shms| - 1].size)
  }

  lemma {:induction false} LastShmIs(shms: seq<Shm>)
    ensures forall i :: 0 <= i < |shms| ==> shms[i].start + shms[i].size <= LastShm(shms)
    ensures LastShm(shms) == 0 || exists i :: 0 <= i < |shms| && shms[i].start + shms[i].size == LastShm(shms)
    decreases |shms|
  {
    if shms != [] {
      var n := |shms| - 1;
      LastShmIs(shms[..n]);
      if i :| 0 <= i < n && shms[..n][i].start + shms[..n][i].size == LastShm(shms[..n]) {
        assert shms[i].start + shms[i].size == LastShm(shms[..n]);
      }
    }
  }

  /** The address for hint 0. */
  function FirstFree(areas: seq<MemArea>, shms: seq<Shm>): nat {
    Max(MAP_AREA_START, Max(LastEnd(areas), LastShm(shms)))
  }

  /** The least address from 0x2_0000_0000 on that no area but a stack and no segment ends above. */
  ghost predicate LowestAbove(areas: seq<MemArea>, shms: seq<Shm>, addr: nat) {
    && 0x2_0000_0000 <= addr
    && (forall i :: 0 <= i < |areas| && areas[i].mtype != Stack ==> areas[i].End() <= addr)
    && (forall i :: 0 <= i < |shms| ==> shms[i].start + shms[i].size <= addr)
    && (|| addr == 0x2_0000_0000
        || (exists i :: 0 <= i < |areas| && areas[i].mtype != Stack && areas[i].End() == addr)
        || exists i :: 0 <= i < |shms| && shms[i].start + shms[i].size == addr)
  }

  class AddressSpace {
    const memset: MemSet
    var shms: seq<Shm>

    constructor (memset: MemSet)
      ensures this.memset == memset && shms == []
    {
      this.memset := memset;
      shms := [];
    }

    /** The least address at or above the end of every area except stacks, and of every
        attached segment. */
    method GetLastFreeAddr() returns (addr: nat)
      ensures addr == Max(LastEnd(memset.areas), LastShm(shms))
      ensures forall i :: 0 <= i < |memset.areas| && memset.areas[i].mtype != Stack ==> memset.areas[i].End() <= addr
      ensures forall i :: 0 <= i < |shms| ==> shms[i].start + shms[i].size <= addr
      ensures addr == 0
           || (exists i :: 0 <= i < |memset.areas| && memset.areas[i].mtype != Stack && memset.areas[i].End() == addr)
           || exists i :: 0 <= i < |shms| && shms[i].start + shms[i].size == addr
    {
      var mapLast := 0;
      for i := 0 to |memset.areas|
        invariant mapLast == LastEnd(memset.areas[..i])
      {
        assert memset.areas[..i + 1][..i] == memset.areas[..i];
        if memset.areas[i].mtype != Stack {
          mapLast := Max(mapLast, memset.areas[i].End());
        }
      }
      var shmLast := 0;
      for i := 0 to |shms|
        invariant shmLast == LastShm(shms[..i])
      {
        assert shms[..i + 1][..i] == shms[..i];
        shmLast := Max(shms[i].start + shms[i].size, shmLast);
      }
      assert memset.areas[..|memset.areas|] == memset.areas && shms[..|shms|] == shms;
      LastEndIs(memset.areas);
      LastShmIs(shms);
      return Max(mapLast, shmLast);
    }

    /** The address of a new mapping: the hint, or for hint 0 an address at or above the end
        of every area, stacks included. */
    method PickAddr(start: nat) returns (addr: nat)
      requires Layout(memset.areas)
      ensures start != 0 ==> addr == start
      ensures start == 0 ==> addr == FirstFree(memset.areas, shms) >= MAP_AREA_START
      ensures start == 0 ==> LowestAbove(memset.areas, shms, addr)
      ensures start == 0 ==> forall i :: 0 <= i < |memset.areas| ==> memset.areas[i].End() <= addr
      ensures start == 0 ==> forall hi: nat :: addr <= hi ==> Clear(memset.areas, addr, hi)
    {
      var last := GetLastFreeAddr();
      return if start == 0 then (if last >= MAP_AREA_START then last else MAP_AREA_START) else start;
    }

    /** Makes room for the mapping: a fixed one cuts the range out, another must find it free. */
    method MakeRoom(addr: nat, len: nat, fixed: bool) returns (ok: bool)
      requires Layout(memset.areas) && len > 0
      modifies memset
      ensures Layout(memset.areas)
      ensures ok <==> fixed || Clear(old(memset.areas), addr, addr + len)
      ensures !ok ==> memset.areas == old(memset.areas)
      ensures ok ==> && memset.areas == CutFor(old(memset.areas), addr, addr + len, fixed)
                     && Clear(memset.areas, addr, addr + len)
      ensures ok ==> forall a: nat ::
                Covers(memset.areas, a) <==> Covers(old(memset.areas), a) && !(addr <= a < addr + len)
    {
      hide Layout; hide Covers;
      var overlapped := memset.Overlapping(addr, addr + len);
      if fixed && overlapped {
        var _ := memset.SubtractArea(addr, addr + len);
      }
      ok := fixed || !overlapped;
      if ok {
        CutForClears(old(memset.areas), addr, addr + len, fixed);
      }
    }

    /** Pushes the new area and reads the file into it; a failed read takes the area back. */
    method Install(area: MemArea, readOk: bool)
      requires Layout(memset.areas) && Clear(memset.areas, area.start, area.End())
      requires area.len > 0 && area.mtype != Stack
      modifies memset
      ensures Layout(memset.areas)
      ensures memset.areas == old(memset.areas) + if readOk then [area] else []
    {
      PushLayout(memset.areas, area);
      SubAreaOfLast(memset.areas, area);
      memset.areas := memset.areas + [area];
      if !readOk {
        var _ := memset.SubtractArea(area.start, area.End());
      }
    }

    /** The part of `sys_mmap` after the address is chosen. */
    method MapAt(call: MmapCall, addr: nat, len: nat) returns (r: MmapResult)
      requires Layout(memset.areas) && len > 0
      modifies memset
      ensures Layout(memset.areas)
      ensures r == MapOutcome(call, addr, call.fixed || Clear(old(memset.areas), addr, addr + len))
      ensures r.EINVAL? <==> !call.fixed && !Clear(old(memset.areas), addr, addr + len)
      ensures r.EFAULT? <==> !r.EINVAL? && (call.shared || call.file) && call.frames.None?
      ensures r.Panic? <==> !r.EINVAL? && (call.shared || call.file) && call.frames.Some? && addr % 4096 != 0
      ensures r.ReadFailed? <==> !r.EINVAL? && !r.EFAULT? && !r.Panic? && call.file && !call.readOk
      ensures r.EINVAL? ==> memset.areas == old(memset.areas)
      ensures r.EFAULT? || r.ReadFailed? || r.Panic? ==>
                memset.areas == CutFor(old(memset.areas), addr, addr + len, call.fixed)
      ensures r.Mapped? ==>
                memset.areas == CutFor(old(memset.areas), addr, addr + len, call.fixed) + [NewArea(call, addr, len)]
      ensures r.Mapped? ==> r.addr == addr && AsAsked(memset.areas[|memset.areas| - 1], call, addr, len)
      ensures r.Mapped? ==> forall a: nat ::
                Covers(memset.areas, a) <==> Covers(old(memset.areas), a) || addr <= a < addr + len
    {
      var ok := MakeRoom(addr, len, call.fixed);
      if !ok {
        return EINVAL;
      }
      if call.Populated() && call.frames.None? {
        return EFAULT;
      }
      if call.Populated() && addr % PAGE_SIZE != 0 {
        return Panic;
      }
      ghost var cut := memset.areas;
      var area := NewArea(call, addr, len);
      Install(area, !call.file || call.readOk);
      if call.file && !call.readOk {
        return ReadFailed;
      }
      forall a: nat ensures Covers(memset.areas, a) <==> Covers(cut, a) || addr <= a < addr + len {
        PushCovers(cut, area, a);
      }
      return Mapped(addr);
    }

    /** `sys_mmap`. Whatever happens the layout is kept. With hint 0 the call never meets an
        overlap. A failed file read leaves the areas as they were before the new one. A mapping
        that is filled at once is a panic exactly at an unaligned address. */
    method Mmap(call: MmapCall) returns (r: MmapResult, addr: nat)
      requires Layout(memset.areas) && call.Legal()
      modifies memset
      ensures Layout(memset.areas)
      ensures call.start != 0 ==> addr == call.start
      ensures call.start == 0 ==> && addr == FirstFree(old(memset.areas), shms) && r != EINVAL
                                  && Clear(old(memset.areas), addr, addr + PageAlignUp(call.len))
      ensures call.start == 0 ==> LowestAbove(old(memset.areas), shms, addr)
      ensures call.len == 0 ==> r == Mapped(addr) && memset.areas == old(memset.areas)
      ensures call.len > 0 ==>
                r == MapOutcome(call, addr, call.fixed || Clear(old(memset.areas), addr, addr + PageAlignUp(call.len)))
      ensures call.len > 0 ==>
                (r.EINVAL? <==> !call.fixed && !Clear(old(memset.areas), addr, addr + PageAlignUp(call.len)))
      ensures call.len > 0 ==> (r.EFAULT? <==> !r.EINVAL? && (call.shared || call.file) && call.frames.None?)
      ensures call.len > 0 ==>
                (r.Panic? <==> !r.EINVAL? && (call.shared || call.file) && call.frames.Some? && addr % 4096 != 0)
      ensures call.len > 0 ==> (r.ReadFailed? <==> !r.EINVAL? && !r.EFAULT? && !r.Panic? && call.file && !call.readOk)
      ensures r.EINVAL? ==> memset.areas == old(memset.areas)
      ensures r.EFAULT? || r.ReadFailed? || r.Panic? ==>
                memset.areas == CutFor(old(memset.areas), addr, addr + PageAlignUp(call.len), call.fixed)
      ensures r.Mapped? && call.len > 0 ==>
                memset.areas == CutFor(old(memset.areas), addr, addr + PageAlignUp(call.len), call.fixed)
                                + [NewArea(call, addr, PageAlignUp(call.len))]
      ensures r.Mapped? && call.len > 0 ==>
                r.addr == addr && AsAsked(memset.areas[|memset.areas| - 1], call, addr, PageAlignUp(call.len))
      ensures r.Mapped? ==> forall a: nat ::
                Covers(memset.areas, a) <==> Covers(old(memset.areas), a) || addr <= a < addr + PageAlignUp(call.len)
    {
      hide Layout; hide Covers; hide CutFor; hide FirstFree; hide Clear; hide NewArea; hide MapOutcome;
      hide LowestAbove; hide AsAsked;
      var len := PageAlignUp(call.len);
      addr := PickAddr(call.start);
      if len == 0 {
        return Mapped(addr), addr;
      }
      r := MapAt(call, addr, len);
    }

    /** `sys_munmap`. */
    method Munmap(start: nat, len: nat)
      requires Layout(memset.areas)
      modifies memset
      ensures Layout(memset.areas) && memset.areas == SubArea(old(memset.areas), start, start + len)
      ensures forall a: nat :: Covers(memset.areas, a) <==> Covers(old(memset.areas), a) && !(start <= a < start + len)
    {
      SubAreaLayout(memset.areas, start, start + len);
      var _ := memset.SubtractArea(start, start + len);
    }

    /** Any sequence of calls, up to the first panic, answers and leaves the areas as it has to,
        call by call, and keeps them disjoint. If all addresses and ranges are page-aligned, all
        areas stay so and no call panics. */
    method Run(calls: seq<MapOp>) returns (results: seq<MmapResult>)
      requires Layout(memset.areas)
      requires forall i :: 0 <= i < |calls| && calls[i].Map? ==> calls[i].call.Legal()
      modifies memset
      ensures Layout(memset.areas)
      ensures |results| <= |calls| && Answers(old(memset.areas), shms, calls, results)
      ensures memset.areas == AreasAfterAll(old(memset.areas), shms, calls[..|results|])
      ensures |results| < |calls| ==> |results| > 0 && results[|results| - 1] == Panic
      ensures PageAligned(old(memset.areas), shms) && AlignedCalls(calls) ==>
                Panic !in results && PageAligned(memset.areas, shms)
    {
      hide Layout; hide PageAligned; hide Outcome; hide AreasAfter; hide AreasAfterAll; hide AlignedCall; hide Answers;
      AreasAfterNone(memset.areas, shms, calls);
      ghost var start, aligned := memset.areas, PageAligned(memset.areas, shms) && AlignedCalls(calls);
      results := [];
      for n := 0 to |calls|
        invariant Layout(memset.areas) && |results| == n
        invariant memset.areas == AreasAfterAll(start, shms, calls[..n])
        invariant Answers(start, shms, calls, results)
        invariant aligned ==> PageAligned(memset.areas, shms) && Panic !in results
      {
        ghost var before := memset.areas;
        var r := Step(calls[n]);
        AreasAfterNext(start, shms, calls, results, r);
        if aligned {
          StepAligned(before, shms, calls[n]);
        }
        results := results + [r];
        if r.Panic? {
          return;
        }
      }
      assert calls[..|calls|] == calls;
    }

    method Step(op: MapOp) returns (r: MmapResult)
      requires Layout(memset.areas) && (op.Map? ==> op.call.Legal())
      modifies memset
      ensures Layout(memset.areas)
      ensures r == Outcome(old(memset.areas), shms, op) && memset.areas == AreasAfter(old(memset.areas), shms, op)
    {
      hide Layout; hide CutFor; hide FirstFree; hide Clear; hide SubArea; hide Covers;
      match op {
        case Map(call) =>
          var addr;
          r, addr := Mmap(call);
        case Unmap(start, len) =>
          Munmap(start, len);
          r := Unmapped;
      }
    }
  }

  /** The address of a mapping. */
  function AddrOf(areas: seq<MemArea>, shms: seq<Shm>, call: MmapCall): nat {
    if call.start == 0 then FirstFree(areas, shms) else call.start
  }

  /** What a call answers. */
  function Outcome(areas: seq<MemArea>, shms: seq<Shm>, op: MapOp): MmapResult {
    match op
    case Map(call) =>
      var addr, len := AddrOf(areas, shms, call), PageAlignUp(call.len);
      if call.len == 0 then Mapped(addr)
      else MapOutcome(call, addr, call.fixed || call.start == 0 || Clear(areas, addr, addr + len))
    case Unmap(_, _) => Unmapped
  }

  /** The areas after a call. */
  function AreasAfter(areas: seq<MemArea>, shms: seq<Shm>, op: MapOp): seq<MemArea> {
    match op
    case Map(call) =>
      var addr, len := AddrOf(areas, shms, call), PageAlignUp(call.len);
      var r := Outcome(areas, shms, op);
      if call.len == 0 || r.EINVAL? then areas
      else CutFor(areas, addr, addr + len, call.fixed)
           + if r.Mapped? && (call.Populated() ==> call.frames.Some?) then [NewArea(call, addr, len)] else []
    case Unmap(start, len) => SubArea(areas, start, start + len)
  }

  function AreasAfterAll(areas: seq<MemArea>, shms: seq<Shm>, ops: seq<MapOp>): seq<MemArea> {
    if ops == [] then areas else AreasAfter(AreasAfterAll(areas, shms, ops[..|ops| - 1]), shms, ops[|ops| - 1])
  }

  /** Each call so far is answered from the areas the calls before it left. */
  predicate Answers(areas: seq<MemArea>, shms: seq<Shm>, ops: seq<MapOp>, results: seq<MmapResult>) {
    && |results| <= |ops|
    && forall i :: 0 <= i < |results| ==> results[i] == Outcome(AreasAfterAll(areas, shms, ops[..i]), shms, ops[i])
  }

  lemma AreasAfterNone(areas: seq<MemArea>, shms: seq<Shm>, ops: seq<MapOp>)
    ensures AreasAfterAll(areas, shms, ops[..0]) == areas && Answers(areas, shms, ops, [])
  {
  }

  lemma AreasAfterNext(areas: seq<MemArea>, shms: seq<Shm>, ops: seq<MapOp>, results: seq<MmapResult>, r: MmapResult)
    requires |results| < |ops| && Answers(areas, shms, ops, results)
    requires r == Outcome(AreasAfterAll(areas, shms, ops[..|results|]), shms, ops[|results|])
    ensures Answers(areas, shms, ops, results + [r])
    ensures AreasAfterAll(areas, shms, ops[..|results| + 1])
         == AreasAfter(AreasAfterAll(areas, shms, ops[..|results|]), shms, ops[|results|])
  {
    hide Outcome; hide AreasAfter;
    assert ops[..|results| + 1][..|results|] == ops[..|results|];
  }

  datatype MapOp = Map(call: MmapCall) | Unmap(start: nat, len: nat)

  /** Areas and segments begin and end at page boundaries. */
  ghost predicate PageAligned(areas: seq<MemArea>, shms: seq<Shm>) {
    && (forall i :: 0 <= i < |areas| ==> areas[i].start % PAGE_SIZE == 0 && areas[i].End() % PAGE_SIZE == 0)
    && forall i :: 0 <= i < |shms| ==> (shms[i].start + shms[i].size) % PAGE_SIZE == 0
  }

  predicate AlignedCalls(calls: seq<MapOp>) {
    forall i :: 0 <= i < |calls| ==> AlignedCall(calls[i])
  }

  lemma FirstFreeAligned(areas: seq<MemArea>, shms: seq<Shm>)
    requires PageAligned(areas, shms)
    ensures FirstFree(areas, shms) % PAGE_SIZE == 0
  {
    LastEndIs(areas);
    LastShmIs(shms);
  }

  /** Cutting at page boundaries keeps them. */
  lemma SubAreaAligned(areas: seq<MemArea>, shms: seq<Shm>, lo: nat, hi: nat)
    requires PageAligned(areas, shms) && lo <= hi && lo % PAGE_SIZE == 0 && hi % PAGE_SIZE == 0
    ensures PageAligned(SubArea(areas, lo, hi), shms)
  {
    forall b | b in SubArea(areas, lo, hi) ensures b.start % PAGE_SIZE == 0 && b.End() % PAGE_SIZE == 0 {
      var i := PieceOf(areas, lo, hi, b);
      SubAligned(areas[i], lo, hi);
    }
  }

  lemma SubAligned(a: MemArea, lo: nat, hi: nat)
    requires a.start % PAGE_SIZE == 0 && a.End() % PAGE_SIZE == 0 && lo <= hi && lo % PAGE_SIZE == 0
            && hi % PAGE_SIZE == 0
    ensures var c := Sub(a, lo, hi);
            && (c.area.len != 0 ==> c.area.start % PAGE_SIZE == 0 && c.area.End() % PAGE_SIZE == 0)
            && (c.split.Some? ==> c.split.value.start % PAGE_SIZE == 0 && c.split.value.End() % PAGE_SIZE == 0)
  {
    hide TracksIn, TracksOut, Addresses;
  }

  predicate AlignedCall(op: MapOp) {
    match op
    case Map(call) => call.start % PAGE_SIZE == 0
    case Unmap(start, len) => start % PAGE_SIZE == 0 && len % PAGE_SIZE == 0
  }

  /** An aligned call does not panic and leaves aligned areas. */
  lemma StepAligned(areas: seq<MemArea>, shms: seq<Shm>, op: MapOp)
    requires PageAligned(areas, shms) && AlignedCall(op)
    ensures Outcome(areas, shms, op) != Panic && PageAligned(AreasAfter(areas, shms, op), shms)
  {
    match op
    case Map(call) =>
      var addr := AddrOf(areas, shms, call);
      FirstFreeAligned(areas, shms);
      SubAreaAligned(areas, shms, addr, addr + PageAlignUp(call.len));
      hide SubArea, FirstFree, Clear;
    case Unmap(start, len) => SubAreaAligned(areas, shms, start, start + len);
  }

  /** After an unmapping that ends inside a page, a shared mapping without a hint starts inside a
      page too, and mapping it panics. */
  method UnalignedUnmapPanics() returns (r: MmapResult)
    ensures r == Panic
  {
    hide LowestAbove; hide AsAsked;
    var memset := new MemSet([]);
    var space := new AddressSpace(memset);
    var private := MmapCall(0, 0x2000, false, false, false, None, true);
    var shared := MmapCall(0, 0x1000, false, true, false, Some([9]), true);
    CutInsidePage(private);
    WholePages();
    assert private.Legal() && shared.Legal();
    hide MmapCall.Legal;
    hide CutFor, SubArea, FirstFree, NewArea, Layout, Covers, Clear, PageAlignUp, DivCeil;
    var _, addr := space.Mmap(private);
    assert addr == 0x2_0000_0000;
    assert memset.areas == CutFor([], addr, addr + 0x2000, false) + [NewArea(private, addr, 0x2000)];
    space.Munmap(0x2_0000_1800, 0x800);
    r, addr := space.Mmap(shared);
    assert addr == 0x2_0000_1800;
  }

  lemma WholePages()
    ensures PageAlignUp(0x2000) == 0x2000 && PageAlignUp(0x1000) == 0x1000 && DivCeil(0x1000, PAGE_SIZE) == 1
  {
  }

  lemma CutInsidePage(call: MmapCall)
    requires !call.Populated() && !call.fixed
    ensures Layout([]) && FirstFree([], []) == 0x2_0000_0000
    ensures var areas := CutFor([], 0x2_0000_0000, 0x2_0000_2000, false) + [NewArea(call, 0x2_0000_0000, 0x2000)];
            FirstFree(SubArea(areas, 0x2_0000_1800, 0x2_0000_2000), []) == 0x2_0000_1800
  {
    var a := MemArea(MemType.Mmap, [], false, 0x2_0000_0000, 0x2000);
    var b := MemArea(MemType.Mmap, [], false, 0x2_0000_0000, 0x1800);
    assert CutFor([], 0x2_0000_0000, 0x2_0000_2000, false) + [NewArea(call, 0x2_0000_0000, 0x2000)] == [a];
    var lo, hi := 0x2_0000_1800, 0x2_0000_2000;
    assert Sub(a, lo, hi) == Cut(b, None, []);
    assert [a][..0] == [] && Kept([a][..0], lo, hi) == [] && Splits([a][..0], lo, hi) == [];
    assert Kept([a], lo, hi) == [b] && Splits([a], lo, hi) == [];
    assert [b][..0] == [] && LastEnd([b][..0]) == 0;
  }
}
