/** What each operation of the copy-on-write kernel answers, logs and leaves, as a relation on
    whole states; the state before an operation determines all of it. */
module CowSteps {
  import opened Common
  import opened FrameAllocators
  import opened MemAreas
  import opened EagerFork
  import opened CowMachines
  import opened CowAreas
  import opened CowLinks

  /** The processes, the memory, the reference counts, and all frames and the free frames of each
      region. */
  datatype Snapshot = Snapshot(procs: seq<Proc>, mem: map<nat, Page>, counts: map<nat, nat>,
                               homes: seq<set<nat>>, sets: seq<set<nat>>) {
    predicate Runs(p: nat) {
      p < |procs| && procs[p].Live?
    }

    /** An access to the page does not fault. */
    predicate Mapped(p: nat, page: nat, write: bool)
      requires Runs(p)
    {
      && page in procs[p].table
      && if write then procs[p].table[page].writable else procs[p].table[page].readable
    }
  }

  datatype KernelOp =
    | OpFork(pid: nat)
    | OpLoad(pid: nat, addr: nat, fileBytes: seq<Byte>)
    | OpStore(pid: nat, addr: nat, value: Byte, fileBytes: seq<Byte>)
    | OpMapLazy(pid: nat, mtype: MemType, hasFile: bool, start: nat, len: nat)
    | OpMapFrames(pid: nat, mtype: MemType, hasFile: bool, start: nat, count: nat, readable: bool, writable: bool)
    | OpUnmap(pid: nat, lo: nat, hi: nat)
    | OpExit(pid: nat)

  datatype OpResult = Ignored | Failed | Done | Got(value: Byte) | Child(pid: nat)

  datatype FaultResult = Resolved | NoMemory | NoArea

  /** A zero page with the bytes of a file at its start. */
  function PageFrom(bytes: seq<Byte>): Page
    requires |bytes| <= PAGE_SIZE
  {
    Page(bytes + seq(PAGE_SIZE - |bytes|, _ => 0))
  }

  /** What a page of the area holds when it is first touched. */
  function FirstContent(a: MemArea, bytes: seq<Byte>): Page
    requires |bytes| <= PAGE_SIZE
  {
    if a.hasFile then PageFrom(bytes) else ZeroPage()
  }

  predicate InArea(areas: seq<MemArea>, addr: nat) {
    exists i :: 0 <= i < |areas| && areas[i].Contains(addr)
  }

  /** The first area that contains the address. */
  function FirstArea(areas: seq<MemArea>, addr: nat): (r: Option<nat>)
    ensures r.Some? ==> r.value < |areas| && areas[r.value].Contains(addr)
                        && forall i :: 0 <= i < r.value ==> !areas[i].Contains(addr)
    ensures r.None? <==> !InArea(areas, addr)
  {
    if areas == [] then None
    else
      var n := |areas| - 1;
      var r := FirstArea(areas[..n], addr);
      if r.Some? then r else if areas[n].Contains(addr) then Some(n) else None
  }

  /** The first tracker of the page. */
  function FirstTrack(ts: seq<MapTrack>, page: nat): (r: Option<nat>)
    ensures r.Some? ==> r.value < |ts| && ts[r.value].vaddr == page
                        && forall i :: 0 <= i < r.value ==> ts[i].vaddr != page
    ensures r.None? <==> forall i :: 0 <= i < |ts| ==> ts[i].vaddr != page
  {
    if ts == [] then None
    else
      var n := |ts| - 1;
      var r := FirstTrack(ts[..n], page);
      if r.Some? then r else if ts[n].vaddr == page then Some(n) else None
  }

  // ---------- page faults ----------

  /** The tracker is of a private page whose frame has other trackers too. */
  predicate MustCopy(s: Snapshot, a: MemArea, t: MapTrack) {
    !a.IsShared() && t.frame in s.counts && s.counts[t.frame] > 1
  }

  /** How a fault at the address ends. It fails outside every area; for a page without a tracker,
      with fewer than ten free frames; and for a page that has to be copied, with none. */
  ghost function FaultAnswer(s: Snapshot, p: nat, addr: nat): FaultResult
    requires s.Runs(p)
  {
    var areas := s.procs[p].areas;
    var found := FirstArea(areas, addr);
    if found.None? then NoArea
    else
      var a := areas[found.value];
      var j := FirstTrack(a.tracks, PageAlignDown(addr));
      if j.None? then if |Union(s.sets)| < 10 then NoMemory else Resolved
      else if MustCopy(s, a, a.tracks[j.value]) && Union(s.sets) == {} then NoMemory
      else Resolved
  }

  /** Area `i` has frame `f` for the page, mapped writable. */
  function WithFill(s: Snapshot, sets: seq<set<nat>>, p: nat, i: nat, page: nat, f: nat, content: Page): Snapshot
    requires s.Runs(p) && i < |s.procs[p].areas|
  {
    var areas, table := s.procs[p].areas, s.procs[p].table;
    var proc := Live(WithTracks(areas, i, areas[i].tracks + [MapTrack(page, f)]), table[page := Pte(f, true, true)]);
    Snapshot(s.procs[p := proc], s.mem[f := content], s.counts[f := 1], s.homes, sets)
  }

  /** First touch takes the lowest free frame of the first region that has one. */
  ghost predicate FilledIn(s: Snapshot, s': Snapshot, added: seq<Event>, p: nat, i: nat, page: nat, bytes: seq<Byte>)
    requires s.Runs(p) && i < |s.procs[p].areas| && |bytes| <= PAGE_SIZE
  {
    var a := s.procs[p].areas[i];
    exists f ::
      && TookFirst(s.sets, s'.sets, f)
      && s' == WithFill(s, s'.sets, p, i, page, f, FirstContent(a, bytes))
      && added == [Filled(Key(p, page), FirstContent(a, bytes), if a.IsShared() then Some(f) else None)]
  }

  /** Tracker `j` of area `i` has a copy `f` of its frame, mapped writable. */
  function WithCopy(s: Snapshot, sets: seq<set<nat>>, p: nat, i: nat, j: nat, f: nat): Snapshot
    requires s.Runs(p) && i < |s.procs[p].areas| && j < |s.procs[p].areas[i].tracks|
    requires var g := s.procs[p].areas[i].tracks[j].frame; g in s.mem && g in s.counts && s.counts[g] > 1
  {
    var areas, table := s.procs[p].areas, s.procs[p].table;
    var t := areas[i].tracks[j];
    var ts := areas[i].tracks[j := MapTrack(t.vaddr, f)];
    Snapshot(s.procs[p := Live(WithTracks(areas, i, ts), table[t.vaddr := Pte(f, true, true)])],
             s.mem[f := s.mem[t.frame]], s.counts[t.frame := s.counts[t.frame] - 1][f := 1], s.homes, sets)
  }

  /** Tracker `j` of area `i` is mapped writable. */
  function WithEntry(s: Snapshot, p: nat, i: nat, j: nat): Snapshot
    requires s.Runs(p) && i < |s.procs[p].areas| && j < |s.procs[p].areas[i].tracks|
  {
    var t := s.procs[p].areas[i].tracks[j];
    s.(procs := s.procs[p := Live(s.procs[p].areas, s.procs[p].table[t.vaddr := Pte(t.frame, true, true)])])
  }

  /** A fault on a page with a tracker copies the frame if others have it, and maps it. */
  ghost predicate TakenOver(s: Snapshot, s': Snapshot, p: nat, i: nat, j: nat)
    requires s.Runs(p) && i < |s.procs[p].areas| && j < |s.procs[p].areas[i].tracks|
  {
    var a := s.procs[p].areas[i];
    if MustCopy(s, a, a.tracks[j]) then
      a.tracks[j].frame in s.mem && exists f :: TookFirst(s.sets, s'.sets, f) && s' == WithCopy(s, s'.sets, p, i, j, f)
    else
      s' == WithEntry(s, p, i, j)
  }

  /** A fault at the address leaves `s'` and adds to the log. */
  ghost predicate Faulted(s: Snapshot, s': Snapshot, added: seq<Event>, p: nat, addr: nat, bytes: seq<Byte>)
    requires s.Runs(p) && |bytes| <= PAGE_SIZE
  {
    if FaultAnswer(s, p, addr) != Resolved then s' == s && added == []
    else
      var i, page := FirstArea(s.procs[p].areas, addr).value, PageAlignDown(addr);
      var j := FirstTrack(s.procs[p].areas[i].tracks, page);
      if j.None? then FilledIn(s, s', added, p, i, page, bytes) else TakenOver(s, s', p, i, j.value) && added == []
  }

  lemma FilledUnique(s: Snapshot, t: Snapshot, xs: seq<Event>, t': Snapshot, ys: seq<Event>,
                     p: nat, i: nat, page: nat, bytes: seq<Byte>)
    requires s.Runs(p) && i < |s.procs[p].areas| && |bytes| <= PAGE_SIZE
    requires FilledIn(s, t, xs, p, i, page, bytes) && FilledIn(s, t', ys, p, i, page, bytes)
    ensures t == t' && xs == ys
  {
    hide TookFirst; hide FirstContent; hide WithFill;
    var a := s.procs[p].areas[i];
    var f :| && TookFirst(s.sets, t.sets, f) && t == WithFill(s, t.sets, p, i, page, f, FirstContent(a, bytes))
             && xs == [Filled(Key(p, page), FirstContent(a, bytes), if a.IsShared() then Some(f) else None)];
    var g :| && TookFirst(s.sets, t'.sets, g) && t' == WithFill(s, t'.sets, p, i, page, g, FirstContent(a, bytes))
             && ys == [Filled(Key(p, page), FirstContent(a, bytes), if a.IsShared() then Some(g) else None)];
    TookFirstUnique(s.sets, t.sets, f, t'.sets, g);
  }

  lemma TakenOverUnique(s: Snapshot, t: Snapshot, t': Snapshot, p: nat, i: nat, j: nat)
    requires s.Runs(p) && i < |s.procs[p].areas| && j < |s.procs[p].areas[i].tracks|
    requires TakenOver(s, t, p, i, j) && TakenOver(s, t', p, i, j)
    ensures t == t'
  {
    hide TookFirst; hide WithCopy;
    if MustCopy(s, s.procs[p].areas[i], s.procs[p].areas[i].tracks[j]) {
      var f :| TookFirst(s.sets, t.sets, f) && t == WithCopy(s, t.sets, p, i, j, f);
      var g :| TookFirst(s.sets, t'.sets, g) && t' == WithCopy(s, t'.sets, p, i, j, g);
      TookFirstUnique(s.sets, t.sets, f, t'.sets, g);
    }
  }

  lemma FaultedUnique(s: Snapshot, t: Snapshot, xs: seq<Event>, t': Snapshot, ys: seq<Event>,
                      p: nat, addr: nat, bytes: seq<Byte>)
    requires s.Runs(p) && |bytes| <= PAGE_SIZE
    requires Faulted(s, t, xs, p, addr, bytes) && Faulted(s, t', ys, p, addr, bytes)
    ensures t == t' && xs == ys
  {
    hide FilledIn; hide TakenOver; hide Union;
    if FaultAnswer(s, p, addr) == Resolved {
      var i, page := FirstArea(s.procs[p].areas, addr).value, PageAlignDown(addr);
      var j := FirstTrack(s.procs[p].areas[i].tracks, page);
      if j.None? {
        FilledUnique(s, t, xs, t', ys, p, i, page, bytes);
      } else {
        TakenOverUnique(s, t, t', p, i, j.value);
      }
    }
  }

  // ---------- loads and stores ----------

  /** The access fails: it faults, and the fault is not resolved. */
  ghost predicate Stuck(s: Snapshot, p: nat, addr: nat, write: bool)
    requires s.Runs(p)
  {
    !s.Mapped(p, PageAlignDown(addr), write) && FaultAnswer(s, p, addr) != Resolved
  }

  /** The page is made accessible, by a fault if need be. */
  ghost predicate Reached(s: Snapshot, t: Snapshot, added: seq<Event>, p: nat, addr: nat, bytes: seq<Byte>, write: bool)
    requires s.Runs(p) && |bytes| <= PAGE_SIZE
  {
    if s.Mapped(p, PageAlignDown(addr), write) then t == s && added == []
    else FaultAnswer(s, p, addr) == Resolved && Faulted(s, t, added, p, addr, bytes)
  }

  /** The byte at the address, through the page table. */
  function ByteAt(s: Snapshot, p: nat, addr: nat): Option<Byte>
    requires s.Runs(p)
  {
    var page := PageAlignDown(addr);
    if page in s.procs[p].table && s.procs[p].table[page].frame in s.mem
    then Some(s.mem[s.procs[p].table[page].frame].bytes[addr - page])
    else None
  }

  /** The byte at the address set, through the page table. */
  function WithByte(s: Snapshot, p: nat, addr: nat, b: Byte): Snapshot
    requires s.Runs(p) && ByteAt(s, p, addr).Some?
  {
    var page := PageAlignDown(addr);
    var f := s.procs[p].table[page].frame;
    s.(mem := s.mem[f := Page(s.mem[f].bytes[addr - page := b])])
  }

  ghost predicate LoadedFrom(s: Snapshot, s': Snapshot, added: seq<Event>, p: nat, addr: nat, bytes: seq<Byte>, b: Byte)
    requires s.Runs(p) && |bytes| <= PAGE_SIZE
  {
    && added != [] && added[|added| - 1] == Loaded(Key(p, PageAlignDown(addr)), addr % PAGE_SIZE, b)
    && Reached(s, s', added[..|added| - 1], p, addr, bytes, false)
    && s'.Runs(p) && ByteAt(s', p, addr) == Some(b)
  }

  ghost predicate StoredTo(s: Snapshot, s': Snapshot, added: seq<Event>, p: nat, addr: nat, bytes: seq<Byte>, b: Byte)
    requires s.Runs(p) && |bytes| <= PAGE_SIZE
  {
    && added != [] && added[|added| - 1] == Stored(Key(p, PageAlignDown(addr)), addr % PAGE_SIZE, b)
    && exists t :: && Reached(s, t, added[..|added| - 1], p, addr, bytes, true)
                   && t.Runs(p) && ByteAt(t, p, addr).Some? && s' == WithByte(t, p, addr, b)
  }

  lemma ReachedUnique(s: Snapshot, t: Snapshot, xs: seq<Event>, t': Snapshot, ys: seq<Event>,
                      p: nat, addr: nat, bytes: seq<Byte>, write: bool)
    requires s.Runs(p) && |bytes| <= PAGE_SIZE
    requires Reached(s, t, xs, p, addr, bytes, write) && Reached(s, t', ys, p, addr, bytes, write)
    ensures t == t' && xs == ys
  {
    hide Faulted; hide FaultAnswer;
    if !s.Mapped(p, PageAlignDown(addr), write) {
      FaultedUnique(s, t, xs, t', ys, p, addr, bytes);
    }
  }

  lemma LoadedUnique(s: Snapshot, t: Snapshot, xs: seq<Event>, b: Byte, t': Snapshot, ys: seq<Event>, c: Byte,
                     p: nat, addr: nat, bytes: seq<Byte>)
    requires s.Runs(p) && |bytes| <= PAGE_SIZE
    requires LoadedFrom(s, t, xs, p, addr, bytes, b) && LoadedFrom(s, t', ys, p, addr, bytes, c)
    ensures t == t' && xs == ys && b == c
  {
    hide Reached; hide ByteAt; hide PageAlignDown;
    ReachedUnique(s, t, xs[..|xs| - 1], t', ys[..|ys| - 1], p, addr, bytes, false);
    assert xs == xs[..|xs| - 1] + [xs[|xs| - 1]] && ys == ys[..|ys| - 1] + [ys[|ys| - 1]];
  }

  lemma StoredUnique(s: Snapshot, s1: Snapshot, xs: seq<Event>, s2: Snapshot, ys: seq<Event>,
                     p: nat, addr: nat, bytes: seq<Byte>, b: Byte)
    requires s.Runs(p) && |bytes| <= PAGE_SIZE
    requires StoredTo(s, s1, xs, p, addr, bytes, b) && StoredTo(s, s2, ys, p, addr, bytes, b)
    ensures s1 == s2 && xs == ys
  {
    hide Reached; hide ByteAt; hide WithByte; hide PageAlignDown;
    var t :| && Reached(s, t, xs[..|xs| - 1], p, addr, bytes, true)
             && t.Runs(p) && ByteAt(t, p, addr).Some? && s1 == WithByte(t, p, addr, b);
    var t' :| && Reached(s, t', ys[..|ys| - 1], p, addr, bytes, true)
              && t'.Runs(p) && ByteAt(t', p, addr).Some? && s2 == WithByte(t', p, addr, b);
    ReachedUnique(s, t, xs[..|xs| - 1], t', ys[..|ys| - 1], p, addr, bytes, true);
    assert xs == xs[..|xs| - 1] + [xs[|xs| - 1]] && ys == ys[..|ys| - 1] + [ys[|ys| - 1]];
  }

  // ---------- forks, mappings, unmappings and exits ----------

  /** The child has the parent's areas, and both map every tracked page, private ones read-only. */
  ghost predicate ForkedInto(s: Snapshot, s': Snapshot, p: nat)
    requires s.Runs(p)
  {
    var n, areas := |s.procs|, s.procs[p].areas;
    && |s'.procs| == n + 1 && s'.Runs(p) && s'.Runs(n)
    && Shares(s'.procs[p].table, s.procs[p].table, Flatten(areas))
    && Shares(s'.procs[n].table, map[], Flatten(areas))
    && s'.procs == s.procs[p := Live(areas, s'.procs[p].table)] + [Live(areas, s'.procs[n].table)]
    && s' == Snapshot(s'.procs, s.mem, Bump(s.counts, FramesIn(Flatten(areas))), s.homes, s.sets)
  }

  lemma SharesUnique(t: map<nat, Pte>, t': map<nat, Pte>, base: map<nat, Pte>, es: seq<Entry>)
    requires Shares(t, base, es) && Shares(t', base, es)
    ensures t == t'
  {
    forall v | v in t ensures t[v] == t'[v] {
      if v in Covered(es) {
        var e :| e in es && e.track.vaddr == v;
      }
    }
  }

  lemma ForkedUnique(s: Snapshot, t: Snapshot, t': Snapshot, p: nat)
    requires s.Runs(p) && ForkedInto(s, t, p) && ForkedInto(s, t', p)
    ensures t == t'
  {
    hide Shares; hide Flatten; hide Bump; hide FramesIn;
    var n, es := |s.procs|, Flatten(s.procs[p].areas);
    SharesUnique(t.procs[p].table, t'.procs[p].table, s.procs[p].table, es);
    SharesUnique(t.procs[n].table, t'.procs[n].table, map[], es);
  }

  /** The page table after mapping `n` pages of a run, and the counts of their frames. */
  function RunTable(table: map<nat, Pte>, start: nat, fs: seq<nat>, readable: bool, writable: bool, n: nat)
    : map<nat, Pte>
    requires n <= |fs|
  {
    if n == 0 then table
    else RunTable(table, start, fs, readable, writable, n - 1)
         [start + (n - 1) * PAGE_SIZE := Pte(fs[n - 1], readable, writable)]
  }

  function RunCounts(counts: map<nat, nat>, fs: seq<nat>, n: nat): map<nat, nat>
    requires n <= |fs|
  {
    if n == 0 then counts else RunCounts(counts, fs, n - 1)[fs[n - 1] := 1]
  }

  /** A new area whose pages have the frames `fs`. */
  function WithRun(s: Snapshot, sets: seq<set<nat>>, op: KernelOp, fs: seq<nat>): Snapshot
    requires op.OpMapFrames? && s.Runs(op.pid)
  {
    var proc := s.procs[op.pid];
    var table := RunTable(proc.table, op.start, fs, op.readable, op.writable, |fs|);
    Snapshot(s.procs[op.pid := Live(proc.areas + [NewRun(op.mtype, op.hasFile, op.start, fs)], table)], s.mem,
             RunCounts(s.counts, fs, |fs|), s.homes, sets)
  }

  /** The first touches of the pages of a run. */
  ghost function RunEvents(op: KernelOp, fs: seq<nat>): seq<Event>
    requires op.OpMapFrames?
  {
    var shared := op.mtype == Shared || op.mtype == ShareFile;
    FillEvents(FillSet(op.pid, op.start, fs, shared, op.readable, op.writable), |fs|)
  }

  /** The lowest run of the first region that has one becomes an area. */
  ghost predicate RunMapped(s: Snapshot, s': Snapshot, added: seq<Event>, op: KernelOp)
    requires op.OpMapFrames? && s.Runs(op.pid)
  {
    exists fs :: && Taken(s.sets, s'.sets, fs, op.count) && |fs| == op.count
                 && s' == WithRun(s, s'.sets, op, fs) && added == RunEvents(op, fs)
  }

  lemma RunMappedUnique(s: Snapshot, t: Snapshot, xs: seq<Event>, t': Snapshot, ys: seq<Event>, op: KernelOp)
    requires op.OpMapFrames? && s.Runs(op.pid) && op.count > 0
    requires RunMapped(s, t, xs, op) && RunMapped(s, t', ys, op)
    ensures t == t' && xs == ys
  {
    hide Taken; hide WithRun; hide RunEvents;
    var fs :| Taken(s.sets, t.sets, fs, op.count) && |fs| == op.count && t == WithRun(s, t.sets, op, fs)
              && xs == RunEvents(op, fs);
    var gs :| Taken(s.sets, t'.sets, gs, op.count) && |gs| == op.count && t' == WithRun(s, t'.sets, op, gs)
              && ys == RunEvents(op, gs);
    TakenUnique(s.sets, t.sets, fs, t'.sets, gs, op.count);
  }

  /** One tracker of each frame goes; the frames whose last tracker goes are cleared, and free in
      the region they are of. */
  ghost function Dropped(s: Snapshot, procs: seq<Proc>, fs: seq<nat>): Snapshot
    requires |s.homes| == |s.sets|
  {
    var freed := Freed(s.counts, SeqSet(fs));
    Snapshot(procs, Cleared(s.mem, freed), Release(s.counts, SeqSet(fs)), s.homes, GiveBack(s.homes, s.sets, freed))
  }

  ghost function AfterUnmap(s: Snapshot, p: nat, lo: nat, hi: nat): Snapshot
    requires s.Runs(p) && |s.homes| == |s.sets| && lo <= hi
  {
    var areas, table := s.procs[p].areas, s.procs[p].table;
    var after := SubArea(areas, lo, hi);
    Dropped(s, s.procs[p := Live(after, table - SeqSet(MemAreas.Unmapped(areas, lo, hi)))],
            FramesLost(Flatten(areas), after))
  }

  ghost function AfterExit(s: Snapshot, p: nat): Snapshot
    requires s.Runs(p) && |s.homes| == |s.sets|
  {
    Dropped(s, s.procs[p := Dead], AllFrames(Flatten(s.procs[p].areas)))
  }

  function AfterMapLazy(s: Snapshot, op: KernelOp): Snapshot
    requires op.OpMapLazy? && s.Runs(op.pid)
  {
    var area := MemArea(op.mtype, [], op.hasFile, op.start, op.len);
    s.(procs := s.procs[op.pid := Live(s.procs[op.pid].areas + [area], s.procs[op.pid].table)])
  }

  /** The mapped pages of the range. */
  ghost function PagesIn(table: map<nat, Pte>, lo: nat, hi: nat): set<nat> {
    set v | v in table && lo <= v < hi
  }

  // ---------- operations ----------

  /** The kernel carries out the operation; it ignores any other. */
  predicate LegalIn(procs: seq<Proc>, op: KernelOp) {
    && op.pid < |procs| && procs[op.pid].Live?
    && match op
       case OpFork(_) => true
       case OpLoad(_, _, bytes) => |bytes| <= PAGE_SIZE
       case OpStore(_, _, _, bytes) => |bytes| <= PAGE_SIZE
       case OpMapLazy(p, mtype, _, start, len) =>
         len % PAGE_SIZE == 0 && mtype != Shared && mtype != ShareFile && Clear(procs[p].areas, start, start + len)
       case OpMapFrames(p, mtype, _, start, count, readable, _) =>
         && start % PAGE_SIZE == 0 && count > 0 && mtype != Stack
         && (readable || mtype == Shared || mtype == ShareFile)
         && Clear(procs[p].areas, start, start + count * PAGE_SIZE)
       case OpUnmap(p, lo, hi) => lo <= hi
       case OpExit(_) => true
  }

  /** The operation leaves the kernel as it has to be. */
  predicate KeepsIn(procs: seq<Proc>, op: KernelOp)
    requires op.pid < |procs| && procs[op.pid].Live?
  {
    match op
    case OpMapLazy(_, _, _, start, _) => start % PAGE_SIZE == 0
    case OpUnmap(p, lo, hi) => CutKeeps(procs[p].areas, lo, hi) && CutAligned(procs[p].areas, lo, hi)
    case _ => true
  }

  predicate Harmless(op: KernelOp, procs: seq<Proc>) {
    LegalIn(procs, op) ==> op.pid < |procs| && procs[op.pid].Live? && KeepsIn(procs, op)
  }

  lemma LegalRuns(procs: seq<Proc>, op: KernelOp)
    ensures LegalIn(procs, op) ==> op.pid < |procs| && procs[op.pid].Live?
  {
  }

  /** What a legal operation answers, adds to the log and leaves. */
  ghost predicate Explains(op: KernelOp, r: OpResult, s: Snapshot, s': Snapshot, added: seq<Event>)
    requires LegalIn(s.procs, op)
  {
    && |s.homes| == |s.sets|
    && match op
       case OpFork(p) => r == Child(|s.procs|) && added == [Forked(p)] && ForkedInto(s, s', p)
       case OpLoad(p, addr, bytes) =>
         if Stuck(s, p, addr, false) then r == Failed && s' == s && added == []
         else r.Got? && LoadedFrom(s, s', added, p, addr, bytes, r.value)
       case OpStore(p, addr, b, bytes) =>
         if Stuck(s, p, addr, true) then r == Failed && s' == s && added == []
         else r == Done && StoredTo(s, s', added, p, addr, bytes, b)
       case OpMapLazy(_, _, _, _, _) => r == Done && s' == AfterMapLazy(s, op) && added == []
       case OpMapFrames(_, _, _, _, count, _, _) =>
         if NoRunAtAll(s.sets, count) then r == Failed && s' == s && added == []
         else r == Done && RunMapped(s, s', added, op)
       case OpUnmap(p, lo, hi) =>
         && r == Done && s' == AfterUnmap(s, p, lo, hi)
         && added == if KeepsIn(s.procs, op) then [Event.Unmapped(p, PagesIn(s.procs[p].table, lo, hi))] else []
       case OpExit(p) => r == Done && s' == AfterExit(s, p) && added == [Exited(p)]
  }

  /** The state before an operation determines its answer, what it logs and the state after it. */
  lemma ExplainsUnique(op: KernelOp, s: Snapshot, r: OpResult, t: Snapshot, xs: seq<Event>,
                       r': OpResult, t': Snapshot, ys: seq<Event>)
    requires LegalIn(s.procs, op) && Explains(op, r, s, t, xs) && Explains(op, r', s, t', ys)
    ensures r == r' && t == t' && xs == ys
  {
    hide ForkedInto; hide Stuck; hide LoadedFrom; hide StoredTo; hide RunMapped; hide AfterUnmap; hide AfterExit;
    hide Clear; hide CutKeeps; hide CutAligned; hide NoRunAtAll;
    match op
    case OpFork(p) => ForkedUnique(s, t, t', p);
    case OpLoad(p, addr, bytes) =>
      if !Stuck(s, p, addr, false) {
        LoadedUnique(s, t, xs, r.value, t', ys, r'.value, p, addr, bytes);
      }
    case OpStore(p, addr, b, bytes) =>
      if !Stuck(s, p, addr, true) {
        StoredUnique(s, t, xs, t', ys, p, addr, bytes, b);
      }
    case OpMapFrames(_, _, _, _, count, _, _) =>
      if !NoRunAtAll(s.sets, count) {
        RunMappedUnique(s, t, xs, t', ys, op);
      }
    case _ =>
  }

  // ---------- from the steps of the kernel to the relation ----------

  lemma Fills(s: Snapshot, taken: Snapshot, s': Snapshot, before: seq<Event>, after: seq<Event>,
              p: nat, i: nat, page: nat, f: nat, bytes: seq<Byte>)
    requires s.Runs(p) && i < |s.procs[p].areas| && |bytes| <= PAGE_SIZE
    requires taken == s.(sets := taken.sets) && TookFirst(s.sets, taken.sets, f)
    requires s' == WithFill(taken, taken.sets, p, i, page, f, FirstContent(s.procs[p].areas[i], bytes))
    requires var a := s.procs[p].areas[i];
             var name := if a.IsShared() then Some(f) else None;
             after == before + [Filled(Key(p, page), FirstContent(a, bytes), name)]
    ensures before <= after && FilledIn(s, s', after[|before|..], p, i, page, bytes)
  {
    hide TookFirst; hide FirstContent;
    var a := s.procs[p].areas[i];
    var added := [Filled(Key(p, page), FirstContent(a, bytes), if a.IsShared() then Some(f) else None)];
    assert after[|before|..] == added;
    assert TookFirst(s.sets, s'.sets, f) && s' == WithFill(s, s'.sets, p, i, page, f, FirstContent(a, bytes));
  }

  lemma CopySets(s: Snapshot, taken: Snapshot, p: nat, i: nat, j: nat, f: nat)
    requires s.Runs(p) && i < |s.procs[p].areas| && j < |s.procs[p].areas[i].tracks|
    requires var g := s.procs[p].areas[i].tracks[j].frame; g in s.mem && g in s.counts && s.counts[g] > 1
    requires taken == s.(sets := taken.sets)
    ensures WithCopy(taken, taken.sets, p, i, j, f) == WithCopy(s, taken.sets, p, i, j, f)
    ensures WithCopy(s, taken.sets, p, i, j, f).sets == taken.sets
  {
  }

  lemma StuckStays(s: Snapshot, s': Snapshot, added: seq<Event>, p: nat, addr: nat, bytes: seq<Byte>, write: bool)
    requires s.Runs(p) && |bytes| <= PAGE_SIZE && !s.Mapped(p, PageAlignDown(addr), write)
    requires FaultAnswer(s, p, addr) != Resolved && Faulted(s, s', added, p, addr, bytes)
    ensures Stuck(s, p, addr, write) && s' == s && added == []
  {
    hide FaultAnswer;
  }

  lemma StuckExplained(op: KernelOp, s: Snapshot, added: seq<Event>)
    requires LegalIn(s.procs, op) && (op.OpLoad? || op.OpStore?) && |s.homes| == |s.sets|
    requires Stuck(s, op.pid, op.addr, op.OpStore?) && added == []
    ensures Explains(op, Failed, s, s, added)
  {
    hide Stuck;
  }

  lemma ReachedByFault(s: Snapshot, t: Snapshot, added: seq<Event>, p: nat, addr: nat, bytes: seq<Byte>, write: bool)
    requires s.Runs(p) && |bytes| <= PAGE_SIZE && !s.Mapped(p, PageAlignDown(addr), write)
    requires FaultAnswer(s, p, addr) == Resolved && Faulted(s, t, added, p, addr, bytes)
    ensures Reached(s, t, added, p, addr, bytes, write) && !Stuck(s, p, addr, write)
  {
    hide Faulted; hide FaultAnswer;
  }

  lemma ReachedAtOnce(s: Snapshot, added: seq<Event>, p: nat, addr: nat, bytes: seq<Byte>, write: bool)
    requires s.Runs(p) && |bytes| <= PAGE_SIZE && s.Mapped(p, PageAlignDown(addr), write) && added == []
    ensures Reached(s, s, added, p, addr, bytes, write) && !Stuck(s, p, addr, write)
  {
    hide Faulted; hide FaultAnswer;
  }

  lemma ByteIsThere(s: Snapshot, p: nat, addr: nat)
    requires s.Runs(p) && PageAlignDown(addr) in s.procs[p].table
    requires s.procs[p].table[PageAlignDown(addr)].frame in s.mem
    ensures var page := PageAlignDown(addr);
            && addr - page == addr % PAGE_SIZE
            && ByteAt(s, p, addr) == Some(s.mem[s.procs[p].table[page].frame].bytes[addr - page])
  {
  }

  lemma LoadExplained(s: Snapshot, t: Snapshot, log: seq<Event>, before: seq<Event>, after: seq<Event>,
                      p: nat, addr: nat, bytes: seq<Byte>, b: Byte)
    requires s.Runs(p) && |bytes| <= PAGE_SIZE && |s.homes| == |s.sets| && !Stuck(s, p, addr, false)
    requires log <= before && Reached(s, t, before[|log|..], p, addr, bytes, false)
    requires after == before + [Loaded(Key(p, PageAlignDown(addr)), addr % PAGE_SIZE, b)]
    requires t.Runs(p) && ByteAt(t, p, addr) == Some(b)
    ensures Explains(OpLoad(p, addr, bytes), Got(b), s, t, after[|log|..])
  {
    hide Reached; hide Stuck; hide ByteAt; hide PageAlignDown;
    var added := after[|log|..];
    assert added[..|added| - 1] == before[|log|..];
  }

  lemma StoreExplained(s: Snapshot, t: Snapshot, log: seq<Event>, before: seq<Event>, after: seq<Event>,
                       p: nat, addr: nat, bytes: seq<Byte>, b: Byte)
    requires s.Runs(p) && |bytes| <= PAGE_SIZE && |s.homes| == |s.sets| && !Stuck(s, p, addr, true)
    requires log <= before && Reached(s, t, before[|log|..], p, addr, bytes, true)
    requires after == before + [Stored(Key(p, PageAlignDown(addr)), addr % PAGE_SIZE, b)]
    requires t.Runs(p) && ByteAt(t, p, addr).Some?
    ensures Explains(OpStore(p, addr, b, bytes), Done, s, WithByte(t, p, addr, b), after[|log|..])
  {
    hide Reached; hide Stuck; hide ByteAt; hide PageAlignDown; hide WithByte;
    var added := after[|log|..];
    assert added[..|added| - 1] == before[|log|..];
  }

  lemma ForkExplained(s: Snapshot, s': Snapshot, p: nat, parent: map<nat, Pte>, child: map<nat, Pte>,
                      before: seq<Event>, after: seq<Event>)
    requires s.Runs(p) && |s.homes| == |s.sets|
    requires var es := Flatten(s.procs[p].areas);
             && Shares(parent, s.procs[p].table, es) && Shares(child, map[], es)
             && s'.counts == Bump(s.counts, FramesIn(es))
    requires s'.procs == s.procs[p := s.procs[p].(table := parent)] + [Live(s.procs[p].areas, child)]
    requires s'.mem == s.mem && s'.homes == s.homes && s'.sets == s.sets
    requires after == before + [Forked(p)]
    ensures Explains(OpFork(p), Child(|s.procs|), s, s', after[|before|..])
  {
    hide Shares; hide Flatten; hide Bump; hide FramesIn;
    assert after[|before|..] == [Forked(p)];
  }

  lemma EventsOfRun(op: KernelOp, fs: seq<nat>, a: MemArea)
    requires op.OpMapFrames? && a.mtype == op.mtype
    ensures RunEvents(op, fs)
         == FillEvents(FillSet(op.pid, op.start, fs, a.IsShared(), op.readable, op.writable), |fs|)
  {
  }

  lemma RunInstalled(s: Snapshot, s': Snapshot, op: KernelOp, fs: seq<nat>, table: map<nat, Pte>)
    requires op.OpMapFrames? && s.Runs(op.pid)
    requires table == RunTable(s.procs[op.pid].table, op.start, fs, op.readable, op.writable, |fs|)
    requires s'.procs == s.procs[op.pid := Live(s.procs[op.pid].areas
                                                + [NewRun(op.mtype, op.hasFile, op.start, fs)], table)]
    requires s'.mem == s.mem && s'.counts == RunCounts(s.counts, fs, |fs|) && s'.homes == s.homes && s'.sets == s.sets
    ensures s' == WithRun(s, s.sets, op, fs)
  {
    hide RunTable; hide RunCounts; hide NewRun;
  }

  lemma LazyExplained(op: KernelOp, s: Snapshot, s': Snapshot)
    requires op.OpMapLazy? && LegalIn(s.procs, op) && |s.homes| == |s.sets|
    requires var area := MemArea(op.mtype, [], op.hasFile, op.start, op.len);
             s' == s.(procs := s.procs[op.pid := Live(s.procs[op.pid].areas + [area], s.procs[op.pid].table)])
    ensures Explains(op, Done, s, s', [])
  {
    hide Clear;
  }

  lemma NoRunExplained(op: KernelOp, s: Snapshot, added: seq<Event>)
    requires op.OpMapFrames? && LegalIn(s.procs, op) && |s.homes| == |s.sets| && NoRunAtAll(s.sets, op.count)
    requires added == []
    ensures Explains(op, Failed, s, s, added)
  {
    hide NoRunAtAll; hide Clear;
  }

  lemma RunExplained(op: KernelOp, s: Snapshot, taken: Snapshot, s': Snapshot, fs: seq<nat>,
                     before: seq<Event>, after: seq<Event>)
    requires op.OpMapFrames? && LegalIn(s.procs, op) && |s.homes| == |s.sets| && !NoRunAtAll(s.sets, op.count)
    requires taken == s.(sets := taken.sets) && Taken(s.sets, taken.sets, fs, op.count) && |fs| == op.count
    requires s' == WithRun(taken, taken.sets, op, fs) && after == before + RunEvents(op, fs)
    ensures Explains(op, Done, s, s', after[|before|..])
  {
    hide NoRunAtAll; hide Clear; hide Taken; hide RunEvents; hide RunTable; hide RunCounts;
    assert after[|before|..] == RunEvents(op, fs);
    assert s' == WithRun(s, s'.sets, op, fs);
    assert RunMapped(s, s', after[|before|..], op);
  }

  lemma UnmapExplained(s: Snapshot, s': Snapshot, p: nat, lo: nat, hi: nat, before: seq<Event>, after: seq<Event>,
                       pages: set<nat>)
    requires s.Runs(p) && lo <= hi && |s.homes| == |s.sets| && s' == AfterUnmap(s, p, lo, hi)
    requires forall v: nat :: v in pages <==> v in s.procs[p].table && lo <= v < hi
    requires after == before + if CutKeeps(s.procs[p].areas, lo, hi) && CutAligned(s.procs[p].areas, lo, hi)
                               then [Event.Unmapped(p, pages)] else []
    ensures Explains(OpUnmap(p, lo, hi), Done, s, s', after[|before|..])
  {
    hide AfterUnmap; hide CutKeeps; hide CutAligned;
    assert pages == PagesIn(s.procs[p].table, lo, hi);
  }

  lemma NoneFreed(counts: map<nat, nat>, mem: map<nat, Page>, fs: seq<nat>)
    ensures Freed(counts, SeqSet(fs[..0])) == {} && Release(counts, SeqSet(fs[..0])) == counts
    ensures Cleared(mem, {}) == mem
  {
  }

  // ---------- runs ----------

  /** The log, run on the machine that forks by copying, gives the machine that the state stands
      for. */
  ghost predicate Stands(s: Snapshot, log: seq<Event>) {
    exists m: Machine :: && m.mem == s.mem && m.counts == s.counts && m.free == Union(s.sets)
                         && Inv(m) && Linked(s.procs, m) && Replay(INITIAL, log) == Some(Abs(m))
  }

  ghost predicate Answered(op: KernelOp, r: OpResult, s: Snapshot, s': Snapshot, added: seq<Event>) {
    if LegalIn(s.procs, op) then Explains(op, r, s, s', added) else r == Ignored && s' == s && added == []
  }

  /** Operation `i` adds `log[marks[i]..marks[i + 1]]` and leads from `shots[i]`, which the log before
      it stands for, to `shots[i + 1]`. */
  ghost predicate StepLog(op: KernelOp, r: OpResult, marks: seq<nat>, shots: seq<Snapshot>, log: seq<Event>, i: nat)
    requires i + 1 < |marks| && |marks| == |shots|
  {
    && marks[i] <= marks[i + 1] <= |log|
    && Stands(shots[i], log[..marks[i]])
    && Answered(op, r, shots[i], shots[i + 1], log[marks[i]..marks[i + 1]])
  }

  /** `marks` divides the log from `start` on into what each operation added, and `shots` are the
      states between the operations. */
  ghost predicate RunLog(ops: seq<KernelOp>, results: seq<OpResult>, marks: seq<nat>, shots: seq<Snapshot>,
                         log: seq<Event>, start: nat)
  {
    && |results| <= |ops| && |marks| == |shots| == |results| + 1
    && marks[0] == start && marks[|results|] == |log|
    && forall i :: 0 <= i < |results| ==> StepLog(ops[i], results[i], marks, shots, log, i)
  }

  lemma RunLogNone(ops: seq<KernelOp>, marks: seq<nat>, shots: seq<Snapshot>, log: seq<Event>)
    requires |marks| == |shots| == 1 && marks[0] == |log|
    ensures RunLog(ops, [], marks, shots, log, |log|)
  {
  }

  lemma RunLogNext(ops: seq<KernelOp>, results: seq<OpResult>, marks: seq<nat>, shots: seq<Snapshot>,
                   log: seq<Event>, log': seq<Event>, start: nat, r: OpResult, s: Snapshot)
    requires RunLog(ops, results, marks, shots, log, start) && |results| < |ops| && log <= log'
    requires Stands(shots[|results|], log) && Answered(ops[|results|], r, shots[|results|], s, log'[|log|..])
    ensures RunLog(ops, results + [r], marks + [|log'|], shots + [s], log', start)
  {
    hide Answered; hide Stands;
    var n, marks', shots' := |results|, marks + [|log'|], shots + [s];
    forall i | 0 <= i < n ensures StepLog(ops[i], (results + [r])[i], marks', shots', log', i) {
      assert StepLog(ops[i], results[i], marks, shots, log, i);
      assert log'[marks[i]..marks[i + 1]] == log[marks[i]..marks[i + 1]];
      assert log'[..marks[i]] == log[..marks[i]];
    }
    assert log'[..|log|] == log && log'[|log|..|log'|] == log'[|log|..];
    assert StepLog(ops[n], r, marks', shots', log', n);
  }

  lemma AnsweredUnique(op: KernelOp, s: Snapshot, r: OpResult, t: Snapshot, xs: seq<Event>,
                       r': OpResult, t': Snapshot, ys: seq<Event>)
    requires Answered(op, r, s, t, xs) && Answered(op, r', s, t', ys)
    ensures r == r' && t == t' && xs == ys
  {
    hide Explains; hide LegalIn;
    if LegalIn(s.procs, op) {
      ExplainsUnique(op, s, r, t, xs, r', t', ys);
    }
  }

  /** The first state and the operations determine every answer, every state and what every
      operation logs. */
  lemma {:induction false} RunLogUnique(ops: seq<KernelOp>, n: nat, start: nat,
                                        results: seq<OpResult>, marks: seq<nat>, shots: seq<Snapshot>, log: seq<Event>,
                                        results': seq<OpResult>, marks': seq<nat>, shots': seq<Snapshot>,
                                        log': seq<Event>)
    requires RunLog(ops, results, marks, shots, log, start) && RunLog(ops, results', marks', shots', log', start)
    requires shots[0] == shots'[0] && n < |results| && n < |results'|
    ensures results[n] == results'[n] && shots[n + 1] == shots'[n + 1] && marks[n + 1] == marks'[n + 1]
    ensures marks[n] == marks'[n] && marks[n] <= marks[n + 1] <= |log| && marks[n + 1] <= |log'|
    ensures log[marks[n]..marks[n + 1]] == log'[marks[n]..marks[n + 1]]
    decreases n
  {
    hide Stands; hide Answered;
    if n > 0 {
      RunLogUnique(ops, n - 1, start, results, marks, shots, log, results', marks', shots', log');
    }
    assert StepLog(ops[n], results[n], marks, shots, log, n);
    assert StepLog(ops[n], results'[n], marks', shots', log', n);
    var xs, ys := log[marks[n]..marks[n + 1]], log'[marks'[n]..marks'[n + 1]];
    AnsweredUnique(ops[n], shots[n], results[n], shots[n + 1], xs, results'[n], shots'[n + 1], ys);
    assert |xs| == |ys|;
  }

  /** What the eager machine has, after a log, where the load reads. */
  function LoadedByte(log: seq<Event>, op: KernelOp): Option<Byte>
    requires op.OpLoad?
  {
    ByteAfter(INITIAL, log, Key(op.pid, PageAlignDown(op.addr)), op.addr % PAGE_SIZE)
  }

  /** Each byte loaded is the one the eager machine has there at that point. */
  ghost predicate LoadsAgree(ops: seq<KernelOp>, results: seq<OpResult>, marks: seq<nat>, log: seq<Event>) {
    && |results| <= |ops| && |marks| == |results| + 1
    && forall i :: 0 <= i < |results| && ops[i].OpLoad? && results[i].Got? ==>
         0 < marks[i + 1] <= |log| && LoadedByte(log[..marks[i + 1] - 1], ops[i]) == Some(results[i].value)
  }

  lemma LoadLast(op: KernelOp, r: OpResult, s: Snapshot, s': Snapshot, added: seq<Event>)
    requires Answered(op, r, s, s', added) && op.OpLoad? && r.Got?
    ensures added != []
    ensures added[|added| - 1] == Loaded(Key(op.pid, PageAlignDown(op.addr)), op.addr % PAGE_SIZE, r.value)
  {
    hide Stuck; hide Reached; hide ByteAt; hide PageAlignDown;
  }

  lemma LoadAgrees(ops: seq<KernelOp>, results: seq<OpResult>, marks: seq<nat>, shots: seq<Snapshot>,
                   log: seq<Event>, start: nat, n: nat)
    requires RunLog(ops, results, marks, shots, log, start) && Replay(INITIAL, log).Some?
    requires n < |results| && ops[n].OpLoad? && results[n].Got?
    ensures 0 < marks[n + 1] <= |log| && LoadedByte(log[..marks[n + 1] - 1], ops[n]) == Some(results[n].value)
  {
    hide Answered; hide Stands; hide PageAlignDown; hide Replay; hide ByteAfter;
    assert StepLog(ops[n], results[n], marks, shots, log, n);
    var added := log[marks[n]..marks[n + 1]];
    LoadLast(ops[n], results[n], shots[n], shots[n + 1], added);
    assert added[|added| - 1] == log[marks[n + 1] - 1];
    LoadedIsThere(INITIAL, log, marks[n + 1] - 1);
  }

  lemma AllLoadsAgree(ops: seq<KernelOp>, results: seq<OpResult>, marks: seq<nat>, shots: seq<Snapshot>,
                      log: seq<Event>, start: nat)
    requires RunLog(ops, results, marks, shots, log, start) && Replay(INITIAL, log).Some?
    ensures LoadsAgree(ops, results, marks, log)
  {
    hide StepLog; hide Replay; hide LoadedByte;
    forall n | 0 <= n < |results| && ops[n].OpLoad? && results[n].Got?
      ensures 0 < marks[n + 1] <= |log| && LoadedByte(log[..marks[n + 1] - 1], ops[n]) == Some(results[n].value)
    {
      LoadAgrees(ops, results, marks, shots, log, start, n);
    }
  }
}
