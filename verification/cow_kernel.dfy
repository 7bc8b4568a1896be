/** The copy-on-write kernel: fork, page faults, loads, stores, mappings and exits over the
    area lists, page tables, reference counts and frames of all processes. The log records
    what a user could observe; replaying it on the eager machine is always possible and ends
    in the machine the kernel stands for. */
module CowKernels {
  import opened Common
  import opened FrameAllocators
  import opened MemAreas
  import opened EagerFork
  import opened CowMachines
  import opened CowAreas
  import opened CowLinks
  import opened CowSteps

  /** The first area that contains the address. */
  method FindArea(areas: seq<MemArea>, addr: nat) returns (r: Option<nat>)
    ensures r == FirstArea(areas, addr)
    ensures r.Some? ==> r.value < |areas| && areas[r.value].Contains(addr)
                        && forall i :: 0 <= i < r.value ==> !areas[i].Contains(addr)
    ensures r.None? <==> !InArea(areas, addr)
  {
    for i := 0 to |areas|
      invariant forall j :: 0 <= j < i ==> !areas[j].Contains(addr)
    {
      if areas[i].Contains(addr) {
        return Some(i);
      }
    }
    return None;
  }

  /** The first tracker of the page. */
  method FindTrack(a: MemArea, page: nat) returns (r: Option<nat>)
    ensures r == FirstTrack(a.tracks, page)
    ensures r.Some? ==> r.value < |a.tracks| && a.tracks[r.value].vaddr == page
    ensures r.None? <==> !HasTrack(a, page)
  {
    for i := 0 to |a.tracks|
      invariant forall j :: 0 <= j < i ==> a.tracks[j].vaddr != page
    {
      if a.tracks[i].vaddr == page {
        assert a.tracks[i] in a.tracks;
        return Some(i);
      }
    }
    return None;
  }

  /** Maps every tracked page in both page tables and takes one more reference to its frame. */
  method ShareTracks(es: seq<Entry>, table: map<nat, Pte>, counts: map<nat, nat>)
    returns (parentTable: map<nat, Pte>, childTable: map<nat, Pte>, counts': map<nat, nat>)
    requires forall i, j :: 0 <= i < j < |es| ==> es[i].track.vaddr != es[j].track.vaddr
    requires forall i, j :: 0 <= i < j < |es| ==> es[i].track.frame != es[j].track.frame
    requires forall e :: e in es ==> e.track.frame in counts
    ensures Shares(parentTable, table, es) && Shares(childTable, map[], es)
    ensures counts' == Bump(counts, FramesIn(es))
  {
    parentTable, childTable, counts' := table, map[], counts;
    for i := 0 to |es|
      invariant Shares(parentTable, table, es[..i]) && Shares(childTable, map[], es[..i])
      invariant counts' == Bump(counts, FramesIn(es[..i]))
    {
      var t := es[i].track;
      SharesNext(parentTable, table, es, i);
      SharesNext(childTable, map[], es, i);
      FramesInNext(es, i);
      assert es[i] in es;
      assert t.frame !in FramesIn(es[..i]);
      childTable := childTable[t.vaddr := ForkPte(Ref(t.frame, es[i].shared))];
      parentTable := parentTable[t.vaddr := ForkPte(Ref(t.frame, es[i].shared))];
      counts' := counts'[t.frame := counts'[t.frame] + 1];
    }
    assert es[..|es|] == es;
  }

  /** The page table and the counts after mapping the run page by page. */
  method InstallRun(ghost s: FillSet, fs: seq<nat>, start: nat, readable: bool, writable: bool,
                    table: map<nat, Pte>, counts: map<nat, nat>, ghost m: Machine)
    returns (table': map<nat, Pte>, counts': map<nat, nat>)
    requires s.fs == fs && s.start == start && s.readable == readable && s.writable == writable
    requires TableMatches(table, m.table, s.p) && counts == m.counts
    ensures TableMatches(table', FillMany(m, s, |fs|).table, s.p) && counts' == FillMany(m, s, |fs|).counts
    ensures table' == RunTable(table, start, fs, readable, writable, |fs|) && counts' == RunCounts(counts, fs, |fs|)
  {
    hide TableMatches;
    table', counts' := table, counts;
    for i := 0 to |fs|
      invariant TableMatches(table', FillMany(m, s, i).table, s.p) && counts' == FillMany(m, s, i).counts
      invariant table' == RunTable(table, start, fs, readable, writable, i) && counts' == RunCounts(counts, fs, i)
    {
      TablePut(table', FillMany(m, s, i).table, s.p, start + i * PAGE_SIZE, Pte(fs[i], readable, writable));
      table' := table'[start + i * PAGE_SIZE := Pte(fs[i], readable, writable)];
      counts' := counts'[fs[i] := 1];
    }
  }

  class CowKernel {
    const frames: FrameAllocator
    var procs: seq<Proc>
    var mem: map<nat, Page>
    var counts: map<nat, nat>
    ghost var m: Machine
    ghost var log: seq<Event>

    ghost predicate Valid()
      reads this, frames, frames.regions
    {
      frames.Valid() && CoreValid(frames.Free())
    }

    /** `free` are the frames without a tracker. */
    ghost predicate CoreValid(free: set<nat>)
      reads this, frames
    {
      && m.mem == mem && m.counts == counts && m.free == free
      && counts.Keys <= Managed(frames.regions)
      && Inv(m)
      && Linked(procs, m)
      && Replay(INITIAL, log) == Some(Abs(m))
    }

    /** A store to the page would not fault. */
    predicate Writable(p: nat, page: nat)
      requires Runs(p)
      reads this
    {
      page in procs[p].table && procs[p].table[page].readable && procs[p].table[page].writable
    }

    predicate Runs(p: nat)
      reads this
    {
      p < |procs| && procs[p].Live?
    }

    /** One process without memory, and all frames zero. */
    constructor (frames: FrameAllocator, mem: map<nat, Page>)
      requires frames.Valid() && frames.Free() <= mem.Keys
      requires forall f :: f in frames.Free() ==> mem[f] == ZeroPage()
      ensures Valid() && this.frames == frames && procs == [Live([], map[])] && log == []
    {
      this.frames, this.mem := frames, mem;
      procs, counts := [Live([], map[])], map[];
      m := Machine([true], map[], map[], mem, map[], frames.Free());
      log := [];
    }

    /** Installs `pte` for a page that has a tracker. */
    method MapPage(p: nat, page: nat, pte: Pte)
      requires Valid() && Runs(p) && Key(p, page) in m.refs && PteSound(m.refs[Key(p, page)], pte, counts)
      modifies this
      ensures Valid() && log == old(log)
      ensures mem == old(mem) && counts == old(counts)
      ensures procs == old(procs)[p := old(procs)[p].(table := old(procs)[p].table[page := pte])]
    {
      hide Inv; hide Linked; hide Replay; hide Abs; hide FrameAllocator.Valid; hide FrameAllocator.Free; hide Managed;
      RemapStep(m, Key(p, page), pte);
      ghost var m' := Remap(m, Key(p, page), pte);
      MapLinks(procs, m, p, page, pte);
      procs := procs[p := procs[p].(table := procs[p].table[page := pte])];
      m := m';
    }

    /** The copy branch of a fault: the page gets a private copy of the frame it shares. */
    method CopyPage(p: nat, i: nat, j: nat, g: nat)
      requires frames.Valid() && CoreValid(frames.Free() + {g}) && g !in frames.Free() && g in Managed(frames.regions)
      requires Runs(p) && i < |procs[p].areas| && j < |procs[p].areas[i].tracks|
      requires !procs[p].areas[i].IsShared()
      requires var f := procs[p].areas[i].tracks[j].frame; f in counts && counts[f] > 1 && f in mem
      modifies this
      ensures Valid() && log == old(log)
      ensures Shot() == WithCopy(old(Shot()), frames.Sets(), p, i, j, g)
      ensures Runs(p) && Writable(p, old(procs)[p].areas[i].tracks[j].vaddr)
    {
      hide Inv; hide Linked; hide Replay; hide Abs; hide FrameAllocator.Valid; hide FrameAllocator.Free; hide Managed;
      var a := procs[p].areas[i];
      var t := a.tracks[j];
      ghost var k := Key(p, t.vaddr);
      TrackIsRef(procs, m, p, i, j);
      CopyStep(m, k, g);
      ghost var m' := CopyTo(m, k, g);
      mem := mem[g := mem[t.frame]];
      counts := counts[t.frame := counts[t.frame] - 1][g := 1];
      var ts := a.tracks[j := MapTrack(t.vaddr, g)];
      var proc := Live(WithTracks(procs[p].areas, i, ts), procs[p].table[t.vaddr := Pte(g, true, true)]);
      ReplaceLinks(procs, m, m', p, i, j, g);
      procs := procs[p := proc];
      m := m';
    }

    /** The first-touch branch of a fault: the page gets a frame of its own. */
    method FillPage(p: nat, i: nat, page: nat, g: nat, content: Page)
      requires frames.Valid() && CoreValid(frames.Free() + {g}) && g !in frames.Free() && g in Managed(frames.regions)
      requires Runs(p) && i < |procs[p].areas| && procs[p].areas[i].Contains(page) && page % PAGE_SIZE == 0
      requires !HasTrack(procs[p].areas[i], page)
      modifies this
      ensures Valid()
      ensures Shot() == WithFill(old(Shot()), frames.Sets(), p, i, page, g, content)
      ensures var name := if old(procs)[p].areas[i].IsShared() then Some(g) else None;
              log == old(log) + [Filled(Key(p, page), content, name)]
      ensures Runs(p) && Writable(p, page)
    {
      hide Inv; hide Linked; hide Replay; hide Abs; hide FrameAllocator.Valid; hide FrameAllocator.Free; hide Managed;
      var a := procs[p].areas[i];
      ghost var k := Key(p, page);
      AddLinks(procs, m, p, i, page, g, content);
      FillStep(m, k, g, a.IsShared(), content, true, true);
      ghost var m' := FillWith(m, k, g, a.IsShared(), content, true, true);
      Extend(log, m, m', Filled(k, content, if a.IsShared() then Some(g) else None));
      mem := mem[g := content];
      counts := counts[g := 1];
      procs := procs[p := Live(WithTracks(procs[p].areas, i, a.tracks + [MapTrack(page, g)]),
                               procs[p].table[page := Pte(g, true, true)])];
      m := m';
      log := log + [Filled(k, content, if a.IsShared() then Some(g) else None)];
    }

    /** A frame for a new tracker. */
    method TakeFrame() returns (r: Option<nat>)
      requires Valid()
      modifies frames.regions
      ensures frames.Valid()
      ensures r.None? ==> Valid() && old(frames.Free()) == {} && frames.Sets() == old(frames.Sets())
      ensures r.Some? ==> TookFirst(old(frames.Sets()), frames.Sets(), r.value)
      ensures r.Some? ==> && CoreValid(frames.Free() + {r.value})
                          && r.value !in frames.Free() && r.value in Managed(frames.regions)
    {
      hide Inv; hide Linked; hide Replay; hide Abs; hide FrameAllocator.Valid; hide FrameAllocator.Free; hide Managed;
      ghost var free := frames.Free();
      r := frames.FrameAlloc();
      if r.Some? {
        assert frames.Free() + {r.value} == free;
      } else {
        assert frames.Free() == free;
      }
    }

    /** The branch of `user_cow_int` for a page without a tracker. */
    method FaultUntracked(p: nat, i: nat, page: nat, fileBytes: seq<Byte>) returns (r: FaultResult)
      requires Valid() && Runs(p) && |fileBytes| <= PAGE_SIZE
      requires i < |procs[p].areas| && procs[p].areas[i].Contains(page) && page % PAGE_SIZE == 0
      requires !HasTrack(procs[p].areas[i], page)
      modifies this, frames.regions
      ensures Valid() && Runs(p) && old(log) <= log
      ensures r == if |old(frames.Free())| < 10 then NoMemory else Resolved
      ensures r.Resolved? ==> && Writable(p, page)
                              && FilledIn(old(Shot()), Shot(), log[|old(log)|..], p, i, page, fileBytes)
      ensures r.NoMemory? ==> Shot() == old(Shot()) && log == old(log)
    {
      hide Inv; hide Linked; hide Replay; hide Abs; hide FrameAllocator.Valid; hide FrameAllocator.Free; hide Managed;
      hide TookFirst; hide FrameAllocator.Sets;
      hide WithFill; hide FilledIn; hide FirstContent;
      var available := frames.GetFreePageCount();
      if available < 10 {
        return NoMemory;
      }
      var frame := TakeFrame();
      if frame.None? {
        return NoMemory;
      }
      ghost var taken := Shot();
      FillPage(p, i, page, frame.value, FirstContent(procs[p].areas[i], fileBytes));
      Fills(old(Shot()), taken, Shot(), old(log), log, p, i, page, frame.value, fileBytes);
      return Resolved;
    }

    /** The branch of `user_cow_int` for a page with a tracker: a shared page is remapped, a
        frame with other trackers is copied, and a frame without is taken back. */
    method FaultTracked(p: nat, i: nat, j: nat) returns (r: FaultResult)
      requires Valid() && Runs(p) && i < |procs[p].areas| && j < |procs[p].areas[i].tracks|
      modifies this, frames.regions
      ensures Valid() && Runs(p) && log == old(log)
      ensures var a := old(procs)[p].areas[i];
              r == if MustCopy(old(Shot()), a, a.tracks[j]) && old(frames.Free()) == {} then NoMemory else Resolved
      ensures r.Resolved? ==> Writable(p, old(procs)[p].areas[i].tracks[j].vaddr)
      ensures r.Resolved? ==> TakenOver(old(Shot()), Shot(), p, i, j)
      ensures r.NoMemory? ==> Shot() == old(Shot())
    {
      hide Inv; hide Linked; hide Replay; hide Abs; hide FrameAllocator.Valid; hide FrameAllocator.Free; hide Managed;
      hide TookFirst; hide FrameAllocator.Sets;
      hide WithCopy;
      var a := procs[p].areas[i];
      var t := a.tracks[j];
      TrackIsRef(procs, m, p, i, j);
      if !a.IsShared() && counts[t.frame] > 1 {
        var frame := TakeFrame();
        if frame.None? {
          return NoMemory;
        }
        ghost var taken := Shot();
        CopyPage(p, i, j, frame.value);
        CopySets(old(Shot()), taken, p, i, j, frame.value);
        return Resolved;
      }
      CountPositive(m, t.frame);
      MapPage(p, t.vaddr, Pte(t.frame, true, true));
      return Resolved;
    }

    /** `user_cow_int` for an address inside an area: `fileBytes` is what reading the area's
        file at the page yields, nothing if the read fails. */
    method Fault(p: nat, addr: nat, fileBytes: seq<Byte>) returns (r: FaultResult)
      requires Valid() && Runs(p) && |fileBytes| <= PAGE_SIZE
      modifies this, frames.regions
      ensures Valid() && Runs(p) && old(log) <= log
      ensures r == FaultAnswer(old(Shot()), p, addr)
      ensures r.Resolved? ==> Writable(p, PageAlignDown(addr))
      ensures Faulted(old(Shot()), Shot(), log[|old(log)|..], p, addr, fileBytes)
    {
      hide Inv; hide Linked; hide Replay; hide Abs; hide FrameAllocator.Valid; hide FrameAllocator.Free; hide Managed;
      hide TookFirst; hide FrameAllocator.Sets;
      hide FilledIn; hide TakenOver; hide Union; hide MustCopy;
      FreeIsUnion();
      var found := FindArea(procs[p].areas, addr);
      if found.None? {
        return NoArea;
      }
      var i := found.value;
      var page := PageAlignDown(addr);
      var track := FindTrack(procs[p].areas[i], page);
      if track.None? {
        PageInArea(procs, m, p, i, addr);
        r := FaultUntracked(p, i, page, fileBytes);
      } else {
        r := FaultTracked(p, i, track.value);
      }
    }

    /** Makes the page of an access accessible, by a fault if it is not. */
    method Reach(p: nat, addr: nat, fileBytes: seq<Byte>, write: bool) returns (ok: bool)
      requires Valid() && Runs(p) && |fileBytes| <= PAGE_SIZE
      modifies this, frames.regions
      ensures Valid() && Runs(p) && old(log) <= log
      ensures !ok <==> Stuck(old(Shot()), p, addr, write)
      ensures !ok ==> Shot() == old(Shot()) && log == old(log)
      ensures ok ==> && Reached(old(Shot()), Shot(), log[|old(log)|..], p, addr, fileBytes, write)
                     && Shot().Mapped(p, PageAlignDown(addr), write)
    {
      hide Inv; hide Linked; hide Replay; hide Abs; hide FrameAllocator.Valid; hide FrameAllocator.Free; hide Managed;
      hide TookFirst; hide FrameAllocator.Sets; hide Faulted; hide FaultAnswer; hide Stuck; hide Reached;
      var page := PageAlignDown(addr);
      if page in procs[p].table && if write then procs[p].table[page].writable else procs[p].table[page].readable {
        ReachedAtOnce(Shot(), log[|old(log)|..], p, addr, fileBytes, write);
        return true;
      }
      var fault := Fault(p, addr, fileBytes);
      if fault.Resolved? {
        ReachedByFault(old(Shot()), Shot(), log[|old(log)|..], p, addr, fileBytes, write);
        return true;
      }
      StuckStays(old(Shot()), Shot(), log[|old(log)|..], p, addr, fileBytes, write);
      assert log == old(log) + log[|old(log)|..];
      return false;
    }

    /** A user load: the value read is the one the eager machine has there. */
    method Load(p: nat, addr: nat, fileBytes: seq<Byte>) returns (r: Option<Byte>)
      requires Valid() && Runs(p) && |fileBytes| <= PAGE_SIZE
      modifies this, frames.regions
      ensures Valid() && Runs(p) && old(log) <= log
      ensures r.None? <==> Stuck(old(Shot()), p, addr, false)
      ensures Explains(OpLoad(p, addr, fileBytes), if r.Some? then Got(r.value) else Failed, old(Shot()), Shot(),
                       log[|old(log)|..])
    {
      hide Inv; hide Linked; hide Replay; hide Abs; hide FrameAllocator.Valid; hide FrameAllocator.Free; hide Managed;
      hide FrameAllocator.Sets; hide Explains; hide Stuck; hide ByteAt; hide Reached;
      var page := PageAlignDown(addr);
      var ok := Reach(p, addr, fileBytes, false);
      if !ok {
        StuckExplained(OpLoad(p, addr, fileBytes), old(Shot()), log[|old(log)|..]);
        return None;
      }
      ghost var k, before := Key(p, page), log;
      EntryAt(procs, m, p, page);
      LoadStep(m, k, addr - page);
      r := Some(mem[procs[p].table[page].frame].bytes[addr - page]);
      Extend(log, m, m, Loaded(k, addr - page, r.value));
      ByteIsThere(Shot(), p, addr);
      log := log + [Loaded(k, addr - page, r.value)];
      LoadExplained(old(Shot()), Shot(), old(log), before, log, p, addr, fileBytes, r.value);
    }

    /** A user store. */
    method Store(p: nat, addr: nat, b: Byte, fileBytes: seq<Byte>) returns (ok: bool)
      requires Valid() && Runs(p) && |fileBytes| <= PAGE_SIZE
      modifies this, frames.regions
      ensures Valid() && Runs(p) && old(log) <= log
      ensures !ok <==> Stuck(old(Shot()), p, addr, true)
      ensures Explains(OpStore(p, addr, b, fileBytes), if ok then Done else Failed, old(Shot()), Shot(),
                       log[|old(log)|..])
    {
      hide Inv; hide Linked; hide Replay; hide Abs; hide FrameAllocator.Valid; hide FrameAllocator.Free; hide Managed;
      hide FrameAllocator.Sets; hide Explains; hide Stuck; hide ByteAt; hide Reached;
      var page := PageAlignDown(addr);
      ok := Reach(p, addr, fileBytes, true);
      if !ok {
        StuckExplained(OpStore(p, addr, b, fileBytes), old(Shot()), log[|old(log)|..]);
        return;
      }
      ghost var k, before, t := Key(p, page), log, Shot();
      EntryAt(procs, m, p, page);
      StoreStep(m, k, addr - page, b);
      ghost var m' := StoreTo(m, k, addr - page, b);
      Extend(log, m, m', Stored(k, addr - page, b));
      StoreLinks(procs, m, k, addr - page, b);
      ByteIsThere(t, p, addr);
      var f := procs[p].table[page].frame;
      mem := mem[f := Page(mem[f].bytes[addr - page := b])];
      m := m';
      log := log + [Stored(k, addr - page, b)];
      StoreExplained(old(Shot()), t, old(log), before, log, p, addr, fileBytes, b);
    }

    /** `cow_fork`: the child gets the parent's areas, and both map every page to the frame
        they share, private pages read-only. */
    method Fork(p: nat) returns (child: nat)
      requires Valid() && Runs(p)
      modifies this
      ensures frames.Valid() && old(log) <= log
      ensures Explains(OpFork(p), Child(child), old(Shot()), Shot(), log[|old(log)|..])
      ensures Valid()
    {
      hide Inv; hide Linked; hide Replay; hide Abs; hide FrameAllocator.Valid; hide FrameAllocator.Free; hide Managed;
      hide Shares; hide FramesIn; hide Flatten; hide FrameAllocator.Sets; hide Explains;
      var es := Flatten(procs[p].areas);
      ForkReady(procs, m, p);
      var parentTable, childTable, counts' := ShareTracks(es, procs[p].table, counts);
      ForkStep(m, p);
      ghost var m' := CowMachines.Fork(m, p);
      Extend(log, m, m', Forked(p));
      ForkLinks(procs, m, p, parentTable, childTable);
      child := |procs|;
      procs := procs[p := procs[p].(table := parentTable)] + [Live(procs[p].areas, childTable)];
      counts := counts';
      m := m';
      log := log + [Forked(p)];
      ForkExplained(old(Shot()), Shot(), p, parentTable, childTable, old(log), log);
    }

    /** Drops one tracker of the frame: the last one clears the frame and frees it. */
    method DropFrame(f: nat)
      requires frames.Valid() && f in counts && f in Managed(frames.regions)
      modifies this`mem, this`counts, frames.regions
      ensures frames.Valid()
      ensures if old(counts)[f] > 1
              then && counts == old(counts)[f := old(counts)[f] - 1] && mem == old(mem)
                   && frames.Free() == old(frames.Free()) && frames.Sets() == old(frames.Sets())
              else && counts == old(counts) - {f} && mem == old(mem)[f := ZeroPage()]
                   && frames.Free() == old(frames.Free()) + {f}
                   && frames.Sets() == GiveBack(Homes(frames.regions), old(frames.Sets()), {f})
    {
      hide FrameAllocator.Valid; hide FrameAllocator.Free; hide Managed; hide GiveBack; hide FrameAllocator.Sets;
      if counts[f] > 1 {
        counts := counts[f := counts[f] - 1];
      } else {
        counts := counts - {f};
        mem := mem[f := ZeroPage()];
        frames.DropTracker(f);
      }
    }

    /** Drops one tracker of each frame: the last one clears the frame and frees it. */
    method DropTrackers(fs: seq<nat>)
      requires frames.Valid() && Distinct(fs)
      requires forall f :: f in fs ==> f in counts && f in mem && f in Managed(frames.regions)
      modifies this`mem, this`counts, frames.regions
      ensures frames.Valid()
      ensures counts == Release(old(counts), SeqSet(fs))
      ensures mem == Cleared(old(mem), Freed(old(counts), SeqSet(fs)))
      ensures frames.Free() == old(frames.Free()) + Freed(old(counts), SeqSet(fs))
      ensures frames.Sets() == GiveBack(Homes(frames.regions), old(frames.Sets()), Freed(old(counts), SeqSet(fs)))
    {
      hide FrameAllocator.Valid; hide FrameAllocator.Free; hide Managed; hide GiveBack; hide FrameAllocator.Sets;
      hide Release; hide Freed; hide Cleared; hide SeqSet; hide Distinct;
      ghost var homes, sets := Homes(frames.regions), frames.Sets();
      NoneFreed(counts, mem, fs);
      GiveBackNone(homes, sets);
      for i := 0 to |fs|
        invariant frames.Valid()
        invariant counts == Release(old(counts), SeqSet(fs[..i]))
        invariant mem == Cleared(old(mem), Freed(old(counts), SeqSet(fs[..i])))
        invariant frames.Free() == old(frames.Free()) + Freed(old(counts), SeqSet(fs[..i]))
        invariant frames.Sets() == GiveBack(homes, sets, Freed(old(counts), SeqSet(fs[..i])))
      {
        ReleaseNext(old(counts), old(mem), fs, i);
        GiveBackMore(homes, sets, Freed(old(counts), SeqSet(fs[..i])), {fs[i]});
        DropFrame(fs[i]);
      }
      assert fs[..|fs|] == fs;
    }

    /** `munmap`. It is the eager machine's unmapping, and everything the kernel keeps is kept,
        exactly when the cut divides areas at page boundaries and no area loses trackers to it. */
    method Unmap(p: nat, lo: nat, hi: nat)
      requires Valid() && Runs(p) && lo <= hi
      modifies this, frames.regions
      ensures frames.Valid() && old(log) <= log
      ensures Explains(OpUnmap(p, lo, hi), Done, old(Shot()), Shot(), log[|old(log)|..])
      ensures Valid() <==> CutKeeps(old(procs)[p].areas, lo, hi) && CutAligned(old(procs)[p].areas, lo, hi)
      ensures !Valid() ==> log == old(log)
    {
      hide Inv; hide Linked; hide Replay; hide Abs; hide FrameAllocator.Valid; hide FrameAllocator.Free; hide Managed;
      hide SubArea; hide CutKeeps; hide CutAligned; hide Flatten; hide FramesLost; hide CutPages; hide Freed;
      hide Cleared; hide GiveBack; hide Explains; hide PagesIn; hide FrameAllocator.Sets;
      hide MemAreas.Unmapped; hide Distinct;
      var after := SubArea(procs[p].areas, lo, hi);
      var fs := FramesLost(Flatten(procs[p].areas), after);
      var unmapped := MemAreas.Unmapped(procs[p].areas, lo, hi);
      UnmapReady(procs, m, p, lo, hi);
      ghost var pages := CutPages(m.refs, p, lo, hi);
      ghost var kept := CutKeeps(procs[p].areas, lo, hi) && CutAligned(procs[p].areas, lo, hi);
      if kept {
        UnmapLinks(procs, m, p, lo, hi);
        DropStep(m, p, pages);
        Extend(log, m, DropPages(m, p, pages), Event.Unmapped(p, pages));
      } else {
        UnmapBreaks(procs, m, m, p, lo, hi);
      }
      DropTrackers(fs);
      procs := procs[p := Live(after, procs[p].table - set v | v in unmapped)];
      if kept {
        m := DropPages(m, p, pages);
        log := log + [Event.Unmapped(p, pages)];
      }
      UnmapExplained(old(Shot()), Shot(), p, lo, hi, old(log), log, pages);
    }

    /** The last thread of a process exits: all its areas go. */
    method Exit(p: nat)
      requires Valid() && Runs(p)
      modifies this, frames.regions
      ensures frames.Valid() && old(log) <= log
      ensures Explains(OpExit(p), Done, old(Shot()), Shot(), log[|old(log)|..])
      ensures Valid()
    {
      hide Inv; hide Linked; hide Replay; hide Abs; hide FrameAllocator.Valid; hide FrameAllocator.Free; hide Managed;
      hide Flatten; hide AllFrames; hide Freed; hide Cleared; hide GiveBack; hide FrameAllocator.Sets;
      var fs := AllFrames(Flatten(procs[p].areas));
      ExitReady(procs, m, p);
      ghost var m' := CowMachines.Exit(m, p);
      ExitLinks(procs, m, p);
      ExitStep(m, p);
      Extend(log, m, m', Exited(p));
      DropTrackers(fs);
      procs := procs[p := Dead];
      m := m';
      log := log + [Exited(p)];
      assert log[|old(log)|..] == [Exited(p)];
    }

    /** An anonymous private mapping: an area without trackers. What the kernel keeps is kept
        exactly when the address is page-aligned. */
    method MapLazy(p: nat, mtype: MemType, hasFile: bool, start: nat, len: nat)
      requires frames.Valid() && Runs(p) && len % PAGE_SIZE == 0
      requires mtype != Shared && mtype != ShareFile && Clear(procs[p].areas, start, start + len)
      modifies this`procs
      ensures Explains(OpMapLazy(p, mtype, hasFile, start, len), Done, old(Shot()), Shot(), [])
      ensures |procs| == |old(procs)| && forall q :: 0 <= q < |procs| && q != p ==> procs[q] == old(procs)[q]
      ensures Runs(p) && procs[p].table == old(procs)[p].table
      ensures procs[p].areas == old(procs)[p].areas + [MemArea(mtype, [], hasFile, start, len)]
      ensures forall v: nat :: Covers(procs[p].areas, v) <==> Covers(old(procs)[p].areas, v) || start <= v < start + len
      ensures old(Valid()) ==> (Valid() <==> start % PAGE_SIZE == 0)
    {
      hide Inv; hide Linked; hide Replay; hide Abs; hide FrameAllocator.Valid; hide FrameAllocator.Free; hide Managed;
      hide FrameAllocator.Sets; hide Clear; hide Covers; hide Explains;
      var a := MemArea(mtype, [], hasFile, start, len);
      PushedCovers(procs[p].areas, a);
      if CoreValid(frames.Free()) {
        if start % PAGE_SIZE == 0 {
          PushLinks(procs, m, m, p, a, procs[p].table);
        } else {
          PushBreaks(procs, m, p, a);
        }
      }
      procs := procs[p := Live(procs[p].areas + [a], procs[p].table)];
      LazyExplained(OpMapLazy(p, mtype, hasFile, start, len), old(Shot()), Shot());
    }

    /** Pushes an area whose pages get the frames `fs`. */
    method Populate(p: nat, mtype: MemType, hasFile: bool, start: nat, fs: seq<nat>, readable: bool, writable: bool)
      requires frames.Valid() && CoreValid(frames.Free() + SeqSet(fs)) && SeqSet(fs) !! frames.Free()
      requires SeqSet(fs) <= Managed(frames.regions)
      requires forall j :: 0 <= j < |fs| ==> fs[j] == fs[0] + j * PAGE_SIZE
      requires Runs(p) && start % PAGE_SIZE == 0 && (readable || mtype == Shared || mtype == ShareFile)
      requires Clear(procs[p].areas, start, start + |fs| * PAGE_SIZE)
      modifies this
      ensures Valid() && Runs(p)
      ensures var op := OpMapFrames(p, mtype, hasFile, start, |fs|, readable, writable);
              Shot() == WithRun(old(Shot()), frames.Sets(), op, fs) && log == old(log) + RunEvents(op, fs)
    {
      hide Inv; hide Linked; hide Replay; hide Abs; hide FrameAllocator.Valid; hide FrameAllocator.Free; hide Managed;
      hide Clear; hide FillMany; hide FillEvents; hide AreaOk; hide TableMatches; hide Fillable; hide RunTable;
      hide RunCounts; hide FrameAllocator.Sets; hide WithRun; hide SeqSet; hide RunEvents;
      var a := NewRun(mtype, hasFile, start, fs);
      ghost var fill := FillSet(p, start, fs, a.IsShared(), readable, writable);
      RunOk(mtype, hasFile, start, fs);
      RunReady(procs, m, fill, a);
      ghost var m' := FillMany(m, fill, |fs|);
      FillManyStep(m, log, fill, |fs|);
      FillManyDone(m, fill);
      var table, counts' := InstallRun(fill, fs, start, readable, writable, procs[p].table, counts, m);
      RunLinks(procs, m, fill, a, table);
      procs := procs[p := Live(procs[p].areas + [a], table)];
      counts := counts';
      m := m';
      log := log + FillEvents(fill, |fs|);
      EventsOfRun(OpMapFrames(p, mtype, hasFile, start, |fs|, readable, writable), fs, a);
      RunInstalled(old(Shot()), Shot(), OpMapFrames(p, mtype, hasFile, start, |fs|, readable, writable), fs, table);
    }

    /** `map_frames`: a run of fresh frames, mapped and tracked at once. All or nothing. */
    method MapFrames(p: nat, mtype: MemType, hasFile: bool, start: nat, count: nat, readable: bool, writable: bool)
      returns (ok: bool)
      requires Valid() && Runs(p) && start % PAGE_SIZE == 0 && count > 0 && mtype != Stack
      requires readable || mtype == Shared || mtype == ShareFile
      requires Clear(procs[p].areas, start, start + count * PAGE_SIZE)
      modifies this, frames.regions
      ensures frames.Valid() && old(log) <= log
      ensures Explains(OpMapFrames(p, mtype, hasFile, start, count, readable, writable), if ok then Done else Failed,
                       old(Shot()), Shot(), log[|old(log)|..])
      ensures ok <==> !old(frames.NoRun(count))
      ensures Runs(p)
      ensures ok ==> && |procs[p].areas| == |old(procs)[p].areas| + 1
                     && RunArea(procs[p].areas[|old(procs)[p].areas|], mtype, start, count)
      ensures Valid()
    {
      hide Inv; hide Linked; hide Replay; hide Abs; hide FrameAllocator.Valid; hide FrameAllocator.Free; hide Managed;
      hide Taken; hide RunEvents; hide RunTable; hide RunCounts; hide Clear; hide NoRunAtAll;
      hide Explains; hide FrameAllocator.Sets;
      ghost var free := frames.Free();
      ghost var op := OpMapFrames(p, mtype, hasFile, start, count, readable, writable);
      var run := frames.FrameAllocMuch(count);
      ghost var taken := Shot();
      if run.None? {
        assert frames.Free() == free;
        NoRunExplained(op, old(Shot()), log[|old(log)|..]);
        return false;
      }
      assert frames.Free() + SeqSet(run.value) == free;
      Populate(p, mtype, hasFile, start, run.value, readable, writable);
      RunExplained(op, old(Shot()), taken, Shot(), run.value, old(log), log);
      return true;
    }

    /** In every reachable state a writable mapping of a private page means exactly one
        tracker in the whole system holds the frame. */
    lemma WritableIsExclusive(p: nat, i: nat, j: nat, q: nat, i': nat, j': nat)
      requires Valid() && Runs(p) && i < |procs[p].areas| && j < |procs[p].areas[i].tracks|
      requires Runs(q) && i' < |procs[q].areas| && j' < |procs[q].areas[i'].tracks|
      requires !procs[p].areas[i].IsShared()
      requires procs[p].areas[i].tracks[j].frame == procs[q].areas[i'].tracks[j'].frame
      requires Writable(p, procs[p].areas[i].tracks[j].vaddr)
      ensures p == q && i == i' && j == j'
    {
      SoleTrack(procs, m, p, i, j, q, i', j');
    }

    /** A frame held by a live tracker is not free. */
    lemma HeldIsNotFree(p: nat, i: nat, j: nat)
      requires Valid() && Runs(p) && i < |procs[p].areas| && j < |procs[p].areas[i].tracks|
      ensures procs[p].areas[i].tracks[j].frame !in frames.Free()
    {
      TrackIsRef(procs, m, p, i, j);
      InvFrames(m);
    }

    /** The whole state. */
    ghost function Shot(): Snapshot
      requires frames.Valid()
      reads this, frames, frames.regions
    {
      Snapshot(procs, mem, counts, Homes(frames.regions), frames.Sets())
    }

    lemma FreeIsUnion()
      requires frames.Valid()
      ensures frames.Free() == Union(Shot().sets)
    {
    }

    /** One legal operation. */
    method Step(op: KernelOp) returns (r: OpResult)
      requires Valid() && LegalIn(procs, op)
      modifies this, frames.regions
      ensures frames.Valid() && (Valid() <==> KeepsIn(old(procs), op))
      ensures old(log) <= log && (!Valid() ==> log == old(log))
      ensures Explains(op, r, old(Shot()), Shot(), log[|old(log)|..])
    {
      hide CoreValid; hide FrameAllocator.Valid; hide Shot; hide Explains; hide CutKeeps; hide CutAligned; hide Clear;
      hide Stuck; hide RunArea; hide FrameAllocator.NoRun;
      ShotProcs();
      match op {
        case OpFork(p) =>
          var child := Fork(p);
          r := Child(child);
        case OpLoad(p, addr, bytes) =>
          var b := Load(p, addr, bytes);
          r := if b.Some? then Got(b.value) else Failed;
        case OpStore(p, addr, b, bytes) =>
          var ok := Store(p, addr, b, bytes);
          r := if ok then Done else Failed;
        case OpMapLazy(p, mtype, hasFile, start, len) =>
          MapLazy(p, mtype, hasFile, start, len);
          r := Done;
          assert log[|old(log)|..] == [];
        case OpMapFrames(p, mtype, hasFile, start, count, readable, writable) =>
          var ok := MapFrames(p, mtype, hasFile, start, count, readable, writable);
          r := if ok then Done else Failed;
        case OpUnmap(p, lo, hi) =>
          Unmap(p, lo, hi);
          r := Done;
        case OpExit(p) =>
          Exit(p);
          r := Done;
      }
    }

    /** One operation, which is ignored if it is not legal. */
    method Attempt(op: KernelOp) returns (r: OpResult)
      requires Valid()
      modifies this, frames.regions
      ensures frames.Valid() && (Valid() <==> Harmless(op, old(procs)))
      ensures old(log) <= log && Replay(INITIAL, log).Some?
      ensures Answered(op, r, old(Shot()), Shot(), log[|old(log)|..])
    {
      hide Inv; hide Linked; hide Replay; hide Abs; hide Explains; hide LegalIn; hide KeepsIn; hide Shot;
      hide FrameAllocator.Valid;
      ShotProcs();
      LegalRuns(procs, op);
      if LegalIn(procs, op) {
        r := Step(op);
      } else {
        r := Ignored;
        assert log[|old(log)|..] == [];
      }
    }

    /** In every run, up to the first operation that breaks the kernel, each operation answers, logs
        and leaves what it has to, in order; before each the machine that forks by copying, run on the
        log so far, is the machine the kernel stands for; and each byte loaded is the one that
        machine has there at that point. */
    method Run(ops: seq<KernelOp>) returns (results: seq<OpResult>, ghost marks: seq<nat>, ghost shots: seq<Snapshot>)
      requires Valid()
      modifies this, frames.regions
      ensures frames.Valid() && old(log) <= log && Replay(INITIAL, log).Some?
      ensures RunLog(ops, results, marks, shots, log, |old(log)|)
      ensures shots[0] == old(Shot()) && shots[|results|] == Shot()
      ensures Valid() <==> forall i :: 0 <= i < |results| ==> Harmless(ops[i], shots[i].procs)
      ensures |results| < |ops| ==> |results| > 0 && !Harmless(ops[|results| - 1], shots[|results| - 1].procs)
      ensures Valid() ==> Stands(Shot(), log)
      ensures LoadsAgree(ops, results, marks, log)
    {
      hide CoreValid; hide Replay; hide Answered; hide Shot; hide FrameAllocator.Valid; hide Harmless; hide LoadsAgree;
      hide Stands; hide RunLog;
      results, marks, shots := [], [|log|], [Shot()];
      RunLogNone(ops, marks, shots, log);
      StandsNow();
      while |results| < |ops|
        invariant |results| <= |ops| && Valid() && old(log) <= log
        invariant Stands(Shot(), log) && Replay(INITIAL, log).Some?
        invariant |shots| == |marks| == |results| + 1 && RunLog(ops, results, marks, shots, log, |old(log)|)
        invariant shots[0] == old(Shot()) && shots[|results|] == Shot()
        invariant forall j :: 0 <= j < |results| ==> Harmless(ops[j], shots[j].procs)
        decreases |ops| - |results|
      {
        ghost var before := log;
        ShotProcs();
        var kept := Harmless(ops[|results|], procs);
        var r := Attempt(ops[|results|]);
        RunLogNext(ops, results, marks, shots, before, log, |old(log)|, r, Shot());
        results, marks, shots := results + [r], marks + [|log|], shots + [Shot()];
        if !kept {
          break;
        }
        StandsNow();
      }
      AllLoadsAgree(ops, results, marks, shots, log, |old(log)|);
    }

    /** The log so far makes the eager machine the one the kernel stands for. */
    lemma StandsNow()
      requires Valid()
      ensures Stands(Shot(), log) && Replay(INITIAL, log).Some?
    {
      FreeIsUnion();
    }

    lemma ShotProcs()
      requires frames.Valid()
      ensures Shot().procs == procs
    {
    }
  }

  /** A new kernel maps three pages and unmaps the first: nothing it has to keep is kept. */
  method HeadUnmapBreaks(k: CowKernel) returns (ok: bool)
    requires k.Valid() && k.procs == [Live([], map[])]
    modifies k, k.frames.regions
    ensures ok <==> !old(k.frames.NoRun(3))
    ensures ok ==> !k.Valid()
  {
    hide Inv; hide Linked; hide Replay; hide Abs; hide FrameAllocator.Valid; hide FrameAllocator.Free; hide Managed;
    hide FrameAllocator.NoRun; hide Explains;
    ok := k.MapFrames(0, Mmap, false, 0x1000, 3, true, true);
    if ok {
      var a := k.procs[0].areas[0];
      assert a.SplitBy(0x1000, 0x2000) && a.tracks[0] in a.tracks && 0x1000 <= a.tracks[0].vaddr;
      k.Unmap(0, 0x1000, 0x2000);
    }
  }

  /** A store to a page without a tracker, in a private area without a file, fills the page first. */
  lemma StoreFills(s: Snapshot, p: nat, i: nat, addr: nat, b: Byte) returns (s': Snapshot, f: nat)
    requires s.Runs(p) && |s.homes| == |s.sets| && FrameAllocators.Disjoint(s.sets) && |Union(s.sets)| >= 10
    requires !s.Mapped(p, PageAlignDown(addr), true) && FirstArea(s.procs[p].areas, addr) == Some(i)
    requires FirstTrack(s.procs[p].areas[i].tracks, PageAlignDown(addr)) == None
    requires !s.procs[p].areas[i].hasFile && !s.procs[p].areas[i].IsShared()
    ensures f in Union(s.sets) && Union(s'.sets) == Union(s.sets) - {f}
    ensures |s'.sets| == |s.sets| && FrameAllocators.Disjoint(s'.sets)
    ensures var k, page := Key(p, PageAlignDown(addr)), PageAlignDown(addr);
            && s' == WithFill(s, s'.sets, p, i, page, f, Page(ZeroPage().bytes[addr % PAGE_SIZE := b]))
            && Explains(OpStore(p, addr, b, []), Done, s, s',
                        [Filled(k, ZeroPage(), None), Stored(k, addr % PAGE_SIZE, b)])
  {
    hide TookFirst; hide Union; hide FrameAllocators.Disjoint; hide FirstArea; hide FirstTrack; hide Explains;
    hide Stuck; hide Reached; hide ByteAt;
    var page := PageAlignDown(addr);
    var sets;
    sets, f := SomeFrame(s.sets);
    var t := WithFill(s, sets, p, i, page, f, ZeroPage());
    var fill := Filled(Key(p, page), ZeroPage(), None);
    FillReaches(s, t, fill, p, i, addr, f);
    ByteIsThere(t, p, addr);
    StoreExplained(s, t, [], [fill], [fill, Stored(Key(p, page), addr % PAGE_SIZE, b)], p, addr, [], b);
    s' := WithByte(t, p, addr, b);
    var evs: seq<Event> := [fill, Stored(Key(p, page), addr % PAGE_SIZE, b)];
    assert evs[0..] == evs;
  }

  lemma SomeFrame(ss: seq<set<nat>>) returns (ss': seq<set<nat>>, p: nat)
    requires FrameAllocators.Disjoint(ss) && |Union(ss)| >= 10
    ensures |ss'| == |ss| && TookFirst(ss, ss', p) && p in Union(ss)
    ensures Union(ss') == Union(ss) - {p} && FrameAllocators.Disjoint(ss')
  {
    ss', p := CanTake(ss, 0);
  }

  lemma FillReaches(s: Snapshot, t: Snapshot, fill: Event, p: nat, i: nat, addr: nat, f: nat)
    requires s.Runs(p) && |Union(s.sets)| >= 10 && TookFirst(s.sets, t.sets, f)
    requires !s.Mapped(p, PageAlignDown(addr), true) && FirstArea(s.procs[p].areas, addr) == Some(i)
    requires FirstTrack(s.procs[p].areas[i].tracks, PageAlignDown(addr)) == None
    requires !s.procs[p].areas[i].hasFile && !s.procs[p].areas[i].IsShared()
    requires t == WithFill(s, t.sets, p, i, PageAlignDown(addr), f, ZeroPage())
    requires fill == Filled(Key(p, PageAlignDown(addr)), ZeroPage(), None)
    ensures !Stuck(s, p, addr, true) && Reached(s, t, [fill][0..], p, addr, [], true)
  {
    hide TookFirst; hide Union; hide FirstArea; hide FirstTrack; hide WithFill;
    assert [fill][0..] == [fill];
    assert FilledIn(s, t, [fill], p, i, PageAlignDown(addr), []);
    assert Faulted(s, t, [fill], p, addr, []);
  }

  /** Two mappings that meet inside the page 0x2000. */
  function Meeting(tracks: seq<MapTrack>): seq<MemArea> {
    [MemArea(Mmap, tracks, false, 0x1800, 0x1000), MemArea(Mmap, [], false, 0x2800, 0x1000)]
  }

  lemma MeetingAt(tracks: seq<MapTrack>)
    ensures FirstArea(Meeting(tracks), 0x2000) == Some(0) && FirstArea(Meeting(tracks), 0x2900) == Some(1)
    ensures PageAlignDown(0x2000) == PageAlignDown(0x2900) == 0x2000
  {
    assert Meeting(tracks)[0].Contains(0x2000) && Meeting(tracks)[1].Contains(0x2900);
  }

  lemma FlattenMeeting(f: nat)
    ensures Flatten(Meeting([MapTrack(0x2000, f)])) == [Entry(MapTrack(0x2000, f), false)]
  {
    var areas := Meeting([MapTrack(0x2000, f)]);
    assert areas[..1] == [areas[0]];
    assert Flatten([areas[0]][..0]) == [];
    assert |Flatten([areas[0]])| == 1;
    assert EntryOf([areas[0]], 0, Entry(MapTrack(0x2000, f), false));
    FlattenIff([areas[0]], Entry(MapTrack(0x2000, f), false));
  }

  lemma MeetingForks(s: Snapshot, f: nat) returns (s': Snapshot)
    requires s.procs == [Live(Meeting([MapTrack(0x2000, f)]), map[0x2000 := Pte(f, true, true)])]
    requires |s.homes| == |s.sets|
    ensures |s'.procs| == 2 && s'.homes == s.homes && s'.sets == s.sets
    ensures s'.procs[0] == Live(s.procs[0].areas, map[0x2000 := Pte(f, true, false)])
    ensures Explains(OpFork(0), Child(1), s, s', [Forked(0)])
  {
    var areas := s.procs[0].areas;
    var e := Entry(MapTrack(0x2000, f), false);
    var table: map<nat, Pte> := map[0x2000 := Pte(f, true, false)];
    FlattenMeeting(f);
    assert Covered([e]) == {0x2000} by {
      assert e in [e];
    }
    var procs := [Live(areas, table), Live(areas, table)];
    s' := Snapshot(procs, s.mem, Bump(s.counts, FramesIn([e])), s.homes, s.sets);
    assert procs == s.procs[0 := s.procs[0].(table := table)] + [Live(areas, table)];
    ForkExplained(s, s', 0, table, table, [], [Forked(0)]);
    assert [Forked(0)][0..] == [Forked(0)];
  }

  /** After a fork, a store to the second area's part of the page finds no tracker there and fills
      the page again: the 7 stored through the first area reads as 0. */
  lemma MeetingForgets(s: Snapshot) returns (shots: seq<Snapshot>)
    requires s.procs == [Live(Meeting([]), map[])] && |s.homes| == |s.sets|
    requires FrameAllocators.Disjoint(s.sets) && |Union(s.sets)| >= 11
    ensures Forgets(s, shots)
  {
    hide Union; hide FrameAllocators.Disjoint; hide Explains; hide FirstArea;
    MeetingAt([]);
    var s1, f := StoreFills(s, 0, 0, 0x2000, 7);
    assert Meeting([])[0].tracks + [MapTrack(0x2000, f)] == [MapTrack(0x2000, f)];
    assert s1.procs[0].areas == Meeting([MapTrack(0x2000, f)]);
    var s2 := MeetingForks(s1, f);
    MeetingAt([MapTrack(0x2000, f)]);
    assert |Union(s.sets) - {f}| >= 10;
    var s3, g := StoreFills(s2, 0, 1, 0x2900, 1);
    ZeroLoaded(s3, g);
    shots := [s, s1, s2, s3];
  }

  lemma ZeroLoaded(s: Snapshot, g: nat)
    requires |s.homes| == |s.sets| && s.Runs(0) && 0x2000 in s.procs[0].table
    requires s.procs[0].table[0x2000] == Pte(g, true, true) && g in s.mem && s.mem[g].bytes[0] == 0
    ensures Explains(OpLoad(0, 0x2000, []), Got(0), s, s, [Loaded(Key(0, 0x2000), 0, 0)])
  {
    var ev := Loaded(Key(0, 0x2000), 0, 0);
    assert PageAlignDown(0x2000) == 0x2000;
    var none: seq<Event> := [];
    ReachedAtOnce(s, none[0..], 0, 0x2000, [], false);
    hide Explains; hide Reached; hide Stuck;
    LoadExplained(s, s, none, none, [ev], 0, 0x2000, [], 0);
    assert [ev][0..] == [ev];
  }

  /** From the state `s` on: 7 is stored at 0x2000, the process forks, 1 is stored at 0x2900, and a
      load at 0x2000 yields 0. */
  ghost predicate Forgets(s: Snapshot, shots: seq<Snapshot>) {
    var k := Key(0, 0x2000);
    && |shots| == 4 && shots[0] == s && shots[0].Runs(0) && shots[1].Runs(0) && shots[2].Runs(0) && shots[3].Runs(0)
    && Explains(OpStore(0, 0x2000, 7, []), Done, s, shots[1], [Filled(k, ZeroPage(), None), Stored(k, 0, 7)])
    && Explains(OpFork(0), Child(1), shots[1], shots[2], [Forked(0)])
    && Explains(OpStore(0, 0x2900, 1, []), Done, shots[2], shots[3],
                [Filled(k, ZeroPage(), None), Stored(k, 0x900, 1)])
    && Explains(OpLoad(0, 0x2000, []), Got(0), shots[3], shots[3], [Loaded(k, 0, 0)])
  }

  /** A new kernel maps two areas that meet inside a page; from there a load loses a store. */
  method UnalignedAreasForget(k: CowKernel) returns (ghost shots: seq<Snapshot>)
    requires k.Valid() && k.procs == [Live([], map[])] && |k.frames.Free()| >= 11
    modifies k
    ensures k.frames.Valid() && Forgets(k.Shot(), shots)
  {
    hide Inv; hide Linked; hide Replay; hide Abs; hide FrameAllocator.Valid; hide Managed; hide Forgets;
    k.FreeIsUnion();
    k.MapLazy(0, Mmap, false, 0x1800, 0x1000);
    k.MapLazy(0, Mmap, false, 0x2800, 0x1000);
    assert k.procs[0].areas == Meeting([]);
    shots := MeetingForgets(k.Shot());
  }
}
