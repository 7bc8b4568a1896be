/** The link between the processes of the kernel, with their area lists and page tables, and
    the copy-on-write machine: what each kernel step does to it. */
module CowLinks {
  import opened Common
  import opened MemAreas
  import opened EagerFork
  import opened CowMachines
  import opened CowAreas

  datatype Proc = Live(areas: seq<MemArea>, table: map<nat, Pte>) | Dead

  ghost predicate ProcLinked(proc: Proc, m: Machine, p: nat) {
    proc.Live? ==> && AreasOk(proc.areas)
                   && Describes(proc.areas, m.refs, p)
                   && TableMatches(proc.table, m.table, p)
  }

  ghost predicate Linked(procs: seq<Proc>, m: Machine) {
    && |procs| == |m.alive|
    && forall p :: 0 <= p < |procs| ==> m.alive[p] == procs[p].Live? && ProcLinked(procs[p], m, p)
  }

  /** A step of process `p` only has to be checked for process `p`. */
  lemma LinkOne(procs: seq<Proc>, m: Machine, m': Machine, p: nat, proc: Proc)
    requires Linked(procs, m) && p < |procs|
    requires m'.alive == m.alive[p := proc.Live?] && ProcLinked(proc, m', p)
    requires AgreeElsewhere(m.refs, m'.refs, p) && AgreeElsewhere(m.table, m'.table, p)
    ensures Linked(procs[p := proc], m')
  {
    forall q | 0 <= q < |procs| && q != p ensures ProcLinked(procs[q], m', q) {
      assert ProcLinked(procs[q], m, q);
      if procs[q].Live? {
        DescribesElsewhere(procs[q].areas, m.refs, m'.refs, p, q);
      }
    }
  }

  lemma TrackIsRef(procs: seq<Proc>, m: Machine, p: nat, i: nat, j: nat)
    requires Inv(m) && Linked(procs, m) && p < |procs| && procs[p].Live?
    requires i < |procs[p].areas| && j < |procs[p].areas[i].tracks|
    ensures var a := procs[p].areas[i];
            var t := a.tracks[j];
            && Key(p, t.vaddr) in m.refs && m.refs[Key(p, t.vaddr)] == Ref(t.frame, a.IsShared())
            && t.frame in m.counts && t.frame in m.mem
  {
    assert ProcLinked(procs[p], m, p);
    var t := procs[p].areas[i].tracks[j];
    assert t in procs[p].areas[i].tracks;
    assert IsRef(m.refs, p, t, procs[p].areas[i].IsShared());
  }

  /** Replacing the frame of a tracker and its page table entry. */
  lemma ReplaceLinks(procs: seq<Proc>, m: Machine, m': Machine, p: nat, i: nat, j: nat, g: nat)
    requires Linked(procs, m) && p < |procs| && procs[p].Live?
    requires i < |procs[p].areas| && j < |procs[p].areas[i].tracks|
    requires var a := procs[p].areas[i];
             var k := Key(p, a.tracks[j].vaddr);
             && m'.alive == m.alive
             && m'.refs == m.refs[k := Ref(g, a.IsShared())]
             && m'.table == m.table[k := Pte(g, true, true)]
    ensures var a := procs[p].areas[i];
            var v := a.tracks[j].vaddr;
            Linked(procs[p := Live(WithTracks(procs[p].areas, i, a.tracks[j := MapTrack(v, g)]),
                                   procs[p].table[v := Pte(g, true, true)])], m')
  {
    assert ProcLinked(procs[p], m, p);
    var areas := procs[p].areas;
    var a := areas[i];
    var v := a.tracks[j].vaddr;
    var ts := a.tracks[j := MapTrack(v, g)];
    assert a.tracks[j] in a.tracks;
    ReplaceOk(a, j, g);
    WithTracksOk(areas, i, ts);
    ReplaceIsOnly(a.tracks, j, g);
    SetTrackDescribes(areas, m.refs, p, i, ts, MapTrack(v, g));
    LinkOne(procs, m, m', p, Live(WithTracks(areas, i, ts), procs[p].table[v := Pte(g, true, true)]));
  }

  lemma MapLinks(procs: seq<Proc>, m: Machine, p: nat, page: nat, pte: Pte)
    requires Linked(procs, m) && p < |procs| && procs[p].Live?
    ensures Linked(procs[p := procs[p].(table := procs[p].table[page := pte])], Remap(m, Key(p, page), pte))
  {
    assert ProcLinked(procs[p], m, p);
    LinkOne(procs, m, Remap(m, Key(p, page), pte), p, procs[p].(table := procs[p].table[page := pte]));
  }

  /** Adding a tracker for a page that has none. */
  lemma AddLinks(procs: seq<Proc>, m: Machine, p: nat, i: nat, page: nat, g: nat, content: Page)
    requires Linked(procs, m) && p < |procs| && procs[p].Live? && i < |procs[p].areas|
    requires procs[p].areas[i].Contains(page) && page % PAGE_SIZE == 0 && !HasTrack(procs[p].areas[i], page)
    ensures p < |m.alive| && m.alive[p] && Key(p, page) !in m.refs
    ensures var a := procs[p].areas[i];
            Linked(procs[p := Live(WithTracks(procs[p].areas, i, a.tracks + [MapTrack(page, g)]),
                                   procs[p].table[page := Pte(g, true, true)])],
                   FillWith(m, Key(p, page), g, a.IsShared(), content, true, true))
  {
    assert ProcLinked(procs[p], m, p);
    var areas := procs[p].areas;
    var a := areas[i];
    Untracked(areas, m.refs, p, i, page);
    var ts := a.tracks + [MapTrack(page, g)];
    AddOk(a, page, g);
    WithTracksOk(areas, i, ts);
    AddIsOnly(a.tracks, MapTrack(page, g));
    SetTrackDescribes(areas, m.refs, p, i, ts, MapTrack(page, g));
    LinkOne(procs, m, FillWith(m, Key(p, page), g, a.IsShared(), content, true, true), p,
            Live(WithTracks(areas, i, ts), procs[p].table[page := Pte(g, true, true)]));
  }

  lemma PageInArea(procs: seq<Proc>, m: Machine, p: nat, i: nat, addr: nat)
    requires Linked(procs, m) && p < |procs| && procs[p].Live? && i < |procs[p].areas|
    requires procs[p].areas[i].Contains(addr)
    ensures procs[p].areas[i].Contains(PageAlignDown(addr))
  {
    assert ProcLinked(procs[p], m, p);
    assert AreaOk(procs[p].areas[i]);
  }

  lemma CountPositive(m: Machine, f: nat)
    requires Inv(m) && f in m.counts
    ensures m.counts[f] >= 1
  {
  }

  /** One more event keeps the log replayable. */
  lemma Extend(log: seq<Event>, m: Machine, m': Machine, ev: Event)
    requires Replay(INITIAL, log) == Some(Abs(m)) && Apply(Abs(m), ev) == Some(Abs(m'))
    ensures Replay(INITIAL, log + [ev]) == Some(Abs(m'))
  {
    ReplayAppend(INITIAL, log, [ev]);
    assert Replay(Abs(m), [ev]) == Replay(Abs(m'), [ev][1..]);
  }

  /** The page table entry as the machine has it. */
  lemma EntryAt(procs: seq<Proc>, m: Machine, p: nat, page: nat)
    requires Linked(procs, m) && p < |procs| && procs[p].Live? && page in procs[p].table
    ensures Key(p, page) in m.table && m.table[Key(p, page)] == procs[p].table[page]
  {
    assert ProcLinked(procs[p], m, p);
  }

  lemma StoreLinks(procs: seq<Proc>, m: Machine, k: Key, off: nat, b: Byte)
    requires Linked(procs, m) && k in m.table && m.table[k].frame in m.mem && off < PAGE_SIZE
    ensures Linked(procs, StoreTo(m, k, off, b))
  {
    forall q | 0 <= q < |procs| ensures ProcLinked(procs[q], StoreTo(m, k, off, b), q) {
      assert ProcLinked(procs[q], m, q);
    }
  }

  lemma ForkReady(procs: seq<Proc>, m: Machine, p: nat)
    requires Inv(m) && Linked(procs, m) && p < |procs| && procs[p].Live?
    ensures p < |m.alive| && m.alive[p] && |m.alive| == |procs|
    ensures var es := Flatten(procs[p].areas);
            && EntriesDescribe(es, m.refs, p)
            && FramesIn(es) == FramesOfProc(m.refs, p)
            && (forall i, j :: 0 <= i < j < |es| ==> es[i].track.frame != es[j].track.frame)
            && forall e :: e in es ==> e.track.frame in m.counts
  {
    assert ProcLinked(procs[p], m, p);
    var es := Flatten(procs[p].areas);
    FlattenDescribes(procs[p].areas, m.refs, p);
    FramesAreThose(es, m.refs, p);
    forall i, j | 0 <= i < j < |es| ensures es[i].track.frame != es[j].track.frame {
      FramesDistinct(es, m.refs, p, i, j);
    }
    forall e | e in es ensures e.track.frame in m.counts {
      assert IsRef(m.refs, p, e.track, e.shared);
    }
  }

  lemma ForkLinks(procs: seq<Proc>, m: Machine, p: nat, parentTable: map<nat, Pte>, childTable: map<nat, Pte>)
    requires Inv(m) && Linked(procs, m) && p < |procs| && procs[p].Live?
    requires Shares(parentTable, procs[p].table, Flatten(procs[p].areas))
    requires Shares(childTable, map[], Flatten(procs[p].areas))
    ensures Linked(procs[p := procs[p].(table := parentTable)] + [Live(procs[p].areas, childTable)], Fork(m, p))
  {
    ForkOwn(procs[p], m, p, p, procs[p].table, parentTable);
    ForkOwn(procs[p], m, p, |procs|, map[], childTable);
    ForkOthers(procs, m, p);
    LinkForked(procs, m, Fork(m, p), p, procs[p].(table := parentTable), procs[p].(table := childTable));
  }

  lemma ForkOthers(procs: seq<Proc>, m: Machine, p: nat)
    requires Inv(m) && Linked(procs, m) && p < |procs|
    ensures forall q :: 0 <= q < |procs| && q != p ==> ProcLinked(procs[q], Fork(m, p), q)
  {
    forall q | 0 <= q < |procs| && q != p ensures ProcLinked(procs[q], Fork(m, p), q) {
      assert ProcLinked(procs[q], m, q);
      ForkOther(procs[q], m, p, q);
    }
  }

  lemma LinkForked(procs: seq<Proc>, m: Machine, m': Machine, p: nat, parent: Proc, child: Proc)
    requires Linked(procs, m) && p < |procs| && procs[p].Live? && m'.alive == m.alive + [true]
    requires parent.Live? && child.Live? && ProcLinked(parent, m', p) && ProcLinked(child, m', |procs|)
    requires forall q :: 0 <= q < |procs| && q != p ==> ProcLinked(procs[q], m', q)
    ensures Linked(procs[p := parent] + [child], m')
  {
    hide ProcLinked;
  }

  /** The parent (`q == p`) and the child (`q` the new process). */
  lemma ForkOwn(proc: Proc, m: Machine, p: nat, q: nat, base: map<nat, Pte>, table: map<nat, Pte>)
    requires Inv(m) && p < |m.alive| && proc.Live? && ProcLinked(proc, m, p)
    requires (q == p && base == proc.table) || (q == |m.alive| && base == map[])
    requires Shares(table, base, Flatten(proc.areas))
    ensures ProcLinked(proc.(table := table), Fork(m, p), q)
  {
    FlattenDescribes(proc.areas, m.refs, p);
    ForkDescribes(proc.areas, m.refs, p, |m.alive|);
    ForkTableOf(proc.areas, m, p, q, base, table);
  }

  lemma ForkOther(proc: Proc, m: Machine, p: nat, q: nat)
    requires Owned(m.alive, m.refs) && m.table.Keys == m.refs.Keys && p < |m.alive| && q < |m.alive| && p != q
    requires ProcLinked(proc, m, q)
    ensures ProcLinked(proc, Fork(m, p), q)
  {
    var n, m' := |m.alive|, Fork(m, p);
    forall k: Key | k.pid == q
      ensures k in m'.refs <==> k in m.refs
      ensures k in m.refs ==> m'.refs[k] == m.refs[k] && m'.table[k] == m.table[k]
    {
      DuplicateIff(m.refs, p, n, k);
    }
    if proc.Live? {
      forall i, t | 0 <= i < |proc.areas| && t in proc.areas[i].tracks
        ensures IsRef(m'.refs, q, t, proc.areas[i].IsShared())
      {
        assert IsRef(m.refs, q, t, proc.areas[i].IsShared());
      }
    }
  }

  lemma ForkDescribes(areas: seq<MemArea>, refs: map<Key, Ref>, p: nat, n: nat)
    requires Describes(areas, refs, p) && p != n && forall l :: l in refs ==> l.pid != n
    ensures Describes(areas, Duplicate(refs, p, n), p) && Describes(areas, Duplicate(refs, p, n), n)
  {
    var refs' := Duplicate(refs, p, n);
    forall i, t | 0 <= i < |areas| && t in areas[i].tracks
      ensures IsRef(refs', p, t, areas[i].IsShared()) && IsRef(refs', n, t, areas[i].IsShared())
    {
      assert IsRef(refs, p, t, areas[i].IsShared());
      DuplicateIff(refs, p, n, Key(p, t.vaddr));
      DuplicateIff(refs, p, n, Key(n, t.vaddr));
    }
    forall k | k in refs' && (k.pid == p || k.pid == n) ensures Listed(areas, k.page) {
      DuplicateIff(refs, p, n, k);
      assert k.pid == p ==> k in refs;
      assert k.pid == n ==> Key(p, k.page) in refs;
    }
  }

  /** The new tables of parent and child are those of the forked machine. */
  lemma ForkTableOf(areas: seq<MemArea>, m: Machine, p: nat, q: nat, base: map<nat, Pte>, table: map<nat, Pte>)
    requires Owned(m.alive, m.refs) && m.table.Keys == m.refs.Keys && p < |m.alive|
    requires EntriesDescribe(Flatten(areas), m.refs, p) && Shares(table, base, Flatten(areas))
    requires (q == p && TableMatches(base, m.table, p)) || (q == |m.alive| && base == map[])
    ensures TableMatches(table, Fork(m, p).table, q)
  {
    var es, n, m' := Flatten(areas), |m.alive|, Fork(m, p);
    forall v: nat
      ensures v in table <==> Key(q, v) in m'.table
      ensures v in table ==> table[v] == m'.table[Key(q, v)]
    {
      DuplicateIff(m.refs, p, n, Key(q, v));
      assert v in base ==> Key(p, v) in m.refs;
      assert Key(p, v) in m.refs <==> v in Covered(es) by {
        if v in Covered(es) {
          var e :| e in es && e.track.vaddr == v;
          assert IsRef(m.refs, p, e.track, e.shared);
        }
      }
      if v in Covered(es) {
        var e :| e in es && e.track.vaddr == v;
        assert IsRef(m.refs, p, e.track, e.shared);
      }
    }
  }

  lemma ReleaseNext(counts: map<nat, nat>, mem: map<nat, Page>, fs: seq<nat>, i: nat)
    requires Distinct(fs) && i < |fs| && fs[i] in counts && fs[i] in mem
    ensures var f, before, after := fs[i], SeqSet(fs[..i]), SeqSet(fs[..i + 1]);
            && f in Release(counts, before) && Release(counts, before)[f] == counts[f]
            && (counts[f] > 1 ==> && Release(counts, after) == Release(counts, before)[f := counts[f] - 1]
                                  && Freed(counts, after) == Freed(counts, before))
            && (counts[f] <= 1 ==> && Release(counts, after) == Release(counts, before) - {f}
                                   && Freed(counts, after) == Freed(counts, before) + {f}
                                   && Cleared(mem, Freed(counts, after))
                                      == Cleared(mem, Freed(counts, before))[f := ZeroPage()])
  {
    assert fs[..i + 1] == fs[..i] + [fs[i]];
    assert fs[i] !in fs[..i];
    assert SeqSet(fs[..i + 1]) == SeqSet(fs[..i]) + {fs[i]};
  }

  lemma UnmapReady(procs: seq<Proc>, m: Machine, p: nat, lo: nat, hi: nat)
    requires Inv(m) && Linked(procs, m) && p < |procs| && procs[p].Live? && lo <= hi
    ensures p < |m.alive| && m.alive[p]
    ensures var fs := FramesLost(Flatten(procs[p].areas), SubArea(procs[p].areas, lo, hi));
            && Distinct(fs)
            && (CutKeeps(procs[p].areas, lo, hi) ==> SeqSet(fs) == GivenFrames(m.refs, p, CutPages(m.refs, p, lo, hi)))
            && forall f :: f in fs ==> f in m.counts && f in m.mem
    ensures forall v: nat :: v in CutPages(m.refs, p, lo, hi) <==> v in procs[p].table && lo <= v < hi
  {
    assert ProcLinked(procs[p], m, p);
    CutIsTable(procs[p].table, m, p, lo, hi);
    var areas, es, after := procs[p].areas, Flatten(procs[p].areas), SubArea(procs[p].areas, lo, hi);
    ForkReady(procs, m, p);
    InvFrames(m);
    hide Inv; hide Linked; hide ProcLinked; hide EntriesDescribe; hide Flatten; hide SubArea;
    FramesLostDistinct(es, after);
    if CutKeeps(areas, lo, hi) {
      forall e | e in es ensures Tracked(after, e.track) <==> !(lo <= e.track.vaddr < hi) {
        LostAreInside(areas, lo, hi, e);
      }
      FramesLostGiven(es, after, m.refs, p, lo, hi);
    }
    forall f | f in FramesLost(es, after) ensures f in m.counts && f in m.mem {
      FramesLostIff(es, after, f);
    }
  }

  lemma CutIsTable(table: map<nat, Pte>, m: Machine, p: nat, lo: nat, hi: nat)
    requires TableMatches(table, m.table, p) && m.table.Keys == m.refs.Keys
    ensures forall v: nat :: v in CutPages(m.refs, p, lo, hi) <==> v in table && lo <= v < hi
  {
    forall v: nat ensures v in CutPages(m.refs, p, lo, hi) <==> v in table && lo <= v < hi {
      if v in table && lo <= v < hi {
        assert Key(p, v) in m.refs;
      }
      if k :| k in m.refs && k.pid == p && lo <= k.page < hi && k.page == v {
        assert k == Key(p, v);
      }
    }
  }

  lemma UnmapLinks(procs: seq<Proc>, m: Machine, p: nat, lo: nat, hi: nat)
    requires Inv(m) && Linked(procs, m) && p < |procs| && procs[p].Live?
    requires lo <= hi && CutKeeps(procs[p].areas, lo, hi) && CutAligned(procs[p].areas, lo, hi)
    ensures Linked(procs[p := Live(SubArea(procs[p].areas, lo, hi),
                                   procs[p].table - SeqSet(MemAreas.Unmapped(procs[p].areas, lo, hi)))],
                   DropPages(m, p, CutPages(m.refs, p, lo, hi)))
  {
    assert ProcLinked(procs[p], m, p);
    var areas, pages := procs[p].areas, CutPages(m.refs, p, lo, hi);
    SubAreaOk(areas, lo, hi);
    SubDescribes(areas, m.refs, p, lo, hi);
    UnmappedPages(areas, m.refs, p, lo, hi);
    var proc := Live(SubArea(areas, lo, hi), procs[p].table - SeqSet(MemAreas.Unmapped(areas, lo, hi)));
    assert TableMatches(proc.table, Without(m.table, p, pages), p);
    LinkOne(procs, m, DropPages(m, p, pages), p, proc);
  }

  /** After any other cut no machine fits the processes: an area is not well formed, or a page is
      mapped without a tracker. */
  lemma UnmapBreaks(procs: seq<Proc>, m: Machine, m': Machine, p: nat, lo: nat, hi: nat)
    requires Inv(m) && Linked(procs, m) && p < |procs| && procs[p].Live? && lo <= hi
    requires !(CutKeeps(procs[p].areas, lo, hi) && CutAligned(procs[p].areas, lo, hi))
    ensures !(Inv(m') && Linked(procs[p := Live(SubArea(procs[p].areas, lo, hi),
                                                procs[p].table - SeqSet(MemAreas.Unmapped(procs[p].areas, lo, hi)))],
                                                    m'))
  {
    assert ProcLinked(procs[p], m, p);
    var areas, table := procs[p].areas, procs[p].table;
    var after, table' := SubArea(areas, lo, hi), table - SeqSet(MemAreas.Unmapped(areas, lo, hi));
    var procs' := procs[p := Live(after, table')];
    if Inv(m') && Linked(procs', m') {
      assert ProcLinked(procs'[p], m', p);
      hide SubArea;
      if !CutAligned(areas, lo, hi) {
        UnalignedCutBreaks(areas, lo, hi);
      } else {
        var v := LosingCutBreaks(areas, lo, hi);
        ListedIsMapped(procs[p], m, p, v);
      }
    }
  }

  lemma ListedIsMapped(proc: Proc, m: Machine, p: nat, v: nat)
    requires Inv(m) && ProcLinked(proc, m, p) && proc.Live? && Listed(proc.areas, v)
    ensures v in proc.table
  {
    var i :| 0 <= i < |proc.areas| && HasTrack(proc.areas[i], v);
    var t :| t in proc.areas[i].tracks && t.vaddr == v;
    assert IsRef(m.refs, p, t, proc.areas[i].IsShared());
  }

  lemma ExitReady(procs: seq<Proc>, m: Machine, p: nat)
    requires Inv(m) && Linked(procs, m) && p < |procs| && procs[p].Live?
    ensures p < |m.alive| && m.alive[p]
    ensures var fs := AllFrames(Flatten(procs[p].areas));
            && Distinct(fs)
            && SeqSet(fs) == GivenFrames(m.refs, p, PagesOf(Abs(m), p))
            && forall f :: f in fs ==> f in m.counts && f in m.mem
  {
    var es := Flatten(procs[p].areas);
    ForkReady(procs, m, p);
    AllFramesIn(es);
    ExitFrames(m, p);
    var fs := AllFrames(es);
    forall f | f in fs ensures f in m.counts && f in m.mem {
      var i :| 0 <= i < |fs| && fs[i] == f;
      assert es[i] in es;
    }
  }

  lemma ExitFrames(m: Machine, p: nat)
    requires Inv(m)
    ensures GivenFrames(m.refs, p, PagesOf(Abs(m), p)) == FramesOfProc(m.refs, p)
    ensures m.counts.Keys <= m.mem.Keys
  {
    ExitPages(m, p);
  }

  lemma ExitLinks(procs: seq<Proc>, m: Machine, p: nat)
    requires Linked(procs, m) && p < |procs|
    ensures Linked(procs[p := Dead], Exit(m, p))
  {
    LinkOne(procs, m, Exit(m, p), p, Dead);
  }

  /** An area off a page boundary fits no machine. */
  lemma PushBreaks(procs: seq<Proc>, m: Machine, p: nat, a: MemArea)
    requires p < |procs| && procs[p].Live? && a.start % PAGE_SIZE != 0
    ensures !Linked(procs[p := Live(procs[p].areas + [a], procs[p].table)], m)
  {
    var proc := Live(procs[p].areas + [a], procs[p].table);
    assert proc.areas[|procs[p].areas|] == a;
    assert !AreasOk(proc.areas);
    assert procs[p := proc][p] == proc;
  }

  /** Pushing an area whose trackers are new to the machine. */
  lemma PushLinks(procs: seq<Proc>, m: Machine, m': Machine, p: nat, a: MemArea, table: map<nat, Pte>)
    requires Linked(procs, m) && p < |procs| && procs[p].Live? && m'.alive == m.alive
    requires AreaOk(a) && Clear(procs[p].areas, a.start, a.End())
    requires forall k :: k in m.refs ==> k in m'.refs && m'.refs[k] == m.refs[k]
    requires forall t :: t in a.tracks ==> IsRef(m'.refs, p, t, a.IsShared())
    requires forall k :: k in m'.refs && k !in m.refs ==> k.pid == p && HasTrack(a, k.page)
    requires TableMatches(table, m'.table, p) || (table == procs[p].table && m'.table == m.table)
    requires AgreeElsewhere(m.table, m'.table, p)
    ensures Linked(procs[p := Live(procs[p].areas + [a], table)], m')
  {
    assert ProcLinked(procs[p], m, p);
    PushOk(procs[p].areas, a);
    PushDescribes(procs[p].areas, a, m.refs, m'.refs, p);
    LinkOne(procs, m, m', p, Live(procs[p].areas + [a], table));
  }

  // ---------- populating an area ----------

  /** Frames `fs` for consecutive pages of process `p` from `start`. */
  datatype FillSet = FillSet(p: nat, start: nat, fs: seq<nat>, shared: bool, readable: bool, writable: bool) {
    ghost function KeyAt(i: nat): Key {
      Key(p, start + i * PAGE_SIZE)
    }
  }

  ghost function FillMany(m: Machine, s: FillSet, n: nat): Machine
    requires n <= |s.fs|
  {
    if n == 0 then m
    else FillWith(FillMany(m, s, n - 1), s.KeyAt(n - 1), s.fs[n - 1], s.shared, ZeroPage(), s.readable, s.writable)
  }

  ghost function FillEvents(s: FillSet, n: nat): (evs: seq<Event>)
    requires n <= |s.fs|
    ensures |evs| == n
  {
    seq(n, i requires 0 <= i < n => Filled(s.KeyAt(i), ZeroPage(), if s.shared then Some(s.fs[i]) else None))
  }

  /** The frames are free and distinct, and the pages have no tracker. */
  ghost predicate Fillable(m: Machine, s: FillSet) {
    && s.p < |m.alive| && m.alive[s.p] && (s.shared || s.readable)
    && Distinct(s.fs) && SeqSet(s.fs) <= m.free
    && forall i :: 0 <= i < |s.fs| ==> s.KeyAt(i) !in m.refs
  }

  /** The pages filled so far, and nothing else, are new. */
  lemma {:induction false} FillManyRefs(m: Machine, s: FillSet, n: nat)
    requires n <= |s.fs|
    ensures FillMany(m, s, n).alive == m.alive
    ensures forall k :: k in m.refs && (forall i :: 0 <= i < n ==> s.KeyAt(i) != k) ==>
              k in FillMany(m, s, n).refs && FillMany(m, s, n).refs[k] == m.refs[k]
    ensures forall i :: 0 <= i < n ==>
              s.KeyAt(i) in FillMany(m, s, n).refs && FillMany(m, s, n).refs[s.KeyAt(i)] == Ref(s.fs[i], s.shared)
    ensures forall k :: k in FillMany(m, s, n).refs ==> k in m.refs || exists i :: 0 <= i < n && s.KeyAt(i) == k
    decreases n
  {
    if n > 0 {
      FillManyRefs(m, s, n - 1);
    }
  }

  lemma {:induction false} FillManyFree(m: Machine, s: FillSet, n: nat)
    requires n <= |s.fs| && SeqSet(s.fs) <= m.free && FramesSound(m.mem, m.counts, m.free)
    ensures FillMany(m, s, n).free == m.free - SeqSet(s.fs[..n]) && FillMany(m, s, n).mem == m.mem
    ensures FillMany(m, s, n).counts.Keys == m.counts.Keys + SeqSet(s.fs[..n])
    decreases n
  {
    if n > 0 {
      FillManyFree(m, s, n - 1);
      assert s.fs[..n] == s.fs[..n - 1] + [s.fs[n - 1]];
      assert s.fs[n - 1] in s.fs;
    }
  }

  lemma {:induction false} FillManyStep(m: Machine, log: seq<Event>, s: FillSet, n: nat)
    requires Inv(m) && n <= |s.fs| && Fillable(m, s) && Replay(INITIAL, log) == Some(Abs(m))
    ensures Inv(FillMany(m, s, n)) && Replay(INITIAL, log + FillEvents(s, n)) == Some(Abs(FillMany(m, s, n)))
    decreases n
  {
    hide Inv; hide Abs; hide Replay; hide Apply; hide Fillable;
    if n == 0 {
      assert log + FillEvents(s, 0) == log;
    } else {
      FillManyStep(m, log, s, n - 1);
      var m1, k, g := FillMany(m, s, n - 1), s.KeyAt(n - 1), s.fs[n - 1];
      FillManyNext(m, s, n);
      FillStep(m1, k, g, s.shared, ZeroPage(), s.readable, s.writable);
      var ev := Filled(k, ZeroPage(), if s.shared then Some(g) else None);
      Extend(log + FillEvents(s, n - 1), m1, FillMany(m, s, n), ev);
      assert log + FillEvents(s, n) == log + FillEvents(s, n - 1) + [ev];
    }
  }

  lemma FillManyDone(m: Machine, s: FillSet)
    requires Inv(m) && SeqSet(s.fs) <= m.free
    ensures FillMany(m, s, |s.fs|).free == m.free - SeqSet(s.fs) && FillMany(m, s, |s.fs|).mem == m.mem
    ensures FillMany(m, s, |s.fs|).counts.Keys == m.counts.Keys + SeqSet(s.fs)
  {
    FillManyFree(m, s, |s.fs|);
    assert s.fs[..|s.fs|] == s.fs;
  }

  lemma InvFrames(m: Machine)
    requires Inv(m)
    ensures FramesSound(m.mem, m.counts, m.free)
  {
  }

  lemma FillManyNext(m: Machine, s: FillSet, n: nat)
    requires Inv(m) && 0 < n <= |s.fs| && Fillable(m, s)
    ensures var m1 := FillMany(m, s, n - 1);
            && s.p < |m1.alive| && m1.alive[s.p] && (s.shared || s.readable) && s.KeyAt(n - 1) !in m1.refs
                && s.fs[n - 1] in m1.free
  {
    InvFrames(m);
    hide Inv; hide FramesSound; hide FillMany;
    FillManyFree(m, s, n - 1);
    assert s.fs[n - 1] in s.fs;
    assert s.fs[n - 1] !in s.fs[..n - 1];
    FillManyKeyNew(m, s, n);
  }

  lemma FillManyKeyNew(m: Machine, s: FillSet, n: nat)
    requires 0 < n <= |s.fs| && s.KeyAt(n - 1) !in m.refs
    ensures FillMany(m, s, n - 1).alive == m.alive && s.KeyAt(n - 1) !in FillMany(m, s, n - 1).refs
  {
    hide FillMany;
    FillManyRefs(m, s, n - 1);
  }

  lemma TablePut(table: map<nat, Pte>, all: map<Key, Pte>, p: nat, v: nat, pte: Pte)
    requires TableMatches(table, all, p)
    ensures TableMatches(table[v := pte], all[Key(p, v) := pte], p)
  {
  }

  /** An area of `count` pages, each with a tracker. */
  ghost predicate RunArea(a: MemArea, mtype: MemType, start: nat, count: nat) {
    && a.mtype == mtype && a.start == start && a.len == count * PAGE_SIZE && |a.tracks| == count
    && forall i :: 0 <= i < count ==> a.tracks[i].vaddr == start + i * PAGE_SIZE
  }

  function NewRun(mtype: MemType, hasFile: bool, start: nat, fs: seq<nat>): (a: MemArea)
    ensures RunArea(a, mtype, start, |fs|)
    ensures forall i :: 0 <= i < |fs| ==> a.tracks[i] == MapTrack(start + i * PAGE_SIZE, fs[i])
  {
    MemArea(mtype, seq(|fs|, i requires 0 <= i < |fs| => MapTrack(start + i * PAGE_SIZE, fs[i])), hasFile,
            start, |fs| * PAGE_SIZE)
  }

  lemma RunOk(mtype: MemType, hasFile: bool, start: nat, fs: seq<nat>)
    requires start % PAGE_SIZE == 0
    ensures AreaOk(NewRun(mtype, hasFile, start, fs))
  {
    var a := NewRun(mtype, hasFile, start, fs);
    forall t | t in a.tracks ensures a.Contains(t.vaddr) && t.vaddr % PAGE_SIZE == 0 {
      var i :| 0 <= i < |fs| && a.tracks[i] == t;
      assert t.vaddr == start + i * PAGE_SIZE;
    }
    forall v: nat | a.Contains(v) && v % PAGE_SIZE == 0 ensures HasTrack(a, v) {
      var i := (v - start) / PAGE_SIZE;
      assert a.tracks[i].vaddr == v && a.tracks[i] in a.tracks;
    }
  }

  lemma RunReady(procs: seq<Proc>, m: Machine, s: FillSet, a: MemArea)
    requires Linked(procs, m) && s.p < |procs| && procs[s.p].Live?
    requires a.start == s.start && a.len == |s.fs| * PAGE_SIZE && Clear(procs[s.p].areas, a.start, a.End())
    requires (s.shared || s.readable) && SeqSet(s.fs) <= m.free
    requires forall j :: 0 <= j < |s.fs| ==> s.fs[j] == s.fs[0] + j * PAGE_SIZE
    ensures Fillable(m, s) && TableMatches(procs[s.p].table, m.table, s.p)
  {
    assert ProcLinked(procs[s.p], m, s.p);
    var areas := procs[s.p].areas;
    forall i | 0 <= i < |s.fs| ensures s.KeyAt(i) !in m.refs {
      var v := s.start + i * PAGE_SIZE;
      assert a.Contains(v);
      forall j | 0 <= j < |areas| ensures !HasTrack(areas[j], v) {
        assert !areas[j].Overlapping(a.start, a.End());
        assert !areas[j].Contains(v);
      }
    }
  }

  lemma RunLinks(procs: seq<Proc>, m: Machine, s: FillSet, a: MemArea, table: map<nat, Pte>)
    requires Linked(procs, m) && s.p < |procs| && procs[s.p].Live? && Fillable(m, s)
    requires AreaOk(a) && RunArea(a, a.mtype, s.start, |s.fs|) && a.IsShared() == s.shared
    requires forall i :: 0 <= i < |s.fs| ==> a.tracks[i].frame == s.fs[i]
    requires Clear(procs[s.p].areas, a.start, a.End())
    requires TableMatches(table, FillMany(m, s, |s.fs|).table, s.p)
    ensures Linked(procs[s.p := Live(procs[s.p].areas + [a], table)], FillMany(m, s, |s.fs|))
  {
    hide Linked; hide AreaOk; hide Clear; hide TableMatches; hide FillMany;
    var m' := FillMany(m, s, |s.fs|);
    FillManyRefs(m, s, |s.fs|);
    FillManyTable(m, s, |s.fs|);
    forall t | t in a.tracks ensures IsRef(m'.refs, s.p, t, a.IsShared()) {
      var i :| 0 <= i < |a.tracks| && a.tracks[i] == t;
      assert s.KeyAt(i) == Key(s.p, t.vaddr);
    }
    forall k | k in m'.refs && k !in m.refs ensures k.pid == s.p && HasTrack(a, k.page) {
      var i :| 0 <= i < |s.fs| && s.KeyAt(i) == k;
      assert a.tracks[i] in a.tracks && a.tracks[i].vaddr == k.page;
    }
    PushLinks(procs, m, m', s.p, a, table);
  }

  lemma {:induction false} FillManyTable(m: Machine, s: FillSet, n: nat)
    requires n <= |s.fs|
    ensures AgreeElsewhere(m.table, FillMany(m, s, n).table, s.p)
    decreases n
  {
    if n > 0 {
      FillManyTable(m, s, n - 1);
    }
  }

  /** A writable private page: no other tracker of any process holds its frame. */
  lemma SoleTrack(procs: seq<Proc>, m: Machine, p: nat, i: nat, j: nat, q: nat, i': nat, j': nat)
    requires Inv(m) && Linked(procs, m)
    requires p < |procs| && procs[p].Live? && i < |procs[p].areas| && j < |procs[p].areas[i].tracks|
    requires q < |procs| && procs[q].Live? && i' < |procs[q].areas| && j' < |procs[q].areas[i'].tracks|
    requires var t := procs[p].areas[i].tracks[j];
             && !procs[p].areas[i].IsShared() && t.frame == procs[q].areas[i'].tracks[j'].frame
             && t.vaddr in procs[p].table && procs[p].table[t.vaddr].writable
    ensures p == q && i == i' && j == j'
  {
    var t, t' := procs[p].areas[i].tracks[j], procs[q].areas[i'].tracks[j'];
    TrackIsRef(procs, m, p, i, j);
    TrackIsRef(procs, m, q, i', j');
    EntryAt(procs, m, p, t.vaddr);
    WritableIsSole(m, Key(p, t.vaddr), Key(q, t'.vaddr));
    SameTrack(procs[p], m, p, i, j, i', j');
  }

  lemma SameTrack(proc: Proc, m: Machine, p: nat, i: nat, j: nat, i': nat, j': nat)
    requires proc.Live? && ProcLinked(proc, m, p)
    requires i < |proc.areas| && j < |proc.areas[i].tracks| && i' < |proc.areas| && j' < |proc.areas[i'].tracks|
    requires proc.areas[i].tracks[j].vaddr == proc.areas[i'].tracks[j'].vaddr
    ensures i == i' && j == j'
  {
    var t, t' := proc.areas[i].tracks[j], proc.areas[i'].tracks[j'];
    assert t in proc.areas[i].tracks && t' in proc.areas[i'].tracks;
    assert AreaOk(proc.areas[i]);
    assert HasTrack(proc.areas[i'], t.vaddr);
    TrackerArea(proc.areas, i, i', t.vaddr);
    assert UniqueTracks(proc.areas[i].tracks);
  }
}
