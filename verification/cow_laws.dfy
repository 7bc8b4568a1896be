/** What a program sees of the copy-on-write kernel: what it loads after it has mapped, stored,
    forked or unmapped, in bytes and addresses. */
module CowLaws {
  import opened Common
  import opened FrameAllocators
  import opened MemAreas
  import opened EagerFork
  import opened CowMachines
  import opened CowAreas
  import opened CowLinks
  import opened CowSteps
  import opened CowKernels

  // ---------- what an access logs ----------

  /** An access logs itself, and before it at most that its page was filled. */
  ghost predicate LogsAccess(added: seq<Event>, k: Key, ev: Event) {
    || added == [ev]
    || (|added| == 2 && added[0].Filled? && added[0].key == k && added[1] == ev)
  }

  lemma ReachedLogs(s: Snapshot, t: Snapshot, evs: seq<Event>, p: nat, addr: nat, bytes: seq<Byte>, write: bool,
                    ev: Event)
    requires s.Runs(p) && |bytes| <= PAGE_SIZE && Reached(s, t, evs, p, addr, bytes, write)
    ensures LogsAccess(evs + [ev], Key(p, PageAlignDown(addr)), ev)
  {
    hide TookFirst; hide WithFill; hide WithCopy; hide WithEntry; hide FaultAnswer; hide FirstContent;
    if evs != [] {
      assert |evs| == 1;
    } else {
      assert evs + [ev] == [ev];
    }
  }

  lemma LoadLogs(op: KernelOp, b: Byte, s: Snapshot, s': Snapshot, added: seq<Event>)
    requires op.OpLoad? && LegalIn(s.procs, op) && Explains(op, Got(b), s, s', added)
    ensures var k := Key(op.pid, PageAlignDown(op.addr)); LogsAccess(added, k, Loaded(k, op.addr % PAGE_SIZE, b))
  {
    hide Reached; hide Stuck; hide ByteAt; hide PageAlignDown; hide LogsAccess;
    var front, ev := added[..|added| - 1], added[|added| - 1];
    assert added == front + [ev];
    ReachedLogs(s, s', front, op.pid, op.addr, op.fileBytes, false, ev);
  }

  lemma StoreLogs(op: KernelOp, s: Snapshot, s': Snapshot, added: seq<Event>)
    requires op.OpStore? && LegalIn(s.procs, op) && Explains(op, Done, s, s', added)
    ensures var k := Key(op.pid, PageAlignDown(op.addr)); LogsAccess(added, k, Stored(k, op.addr % PAGE_SIZE, op.value))
  {
    hide Reached; hide Stuck; hide ByteAt; hide WithByte; hide PageAlignDown; hide LogsAccess;
    var front, ev := added[..|added| - 1], added[|added| - 1];
    assert added == front + [ev];
    var t :| Reached(s, t, front, op.pid, op.addr, op.fileBytes, true);
    ReachedLogs(s, t, front, op.pid, op.addr, op.fileBytes, true, ev);
  }

  /** Process `p` has the same areas but for their trackers, and no other process changed. */
  ghost predicate SameAreas(s: Snapshot, s': Snapshot, p: nat)
    requires s.Runs(p)
  {
    && |s'.procs| == |s.procs| && s'.Runs(p) && |s'.procs[p].areas| == |s.procs[p].areas|
    && (forall q :: 0 <= q < |s.procs| && q != p ==> s'.procs[q] == s.procs[q])
    && forall i :: 0 <= i < |s.procs[p].areas| ==>
         s'.procs[p].areas[i] == s.procs[p].areas[i].(tracks := s'.procs[p].areas[i].tracks)
  }

  lemma FaultKeepsAreas(s: Snapshot, s': Snapshot, added: seq<Event>, p: nat, addr: nat, bytes: seq<Byte>)
    requires s.Runs(p) && |bytes| <= PAGE_SIZE && Faulted(s, s', added, p, addr, bytes)
    ensures SameAreas(s, s', p)
  {
    hide TookFirst; hide FirstContent; hide Union;
  }

  /** An access changes areas only in their trackers, and the process that makes it only; one that
      fails changes nothing. */
  lemma AccessKeeps(op: KernelOp, r: OpResult, s: Snapshot, s': Snapshot, added: seq<Event>)
    requires (op.OpLoad? || op.OpStore?) && LegalIn(s.procs, op) && Explains(op, r, s, s', added)
    ensures SameAreas(s, s', op.pid) && (r.Failed? ==> s' == s && added == [])
  {
    hide Faulted; hide FaultAnswer; hide ByteAt;
    if op.OpLoad? && r.Got? && !s.Mapped(op.pid, PageAlignDown(op.addr), false) {
      FaultKeepsAreas(s, s', added[..|added| - 1], op.pid, op.addr, op.fileBytes);
    }
    if op.OpStore? && r.Done? {
      var t :| && Reached(s, t, added[..|added| - 1], op.pid, op.addr, op.fileBytes, true)
               && t.Runs(op.pid) && ByteAt(t, op.pid, op.addr).Some? && s' == WithByte(t, op.pid, op.addr, op.value);
      if !s.Mapped(op.pid, PageAlignDown(op.addr), true) {
        FaultKeepsAreas(s, t, added[..|added| - 1], op.pid, op.addr, op.fileBytes);
      }
    }
  }

  // ---------- the same on the eager machine ----------

  /** The byte of a page of the eager machine. */
  function EagerByte(e: Eager, k: Key, off: nat): Option<Byte>
    requires off < PAGE_SIZE
  {
    if e.PageOf(k).Some? then Some(e.PageOf(k).value.bytes[off]) else None
  }

  /** No two pages of a process name one object. */
  ghost predicate NoAliases(e: Eager) {
    forall k, l :: k in e.shared && l in e.shared && k.pid == l.pid && e.shared[k] == e.shared[l] ==> k == l
  }

  lemma AbsNoAliases(m: Machine)
    requires Inv(m)
    ensures NoAliases(Abs(m))
  {
    forall k, l | k in SharedOf(m.refs) && l in SharedOf(m.refs) && k.pid == l.pid
                  && SharedOf(m.refs)[k] == SharedOf(m.refs)[l]
      ensures k == l
    {
      assert m.refs[k].frame == m.refs[l].frame;
    }
  }

  lemma ReplayNone(e: Eager)
    ensures Replay(e, []) == Some(e)
  {
  }

  lemma ReplayOne(e: Eager, ev: Event)
    ensures Replay(e, [ev]) == Apply(e, ev)
  {
    assert [ev][1..] == [];
  }

  /** The events of an access one after the other. */
  lemma AccessReplays(e: Eager, added: seq<Event>, k: Key, ev: Event)
    requires LogsAccess(added, k, ev) && Replay(e, added).Some?
    ensures |added| == 1 ==> Apply(e, ev) == Replay(e, added)
    ensures |added| == 2 ==> && e.PageOf(k).None? && Apply(e, added[0]).Some?
                             && Apply(Apply(e, added[0]).value, ev) == Replay(e, added)
  {
    if |added| == 1 {
      ReplayOne(e, ev);
    } else {
      assert added == [added[0]] + [ev];
      ReplayAppend(e, [added[0]], [ev]);
      ReplayOne(e, added[0]);
      ReplayOne(Apply(e, added[0]).value, ev);
    }
  }

  /** A load yields what is there, and changes nothing that was there. */
  lemma LoadSees(e: Eager, e': Eager, added: seq<Event>, k: Key, off: nat, b: Byte)
    requires off < PAGE_SIZE && LogsAccess(added, k, Loaded(k, off, b)) && Replay(e, added) == Some(e')
    ensures EagerByte(e', k, off) == Some(b) && (e.PageOf(k).Some? ==> e' == e)
  {
    AccessReplays(e, added, k, Loaded(k, off, b));
  }

  /** A fill adds one page, and changes no other. */
  lemma FillAdds(e: Eager, ev: Event, k: Key, l: Key)
    requires ev.Filled? && ev.key == k && Apply(e, ev).Some? && e.PageOf(l).Some?
    ensures l != k && Apply(e, ev).value.PageOf(l) == e.PageOf(l)
  {
  }

  lemma StoreOther(e: Eager, k: Key, off: nat, b: Byte, l: Key, o: nat)
    requires e.PageOf(k).Some? && e.PageOf(l).Some? && off < PAGE_SIZE && o < PAGE_SIZE && (k, off) != (l, o)
    requires k in e.shared && l in e.shared && e.shared[k] == e.shared[l] ==> k == l
    requires k in e.private ==> k !in e.shared
    requires l in e.private ==> l !in e.shared
    ensures EagerByte(EagerFork.Store(e, k, off, b), l, o) == EagerByte(e, l, o)
  {
  }

  lemma StoreHere(e: Eager, k: Key, off: nat, b: Byte)
    requires e.PageOf(k).Some? && off < PAGE_SIZE
    ensures EagerByte(EagerFork.Store(e, k, off, b), k, off) == Some(b)
  {
  }

  /** A store is read where it was made, and every other byte the process had is as before. */
  lemma StoreSees(e: Eager, e': Eager, added: seq<Event>, k: Key, off: nat, b: Byte)
    requires off < PAGE_SIZE && LogsAccess(added, k, Stored(k, off, b)) && Replay(e, added) == Some(e')
    ensures EagerByte(e', k, off) == Some(b)
  {
    AccessReplays(e, added, k, Stored(k, off, b));
    var e1 := if |added| == 1 then e else Apply(e, added[0]).value;
    StoreHere(e1, k, off, b);
  }

  /** A page is private or shared. */
  ghost predicate Sorted(e: Eager) {
    e.private.Keys !! e.shared.Keys
  }

  lemma AbsSorted(m: Machine)
    ensures Sorted(Abs(m))
  {
  }

  lemma StoreSpares(e: Eager, e': Eager, added: seq<Event>, k: Key, off: nat, b: Byte, l: Key, o: nat)
    requires off < PAGE_SIZE && o < PAGE_SIZE && LogsAccess(added, k, Stored(k, off, b)) && Replay(e, added) == Some(e')
    requires e.PageOf(l).Some? && (k, off) != (l, o) && k.pid == l.pid && Sorted(e)
    requires NoAliases(e)
    ensures EagerByte(e', l, o) == EagerByte(e, l, o)
  {
    AccessReplays(e, added, k, Stored(k, off, b));
    if |added| == 1 {
      StoreOther(e, k, off, b, l, o);
    } else {
      var e1 := Apply(e, added[0]).value;
      FillAdds(e, added[0], k, l);
      StoreOther(e1, k, off, b, l, o);
    }
  }

  // ---------- loads after stores ----------

  /** The eager machine after the events that an operation added. */
  lemma Continues(before: seq<Event>, after: seq<Event>, m: Machine, m': Machine)
    requires before <= after && Replay(INITIAL, before) == Some(Abs(m)) && Replay(INITIAL, after) == Some(Abs(m'))
    ensures Replay(Abs(m), after[|before|..]) == Some(Abs(m'))
  {
    assert after == before + after[|before|..];
    ReplayAppend(INITIAL, before, after[|before|..]);
  }

  /** A load of `p` that yields `b` at an address: the eager machine has it there. */
  method LoadByte(k: CowKernel, p: nat, addr: nat, bytes: seq<Byte>) returns (r: Option<Byte>)
    requires k.Valid() && k.Runs(p) && |bytes| <= PAGE_SIZE
    modifies k, k.frames.regions
    ensures k.Valid() && k.Runs(p) && (r.None? <==> Stuck(old(k.Shot()), p, addr, false))
    ensures SameAreas(old(k.Shot()), k.Shot(), p)
    ensures r.None? ==> Abs(k.m) == old(Abs(k.m))
    ensures r.Some? ==>
              var l := Key(p, PageAlignDown(addr));
              && EagerByte(Abs(k.m), l, addr % PAGE_SIZE) == r
              && (old(Abs(k.m)).PageOf(l).Some? ==> Abs(k.m) == old(Abs(k.m)))
  {
    hide Inv; hide Linked; hide Replay; hide Abs; hide FrameAllocator.Valid; hide FrameAllocator.Free; hide Managed;
    hide FrameAllocator.Sets; hide Explains; hide Stuck; hide LogsAccess; hide EagerByte;
    hide SameAreas;
    ghost var log, m, s := k.log, k.m, k.Shot();
    r := k.Load(p, addr, bytes);
    Continues(log, k.log, m, k.m);
    ghost var added := k.log[|log|..];
    AccessKeeps(OpLoad(p, addr, bytes), if r.Some? then Got(r.value) else Failed, s, k.Shot(), added);
    ReplayNone(Abs(m));
    if r.Some? {
      ghost var l := Key(p, PageAlignDown(addr));
      LoadLogs(OpLoad(p, addr, bytes), r.value, s, k.Shot(), added);
      LoadSees(Abs(m), Abs(k.m), added, l, addr % PAGE_SIZE, r.value);
    }
  }

  /** A store of `p`: the eager machine has it there, and every other byte of `p` as before. */
  method StoreByte(k: CowKernel, p: nat, addr: nat, b: Byte, bytes: seq<Byte>, ghost l: Key, ghost o: nat)
    returns (ok: bool)
    requires k.Valid() && k.Runs(p) && |bytes| <= PAGE_SIZE && o < PAGE_SIZE
    modifies k, k.frames.regions
    ensures k.Valid() && k.Runs(p) && (!ok <==> Stuck(old(k.Shot()), p, addr, true))
    ensures SameAreas(old(k.Shot()), k.Shot(), p)
    ensures !ok ==> Abs(k.m) == old(Abs(k.m))
    ensures ok ==> EagerByte(Abs(k.m), Key(p, PageAlignDown(addr)), addr % PAGE_SIZE) == Some(b)
    ensures && ok && l.pid == p && old(Abs(k.m)).PageOf(l).Some?
            && (l, o) != (Key(p, PageAlignDown(addr)), addr % PAGE_SIZE) ==>
              EagerByte(Abs(k.m), l, o) == EagerByte(old(Abs(k.m)), l, o)
    ensures ok ==> exists added :: && LogsAccess(added, Key(p, PageAlignDown(addr)),
                                                 Stored(Key(p, PageAlignDown(addr)), addr % PAGE_SIZE, b))
                                   && Replay(old(Abs(k.m)), added) == Some(Abs(k.m))
  {
    hide Inv; hide Linked; hide Replay; hide Abs; hide FrameAllocator.Valid; hide FrameAllocator.Free; hide Managed;
    hide FrameAllocator.Sets; hide Explains; hide Stuck; hide LogsAccess; hide EagerByte; hide SameAreas;
    ghost var log, m, s := k.log, k.m, k.Shot();
    AbsNoAliases(m);
    AbsSorted(m);
    ok := k.Store(p, addr, b, bytes);
    Continues(log, k.log, m, k.m);
    ghost var added, key, off := k.log[|log|..], Key(p, PageAlignDown(addr)), addr % PAGE_SIZE;
    AccessKeeps(OpStore(p, addr, b, bytes), if ok then Done else Failed, s, k.Shot(), added);
    ReplayNone(Abs(m));
    if ok {
      StoreLogs(OpStore(p, addr, b, bytes), s, k.Shot(), added);
      StoreSees(Abs(m), Abs(k.m), added, key, off, b);
      if l.pid == p && Abs(m).PageOf(l).Some? && (l, o) != (key, off) {
        StoreSpares(Abs(m), Abs(k.m), added, key, off, b, l, o);
      }
    }
  }

  /** A load after a store to the same address yields the byte stored. */
  method StoreThenLoad(k: CowKernel, p: nat, addr: nat, b: Byte, bytes: seq<Byte>) returns (ok: bool, r: Option<Byte>)
    requires k.Valid() && k.Runs(p) && |bytes| <= PAGE_SIZE
    modifies k, k.frames.regions
    ensures k.Valid() && (ok && r.Some? ==> r.value == b)
  {
    hide Inv; hide Linked; hide Replay; hide Abs; hide FrameAllocator.Valid; hide FrameAllocator.Free; hide Managed;
    hide FrameAllocator.Sets; hide Stuck; hide LogsAccess; hide SameAreas;
    ok := StoreByte(k, p, addr, b, bytes, Key(0, 0), 0);
    r := LoadByte(k, p, addr, bytes);
  }

  /** A byte loaded before a store to another address is loaded after it too. */
  method StoreElsewhere(k: CowKernel, p: nat, addr: nat, other: nat, b: Byte, bytes: seq<Byte>)
    returns (before: Option<Byte>, ok: bool, after: Option<Byte>)
    requires k.Valid() && k.Runs(p) && |bytes| <= PAGE_SIZE && addr != other
    modifies k, k.frames.regions
    ensures k.Valid() && (before.Some? && ok && after.Some? ==> after == before)
  {
    hide Inv; hide Linked; hide Replay; hide Abs; hide FrameAllocator.Valid; hide FrameAllocator.Free; hide Managed;
    hide FrameAllocator.Sets; hide Stuck; hide LogsAccess; hide SameAreas;
    before := LoadByte(k, p, other, bytes);
    ok := StoreByte(k, p, addr, b, bytes, Key(p, PageAlignDown(other)), other % PAGE_SIZE);
    after := LoadByte(k, p, other, bytes);
  }

  // ---------- forks ----------

  /** A page of the eager machine is private exactly when its area is. */
  lemma PrivateIff(procs: seq<Proc>, m: Machine, p: nat, i: nat, addr: nat)
    requires Inv(m) && Linked(procs, m) && p < |procs| && procs[p].Live? && i < |procs[p].areas|
    requires procs[p].areas[i].Contains(addr) && Abs(m).PageOf(Key(p, PageAlignDown(addr))).Some?
    ensures var k := Key(p, PageAlignDown(addr));
            if procs[p].areas[i].IsShared() then k in Abs(m).shared && k !in Abs(m).private else k in Abs(m).private
  {
    var page := PageAlignDown(addr);
    var areas := procs[p].areas;
    assert ProcLinked(procs[p], m, p);
    PageInArea(procs, m, p, i, addr);
    assert Key(p, page) in m.refs;
    var j :| 0 <= j < |areas| && HasTrack(areas[j], page);
    TrackerArea(areas, i, j, page);
    var t :| t in areas[j].tracks && t.vaddr == page;
    assert IsRef(m.refs, p, t, areas[j].IsShared());
  }

  /** After a fork parent and child have the page alike: each its own, or both the same object. */
  lemma ForkCopies(e: Eager, e1: Eager, p: nat, page: nat)
    requires Apply(e, Forked(p)) == Some(e1) && e.PageOf(Key(p, page)).Some?
    requires forall k :: k in e.private || k in e.shared ==> k.pid < |e.alive|
    ensures var k, c := Key(p, page), Key(|e.alive|, page);
            && e1.PageOf(k) == e.PageOf(k) == e1.PageOf(c)
            && (k in e1.private <==> k in e.private) && (c in e1.private <==> k in e.private)
            && (k in e1.shared <==> k in e.shared) && (c in e1.shared <==> k in e.shared)
            && (k in e.shared ==> e1.shared[k] == e1.shared[c])
  {
    var k, c := Key(p, page), Key(|e.alive|, page);
    assert k in e.private ==> c in Inherited(e.private, p, |e.alive|);
    assert k in e.shared ==> c in Inherited(e.shared, p, |e.alive|);
    assert c !in e.private && c !in e.shared;
  }

  /** What the other of parent and child reads after one of them has stored. */
  lemma ForkShares(e: Eager, e1: Eager, e2: Eager, p: nat, page: nat, off: nat, b: Byte, added: seq<Event>, writer: nat)
    requires Apply(e, Forked(p)) == Some(e1) && off < PAGE_SIZE && e.PageOf(Key(p, page)).Some?
    requires forall k :: k in e.private || k in e.shared ==> k.pid < |e.alive|
    requires p < |e.alive| && (writer == p || writer == |e.alive|)
    requires LogsAccess(added, Key(writer, page), Stored(Key(writer, page), off, b)) && Replay(e1, added) == Some(e2)
    ensures var reader := if writer == p then |e.alive| else p;
            var k := Key(p, page);
            && (k in e.private && k !in e.shared ==> EagerByte(e2, Key(reader, page), off) == EagerByte(e, k, off))
            && (k in e.shared && k !in e.private ==> EagerByte(e2, Key(reader, page), off) == Some(b))
  {
    ForkCopies(e, e1, p, page);
    AccessReplays(e1, added, Key(writer, page), Stored(Key(writer, page), off, b));
    hide LogsAccess; hide Replay;
    var w, r := Key(writer, page), Key(if writer == p then |e.alive| else p, page);
    assert e2 == EagerFork.Store(e1, w, off, b);
    SeenByOther(e1, w, r, off, b);
  }

  lemma SeenByOther(e: Eager, w: Key, r: Key, off: nat, b: Byte)
    requires e.PageOf(w).Some? && e.PageOf(r).Some? && off < PAGE_SIZE && w != r
    ensures w in e.private && r in e.private ==>
              EagerByte(EagerFork.Store(e, w, off, b), r, off) == EagerByte(e, r, off)
    ensures w !in e.private && r !in e.private && e.shared[w] == e.shared[r] ==>
              EagerByte(EagerFork.Store(e, w, off, b), r, off) == Some(b)
  {
  }

  lemma AbsOwned(m: Machine)
    requires Inv(m)
    ensures forall k :: k in Abs(m).private || k in Abs(m).shared ==> k.pid < |Abs(m).alive|
  {
  }

  lemma ForkApplies(s: Snapshot, s': Snapshot, p: nat, child: nat, e: Eager, e': Eager, added: seq<Event>)
    requires s.Runs(p) && Explains(OpFork(p), Child(child), s, s', added) && Replay(e, added) == Some(e')
    ensures child == |s.procs| && s'.Runs(child) && s'.Runs(p) && Apply(e, Forked(p)) == Some(e')
    ensures s'.procs[child].areas == s'.procs[p].areas == s.procs[p].areas
    ensures |s'.procs| == |s.procs| + 1 && forall q :: 0 <= q < |s.procs| && q != p ==> s'.procs[q] == s.procs[q]
    ensures s'.mem == s.mem && s'.sets == s.sets
  {
    hide Shares; hide Bump; hide Flatten;
    ReplayOne(e, Forked(p));
  }

  method ForkPages(k: CowKernel, p: nat) returns (child: nat)
    requires k.Valid() && k.Runs(p)
    modifies k
    ensures k.Valid() && child == |old(k.procs)| && k.Runs(child) && k.Runs(p)
    ensures Apply(old(Abs(k.m)), Forked(p)) == Some(Abs(k.m)) && |old(Abs(k.m)).alive| == child
  {
    hide Inv; hide Linked; hide Replay; hide Abs; hide FrameAllocator.Valid; hide FrameAllocator.Free; hide Managed;
    hide FrameAllocator.Sets; hide Explains; hide Apply;
    ghost var log, m, s := k.log, k.m, k.Shot();
    AliveIsProcs(k.procs, m);
    child := k.Fork(p);
    Continues(log, k.log, m, k.m);
    ForkApplies(s, k.Shot(), p, child, Abs(m), Abs(k.m), k.log[|log|..]);
  }

  /** After a fork the parent and the child map each tracked page to its frame, to write to it only in
      a shared area, and the child maps nothing else. */
  lemma ForkEntries(s: Snapshot, s': Snapshot, p: nat, r: OpResult, added: seq<Event>, i: nat, t: MapTrack)
    requires s.Runs(p) && Explains(OpFork(p), r, s, s', added)
    requires i < |s.procs[p].areas| && t in s.procs[p].areas[i].tracks
    ensures s'.Runs(p) && s'.Runs(|s.procs|)
    ensures var shared := s.procs[p].areas[i].IsShared();
            && t.vaddr in s'.procs[p].table && s'.procs[p].table[t.vaddr] == Pte(t.frame, true, shared)
            && t.vaddr in s'.procs[|s.procs|].table && s'.procs[|s.procs|].table[t.vaddr] == Pte(t.frame, true, shared)
  {
    var areas := s.procs[p].areas;
    var e := Entry(t, areas[i].IsShared());
    assert EntryOf(areas, i, e);
    FlattenIff(areas, e);
    hide Flatten;
    assert e.track.vaddr in Covered(Flatten(areas));
  }

  /** After a fork, a store of the parent or the child to a private page is not seen by the other,
      and one to a shared page is. */
  method ForkThenStore(k: CowKernel, p: nat, i: nat, addr: nat, b: Byte, bytes: seq<Byte>, byChild: bool)
    returns (before: Option<Byte>, child: nat, ok: bool, after: Option<Byte>)
    requires k.Valid() && k.Runs(p) && |bytes| <= PAGE_SIZE
    requires i < |k.procs[p].areas| && k.procs[p].areas[i].Contains(addr)
    modifies k, k.frames.regions
    ensures k.Valid() && child == |old(k.procs)|
    ensures before.Some? && ok && after.Some? ==>
              after.value == if old(k.procs)[p].areas[i].IsShared() then b else before.value
  {
    hide Inv; hide Linked; hide Replay; hide Abs; hide FrameAllocator.Valid; hide FrameAllocator.Free; hide Managed;
    hide FrameAllocator.Sets; hide Stuck; hide LogsAccess; hide Explains; hide EagerByte;
    hide Apply;
    before := LoadByte(k, p, addr, bytes);
    ghost var m, procs := k.m, k.procs;
    ghost var page, off := PageAlignDown(addr), addr % PAGE_SIZE;
    child := ForkPages(k, p);
    ghost var e1 := Abs(k.m);
    var writer, reader := if byChild then child else p, if byChild then p else child;
    ok := StoreByte(k, writer, addr, b, bytes, Key(0, 0), 0);
    ghost var e2 := Abs(k.m);
    after := LoadByte(k, reader, addr, bytes);
    if before.Some? && ok && after.Some? {
      ghost var added :| && LogsAccess(added, Key(writer, page), Stored(Key(writer, page), off, b))
                         && Replay(e1, added) == Some(e2);
      ForkSeen(procs, m, e1, e2, p, i, addr, b, added, writer);
    }
  }

  /** What `ForkShares` says, by the kind of the area. */
  lemma ForkSeen(procs: seq<Proc>, m: Machine, e1: Eager, e2: Eager, p: nat, i: nat, addr: nat, b: Byte,
                 added: seq<Event>, writer: nat)
    requires Inv(m) && Linked(procs, m) && p < |procs| && procs[p].Live? && i < |procs[p].areas|
    requires procs[p].areas[i].Contains(addr) && Apply(Abs(m), Forked(p)) == Some(e1)
    requires EagerByte(Abs(m), Key(p, PageAlignDown(addr)), addr % PAGE_SIZE).Some?
    requires p < |Abs(m).alive| && (writer == p || writer == |Abs(m).alive|)
    requires var k := Key(writer, PageAlignDown(addr)); LogsAccess(added, k, Stored(k, addr % PAGE_SIZE, b))
    requires Replay(e1, added) == Some(e2)
    ensures var reader := if writer == p then |Abs(m).alive| else p;
            var page, off := PageAlignDown(addr), addr % PAGE_SIZE;
            && e2.PageOf(Key(reader, page)).Some?
            && EagerByte(e2, Key(reader, page), off)
               == if procs[p].areas[i].IsShared() then Some(b) else EagerByte(Abs(m), Key(p, page), off)
  {
    hide Inv; hide Linked; hide Replay; hide Abs; hide LogsAccess; hide Apply; hide PageAlignDown;
    var page, off := PageAlignDown(addr), addr % PAGE_SIZE;
    PrivateIff(procs, m, p, i, addr);
    AbsSorted(m);
    AbsOwned(m);
    ForkShares(Abs(m), e1, e2, p, page, off, b, added, writer);
  }

  lemma AliveIsProcs(procs: seq<Proc>, m: Machine)
    requires Linked(procs, m)
    ensures |Abs(m).alive| == |procs|
  {
  }

  // ---------- mappings ----------

  /** A page with a page table entry is covered by an area. */
  lemma EntryCovered(procs: seq<Proc>, m: Machine, p: nat, page: nat)
    requires Inv(m) && Linked(procs, m) && p < |procs| && procs[p].Live? && page in procs[p].table
    ensures Covers(procs[p].areas, page)
  {
    assert ProcLinked(procs[p], m, p);
    assert Key(p, page) in m.table && Key(p, page) in m.refs;
    var j :| 0 <= j < |procs[p].areas| && HasTrack(procs[p].areas[j], page);
    assert AreaOk(procs[p].areas[j]);
    assert procs[p].areas[j].Contains(page);
  }

  lemma ClearUncovered(areas: seq<MemArea>, lo: nat, hi: nat, v: nat)
    requires Clear(areas, lo, hi) && lo <= v < hi
    ensures !Covers(areas, v)
  {
  }

  lemma PageInRange(start: nat, len: nat, addr: nat)
    requires start % PAGE_SIZE == 0 && start <= addr < start + len
    ensures start <= PageAlignDown(addr) < start + len && addr - PageAlignDown(addr) == addr % PAGE_SIZE
  {
  }

  /** The first load of a page of the last area, which alone covers it and has no trackers. */
  lemma FirstLoad(s: Snapshot, s': Snapshot, p: nat, addr: nat, bytes: seq<Byte>, r: OpResult, added: seq<Event>)
    requires s.Runs(p) && |bytes| <= PAGE_SIZE && |Union(s.sets)| >= 10 && PageAlignDown(addr) !in s.procs[p].table
    requires var areas := s.procs[p].areas;
             && |areas| > 0 && areas[|areas| - 1].Contains(addr) && areas[|areas| - 1].tracks == []
             && forall i :: 0 <= i < |areas| - 1 ==> !areas[i].Contains(addr)
    requires Explains(OpLoad(p, addr, bytes), r, s, s', added)
    ensures var a, off := s.procs[p].areas[|s.procs[p].areas| - 1], addr - PageAlignDown(addr);
            r == Got(if a.hasFile && off < |bytes| then bytes[off] else 0)
  {
    hide TookFirst; hide Union;
    var n, page := |s.procs[p].areas| - 1, PageAlignDown(addr);
    assert FirstArea(s.procs[p].areas, addr) == Some(n);
    assert FaultAnswer(s, p, addr) == Resolved;
    hide FaultAnswer; hide FirstArea; hide FirstTrack;
    assert FilledIn(s, s', added[..|added| - 1], p, n, page, bytes);
  }

  /** A load from a new lazy mapping, wherever in it, yields 0, or the bytes of its file and zeros
      after them. */
  method LazyReads(k: CowKernel, p: nat, mtype: MemType, hasFile: bool, start: nat, len: nat, addr: nat,
                   bytes: seq<Byte>) returns (r: Option<Byte>)
    requires k.Valid() && k.Runs(p) && len % PAGE_SIZE == 0 && start % PAGE_SIZE == 0 && |bytes| <= PAGE_SIZE
    requires mtype != Shared && mtype != ShareFile && Clear(k.procs[p].areas, start, start + len)
    requires start <= addr < start + len && |k.frames.Free()| >= 10
    modifies k, k.frames.regions
    ensures k.Valid()
    ensures r == Some(if hasFile && addr % 4096 < |bytes| then bytes[addr % 4096] else 0)
  {
    hide Inv; hide Linked; hide Replay; hide Abs; hide FrameAllocator.Valid; hide FrameAllocator.Free; hide Managed;
    hide FrameAllocator.Sets; hide Explains; hide Stuck; hide Union; hide Clear; hide Covers; hide PageAlignDown;
    k.FreeIsUnion();
    UncoveredPage(k.procs, k.m, p, start, len, addr);
    k.MapLazy(p, mtype, hasFile, start, len);
    k.FreeIsUnion();
    ghost var s, log := k.Shot(), k.log;
    r := k.Load(p, addr, bytes);
    FirstLoad(s, k.Shot(), p, addr, bytes, if r.Some? then Got(r.value) else Failed, k.log[|log|..]);
  }

  lemma UncoveredPage(procs: seq<Proc>, m: Machine, p: nat, start: nat, len: nat, addr: nat)
    requires Inv(m) && Linked(procs, m) && p < |procs| && procs[p].Live? && Clear(procs[p].areas, start, start + len)
    requires start % PAGE_SIZE == 0 && start <= addr < start + len
    ensures PageAlignDown(addr) !in procs[p].table && addr - PageAlignDown(addr) == addr % PAGE_SIZE
    ensures forall i :: 0 <= i < |procs[p].areas| ==> !procs[p].areas[i].Contains(addr)
  {
    PageInRange(start, len, addr);
    ClearUncovered(procs[p].areas, start, start + len, PageAlignDown(addr));
    ClearUncovered(procs[p].areas, start, start + len, addr);
    if PageAlignDown(addr) in procs[p].table {
      EntryCovered(procs, m, p, PageAlignDown(addr));
    }
  }

  lemma {:induction false} RunTableAt(table: map<nat, Pte>, start: nat, fs: seq<nat>, readable: bool, writable: bool,
                                      n: nat, v: nat)
    requires n <= |fs|
    ensures var t := RunTable(table, start, fs, readable, writable, n);
            && (forall i :: 0 <= i < n && v == start + i * PAGE_SIZE ==>
                  v in t && t[v] == Pte(fs[i], readable, writable))
            && ((forall i :: 0 <= i < n ==> v != start + i * PAGE_SIZE) ==>
                  (v in t <==> v in table) && (v in t ==> t[v] == table[v]))
    decreases n
  {
    if n > 0 {
      RunTableAt(table, start, fs, readable, writable, n - 1, v);
    }
  }

  /** The pages of the run are mapped as asked, and all others as before. */
  ghost predicate RunMappedIn(table: map<nat, Pte>, t: map<nat, Pte>, op: KernelOp, ts: seq<MapTrack>)
    requires op.OpMapFrames?
  {
    && (forall i :: 0 <= i < |ts| ==>
          ts[i].vaddr in t && t[ts[i].vaddr] == Pte(ts[i].frame, op.readable, op.writable))
    && forall v :: (forall i :: 0 <= i < |ts| ==> v != ts[i].vaddr) ==>
         (v in t <==> v in table) && (v in t ==> t[v] == table[v])
  }

  lemma RunTableIs(table: map<nat, Pte>, op: KernelOp, fs: seq<nat>, ts: seq<MapTrack>)
    requires op.OpMapFrames? && |ts| == |fs|
    requires forall i :: 0 <= i < |fs| ==> ts[i] == MapTrack(op.start + i * PAGE_SIZE, fs[i])
    ensures RunMappedIn(table, RunTable(table, op.start, fs, op.readable, op.writable, |fs|), op, ts)
  {
    hide RunTable;
    var t := RunTable(table, op.start, fs, op.readable, op.writable, |fs|);
    forall i | 0 <= i < |ts| ensures ts[i].vaddr in t && t[ts[i].vaddr] == Pte(ts[i].frame, op.readable, op.writable) {
      RunTableAt(table, op.start, fs, op.readable, op.writable, |fs|, ts[i].vaddr);
    }
    forall v | forall i :: 0 <= i < |ts| ==> v != ts[i].vaddr
      ensures (v in t <==> v in table) && (v in t ==> t[v] == table[v])
    {
      RunTableAt(table, op.start, fs, op.readable, op.writable, |fs|, v);
    }
  }

  /** A populated mapping is a new last area with a tracker for each page, and its pages are mapped
      as asked; nothing else of the process, no other process and no memory changes. */
  lemma RunIs(op: KernelOp, s: Snapshot, s': Snapshot, added: seq<Event>)
    requires op.OpMapFrames? && LegalIn(s.procs, op) && Explains(op, Done, s, s', added)
    ensures var p, n := op.pid, |s.procs[op.pid].areas|;
            && s'.mem == s.mem && |s'.procs| == |s.procs| && s'.Runs(p)
            && (forall q :: 0 <= q < |s.procs| && q != p ==> s'.procs[q] == s.procs[q])
            && |s'.procs[p].areas| == n + 1 && s'.procs[p].areas[..n] == s.procs[p].areas
            && var a := s'.procs[p].areas[n];
               && a.mtype == op.mtype && a.hasFile == op.hasFile && a.start == op.start && a.len == op.count * 4096
               && |a.tracks| == op.count
               && (forall i :: 0 <= i < op.count ==>
                     a.tracks[i].vaddr == op.start + i * 4096 && a.tracks[i].frame in Union(s.sets))
               && RunMappedIn(s.procs[p].table, s'.procs[p].table, op, a.tracks)
  {
    hide Taken; hide RunEvents; hide RunTable; hide RunCounts; hide NoRunAtAll; hide Clear; hide Union;
    hide RunMappedIn;
    var fs :| && Taken(s.sets, s'.sets, fs, op.count) && |fs| == op.count
              && s' == WithRun(s, s'.sets, op, fs) && added == RunEvents(op, fs);
    TakenWasFree(s.sets, s'.sets, fs, op.count);
    RunTableIs(s.procs[op.pid].table, op, fs, NewRun(op.mtype, op.hasFile, op.start, fs).tracks);
  }

  lemma TakenWasFree(ss: seq<set<nat>>, ss': seq<set<nat>>, fs: seq<nat>, n: nat)
    requires Taken(ss, ss', fs, n)
    ensures forall i :: 0 <= i < |fs| ==> fs[i] in Union(ss)
  {
    var k: nat :| Chosen(ss, k, fs, n) && ss' == ss[k := ss[k] - SeqSet(fs)];
    forall i | 0 <= i < |fs| ensures fs[i] in Union(ss) {
      assert fs[i] in ss[k];
    }
  }

  lemma PageIndex(start: nat, count: nat, addr: nat) returns (i: nat)
    requires start % PAGE_SIZE == 0 && start <= addr < start + count * PAGE_SIZE
    ensures i < count && PageAlignDown(addr) == start + i * PAGE_SIZE
  {
    i := (addr - start) / PAGE_SIZE;
  }

  lemma ReadsZero(s: Snapshot, s': Snapshot, p: nat, addr: nat, bytes: seq<Byte>, r: OpResult, added: seq<Event>)
    requires s.Runs(p) && |bytes| <= PAGE_SIZE && s.Mapped(p, PageAlignDown(addr), false)
    requires var f := s.procs[p].table[PageAlignDown(addr)].frame; f in s.mem && s.mem[f] == ZeroPage()
    requires Explains(OpLoad(p, addr, bytes), r, s, s', added)
    ensures r == Got(0)
  {
  }

  /** A load from a new populated mapping that is readable yields 0, wherever in it. */
  method RunReads(k: CowKernel, p: nat, mtype: MemType, hasFile: bool, start: nat, count: nat, writable: bool,
                  addr: nat, bytes: seq<Byte>) returns (ok: bool, r: Option<Byte>)
    requires k.Valid() && k.Runs(p) && start % PAGE_SIZE == 0 && count > 0 && mtype != Stack && |bytes| <= PAGE_SIZE
    requires Clear(k.procs[p].areas, start, start + count * PAGE_SIZE) && start <= addr < start + count * PAGE_SIZE
    modifies k, k.frames.regions
    ensures k.Valid() && (ok ==> r == Some(0))
  {
    hide Inv; hide Linked; hide Replay; hide Abs; hide FrameAllocator.Valid; hide FrameAllocator.Free; hide Managed;
    hide FrameAllocator.Sets; hide Explains; hide Stuck; hide Union; hide Clear; hide PageAlignDown; hide RunArea;
    hide FrameAllocator.NoRun;
    k.FreeIsUnion();
    ghost var s0, m, log0 := k.Shot(), k.m, k.log;
    ok := k.MapFrames(p, mtype, hasFile, start, count, true, writable);
    r := None;
    if ok {
      ghost var s, log := k.Shot(), k.log;
      RunIs(OpMapFrames(p, mtype, hasFile, start, count, true, writable), s0, s, k.log[|log0|..]);
      ghost var i := PageIndex(start, count, addr);
      ZeroFree(m, s.procs[p].areas[|s0.procs[p].areas|].tracks[i].frame);
      r := k.Load(p, addr, bytes);
      ReadsZero(s, k.Shot(), p, addr, bytes, if r.Some? then Got(r.value) else Failed, k.log[|log|..]);
    }
  }

  lemma ZeroFree(m: Machine, f: nat)
    requires Inv(m) && f in m.free
    ensures f in m.mem && m.mem[f] == ZeroPage()
  {
  }

  // ---------- unmappings ----------

  /** After a cut that keeps the kernel sound nothing of the range is covered or mapped. */
  lemma CutGone(procs: seq<Proc>, m: Machine, p: nat, areas: seq<MemArea>, lo: nat, hi: nat, addr: nat)
    requires Inv(m) && Linked(procs, m) && p < |procs| && procs[p].Live? && lo <= addr < hi
    requires procs[p].areas == SubArea(areas, lo, hi)
    ensures !InArea(procs[p].areas, addr) && PageAlignDown(addr) !in procs[p].table
  {
    SubAreaCovers(areas, lo, hi, addr);
    if PageAlignDown(addr) in procs[p].table {
      EntryCovered(procs, m, p, PageAlignDown(addr));
      assert ProcLinked(procs[p], m, p);
      var i :| 0 <= i < |procs[p].areas| && procs[p].areas[i].Contains(PageAlignDown(addr));
      AlignedHolds(procs[p].areas[i], addr);
    }
  }

  lemma AlignedHolds(a: MemArea, addr: nat)
    requires AreaOk(a) && a.Contains(PageAlignDown(addr))
    ensures a.Contains(addr)
  {
  }

  lemma GoneStuck(s: Snapshot, p: nat, addr: nat)
    requires s.Runs(p) && !InArea(s.procs[p].areas, addr) && PageAlignDown(addr) !in s.procs[p].table
    ensures Stuck(s, p, addr, false) && Stuck(s, p, addr, true)
  {
  }

  lemma UnmapIs(s: Snapshot, s': Snapshot, p: nat, lo: nat, hi: nat, added: seq<Event>)
    requires s.Runs(p) && lo <= hi && Explains(OpUnmap(p, lo, hi), Done, s, s', added)
    ensures s'.Runs(p) && s'.procs[p].areas == SubArea(s.procs[p].areas, lo, hi) && |s'.procs| == |s.procs|
    ensures forall q :: 0 <= q < |s.procs| && q != p ==> s'.procs[q] == s.procs[q]
    ensures KeepsIn(s.procs, OpUnmap(p, lo, hi)) ==>
              && |added| == 1 && added[0].Unmapped? && added[0].pid == p
              && forall v :: v in added[0].pages ==> lo <= v < hi
  {
    hide SubArea; hide MemAreas.Unmapped; hide Flatten; hide FramesLost; hide CutKeeps; hide CutAligned;
  }

  lemma DropSpares(e: Eager, e': Eager, ev: Event, l: Key, lo: nat, hi: nat)
    requires ev.Unmapped? && (forall v :: v in ev.pages ==> lo <= v < hi) && !(lo <= l.page < hi)
    requires Apply(e, ev) == Some(e') && e.PageOf(l).Some?
    ensures e'.PageOf(l) == e.PageOf(l)
  {
    if l in e.shared {
      assert l in Without(e.shared, ev.pid, ev.pages);
      assert e.shared[l] in Without(e.shared, ev.pid, ev.pages).Values;
    }
  }

  /** After an unmapping that keeps the kernel sound a load from the range fails, and a byte loaded
      before from a page outside it is loaded again. */
  method UnmapThenLoad(k: CowKernel, p: nat, lo: nat, hi: nat, addr: nat, other: nat, bytes: seq<Byte>)
    returns (cut: bool, before: Option<Byte>, gone: Option<Byte>, after: Option<Byte>)
    requires k.Valid() && k.Runs(p) && |bytes| <= PAGE_SIZE && lo <= addr < hi
    requires !(lo <= PageAlignDown(other) < hi)
    modifies k, k.frames.regions
    ensures k.Valid() && (cut ==> gone == None && (before.Some? && after.Some? ==> after == before))
    ensures && CutAligned(old(k.procs)[p].areas, lo, hi)
            && (forall i :: 0 <= i < |old(k.procs)[p].areas| ==> !old(k.procs)[p].areas[i].SplitBy(lo, hi)) ==>
              cut
  {
    hide Inv; hide Linked; hide Replay; hide Abs; hide FrameAllocator.Valid; hide FrameAllocator.Free; hide Managed;
    hide FrameAllocator.Sets; hide Explains; hide Stuck; hide CutKeeps; hide CutAligned; hide PageAlignDown;
    hide SubArea; hide EagerByte;
    before := LoadByte(k, p, other, bytes);
    ghost var s, m, log := k.Shot(), k.m, k.log;
    gone, after := None, None;
    SameCut(old(k.procs)[p].areas, k.procs[p].areas, lo, hi);
    cut := CutKeeps(k.procs[p].areas, lo, hi) && CutAligned(k.procs[p].areas, lo, hi);
    if cut {
      k.Unmap(p, lo, hi);
      UnmapIs(s, k.Shot(), p, lo, hi, k.log[|log|..]);
      CutGone(k.procs, k.m, p, s.procs[p].areas, lo, hi, addr);
      GoneStuck(k.Shot(), p, addr);
      Continues(log, k.log, m, k.m);
      UnmapSpares(Abs(m), Abs(k.m), k.log[|log|..], Key(p, PageAlignDown(other)), lo, hi, other % PAGE_SIZE);
      gone := LoadByte(k, p, addr, bytes);
      after := LoadByte(k, p, other, bytes);
    }
  }

  lemma SameCut(areas: seq<MemArea>, areas': seq<MemArea>, lo: nat, hi: nat)
    requires |areas'| == |areas| && forall i :: 0 <= i < |areas| ==> areas'[i] == areas[i].(tracks := areas'[i].tracks)
    ensures CutAligned(areas, lo, hi) && (forall i :: 0 <= i < |areas| ==> !areas[i].SplitBy(lo, hi)) ==>
              CutAligned(areas', lo, hi) && CutKeeps(areas', lo, hi)
  {
  }

  lemma UnmapSpares(e: Eager, e': Eager, added: seq<Event>, l: Key, lo: nat, hi: nat, off: nat)
    requires |added| == 1 && added[0].Unmapped? && (forall v :: v in added[0].pages ==> lo <= v < hi)
    requires !(lo <= l.page < hi) && Replay(e, added) == Some(e') && off < PAGE_SIZE
    ensures EagerByte(e, l, off).Some? ==> EagerByte(e', l, off) == EagerByte(e, l, off) && e'.PageOf(l).Some?
  {
    assert added == [added[0]];
    ReplayOne(e, added[0]);
    if e.PageOf(l).Some? {
      DropSpares(e, e', added[0], l, lo, hi);
    }
  }
}
