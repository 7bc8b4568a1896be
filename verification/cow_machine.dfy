/** Shared frames, reference counts and page tables of all processes as one value, the
    invariant every kernel step keeps, and the eager machine it stands for. */
module CowMachines {
  import opened Common
  import opened EagerFork

  /** The tracker of a page: the frame that backs it, and whether its area is shared. */
  datatype Ref = Ref(frame: nat, shared: bool)

  datatype Pte = Pte(frame: nat, readable: bool, writable: bool)

  /** `refs` are the live trackers, `table` all page table entries, `counts` the reference
      counts of the frames, and `free` the frames the allocator has. */
  datatype Machine = Machine(alive: seq<bool>, refs: map<Key, Ref>, table: map<Key, Pte>,
                             mem: map<nat, Page>, counts: map<nat, nat>, free: set<nat>)

  ghost function Holders(refs: map<Key, Ref>, f: nat): set<Key> {
    set k | k in refs && refs[k].frame == f
  }

  ghost predicate Owned(alive: seq<bool>, refs: map<Key, Ref>) {
    forall k :: k in refs ==> k.pid < |alive| && alive[k.pid]
  }

  /** Trackers of one frame belong to the same page, in areas of the same kind. */
  ghost predicate Aligned(refs: map<Key, Ref>) {
    forall k, l :: k in refs && l in refs && refs[k].frame == refs[l].frame
      ==> k.page == l.page && refs[k].shared == refs[l].shared
  }

  /** The reference counts count the trackers. */
  ghost predicate Counted(refs: map<Key, Ref>, counts: map<nat, nat>) {
    && (forall k :: k in refs ==> refs[k].frame in counts)
    && forall f :: f in counts ==> counts[f] > 0 && counts[f] == |Holders(refs, f)|
  }

  /** Held frames are not free, and free frames are zero. */
  ghost predicate FramesSound(mem: map<nat, Page>, counts: map<nat, nat>, free: set<nat>) {
    && counts.Keys !! free
    && counts.Keys <= mem.Keys
    && free <= mem.Keys
    && forall f :: f in free ==> mem[f] == ZeroPage()
  }

  /** The entry maps the page to its frame, and maps a private page writable only if its
      tracker is the only one of the frame. */
  predicate PteSound(r: Ref, t: Pte, counts: map<nat, nat>) {
    && t.frame == r.frame
    && (!r.shared ==> t.readable)
    && (!r.shared && t.writable ==> r.frame in counts && counts[r.frame] == 1)
  }

  ghost predicate TableSound(refs: map<Key, Ref>, table: map<Key, Pte>, counts: map<nat, nat>) {
    table.Keys == refs.Keys && forall k :: k in refs ==> PteSound(refs[k], table[k], counts)
  }

  ghost predicate Inv(m: Machine) {
    && Owned(m.alive, m.refs)
    && Aligned(m.refs)
    && Counted(m.refs, m.counts)
    && FramesSound(m.mem, m.counts, m.free)
    && TableSound(m.refs, m.table, m.counts)
  }

  ghost function PrivateOf(refs: map<Key, Ref>, mem: map<nat, Page>): map<Key, Page> {
    map k | k in refs && !refs[k].shared && refs[k].frame in mem :: mem[refs[k].frame]
  }

  ghost function SharedOf(refs: map<Key, Ref>): map<Key, nat> {
    map k | k in refs && refs[k].shared :: refs[k].frame
  }

  ghost function ObjectsOf(refs: map<Key, Ref>, mem: map<nat, Page>): map<nat, Page> {
    map f | f in mem && f in SharedOf(refs).Values :: mem[f]
  }

  /** What the machine stands for: private pages are the contents of their frames, and the
      frames of shared pages are the shared objects. */
  ghost function Abs(m: Machine): Eager {
    Eager(m.alive, PrivateOf(m.refs, m.mem), SharedOf(m.refs), ObjectsOf(m.refs, m.mem))
  }

  /** No tracker holds the frame. */
  ghost predicate Unheld(refs: map<Key, Ref>, g: nat) {
    forall k :: k in refs ==> refs[k].frame != g
  }

  lemma PutPrivate(refs: map<Key, Ref>, mem: map<nat, Page>, k: Key, g: nat, content: Page)
    requires Unheld(refs, g) && (k in refs ==> !refs[k].shared)
    ensures PrivateOf(refs[k := Ref(g, false)], mem[g := content]) == PrivateOf(refs, mem)[k := content]
  {
  }

  lemma PutPrivateShared(refs: map<Key, Ref>, mem: map<nat, Page>, k: Key, g: nat, content: Page)
    requires Unheld(refs, g) && (k in refs ==> !refs[k].shared)
    ensures SharedOf(refs[k := Ref(g, false)]) == SharedOf(refs)
    ensures ObjectsOf(refs[k := Ref(g, false)], mem[g := content]) == ObjectsOf(refs, mem)
  {
    assert SharedOf(refs[k := Ref(g, false)]) == SharedOf(refs);
    assert g !in SharedOf(refs).Values;
  }

  lemma PutSharedPrivate(refs: map<Key, Ref>, mem: map<nat, Page>, k: Key, g: nat, content: Page)
    requires Unheld(refs, g) && k !in refs
    ensures PrivateOf(refs[k := Ref(g, true)], mem[g := content]) == PrivateOf(refs, mem)
    ensures SharedOf(refs[k := Ref(g, true)]) == SharedOf(refs)[k := g]
  {
  }

  lemma PutShared(refs: map<Key, Ref>, mem: map<nat, Page>, k: Key, g: nat, content: Page)
    requires Unheld(refs, g) && k !in refs
    ensures ObjectsOf(refs[k := Ref(g, true)], mem[g := content]) == ObjectsOf(refs, mem)[g := content]
    ensures g !in ObjectsOf(refs, mem)
  {
    PutSharedPrivate(refs, mem, k, g, content);
    assert g !in SharedOf(refs).Values;
    ValuesOfPut(SharedOf(refs), k, g);
  }

  lemma ValuesOfPut(m: map<Key, nat>, k: Key, g: nat)
    requires k !in m
    ensures m[k := g].Values == m.Values + {g}
  {
    var m' := m[k := g];
    assert m'[k] == g;
    forall x | x in m.Values ensures x in m'.Values {
      var l :| l in m && m[l] == x;
      assert m'[l] == x;
    }
  }

  /** A writable private page: its frame has no other tracker in the whole system. */
  lemma WritableIsSole(m: Machine, k: Key, l: Key)
    requires Inv(m) && k in m.refs && l in m.refs && m.refs[k].frame == m.refs[l].frame
    requires !m.refs[k].shared && m.table[k].writable
    ensures k == l
  {
    SoleHolder(m.refs, m.counts, k, l);
  }

  lemma SoleHolder(refs: map<Key, Ref>, counts: map<nat, nat>, k: Key, l: Key)
    requires Counted(refs, counts) && k in refs && l in refs && refs[k].frame == refs[l].frame
    requires counts[refs[k].frame] == 1
    ensures k == l
  {
    var hs := Holders(refs, refs[k].frame);
    assert k in hs && l in hs;
    assert |hs - {k}| == 0;
    assert l !in hs - {k};
  }

  // ---------- page faults ----------

  lemma PutAligned(refs: map<Key, Ref>, k: Key, g: nat, shared: bool)
    requires Aligned(refs) && Unheld(refs, g)
    ensures Aligned(refs[k := Ref(g, shared)])
  {
  }

  lemma PutFrame(mem: map<nat, Page>, counts: map<nat, nat>, free: set<nat>, g: nat, content: Page)
    requires FramesSound(mem, counts, free) && g in free
    ensures FramesSound(mem[g := content], counts[g := 1], free - {g})
  {
  }

  /** Mapping a page anew with the frame it has. */
  function Remap(m: Machine, k: Key, pte: Pte): Machine {
    m.(table := m.table[k := pte])
  }

  /** A frame with one reference is taken back for writing, and a shared page is remapped:
      neither changes what any process reads. */
  lemma RemapStep(m: Machine, k: Key, pte: Pte)
    requires Inv(m) && k in m.refs && PteSound(m.refs[k], pte, m.counts)
    ensures Inv(Remap(m, k, pte)) && Abs(Remap(m, k, pte)) == Abs(m)
  {
  }

  /** Replacing the frame of a page by a copy in frame `g`. */
  function CopyTo(m: Machine, k: Key, g: nat): Machine
    requires k in m.refs && m.refs[k].frame in m.counts && m.refs[k].frame in m.mem
    requires m.counts[m.refs[k].frame] > 1
  {
    var f := m.refs[k].frame;
    Machine(m.alive, m.refs[k := Ref(g, false)], m.table[k := Pte(g, true, true)],
            m.mem[g := m.mem[f]], m.counts[f := m.counts[f] - 1][g := 1], m.free - {g})
  }

  lemma CopyCounted(refs: map<Key, Ref>, counts: map<nat, nat>, k: Key, g: nat)
    requires Counted(refs, counts) && k in refs && counts[refs[k].frame] > 1 && g !in counts
    ensures Counted(refs[k := Ref(g, false)], counts[refs[k].frame := counts[refs[k].frame] - 1][g := 1])
  {
    var f := refs[k].frame;
    var refs' := refs[k := Ref(g, false)];
    assert Holders(refs', f) == Holders(refs, f) - {k};
    assert Holders(refs', g) == {k};
    assert forall h :: h != f && h != g ==> Holders(refs', h) == Holders(refs, h);
  }

  /** Copying a shared frame on a write changes what no process reads. */
  lemma CopyStep(m: Machine, k: Key, g: nat)
    requires Inv(m) && k in m.refs && !m.refs[k].shared && m.counts[m.refs[k].frame] > 1 && g in m.free
    ensures Inv(CopyTo(m, k, g)) && Abs(CopyTo(m, k, g)) == Abs(m)
  {
    CopyInv(m, k, g);
    CopyAbs(m, k, g);
  }

  lemma CopyAbs(m: Machine, k: Key, g: nat)
    requires Unheld(m.refs, g) && k in m.refs && !m.refs[k].shared
    requires m.refs[k].frame in m.counts && m.refs[k].frame in m.mem && m.counts[m.refs[k].frame] > 1
    ensures Abs(CopyTo(m, k, g)) == Abs(m)
  {
    var content := m.mem[m.refs[k].frame];
    PutPrivate(m.refs, m.mem, k, g, content);
    PutPrivateShared(m.refs, m.mem, k, g, content);
    assert PrivateOf(m.refs, m.mem)[k] == content;
    assert PrivateOf(m.refs, m.mem)[k := content] == PrivateOf(m.refs, m.mem);
  }

  lemma CopyInv(m: Machine, k: Key, g: nat)
    requires Inv(m) && k in m.refs && !m.refs[k].shared && m.counts[m.refs[k].frame] > 1 && g in m.free
    ensures Inv(CopyTo(m, k, g)) && Unheld(m.refs, g)
  {
    var f := m.refs[k].frame;
    assert Unheld(m.refs, g);
    CopyCounted(m.refs, m.counts, k, g);
    PutAligned(m.refs, k, g, false);
    assert FramesSound(m.mem, m.counts[f := m.counts[f] - 1], m.free);
    PutFrame(m.mem, m.counts[f := m.counts[f] - 1], m.free, g, m.mem[f]);
    CopyTable(m.refs, m.table, m.counts, k, g);
  }

  lemma CopyTable(refs: map<Key, Ref>, table: map<Key, Pte>, counts: map<nat, nat>, k: Key, g: nat)
    requires TableSound(refs, table, counts) && Counted(refs, counts) && k in refs && Unheld(refs, g)
    requires counts[refs[k].frame] > 1
    ensures var f := refs[k].frame;
            TableSound(refs[k := Ref(g, false)], table[k := Pte(g, true, true)], counts[f := counts[f] - 1][g := 1])
  {
    var f := refs[k].frame;
    var counts' := counts[f := counts[f] - 1][g := 1];
    forall l | l in refs && l != k ensures PteSound(refs[l], table[l], counts') {
      assert PteSound(refs[l], table[l], counts);
    }
  }

  /** Giving an untracked page the frame `g` with the given content. */
  function FillWith(m: Machine, k: Key, g: nat, shared: bool, content: Page, readable: bool, writable: bool): Machine {
    Machine(m.alive, m.refs[k := Ref(g, shared)], m.table[k := Pte(g, readable, writable)],
            m.mem[g := content], m.counts[g := 1], m.free - {g})
  }

  lemma FillCounted(refs: map<Key, Ref>, counts: map<nat, nat>, k: Key, g: nat, shared: bool)
    requires Counted(refs, counts) && k !in refs && g !in counts
    ensures Counted(refs[k := Ref(g, shared)], counts[g := 1])
  {
    var refs' := refs[k := Ref(g, shared)];
    assert Holders(refs', g) == {k};
    assert forall h :: h != g ==> Holders(refs', h) == Holders(refs, h);
  }

  lemma FillInv(m: Machine, k: Key, g: nat, shared: bool, content: Page, readable: bool, writable: bool)
    requires Inv(m) && k !in m.refs && k.pid < |m.alive| && m.alive[k.pid] && g in m.free && (shared || readable)
    ensures Inv(FillWith(m, k, g, shared, content, readable, writable)) && Unheld(m.refs, g)
  {
    assert Unheld(m.refs, g);
    FillCounted(m.refs, m.counts, k, g, shared);
    PutAligned(m.refs, k, g, shared);
    PutFrame(m.mem, m.counts, m.free, g, content);
    FillTable(m.refs, m.table, m.counts, k, Ref(g, shared), Pte(g, readable, writable));
  }

  lemma FillTable(refs: map<Key, Ref>, table: map<Key, Pte>, counts: map<nat, nat>, k: Key, r: Ref, pte: Pte)
    requires TableSound(refs, table, counts) && k !in refs && Unheld(refs, r.frame)
    requires pte.frame == r.frame && (r.shared || pte.readable)
    ensures TableSound(refs[k := r], table[k := pte], counts[r.frame := 1])
  {
    forall l | l in refs ensures PteSound(refs[l], table[l], counts[r.frame := 1]) {
      assert PteSound(refs[l], table[l], counts);
    }
  }

  /** The first touch of a page gives it a page of its own. */
  lemma FillStep(m: Machine, k: Key, g: nat, shared: bool, content: Page, readable: bool, writable: bool)
    requires Inv(m) && k !in m.refs && k.pid < |m.alive| && m.alive[k.pid] && g in m.free && (shared || readable)
    ensures var m' := FillWith(m, k, g, shared, content, readable, writable);
            && Inv(m')
            && Apply(Abs(m), Filled(k, content, if shared then Some(g) else None)) == Some(Abs(m'))
  {
    FillInv(m, k, g, shared, content, readable, writable);
    FillAbs(m, k, g, shared, content, readable, writable);
  }

  lemma NotThere(refs: map<Key, Ref>, mem: map<nat, Page>, k: Key)
    requires k !in refs
    ensures k !in PrivateOf(refs, mem) && k !in SharedOf(refs)
  {
  }

  lemma FillAbs(m: Machine, k: Key, g: nat, shared: bool, content: Page, readable: bool, writable: bool)
    requires Unheld(m.refs, g) && k !in m.refs && k.pid < |m.alive| && m.alive[k.pid]
    ensures var m' := FillWith(m, k, g, shared, content, readable, writable);
            Apply(Abs(m), Filled(k, content, if shared then Some(g) else None)) == Some(Abs(m'))
  {
    NotThere(m.refs, m.mem, k);
    hide PrivateOf; hide SharedOf; hide ObjectsOf; hide Unheld;
    if shared {
      PutSharedPrivate(m.refs, m.mem, k, g, content);
      PutShared(m.refs, m.mem, k, g, content);
    } else {
      PutPrivate(m.refs, m.mem, k, g, content);
      PutPrivateShared(m.refs, m.mem, k, g, content);
    }
  }

  // ---------- loads and stores ----------

  lemma LoadStep(m: Machine, k: Key, off: nat)
    requires Inv(m) && k in m.table && off < PAGE_SIZE
    ensures m.table[k].frame in m.mem
    ensures Apply(Abs(m), Loaded(k, off, m.mem[m.table[k].frame].bytes[off])) == Some(Abs(m))
  {
    assert PteSound(m.refs[k], m.table[k], m.counts);
    assert m.refs[k].frame in m.counts;
    AbsPage(m, k);
    hide Abs;
  }

  /** Filling a private page that has a tracker already, as first touch fills one that has none:
      a load then reads 0, which is what the eager machine has there only if it has a 0. */
  lemma RefillForgets(m: Machine, k: Key, g: nat, off: nat)
    requires Inv(m) && k in m.refs && !m.refs[k].shared && g in m.free && off < PAGE_SIZE
    ensures var m' := FillWith(m, k, g, false, ZeroPage(), true, true);
            m'.mem[m'.table[k].frame].bytes[off] == 0
    ensures m.table[k].frame in m.mem
    ensures Apply(Abs(m), Loaded(k, off, 0)).Some? <==> m.mem[m.table[k].frame].bytes[off] == 0
  {
    LoadStep(m, k, off);
    AbsPage(m, k);
    hide Abs;
  }

  function StoreTo(m: Machine, k: Key, off: nat, b: Byte): Machine
    requires k in m.table && m.table[k].frame in m.mem && off < PAGE_SIZE
  {
    var f := m.table[k].frame;
    m.(mem := m.mem[f := Page(m.mem[f].bytes[off := b])])
  }

  /** A store through a writable entry reaches the storing process, and every process that
      shares the page, and nobody else. */
  lemma StoreStep(m: Machine, k: Key, off: nat, b: Byte)
    requires Inv(m) && k in m.table && m.table[k].writable && off < PAGE_SIZE
    ensures m.table[k].frame in m.mem
    ensures Inv(StoreTo(m, k, off, b))
    ensures Apply(Abs(m), Stored(k, off, b)) == Some(Abs(StoreTo(m, k, off, b)))
  {
    hide Inv;
    StoreReady(m, k);
    StoreInv(m, k, off, b);
    StoreAbs(m, k, off, b);
  }

  lemma StoreAbs(m: Machine, k: Key, off: nat, b: Byte)
    requires k in m.refs && k in m.table && m.table[k].frame == m.refs[k].frame && m.refs[k].frame in m.mem
    requires k.pid < |m.alive| && m.alive[k.pid] && Aligned(m.refs) && off < PAGE_SIZE
    requires !m.refs[k].shared ==> forall l :: l in m.refs && m.refs[l].frame == m.refs[k].frame ==> l == k
    ensures Apply(Abs(m), Stored(k, off, b)) == Some(Abs(StoreTo(m, k, off, b)))
  {
    hide Aligned; hide ObjectsOf; hide PrivateOf; hide SharedOf;
    var f := m.refs[k].frame;
    var page := Page(m.mem[f].bytes[off := b]);
    AbsPage(m, k);
    if m.refs[k].shared {
      StoreShared(m.refs, m.mem, k, page);
    } else {
      StorePrivate(m.refs, m.mem, k, page);
    }
  }

  /** The eager machine's view of a tracked page. */
  lemma AbsPage(m: Machine, k: Key)
    requires k in m.refs && m.refs[k].frame in m.mem && k.pid < |m.alive| && m.alive[k.pid]
    ensures Abs(m).PageOf(k) == Some(m.mem[m.refs[k].frame])
    ensures if m.refs[k].shared then k !in Abs(m).private && k in Abs(m).shared && Abs(m).shared[k] == m.refs[k].frame
            else k in Abs(m).private
  {
    assert m.refs[k].shared ==> SharedOf(m.refs)[k] == m.refs[k].frame;
  }

  lemma StoreReady(m: Machine, k: Key)
    requires Inv(m) && k in m.table && m.table[k].writable
    ensures k in m.refs && m.table[k].frame == m.refs[k].frame && m.refs[k].frame in m.mem
    ensures k.pid < |m.alive| && m.alive[k.pid] && Aligned(m.refs)
    ensures !m.refs[k].shared ==> forall l :: l in m.refs && m.refs[l].frame == m.refs[k].frame ==> l == k
  {
    assert PteSound(m.refs[k], m.table[k], m.counts);
    assert m.refs[k].frame in m.counts;
    forall l | l in m.refs && m.refs[l].frame == m.refs[k].frame && !m.refs[k].shared ensures l == k {
      WritableIsSole(m, k, l);
    }
  }

  lemma StoreInv(m: Machine, k: Key, off: nat, b: Byte)
    requires Inv(m) && k in m.table && m.table[k].frame in m.mem && off < PAGE_SIZE
    ensures Inv(StoreTo(m, k, off, b))
  {
    var f := m.table[k].frame;
    assert PteSound(m.refs[k], m.table[k], m.counts);
    assert m.refs[k].frame in m.counts;
    assert FramesSound(m.mem[f := Page(m.mem[f].bytes[off := b])], m.counts, m.free);
  }

  lemma StorePrivate(refs: map<Key, Ref>, mem: map<nat, Page>, k: Key, page: Page)
    requires k in refs && !refs[k].shared
    requires forall l :: l in refs && refs[l].frame == refs[k].frame ==> l == k
    ensures PrivateOf(refs, mem[refs[k].frame := page]) == PrivateOf(refs, mem)[k := page]
    ensures ObjectsOf(refs, mem[refs[k].frame := page]) == ObjectsOf(refs, mem)
  {
    assert refs[k].frame !in SharedOf(refs).Values;
  }

  lemma StoreShared(refs: map<Key, Ref>, mem: map<nat, Page>, k: Key, page: Page)
    requires k in refs && refs[k].shared && Aligned(refs) && refs[k].frame in mem
    ensures PrivateOf(refs, mem[refs[k].frame := page]) == PrivateOf(refs, mem)
    ensures ObjectsOf(refs, mem[refs[k].frame := page]) == ObjectsOf(refs, mem)[refs[k].frame := page]
  {
    assert SharedOf(refs)[k] == refs[k].frame;
    forall l | l in refs && !refs[l].shared ensures refs[l].frame != refs[k].frame {
    }
  }

  // ---------- fork ----------

  /** The entry a fork gives both sides: read-only for a private page. */
  function ForkPte(r: Ref): Pte {
    Pte(r.frame, true, r.shared)
  }

  /** The frames of process `p`. */
  ghost function FramesOfProc(refs: map<Key, Ref>, p: nat): set<nat> {
    set k | k in refs && k.pid == p :: refs[k].frame
  }

  /** One more reference to each of the given frames. */
  ghost function Bump(counts: map<nat, nat>, frames: set<nat>): map<nat, nat> {
    map f | f in counts :: if f in frames then counts[f] + 1 else counts[f]
  }

  /** The pages of parent and child get new entries; the others keep theirs. */
  ghost function ForkTable(table: map<Key, Pte>, refs: map<Key, Ref>, p: nat, n: nat): map<Key, Pte> {
    map k | k in refs :: if k.pid == p || k.pid == n || k !in table then ForkPte(refs[k]) else table[k]
  }

  ghost function Fork(m: Machine, p: nat): Machine {
    var refs := Duplicate(m.refs, p, |m.alive|);
    Machine(m.alive + [true], refs,
            ForkTable(m.table, refs, p, |m.alive|),
            m.mem, Bump(m.counts, FramesOfProc(m.refs, p)), m.free)
  }

  /** A fork duplicates exactly the parent's trackers. */
  lemma DuplicateIff<V>(m: map<Key, V>, p: nat, n: nat, k: Key)
    requires p != n && forall l :: l in m ==> l.pid != n
    ensures var m' := Duplicate(m, p, n);
            && (k in m' <==> k in m || (k.pid == n && Key(p, k.page) in m))
            && (k in m ==> m'[k] == m[k])
            && (k.pid == n && Key(p, k.page) in m ==> m'[k] == m[Key(p, k.page)])
  {
    if k.pid == n && Key(p, k.page) in m {
      assert k in Inherited(m, p, n);
    }
  }

  lemma ForkCounted(refs: map<Key, Ref>, counts: map<nat, nat>, p: nat, n: nat)
    requires Counted(refs, counts) && Aligned(refs) && p != n && forall l :: l in refs ==> l.pid != n
    ensures Counted(Duplicate(refs, p, n), Bump(counts, FramesOfProc(refs, p)))
  {
    var refs', counts' := Duplicate(refs, p, n), Bump(counts, FramesOfProc(refs, p));
    forall k | k in refs' ensures refs'[k].frame in counts' {
      DuplicateIff(refs, p, n, k);
    }
    forall f | f in counts' ensures counts'[f] > 0 && counts'[f] == |Holders(refs', f)| {
      ForkHolders(refs, p, n, f);
    }
  }

  lemma ForkHolders(refs: map<Key, Ref>, p: nat, n: nat, f: nat)
    requires Aligned(refs) && p != n && forall l :: l in refs ==> l.pid != n
    ensures |Holders(Duplicate(refs, p, n), f)|
         == |Holders(refs, f)| + if f in FramesOfProc(refs, p) then 1 else 0
  {
    var refs' := Duplicate(refs, p, n);
    var hs, hs' := Holders(refs, f), Holders(refs', f);
    forall k ensures k in hs' <==> k in hs || (k.pid == n && Key(p, k.page) in hs) {
      DuplicateIff(refs, p, n, k);
    }
    if f in FramesOfProc(refs, p) {
      var k :| k in refs && k.pid == p && refs[k].frame == f;
      assert k == Key(p, k.page) && k in hs;
      forall l ensures l in hs' <==> l in hs + {Key(n, k.page)} {
        assert l.pid == n && Key(p, l.page) in hs ==> l.page == k.page;
      }
      assert hs' == hs + {Key(n, k.page)};
      assert Key(n, k.page) !in hs;
    } else {
      assert hs' == hs;
    }
  }

  lemma ForkAligned(refs: map<Key, Ref>, p: nat, n: nat)
    requires Aligned(refs) && p != n && forall l :: l in refs ==> l.pid != n
    ensures Aligned(Duplicate(refs, p, n))
  {
    var refs' := Duplicate(refs, p, n);
    forall k, l | k in refs' && l in refs' && refs'[k].frame == refs'[l].frame
      ensures k.page == l.page && refs'[k].shared == refs'[l].shared
    {
      DuplicateIff(refs, p, n, k);
      DuplicateIff(refs, p, n, l);
      hide Duplicate;
      var k', l' := if k in refs then k else Key(p, k.page), if l in refs then l else Key(p, l.page);
      assert refs[k'].frame == refs[l'].frame;
    }
  }

  lemma ForkTableSound(refs: map<Key, Ref>, table: map<Key, Pte>, counts: map<nat, nat>, p: nat, n: nat)
    requires TableSound(refs, table, counts) && Counted(refs, counts) && p != n && forall l :: l in refs ==> l.pid != n
    ensures var refs' := Duplicate(refs, p, n);
            TableSound(refs', ForkTable(table, refs', p, n), Bump(counts, FramesOfProc(refs, p)))
  {
    var refs', counts' := Duplicate(refs, p, n), Bump(counts, FramesOfProc(refs, p));
    var table' := ForkTable(table, refs', p, n);
    forall k | k in refs' ensures PteSound(refs'[k], table'[k], counts') {
      DuplicateIff(refs, p, n, k);
      if k.pid != p && k.pid != n {
        assert PteSound(refs[k], table[k], counts);
        if !refs[k].shared && table[k].writable {
          SoleIsNotOthers(refs, counts, k, p);
        }
      }
    }
  }

  lemma SoleIsNotOthers(refs: map<Key, Ref>, counts: map<nat, nat>, k: Key, p: nat)
    requires Counted(refs, counts) && k in refs && k.pid != p && counts[refs[k].frame] == 1
    ensures refs[k].frame !in FramesOfProc(refs, p)
  {
    if refs[k].frame in FramesOfProc(refs, p) {
      var l :| l in refs && l.pid == p && refs[l].frame == refs[k].frame;
      SoleHolder(refs, counts, k, l);
    }
  }

  lemma ForkPrivate(refs: map<Key, Ref>, mem: map<nat, Page>, p: nat, n: nat)
    requires p != n && forall l :: l in refs ==> l.pid != n
    ensures PrivateOf(Duplicate(refs, p, n), mem) == Duplicate(PrivateOf(refs, mem), p, n)
  {
    forall k
      ensures k in PrivateOf(Duplicate(refs, p, n), mem) <==> k in Duplicate(PrivateOf(refs, mem), p, n)
      ensures k in PrivateOf(Duplicate(refs, p, n), mem) ==>
                PrivateOf(Duplicate(refs, p, n), mem)[k] == Duplicate(PrivateOf(refs, mem), p, n)[k]
    {
      DuplicateIff(refs, p, n, k);
      DuplicateIff(PrivateOf(refs, mem), p, n, k);
      hide Duplicate;
    }
    hide PrivateOf; hide Duplicate;
  }

  lemma ForkShared(refs: map<Key, Ref>, p: nat, n: nat)
    requires p != n && forall l :: l in refs ==> l.pid != n
    ensures SharedOf(Duplicate(refs, p, n)) == Duplicate(SharedOf(refs), p, n)
  {
    forall k
      ensures k in SharedOf(Duplicate(refs, p, n)) <==> k in Duplicate(SharedOf(refs), p, n)
      ensures k in SharedOf(Duplicate(refs, p, n)) ==>
                SharedOf(Duplicate(refs, p, n))[k] == Duplicate(SharedOf(refs), p, n)[k]
    {
      DuplicateIff(refs, p, n, k);
      DuplicateIff(SharedOf(refs), p, n, k);
      hide Duplicate;
    }
    hide SharedOf; hide Duplicate;
  }

  lemma ForkAbs(refs: map<Key, Ref>, mem: map<nat, Page>, p: nat, n: nat)
    requires p != n && forall l :: l in refs ==> l.pid != n
    ensures PrivateOf(Duplicate(refs, p, n), mem) == Duplicate(PrivateOf(refs, mem), p, n)
    ensures SharedOf(Duplicate(refs, p, n)) == Duplicate(SharedOf(refs), p, n)
  {
    ForkPrivate(refs, mem, p, n);
    ForkShared(refs, p, n);
  }

  lemma ForkObjects(refs: map<Key, Ref>, mem: map<nat, Page>, p: nat, n: nat)
    requires p != n && forall l :: l in refs ==> l.pid != n
    ensures ObjectsOf(Duplicate(refs, p, n), mem) == ObjectsOf(refs, mem)
  {
    ForkAbs(refs, mem, p, n);
    var s := SharedOf(refs);
    var s' := Duplicate(s, p, n);
    assert s'.Values == s.Values by {
      forall x | x in s.Values ensures x in s'.Values {
        var k :| k in s && s[k] == x;
        DuplicateIff(s, p, n, k);
        assert s'[k] == x;
      }
      forall x | x in s'.Values ensures x in s.Values {
        var k :| k in s' && s'[k] == x;
        DuplicateIff(s, p, n, k);
        assert k in s ==> s[k] == x;
        assert k !in s ==> s[Key(p, k.page)] == x;
      }
    }
  }

  lemma ForkInv(m: Machine, p: nat)
    requires Inv(m) && p < |m.alive| && m.alive[p]
    ensures Inv(Fork(m, p))
  {
    var n := |m.alive|;
    ForkCounted(m.refs, m.counts, p, n);
    ForkAligned(m.refs, p, n);
    ForkTableSound(m.refs, m.table, m.counts, p, n);
    ForkOwned(m.alive, m.refs, p);
    ForkFrames(m.mem, m.counts, m.free, FramesOfProc(m.refs, p));
  }

  lemma ForkOwned(alive: seq<bool>, refs: map<Key, Ref>, p: nat)
    requires Owned(alive, refs) && p < |alive|
    ensures Owned(alive + [true], Duplicate(refs, p, |alive|))
  {
    forall k | k in Duplicate(refs, p, |alive|) ensures k.pid < |alive| + 1 && (alive + [true])[k.pid] {
      DuplicateIff(refs, p, |alive|, k);
    }
  }

  lemma ForkFrames(mem: map<nat, Page>, counts: map<nat, nat>, free: set<nat>, frames: set<nat>)
    requires FramesSound(mem, counts, free)
    ensures FramesSound(mem, Bump(counts, frames), free)
  {
    assert Bump(counts, frames).Keys == counts.Keys;
  }

  /** Fork by sharing frames read-only is fork by copying. */
  lemma ForkStep(m: Machine, p: nat)
    requires Inv(m) && p < |m.alive| && m.alive[p]
    ensures Inv(Fork(m, p)) && Apply(Abs(m), Forked(p)) == Some(Abs(Fork(m, p)))
  {
    ForkInv(m, p);
    ForkAbs(m.refs, m.mem, p, |m.alive|);
    ForkObjects(m.refs, m.mem, p, |m.alive|);
  }

  // ---------- dropping trackers ----------

  ghost function GivenFrames(refs: map<Key, Ref>, p: nat, pages: set<nat>): set<nat> {
    set k | k in refs && Given(k, p, pages) :: refs[k].frame
  }

  /** One reference less to each of the given frames. */
  ghost function Release(counts: map<nat, nat>, frames: set<nat>): map<nat, nat> {
    map f | f in counts && !(f in frames && counts[f] <= 1) :: if f in frames then counts[f] - 1 else counts[f]
  }

  /** The frames whose last reference goes. */
  ghost function Freed(counts: map<nat, nat>, frames: set<nat>): set<nat> {
    set f | f in frames && f in counts && counts[f] <= 1
  }

  /** Dropping the last tracker of a frame clears the frame. */
  ghost function Cleared(mem: map<nat, Page>, frames: set<nat>): map<nat, Page> {
    map f | f in mem :: if f in frames then ZeroPage() else mem[f]
  }

  ghost function DropPages(m: Machine, p: nat, pages: set<nat>): Machine {
    var frames := GivenFrames(m.refs, p, pages);
    Machine(m.alive, Without(m.refs, p, pages), Without(m.table, p, pages),
            Cleared(m.mem, Freed(m.counts, frames)), Release(m.counts, frames),
            m.free + Freed(m.counts, frames))
  }

  lemma DropHolders(refs: map<Key, Ref>, p: nat, pages: set<nat>, f: nat)
    requires Aligned(refs)
    ensures |Holders(Without(refs, p, pages), f)|
         == |Holders(refs, f)| - if f in GivenFrames(refs, p, pages) then 1 else 0
  {
    var hs, hs' := Holders(refs, f), Holders(Without(refs, p, pages), f);
    if f in GivenFrames(refs, p, pages) {
      var k :| k in refs && Given(k, p, pages) && refs[k].frame == f;
      forall l ensures l in hs' <==> l in hs - {k} {
        assert l in hs && l.pid == p ==> l == k;
      }
      assert hs' == hs - {k} && k in hs;
    } else {
      assert hs' == hs;
    }
  }

  lemma DropCounted(refs: map<Key, Ref>, counts: map<nat, nat>, p: nat, pages: set<nat>)
    requires Counted(refs, counts) && Aligned(refs)
    ensures Counted(Without(refs, p, pages), Release(counts, GivenFrames(refs, p, pages)))
  {
    var frames := GivenFrames(refs, p, pages);
    var refs', counts' := Without(refs, p, pages), Release(counts, frames);
    forall k | k in refs' ensures refs'[k].frame in counts' {
      var f := refs[k].frame;
      DropHolders(refs, p, pages, f);
      assert k in Holders(refs', f);
    }
    forall f | f in counts' ensures counts'[f] > 0 && counts'[f] == |Holders(refs', f)| {
      DropHolders(refs, p, pages, f);
    }
  }

  lemma DropFrames(mem: map<nat, Page>, counts: map<nat, nat>, free: set<nat>, frames: set<nat>)
    requires FramesSound(mem, counts, free)
    ensures FramesSound(Cleared(mem, Freed(counts, frames)), Release(counts, frames), free + Freed(counts, frames))
  {
    assert Cleared(mem, Freed(counts, frames)).Keys == mem.Keys;
  }

  lemma DropTable(refs: map<Key, Ref>, table: map<Key, Pte>, counts: map<nat, nat>, p: nat, pages: set<nat>)
    requires TableSound(refs, table, counts) && Counted(refs, counts) && Aligned(refs)
    ensures TableSound(Without(refs, p, pages), Without(table, p, pages), Release(counts, GivenFrames(refs, p, pages)))
  {
    var counts' := Release(counts, GivenFrames(refs, p, pages));
    DropCounted(refs, counts, p, pages);
    forall k | k in refs && !Given(k, p, pages) ensures PteSound(refs[k], table[k], counts') {
      assert PteSound(refs[k], table[k], counts);
      assert k in Without(refs, p, pages);
      assert refs[k].frame in counts';
    }
    assert Without(table, p, pages).Keys == Without(refs, p, pages).Keys;
  }

  lemma DropInv(m: Machine, p: nat, pages: set<nat>)
    requires Inv(m)
    ensures Inv(DropPages(m, p, pages))
  {
    DropCounted(m.refs, m.counts, p, pages);
    DropFrames(m.mem, m.counts, m.free, GivenFrames(m.refs, p, pages));
    DropTable(m.refs, m.table, m.counts, p, pages);
  }

  lemma DropAbs(m: Machine, p: nat, pages: set<nat>)
    requires Counted(m.refs, m.counts) && Aligned(m.refs)
    ensures Abs(DropPages(m, p, pages)) == Drop(Abs(m), p, pages)
  {
    KeptNotFreed(m.refs, m.counts, p, pages);
    DropPrivate(m.refs, m.mem, p, pages, Freed(m.counts, GivenFrames(m.refs, p, pages)));
    DropObjects(m, p, pages);
  }

  lemma KeptNotFreed(refs: map<Key, Ref>, counts: map<nat, nat>, p: nat, pages: set<nat>)
    requires Counted(refs, counts) && Aligned(refs)
    ensures forall k :: k in Without(refs, p, pages) ==>
              refs[k].frame !in Freed(counts, GivenFrames(refs, p, pages))
  {
    DropCounted(refs, counts, p, pages);
  }

  lemma DropPrivate(refs: map<Key, Ref>, mem: map<nat, Page>, p: nat, pages: set<nat>, freed: set<nat>)
    requires forall k :: k in Without(refs, p, pages) ==> refs[k].frame !in freed
    ensures PrivateOf(Without(refs, p, pages), Cleared(mem, freed)) == Without(PrivateOf(refs, mem), p, pages)
    ensures SharedOf(Without(refs, p, pages)) == Without(SharedOf(refs), p, pages)
  {
    var refs' := Without(refs, p, pages);
    forall k | k in refs' ensures refs'[k].frame in Cleared(mem, freed) <==> refs[k].frame in mem {
    }
  }

  lemma DropObjects(m: Machine, p: nat, pages: set<nat>)
    requires forall k :: k in Without(m.refs, p, pages) ==>
               m.refs[k].frame !in Freed(m.counts, GivenFrames(m.refs, p, pages))
    requires SharedOf(Without(m.refs, p, pages)) == Without(SharedOf(m.refs), p, pages)
    ensures ObjectsOf(DropPages(m, p, pages).refs, DropPages(m, p, pages).mem) == Drop(Abs(m), p, pages).objects
  {
    var s, s' := SharedOf(m.refs), SharedOf(Without(m.refs, p, pages));
    forall f | f in s'.Values ensures f in s.Values && f !in Freed(m.counts, GivenFrames(m.refs, p, pages)) {
      var k :| k in s' && s'[k] == f;
      assert k in s && s[k] == f;
    }
  }

  /** Giving up trackers frees exactly the frames nobody else holds, and takes the pages
      away from nobody else. */
  lemma DropStep(m: Machine, p: nat, pages: set<nat>)
    requires Inv(m) && p < |m.alive| && m.alive[p]
    ensures Inv(DropPages(m, p, pages))
    ensures Apply(Abs(m), Unmapped(p, pages)) == Some(Abs(DropPages(m, p, pages)))
  {
    DropInv(m, p, pages);
    DropAbs(m, p, pages);
  }

  ghost function Exit(m: Machine, p: nat): Machine
    requires p < |m.alive|
  {
    DropPages(m, p, PagesOf(Abs(m), p)).(alive := m.alive[p := false])
  }

  lemma ExitStep(m: Machine, p: nat)
    requires Inv(m) && p < |m.alive| && m.alive[p]
    ensures Inv(Exit(m, p)) && Apply(Abs(m), Exited(p)) == Some(Abs(Exit(m, p)))
  {
    var pages := PagesOf(Abs(m), p);
    ExitPages(m, p);
    DropInv(m, p, pages);
    DropAbs(m, p, pages);
    assert Owned(m.alive[p := false], Without(m.refs, p, pages));
  }

  lemma ExitPages(m: Machine, p: nat)
    requires Counted(m.refs, m.counts) && FramesSound(m.mem, m.counts, m.free)
    ensures forall k :: k in m.refs && k.pid == p ==> k.page in PagesOf(Abs(m), p)
  {
    forall k | k in m.refs && k.pid == p ensures k.page in PagesOf(Abs(m), p) {
      assert m.refs[k].frame in m.counts;
      assert k in Abs(m).private.Keys + Abs(m).shared.Keys;
    }
  }
}
