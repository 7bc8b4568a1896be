/** How the area lists of a process stand for its trackers. */
module CowAreas {
  import opened Common
  import opened MemAreas
  import opened EagerFork
  import opened CowMachines

  /** A page-aligned area whose trackers back distinct pages of it; a shared area is
      populated when it is made, so each of its pages has a tracker. */
  ghost predicate AreaOk(a: MemArea) {
    && a.start % PAGE_SIZE == 0 && a.len % PAGE_SIZE == 0
    && TracksInside(a) && UniqueTracks(a.tracks)
    && (forall t :: t in a.tracks ==> t.vaddr % PAGE_SIZE == 0)
    && (a.IsShared() ==> forall v: nat :: a.Contains(v) && v % PAGE_SIZE == 0 ==> HasTrack(a, v))
  }

  ghost predicate HasTrack(a: MemArea, v: nat) {
    exists t :: t in a.tracks && t.vaddr == v
  }

  ghost predicate AreasOk(areas: seq<MemArea>) {
    Disjoint(areas) && forall i :: 0 <= i < |areas| ==> AreaOk(areas[i])
  }

  /** The trackers of the areas are the trackers of process `p`. */
  ghost predicate Describes(areas: seq<MemArea>, refs: map<Key, Ref>, p: nat) {
    && (forall i, t :: 0 <= i < |areas| && t in areas[i].tracks ==> IsRef(refs, p, t, areas[i].IsShared()))
    && forall k :: k in refs && k.pid == p ==> Listed(areas, k.page)
  }

  predicate IsRef(refs: map<Key, Ref>, p: nat, t: MapTrack, shared: bool) {
    Key(p, t.vaddr) in refs && refs[Key(p, t.vaddr)] == Ref(t.frame, shared)
  }

  ghost predicate Listed(areas: seq<MemArea>, v: nat) {
    exists i :: 0 <= i < |areas| && HasTrack(areas[i], v)
  }

  ghost predicate TableMatches(table: map<nat, Pte>, all: map<Key, Pte>, p: nat) {
    forall v: nat :: (v in table <==> Key(p, v) in all) && (v in table ==> table[v] == all[Key(p, v)])
  }

  /** The two maps agree on every process but `p`. */
  ghost predicate AgreeElsewhere<V>(a: map<Key, V>, b: map<Key, V>, p: nat) {
    forall k: Key :: k.pid != p ==> (k in a <==> k in b) && (k in a ==> a[k] == b[k])
  }

  lemma DescribesElsewhere(areas: seq<MemArea>, refs: map<Key, Ref>, refs': map<Key, Ref>, p: nat, q: nat)
    requires Describes(areas, refs, q) && AgreeElsewhere(refs, refs', p) && p != q
    ensures Describes(areas, refs', q)
  {
    forall i, t | 0 <= i < |areas| && t in areas[i].tracks ensures IsRef(refs', q, t, areas[i].IsShared()) {
      assert IsRef(refs, q, t, areas[i].IsShared());
    }
  }

  /** A page of an area that has no tracker there has none anywhere. */
  lemma Untracked(areas: seq<MemArea>, refs: map<Key, Ref>, p: nat, i: nat, v: nat)
    requires AreasOk(areas) && Describes(areas, refs, p) && i < |areas|
    requires areas[i].Contains(v) && !HasTrack(areas[i], v)
    ensures Key(p, v) !in refs
  {
    forall j | 0 <= j < |areas| && HasTrack(areas[j], v) ensures i == j {
      TrackerArea(areas, i, j, v);
    }
  }

  lemma TrackerArea(areas: seq<MemArea>, i: nat, j: nat, v: nat)
    requires AreasOk(areas) && i < |areas| && j < |areas| && areas[i].Contains(v) && HasTrack(areas[j], v)
    ensures i == j
  {
    assert areas[j].Contains(v);
  }

  // ---------- replacing and adding a tracker ----------

  function WithTracks(areas: seq<MemArea>, i: nat, ts: seq<MapTrack>): seq<MemArea>
    requires i < |areas|
  {
    areas[i := areas[i].(tracks := ts)]
  }

  lemma ReplaceOk(a: MemArea, j: nat, g: nat)
    requires AreaOk(a) && j < |a.tracks|
    ensures AreaOk(a.(tracks := a.tracks[j := MapTrack(a.tracks[j].vaddr, g)]))
  {
    var ts := a.tracks[j := MapTrack(a.tracks[j].vaddr, g)];
    var a' := a.(tracks := ts);
    forall i | 0 <= i < |ts| ensures ts[i].vaddr == a.tracks[i].vaddr && a.tracks[i] in a.tracks {
    }
    forall v: nat | HasTrack(a, v) ensures HasTrack(a', v) {
      var i :| 0 <= i < |a.tracks| && a.tracks[i].vaddr == v;
      assert ts[i] in ts && ts[i].vaddr == v;
    }
    forall v: nat | a'.IsShared() && a'.Contains(v) && v % PAGE_SIZE == 0 ensures HasTrack(a', v) {
      assert a.Contains(v);
    }
  }

  lemma AddOk(a: MemArea, v: nat, g: nat)
    requires AreaOk(a) && a.Contains(v) && v % PAGE_SIZE == 0 && !HasTrack(a, v)
    ensures AreaOk(a.(tracks := a.tracks + [MapTrack(v, g)]))
  {
    var t := MapTrack(v, g);
    forall i | 0 <= i < |a.tracks| ensures a.tracks[i].vaddr != v {
      assert a.tracks[i] in a.tracks;
    }
  }

  lemma WithTracksOk(areas: seq<MemArea>, i: nat, ts: seq<MapTrack>)
    requires AreasOk(areas) && i < |areas| && AreaOk(areas[i].(tracks := ts))
    ensures AreasOk(WithTracks(areas, i, ts))
  {
    var areas' := WithTracks(areas, i, ts);
    forall j, k | 0 <= j < k < |areas'| ensures Apart(areas'[j], areas'[k]) {
      assert Apart(areas[j], areas[k]);
    }
  }

  /** The page's tracker after the change is `t`; all other trackers stay. */
  ghost predicate OnlyTrack(before: seq<MapTrack>, after: seq<MapTrack>, t: MapTrack) {
    && t in after
    && (forall s :: s in after && s != t ==> s in before && s.vaddr != t.vaddr)
    && forall s :: s in before && s.vaddr != t.vaddr ==> s in after
  }

  lemma SetTrackDescribes(areas: seq<MemArea>, refs: map<Key, Ref>, p: nat, i: nat, ts: seq<MapTrack>, t: MapTrack)
    requires AreasOk(areas) && Describes(areas, refs, p) && i < |areas| && areas[i].Contains(t.vaddr)
    requires OnlyTrack(areas[i].tracks, ts, t)
    ensures Describes(WithTracks(areas, i, ts), refs[Key(p, t.vaddr) := Ref(t.frame, areas[i].IsShared())], p)
  {
    var areas' := WithTracks(areas, i, ts);
    var refs' := refs[Key(p, t.vaddr) := Ref(t.frame, areas[i].IsShared())];
    forall j, s | 0 <= j < |areas'| && s in areas'[j].tracks ensures IsRef(refs', p, s, areas'[j].IsShared()) {
      if s != t || j != i {
        assert s in areas[j].tracks;
        assert IsRef(refs, p, s, areas[j].IsShared());
        if j != i {
          assert areas[j].Contains(s.vaddr);
          assert if i < j then Apart(areas[i], areas[j]) else Apart(areas[j], areas[i]);
        }
        assert s.vaddr != t.vaddr;
      }
    }
    forall k | k in refs' && k.pid == p ensures Listed(areas', k.page) {
      if k.page == t.vaddr {
        assert HasTrack(areas'[i], t.vaddr);
      } else {
        assert Listed(areas, k.page);
        var j :| 0 <= j < |areas| && HasTrack(areas[j], k.page);
        var s :| s in areas[j].tracks && s.vaddr == k.page;
        assert s in areas'[j].tracks;
        assert HasTrack(areas'[j], k.page);
      }
    }
  }

  lemma ReplaceIsOnly(ts: seq<MapTrack>, j: nat, g: nat)
    requires UniqueTracks(ts) && j < |ts|
    ensures OnlyTrack(ts, ts[j := MapTrack(ts[j].vaddr, g)], MapTrack(ts[j].vaddr, g))
  {
    var t := MapTrack(ts[j].vaddr, g);
    var ts' := ts[j := t];
    assert ts'[j] == t;
    forall s | s in ts && s.vaddr != t.vaddr ensures s in ts' {
      var i :| 0 <= i < |ts| && ts[i] == s;
      assert ts'[i] == s;
    }
    forall s | s in ts' && s != t ensures s in ts && s.vaddr != t.vaddr {
      var i :| 0 <= i < |ts'| && ts'[i] == s;
      assert ts[i] == s && i != j;
    }
  }

  lemma AddIsOnly(ts: seq<MapTrack>, t: MapTrack)
    requires forall s :: s in ts ==> s.vaddr != t.vaddr
    ensures OnlyTrack(ts, ts + [t], t)
  {
    assert (ts + [t])[|ts|] == t;
  }

  // ---------- pushing an area ----------

  lemma PushOk(areas: seq<MemArea>, a: MemArea)
    requires AreasOk(areas) && AreaOk(a) && Clear(areas, a.start, a.End())
    ensures AreasOk(areas + [a])
  {
    var areas' := areas + [a];
    forall j, k | 0 <= j < k < |areas'| ensures Apart(areas'[j], areas'[k]) {
      if k < |areas| {
        assert Apart(areas[j], areas[k]);
      } else {
        assert !areas[j].Overlapping(a.start, a.End());
      }
    }
  }

  /** The trackers of a new area join those of the process. */
  lemma PushDescribes(areas: seq<MemArea>, a: MemArea, refs: map<Key, Ref>, refs': map<Key, Ref>, p: nat)
    requires Describes(areas, refs, p)
    requires forall k :: k in refs ==> k in refs' && refs'[k] == refs[k]
    requires forall t :: t in a.tracks ==> IsRef(refs', p, t, a.IsShared())
    requires forall k :: k in refs' && k !in refs && k.pid == p ==> HasTrack(a, k.page)
    ensures Describes(areas + [a], refs', p)
  {
    var areas' := areas + [a];
    forall i, t | 0 <= i < |areas'| && t in areas'[i].tracks ensures IsRef(refs', p, t, areas'[i].IsShared()) {
      if i < |areas| {
        assert IsRef(refs, p, t, areas[i].IsShared());
      }
    }
    forall k | k in refs' && k.pid == p ensures Listed(areas', k.page) {
      if k in refs {
        assert Listed(areas, k.page);
        var i :| 0 <= i < |areas| && HasTrack(areas[i], k.page);
        assert HasTrack(areas'[i], k.page);
      } else {
        assert HasTrack(areas'[|areas|], k.page);
      }
    }
  }

  // ---------- all trackers of a process ----------

  /** A tracker together with the kind of its area. */
  datatype Entry = Entry(track: MapTrack, shared: bool)

  /** The trackers of all areas, in order. */
  function Flatten(areas: seq<MemArea>): seq<Entry> {
    if areas == [] then []
    else
      var a := areas[|areas| - 1];
      Flatten(areas[..|areas| - 1])
        + seq(|a.tracks|, i requires 0 <= i < |a.tracks| => Entry(a.tracks[i], a.IsShared()))
  }

  ghost predicate EntryOf(areas: seq<MemArea>, i: nat, e: Entry) {
    i < |areas| && e.track in areas[i].tracks && e.shared == areas[i].IsShared()
  }

  lemma {:induction false} FlattenIff(areas: seq<MemArea>, e: Entry)
    ensures e in Flatten(areas) <==> exists i: nat :: EntryOf(areas, i, e)
    decreases |areas|
  {
    if areas != [] {
      var n := |areas| - 1;
      FlattenIff(areas[..n], e);
      var a := areas[n];
      var last := seq(|a.tracks|, i requires 0 <= i < |a.tracks| => Entry(a.tracks[i], a.IsShared()));
      if e in last {
        assert EntryOf(areas, n, e);
      }
      if i: nat :| EntryOf(areas[..n], i, e) {
        assert EntryOf(areas, i, e);
      }
      if i: nat :| EntryOf(areas, i, e) {
        if i < n {
          assert EntryOf(areas[..n], i, e);
        } else {
          var j :| 0 <= j < |a.tracks| && a.tracks[j] == e.track;
          assert last[j] == e;
        }
      }
    }
  }

  /** The entries are the trackers of process `p`, each page once. */
  ghost predicate EntriesDescribe(es: seq<Entry>, refs: map<Key, Ref>, p: nat) {
    && (forall i, j :: 0 <= i < j < |es| ==> es[i].track.vaddr != es[j].track.vaddr)
    && (forall e :: e in es ==> IsRef(refs, p, e.track, e.shared))
    && forall k :: k in refs && k.pid == p ==> k.page in Covered(es)
  }

  ghost function Covered(es: seq<Entry>): set<nat> {
    set e | e in es :: e.track.vaddr
  }

  lemma {:induction false} FlattenUnique(areas: seq<MemArea>)
    requires AreasOk(areas)
    ensures forall i, j :: 0 <= i < j < |Flatten(areas)| ==>
            Flatten(areas)[i].track.vaddr != Flatten(areas)[j].track.vaddr
    decreases |areas|
  {
    if areas != [] {
      var n := |areas| - 1;
      FlattenUnique(areas[..n]);
      var before, all := Flatten(areas[..n]), Flatten(areas);
      forall i, j | 0 <= i < j < |all| ensures all[i].track.vaddr != all[j].track.vaddr {
        if i < |before| <= j {
          assert all[i] in before;
          FlattenIff(areas[..n], all[i]);
          var k: nat :| EntryOf(areas[..n], k, all[i]);
          assert all[j].track in areas[n].tracks;
          assert areas[k].Contains(all[i].track.vaddr) && areas[n].Contains(all[j].track.vaddr);
          assert Apart(areas[k], areas[n]);
        }
      }
    }
  }

  lemma FlattenDescribes(areas: seq<MemArea>, refs: map<Key, Ref>, p: nat)
    requires AreasOk(areas) && Describes(areas, refs, p)
    ensures EntriesDescribe(Flatten(areas), refs, p)
  {
    FlattenUnique(areas);
    var es := Flatten(areas);
    forall e | e in es ensures IsRef(refs, p, e.track, e.shared) {
      FlattenIff(areas, e);
      var i: nat :| EntryOf(areas, i, e);
    }
    forall k | k in refs && k.pid == p ensures k.page in Covered(es) {
      assert Listed(areas, k.page);
      var i :| 0 <= i < |areas| && HasTrack(areas[i], k.page);
      var t :| t in areas[i].tracks && t.vaddr == k.page;
      var e := Entry(t, areas[i].IsShared());
      assert EntryOf(areas, i, e);
      FlattenIff(areas, e);
    }
  }

  ghost function FramesIn(es: seq<Entry>): set<nat> {
    set e | e in es :: e.track.frame
  }

  /** No frame has two trackers in one process. */
  lemma FramesDistinct(es: seq<Entry>, refs: map<Key, Ref>, p: nat, i: nat, j: nat)
    requires EntriesDescribe(es, refs, p) && Aligned(refs) && i < j < |es|
    ensures es[i].track.frame != es[j].track.frame
  {
    assert IsRef(refs, p, es[i].track, es[i].shared) && IsRef(refs, p, es[j].track, es[j].shared);
  }

  lemma FramesAreThose(es: seq<Entry>, refs: map<Key, Ref>, p: nat)
    requires EntriesDescribe(es, refs, p)
    ensures FramesIn(es) == FramesOfProc(refs, p)
  {
    forall f | f in FramesIn(es) ensures f in FramesOfProc(refs, p) {
      var e :| e in es && e.track.frame == f;
      assert IsRef(refs, p, e.track, e.shared);
    }
    forall f | f in FramesOfProc(refs, p) ensures f in FramesIn(es) {
      var k :| k in refs && k.pid == p && refs[k].frame == f;
      assert k.page in Covered(es);
      var e :| e in es && e.track.vaddr == k.page;
      assert IsRef(refs, p, e.track, e.shared) && k == Key(p, k.page);
    }
  }

  // ---------- fork ----------

  /** `table` is `base` with a new entry for the page of every entry of `es`. */
  ghost predicate Shares(table: map<nat, Pte>, base: map<nat, Pte>, es: seq<Entry>) {
    && table.Keys == base.Keys + Covered(es)
    && (forall e :: e in es ==> table[e.track.vaddr] == ForkPte(Ref(e.track.frame, e.shared)))
    && forall v :: v in base && v !in Covered(es) ==> table[v] == base[v]
  }

  lemma SharesNext(table: map<nat, Pte>, base: map<nat, Pte>, es: seq<Entry>, i: nat)
    requires i < |es| && Shares(table, base, es[..i])
    requires forall i, j :: 0 <= i < j < |es| ==> es[i].track.vaddr != es[j].track.vaddr
    ensures var e := es[i];
            Shares(table[e.track.vaddr := ForkPte(Ref(e.track.frame, e.shared))], base, es[..i + 1])
  {
    var e := es[i];
    assert es[..i + 1] == es[..i] + [e];
    assert Covered(es[..i + 1]) == Covered(es[..i]) + {e.track.vaddr};
    forall d | d in es[..i] ensures d.track.vaddr != e.track.vaddr {
      var j :| 0 <= j < i && es[j] == d;
    }
  }

  lemma FramesInNext(es: seq<Entry>, i: nat)
    requires i < |es|
    ensures FramesIn(es[..i + 1]) == FramesIn(es[..i]) + {es[i].track.frame}
  {
    assert es[..i + 1] == es[..i] + [es[i]];
  }

  // ---------- subtracting a range ----------

  /** No area loses trackers to the cut: it is not split, or has no page at or above it. */
  predicate CutKeeps(areas: seq<MemArea>, lo: nat, hi: nat) {
    forall i :: 0 <= i < |areas| ==> !(areas[i].SplitBy(lo, hi) && exists t :: t in areas[i].tracks && lo <= t.vaddr)
  }

  /** The cut divides areas only at page boundaries. */
  predicate CutAligned(areas: seq<MemArea>, lo: nat, hi: nat) {
    forall i :: 0 <= i < |areas| && areas[i].Overlapping(lo, hi) ==>
      && (areas[i].start < lo < areas[i].End() ==> lo % PAGE_SIZE == 0)
      && (areas[i].start < hi < areas[i].End() ==> hi % PAGE_SIZE == 0)
  }

  lemma LastIsNew(ts: seq<MapTrack>, t: MapTrack)
    requires UniqueTracks(ts) && |ts| > 0 && t in ts[..|ts| - 1]
    ensures t.vaddr != ts[|ts| - 1].vaddr
  {
    var i :| 0 <= i < |ts| - 1 && ts[..|ts| - 1][i] == t;
    assert ts[i].vaddr != ts[|ts| - 1].vaddr;
  }

  lemma {:induction false} TracksInUnique(ts: seq<MapTrack>, lo: nat, hi: nat)
    requires UniqueTracks(ts)
    ensures UniqueTracks(TracksIn(ts, lo, hi))
    decreases |ts|
  {
    if ts != [] {
      TracksInUnique(ts[..|ts| - 1], lo, hi);
      forall t | t in TracksIn(ts[..|ts| - 1], lo, hi) ensures t.vaddr != ts[|ts| - 1].vaddr {
        LastIsNew(ts, t);
      }
    }
  }

  lemma {:induction false} TracksOutUnique(ts: seq<MapTrack>, lo: nat, hi: nat)
    requires UniqueTracks(ts)
    ensures UniqueTracks(TracksOut(ts, lo, hi))
    decreases |ts|
  {
    if ts != [] {
      TracksOutUnique(ts[..|ts| - 1], lo, hi);
      forall t | t in TracksOut(ts[..|ts| - 1], lo, hi) ensures t.vaddr != ts[|ts| - 1].vaddr {
        LastIsNew(ts, t);
      }
    }
  }

  /** A piece of an area has the trackers of its own pages. */
  lemma PieceFollows(areas: seq<MemArea>, lo: nat, hi: nat, i: nat, b: MemArea)
    requires AreasOk(areas) && lo <= hi && CutKeeps(areas, lo, hi)
    requires KeptPiece(areas, lo, hi, i, b) || SplitPiece(areas, lo, hi, i, b)
    ensures forall t :: t in b.tracks <==> t in areas[i].tracks && b.Contains(t.vaddr)
    ensures b.IsShared() == areas[i].IsShared()
  {
    TracksFollowIff(areas[i], lo, hi);
    assert TracksFollow(areas[i], lo, hi);
  }

  lemma PieceUnique(a: MemArea, lo: nat, hi: nat)
    requires lo <= hi && UniqueTracks(a.tracks)
    ensures UniqueTracks(Sub(a, lo, hi).area.tracks)
    ensures Sub(a, lo, hi).split.Some? ==> UniqueTracks(Sub(a, lo, hi).split.value.tracks)
  {
    var c := Sub(a, lo, hi);
    TracksOutUnique(a.tracks, hi, a.End());
    TracksInUnique(TracksOut(a.tracks, hi, a.End()), hi, a.End());
    TracksInUnique(a.tracks, c.area.start, c.area.End());
  }

  lemma PieceOk(areas: seq<MemArea>, lo: nat, hi: nat, i: nat, b: MemArea)
    requires AreasOk(areas) && lo <= hi && CutKeeps(areas, lo, hi) && CutAligned(areas, lo, hi)
    requires KeptPiece(areas, lo, hi, i, b) || SplitPiece(areas, lo, hi, i, b)
    ensures AreaOk(b)
  {
    assert CutAligned([areas[i]], lo, hi);
    PieceShape(areas[i], lo, hi, b);
    PieceFollows(areas, lo, hi, i, b);
    PieceUnique(areas[i], lo, hi);
    hide Sub;
    assert AreaOk(areas[i]);
    forall v: nat | b.IsShared() && b.Contains(v) && v % PAGE_SIZE == 0 ensures HasTrack(b, v) {
      assert HasTrack(areas[i], v);
      var t :| t in areas[i].tracks && t.vaddr == v;
      assert t in b.tracks;
    }
  }

  lemma PieceShape(a: MemArea, lo: nat, hi: nat, b: MemArea)
    requires lo <= hi && a.start % PAGE_SIZE == 0 && a.len % PAGE_SIZE == 0 && CutAligned([a], lo, hi)
    requires Sub(a, lo, hi).area == b || Sub(a, lo, hi).split == Some(b)
    ensures b.start % PAGE_SIZE == 0 && b.len % PAGE_SIZE == 0 && (b.len > 0 ==>
            a.start <= b.start && b.End() <= a.End())
  {
    hide TracksIn; hide TracksOut; hide Addresses;
    assert [a][0] == a;
  }

  lemma SubAreaOk(areas: seq<MemArea>, lo: nat, hi: nat)
    requires AreasOk(areas) && lo <= hi && CutKeeps(areas, lo, hi) && CutAligned(areas, lo, hi)
    ensures AreasOk(SubArea(areas, lo, hi))
  {
    SubAreaDisjoint(areas, lo, hi);
    forall b | b in SubArea(areas, lo, hi) ensures AreaOk(b) {
      var i := PieceOf(areas, lo, hi, b);
      PieceOk(areas, lo, hi, i, b);
    }
  }

  /** The tracked pages of process `p` inside the cut. */
  ghost function CutPages(refs: map<Key, Ref>, p: nat, lo: nat, hi: nat): set<nat> {
    set k | k in refs && k.pid == p && lo <= k.page < hi :: k.page
  }

  lemma SubDescribes(areas: seq<MemArea>, refs: map<Key, Ref>, p: nat, lo: nat, hi: nat)
    requires AreasOk(areas) && Describes(areas, refs, p) && lo <= hi && CutKeeps(areas, lo, hi)
    ensures Describes(SubArea(areas, lo, hi), Without(refs, p, CutPages(refs, p, lo, hi)), p)
  {
    var areas', refs' := SubArea(areas, lo, hi), Without(refs, p, CutPages(refs, p, lo, hi));
    forall j, t | 0 <= j < |areas'| && t in areas'[j].tracks ensures IsRef(refs', p, t, areas'[j].IsShared()) {
      var b := areas'[j];
      var i := PieceOf(areas, lo, hi, b);
      PieceFollows(areas, lo, hi, i, b);
      SubCovers(areas[i], lo, hi, t.vaddr);
      assert IsRef(refs, p, t, areas[i].IsShared());
    }
    forall k | k in refs' && k.pid == p ensures Listed(areas', k.page) {
      assert Listed(areas, k.page);
      var i :| 0 <= i < |areas| && HasTrack(areas[i], k.page);
      assert !(lo <= k.page < hi);
      PieceListed(areas, lo, hi, i, k.page);
    }
  }

  lemma PieceListed(areas: seq<MemArea>, lo: nat, hi: nat, i: nat, v: nat)
    requires AreasOk(areas) && lo <= hi && CutKeeps(areas, lo, hi)
    requires i < |areas| && HasTrack(areas[i], v) && !(lo <= v < hi)
    ensures Listed(SubArea(areas, lo, hi), v)
  {
    var t :| t in areas[i].tracks && t.vaddr == v;
    assert areas[i].Contains(v);
    SubCovers(areas[i], lo, hi, v);
    var c := Sub(areas[i], lo, hi);
    var b := if c.area.Contains(v) then c.area else c.split.value;
    assert if c.area.Contains(v) then KeptPiece(areas, lo, hi, i, b) else SplitPiece(areas, lo, hi, i, b);
    PieceFollows(areas, lo, hi, i, b);
    KeptPieces(areas, lo, hi, b);
    SplitPieces(areas, lo, hi, b);
    assert b in SubArea(areas, lo, hi);
    assert HasTrack(b, v);
    var j :| 0 <= j < |SubArea(areas, lo, hi)| && SubArea(areas, lo, hi)[j] == b;
  }

  /** The pages unmapped by one area are its tracked pages inside the cut. */
  lemma UnmappedInArea(areas: seq<MemArea>, lo: nat, hi: nat, i: nat, v: nat)
    requires AreasOk(areas) && lo <= hi && CutKeeps(areas, lo, hi) && i < |areas|
    ensures v in Sub(areas[i], lo, hi).unmapped <==> HasTrack(areas[i], v) && lo <= v < hi
  {
    var a := areas[i];
    var c := Sub(a, lo, hi);
    TracksFollowIff(a, lo, hi);
    assert TracksFollow(a, lo, hi);
    if HasTrack(a, v) {
      var t :| t in a.tracks && t.vaddr == v;
      SubCovers(a, lo, hi, v);
      if a.Overlapping(lo, hi) && !a.SplitBy(lo, hi) {
        UnmappedIsDropped(a, lo, hi, t);
      }
    }
    if v in c.unmapped {
      UnmappedHasTrack(a, lo, hi, v);
    }
  }

  lemma UnmappedPages(areas: seq<MemArea>, refs: map<Key, Ref>, p: nat, lo: nat, hi: nat)
    requires AreasOk(areas) && Describes(areas, refs, p) && lo <= hi && CutKeeps(areas, lo, hi)
    ensures SeqSet(MemAreas.Unmapped(areas, lo, hi)) == CutPages(refs, p, lo, hi)
  {
    forall v: nat
      ensures v in MemAreas.Unmapped(areas, lo, hi) <==> Key(p, v) in refs && lo <= v < hi
    {
      UnmappedOf(areas, lo, hi, v);
      if i: nat :| UnmappedBy(areas, lo, hi, i, v) {
        UnmappedInArea(areas, lo, hi, i, v);
        var t :| t in areas[i].tracks && t.vaddr == v;
        assert IsRef(refs, p, t, areas[i].IsShared());
      }
      if Key(p, v) in refs && lo <= v < hi {
        assert Listed(areas, v);
        var i :| 0 <= i < |areas| && HasTrack(areas[i], v);
        UnmappedInArea(areas, lo, hi, i, v);
        assert UnmappedBy(areas, lo, hi, i, v);
      }
    }
    forall v | v in CutPages(refs, p, lo, hi) ensures v in MemAreas.Unmapped(areas, lo, hi) {
      var k :| k in refs && k.pid == p && k.page == v;
      assert k == Key(p, v);
    }
    forall v | v in MemAreas.Unmapped(areas, lo, hi) ensures v in CutPages(refs, p, lo, hi) {
      assert Key(p, v) in refs;
    }
  }

  // ---------- giving up trackers ----------

  /** The frames of the entries whose tracker is in none of the areas. */
  function FramesLost(es: seq<Entry>, after: seq<MemArea>): seq<nat> {
    if es == [] then []
    else
      var e := es[|es| - 1];
      FramesLost(es[..|es| - 1], after) + if Tracked(after, e.track) then [] else [e.track.frame]
  }

  lemma {:induction false} FramesLostIff(es: seq<Entry>, after: seq<MemArea>, f: nat)
    ensures f in FramesLost(es, after) <==> exists e :: e in es && !Tracked(after, e.track) && e.track.frame == f
    decreases |es|
  {
    if es != [] {
      var n := |es| - 1;
      FramesLostIff(es[..n], after, f);
      assert es == es[..n] + [es[n]];
    }
  }

  ghost predicate Distinct(fs: seq<nat>) {
    forall i, j :: 0 <= i < j < |fs| ==> fs[i] != fs[j]
  }

  lemma {:induction false} FramesLostDistinct(es: seq<Entry>, after: seq<MemArea>)
    requires forall i, j :: 0 <= i < j < |es| ==> es[i].track.frame != es[j].track.frame
    ensures Distinct(FramesLost(es, after))
    decreases |es|
  {
    if es != [] {
      var n := |es| - 1;
      FramesLostDistinct(es[..n], after);
      FramesLostIff(es[..n], after, es[n].track.frame);
    }
  }

  /** A cut that keeps the trackers loses exactly those of the pages inside it. */
  lemma LostAreInside(areas: seq<MemArea>, lo: nat, hi: nat, e: Entry)
    requires AreasOk(areas) && lo <= hi && CutKeeps(areas, lo, hi) && e in Flatten(areas)
    ensures Tracked(SubArea(areas, lo, hi), e.track) <==> !(lo <= e.track.vaddr < hi)
  {
    FlattenIff(areas, e);
    var i: nat :| EntryOf(areas, i, e);
    assert areas[i].Contains(e.track.vaddr);
    hide Flatten, SubArea;
    TrackedInPiece(areas, lo, hi, i, e.track);
    TracksFollowIff(areas[i], lo, hi);
    KeptAreTracks(areas[i], lo, hi, e.track);
    SubCovers(areas[i], lo, hi, e.track.vaddr);
  }

  /** The dropped frames are those of the pages of process `p` inside the cut. */
  lemma FramesLostGiven(es: seq<Entry>, after: seq<MemArea>, refs: map<Key, Ref>, p: nat, lo: nat, hi: nat)
    requires EntriesDescribe(es, refs, p)
    requires forall e :: e in es ==> (Tracked(after, e.track) <==> !(lo <= e.track.vaddr < hi))
    ensures SeqSet(FramesLost(es, after)) == GivenFrames(refs, p, CutPages(refs, p, lo, hi))
  {
    var pages := CutPages(refs, p, lo, hi);
    forall f | f in FramesLost(es, after) ensures f in GivenFrames(refs, p, pages) {
      FramesLostIff(es, after, f);
      var e :| e in es && !Tracked(after, e.track) && e.track.frame == f;
      assert IsRef(refs, p, e.track, e.shared);
      assert Given(Key(p, e.track.vaddr), p, pages);
    }
    forall f | f in GivenFrames(refs, p, pages) ensures f in FramesLost(es, after) {
      var k :| k in refs && Given(k, p, pages) && refs[k].frame == f;
      var e :| e in es && e.track.vaddr == k.page;
      assert IsRef(refs, p, e.track, e.shared) && k == Key(p, k.page);
      assert lo <= k.page < hi;
      FramesLostIff(es, after, f);
    }
  }

  // ---------- cuts that break the link ----------

  /** A cut off a page boundary leaves an area that is not page-aligned. */
  lemma UnalignedCutBreaks(areas: seq<MemArea>, lo: nat, hi: nat)
    requires AreasOk(areas) && lo <= hi && !CutAligned(areas, lo, hi)
    ensures !AreasOk(SubArea(areas, lo, hi))
  {
    var i :| 0 <= i < |areas| && areas[i].Overlapping(lo, hi)
             && ((areas[i].start < lo < areas[i].End() && lo % PAGE_SIZE != 0)
                 || (areas[i].start < hi < areas[i].End() && hi % PAGE_SIZE != 0));
    var b := UnalignedPiece(areas[i], lo, hi);
    hide Sub, SubArea;
    BadPiece(areas, lo, hi, i, b);
  }

  lemma UnalignedPiece(a: MemArea, lo: nat, hi: nat) returns (b: MemArea)
    requires lo <= hi && a.Overlapping(lo, hi) && a.start % PAGE_SIZE == 0
    requires (a.start < lo < a.End() && lo % PAGE_SIZE != 0) || (a.start < hi < a.End() && hi % PAGE_SIZE != 0)
    ensures (Sub(a, lo, hi).area == b && b.len != 0) || Sub(a, lo, hi).split == Some(b)
    ensures b.start % PAGE_SIZE != 0 || b.len % PAGE_SIZE != 0
  {
    hide TracksIn, TracksOut, Addresses;
    var c := Sub(a, lo, hi);
    if a.start < lo < a.End() && lo % PAGE_SIZE != 0 {
      b := c.area;
    } else {
      b := if c.split.Some? then c.split.value else c.area;
    }
  }

  lemma BadPiece(areas: seq<MemArea>, lo: nat, hi: nat, i: nat, b: MemArea)
    requires lo <= hi && (KeptPiece(areas, lo, hi, i, b) || SplitPiece(areas, lo, hi, i, b)) && !AreaOk(b)
    ensures !AreasOk(SubArea(areas, lo, hi))
  {
    KeptPieces(areas, lo, hi, b);
    SplitPieces(areas, lo, hi, b);
    assert b in SubArea(areas, lo, hi);
  }

  /** A split that keeps a page of the cut leaves a tracker outside its area; one that loses a
      page leaves the page mapped without a tracker. */
  lemma LosingCutBreaks(areas: seq<MemArea>, lo: nat, hi: nat) returns (v: nat)
    requires AreasOk(areas) && lo <= hi && !CutKeeps(areas, lo, hi)
    ensures !AreasOk(SubArea(areas, lo, hi))
         || (Listed(areas, v) && !Listed(SubArea(areas, lo, hi), v) && v !in MemAreas.Unmapped(areas, lo, hi))
  {
    var i :| 0 <= i < |areas| && areas[i].SplitBy(lo, hi) && exists t :: t in areas[i].tracks && lo <= t.vaddr;
    var t :| t in areas[i].tracks && lo <= t.vaddr;
    var c := Sub(areas[i], lo, hi);
    v := t.vaddr;
    assert areas[i].Contains(v) && HasTrack(areas[i], v);
    if lo > areas[i].start && v < hi {
      assert t in c.area.tracks && !c.area.Contains(v);
      assert KeptPiece(areas, lo, hi, i, c.area);
      BadPiece(areas, lo, hi, i, c.area);
    } else {
      LeaksIff(areas[i], lo, hi, t);
      LeakIsUnlisted(areas, lo, hi, i, t);
    }
  }

  lemma LeakIsUnlisted(areas: seq<MemArea>, lo: nat, hi: nat, i: nat, t: MapTrack)
    requires AreasOk(areas) && lo <= hi && i < |areas| && Leaks(areas[i], lo, hi, t)
    ensures Listed(areas, t.vaddr) && !Listed(SubArea(areas, lo, hi), t.vaddr)
    ensures t.vaddr !in MemAreas.Unmapped(areas, lo, hi)
  {
    assert HasTrack(areas[i], t.vaddr);
    hide Sub, KeptTracks;
    TrackedInPiece(areas, lo, hi, i, t);
    UnmappedByOwner(areas, lo, hi, i, t);
    var after := SubArea(areas, lo, hi);
    if k :| 0 <= k < |after| && HasTrack(after[k], t.vaddr) {
      var s :| s in after[k].tracks && s.vaddr == t.vaddr;
      var j := PieceOf(areas, lo, hi, after[k]);
      KeptAreTracks(areas[j], lo, hi, s);
      assert areas[j].Contains(s.vaddr) && areas[i].Contains(s.vaddr);
      OneOwner(areas, i, j, s.vaddr);
      UniqueMember(areas[i].tracks, s, t);
    }
  }

  /** All frames of the entries. */
  function AllFrames(es: seq<Entry>): (fs: seq<nat>)
    ensures |fs| == |es| && forall i :: 0 <= i < |es| ==> fs[i] == es[i].track.frame
  {
    seq(|es|, i requires 0 <= i < |es| => es[i].track.frame)
  }

  lemma AllFramesIn(es: seq<Entry>)
    ensures SeqSet(AllFrames(es)) == FramesIn(es)
  {
    var fs := AllFrames(es);
    forall f | f in FramesIn(es) ensures f in SeqSet(fs) {
      var e :| e in es && e.track.frame == f;
      var i :| 0 <= i < |es| && es[i] == e;
      assert fs[i] == f;
    }
    forall f | f in SeqSet(fs) ensures f in FramesIn(es) {
      var i :| 0 <= i < |fs| && fs[i] == f;
      assert es[i] in es;
    }
  }
}
