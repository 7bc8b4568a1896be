/** Memory areas of a process and the subtraction of an address range from them
    (`MemArea`, `MemSet`). */
module MemAreas {
  import opened Common

  datatype MemType = CodeSection | Stack | Mmap | Shared | ShareFile

  /** The frame that backs the page at `vaddr`. */
  datatype MapTrack = MapTrack(vaddr: nat, frame: nat)

  datatype MemArea = MemArea(mtype: MemType, tracks: seq<MapTrack>, hasFile: bool, start: nat, len: nat) {
    function End(): nat {
      start + len
    }

    predicate Contains(addr: nat) {
      start <= addr < End()
    }

    predicate Overlapping(lo: nat, hi: nat) {
      !((lo <= start && hi <= start) || (lo >= End() && hi >= End()))
    }

    predicate IsShared() {
      mtype == Shared || mtype == ShareFile
    }

    /** Both ends of the cut lie in the area, so subtracting it leaves two pieces. */
    predicate SplitBy(lo: nat, hi: nat) {
      Overlapping(lo, hi) && Contains(lo) && Contains(hi)
    }
  }

  predicate In(t: MapTrack, lo: nat, hi: nat) {
    lo <= t.vaddr < hi
  }

  function TracksIn(ts: seq<MapTrack>, lo: nat, hi: nat): (r: seq<MapTrack>)
    ensures forall t :: t in r <==> t in ts && In(t, lo, hi)
  {
    if ts == [] then []
    else
      var rest := TracksIn(ts[..|ts| - 1], lo, hi);
      if In(ts[|ts| - 1], lo, hi) then rest + [ts[|ts| - 1]] else rest
  }

  function TracksOut(ts: seq<MapTrack>, lo: nat, hi: nat): (r: seq<MapTrack>)
    ensures forall t :: t in r <==> t in ts && !In(t, lo, hi)
  {
    if ts == [] then []
    else
      var rest := TracksOut(ts[..|ts| - 1], lo, hi);
      if In(ts[|ts| - 1], lo, hi) then rest else rest + [ts[|ts| - 1]]
  }

  function Addresses(ts: seq<MapTrack>): (r: seq<nat>)
    ensures |r| == |ts| && forall i :: 0 <= i < |ts| ==> r[i] == ts[i].vaddr
  {
    seq(|ts|, i requires 0 <= i < |ts| => ts[i].vaddr)
  }

  /** What subtracting a range makes of an area: the area itself, the piece split off its
      right-hand side, and the pages taken out of the page table. */
  datatype Cut = Cut(area: MemArea, split: Option<MemArea>, unmapped: seq<nat>)

  function Sub(a: MemArea, lo: nat, hi: nat): Cut
    requires lo <= hi
  {
    if !a.Overlapping(lo, hi) then
      Cut(a, None, [])
    else if a.Contains(lo) && a.Contains(hi) then
      var left := a.(len := lo - a.start, tracks := TracksOut(a.tracks, hi, a.End()));
      var right := a.(start := hi, len := a.End() - hi, tracks := TracksIn(left.tracks, hi, a.End()));
      Cut(left, Some(right), [])
    else if lo <= a.start < hi && lo <= a.End() < hi then
      Cut(a.(len := 0, tracks := []), None, Addresses(a.tracks))
    else
      var a' := if a.Contains(lo) then a.(len := lo - a.start)
                else if lo <= a.start < hi then a.(start := hi, len := a.End() - hi)
                else a;
      Cut(a'.(tracks := TracksIn(a.tracks, a'.start, a'.End())), None,
          Addresses(TracksOut(a.tracks, a'.start, a'.End())))
  }

  /** Exactly the addresses outside the cut stay covered, each by one of the pieces. */
  lemma SubCovers(a: MemArea, lo: nat, hi: nat, addr: nat)
    requires lo <= hi
    ensures var c := Sub(a, lo, hi);
            && ((c.area.Contains(addr) || (c.split.Some? && c.split.value.Contains(addr)))
                <==> a.Contains(addr) && !(lo <= addr < hi))
            && !(c.area.Contains(addr) && c.split.Some? && c.split.value.Contains(addr))
  {
  }

  /** Every tracker lies inside its area. */
  ghost predicate TracksInside(a: MemArea) {
    forall t :: t in a.tracks ==> a.Contains(t.vaddr)
  }

  /** After the cut each piece has exactly the trackers of its own pages. */
  ghost predicate TracksFollow(a: MemArea, lo: nat, hi: nat)
    requires lo <= hi
  {
    var c := Sub(a, lo, hi);
    && (forall t :: t in c.area.tracks <==> t in a.tracks && c.area.Contains(t.vaddr))
    && (c.split.Some? ==> forall t :: t in c.split.value.tracks <==> t in a.tracks && c.split.value.Contains(t.vaddr))
  }

  /** The trackers that survive in the pieces of an area; a piece without length is discarded
      with its trackers. */
  function KeptTracks(a: MemArea, lo: nat, hi: nat): seq<MapTrack>
    requires lo <= hi
  {
    var c := Sub(a, lo, hi);
    (if c.area.len != 0 then c.area.tracks else []) + (if c.split.Some? then c.split.value.tracks else [])
  }

  /** The tracker goes while its page stays in the page table. */
  ghost predicate Leaks(a: MemArea, lo: nat, hi: nat, t: MapTrack)
    requires lo <= hi
  {
    t in a.tracks && t !in KeptTracks(a, lo, hi) && t.vaddr !in Sub(a, lo, hi).unmapped
  }

  /** The trackers follow their pages exactly when the cut does not split the area or the
      area has no page at or above the cut: the split branch keeps the trackers of the cut
      and loses those to the right of it. */
  lemma TracksFollowIff(a: MemArea, lo: nat, hi: nat)
    requires lo <= hi && TracksInside(a)
    ensures TracksFollow(a, lo, hi)
       <==> !(a.SplitBy(lo, hi) && exists t :: t in a.tracks && lo <= t.vaddr)
  {
    if a.SplitBy(lo, hi) {
      SplitFollowsIff(a, lo, hi);
    } else {
      OthersFollow(a, lo, hi);
    }
  }

  lemma SplitFollowsIff(a: MemArea, lo: nat, hi: nat)
    requires lo <= hi && TracksInside(a) && a.SplitBy(lo, hi)
    ensures TracksFollow(a, lo, hi) <==> forall t :: t in a.tracks ==> t.vaddr < lo
  {
    var c := Sub(a, lo, hi);
    if t :| t in a.tracks && lo <= t.vaddr {
      if t.vaddr < hi {
        assert t in c.area.tracks && !c.area.Contains(t.vaddr);
      } else {
        assert t !in c.split.value.tracks && c.split.value.Contains(t.vaddr);
      }
    }
  }

  lemma OthersFollow(a: MemArea, lo: nat, hi: nat)
    requires lo <= hi && TracksInside(a) && !a.SplitBy(lo, hi)
    ensures TracksFollow(a, lo, hi)
  {
    assert Sub(a, lo, hi).split.None?;
  }

  /** A tracker leaks exactly when the cut splits its area and either starts where the area
      starts or ends at or below the page, or when the area was empty from the start. */
  lemma LeaksIff(a: MemArea, lo: nat, hi: nat, t: MapTrack)
    requires lo <= hi && UniqueTracks(a.tracks) && t in a.tracks
    ensures Leaks(a, lo, hi, t)
       <==> || (a.SplitBy(lo, hi) && (lo == a.start || hi <= t.vaddr < a.End()))
            || (a.len == 0 && !a.Overlapping(lo, hi))
  {
    if a.Overlapping(lo, hi) && !a.SplitBy(lo, hi) {
      UnmappedIsDropped(a, lo, hi, t);
    }
  }

  /** Where the cut does not split, a page is unmapped exactly when its tracker goes. */
  lemma UnmappedIsDropped(a: MemArea, lo: nat, hi: nat, t: MapTrack)
    requires lo <= hi && UniqueTracks(a.tracks) && t in a.tracks
    requires a.Overlapping(lo, hi) && !a.SplitBy(lo, hi)
    ensures t in Sub(a, lo, hi).area.tracks <==> t.vaddr !in Sub(a, lo, hi).unmapped
    ensures t in KeptTracks(a, lo, hi) <==> t in Sub(a, lo, hi).area.tracks
  {
    var c := Sub(a, lo, hi);
    if lo <= a.start < hi && lo <= a.End() < hi {
      var i :| 0 <= i < |a.tracks| && a.tracks[i] == t;
      assert c.unmapped[i] == t.vaddr;
    } else {
      var out := TracksOut(a.tracks, c.area.start, c.area.End());
      forall s | s in out && s.vaddr == t.vaddr ensures s == t {
        UniqueMember(a.tracks, s, t);
      }
      if t !in c.area.tracks {
        var i :| 0 <= i < |out| && out[i] == t;
        assert c.unmapped[i] == t.vaddr;
      }
    }
  }

  lemma UniqueMember(ts: seq<MapTrack>, s: MapTrack, t: MapTrack)
    requires UniqueTracks(ts) && s in ts && t in ts && s.vaddr == t.vaddr
    ensures s == t
  {
    var i :| 0 <= i < |ts| && ts[i] == s;
    var j :| 0 <= j < |ts| && ts[j] == t;
    assert i == j;
  }

  /** No page has two trackers. */
  ghost predicate UniqueTracks(ts: seq<MapTrack>) {
    forall i, j :: 0 <= i < j < |ts| ==> ts[i].vaddr != ts[j].vaddr
  }

  ghost predicate Covers(areas: seq<MemArea>, addr: nat) {
    exists i :: 0 <= i < |areas| && areas[i].Contains(addr)
  }

  lemma PushCovers(areas: seq<MemArea>, a: MemArea, addr: nat)
    ensures Covers(areas + [a], addr) <==> Covers(areas, addr) || a.Contains(addr)
  {
    assert a.Contains(addr) ==> (areas + [a])[|areas|].Contains(addr);
    if Covers(areas, addr) {
      var i :| 0 <= i < |areas| && areas[i].Contains(addr);
      assert (areas + [a])[i].Contains(addr);
    }
  }

  lemma PushedCovers(areas: seq<MemArea>, a: MemArea)
    ensures forall v: nat :: Covers(areas + [a], v) <==> Covers(areas, v) || a.start <= v < a.start + a.len
  {
    forall v: nat ensures Covers(areas + [a], v) <==> Covers(areas, v) || a.start <= v < a.start + a.len {
      PushCovers(areas, a, v);
    }
  }

  predicate Apart(a: MemArea, b: MemArea) {
    a.len == 0 || b.len == 0 || a.End() <= b.start || b.End() <= a.start
  }

  /** The areas are pairwise disjoint. */
  ghost predicate Disjoint(areas: seq<MemArea>) {
    forall i, j :: 0 <= i < j < |areas| ==> Apart(areas[i], areas[j])
  }

  /** No area overlaps the range. */
  predicate Clear(areas: seq<MemArea>, lo: nat, hi: nat) {
    forall i :: 0 <= i < |areas| ==> !areas[i].Overlapping(lo, hi)
  }

  lemma DisjointIff(areas: seq<MemArea>)
    ensures Disjoint(areas)
       <==> forall i, j, addr :: 0 <= i < j < |areas| ==> !(areas[i].Contains(addr) && areas[j].Contains(addr))
  {
    if !Disjoint(areas) {
      var i, j :| 0 <= i < j < |areas| && !Apart(areas[i], areas[j]);
      var addr := Max(areas[i].start, areas[j].start);
      assert areas[i].Contains(addr) && areas[j].Contains(addr);
    }
  }

  /** The pieces of the areas kept in place, in order. */
  function Kept(areas: seq<MemArea>, lo: nat, hi: nat): seq<MemArea>
    requires lo <= hi
  {
    if areas == [] then []
    else
      var n := |areas| - 1;
      var c := Sub(areas[n], lo, hi);
      Kept(areas[..n], lo, hi) + if c.area.len != 0 then [c.area] else []
  }

  /** The pieces split off, in order. */
  function Splits(areas: seq<MemArea>, lo: nat, hi: nat): seq<MemArea>
    requires lo <= hi
  {
    if areas == [] then []
    else
      var n := |areas| - 1;
      var c := Sub(areas[n], lo, hi);
      Splits(areas[..n], lo, hi) + if c.split.Some? then [c.split.value] else []
  }

  function Unmapped(areas: seq<MemArea>, lo: nat, hi: nat): seq<nat>
    requires lo <= hi
  {
    if areas == [] then []
    else
      var n := |areas| - 1;
      Unmapped(areas[..n], lo, hi) + Sub(areas[n], lo, hi).unmapped
  }

  function SubArea(areas: seq<MemArea>, lo: nat, hi: nat): seq<MemArea>
    requires lo <= hi
  {
    Kept(areas, lo, hi) + Splits(areas, lo, hi)
  }

  /** Each piece after the subtraction is a piece of one of the areas. */
  ghost predicate KeptPiece(areas: seq<MemArea>, lo: nat, hi: nat, i: nat, b: MemArea)
    requires lo <= hi
  {
    i < |areas| && Sub(areas[i], lo, hi).area == b && b.len != 0
  }

  ghost predicate SplitPiece(areas: seq<MemArea>, lo: nat, hi: nat, i: nat, b: MemArea)
    requires lo <= hi
  {
    i < |areas| && Sub(areas[i], lo, hi).split == Some(b)
  }

  lemma {:induction false} KeptPieces(areas: seq<MemArea>, lo: nat, hi: nat, b: MemArea)
    requires lo <= hi
    ensures b in Kept(areas, lo, hi) <==> exists i: nat :: KeptPiece(areas, lo, hi, i, b)
    decreases |areas|
  {
    hide Sub;
    if areas != [] {
      var n := |areas| - 1;
      KeptPieces(areas[..n], lo, hi, b);
      if i: nat :| KeptPiece(areas, lo, hi, i, b) {
        assert i < n ==> KeptPiece(areas[..n], lo, hi, i, b);
      }
      if i: nat :| KeptPiece(areas[..n], lo, hi, i, b) {
        assert KeptPiece(areas, lo, hi, i, b);
      }
      assert Sub(areas[n], lo, hi).area == b && b.len != 0 ==> KeptPiece(areas, lo, hi, n, b);
    }
  }

  lemma {:induction false} SplitPieces(areas: seq<MemArea>, lo: nat, hi: nat, b: MemArea)
    requires lo <= hi
    ensures b in Splits(areas, lo, hi) <==> exists i: nat :: SplitPiece(areas, lo, hi, i, b)
    decreases |areas|
  {
    hide Sub;
    if areas != [] {
      var n := |areas| - 1;
      SplitPieces(areas[..n], lo, hi, b);
      if i: nat :| SplitPiece(areas, lo, hi, i, b) {
        assert i < n ==> SplitPiece(areas[..n], lo, hi, i, b);
      }
      if i: nat :| SplitPiece(areas[..n], lo, hi, i, b) {
        assert SplitPiece(areas, lo, hi, i, b);
      }
      assert Sub(areas[n], lo, hi).split == Some(b) ==> SplitPiece(areas, lo, hi, n, b);
    }
  }

  /** The subtraction leaves covered exactly what was covered outside the range. */
  lemma SubAreaCovers(areas: seq<MemArea>, lo: nat, hi: nat, addr: nat)
    requires lo <= hi
    ensures Covers(SubArea(areas, lo, hi), addr) <==> Covers(areas, addr) && !(lo <= addr < hi)
  {
    var after := SubArea(areas, lo, hi);
    if k :| 0 <= k < |after| && after[k].Contains(addr) {
      var i := PieceOf(areas, lo, hi, after[k]);
      SubCovers(areas[i], lo, hi, addr);
    }
    if Covers(areas, addr) && !(lo <= addr < hi) {
      var i :| 0 <= i < |areas| && areas[i].Contains(addr);
      SubCovers(areas[i], lo, hi, addr);
      var c := Sub(areas[i], lo, hi);
      var b := if c.area.Contains(addr) then c.area else c.split.value;
      if c.area.Contains(addr) {
        assert KeptPiece(areas, lo, hi, i, b);
        KeptPieces(areas, lo, hi, b);
      } else {
        assert SplitPiece(areas, lo, hi, i, b);
        SplitPieces(areas, lo, hi, b);
      }
      assert b in after;
    }
  }

  lemma PieceOf(areas: seq<MemArea>, lo: nat, hi: nat, b: MemArea) returns (i: nat)
    requires lo <= hi && b in SubArea(areas, lo, hi)
    ensures KeptPiece(areas, lo, hi, i, b) || SplitPiece(areas, lo, hi, i, b)
  {
    KeptPieces(areas, lo, hi, b);
    SplitPieces(areas, lo, hi, b);
    if b in Kept(areas, lo, hi) {
      i :| KeptPiece(areas, lo, hi, i, b);
    } else {
      i :| SplitPiece(areas, lo, hi, i, b);
    }
  }

  /** A piece is of the kind of its area, has its file and lies in it; an area that the range does not
      overlap is its own only piece. */
  lemma PieceIsAlike(areas: seq<MemArea>, lo: nat, hi: nat, b: MemArea) returns (i: nat)
    requires lo <= hi && b in SubArea(areas, lo, hi)
    ensures i < |areas| && b.mtype == areas[i].mtype && b.hasFile == areas[i].hasFile
    ensures forall addr :: b.Contains(addr) ==> areas[i].Contains(addr)
    ensures forall t :: t in b.tracks ==> t in areas[i].tracks
    ensures !areas[i].Overlapping(lo, hi) ==> b == areas[i]
  {
    i := PieceOf(areas, lo, hi, b);
  }

  lemma PiecesApart(a: MemArea, b: MemArea, lo: nat, hi: nat)
    requires lo <= hi && Apart(a, b)
    ensures var c, d := Sub(a, lo, hi), Sub(b, lo, hi);
            && Apart(c.area, d.area)
            && (d.split.Some? ==> Apart(c.area, d.split.value))
            && (c.split.Some? ==> Apart(c.split.value, d.area))
            && (c.split.Some? && d.split.Some? ==> Apart(c.split.value, d.split.value))
  {
  }

  lemma {:induction false} KeptDisjoint(areas: seq<MemArea>, lo: nat, hi: nat)
    requires lo <= hi && Disjoint(areas)
    ensures Disjoint(Kept(areas, lo, hi)) && Disjoint(Splits(areas, lo, hi))
    decreases |areas|
  {
    hide Sub;
    if areas != [] {
      var n := |areas| - 1;
      KeptDisjoint(areas[..n], lo, hi);
      var c := Sub(areas[n], lo, hi);
      forall b | b in Kept(areas[..n], lo, hi) ensures Apart(b, c.area) {
        KeptPieces(areas[..n], lo, hi, b);
        var i: nat :| KeptPiece(areas[..n], lo, hi, i, b);
        PiecesApart(areas[i], areas[n], lo, hi);
      }
      forall b | b in Splits(areas[..n], lo, hi) && c.split.Some? ensures Apart(b, c.split.value) {
        SplitPieces(areas[..n], lo, hi, b);
        var i: nat :| SplitPiece(areas[..n], lo, hi, i, b);
        PiecesApart(areas[i], areas[n], lo, hi);
      }
    }
  }

  /** Disjoint areas stay disjoint. */
  lemma SubAreaDisjoint(areas: seq<MemArea>, lo: nat, hi: nat)
    requires lo <= hi && Disjoint(areas)
    ensures Disjoint(SubArea(areas, lo, hi))
  {
    KeptDisjoint(areas, lo, hi);
    forall b, d | b in Kept(areas, lo, hi) && d in Splits(areas, lo, hi) ensures Apart(b, d) {
      KeptPieces(areas, lo, hi, b);
      SplitPieces(areas, lo, hi, d);
      var i: nat :| KeptPiece(areas, lo, hi, i, b);
      var j: nat :| SplitPiece(areas, lo, hi, j, d);
      if i < j {
        PiecesApart(areas[i], areas[j], lo, hi);
      } else if j < i {
        PiecesApart(areas[j], areas[i], lo, hi);
      }
    }
  }

  // ---------- trackers and the page table ----------

  /** Disjoint areas, each with its own pages tracked once. */
  ghost predicate Tidy(areas: seq<MemArea>) {
    Disjoint(areas) && forall i :: 0 <= i < |areas| ==> TracksInside(areas[i]) && UniqueTracks(areas[i].tracks)
  }

  predicate Tracked(areas: seq<MemArea>, t: MapTrack) {
    exists i :: 0 <= i < |areas| && t in areas[i].tracks
  }

  /** After the subtraction a page is out of the page table exactly when its tracker is gone. */
  ghost predicate DroppedAreUnmapped(areas: seq<MemArea>, lo: nat, hi: nat)
    requires lo <= hi
  {
    forall t :: Tracked(areas, t) ==> (Tracked(SubArea(areas, lo, hi), t) <==> t.vaddr !in Unmapped(areas, lo, hi))
  }

  /** The cut splits the area, and drops a page at or above its end or, starting where the area
      starts, any page. */
  predicate LosesPages(a: MemArea, lo: nat, hi: nat) {
    a.SplitBy(lo, hi) && exists t :: t in a.tracks && (hi <= t.vaddr || lo == a.start)
  }

  /** Subtracting a range takes exactly the pages of the dropped trackers out of the page table
      if and only if it splits no area that then loses pages. */
  lemma DroppedAreUnmappedIff(areas: seq<MemArea>, lo: nat, hi: nat)
    requires lo <= hi && Tidy(areas)
    ensures DroppedAreUnmapped(areas, lo, hi) <==> forall i :: 0 <= i < |areas| ==> !LosesPages(areas[i], lo, hi)
  {
    hide SubArea, Unmapped, Sub, KeptTracks;
    forall i, t | 0 <= i < |areas| && t in areas[i].tracks
      ensures Tracked(SubArea(areas, lo, hi), t) <==> t in KeptTracks(areas[i], lo, hi)
      ensures t.vaddr in Unmapped(areas, lo, hi) <==> t.vaddr in Sub(areas[i], lo, hi).unmapped
      ensures Leaks(areas[i], lo, hi, t) <==> areas[i].SplitBy(lo, hi) && (lo == areas[i].start || hi <= t.vaddr)
      ensures t in KeptTracks(areas[i], lo, hi) ==> t.vaddr !in Sub(areas[i], lo, hi).unmapped
    {
      TrackedInPiece(areas, lo, hi, i, t);
      UnmappedByOwner(areas, lo, hi, i, t);
      assert areas[i].Contains(t.vaddr);
      LeaksIff(areas[i], lo, hi, t);
      KeptIsMapped(areas[i], lo, hi, t);
    }
    if i :| 0 <= i < |areas| && LosesPages(areas[i], lo, hi) {
      var t :| t in areas[i].tracks && (hi <= t.vaddr || lo == areas[i].start);
      assert Tracked(areas, t) && Leaks(areas[i], lo, hi, t);
    }
    if forall i :: 0 <= i < |areas| ==> !LosesPages(areas[i], lo, hi) {
      forall t | Tracked(areas, t)
        ensures Tracked(SubArea(areas, lo, hi), t) <==> t.vaddr !in Unmapped(areas, lo, hi)
      {
        var i :| 0 <= i < |areas| && t in areas[i].tracks;
        assert !LosesPages(areas[i], lo, hi);
        assert !Leaks(areas[i], lo, hi, t);
      }
    }
  }

  lemma KeptIsMapped(a: MemArea, lo: nat, hi: nat, t: MapTrack)
    requires lo <= hi && UniqueTracks(a.tracks) && t in a.tracks
    ensures t in KeptTracks(a, lo, hi) ==> t.vaddr !in Sub(a, lo, hi).unmapped
  {
    if a.Overlapping(lo, hi) && !a.SplitBy(lo, hi) {
      UnmappedIsDropped(a, lo, hi, t);
    }
  }

  lemma KeptAreTracks(a: MemArea, lo: nat, hi: nat, t: MapTrack)
    requires lo <= hi
    ensures t in Sub(a, lo, hi).area.tracks ==> t in a.tracks
    ensures Sub(a, lo, hi).split.Some? && t in Sub(a, lo, hi).split.value.tracks ==> t in a.tracks
    ensures t in KeptTracks(a, lo, hi) <==>
              || (Sub(a, lo, hi).area.len != 0 && t in Sub(a, lo, hi).area.tracks)
              || (Sub(a, lo, hi).split.Some? && t in Sub(a, lo, hi).split.value.tracks)
  {
  }

  /** A page lies in one area only, so its tracker survives in a piece of that area or not at
      all. */
  lemma TrackedInPiece(areas: seq<MemArea>, lo: nat, hi: nat, i: nat, t: MapTrack)
    requires lo <= hi && Tidy(areas) && i < |areas| && t in areas[i].tracks
    ensures Tracked(SubArea(areas, lo, hi), t) <==> t in KeptTracks(areas[i], lo, hi)
  {
    hide Sub, KeptTracks, Kept, Splits;
    var after, c := SubArea(areas, lo, hi), Sub(areas[i], lo, hi);
    KeptAreTracks(areas[i], lo, hi, t);
    if k :| 0 <= k < |after| && t in after[k].tracks {
      var j := PieceOf(areas, lo, hi, after[k]);
      KeptAreTracks(areas[j], lo, hi, t);
      assert areas[j].Contains(t.vaddr) && areas[i].Contains(t.vaddr);
      OneOwner(areas, i, j, t.vaddr);
    }
    if t in KeptTracks(areas[i], lo, hi) {
      var b := if c.area.len != 0 && t in c.area.tracks then c.area else c.split.value;
      KeptPieces(areas, lo, hi, b);
      SplitPieces(areas, lo, hi, b);
      assert KeptPiece(areas, lo, hi, i, b) || SplitPiece(areas, lo, hi, i, b);
      assert b in after;
    }
  }

  lemma OneOwner(areas: seq<MemArea>, i: nat, j: nat, addr: nat)
    requires Disjoint(areas) && i < |areas| && j < |areas| && areas[i].Contains(addr) && areas[j].Contains(addr)
    ensures i == j
  {
  }

  ghost predicate UnmappedBy(areas: seq<MemArea>, lo: nat, hi: nat, i: nat, v: nat)
    requires lo <= hi
  {
    i < |areas| && v in Sub(areas[i], lo, hi).unmapped
  }

  lemma {:induction false} UnmappedOf(areas: seq<MemArea>, lo: nat, hi: nat, v: nat)
    requires lo <= hi
    ensures v in Unmapped(areas, lo, hi) <==> exists i: nat :: UnmappedBy(areas, lo, hi, i, v)
    decreases |areas|
  {
    hide Sub;
    if areas != [] {
      var n := |areas| - 1;
      UnmappedOf(areas[..n], lo, hi, v);
      if i: nat :| UnmappedBy(areas[..n], lo, hi, i, v) {
        assert UnmappedBy(areas, lo, hi, i, v);
      }
      if i: nat :| UnmappedBy(areas, lo, hi, i, v) {
        assert i < n ==> UnmappedBy(areas[..n], lo, hi, i, v);
      }
      assert v in Sub(areas[n], lo, hi).unmapped ==> UnmappedBy(areas, lo, hi, n, v);
    }
  }

  lemma UnmappedByOwner(areas: seq<MemArea>, lo: nat, hi: nat, i: nat, t: MapTrack)
    requires lo <= hi && Tidy(areas) && i < |areas| && t in areas[i].tracks
    ensures t.vaddr in Unmapped(areas, lo, hi) <==> t.vaddr in Sub(areas[i], lo, hi).unmapped
  {
    UnmappedOf(areas, lo, hi, t.vaddr);
    if j: nat :| UnmappedBy(areas, lo, hi, j, t.vaddr) {
      UnmappedHasTrack(areas[j], lo, hi, t.vaddr);
      assert areas[i].Contains(t.vaddr) && areas[j].Contains(t.vaddr);
      OneOwner(areas, i, j, t.vaddr);
    }
    assert t.vaddr in Sub(areas[i], lo, hi).unmapped ==> UnmappedBy(areas, lo, hi, i, t.vaddr);
  }

  lemma UnmappedHasTrack(a: MemArea, lo: nat, hi: nat, v: nat)
    requires lo <= hi && v in Sub(a, lo, hi).unmapped
    ensures exists t :: t in a.tracks && t.vaddr == v
  {
    var c := Sub(a, lo, hi);
    var out := if lo <= a.start < hi && lo <= a.End() < hi then a.tracks
        else TracksOut(a.tracks, c.area.start, c.area.End());
    assert c.unmapped == Addresses(out);
    var i :| 0 <= i < |out| && c.unmapped[i] == v;
    assert out[i] in out && out[i] in a.tracks;
  }

  /** A three-page area whose middle page is unmapped: the tracker of the last page is gone
      while the page stays in the page table. */
  lemma SplitLosesTracker()
    ensures var areas := [MemArea(Mmap, [MapTrack(0x3000, 7)], false, 0x1000, 0x3000)];
            && !TracksFollow(areas[0], 0x2000, 0x3000) && !DroppedAreUnmapped(areas, 0x2000, 0x3000)
            && !Tracked(SubArea(areas, 0x2000, 0x3000), MapTrack(0x3000, 7))
            && 0x3000 !in Unmapped(areas, 0x2000, 0x3000)
  {
    var t := MapTrack(0x3000, 7);
    var areas := [MemArea(Mmap, [t], false, 0x1000, 0x3000)];
    assert t in areas[0].tracks && areas[0].SplitBy(0x2000, 0x3000);
    TracksFollowIff(areas[0], 0x2000, 0x3000);
    LeaksIff(areas[0], 0x2000, 0x3000, t);
    LeakIsLost(areas, 0x2000, 0x3000, t);
  }

  /** Unmapping the first page of a three-page area: the page's tracker is gone while the page
      stays in the page table. */
  lemma HeadCutLosesTracker()
    ensures var areas := [MemArea(Mmap, [MapTrack(0x1000, 7)], false, 0x1000, 0x3000)];
            && !DroppedAreUnmapped(areas, 0x1000, 0x2000)
            && !Tracked(SubArea(areas, 0x1000, 0x2000), MapTrack(0x1000, 7))
            && 0x1000 !in Unmapped(areas, 0x1000, 0x2000)
  {
    var t := MapTrack(0x1000, 7);
    var areas := [MemArea(Mmap, [t], false, 0x1000, 0x3000)];
    assert t in areas[0].tracks && areas[0].SplitBy(0x1000, 0x2000);
    LeaksIff(areas[0], 0x1000, 0x2000, t);
    LeakIsLost(areas, 0x1000, 0x2000, t);
  }

  lemma LeakIsLost(areas: seq<MemArea>, lo: nat, hi: nat, t: MapTrack)
    requires lo <= hi && Tidy(areas) && |areas| == 1 && Leaks(areas[0], lo, hi, t)
    ensures !Tracked(SubArea(areas, lo, hi), t) && t.vaddr !in Unmapped(areas, lo, hi)
    ensures !DroppedAreUnmapped(areas, lo, hi)
  {
    assert Tracked(areas, t);
    TrackedInPiece(areas, lo, hi, 0, t);
    UnmappedByOwner(areas, lo, hi, 0, t);
  }

  class MemSet {
    var areas: seq<MemArea>

    constructor (areas: seq<MemArea>)
      ensures this.areas == areas
    {
      this.areas := areas;
    }

    /** Some area overlaps the range. */
    method Overlapping(lo: nat, hi: nat) returns (r: bool)
      ensures r <==> exists i :: 0 <= i < |areas| && areas[i].Overlapping(lo, hi)
    {
      for i := 0 to |areas|
        invariant forall j :: 0 <= j < i ==> !areas[j].Overlapping(lo, hi)
      {
        if areas[i].Overlapping(lo, hi) {
          return true;
        }
      }
      return false;
    }

    /** Subtracts a range from every area; `unmapped` are the pages taken out of the page table. */
    method SubtractArea(lo: nat, hi: nat) returns (unmapped: seq<nat>)
      requires lo <= hi
      modifies this
      ensures areas == SubArea(old(areas), lo, hi)
      ensures unmapped == Unmapped(old(areas), lo, hi)
      ensures forall addr: nat :: Covers(areas, addr) <==> Covers(old(areas), addr) && !(lo <= addr < hi)
      ensures Disjoint(old(areas)) ==> Disjoint(areas)
    {
      var kept, newSet := [], [];
      unmapped := [];
      for i := 0 to |areas|
        invariant areas == old(areas)
        invariant kept == Kept(areas[..i], lo, hi)
        invariant newSet == Splits(areas[..i], lo, hi)
        invariant unmapped == Unmapped(areas[..i], lo, hi)
      {
        assert areas[..i + 1][..i] == areas[..i];
        var cut := Sub(areas[i], lo, hi);
        unmapped := unmapped + cut.unmapped;
        if cut.split.Some? {
          newSet := newSet + [cut.split.value];
        }
        if cut.area.len != 0 {
          kept := kept + [cut.area];
        }
      }
      assert areas[..|areas|] == areas;
      areas := kept + newSet;
      forall addr: nat ensures Covers(areas, addr) <==> Covers(old(areas), addr) && !(lo <= addr < hi) {
        SubAreaCovers(old(areas), lo, hi, addr);
      }
      if Disjoint(old(areas)) {
        SubAreaDisjoint(old(areas), lo, hi);
      }
    }
  }
}
