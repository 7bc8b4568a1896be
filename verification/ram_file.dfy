/** A file of the RAM file system: a list of pages and a length (`RamFile`), which must behave
    as one flat sequence of bytes. */
module RamFiles {
  import opened Common
  import opened ByteStrings

  datatype WriteResult = Wrote(n: nat) | NoSpace

  // ---------- the flat file ----------

  /** Writing into a flat file; a gap before the data reads as zero. */
  function Write(c: seq<Byte>, off: nat, data: seq<Byte>): seq<Byte> {
    (if off <= |c| then c[..off] else c + Zeros(off - |c|))
    + data
    + (if off + |data| < |c| then c[off + |data|..] else [])
  }

  /** Cutting a flat file, or extending it with zeros. */
  function Resize(c: seq<Byte>, size: nat): seq<Byte> {
    if size <= |c| then c[..size] else c + Zeros(size - |c|)
  }

  /** What a read of at most `n` bytes returns. */
  function Read(c: seq<Byte>, off: nat, n: nat): seq<Byte> {
    if off >= |c| then [] else c[off..off + Min(n, |c| - off)]
  }

  // ---------- pages as bytes ----------

  /** The bytes of the pages, one page after the other. */
  function Flat(pages: seq<PageBytes>): (s: seq<Byte>)
    ensures |s| == |pages| * PAGE_SIZE
  {
    if pages == [] then [] else Flat(pages[..|pages| - 1]) + pages[|pages| - 1]
  }

  lemma {:induction false} FlatAt(pages: seq<PageBytes>, i: nat)
    requires i < |pages|
    ensures Flat(pages)[i * PAGE_SIZE..i * PAGE_SIZE + PAGE_SIZE] == pages[i]
    decreases |pages|
  {
    var n := |pages| - 1;
    if i < n {
      FlatAt(pages[..n], i);
      assert Flat(pages)[i * PAGE_SIZE..i * PAGE_SIZE + PAGE_SIZE]
          == Flat(pages[..n])[i * PAGE_SIZE..i * PAGE_SIZE + PAGE_SIZE];
    }
  }

  /** Part of a page is part of the flat bytes. */
  lemma FlatSlice(pages: seq<PageBytes>, i: nat, a: nat, n: nat, off: nat)
    requires i < |pages| && a + n <= PAGE_SIZE && off == i * PAGE_SIZE + a
    ensures off + n <= |Flat(pages)| && Flat(pages)[off..off + n] == pages[i][a..a + n]
  {
    hide Flat;
    var s, lo, page: seq<Byte> := Flat(pages), i * PAGE_SIZE, pages[i];
    assert lo + |page| <= |s| && s[lo..lo + |page|] == page by {
      FlatAt(pages, i);
    }
    PartSlice(s, lo, page, a, a + n);
  }

  lemma PartSlice(s: seq<Byte>, lo: nat, part: seq<Byte>, a: nat, b: nat)
    requires lo + |part| <= |s| && s[lo..lo + |part|] == part && a <= b <= |part|
    ensures s[lo + a..lo + b] == part[a..b]
  {
    SliceOfSlice(s, lo, lo + |part|, a, b);
  }

  lemma SliceAppend(s: seq<Byte>, a: nat, b: nat, c: nat)
    requires a <= b <= c <= |s|
    ensures s[a..c] == s[a..b] + s[b..c]
  {
  }

  lemma SliceOfSlice(s: seq<Byte>, lo: nat, hi: nat, a: nat, b: nat)
    requires lo <= hi <= |s| && a <= b <= hi - lo
    ensures s[lo..hi][a..b] == s[lo + a..lo + b]
  {
    var t := s[lo..hi];
    forall i | 0 <= i < b - a ensures t[a..b][i] == s[lo + a..lo + b][i] {
      assert t[a + i] == s[lo + (a + i)];
    }
  }

  /** Replaces the bytes at `off`. */
  function Overlay(s: seq<Byte>, off: nat, data: seq<Byte>): (r: seq<Byte>)
    requires off + |data| <= |s|
    ensures |r| == |s|
  {
    s[..off] + data + s[off + |data|..]
  }

  lemma {:induction false} FlatReplace(pages: seq<PageBytes>, i: nat, page: PageBytes)
    requires i < |pages|
    ensures Flat(pages[i := page]) == Overlay(Flat(pages), i * PAGE_SIZE, page)
    decreases |pages|
  {
    var n := |pages| - 1;
    var pages' := pages[i := page];
    if i < n {
      FlatReplace(pages[..n], i, page);
      assert pages'[..n] == pages[..n][i := page];
      assert Overlay(Flat(pages), i * PAGE_SIZE, page) == Overlay(Flat(pages[..n]), i * PAGE_SIZE, page) + pages[n];
    } else {
      assert pages'[..n] == pages[..n];
    }
  }

  lemma OverlayInPage(pages: seq<PageBytes>, i: nat, a: nat, data: seq<Byte>)
    requires i < |pages| && a + |data| <= PAGE_SIZE
    ensures Flat(pages[i := Overlay(pages[i], a, data)]) == Overlay(Flat(pages), i * PAGE_SIZE + a, data)
  {
    FlatReplace(pages, i, Overlay(pages[i], a, data));
    FlatAt(pages, i);
    hide Flat;
    OverlayNested(Flat(pages), i * PAGE_SIZE, pages[i], a, data);
  }

  lemma OverlayNested(s: seq<Byte>, off: nat, part: seq<Byte>, a: nat, data: seq<Byte>)
    requires off + |part| <= |s| && a + |data| <= |part| && s[off..off + |part|] == part
    ensures Overlay(s, off, Overlay(part, a, data)) == Overlay(s, off + a, data)
  {
    var l, r := Overlay(s, off, Overlay(part, a, data)), Overlay(s, off + a, data);
    forall j | 0 <= j < |s| ensures l[j] == r[j] {
      if off <= j < off + |part| {
        assert s[off..off + |part|][j - off] == s[j];
      }
    }
  }

  lemma OverlayNext(s: seq<Byte>, off: nat, a: seq<Byte>, b: seq<Byte>)
    requires off + |a| + |b| <= |s|
    ensures Overlay(Overlay(s, off, a), off + |a|, b) == Overlay(s, off, a + b)
  {
  }

  lemma FlatPush(pages: seq<PageBytes>, page: PageBytes)
    ensures Flat(pages + [page]) == Flat(pages) + page
  {
    assert (pages + [page])[..|pages|] == pages;
  }

  /** From `len` on everything is zero. */
  ghost predicate ZeroFrom(s: seq<Byte>, len: nat) {
    forall i :: len <= i < |s| ==> s[i] == 0
  }

  /** Writing over zeros past the end is writing into the flat file. */
  lemma OverlayIsWrite(s: seq<Byte>, len: nat, off: nat, data: seq<Byte>)
    requires ZeroFrom(s, len) && len <= |s| && off + |data| <= |s|
    ensures Overlay(s, off, data)[..Max(len, off + |data|)] == Write(s[..len], off, data)
    ensures ZeroFrom(Overlay(s, off, data), Max(len, off + |data|))
  {
    var w := Overlay(s, off, data)[..Max(len, off + |data|)];
    var spec := Write(s[..len], off, data);
    assert |w| == |spec|;
    forall i | 0 <= i < |w| ensures w[i] == spec[i] {
    }
  }

  /** The file's bytes from `len` on are zero and the pages hold the length. */
  ghost predicate Sound(pages: seq<PageBytes>, len: nat) {
    len <= |pages| * PAGE_SIZE && ZeroFrom(Flat(pages), len)
  }

  /** The pages added to hold `size` bytes, with `frames` frames left in the allocator. */
  function Added(pages: nat, size: nat, frames: nat): nat {
    var target := DivCeil(size, PAGE_SIZE);
    if target <= pages then 0 else Min(target - pages, frames)
  }

  /** A write cannot reach its offset: some frames are left, but too few to get there. */
  predicate Starved(pages: nat, offset: nat, frames: nat) {
    0 < frames && (pages + frames) * PAGE_SIZE < offset
  }

  class RamFile {
    var pages: seq<PageBytes>
    var len: nat

    ghost predicate Valid()
      reads this
    {
      Sound(pages, len)
    }

    /** The file as a flat sequence of bytes. */
    ghost function Contents(): seq<Byte>
      requires Valid()
      reads this
    {
      Flat(pages)[..len]
    }

    constructor ()
      ensures Valid() && Contents() == [] && pages == []
    {
      pages, len := [], 0;
    }

    /** Copies `n` bytes at `offset` page by page. */
    method CopyOut(offset: nat, buffer: array<Byte>, n: nat)
      requires offset + n <= |pages| * PAGE_SIZE && n <= buffer.Length
      modifies buffer
      ensures buffer[..n] == Flat(pages)[offset..offset + n]
      ensures buffer[n..] == old(buffer[n..])
    {
      hide Flat;
      var off, left, done := offset, n, 0;
      while true
        invariant 0 <= left <= n && off == offset + done && done + left == n
        invariant buffer[..done] == Flat(pages)[offset..offset + done]
        invariant buffer[n..] == old(buffer[n..])
        decreases left
      {
        var size := Min(PAGE_SIZE - off % PAGE_SIZE, left);
        if size == 0 {
          break;
        }
        var i, a := off / PAGE_SIZE, off % PAGE_SIZE;
        FlatSlice(pages, i, a, size, off);
        SliceAppend(Flat(pages), offset, off, off + size);
        PutBytes(buffer, done, pages[i][a..a + size]);
        assert buffer[..done + size] == buffer[..done] + buffer[done..done + size];
        assert buffer[n..] == buffer[done + size..][n - done - size..];
        off, left, done := off + size, left - size, done + size;
      }
    }

    /** `readat`: fills the buffer with the bytes at `offset`, as many as the file has. */
    method ReadAt(offset: nat, buffer: array<Byte>) returns (n: nat)
      requires Valid()
      modifies buffer
      ensures n == |Read(Contents(), offset, buffer.Length)| <= buffer.Length
      ensures buffer[..n] == Read(Contents(), offset, buffer.Length)
      ensures buffer[n..] == old(buffer[n..])
    {
      hide Flat;
      if offset >= len {
        return 0;
      }
      n := Min(buffer.Length, len - offset);
      CopyOut(offset, buffer, n);
      SliceOfSlice(Flat(pages), 0, len, offset, offset + n);
    }

    /** Adds zero pages until there are `target`, as long as the allocator has `frames`. */
    method Grow(target: nat, frames: nat) returns (added: nat)
      modifies this`pages
      ensures added == if target <= |old(pages)| then 0 else Min(target - |old(pages)|, frames)
      ensures |pages| == |old(pages)| + added && pages[..|old(pages)|] == old(pages)
      ensures Flat(pages) == Flat(old(pages)) + Zeros(added * PAGE_SIZE)
    {
      hide Flat;
      added := 0;
      for i := |pages| to Max(|pages|, target)
        invariant |pages| == |old(pages)| + added == i && added <= frames
        invariant pages[..|old(pages)|] == old(pages)
        invariant Flat(pages) == Flat(old(pages)) + Zeros(added * PAGE_SIZE)
      {
        if added == frames {
          break;
        }
        FlatPush(pages, Zeros(PAGE_SIZE));
        pages := pages + [Zeros(PAGE_SIZE)];
        assert Zeros((added + 1) * PAGE_SIZE) == Zeros(added * PAGE_SIZE) + Zeros(PAGE_SIZE);
        added := added + 1;
      }
    }

    /** Copies `data` to `offset` page by page. */
    method Put(offset: nat, data: seq<Byte>)
      requires offset + |data| <= |pages| * PAGE_SIZE
      modifies this`pages
      ensures |pages| == |old(pages)|
      ensures Flat(pages) == Overlay(Flat(old(pages)), offset, data)
    {
      hide Flat;
      var off, left, done := offset, |data|, 0;
      assert Overlay(Flat(pages), offset, data[..0]) == Flat(pages);
      while true
        invariant 0 <= left && off == offset + done && done + left == |data| && |pages| == |old(pages)|
        invariant Flat(pages) == Overlay(Flat(old(pages)), offset, data[..done])
        decreases left
      {
        var size := Min(PAGE_SIZE - off % PAGE_SIZE, left);
        if size == 0 {
          break;
        }
        var i, a := off / PAGE_SIZE, off % PAGE_SIZE;
        var chunk := data[done..done + size];
        OverlayInPage(pages, i, a, chunk);
        OverlayNext(Flat(old(pages)), offset, data[..done], chunk);
        assert data[..done] + chunk == data[..done + size];
        pages := pages[i := Overlay(pages[i], a, chunk)];
        off, left, done := off + size, left - size, done + size;
      }
      assert data[..done] == data;
    }

    /** `writeat`, with `frames` frames left in the allocator. It fails exactly when it needs
        pages and there are none, and then changes nothing. Otherwise it writes as much as
        fits, and the file stays sound exactly when the write is not starved. */
    method WriteAt(offset: nat, buffer: seq<Byte>, frames: nat) returns (r: WriteResult)
      requires Valid()
      modifies this
      ensures r.NoSpace? <==> frames == 0 && DivCeil(offset + |buffer|, PAGE_SIZE) > |old(pages)|
      ensures r.NoSpace? ==> pages == old(pages) && len == old(len)
      ensures Valid() <==> !Starved(|old(pages)|, offset, frames)
      ensures |pages| == |old(pages)| + Added(|old(pages)|, offset + |buffer|, frames)
      ensures r.Wrote? ==> r.n == Min(|buffer|, if offset < |pages| * PAGE_SIZE
              then |pages| * PAGE_SIZE - offset else 0)
      ensures r.Wrote? && !Starved(|old(pages)|, offset, frames) ==>
                Contents() == Write(old(Contents()), offset, buffer[..r.n])
    {
      var target := DivCeil(offset + |buffer|, PAGE_SIZE);
      var added := Grow(target, frames);
      if added == 0 && target > |pages| {
        assert pages == old(pages);
        return NoSpace;
      }
      GrowSound(old(pages), pages, len);
      var space := |pages| * PAGE_SIZE;
      var n := Min(|buffer|, if offset < space then space - offset else 0);
      ghost var grown := pages;
      if offset <= space {
        Put(offset, buffer[..n]);
        OverlayIsWrite(Flat(grown), len, offset, buffer[..n]);
      }
      if offset + n > len {
        len := offset + n;
      }
      return Wrote(n);
    }

    /** Clears every byte from `size` on: whole pages, then the tail of the last one. */
    method ClearBeyond(size: nat)
      modifies this`pages
      ensures |pages| == |old(pages)| && Flat(pages) == ClearFrom(Flat(old(pages)), size)
    {
      hide Flat; hide ClearFrom;
      ghost var s := Flat(pages);
      var target := DivCeil(size, PAGE_SIZE);
      ClearNothing(s, |pages| * PAGE_SIZE);
      for i := |pages| downto Min(target, |pages|)
        invariant |pages| == |old(pages)| && Flat(pages) == ClearFrom(s, i * PAGE_SIZE)
      {
        ClearPage(pages, i, s);
        pages := pages[i := Zeros(PAGE_SIZE)];
      }
      var i, a := size / PAGE_SIZE, size % PAGE_SIZE;
      if a != 0 && i < |pages| {
        assert Min(target, |pages|) == i + 1;
        ClearTail(pages, i, a, s);
        pages := pages[i := Overlay(pages[i], a, Zeros(PAGE_SIZE - a))];
      } else {
        ClearDone(s, size, |pages|);
      }
    }

    /** `truncate`, with `frames` frames left in the allocator. The length is set before the
        pages are there, so the file is sound afterwards exactly when the call succeeds. */
    method Truncate(size: nat, frames: nat) returns (ok: bool)
      requires Valid()
      modifies this
      ensures ok <==> DivCeil(size, PAGE_SIZE) <= |old(pages)| + frames
      ensures len == size && |pages| == |old(pages)| + Added(|old(pages)|, size, frames)
      ensures Valid() <==> ok
      ensures ok ==> Contents() == Resize(old(Contents()), size)
    {
      hide Flat;
      len := size;
      var target := DivCeil(size, PAGE_SIZE);
      ClearBeyond(size);
      var added := Grow(target, frames);
      ok := |pages| >= target;
      if ok {
        ClearIsResize(Flat(old(pages)), old(len), size, added * PAGE_SIZE);
      }
    }

    /** One operation. Its result and the contents afterwards are the flat file's, and the file
        is sound afterwards, exactly when frames suffice. */
    method Step(op: FileOp) returns (r: FileResult)
      requires Valid()
      modifies this
      ensures |pages| == PagesAfter(op, |old(pages)|)
      ensures Valid() <==> !Broken(op, |old(pages)|)
      ensures Valid() ==> r == FlatResult(op, old(Contents()), |old(pages)|)
      ensures Valid() ==> Contents() == FlatAfter(op, old(Contents()), |old(pages)|)
    {
      hide Flat; hide Write; hide Resize; hide Read; hide ZeroFrom;
      match op {
        case ReadOp(off, n) =>
          var buffer := new Byte[n];
          var got := ReadAt(off, buffer);
          r := Bytes(buffer[..got]);
        case WriteOp(off, data, frames) =>
          var w := WriteAt(off, data, frames);
          r := if w.Wrote? then Count(w.n) else Failed;
        case TruncateOp(size, frames) =>
          var ok := Truncate(size, frames);
          r := if ok then Done else Failed;
      }
    }

    /** Every run of reads, writes and truncations, up to the first that breaks the file, has the
        results and the contents of the same run on a flat file. */
    method Run(ops: seq<FileOp>) returns (results: seq<FileResult>)
      requires Valid()
      modifies this
      ensures Valid() <==> NoneBreaks(ops, |old(pages)|)
      ensures Valid() ==> |results| == |ops| && Contents() == FlatRun(ops, old(Contents()), |old(pages)|)
      ensures FlatResults(ops, results, old(Contents()), |old(pages)|)
      ensures NoneBreaks(ops[..|results|], |old(pages)|)
      ensures |results| < |ops| ==> Broken(ops[|results|], PageCount(ops[..|results|], |old(pages)|))
    {
      hide Flat; hide ZeroFrom; hide FlatResult; hide FlatAfter; hide Broken; hide PagesAfter;
      results := [];
      ghost var c, start := Contents(), |pages|;
      for i := 0 to |ops|
        invariant Valid() && |results| == i && |pages| == PageCount(ops[..i], start)
        invariant Contents() == FlatRun(ops[..i], c, start)
        invariant NoneBreaks(ops[..i], start)
        invariant FlatResults(ops, results, c, start)
      {
        RunNext(ops, i, c, start);
        var breaks := Broken(ops[i], |pages|);
        var r := Step(ops[i]);
        if breaks {
          return;
        }
        ResultsNext(ops, results, c, start, r);
        results := results + [r];
      }
      assert ops[..|ops|] == ops;
    }
  }

  datatype FileOp =
    | ReadOp(offset: nat, n: nat)
    | WriteOp(offset: nat, data: seq<Byte>, frames: nat)
    | TruncateOp(size: nat, frames: nat)

  datatype FileResult = Bytes(data: seq<Byte>) | Count(n: nat) | Done | Failed

  // ---------- the same operations on a flat file ----------

  function PagesAfter(op: FileOp, pages: nat): nat {
    match op
    case ReadOp(_, _) => pages
    case WriteOp(off, data, frames) => pages + Added(pages, off + |data|, frames)
    case TruncateOp(size, frames) => pages + Added(pages, size, frames)
  }

  /** The frames run out before the offset of a write, or before the size of a truncation. */
  predicate Broken(op: FileOp, pages: nat) {
    match op
    case ReadOp(_, _) => false
    case WriteOp(off, _, frames) => Starved(pages, off, frames)
    case TruncateOp(size, frames) => DivCeil(size, PAGE_SIZE) > pages + frames
  }

  /** How much of a write fits the pages there are and those that can be added. */
  function Fitting(off: nat, data: seq<Byte>, frames: nat, pages: nat): nat {
    var space := (pages + Added(pages, off + |data|, frames)) * PAGE_SIZE;
    Min(|data|, if off < space then space - off else 0)
  }

  /** A write that needs pages fails when there are none. */
  predicate NoRoom(off: nat, data: seq<Byte>, frames: nat, pages: nat) {
    frames == 0 && DivCeil(off + |data|, PAGE_SIZE) > pages
  }

  function FlatResult(op: FileOp, c: seq<Byte>, pages: nat): FileResult {
    match op
    case ReadOp(off, n) => Bytes(Read(c, off, n))
    case WriteOp(off, data, frames) =>
      if NoRoom(off, data, frames, pages) then Failed else Count(Fitting(off, data, frames, pages))
    case TruncateOp(size, frames) => if DivCeil(size, PAGE_SIZE) > pages + frames then Failed else Done
  }

  function FlatAfter(op: FileOp, c: seq<Byte>, pages: nat): seq<Byte> {
    match op
    case ReadOp(_, _) => c
    case WriteOp(off, data, frames) =>
      if NoRoom(off, data, frames, pages) then c else Write(c, off, data[..Fitting(off, data, frames, pages)])
    case TruncateOp(size, _) => Resize(c, size)
  }

  function PageCount(ops: seq<FileOp>, pages: nat): nat {
    if ops == [] then pages else PagesAfter(ops[|ops| - 1], PageCount(ops[..|ops| - 1], pages))
  }

  function FlatRun(ops: seq<FileOp>, c: seq<Byte>, pages: nat): seq<Byte> {
    if ops == [] then c
    else
      var front := ops[..|ops| - 1];
      FlatAfter(ops[|ops| - 1], FlatRun(front, c, pages), PageCount(front, pages))
  }

  /** No operation of the run breaks the file. */
  predicate NoneBreaks(ops: seq<FileOp>, pages: nat) {
    forall i :: 0 <= i < |ops| ==> !Broken(ops[i], PageCount(ops[..i], pages))
  }

  /** The results are those of the flat file. */
  predicate FlatResults(ops: seq<FileOp>, results: seq<FileResult>, c: seq<Byte>, pages: nat) {
    && |results| <= |ops|
    && forall i :: 0 <= i < |results| ==>
         results[i] == FlatResult(ops[i], FlatRun(ops[..i], c, pages), PageCount(ops[..i], pages))
  }

  lemma RunNext(ops: seq<FileOp>, n: nat, c: seq<Byte>, pages: nat)
    requires n < |ops| && NoneBreaks(ops[..n], pages)
    ensures PageCount(ops[..n + 1], pages) == PagesAfter(ops[n], PageCount(ops[..n], pages))
    ensures FlatRun(ops[..n + 1], c, pages)
            == FlatAfter(ops[n], FlatRun(ops[..n], c, pages), PageCount(ops[..n], pages))
    ensures NoneBreaks(ops[..n + 1], pages) <==> !Broken(ops[n], PageCount(ops[..n], pages))
    ensures Broken(ops[n], PageCount(ops[..n], pages)) ==> !NoneBreaks(ops, pages)
  {
    hide Broken; hide FlatAfter; hide PagesAfter;
    var front := ops[..n + 1];
    assert front[..n] == ops[..n];
    if !Broken(ops[n], PageCount(ops[..n], pages)) {
      forall i | 0 <= i < n + 1 ensures !Broken(front[i], PageCount(front[..i], pages)) {
        assert front[..i] == ops[..n][..i] || i == n;
        assert i < n ==> !Broken(ops[..n][i], PageCount(ops[..n][..i], pages));
      }
    }
  }

  lemma ResultsNext(ops: seq<FileOp>, results: seq<FileResult>, c: seq<Byte>, pages: nat, r: FileResult)
    requires FlatResults(ops, results, c, pages) && |results| < |ops|
    requires r == FlatResult(ops[|results|], FlatRun(ops[..|results|], c, pages), PageCount(ops[..|results|], pages))
    ensures FlatResults(ops, results + [r], c, pages)
  {
    hide FlatResult, FlatRun, PageCount;
  }

  /** A write past the end for which one frame is left and two are needed: nothing is written,
      and the length lies beyond the pages. */
  method WriteBreaks() returns (f: RamFile, r: WriteResult)
    ensures !f.Valid() && r == Wrote(0) && |f.pages| == 1
  {
    f := new RamFile();
    r := f.WriteAt(5000, [1, 2, 3], 1);
  }

  /** A truncation to two pages with one frame left fails, and the length lies beyond the pages. */
  method TruncateBreaks() returns (f: RamFile, ok: bool)
    ensures !f.Valid() && !ok && f.len == 5000 && |f.pages| == 1
  {
    f := new RamFile();
    ok := f.Truncate(5000, 1);
  }

  /** The bytes with everything from `size` on cleared. */
  function ClearFrom(s: seq<Byte>, size: nat): (r: seq<Byte>)
    ensures |r| == |s|
  {
    if size >= |s| then s else s[..size] + Zeros(|s| - size)
  }

  lemma ClearNothing(s: seq<Byte>, size: nat)
    requires size >= |s|
    ensures ClearFrom(s, size) == s
  {
  }

  lemma ClearDone(s: seq<Byte>, size: nat, pages: nat)
    requires |s| == pages * PAGE_SIZE && (size % PAGE_SIZE == 0 || size / PAGE_SIZE >= pages)
    ensures ClearFrom(s, Min(DivCeil(size, PAGE_SIZE), pages) * PAGE_SIZE) == ClearFrom(s, size)
  {
  }

  lemma ClearPage(pages: seq<PageBytes>, i: nat, s: seq<Byte>)
    requires i < |pages| && |s| == |pages| * PAGE_SIZE && Flat(pages) == ClearFrom(s, (i + 1) * PAGE_SIZE)
    ensures Flat(pages[i := Zeros(PAGE_SIZE)]) == ClearFrom(s, i * PAGE_SIZE)
  {
    FlatReplace(pages, i, Zeros(PAGE_SIZE));
    hide Flat;
  }

  lemma ClearIsResize(s: seq<Byte>, len: nat, size: nat, n: nat)
    requires ZeroFrom(s, len) && len <= |s| && size <= |s| + n
    ensures (ClearFrom(s, size) + Zeros(n))[..size] == Resize(s[..len], size)
    ensures ZeroFrom(ClearFrom(s, size) + Zeros(n), size)
  {
    var w := (ClearFrom(s, size) + Zeros(n))[..size];
    var spec := Resize(s[..len], size);
    forall i | 0 <= i < size ensures w[i] == spec[i] {
    }
  }

  /** Clearing the tail of one page, when everything after it is zero already. */
  lemma ClearTail(pages: seq<PageBytes>, i: nat, a: nat, s: seq<Byte>)
    requires i < |pages| && 0 < a < PAGE_SIZE && |s| == |pages| * PAGE_SIZE
    requires Flat(pages) == ClearFrom(s, (i + 1) * PAGE_SIZE)
    ensures Flat(pages[i := Overlay(pages[i], a, Zeros(PAGE_SIZE - a))]) == ClearFrom(s, i * PAGE_SIZE + a)
  {
    OverlayInPage(pages, i, a, Zeros(PAGE_SIZE - a));
    hide Flat;
    var l := Overlay(Flat(pages), i * PAGE_SIZE + a, Zeros(PAGE_SIZE - a));
    var r := ClearFrom(s, i * PAGE_SIZE + a);
    forall j | 0 <= j < |s| ensures l[j] == r[j] {
    }
  }

  lemma GrowSound(before: seq<PageBytes>, after: seq<PageBytes>, len: nat)
    requires Sound(before, len) && |after| >= |before|
    requires Flat(after) == Flat(before) + Zeros((|after| - |before|) * PAGE_SIZE)
    ensures Sound(after, len) && Flat(after)[..len] == Flat(before)[..len]
  {
    hide Flat;
  }
}
