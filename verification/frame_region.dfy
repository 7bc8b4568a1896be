/** One region of physical memory and the bitmap of its page frames
    (`FrameRegionMap`). A set bit is a frame in use. */
module FrameRegions {
  import opened Common
  import opened BitArray

  /** `p` is the address of a free frame among the first `pages` frames from `start`. */
  ghost predicate FreeFrame(bits: seq<nat>, start: nat, pages: nat, p: nat)
    requires pages <= WORD_BITS * |bits|
  {
    && start <= p < start + pages * PAGE_SIZE
    && (p - start) % PAGE_SIZE == 0
    && !Bit(bits, (p - start) / PAGE_SIZE)
  }

  ghost function FreeSet(bits: seq<nat>, start: nat, pages: nat): set<nat>
    requires pages <= WORD_BITS * |bits|
  {
    set p: nat | start <= p < start + pages * PAGE_SIZE && FreeFrame(bits, start, pages, p)
  }

  /** Frames `k` to `k + n` exist and are all free. */
  ghost predicate FreeRun(bits: seq<nat>, pages: nat, k: nat, n: nat)
    requires pages <= WORD_BITS * |bits|
  {
    k + n <= pages && forall i :: k <= i < k + n ==> !Bit(bits, i)
  }

  /** `n` consecutive frames from address `p` are all in `s`. */
  ghost predicate RunIn(s: set<nat>, p: nat, n: nat) {
    forall j :: 0 <= j < n ==> p + j * PAGE_SIZE in s
  }

  /** A run of free bits and a run of free addresses are the same thing. */
  lemma RunInIsFreeRun(bits: seq<nat>, start: nat, pages: nat, p: nat, n: nat)
    requires pages <= WORD_BITS * |bits| && n > 0
    ensures RunIn(FreeSet(bits, start, pages), p, n)
       <==> start <= p && (p - start) % PAGE_SIZE == 0
            && FreeRun(bits, pages, (p - start) / PAGE_SIZE, n)
  {
    hide Bit;
    var s := FreeSet(bits, start, pages);
    if RunIn(s, p, n) {
      assert p + 0 * PAGE_SIZE in s;
      var k := (p - start) / PAGE_SIZE;
      assert p + (n - 1) * PAGE_SIZE in s;
      forall i | k <= i < k + n ensures !Bit(bits, i) {
        assert p + (i - k) * PAGE_SIZE in s;
        assert p + (i - k) * PAGE_SIZE == start + i * PAGE_SIZE;
        InFreeSet(bits, start, pages, i);
      }
    }
    if start <= p && (p - start) % PAGE_SIZE == 0 && FreeRun(bits, pages, (p - start) / PAGE_SIZE, n) {
      var k := (p - start) / PAGE_SIZE;
      forall j | 0 <= j < n ensures p + j * PAGE_SIZE in s {
        InFreeSet(bits, start, pages, k + j);
      }
    }
  }

  lemma InFreeSet(bits: seq<nat>, start: nat, pages: nat, i: nat)
    requires i < pages <= WORD_BITS * |bits|
    ensures start + i * PAGE_SIZE in FreeSet(bits, start, pages) <==> !Bit(bits, i)
  {
    assert (start + i * PAGE_SIZE - start) / PAGE_SIZE == i;
  }

  /** Setting a bit takes exactly that frame out of the free set; clearing it puts it back. */
  lemma WithBitFreeSet(bits: seq<nat>, start: nat, pages: nat, i: nat, b: bool)
    requires i < pages <= WORD_BITS * |bits|
    ensures FreeSet(WithBit(bits, i, b), start, pages)
         == if b then FreeSet(bits, start, pages) - {start + i * PAGE_SIZE}
            else FreeSet(bits, start, pages) + {start + i * PAGE_SIZE}
  {
    WithBitCorrect(bits, i, b);
    var bits' := WithBit(bits, i, b);
    forall p: nat | start <= p < start + pages * PAGE_SIZE && (p - start) % PAGE_SIZE == 0
      ensures p in FreeSet(bits', start, pages)
          <==> if p == start + i * PAGE_SIZE then !b else p in FreeSet(bits, start, pages)
    {
      assert p == start + (p - start) / PAGE_SIZE * PAGE_SIZE;
    }
  }

  lemma {:induction false} CountIsCardinality(bits: seq<nat>, start: nat, pages: nat)
    requires pages <= WORD_BITS * |bits|
    ensures |FreeSet(bits, start, pages)| == ClearCount(bits, pages)
    decreases pages
  {
    if pages == 0 {
      assert FreeSet(bits, start, 0) == {};
    } else {
      CountIsCardinality(bits, start, pages - 1);
      FreeSetSnoc(bits, start, pages - 1);
      hide FreeSet; hide Bit;
    }
  }

  lemma FreeSetSnoc(bits: seq<nat>, start: nat, n: nat)
    requires n < WORD_BITS * |bits|
    ensures var s, last := FreeSet(bits, start, n), start + n * PAGE_SIZE;
            && last !in s
            && FreeSet(bits, start, n + 1) == if Bit(bits, n) then s else s + {last}
  {
    hide Bit;
    var s, s', last := FreeSet(bits, start, n), FreeSet(bits, start, n + 1), start + n * PAGE_SIZE;
    forall p: nat ensures p in s' <==> if p == last then !Bit(bits, n) else p in s {
      assert p == last ==> (p - start) / PAGE_SIZE == n;
    }
  }

  /** Bits past the last frame are all set, so counting whole words counts the frames. */
  lemma {:induction false} PaddingNotCounted(bits: seq<nat>, pages: nat, n: nat)
    requires pages <= n <= WORD_BITS * |bits|
    requires forall i :: pages <= i < WORD_BITS * |bits| ==> Bit(bits, i)
    ensures ClearCount(bits, n) == ClearCount(bits, pages)
    decreases n
  {
    if n > pages {
      PaddingNotCounted(bits, pages, n - 1);
    }
  }

  lemma {:induction false} RunIsCounted(bits: seq<nat>, pages: nat, k: nat, n: nat, m: nat)
    requires pages <= WORD_BITS * |bits| && FreeRun(bits, pages, k, n) && m <= pages
    ensures m <= k + n ==> ClearCount(bits, m) >= m - k
    ensures m > k + n ==> ClearCount(bits, m) >= n
    decreases m
  {
    if m > 0 {
      RunIsCounted(bits, pages, k, n, m - 1);
    }
  }

  lemma BitOfWord(bits: seq<nat>, w: nat, i: nat)
    requires w < |bits| && i < WORD_BITS
    ensures Bit(bits, WORD_BITS * w + i) == GetBit(bits[w], i)
  {
    hide GetBit;
  }

  method CountWord(bits: seq<nat>, w: nat, before: nat) returns (sum: nat)
    requires w < |bits| && before == ClearCount(bits, WORD_BITS * w)
    ensures sum == ClearCount(bits, WORD_BITS * (w + 1))
  {
    hide Bit; hide GetBit;
    sum := before;
    for i := 0 to WORD_BITS
      invariant sum == ClearCount(bits, WORD_BITS * w + i)
    {
      BitOfWord(bits, w, i);
      sum := sum + if GetBit(bits[w], i) then 0 else 1;
    }
  }

  /** Counts clear bits, taking a zero word as 64 clear bits at once; the result is the
      bit-by-bit count. */
  method CountClearBits(bits: seq<nat>) returns (sum: nat)
    ensures sum == ClearCount(bits, WORD_BITS * |bits|)
  {
    sum := 0;
    for w := 0 to |bits|
      invariant sum == ClearCount(bits, WORD_BITS * w)
    {
      if bits[w] == 0 {
        ZeroWordCount(bits, w, WORD_BITS);
        sum := sum + WORD_BITS;
      } else {
        sum := CountWord(bits, w, sum);
      }
    }
  }

  /** A run needs as many free frames as it is long, so too few free frames rule it out. */
  lemma NoRunWhenScarce(bits: seq<nat>, start: nat, total: nat, n: nat)
    requires total <= WORD_BITS * |bits| && n > |FreeSet(bits, start, total)|
    ensures forall k: nat :: !FreeRun(bits, total, k, n)
  {
    CountIsCardinality(bits, start, total);
    forall k: nat ensures !FreeRun(bits, total, k, n) {
      if FreeRun(bits, total, k, n) {
        RunIsCounted(bits, total, k, n, total);
      }
    }
  }

  /** The sliding-window search: the lowest run of `n` free frames among the first `total`.
      For `n == 0` it stops at the first free frame. */
  method FindRun(bits: seq<nat>, total: nat, n: nat) returns (r: Option<nat>)
    requires total <= WORD_BITS * |bits|
    ensures r.None? && n > 0 ==> forall k: nat :: !FreeRun(bits, total, k, n)
    ensures r.None? && n == 0 ==> forall i :: 0 <= i < total ==> Bit(bits, i)
    ensures r.Some? ==> r.value < total && !Bit(bits, r.value) && FreeRun(bits, total, r.value, n)
    ensures r.Some? && n > 0 ==> forall k: nat :: k < r.value ==> !FreeRun(bits, total, k, n)
  {
    var runStart, runLength := 0, 0;
    for i := 0 to total
      invariant runStart + runLength == i
      invariant if n == 0 then runLength == 0 else runLength < n
      invariant forall j :: runStart <= j < i ==> !Bit(bits, j)
      invariant runStart > 0 ==> Bit(bits, runStart - 1)
      invariant n > 0 ==> forall k: nat :: k + n <= i ==> !FreeRun(bits, total, k, n)
      invariant n == 0 ==> forall j :: 0 <= j < i ==> Bit(bits, j)
    {
      if Bit(bits, i) {
        runStart := i + 1;
        runLength := 0;
      } else {
        runLength := runLength + 1;
        if runLength >= n {
          return Some(runStart);
        }
      }
    }
    return None;
  }

  class FrameRegion {
    var bits: seq<nat>
    const start: nat
    const end: nat

    function Pages(): nat
      requires start <= end
    {
      (end - start) / PAGE_SIZE
    }

    ghost predicate Valid()
      reads this
    {
      && start % PAGE_SIZE == 0 && end % PAGE_SIZE == 0 && start <= end
      && |bits| == DivCeil(Pages(), WORD_BITS)
      && Words(bits)
      && forall i :: Pages() <= i < WORD_BITS * |bits| ==> Bit(bits, i)
    }

    /** The free frames of the region, by physical address. */
    ghost function Free(): (s: set<nat>)
      requires Valid()
      reads this
      ensures forall p :: p in s ==> start <= p < end && p % PAGE_SIZE == 0
    {
      FreeSet(bits, start, Pages())
    }

    constructor (start: nat, end: nat)
      requires start % PAGE_SIZE == 0 && end % PAGE_SIZE == 0 && start <= end
      ensures Valid() && this.start == start && this.end == end
      ensures Free() == set p: nat | start <= p < end && p % PAGE_SIZE == 0
    {
      this.start, this.end := start, end;
      var pages := (end - start) / PAGE_SIZE;
      var words := seq(DivCeil(pages, WORD_BITS), _ => 0);
      forall i | 0 <= i < WORD_BITS * |words| ensures !Bit(words, i) {
        ZeroHasNoBits(i % WORD_BITS);
      }
      for i := pages to |words| * WORD_BITS
        invariant |words| == DivCeil(pages, WORD_BITS)
        invariant Words(words)
        invariant forall j :: 0 <= j < WORD_BITS * |words| ==> Bit(words, j) == (pages <= j < i)
      {
        WithBitCorrect(words, i, true);
        words := WithBit(words, i, true);
      }
      bits := words;
    }

    method GetFreePageCount() returns (sum: nat)
      requires Valid()
      ensures sum == |Free()|
    {
      sum := CountClearBits(bits);
      PaddingNotCounted(bits, Pages(), WORD_BITS * |bits|);
      CountIsCardinality(bits, start, Pages());
    }

    /** Takes the lowest free frame of word `index`, if the word has one. */
    method AllocInPos(index: nat) returns (r: Option<nat>)
      requires Valid() && index < |bits|
      modifies this`bits
      ensures Valid()
      ensures r.None? ==> bits == old(bits)
                          && forall i :: 0 <= i < WORD_BITS ==> GetBit(bits[index], i)
      ensures r.Some? ==> r.value in old(Free()) && Free() == old(Free()) - {r.value}
                          && WORD_BITS * index <= (r.value - start) / PAGE_SIZE
                          && forall i :: WORD_BITS * index <= i < (r.value - start) / PAGE_SIZE ==> old(Bit(bits, i))
    {
      for bitIndex := 0 to WORD_BITS
        invariant bits == old(bits)
        invariant forall i :: 0 <= i < bitIndex ==> GetBit(bits[index], i)
      {
        if !GetBit(bits[index], bitIndex) {
          var i := index * WORD_BITS + bitIndex;
          assert !Bit(bits, i);
          WithBitCorrect(bits, i, true);
          WithBitFreeSet(bits, start, Pages(), i, true);
          InFreeSet(bits, start, Pages(), i);
          bits := WithBit(bits, i, true);
          return Some(start + i * PAGE_SIZE);
        }
      }
      return None;
    }

    /** Takes the lowest free frame of the region; fails exactly when there is none. */
    method Alloc() returns (r: Option<nat>)
      requires Valid()
      modifies this`bits
      ensures Valid()
      ensures r.None? <==> old(Free()) == {}
      ensures r.None? ==> bits == old(bits)
      ensures r.Some? ==> r.value in old(Free()) && Free() == old(Free()) - {r.value}
                          && forall p :: p in old(Free()) ==> r.value <= p
    {
      WordMaxIsPow2();
      for i := 0 to |bits|
        invariant bits == old(bits)
        invariant forall j :: 0 <= j < WORD_BITS * i ==> Bit(bits, j)
      {
        if bits[i] != WORD_MAX {
          var k := ClearBitExists(bits[i], WORD_BITS);
          r := AllocInPos(i);
          return;
        }
        forall j | WORD_BITS * i <= j < WORD_BITS * (i + 1) ensures Bit(bits, j) {
          AllOnesHasEveryBit(WORD_BITS, j % WORD_BITS);
        }
      }
      return None;
    }

    /** Takes the lowest run of `pages` consecutive free frames; for `pages >= 1` fails
        exactly when there is no such run. */
    method AllocMuch(pages: nat) returns (r: Option<seq<nat>>)
      requires Valid()
      modifies this`bits
      ensures Valid()
      ensures r.None? ==> bits == old(bits)
      ensures r.None? && pages > 0 ==> forall p: nat :: !RunIn(old(Free()), p, pages)
      ensures r.None? && pages == 0 ==> old(Free()) == {}
      ensures r.Some? ==> |r.value| == pages && Free() == old(Free()) - SeqSet(r.value)
      ensures r.Some? ==> old(Free()) != {}
      ensures r.Some? ==> forall j :: 0 <= j < pages ==>
                r.value[j] in old(Free()) && r.value[j] == r.value[0] + j * PAGE_SIZE
      ensures r.Some? && pages > 0 ==> forall p: nat :: p < r.value[0] ==> !RunIn(old(Free()), p, pages)
    {
      var total := end / PAGE_SIZE - start / PAGE_SIZE;
      ghost var bits0 := bits;
      if pages > total {
        forall p: nat ensures !RunIn(old(Free()), p, pages) {
          RunInIsFreeRun(bits0, start, total, p, pages);
        }
        return None;
      }
      var freeCount := GetFreePageCount();
      if pages > freeCount {
        NoRunWhenScarce(bits, start, total, pages);
        forall p: nat ensures !RunIn(old(Free()), p, pages) {
          RunInIsFreeRun(bits0, start, total, p, pages);
        }
        return None;
      }
      var first := FindRun(bits, total, pages);
      if first.None? {
        forall p: nat | pages > 0 ensures !RunIn(old(Free()), p, pages) {
          RunInIsFreeRun(bits0, start, total, p, pages);
        }
        return None;
      }
      InFreeSet(bits, start, total, first.value);
      r := MarkRun(first.value, pages);
      forall p: nat | pages > 0 && p < r.value[0] ensures !RunIn(old(Free()), p, pages) {
        RunInIsFreeRun(bits0, start, total, p, pages);
      }
    }

    /** Marks the frames of a free run as used and returns their addresses. */
    method MarkRun(first: nat, pages: nat) returns (r: Option<seq<nat>>)
      requires Valid() && FreeRun(bits, Pages(), first, pages)
      modifies this`bits
      ensures Valid()
      ensures r.Some? && |r.value| == pages
      ensures forall j :: 0 <= j < pages ==> r.value[j] == start + (first + j) * PAGE_SIZE
                                             && r.value[j] in old(Free())
      ensures Free() == old(Free()) - SeqSet(r.value)
    {
      hide FreeSet, Bit, WithBit, Words;
      var ans := [];
      for x := first to first + pages
        invariant Valid()
        invariant |ans| == x - first
        invariant forall j :: 0 <= j < |ans| ==> ans[j] == start + (first + j) * PAGE_SIZE
                                                 && ans[j] in old(Free())
        invariant Free() == old(Free()) - SeqSet(ans)
      {
        InFreeSet(old(bits), start, Pages(), x);
        WithBitCorrect(bits, x, true);
        WithBitFreeSet(bits, start, Pages(), x, true);
        bits := WithBit(bits, x, true);
        var frame := (start / PAGE_SIZE + x) * PAGE_SIZE;
        assert SeqSet(ans + [frame]) == SeqSet(ans) + {frame};
        ans := ans + [frame];
      }
      return Some(ans);
    }

    /** Marks the frame that holds `paddr` as free. */
    method Dealloc(paddr: nat)
      requires Valid() && start <= paddr < end
      modifies this`bits
      ensures Valid()
      ensures Free() == old(Free()) + {PageAlignDown(paddr)}
    {
      var i := paddr / PAGE_SIZE - start / PAGE_SIZE;
      WithBitCorrect(bits, i, false);
      WithBitFreeSet(bits, start, Pages(), i, false);
      assert start + i * PAGE_SIZE == PageAlignDown(paddr);
      bits := WithBit(bits, i, false);
    }
  }
}
