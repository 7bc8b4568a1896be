/** Machine words as numbers, and the bit-array view of a vector of words that
    the frame bitmap relies on. */
module BitArray {

  const WORD_BITS: nat := 64
  const WORD_MAX: nat := 0xFFFF_FFFF_FFFF_FFFF

  function Pow2(n: nat): (p: nat)
    ensures p >= 1
  {
    if n == 0 then 1 else 2 * Pow2(n - 1)
  }

  /** Bit `i` of the word `x`, least significant bit first. */
  function GetBit(x: nat, i: nat): bool
    decreases i
  {
    if i == 0 then x % 2 == 1 else GetBit(x / 2, i - 1)
  }

  /** The word `x` with bit `i` replaced by `b`. */
  function SetBit(x: nat, i: nat, b: bool): nat
    decreases i
  {
    if i == 0 then x / 2 * 2 + (if b then 1 else 0) else 2 * SetBit(x / 2, i - 1, b) + x % 2
  }

  lemma {:induction false} GetSetBit(x: nat, i: nat, b: bool, j: nat)
    ensures GetBit(SetBit(x, i, b), j) == if i == j then b else GetBit(x, j)
    decreases i
  {
    if i > 0 && j > 0 {
      GetSetBit(x / 2, i - 1, b, j - 1);
    }
  }

  lemma {:induction false} SetBitFits(x: nat, i: nat, b: bool, n: nat)
    requires x < Pow2(n) && i < n
    ensures SetBit(x, i, b) < Pow2(n)
    decreases i
  {
    var half := Pow2(n - 1);
    assert Pow2(n) == 2 * half;
    if i > 0 {
      assert x / 2 < half;
      SetBitFits(x / 2, i - 1, b, n - 1);
    }
  }

  lemma {:induction false} ZeroHasNoBits(i: nat)
    ensures !GetBit(0, i)
    decreases i
  {
    if i > 0 {
      ZeroHasNoBits(i - 1);
    }
  }

  lemma {:induction false} AllOnesHasEveryBit(n: nat, i: nat)
    requires i < n
    ensures GetBit(Pow2(n) - 1, i)
    decreases n
  {
    assert Pow2(n) == 2 * Pow2(n - 1);
    if i > 0 {
      AllOnesHasEveryBit(n - 1, i - 1);
    }
  }

  /** An `n`-bit word other than the all-ones word has a clear bit. */
  lemma {:induction false} ClearBitExists(x: nat, n: nat) returns (i: nat)
    requires x < Pow2(n) - 1
    ensures i < n && !GetBit(x, i)
    decreases n
  {
    assert Pow2(n) == 2 * Pow2(n - 1);
    if x % 2 == 0 {
      i := 0;
    } else {
      i := ClearBitExists(x / 2, n - 1);
      i := i + 1;
    }
  }

  /** Eight doublings at a time. */
  lemma Pow2Eight(n: nat, p: nat)
    requires Pow2(n) == p
    ensures Pow2(n + 8) == 256 * p
  {
    assert Pow2(n + 2) == 4 * p;
    assert Pow2(n + 4) == 16 * p;
    assert Pow2(n + 6) == 64 * p;
  }

  lemma WordMaxIsPow2()
    ensures Pow2(WORD_BITS) - 1 == WORD_MAX
  {
    Pow2Eight(0, 1);
    Pow2Eight(8, 0x100);
    Pow2Eight(16, 0x1_0000);
    Pow2Eight(24, 0x100_0000);
    Pow2Eight(32, 0x1_0000_0000);
    Pow2Eight(40, 0x100_0000_0000);
    Pow2Eight(48, 0x1_0000_0000_0000);
    Pow2Eight(56, 0x100_0000_0000_0000);
  }

  /** Every element is a 64-bit word. */
  ghost predicate Words(bits: seq<nat>) {
    forall k :: 0 <= k < |bits| ==> bits[k] <= WORD_MAX
  }

  /** Bit `i` of a vector of words. */
  predicate Bit(bits: seq<nat>, i: nat)
    requires i < WORD_BITS * |bits|
  {
    GetBit(bits[i / WORD_BITS], i % WORD_BITS)
  }

  function WithBit(bits: seq<nat>, i: nat, b: bool): (r: seq<nat>)
    requires i < WORD_BITS * |bits|
    ensures |r| == |bits|
  {
    bits[i / WORD_BITS := SetBit(bits[i / WORD_BITS], i % WORD_BITS, b)]
  }

  /** Writing one bit of the vector changes that bit, no other, and keeps words in range. */
  lemma WithBitCorrect(bits: seq<nat>, i: nat, b: bool)
    requires i < WORD_BITS * |bits|
    ensures forall j :: 0 <= j < WORD_BITS * |bits| ==>
              Bit(WithBit(bits, i, b), j) == if i == j then b else Bit(bits, j)
    ensures Words(bits) ==> Words(WithBit(bits, i, b))
  {
    forall j | 0 <= j < WORD_BITS * |bits|
      ensures Bit(WithBit(bits, i, b), j) == if i == j then b else Bit(bits, j)
    {
      GetSetBit(bits[i / WORD_BITS], i % WORD_BITS, b, j % WORD_BITS);
    }
    if Words(bits) {
      WordMaxIsPow2();
      SetBitFits(bits[i / WORD_BITS], i % WORD_BITS, b, WORD_BITS);
    }
  }

  /** The number of clear bits among the first `n` bits, counted one at a time. */
  ghost function ClearCount(bits: seq<nat>, n: nat): (c: nat)
    requires n <= WORD_BITS * |bits|
    ensures c <= n
  {
    if n == 0 then 0 else ClearCount(bits, n - 1) + if Bit(bits, n - 1) then 0 else 1
  }

  /** A zero word contributes all its bits, so it can be counted without looking at them. */
  lemma {:induction false} ZeroWordCount(bits: seq<nat>, w: nat, k: nat)
    requires w < |bits| && bits[w] == 0 && k <= WORD_BITS
    ensures ClearCount(bits, WORD_BITS * w + k) == ClearCount(bits, WORD_BITS * w) + k
    decreases k
  {
    if k > 0 {
      ZeroWordCount(bits, w, k - 1);
      ZeroHasNoBits(k - 1);
      assert !Bit(bits, WORD_BITS * w + k - 1);
    }
  }
}
