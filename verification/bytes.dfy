/** Byte strings: machine words, C strings and copies into a buffer. */
module ByteStrings {
  import opened Common

  function LittleEndian(n: nat, k: nat): (s: seq<Byte>)
    ensures |s| == k
  {
    if k == 0 then [] else [n % 256] + LittleEndian(n / 256, k - 1)
  }

  function FromLittleEndian(s: seq<Byte>): nat {
    if s == [] then 0 else s[0] + 256 * FromLittleEndian(s[1..])
  }

  function Pow256(k: nat): nat {
    if k == 0 then 1 else 256 * Pow256(k - 1)
  }

  lemma {:induction false} WordRoundTrip(n: nat, k: nat)
    requires n < Pow256(k)
    ensures FromLittleEndian(LittleEndian(n, k)) == n
    decreases k
  {
    if k > 0 {
      WordRoundTrip(n / 256, k - 1);
      assert LittleEndian(n, k)[1..] == LittleEndian(n / 256, k - 1);
    }
  }

  /** The place value of a byte: the lowest comes first. */
  lemma {:induction false} PlaceValue(b: Byte, i: nat, k: nat)
    ensures FromLittleEndian(Zeros(i) + [b] + Zeros(k)) == b * Pow256(i)
    decreases i
  {
    var s := Zeros(i) + [b] + Zeros(k);
    if i == 0 {
      assert s[1..] == Zeros(k);
      ZeroValue(k);
    } else {
      PlaceValue(b, i - 1, k);
      assert s[1..] == Zeros(i - 1) + [b] + Zeros(k);
      var p := Pow256(i - 1);
      assert 256 * (b * p) == b * (256 * p);
    }
  }

  lemma {:induction false} ZeroValue(k: nat)
    ensures FromLittleEndian(Zeros(k)) == 0
    decreases k
  {
    if k > 0 {
      ZeroValue(k - 1);
      assert Zeros(k)[1..] == Zeros(k - 1);
    }
  }

  /** A C string: the bytes before the first NUL. */
  function CString(s: seq<Byte>): (r: seq<Byte>)
    ensures |r| <= |s|
  {
    if s == [] || s[0] == 0 then [] else [s[0]] + CString(s[1..])
  }

  lemma {:induction false} CStringOfNulFree(s: seq<Byte>)
    requires forall i :: 0 <= i < |s| ==> s[i] != 0
    ensures CString(s) == s
    decreases |s|
  {
    if s != [] {
      CStringOfNulFree(s[1..]);
    }
  }

  /** Bytes after a NUL do not matter. */
  lemma {:induction false} CStringOfTerminated(s: seq<Byte>, rest: seq<Byte>)
    requires rest != [] && rest[0] == 0
    ensures CString(s + rest) == CString(s)
    decreases |s|
  {
    if s == [] {
      assert s + rest == rest;
    } else {
      CStringOfTerminated(s[1..], rest);
      assert (s + rest)[1..] == s[1..] + rest;
    }
  }

  lemma {:induction false} CStringHasNoZero(s: seq<Byte>)
    ensures 0 !in CString(s)
    decreases |s|
  {
    if s != [] {
      CStringHasNoZero(s[1..]);
    }
  }

  /** Copies the bytes into the buffer at `at`. */
  method PutBytes(buffer: array<Byte>, at: nat, bytes: seq<Byte>)
    requires at + |bytes| <= buffer.Length
    modifies buffer
    ensures buffer[..at] == old(buffer[..at]) && buffer[at..at + |bytes|] == bytes
    ensures buffer[at + |bytes|..] == old(buffer[at + |bytes|..])
  {
    for i := 0 to |bytes|
      invariant buffer[..at] == old(buffer[..at])
      invariant buffer[at..at + i] == bytes[..i]
      invariant buffer[at + i..] == old(buffer[at + i..])
    {
      buffer[at + i] := bytes[i];
    }
  }
}
