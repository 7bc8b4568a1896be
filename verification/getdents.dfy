/** Directory listing (`File::getdents`): records written to a user buffer from a kept offset,
    and the listing a caller reads from them. */
module Getdents {
  import opened Common
  import opened ByteStrings

  const MAX_ENTRIES: nat := 50
  /** The size of a record header with its padding, and where the name starts in it. */
  const HEADER: nat := 24
  const NAME_AT: nat := 19

  type FileName = seq<Byte>

  function RecLen(name: FileName): nat {
    HEADER + |name| + 1
  }

  /** The bytes of one record. What follows the name's zero is whatever the buffer held. */
  ghost predicate IsRecord(data: seq<Byte>, name: FileName) {
    && |data| == RecLen(name)
    && data[..8] == LittleEndian(0, 8)
    && data[8..16] == LittleEndian(RecLen(name), 8)
    && data[16..18] == LittleEndian(RecLen(name) % 0x10000, 2)
    && data[18] == 0
    && data[NAME_AT..NAME_AT + |name|] == name && data[NAME_AT + |name|] == 0
  }

  ghost predicate AreRecords(data: seq<Byte>, names: seq<FileName>)
    decreases |names|
  {
    if names == [] then data == []
    else
      && RecLen(names[0]) <= |data|
      && IsRecord(data[..RecLen(names[0])], names[0])
      && AreRecords(data[RecLen(names[0])..], names[1..])
  }

  lemma {:induction false} RecordsAppend(data: seq<Byte>, names: seq<FileName>, more: seq<Byte>, name: FileName)
    requires AreRecords(data, names) && IsRecord(more, name)
    ensures AreRecords(data + more, names + [name])
    decreases |names|
  {
    hide IsRecord;
    if names == [] {
      assert data + more == more && names + [name] == [name];
      IsRecordSize(more, name);
      assert more[..|more|] == more && more[|more|..] == [];
      assert [name][1..] == [];
    } else {
      var n := RecLen(names[0]);
      RecordsAppend(data[n..], names[1..], more, name);
      assert (data + more)[..n] == data[..n] && (data + more)[n..] == data[n..] + more;
      assert (names + [name])[1..] == names[1..] + [name];
    }
  }

  lemma IsRecordSize(data: seq<Byte>, name: FileName)
    requires IsRecord(data, name)
    ensures |data| == RecLen(name)
  {
  }

  // ---------- the caller's side ----------

  /** The names a caller reads by following the record lengths. */
  function ReadNames(data: seq<Byte>): seq<FileName>
    decreases |data|
  {
    if |data| < NAME_AT then []
    else
      var n := FromLittleEndian(data[16..18]);
      if n < NAME_AT || n > |data| then []
      else [CString(data[NAME_AT..n])] + ReadNames(data[n..])
  }

  /** Names a record can carry: no zero byte, and a length that fits the 16-bit field. */
  predicate Legal(name: FileName) {
    0 !in name && RecLen(name) < 0x10000
  }

  /** The record length a caller reads. */
  lemma LengthReads(data: seq<Byte>, name: FileName)
    requires IsRecord(data, name)
    ensures FromLittleEndian(data[16..18]) == RecLen(name) % 0x10000
  {
    assert Pow256(2) == 256 * Pow256(1) == 0x10000;
    WordRoundTrip(RecLen(name) % 0x10000, 2);
  }

  /** The name a caller reads is the name exactly when it is legal. */
  lemma NameReads(data: seq<Byte>, name: FileName, n: nat)
    requires IsRecord(data, name) && n == RecLen(name) % 0x10000 && NAME_AT <= n <= |data|
    ensures CString(data[NAME_AT..n]) == name <==> Legal(name)
  {
    hide LittleEndian;
    CStringHasNoZero(data[NAME_AT..n]);
    if Legal(name) {
      var rest := data[NAME_AT + |name|..];
      assert data[NAME_AT..n] == name + rest;
      CStringOfTerminated(name, rest);
      CStringOfNulFree(name);
    } else if RecLen(name) >= 0x10000 {
      assert n <= RecLen(name) - 0x10000;
      assert |CString(data[NAME_AT..n])| <= n - NAME_AT < |name|;
    }
  }

  /** A caller reads a legal name and goes on behind its record. */
  lemma LegalReads(data: seq<Byte>, name: FileName)
    requires RecLen(name) <= |data| && IsRecord(data[..RecLen(name)], name) && Legal(name)
    ensures ReadNames(data) == [name] + ReadNames(data[RecLen(name)..])
  {
    hide IsRecord, LittleEndian, FromLittleEndian, CString, ReadNames;
    var len := RecLen(name);
    LengthReads(data[..len], name);
    PrefixSlice(data, len, 16, 18);
    ReadStep(data, len);
    NameReads(data[..len], name, len);
    PrefixSlice(data, len, NAME_AT, len);
  }

  /** Another name is not read back. */
  lemma IllegalReads(data: seq<Byte>, name: FileName)
    requires RecLen(name) <= |data| && IsRecord(data[..RecLen(name)], name) && !Legal(name)
    ensures ReadNames(data) == [] || ReadNames(data)[0] != name
  {
    hide IsRecord, LittleEndian, FromLittleEndian, CString, ReadNames;
    var len := RecLen(name);
    var n := len % 0x10000;
    LengthReads(data[..len], name);
    PrefixSlice(data, len, 16, 18);
    ReadStep(data, n);
    if NAME_AT <= n {
      NameReads(data[..len], name, n);
      PrefixSlice(data, len, NAME_AT, n);
    }
  }

  lemma PrefixSlice(data: seq<Byte>, len: nat, a: nat, b: nat)
    requires a <= b <= len <= |data|
    ensures data[..len][a..b] == data[a..b]
  {
  }

  lemma ReadStep(data: seq<Byte>, n: nat)
    requires |data| >= NAME_AT && n == FromLittleEndian(data[16..18])
    ensures ReadNames(data)
         == if n < NAME_AT || n > |data| then [] else [CString(data[NAME_AT..n])] + ReadNames(data[n..])
  {
  }

  /** Following the record lengths gives the names back exactly when all of them are legal. */
  lemma {:induction false} RecordsReadIff(data: seq<Byte>, names: seq<FileName>)
    requires AreRecords(data, names)
    ensures ReadNames(data) == names <==> forall i :: 0 <= i < |names| ==> Legal(names[i])
    decreases |names|
  {
    hide IsRecord, Legal, ReadNames;
    if names != [] {
      if Legal(names[0]) {
        var rest := data[RecLen(names[0])..];
        LegalReads(data, names[0]);
        RecordsReadIff(rest, names[1..]);
        assert names == [names[0]] + names[1..] && ReadNames(data)[1..] == ReadNames(rest);
        assert forall i :: 1 <= i < |names| ==> names[i] == names[1..][i - 1];
        assert (forall i :: 0 <= i < |names[1..]| ==> Legal(names[1..][i])) ==> forall i :: 0 <= i < |names| ==>
            Legal(names[i]);
      } else {
        IllegalReads(data, names[0]);
      }
    } else {
      assert ReadNames(data) == [] by {
        NothingReads(data);
      }
    }
  }

  lemma NothingReads(data: seq<Byte>)
    requires data == []
    ensures ReadNames(data) == []
  {
  }

  // ---------- the kernel's side ----------

  /** The header fields up to the name. */
  function Header(len: nat): (s: seq<Byte>)
    ensures |s| == NAME_AT
  {
    LittleEndian(0, 8) + LittleEndian(len, 8) + LittleEndian(len % 0x10000, 2) + [0]
  }

  method PutRecord(buffer: array<Byte>, at: nat, name: FileName)
    requires at + RecLen(name) <= buffer.Length
    modifies buffer
    ensures buffer[..at] == old(buffer[..at]) && buffer[at + RecLen(name)..] == old(buffer[at + RecLen(name)..])
    ensures IsRecord(buffer[at..at + RecLen(name)], name)
  {
    hide IsRecord, Header;
    var bytes := Header(RecLen(name)) + name + [0];
    var end := at + RecLen(name);
    PutBytes(buffer, at, bytes);
    assert buffer[end..] == buffer[at + |bytes|..][HEADER - NAME_AT..];
    assert old(buffer[end..]) == old(buffer[at + |bytes|..])[HEADER - NAME_AT..];
    ghost var rest := buffer[at + |bytes|..end];
    BytesAreRecord(name, rest);
    assert buffer[at..end] == buffer[at..at + |bytes|] + rest;
  }

  lemma BytesAreRecord(name: FileName, rest: seq<Byte>)
    requires |rest| == HEADER - NAME_AT
    ensures IsRecord(Header(RecLen(name)) + name + [0] + rest, name)
  {
    hide LittleEndian;
    var data := Header(RecLen(name)) + name + [0] + rest;
    assert data[..8] == LittleEndian(0, 8);
    assert data[8..16] == LittleEndian(RecLen(name), 8);
    assert data[16..18] == LittleEndian(RecLen(name) % 0x10000, 2);
    assert data[NAME_AT..NAME_AT + |name|] == name;
  }

  class Directory {
    const entries: seq<FileName>
    var offset: nat

    constructor (entries: seq<FileName>)
      ensures this.entries == entries && offset == 0
    {
      this.entries := entries;
      offset := 0;
    }

    /** The next entry fits a buffer of this length. */
    predicate NextFits(len: nat)
      reads this
    {
      offset < |entries| && RecLen(entries[offset]) <= len
    }

    /** `getdents`: the records of the longest run of entries from the offset that the buffer and
        the cap of 50 allow. The offset advances by the run exactly when something was written
        (or it was 0): a call that writes nothing starts the listing over. */
    method List(buffer: array<Byte>, readFails: bool) returns (written: nat, ghost run: nat)
      modifies this, buffer
      ensures written <= buffer.Length && buffer[written..] == old(buffer[written..])
      ensures AreRecords(buffer[..written], RunOf(entries, old(offset), run))
      ensures run <= 50 && (run > 0 ==> old(offset) + run <= |entries|)
      ensures run == 0 <==> readFails || !old(NextFits(buffer.Length))
      ensures run == 0 <==> written == 0
      ensures !readFails && run < 50 && old(offset) + run < |entries| ==>
                written + RecLen(entries[old(offset) + run]) > buffer.Length
      ensures readFails ==> offset == old(offset)
      ensures !readFails ==> offset == if run > 0 then old(offset) + run else 0
      ensures !readFails ==> (offset == old(offset) + run <==> old(offset) == 0 || old(NextFits(buffer.Length)))
    {
      hide AreRecords, IsRecord;
      written, run := 0, 0;
      assert buffer[..written] == [];
      NoRecords(entries, offset);
      if readFails {
        return;
      }
      var finished := 0;
      var i, processed := offset, 0;
      while i < |entries|
        invariant i == offset + run && run == processed <= MAX_ENTRIES && (run > 0 ==> i <= |entries|)
        invariant finished == if run > 0 then i else 0
        invariant written <= buffer.Length && buffer[written..] == old(buffer[written..])
        invariant run > 0 <==> written > 0
        invariant run > 0 ==> NextFits(buffer.Length)
        invariant AreRecords(buffer[..written], RunOf(entries, offset, run))
        decreases |entries| - i
        modifies buffer
      {
        processed := processed + 1;
        if processed > MAX_ENTRIES {
          break;
        }
        if buffer.Length - written < RecLen(entries[i]) {
          break;
        }
        assert RunOf(entries, offset, run + 1) == RunOf(entries, offset, run) + [entries[i]];
        AppendRecord(buffer, written, entries[i], RunOf(entries, offset, run));
        written := written + RecLen(entries[i]);
        i := i + 1;
        finished := i;
        run := run + 1;
      }
      offset := finished;
    }

    /** From the start of an unchanged directory, calls with buffers that each hold at least one
        entry come to a call that returns 0 after at most one call per entry. If the names are
        legal, what was read before it lists every entry once and in order. */
    method ListAll(sizes: nat -> nat) returns (listed: seq<FileName>, calls: nat)
      requires offset == 0
      requires forall k, i :: 0 <= i < |entries| ==> RecLen(entries[i]) <= sizes(k)
      modifies this
      ensures (forall i :: 0 <= i < |entries| ==> Legal(entries[i])) ==> listed == entries
      ensures calls <= |entries| + 1 && offset == 0
    {
      hide AreRecords, Legal, ReadNames;
      listed, calls := [], 0;
      while true
        invariant offset <= |entries| && calls <= offset
        invariant (forall i :: 0 <= i < |entries| ==> Legal(entries[i])) ==> listed == entries[..offset]
        decreases |entries| - offset
      {
        var buffer := new Byte[sizes(calls)];
        ghost var from := offset;
        assert from < |entries| ==> NextFits(buffer.Length);
        var written, run := List(buffer, false);
        calls := calls + 1;
        if written == 0 {
          assert from == |entries| && entries[..from] == entries;
          break;
        }
        RecordsReadIff(buffer[..written], entries[from..from + run]);
        listed := listed + ReadNames(buffer[..written]);
        assert entries[..from + run] == entries[..from] + entries[from..from + run];
      }
    }
  }

  /** The run of entries from an offset. */
  ghost function RunOf(entries: seq<FileName>, from: nat, run: nat): seq<FileName> {
    if from + run <= |entries| then entries[from..from + run] else []
  }

  lemma NoRecords(entries: seq<FileName>, from: nat)
    ensures AreRecords([], RunOf(entries, from, 0))
  {
  }

  method AppendRecord(buffer: array<Byte>, at: nat, name: FileName, ghost names: seq<FileName>)
    requires at + RecLen(name) <= buffer.Length && AreRecords(buffer[..at], names)
    modifies buffer
    ensures AreRecords(buffer[..at + RecLen(name)], names + [name])
    ensures buffer[at + RecLen(name)..] == old(buffer[at + RecLen(name)..])
  {
    hide AreRecords, IsRecord;
    ghost var before := buffer[..at];
    PutRecord(buffer, at, name);
    assert buffer[..at + RecLen(name)] == before + buffer[at..at + RecLen(name)];
    RecordsAppend(before, names, buffer[at..at + RecLen(name)], name);
  }

  /** One entry is listed; the next does not fit the next buffer, which is reported as the end of
      the directory, and a further call lists the first entry again. */
  method ShortBufferStartsOver() returns (d: Directory, second: nat, again: seq<FileName>)
    ensures second == 0 && again == [[97]] && d.entries == [[97], [98, 99]]
  {
    d := new Directory([[97], [98, 99]]);
    var one := new Byte[26];
    var _, _ := d.List(one, false);
    var zero, _ := d.List(one, false);
    second := zero;
    var written, run := d.List(one, false);
    RecordsReadIff(one[..written], RunOf(d.entries, 0, run));
    assert run == 1 && RunOf(d.entries, 0, 1) == [[97]];
    again := ReadNames(one[..written]);
  }
}
