/** The initial user stack (`init_task_stack`): strings, the auxiliary vector, the environment,
    the arguments and their count pushed downwards, and the layout of section 3.4.1 of the
    System V ABI AMD64 supplement read back upwards. */
module InitStacks {
  import opened Common
  import opened ByteStrings

  const STACK_TOP: nat := 0x8000_0000
  const STACK_SIZE: nat := 0x20000
  const WORD: nat := 8

  // ---------- machine words ----------

  /** A 64-bit word. */
  predicate IsWord(n: nat) {
    n < Pow256(WORD)
  }

  /** The words of memory upwards. */
  function Encode(ws: seq<nat>): (s: seq<Byte>)
    ensures |s| == WORD * |ws|
  {
    if ws == [] then [] else LittleEndian(ws[0], WORD) + Encode(ws[1..])
  }

  /** The word at word index `i`. */
  function WordAt(data: seq<Byte>, i: nat): nat
    requires WORD * (i + 1) <= |data|
  {
    FromLittleEndian(data[WORD * i..WORD * i + WORD])
  }

  lemma {:induction false} EncodeAt(ws: seq<nat>, rest: seq<Byte>, i: nat)
    requires i < |ws| && forall j :: 0 <= j < |ws| ==> IsWord(ws[j])
    ensures WordAt(Encode(ws) + rest, i) == ws[i]
    decreases |ws|
  {
    var data := Encode(ws) + rest;
    if i == 0 {
      assert data[0..WORD] == LittleEndian(ws[0], WORD);
      WordRoundTrip(ws[0], WORD);
    } else {
      EncodeAt(ws[1..], rest, i - 1);
      var tail := Encode(ws[1..]) + rest;
      assert data == LittleEndian(ws[0], WORD) + tail;
      assert data[WORD * i..WORD * i + WORD] == tail[WORD * (i - 1)..WORD * (i - 1) + WORD];
    }
  }

  lemma {:induction false} EncodeAppend(a: seq<nat>, b: seq<nat>)
    ensures Encode(a + b) == Encode(a) + Encode(b)
    decreases |a|
  {
    hide LittleEndian;
    if a == [] {
      assert a + b == b;
    } else {
      EncodeAppend(a[1..], b);
      assert (a + b)[1..] == a[1..] + b;
    }
  }

  // ---------- strings ----------

  /** The C string at address `a`, when `data` is the memory below `STACK_TOP`. */
  function StringAt(data: seq<Byte>, a: nat): seq<Byte> {
    if STACK_TOP - |data| <= a <= STACK_TOP then CString(data[a - (STACK_TOP - |data|)..]) else []
  }

  lemma StringAtStable(below: seq<Byte>, data: seq<Byte>, a: nat)
    requires STACK_TOP - |data| <= a <= STACK_TOP
    ensures StringAt(below + data, a) == StringAt(data, a)
  {
    var all := below + data;
    assert all[a - (STACK_TOP - |all|)..] == data[a - (STACK_TOP - |data|)..];
  }

  // ---------- reading the stack ----------

  datatype Image = Image(argc: nat, argv: seq<seq<Byte>>, envp: seq<seq<Byte>>, auxv: seq<(nat, nat)>)

  /** The words from word index `i` up to the first zero word. */
  function UntilZero(data: seq<Byte>, i: nat): (r: seq<nat>)
    ensures WORD * i <= |data| ==> WORD * (i + |r|) <= |data|
    decreases |data| - WORD * i
  {
    if WORD * (i + 1) > |data| || WordAt(data, i) == 0 then []
    else [WordAt(data, i)] + UntilZero(data, i + 1)
  }

  /** The key-value pairs from word index `i` up to the key 0. */
  function PairsUntilZero(data: seq<Byte>, i: nat): seq<(nat, nat)>
    decreases |data| - WORD * i
  {
    if WORD * (i + 2) > |data| || WordAt(data, i) == 0 then []
    else [(WordAt(data, i), WordAt(data, i + 1))] + PairsUntilZero(data, i + 2)
  }

  function Strings(data: seq<Byte>, ptrs: seq<nat>): (r: seq<seq<Byte>>)
    ensures |r| == |ptrs| && forall i :: 0 <= i < |ptrs| ==> r[i] == StringAt(data, ptrs[i])
  {
    seq(|ptrs|, i requires 0 <= i < |ptrs| => StringAt(data, ptrs[i]))
  }

  /** What a program reads upwards from its initial stack pointer. */
  function Parse(data: seq<Byte>): Image {
    if |data| < WORD then Image(0, [], [], [])
    else
      var args := UntilZero(data, 1);
      var envs := UntilZero(data, |args| + 2);
      Image(WordAt(data, 0), Strings(data, args), Strings(data, envs), PairsUntilZero(data, |args| + |envs| + 3))
  }

  function Flatten(pairs: seq<(nat, nat)>): (ws: seq<nat>)
    ensures |ws| == 2 * |pairs|
  {
    if pairs == [] then [] else [pairs[0].0, pairs[0].1] + Flatten(pairs[1..])
  }

  /** A list of nonzero words followed by a zero word is read back. */
  lemma {:induction false} UntilZeroReads(ws: seq<nat>, rest: seq<Byte>, i: nat, j: nat)
    requires i <= j < |ws| && ws[j] == 0 && forall k :: 0 <= k < |ws| ==> IsWord(ws[k])
    requires forall k :: i <= k < j ==> ws[k] != 0
    ensures UntilZero(Encode(ws) + rest, i) == ws[i..j]
    decreases j - i
  {
    EncodeAt(ws, rest, i);
    if i < j {
      UntilZeroReads(ws, rest, i + 1, j);
    }
  }

  lemma {:induction false} PairsRead(ws: seq<nat>, rest: seq<Byte>, i: nat, pairs: seq<(nat, nat)>)
    requires i + 2 * |pairs| < |ws| && ws[i..i + 2 * |pairs|] == Flatten(pairs) && ws[i + 2 * |pairs|] == 0
    requires forall k :: 0 <= k < |ws| ==> IsWord(ws[k])
    requires forall k :: 0 <= k < |pairs| ==> pairs[k].0 != 0
    ensures PairsUntilZero(Encode(ws) + rest, i) == pairs
    decreases |pairs|
  {
    EncodeAt(ws, rest, i);
    if pairs != [] {
      assert ws[i..i + 2 * |pairs|][0] == pairs[0].0 && ws[i..i + 2 * |pairs|][1] == pairs[0].1;
      EncodeAt(ws, rest, i + 1);
      assert ws[i + 2..i + 2 + 2 * |pairs[1..]|] == ws[i..i + 2 * |pairs|][2..];
      PairsRead(ws, rest, i + 2, pairs[1..]);
    }
  }

  /** The words of the finished stack. */
  function StackWords(args: seq<nat>, envs: seq<nat>, aux: seq<(nat, nat)>): seq<nat> {
    [|args|] + args + [0] + envs + [0] + Flatten(aux) + [0]
  }

  /** Reading the words back gives the argument count and the lists they were made from. */
  lemma ParseReads(args: seq<nat>, envs: seq<nat>, aux: seq<(nat, nat)>, rest: seq<Byte>)
    requires var ws := StackWords(args, envs, aux); forall k :: 0 <= k < |ws| ==> IsWord(ws[k])
    requires (forall k :: 0 <= k < |args| ==> args[k] != 0) && forall k :: 0 <= k < |envs| ==> envs[k] != 0
    requires forall k :: 0 <= k < |aux| ==> aux[k].0 != 0
    ensures var data := Encode(StackWords(args, envs, aux)) + rest;
            Parse(data) == Image(|args|, Strings(data, args), Strings(data, envs), aux)
  {
    hide Encode; hide WordAt; hide UntilZero; hide PairsUntilZero; hide IsWord; hide StackWords; hide Flatten;
    var ws := StackWords(args, envs, aux);
    StackWordsShape(args, envs, aux);
    EncodeAt(ws, rest, 0);
    UntilZeroReads(ws, rest, 1, |args| + 1);
    UntilZeroReads(ws, rest, |args| + 2, |args| + |envs| + 2);
    PairsRead(ws, rest, |args| + |envs| + 3, aux);
  }

  lemma StackWordsShape(args: seq<nat>, envs: seq<nat>, aux: seq<(nat, nat)>)
    ensures var ws, e, x := StackWords(args, envs, aux), |args| + 2, |args| + |envs| + 3;
            && |ws| == x + 2 * |aux| + 1
            && ws[0] == |args|
            && ws[1..e - 1] == args && ws[e - 1] == 0 && (forall k :: 1 <= k < e - 1 ==> ws[k] == args[k - 1])
            && ws[e..x - 1] == envs && ws[x - 1] == 0 && (forall k :: e <= k < x - 1 ==> ws[k] == envs[k - e])
            && ws[x..x + 2 * |aux|] == Flatten(aux) && ws[x + 2 * |aux|] == 0
  {
    hide Flatten;
  }

  // ---------- building the stack ----------

  /** The bytes a pushed buffer takes: at least one more than its length, word-aligned. */
  function Slot(n: nat): (r: nat)
    ensures n < r <= n + WORD && r % WORD == 0
  {
    (n + 1 + WORD - 1) / WORD * WORD
  }

  function SlotsOf(strs: seq<seq<Byte>>): nat {
    if strs == [] then 0 else Slot(|strs[0]|) + SlotsOf(strs[1..])
  }

  function Reverse<T>(s: seq<T>): (r: seq<T>)
    ensures |r| == |s| && forall i :: 0 <= i < |s| ==> r[i] == s[|s| - 1 - i]
  {
    seq(|s|, i requires 0 <= i < |s| => s[|s| - 1 - i])
  }

  lemma ReverseSnoc<T>(s: seq<T>, x: T)
    ensures Reverse(s + [x]) == [x] + Reverse(s)
  {
  }

  /** A buffer pushed onto zeroed memory reads as a C string at its address. */
  lemma PushedString(buffer: seq<Byte>, pad: nat, data: seq<Byte>)
    requires pad > 0
    ensures CString(buffer + Zeros(pad) + data) == CString(buffer)
  {
    CStringOfTerminated(buffer, Zeros(pad) + data);
    assert buffer + Zeros(pad) + data == buffer + (Zeros(pad) + data);
  }

  class TaskStack {
    /** The bytes of the stack region, lowest address first. */
    var mem: seq<Byte>
    var sp: nat

    ghost predicate Valid()
      reads this
    {
      && |mem| == STACK_SIZE && STACK_TOP - STACK_SIZE <= sp <= STACK_TOP
      && forall i :: 0 <= i < sp - (STACK_TOP - STACK_SIZE) ==> mem[i] == 0
    }

    /** What has been pushed, lowest address first. */
    ghost function Used(): (s: seq<Byte>)
      requires Valid()
      reads this
      ensures |s| == STACK_TOP - sp
    {
      mem[sp - (STACK_TOP - STACK_SIZE)..]
    }

    /** Fresh frames are zero. */
    constructor ()
      ensures Valid() && Used() == []
    {
      mem := Zeros(STACK_SIZE);
      sp := STACK_TOP;
    }

    /** Writes bytes below the stack pointer and moves it there. */
    method PushBytes(bytes: seq<Byte>, room: nat)
      requires Valid() && |bytes| <= room && |Used()| + room <= STACK_SIZE
      modifies this
      ensures Valid() && sp == old(sp) - room
      ensures Used() == bytes + Zeros(room - |bytes|) + old(Used())
    {
      var at := sp - room - (STACK_TOP - STACK_SIZE);
      mem := mem[..at] + bytes + mem[at + |bytes|..];
      sp := sp - room;
    }

    /** `push_arr`: the buffer, and at least one of the zero bytes that were there. */
    method PushArr(buffer: seq<Byte>) returns (addr: nat)
      requires Valid() && |Used()| + Slot(|buffer|) <= STACK_SIZE
      modifies this
      ensures Valid() && addr == sp == STACK_TOP - |Used()| && |Used()| == |old(Used())| + Slot(|buffer|)
      ensures Used() == buffer + Zeros(Slot(|buffer|) - |buffer|) + old(Used())
      ensures StringAt(Used(), addr) == CString(buffer)
      ensures addr % WORD == 0 <==> old(sp) % WORD == 0
      ensures Extends(Used(), old(Used()))
    {
      PushBytes(buffer, Slot(|buffer|));
      addr := sp;
      PushedString(buffer, Slot(|buffer|) - |buffer|, old(Used()));
      assert Used()[0..] == Used();
    }

    /** `push_str`: what is pushed reads as the string, and nothing above it changes. */
    method PushStr(str: seq<Byte>) returns (addr: nat)
      requires Valid() && |Used()| + Slot(|str|) <= STACK_SIZE
      modifies this
      ensures Valid() && addr == STACK_TOP - |Used()| && |Used()| == |old(Used())| + Slot(|str|)
      ensures StringAt(Used(), addr) == CString(str)
      ensures Extends(Used(), old(Used()))
    {
      addr := PushArr(str);
    }

    /** `push_num`. */
    method PushNum(num: nat)
      requires Valid() && IsWord(num) && |Used()| + WORD <= STACK_SIZE
      modifies this
      ensures Valid() && Used() == LittleEndian(num, WORD) + old(Used())
    {
      PushBytes(LittleEndian(num, WORD), WORD);
    }

    /** Pushes strings, the last one first; `addrs[i]` is where the `i`th from the end is. */
    method PushStrings(strs: seq<seq<Byte>>) returns (addrs: seq<nat>)
      requires Valid() && |Used()| + SlotsOf(strs) <= STACK_SIZE
      modifies this
      ensures Valid() && |Used()| == |old(Used())| + SlotsOf(strs)
      ensures Extends(Used(), old(Used()))
      ensures Placed(Used(), Reverse(addrs), strs)
    {
      addrs := [];
      ghost var placed: seq<nat> := [];
      assert strs[|strs|..] == [];
      assert Used()[0..] == Used();
      assert Placed(Used(), placed, strs[|strs|..]);
      hide TaskStack.Used; hide TaskStack.Valid; hide Placed; hide Extends; hide StringAt; hide CString;
      hide SlotsOf; hide Reverse; hide Slot;
      for i := |strs| downto 0
        invariant Valid() && |addrs| == |strs| - i && placed == Reverse(addrs)
        invariant |Used()| == |old(Used())| + SlotsOf(strs[i..])
        invariant Extends(Used(), old(Used()))
        invariant Placed(Used(), placed, strs[i..])
      {
        SlotsOfDrop(strs, i);
        ghost var before := Used();
        var addr := PushStr(strs[i]);
        PlacedNext(before, Used(), placed, strs, i, addr);
        ExtendsTrans(Used(), before, old(Used()));
        ReverseSnoc(addrs, addr);
        addrs := addrs + [addr];
        placed := [addr] + placed;
      }
      assert strs[0..] == strs;
    }

    /** Pushes words, the first one first. */
    method PushWords(ws: seq<nat>)
      requires Valid() && |Used()| + WORD * |ws| <= STACK_SIZE
      requires forall i :: 0 <= i < |ws| ==> IsWord(ws[i])
      modifies this
      ensures Valid() && Used() == Encode(Reverse(ws)) + old(Used())
    {
      assert Encode(Reverse(ws[..0])) + Used() == Used();
      hide TaskStack.Used; hide TaskStack.Valid; hide Encode; hide Reverse; hide IsWord; hide LittleEndian;
      for i := 0 to |ws|
        invariant Valid() && Used() == Encode(Reverse(ws[..i])) + old(Used())
      {
        PushNum(ws[i]);
        EncodeCons(ws, i, old(Used()));
      }
      assert ws[..|ws|] == ws;
    }

    /** The strings of the stack: the environment, the arguments, 16 zero bytes for the random
        seed, the platform name and the path. */
    method PushTexts(args: seq<seq<Byte>>, envp: seq<seq<Byte>>, path: seq<Byte>) returns (texts: Texts)
      requires Valid() && Used() == [] && TextSize(args, envp, path) <= STACK_SIZE
      modifies this
      ensures Valid() && |Used()| == TextSize(args, envp, path)
      ensures TextsPlaced(Used(), texts, args, envp, path)
    {
      hide TaskStack.Used; hide TaskStack.Valid; hide Placed; hide Extends; hide StringAt; hide CString;
      hide SlotsOf; hide Slot;
      var envAddrs := PushStrings(envp);
      ghost var d1 := Used();
      var argAddrs := PushStrings(args);
      ghost var d2 := Used();
      PlacedStable(d2, d1, Reverse(envAddrs), envp);
      var random := PushArr(Zeros(16));
      ghost var d3 := Used();
      SeedPlaced(d3, Zeros(Slot(16) - 16) + d2);
      var platform := PushStr(RISCV);
      ghost var d4 := Used();
      var execfn := PushStr(path);
      texts := Texts(argAddrs, envAddrs, random, platform, execfn);
      TextsStable(Used(), d4, d3, d2, texts, args, envp, path);
    }

    /** The words of the stack, from the end of the auxiliary vector down to the count. */
    method PushTable(args: seq<nat>, envs: seq<nat>, aux: seq<(nat, nat)>)
      requires Valid() && |Used()| + WORD * (|args| + |envs| + 2 * |aux| + 4) <= STACK_SIZE
      requires IsWord(|args|) && (forall i :: 0 <= i < |args| ==> IsWord(args[i]))
      requires forall i :: 0 <= i < |envs| ==> IsWord(envs[i])
      requires forall i :: 0 <= i < |aux| ==> IsWord(aux[i].0) && IsWord(aux[i].1)
      modifies this
      ensures Valid()
      ensures Used() == Encode(StackWords(Reverse(args), Reverse(envs), Reverse(aux))) + old(Used())
    {
      hide TaskStack.Used; hide TaskStack.Valid; hide Encode; hide Reverse; hide IsWord; hide StackWords;
      WordBound();
      ghost var s := Used();
      PushWords([0]);
      AuxPushesAreWords(aux);
      PushWords(AuxPushes(aux));
      PushWords([0]);
      PushWords(envs);
      PushWords([0]);
      PushWords(args);
      PushWords([|args|]);
      TableImage(args, envs, aux, s);
    }

    /** `init_task_stack`: reading the finished stack upwards gives back the argument count,
        the arguments and the environment in order, and the auxiliary vector, whose pointers
        lead to the random seed, the platform name and the path. The stack pointer has the
        16-byte alignment of the ABI exactly when the number of words pushed is even. */
    method InitTaskStack(args: seq<seq<Byte>>, envp: seq<seq<Byte>>, path: seq<Byte>, elf: ElfInfo)
        returns (texts: Texts)
      requires Valid() && Used() == []
      requires TextSize(args, envp, path) + WORD * (|args| + |envp| + 30) <= STACK_SIZE
      requires elf.Words()
      modifies this
      ensures Valid()
      ensures Parse(Used()) == Image(|args|, CStrings(args), CStrings(envp), Reverse(AuxVector(elf, texts)))
      ensures StringAt(Used(), texts.execfn) == CString(path) && StringAt(Used(), texts.platform) == Ascii("riscv")
      ensures SeedAt(Used(), texts.random)
      ensures Parse(Used()).auxv == [(31, texts.execfn), (25, texts.random), (23, 0), (15, texts.platform),
                                     (14, 0), (13, 0), (12, 0), (11, 0), (9, elf.base + elf.entry), (6, 4096),
                                     (5, elf.phCount), (4, elf.phEntrySize), (3, elf.base + elf.phAddr)]
      ensures sp == 0x8000_0000 - |Used()| && sp % 8 == 0
      ensures sp % 16 == 0 <==> (TextSize(args, envp, path) / WORD + |args| + |envp| + 30) % 2 == 0
    {
      hide TaskStack.Used; hide TaskStack.Valid; hide Parse; hide Placed; hide StringAt; hide CString;
      hide SlotsOf; hide Slot;
      hide AuxVector; hide Encode; hide IsWord; hide TextsPlaced; hide Extends; hide SeedAt; hide TextSize;
      hide StackWords;
      texts := PushTexts(args, envp, path);
      ghost var s := Used();
      var aux := AuxVector(elf, texts);
      AddressesAreWords(s, texts, args, envp, path, elf);
      PushTable(texts.args, texts.envs, aux);
      ImageParses(s, texts, args, envp, path, aux);
      TextSizeAligned(args, envp, path);
      UsedIsBelowTop();
      StackWordsShape(Reverse(texts.args), Reverse(texts.envs), Reverse(aux));
      SixteenIff(TextSize(args, envp, path), |args| + |envp| + 30);
      AuxByKey(elf, texts);
    }

    lemma UsedIsBelowTop()
      requires Valid()
      ensures sp == STACK_TOP - |Used()|
    {
    }
  }

  /** The name of the platform, "riscv". */
  const RISCV: seq<Byte> := [114, 105, 115, 99, 118]

  /** Where the strings are; the lists start with the last string. */
  datatype Texts = Texts(args: seq<nat>, envs: seq<nat>, random: nat, platform: nat, execfn: nat)

  datatype ElfInfo = ElfInfo(base: nat, entry: nat, phCount: nat, phEntrySize: nat, phAddr: nat) {
    predicate Words() {
      IsWord(base + entry) && IsWord(phCount) && IsWord(phEntrySize) && IsWord(base + phAddr)
    }
  }

  /** The auxiliary vector in the order of its keys, as the ordered map yields it. */
  function AuxVector(elf: ElfInfo, texts: Texts): (aux: seq<(nat, nat)>)
    ensures |aux| == 13 && forall i :: 0 <= i < |aux| ==> aux[i].0 != 0
    ensures forall i, j :: 0 <= i < j < |aux| ==> 0 < aux[i].0 < aux[j].0
  {
    [(3, elf.base + elf.phAddr), (4, elf.phEntrySize), (5, elf.phCount), (6, PAGE_SIZE), (9, elf.base + elf.entry),
     (11, 0), (12, 0), (13, 0), (14, 0), (15, texts.platform), (23, 0), (25, texts.random), (31, texts.execfn)]
  }

  /** What a program finds in the vector. */
  lemma AuxByKey(elf: ElfInfo, texts: Texts)
    ensures Reverse(AuxVector(elf, texts))
         == [(31, texts.execfn), (25, texts.random), (23, 0), (15, texts.platform), (14, 0), (13, 0), (12, 0), (11, 0),
             (9, elf.base + elf.entry), (6, 4096), (5, elf.phCount), (4, elf.phEntrySize), (3, elf.base + elf.phAddr)]
  {
  }

  function TextSize(args: seq<seq<Byte>>, envp: seq<seq<Byte>>, path: seq<Byte>): nat {
    SlotsOf(envp) + SlotsOf(args) + Slot(16) + Slot(|RISCV|) + Slot(|path|)
  }

  function CStrings(strs: seq<seq<Byte>>): (r: seq<seq<Byte>>)
    ensures |r| == |strs| && forall i :: 0 <= i < |strs| ==> r[i] == CString(strs[i])
  {
    seq(|strs|, i requires 0 <= i < |strs| => CString(strs[i]))
  }

  /** Sixteen zero bytes lie at the address. */
  ghost predicate SeedAt(data: seq<Byte>, a: nat) {
    && STACK_TOP - |data| <= a && a + 16 <= STACK_TOP
    && data[a - (STACK_TOP - |data|)..][..16] == Zeros(16)
  }

  ghost predicate TextsPlaced(data: seq<Byte>, t: Texts, args: seq<seq<Byte>>, envp: seq<seq<Byte>>, path: seq<Byte>) {
    && Placed(data, Reverse(t.args), args) && Placed(data, Reverse(t.envs), envp)
    && SeedAt(data, t.random)
    && Placed(data, [t.platform, t.execfn], [RISCV, path])
  }

  lemma SeedPlaced(data: seq<Byte>, rest: seq<Byte>)
    requires data == Zeros(16) + rest && |data| <= STACK_TOP
    ensures SeedAt(data, STACK_TOP - |data|)
  {
    assert data[0..] == data;
  }

  /** `data` is `base` with more pushed below it. */
  ghost predicate Extends(data: seq<Byte>, base: seq<Byte>) {
    |base| <= |data| && data[|data| - |base|..] == base
  }

  lemma ExtendsTrans(a: seq<Byte>, b: seq<Byte>, c: seq<Byte>)
    requires Extends(a, b) && Extends(b, c)
    ensures Extends(a, c)
  {
    assert a[|a| - |c|..] == a[|a| - |b|..][|b| - |c|..];
  }

  /** At each address lies the string of the same index. */
  ghost predicate Placed(data: seq<Byte>, addrs: seq<nat>, strs: seq<seq<Byte>>) {
    && |addrs| == |strs|
    && forall i :: 0 <= i < |strs| ==>
         STACK_TOP - |data| <= addrs[i] < STACK_TOP && StringAt(data, addrs[i]) == CString(strs[i])
  }

  lemma SlotsOfDrop(strs: seq<seq<Byte>>, i: nat)
    requires 0 < |strs| && i < |strs|
    ensures SlotsOf(strs[i..]) == Slot(|strs[i]|) + SlotsOf(strs[i + 1..])
    ensures SlotsOf(strs[i..]) <= SlotsOf(strs)
  {
    assert strs[i..][1..] == strs[i + 1..];
    SlotsOfSuffix(strs, i);
  }

  lemma {:induction false} SlotsOfSuffix(strs: seq<seq<Byte>>, i: nat)
    requires i <= |strs|
    ensures SlotsOf(strs[i..]) <= SlotsOf(strs)
    decreases i
  {
    if i == 0 {
      assert strs[0..] == strs;
    } else {
      SlotsOfSuffix(strs[1..], i - 1);
      assert strs[1..][i - 1..] == strs[i..];
    }
  }

  /** Pushing more keeps the strings in place. */
  lemma PlacedStable(data: seq<Byte>, base: seq<Byte>, addrs: seq<nat>, strs: seq<seq<Byte>>)
    requires Placed(base, addrs, strs) && Extends(data, base)
    ensures Placed(data, addrs, strs)
  {
    var below := data[..|data| - |base|];
    assert data == below + base;
    forall i | 0 <= i < |strs| ensures StringAt(data, addrs[i]) == CString(strs[i]) {
      StringAtStable(below, base, addrs[i]);
    }
  }

  lemma PlacedNext(base: seq<Byte>, data: seq<Byte>, addrs: seq<nat>, strs: seq<seq<Byte>>, i: nat, addr: nat)
    requires i < |strs| && Placed(base, addrs, strs[i + 1..]) && Extends(data, base) && |base| < |data|
    requires addr == STACK_TOP - |data| && StringAt(data, addr) == CString(strs[i])
    ensures Placed(data, [addr] + addrs, strs[i..])
  {
    PlacedStable(data, base, addrs, strs[i + 1..]);
    forall j | 0 <= j < |strs[i..]|
      ensures STACK_TOP - |data| <= ([addr] + addrs)[j] < STACK_TOP
      ensures StringAt(data, ([addr] + addrs)[j]) == CString(strs[i..][j])
    {
      if j > 0 {
        assert strs[i..][j] == strs[i + 1..][j - 1];
      }
    }
  }

  lemma EncodeCons(ws: seq<nat>, i: nat, data: seq<Byte>)
    requires i < |ws|
    ensures Encode(Reverse(ws[..i + 1])) + data == LittleEndian(ws[i], WORD) + (Encode(Reverse(ws[..i])) + data)
  {
    var r := Reverse(ws[..i + 1]);
    assert r[0] == ws[i];
    assert r[1..] == Reverse(ws[..i]);
    assert Encode(r) == LittleEndian(ws[i], WORD) + Encode(Reverse(ws[..i]));
    hide Encode; hide LittleEndian;
    Associative(LittleEndian(ws[i], WORD), Encode(Reverse(ws[..i])), data);
  }

  lemma Associative(a: seq<Byte>, b: seq<Byte>, c: seq<Byte>)
    ensures (a + b) + c == a + (b + c)
  {
  }

  // ---------- the finished stack ----------

  lemma WordBound()
    ensures forall n: nat :: n <= STACK_TOP ==> IsWord(n)
  {
    assert Pow256(4) == 0x1_0000_0000;
    assert Pow256(8) == 256 * (256 * (256 * (256 * Pow256(4))));
  }

  /** The auxiliary vector in pushing order: of each pair the value, then the key. */
  function AuxPushes(aux: seq<(nat, nat)>): (ws: seq<nat>)
    ensures |ws| == 2 * |aux|
  {
    if aux == [] then [] else [aux[0].1, aux[0].0] + AuxPushes(aux[1..])
  }

  lemma {:induction false} AuxPushesAreWords(aux: seq<(nat, nat)>)
    requires forall i :: 0 <= i < |aux| ==> IsWord(aux[i].0) && IsWord(aux[i].1)
    ensures forall i :: 0 <= i < |AuxPushes(aux)| ==> IsWord(AuxPushes(aux)[i])
    decreases |aux|
  {
    hide IsWord;
    if aux != [] {
      AuxPushesAreWords(aux[1..]);
    }
  }

  lemma {:induction false} FlattenAppend(a: seq<(nat, nat)>, b: seq<(nat, nat)>)
    ensures Flatten(a + b) == Flatten(a) + Flatten(b)
    decreases |a|
  {
    if a == [] {
      assert a + b == b;
    } else {
      FlattenAppend(a[1..], b);
      assert (a + b)[1..] == a[1..] + b;
    }
  }

  /** Pushing values before keys puts keys before values, the largest key lowest. */
  lemma {:induction false} AuxPushesReversed(aux: seq<(nat, nat)>)
    ensures Reverse(AuxPushes(aux)) == Flatten(Reverse(aux))
    decreases |aux|
  {
    if aux != [] {
      AuxPushesReversed(aux[1..]);
      assert Reverse(aux) == Reverse(aux[1..]) + [aux[0]];
      FlattenAppend(Reverse(aux[1..]), [aux[0]]);
      assert Flatten([aux[0]]) == [aux[0].0, aux[0].1];
      assert Reverse(AuxPushes(aux)) == Reverse(AuxPushes(aux[1..])) + [aux[0].0, aux[0].1];
    }
  }

  lemma EncodeStep(a: seq<nat>, b: seq<nat>, s: seq<Byte>)
    ensures Encode(a + b) + s == Encode(a) + (Encode(b) + s)
  {
    EncodeAppend(a, b);
    hide Encode;
    Associative(Encode(a), Encode(b), s);
  }

  lemma ReverseOne(x: nat)
    ensures Reverse<nat>([x]) == [x]
  {
  }

  lemma TableImage(args: seq<nat>, envs: seq<nat>, aux: seq<(nat, nat)>, s: seq<Byte>)
    ensures Encode(Reverse<nat>([|args|])) + (Encode(Reverse(args)) + (Encode(Reverse<nat>([0]))
            + (Encode(Reverse(envs))
              + (Encode(Reverse<nat>([0])) + (Encode(Reverse(AuxPushes(aux))) + (Encode(Reverse<nat>([0])) + s))))))
         == Encode(StackWords(Reverse(args), Reverse(envs), Reverse(aux))) + s
  {
    hide Encode; hide Reverse; hide Flatten;
    ReverseOne(0);
    ReverseOne(|args|);
    AuxPushesReversed(aux);
    var a, e, x := Reverse(args), Reverse(envs), Flatten(Reverse(aux));
    EncodeStep(x, [0], s);
    EncodeStep([0], x + [0], s);
    EncodeStep(e, [0] + (x + [0]), s);
    EncodeStep([0], e + ([0] + (x + [0])), s);
    EncodeStep(a, [0] + (e + ([0] + (x + [0]))), s);
    EncodeStep([|a|], a + ([0] + (e + ([0] + (x + [0])))), s);
    assert |a| == |args|;
    var ws := [|a|] + (a + ([0] + (e + ([0] + (x + [0])))));
    assert ws == StackWords(a, e, Reverse(aux));
    assert Encode(ws) + s == Encode([|a|]) + (Encode(a) + (Encode([0]) + (Encode(e)
             + (Encode([0]) + (Encode(x) + (Encode([0]) + s))))));
  }

  lemma SeedStable(data: seq<Byte>, base: seq<Byte>, a: nat)
    requires SeedAt(base, a) && Extends(data, base)
    ensures SeedAt(data, a)
  {
    assert data[a - (STACK_TOP - |data|)..] == base[a - (STACK_TOP - |base|)..] by {
      assert data == data[..|data| - |base|] + base;
    }
  }

  lemma TextsStable(data: seq<Byte>, d4: seq<Byte>, d3: seq<Byte>, d2: seq<Byte>, t: Texts,
                    args: seq<seq<Byte>>, envp: seq<seq<Byte>>, path: seq<Byte>)
    requires Placed(d2, Reverse(t.args), args) && Placed(d2, Reverse(t.envs), envp) && SeedAt(d3, t.random)
    requires Extends(d3, d2) && Extends(d4, d3) && Extends(data, d4)
    requires |d3| < |d4| < |data| && t.platform == STACK_TOP - |d4| && t.execfn == STACK_TOP - |data|
    requires StringAt(d4, t.platform) == CString(RISCV) && StringAt(data, t.execfn) == CString(path)
    ensures TextsPlaced(data, t, args, envp, path)
  {
    hide Reverse; hide StringAt; hide CString;
    ExtendsTrans(data, d4, d3);
    ExtendsTrans(data, d3, d2);
    SeedStable(data, d3, t.random);
    PlacedStable(data, d2, Reverse(t.args), args);
    PlacedStable(data, d2, Reverse(t.envs), envp);
    assert Placed(d4, [t.platform], [RISCV]);
    PlacedStable(data, d4, [t.platform], [RISCV]);
  }

  lemma AddressesAreWords(data: seq<Byte>, t: Texts, args: seq<seq<Byte>>, envp: seq<seq<Byte>>, path: seq<Byte>,
                          elf: ElfInfo)
    requires TextsPlaced(data, t, args, envp, path) && elf.Words() && |args| <= STACK_SIZE
    ensures |t.args| == |args| && |t.envs| == |envp| && IsWord(|t.args|)
    ensures forall i :: 0 <= i < |t.args| ==> IsWord(t.args[i])
    ensures forall i :: 0 <= i < |t.envs| ==> IsWord(t.envs[i])
    ensures forall i :: 0 <= i < 13 ==> IsWord(AuxVector(elf, t)[i].0) && IsWord(AuxVector(elf, t)[i].1)
  {
    WordBound();
    hide IsWord; hide StringAt; hide CString;
    forall i | 0 <= i < |t.args| ensures IsWord(t.args[i]) {
      assert Reverse(t.args)[|t.args| - 1 - i] == t.args[i];
    }
    forall i | 0 <= i < |t.envs| ensures IsWord(t.envs[i]) {
      assert Reverse(t.envs)[|t.envs| - 1 - i] == t.envs[i];
    }
    assert [t.platform, t.execfn][0] < STACK_TOP && [t.platform, t.execfn][1] < STACK_TOP;
    forall i | 0 <= i < 13 ensures IsWord(AuxVector(elf, t)[i].0) && IsWord(AuxVector(elf, t)[i].1) {
    }
  }

  /** The strings at the pushed addresses are the strings pushed. */
  lemma StringsOfPlaced(data: seq<Byte>, addrs: seq<nat>, strs: seq<seq<Byte>>)
    requires Placed(data, addrs, strs)
    ensures Strings(data, addrs) == CStrings(strs)
  {
  }

  lemma RiscvIsNulFree()
    ensures CString(RISCV) == RISCV
  {
    CStringOfNulFree(RISCV);
  }

  lemma ImageParses(s: seq<Byte>, t: Texts, args: seq<seq<Byte>>, envp: seq<seq<Byte>>, path: seq<Byte>,
                    aux: seq<(nat, nat)>)
    requires TextsPlaced(s, t, args, envp, path) && |s| <= STACK_SIZE && IsWord(|t.args|)
    requires (forall i :: 0 <= i < |t.args| ==> IsWord(t.args[i])) && forall i :: 0 <= i < |t.envs| ==>
            IsWord(t.envs[i])
    requires forall i :: 0 <= i < |aux| ==> IsWord(aux[i].0) && IsWord(aux[i].1) && aux[i].0 != 0
    ensures var data := Encode(StackWords(Reverse(t.args), Reverse(t.envs), Reverse(aux))) + s;
            && Parse(data) == Image(|args|, CStrings(args), CStrings(envp), Reverse(aux))
            && StringAt(data, t.execfn) == CString(path) && StringAt(data, t.platform) == RISCV
            && SeedAt(data, t.random)
  {
    var a, e, x := Reverse(t.args), Reverse(t.envs), Reverse(aux);
    TableAreWords(a, e, x);
    hide Encode; hide IsWord; hide StringAt; hide CString; hide Parse; hide SeedAt; hide StackWords;
    var data := Encode(StackWords(a, e, x)) + s;
    assert Extends(data, s);
    PlacedStable(data, s, a, args);
    PlacedStable(data, s, e, envp);
    PlacedStable(data, s, [t.platform, t.execfn], [RISCV, path]);
    assert StringAt(data, [t.platform, t.execfn][0]) == CString([RISCV, path][0]);
    assert StringAt(data, [t.platform, t.execfn][1]) == CString([RISCV, path][1]);
    RiscvIsNulFree();
    SeedStable(data, s, t.random);
    StringsOfPlaced(data, a, args);
    StringsOfPlaced(data, e, envp);
    ParseReads(a, e, x, s);
  }

  lemma {:induction false} FlattenAreWords(pairs: seq<(nat, nat)>)
    requires forall i :: 0 <= i < |pairs| ==> IsWord(pairs[i].0) && IsWord(pairs[i].1)
    ensures forall i :: 0 <= i < |Flatten(pairs)| ==> IsWord(Flatten(pairs)[i])
    decreases |pairs|
  {
    hide IsWord;
    if pairs != [] {
      FlattenAreWords(pairs[1..]);
    }
  }

  lemma TableAreWords(a: seq<nat>, e: seq<nat>, x: seq<(nat, nat)>)
    requires IsWord(|a|) && (forall i :: 0 <= i < |a| ==> IsWord(a[i])) && forall i :: 0 <= i < |e| ==> IsWord(e[i])
    requires forall i :: 0 <= i < |x| ==> IsWord(x[i].0) && IsWord(x[i].1)
    ensures var ws := StackWords(a, e, x); forall k :: 0 <= k < |ws| ==> IsWord(ws[k])
  {
    WordBound();
    hide IsWord;
    FlattenAreWords(x);
  }

  lemma {:induction false} SlotsOfAligned(strs: seq<seq<Byte>>)
    ensures SlotsOf(strs) % WORD == 0
    decreases |strs|
  {
    if strs != [] {
      SlotsOfAligned(strs[1..]);
    }
  }

  lemma TextSizeAligned(args: seq<seq<Byte>>, envp: seq<seq<Byte>>, path: seq<Byte>)
    ensures TextSize(args, envp, path) % WORD == 0
  {
    hide Slot, SlotsOf;
    SlotsOfAligned(args);
    SlotsOfAligned(envp);
  }

  lemma SixteenIff(texts: nat, words: nat)
    requires texts % WORD == 0 && texts + WORD * words <= STACK_TOP
    ensures (STACK_TOP - (texts + WORD * words)) % 16 == 0 <==> (texts / WORD + words) % 2 == 0
  {
  }

  /** The bytes of a text. */
  function Ascii(s: string): (r: seq<Byte>)
    requires forall i :: 0 <= i < |s| ==> s[i] as int < 256
    ensures |r| == |s|
  {
    seq(|s|, i requires 0 <= i < |s| => s[i] as int)
  }

  /** The environment that `init_task_stack` makes, for the library path of `initproc`. */
  function Environment(): (envp: seq<seq<Byte>>)
    ensures |envp| == 4 && |envp[0]| == 26 && |envp[1]| == 45 && |envp[2]| == 20 && |envp[3]| == 12
  {
    [Ascii("LD_LIBRARY_PATH=/glibc/lib"),
     [80, 83, 49, 61] + [27, 91, 49, 109] + [27, 91, 51, 50, 109] + Ascii("MonkeyOS") + [27, 91, 48, 109] + [58]
       + [27, 91, 49, 109] + [27, 91, 51, 52, 109] + [92, 119] + [27, 91, 48, 109] + [92, 36, 32, 0],
     Ascii("PATH=/:/bin:/usr/bin"),
     Ascii("UB_BINDIR=./")]
  }

  lemma BusyboxWords()
    ensures TextSize([Ascii("busybox")], Environment(), Ascii("/musl/busybox")) == 176
  {
    var e: seq<seq<Byte>> := Environment();
    var e1, e2, e3 := e[1..], e[2..], e[3..];
    assert e1[1..] == e2 && e2[1..] == e3;
    assert SlotsOf(e) == Slot(26) + SlotsOf(e1) && SlotsOf(e1) == Slot(45) + SlotsOf(e2);
    assert SlotsOf(e2) == Slot(20) + SlotsOf(e3) && SlotsOf(e3) == Slot(12) + SlotsOf(e3[1..]);
    var a := [Ascii("busybox")];
    assert SlotsOf(a) == Slot(7) + SlotsOf(a[1..]);
  }

  /** Starting /musl/busybox with its name as the only argument leaves the stack pointer off the
      16-byte alignment. */
  method BusyboxMisaligned(elf: ElfInfo) returns (stack: TaskStack, texts: Texts)
    requires elf.Words()
    ensures stack.Valid() && stack.sp % 16 != 0
  {
    stack := new TaskStack();
    BusyboxWords();
    hide TaskStack.Used; hide TaskStack.Valid; hide Parse; hide StringAt; hide CString; hide SlotsOf; hide Slot;
    hide TextSize; hide SeedAt; hide Environment; hide Ascii; hide ElfInfo.Words;
    texts := stack.InitTaskStack([Ascii("busybox")], Environment(), Ascii("/musl/busybox"), elf);
  }
}
