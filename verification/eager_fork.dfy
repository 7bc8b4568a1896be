/** The simple memory machine that copy-on-write must be indistinguishable from: fork copies
    every private page at once, and pages of shared areas name objects that processes have
    in common. */
module EagerFork {
  import opened Common

  datatype Page = Page(bytes: PageBytes)

  function ZeroPage(): Page {
    Page(seq(PAGE_SIZE, _ => 0))
  }

  /** The page `page` of process `pid`. */
  datatype Key = Key(pid: nat, page: nat)

  /** Private pages have contents; shared pages name objects that have contents. */
  datatype Eager = Eager(alive: seq<bool>, private: map<Key, Page>, shared: map<Key, nat>, objects: map<nat, Page>) {
    predicate Runs(p: nat) {
      p < |alive| && alive[p]
    }

    /** The content of a page as its process sees it. */
    function PageOf(k: Key): Option<Page> {
      if !Runs(k.pid) then None
      else if k in private then Some(private[k])
      else if k in shared && shared[k] in objects then Some(objects[shared[k]])
      else None
    }
  }

  const INITIAL := Eager([true], map[], map[], map[])

  datatype Event =
    | Forked(parent: nat)
    | Filled(key: Key, content: Page, name: Option<nat>)
    | Loaded(key: Key, offset: nat, value: Byte)
    | Stored(key: Key, offset: nat, value: Byte)
    | Unmapped(pid: nat, pages: set<nat>)
    | Exited(pid: nat)

  /** The keys of the pages that process `child` gets from `parent`. */
  function Inherited<V>(m: map<Key, V>, parent: nat, child: nat): set<Key> {
    set k | k in m && k.pid == parent :: Key(child, k.page)
  }

  /** The map with the entries of `parent` copied to `child`. */
  function Duplicate<V>(m: map<Key, V>, parent: nat, child: nat): map<Key, V> {
    m + map k | k in Inherited(m, parent, child) && Key(parent, k.page) in m :: m[Key(parent, k.page)]
  }

  function Store(e: Eager, k: Key, off: nat, b: Byte): Eager
    requires e.PageOf(k).Some? && off < PAGE_SIZE
  {
    var page := Page(e.PageOf(k).value.bytes[off := b]);
    if k in e.private then e.(private := e.private[k := page]) else e.(objects := e.objects[e.shared[k] := page])
  }

  /** The page is one of the given pages of process `p`. */
  predicate Given(k: Key, p: nat, pages: set<nat>) {
    k.pid == p && k.page in pages
  }

  function Without<V>(m: map<Key, V>, p: nat, pages: set<nat>): map<Key, V> {
    map k | k in m && !Given(k, p, pages) :: m[k]
  }

  /** Takes pages from a process; an object that no page names any more goes away. */
  function Drop(e: Eager, p: nat, pages: set<nat>): Eager {
    var shared := Without(e.shared, p, pages);
    Eager(e.alive, Without(e.private, p, pages), shared, map o | o in e.objects && o in shared.Values :: e.objects[o])
  }

  function PagesOf(e: Eager, p: nat): set<nat> {
    set k | k in e.private.Keys + e.shared.Keys && k.pid == p :: k.page
  }

  /** The machine after an event, or `None` when the event is not one it can make. */
  function Apply(e: Eager, ev: Event): Option<Eager> {
    match ev
    case Forked(p) =>
      if !e.Runs(p) then None
      else Some(Eager(e.alive + [true], Duplicate(e.private, p, |e.alive|), Duplicate(e.shared, p, |e.alive|),
          e.objects))
    case Filled(k, content, name) =>
      if !e.Runs(k.pid) || k in e.private || k in e.shared then None
      else if name.None? then Some(e.(private := e.private[k := content]))
      else if name.value in e.objects then None
      else Some(e.(shared := e.shared[k := name.value], objects := e.objects[name.value := content]))
    case Loaded(k, off, b) =>
      if e.PageOf(k).Some? && off < PAGE_SIZE && e.PageOf(k).value.bytes[off] == b then Some(e) else None
    case Stored(k, off, b) =>
      if e.PageOf(k).Some? && off < PAGE_SIZE then Some(Store(e, k, off, b)) else None
    case Unmapped(p, pages) =>
      if e.Runs(p) then Some(Drop(e, p, pages)) else None
    case Exited(p) =>
      if e.Runs(p) then Some(Drop(e, p, PagesOf(e, p)).(alive := e.alive[p := false])) else None
  }

  function Replay(e: Eager, log: seq<Event>): Option<Eager>
    decreases |log|
  {
    if log == [] then Some(e)
    else match Apply(e, log[0])
         case None => None
         case Some(e') => Replay(e', log[1..])
  }

  lemma {:induction false} ReplayAppend(e: Eager, a: seq<Event>, b: seq<Event>)
    ensures Replay(e, a + b)
         == if Replay(e, a).Some? then Replay(Replay(e, a).value, b) else None
    decreases |a|
  {
    if a == [] {
      assert a + b == b;
    } else {
      assert (a + b)[1..] == a[1..] + b;
      if Apply(e, a[0]).Some? {
        ReplayAppend(Apply(e, a[0]).value, a[1..], b);
      }
    }
  }

  /** What the machine has at an offset of a page after a log. */
  function ByteAfter(e: Eager, log: seq<Event>, k: Key, off: nat): Option<Byte>
    requires off < PAGE_SIZE
  {
    var r := Replay(e, log);
    if r.Some? && r.value.PageOf(k).Some? then Some(r.value.PageOf(k).value.bytes[off]) else None
  }

  /** A log that can be replayed records with each load the byte that was there. */
  lemma LoadedIsThere(e: Eager, log: seq<Event>, n: nat)
    requires Replay(e, log).Some? && n < |log| && log[n].Loaded? && log[n].offset < PAGE_SIZE
    ensures ByteAfter(e, log[..n], log[n].key, log[n].offset) == Some(log[n].value)
  {
    assert log == log[..n] + log[n..];
    ReplayAppend(e, log[..n], log[n..]);
    assert log[n..][0] == log[n];
  }

  /** The event can change what process `p` holds privately. */
  predicate ActsOn(ev: Event, p: nat) {
    match ev
    case Filled(k, _, _) => k.pid == p
    case Stored(k, _, _) => k.pid == p
    case Unmapped(q, _) => p == q
    case Exited(q) => p == q
    case _ => false
  }

  /** Process `p` has the same private pages and names the same objects in both machines. */
  ghost predicate SameView(a: Eager, b: Eager, p: nat) {
    && p < |a.alive| && p < |b.alive| && a.alive[p] == b.alive[p]
    && forall k: Key :: k.pid == p ==>
         && (k in a.private <==> k in b.private) && (k in a.private ==> a.private[k] == b.private[k])
         && (k in a.shared <==> k in b.shared) && (k in a.shared ==> a.shared[k] == b.shared[k])
  }

  lemma StepIsolation(e: Eager, ev: Event, p: nat)
    requires p < |e.alive| && Apply(e, ev).Some? && !ActsOn(ev, p)
    ensures SameView(e, Apply(e, ev).value, p)
  {
  }

  /** No process can change the private pages of another one, or which objects it names. */
  lemma {:induction false} Isolation(e: Eager, log: seq<Event>, p: nat)
    requires Replay(e, log).Some? && p < |e.alive|
    requires forall i :: 0 <= i < |log| ==> !ActsOn(log[i], p)
    ensures SameView(e, Replay(e, log).value, p)
    decreases |log|
  {
    if log != [] {
      StepIsolation(e, log[0], p);
      Isolation(Apply(e, log[0]).value, log[1..], p);
    }
  }

  /** Every page belongs to a process that was started. */
  ghost predicate Started(e: Eager) {
    forall k :: k in e.private.Keys + e.shared.Keys ==> k.pid < |e.alive|
  }

  /** A fork's child keeps the parent's private pages as they were at the fork, and names the
      parent's shared objects, whatever the parent and everyone else does. */
  lemma ForkSnapshot(e: Eager, parent: nat, log: seq<Event>, page: nat)
    requires Started(e) && e.Runs(parent) && Replay(e, [Forked(parent)] + log).Some?
    requires forall i :: 0 <= i < |log| ==> !ActsOn(log[i], |e.alive|)
    ensures var e', k, c := Replay(e, [Forked(parent)] + log).value, Key(parent, page), Key(|e.alive|, page);
            && e'.Runs(c.pid)
            && (c in e'.private <==> k in e.private) && (k in e.private ==> e'.private[c] == e.private[k])
            && (c in e'.shared <==> k in e.shared) && (k in e.shared ==> e'.shared[c] == e.shared[k])
  {
    var forked := Apply(e, Forked(parent)).value;
    assert ([Forked(parent)] + log)[1..] == log;
    Isolation(forked, log, |e.alive|);
    var k, c := Key(parent, page), Key(|e.alive|, page);
    assert c !in e.private && c !in e.shared;
    assert k in e.private ==> c in Inherited(e.private, parent, |e.alive|);
    assert k in e.shared ==> c in Inherited(e.shared, parent, |e.alive|);
  }

  /** What one process stores to a shared page is what every process that names the object
      reads. */
  lemma SharedStoreIsSeen(e: Eager, k: Key, l: Key, off: nat, b: Byte)
    requires e.Runs(k.pid) && e.Runs(l.pid) && off < PAGE_SIZE
    requires k in e.shared && k !in e.private && l in e.shared && l !in e.private
    requires e.shared[k] == e.shared[l] && e.shared[k] in e.objects
    ensures Store(e, k, off, b).PageOf(l).Some? && Store(e, k, off, b).PageOf(l).value.bytes[off] == b
  {
  }
}
