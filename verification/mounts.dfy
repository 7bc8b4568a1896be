/** The mount table (`get_mounted`, `mount_fs`, `umount`). */
module Mounts {
  import opened Common
  import opened PathBufs

  datatype Mount = Mount(at: Path, fs: nat)

  ghost predicate ProperPrefix(a: Path, b: Path) {
    a <= b && a != b
  }

  /** The newest mount at or above the path. */
  ghost predicate Newest(mounts: seq<Mount>, path: Path, i: nat) {
    && i < |mounts| && mounts[i].at <= path
    && forall j :: i < j < |mounts| ==> !(mounts[j].at <= path)
  }

  /** A mount at or above the path, and none of them deeper. */
  ghost predicate Deepest(mounts: seq<Mount>, path: Path, i: nat) {
    && i < |mounts| && mounts[i].at <= path
    && forall j :: 0 <= j < |mounts| && mounts[j].at <= path ==> mounts[j].at <= mounts[i].at
  }

  /** A mount point's mounted ancestors were all mounted before it. */
  ghost predicate AncestorsFirst(mounts: seq<Mount>) {
    forall i, j :: 0 <= i < j < |mounts| ==> !ProperPrefix(mounts[j].at, mounts[i].at)
  }

  /** A mount point whose ancestor was mounted later was mounted again after that. */
  ghost predicate Uncovered(mounts: seq<Mount>) {
    forall i, j :: 0 <= i < j < |mounts| && ProperPrefix(mounts[j].at, mounts[i].at) ==>
      exists k :: j < k < |mounts| && mounts[k].at == mounts[i].at
  }

  lemma PrefixesNest(a: Path, b: Path, path: Path)
    requires a <= path && b <= path
    ensures if |a| <= |b| then a <= b else ProperPrefix(b, a)
  {
  }

  /** Mounting ancestors first makes the newest mount the deepest one. */
  lemma NewestIsDeepest(mounts: seq<Mount>, path: Path, i: nat)
    requires Uncovered(mounts) && Newest(mounts, path, i)
    ensures Deepest(mounts, path, i)
  {
    forall j | 0 <= j < |mounts| && mounts[j].at <= path ensures mounts[j].at <= mounts[i].at {
      PrefixesNest(mounts[j].at, mounts[i].at, path);
      assert j <= i;
    }
  }

  lemma {:induction false} NewestExists(mounts: seq<Mount>, path: Path, m: nat) returns (i: nat)
    requires m < |mounts| && mounts[m].at <= path
    ensures m <= i && Newest(mounts, path, i)
    decreases |mounts| - m
  {
    if j :| m < j < |mounts| && mounts[j].at <= path {
      i := NewestExists(mounts, path, j);
    } else {
      i := m;
    }
  }

  /** Lookup finds the deepest mount of every path exactly when no mount point is hidden by a
      later mount of an ancestor. */
  lemma LookupIsDeepestIff(mounts: seq<Mount>)
    ensures Uncovered(mounts) <==> forall path, i: nat :: Newest(mounts, path, i) ==> Deepest(mounts, path, i)
  {
    if Uncovered(mounts) {
      forall path, i: nat | Newest(mounts, path, i) ensures Deepest(mounts, path, i) {
        NewestIsDeepest(mounts, path, i);
      }
    }
    if forall path, i: nat :: Newest(mounts, path, i) ==> Deepest(mounts, path, i) {
      forall i, j | 0 <= i < j < |mounts| && ProperPrefix(mounts[j].at, mounts[i].at)
        ensures exists k :: j < k < |mounts| && mounts[k].at == mounts[i].at
      {
        var k := NewestExists(mounts, mounts[i].at, j);
        assert mounts[i].at <= mounts[k].at;
        assert mounts[k].at == mounts[i].at;
      }
    }
  }

  /** Mounting keeps lookup right exactly when nothing is mounted strictly below. */
  lemma MountKeepsIff(mounts: seq<Mount>, m: Mount)
    requires Uncovered(mounts)
    ensures Uncovered(mounts + [m]) <==> forall i :: 0 <= i < |mounts| ==> !ProperPrefix(m.at, mounts[i].at)
  {
    var all, n := mounts + [m], |mounts|;
    if forall i :: 0 <= i < n ==> !ProperPrefix(m.at, mounts[i].at) {
      forall i, j | 0 <= i < j < |all| && ProperPrefix(all[j].at, all[i].at)
        ensures exists k :: j < k < |all| && all[k].at == all[i].at
      {
        assert all[i] == mounts[i] && all[j] == mounts[j];
        var k :| j < k < n && mounts[k].at == mounts[i].at;
        assert all[k] == mounts[k];
      }
    } else {
      var i :| 0 <= i < n && ProperPrefix(m.at, mounts[i].at);
      assert all[i] == mounts[i] && all[n] == m;
    }
  }

  ghost predicate Found(mounts: seq<Mount>, path: Path) {
    exists i: nat :: Newest(mounts, path, i)
  }

  /** Lookup succeeds for every path exactly when the root is mounted. */
  lemma RootIff(mounts: seq<Mount>)
    ensures (forall path :: Found(mounts, path)) <==> exists i: nat :: i < |mounts| && mounts[i].at == []
  {
    if i: nat :| i < |mounts| && mounts[i].at == [] {
      forall path ensures Found(mounts, path) {
        var k := NewestExists(mounts, path, i);
      }
    }
    if forall path :: Found(mounts, path) {
      assert Found(mounts, []);
    }
  }

  /** The mounts of `init`, in order: /, /dev, /tmp, /dev/shm, /home, /var, /proc. */
  function InitialMounts(fs: seq<nat>): seq<Mount>
    requires |fs| == 7
  {
    [Mount([], fs[0]), Mount(["dev"], fs[1]), Mount(["tmp"], fs[2]), Mount(["dev", "shm"], fs[3]),
     Mount(["home"], fs[4]), Mount(["var"], fs[5]), Mount(["proc"], fs[6])]
  }

  lemma InitialAncestorsFirst(fs: seq<nat>)
    requires |fs| == 7
    ensures AncestorsFirst(InitialMounts(fs)) && Uncovered(InitialMounts(fs))
    ensures forall path :: Found(InitialMounts(fs), path)
    ensures var ms := InitialMounts(fs);
            && PathText(ms[0].at) == "/" && PathText(ms[1].at) == "/dev" && PathText(ms[2].at) == "/tmp"
            && PathText(ms[3].at) == "/dev/shm" && PathText(ms[4].at) == "/home" && PathText(ms[5].at) == "/var"
            && PathText(ms[6].at) == "/proc"
  {
    var ms := InitialMounts(fs);
    PrintsAs(["dev"], "shm");
    forall i, j | 0 <= i < j < |ms| ensures !ProperPrefix(ms[j].at, ms[i].at) {
      assert "var"[0] != "dev"[0];
      assert ms[j].at != [];
      if i == 3 {
        assert ms[j].at[0] != "dev";
      } else {
        assert |ms[i].at| <= 1;
      }
    }
    assert ms[0].at == [];
    RootIff(ms);
  }

  function Retain(mounts: seq<Mount>, at: Path): seq<Mount> {
    if mounts == [] then []
    else
      var rest := Retain(mounts[..|mounts| - 1], at);
      if mounts[|mounts| - 1].at == at then rest else rest + [mounts[|mounts| - 1]]
  }

  method RetainOthers(mounts: seq<Mount>, at: Path) returns (left: seq<Mount>)
    ensures left == Retain(mounts, at)
  {
    left := [];
    for i := 0 to |mounts|
      invariant left == Retain(mounts[..i], at)
    {
      assert mounts[..i + 1][..i] == mounts[..i];
      if mounts[i].at != at {
        left := left + [mounts[i]];
      }
    }
    assert mounts[..|mounts|] == mounts;
  }

  /** `left` are the first `n` mounts at other places than `at`, and `from` says where each was. */
  ghost predicate KeptFrom(mounts: seq<Mount>, n: nat, at: Path, left: seq<Mount>, from: seq<nat>) {
    && n <= |mounts| && |from| == |left|
    && (forall i :: 0 <= i < |from| ==> from[i] < n && left[i] == mounts[from[i]] && mounts[from[i]].at != at)
    && (forall i, j :: 0 <= i < j < |from| ==> from[i] < from[j])
    && forall k :: 0 <= k < n && mounts[k].at != at ==> k in from
  }

  lemma KeptNext(mounts: seq<Mount>, n: nat, at: Path, left: seq<Mount>, from: seq<nat>)
    requires KeptFrom(mounts, n, at, left, from) && n < |mounts|
    ensures if mounts[n].at != at then KeptFrom(mounts, n + 1, at, left + [mounts[n]], from + [n])
            else KeptFrom(mounts, n + 1, at, left, from)
  {
    forall k | 0 <= k < n && mounts[k].at != at ensures k in from + [n] {
      assert k in from;
    }
  }

  /** The retained mounts are those at other places, in their order. */
  lemma {:induction false} RetainIs(mounts: seq<Mount>, n: nat, at: Path) returns (from: seq<nat>)
    requires n <= |mounts|
    ensures KeptFrom(mounts, n, at, Retain(mounts[..n], at), from)
    decreases n
  {
    if n == 0 {
      from := [];
    } else {
      from := RetainIs(mounts, n - 1, at);
      KeptNext(mounts, n - 1, at, Retain(mounts[..n - 1], at), from);
      hide KeptFrom;
      assert mounts[..n][..n - 1] == mounts[..n - 1];
      from := if mounts[n - 1].at != at then from + [n - 1] else from;
    }
  }

  /** A place that was mounted again after `j` is among the retained mounts after that too. */
  lemma KeptAgain(mounts: seq<Mount>, at: Path, left: seq<Mount>, from: seq<nat>, i: nat, j: nat, k: nat)
    requires KeptFrom(mounts, |mounts|, at, left, from) && i < |left| && j < |left|
    requires from[j] < k < |mounts| && mounts[k].at == mounts[from[i]].at
    ensures exists l :: j < l < |left| && left[l].at == left[i].at
  {
    var l :| 0 <= l < |from| && from[l] == k;
    assert l != j && !(l < j);
    assert left[l].at == left[i].at;
  }

  lemma KeptUncovered(mounts: seq<Mount>, at: Path, left: seq<Mount>, from: seq<nat>)
    requires KeptFrom(mounts, |mounts|, at, left, from) && Uncovered(mounts)
    ensures Uncovered(left)
  {
    forall i, j | 0 <= i < j < |left| && ProperPrefix(left[j].at, left[i].at)
      ensures exists k :: j < k < |left| && left[k].at == left[i].at
    {
      var a, b := from[i], from[j];
      assert a < b < |mounts| && left[i] == mounts[a] && left[j] == mounts[b];
      hide KeptFrom; hide ProperPrefix;
      var k :| b < k < |mounts| && mounts[k].at == mounts[a].at;
      KeptAgain(mounts, at, left, from, i, j, k);
    }
  }

  lemma KeptMembers(mounts: seq<Mount>, at: Path, left: seq<Mount>, from: seq<nat>, m: Mount)
    requires KeptFrom(mounts, |mounts|, at, left, from)
    ensures m in left <==> m in mounts && m.at != at
  {
    if m in mounts && m.at != at {
      var k :| 0 <= k < |mounts| && mounts[k] == m;
      var l :| 0 <= l < |from| && from[l] == k;
      assert left[l] == m;
    }
    if m in left {
      var l :| 0 <= l < |left| && left[l] == m;
      assert m == mounts[from[l]];
    }
  }

  /** Unmounting keeps lookup right, and keeps ancestors before descendants. */
  lemma UmountKeeps(mounts: seq<Mount>, at: Path)
    ensures Uncovered(mounts) ==> Uncovered(Retain(mounts, at))
    ensures AncestorsFirst(mounts) ==> AncestorsFirst(Retain(mounts, at))
    ensures forall m :: m in Retain(mounts, at) <==> m in mounts && m.at != at
  {
    hide Retain;
    var left := Retain(mounts, at);
    assert mounts[..|mounts|] == mounts;
    var from := RetainIs(mounts, |mounts|, at);
    if Uncovered(mounts) {
      KeptUncovered(mounts, at, left, from);
    }
    forall m ensures m in left <==> m in mounts && m.at != at {
      KeptMembers(mounts, at, left, from, m);
    }
  }

  class MountTable {
    var mounts: seq<Mount>

    /** Lookup is right for every path. */
    ghost predicate Valid()
      reads this
    {
      Uncovered(mounts)
    }

    /** The mounts of `init`. */
    constructor (fs: seq<nat>)
      requires |fs| == 7
      ensures Valid() && mounts == InitialMounts(fs)
    {
      mounts := InitialMounts(fs);
      InitialAncestorsFirst(fs);
    }

    /** `get_mounted`: the newest mount at or above the path, with the rest of the path; none is
        a panic. */
    method GetMounted(path: Path) returns (r: Option<(nat, Path)>)
      ensures r.None? <==> forall i :: 0 <= i < |mounts| ==> !(mounts[i].at <= path)
      ensures r.Some? ==> exists i: nat :: && Newest(mounts, path, i) && (Valid() ==> Deepest(mounts, path, i))
                                           && r.value.0 == mounts[i].fs && mounts[i].at + r.value.1 == path
    {
      var i := |mounts|;
      while i > 0
        invariant 0 <= i <= |mounts|
        invariant forall j :: i <= j < |mounts| ==> !(mounts[j].at <= path)
      {
        i := i - 1;
        if StartsWith(path, mounts[i].at) {
          assert Newest(mounts, path, i);
          if Valid() {
            NewestIsDeepest(mounts, path, i);
          }
          return Some((mounts[i].fs, TrimStart(path, mounts[i].at)));
        }
      }
      return None;
    }

    /** `mount_fs`. */
    method MountFs(fs: nat, text: string)
      requires Valid()
      modifies this
      ensures mounts == old(mounts) + [Mount(Joined([], text), fs)] && Normal(Joined([], text))
      ensures Valid() <==> forall i :: 0 <= i < |old(mounts)| ==> !ProperPrefix(Joined([], text), old(mounts)[i].at)
    {
      var path := Join([], text);
      MountKeepsIff(mounts, Mount(path, fs));
      mounts := mounts + [Mount(path, fs)];
    }

    /** `umount`: every mount at the path goes, and lookup stays right. */
    method Umount(path: Path)
      requires Valid()
      modifies this
      ensures Valid() && mounts == Retain(old(mounts), path)
      ensures AncestorsFirst(old(mounts)) ==> AncestorsFirst(mounts)
      ensures forall m :: m in mounts <==> m in old(mounts) && m.at != path
    {
      UmountKeeps(mounts, path);
      mounts := RetainOthers(mounts, path);
    }
  }

  /** Mounting the root again hides everything: /dev is then looked up in the new root. */
  method MountHides(fs: seq<nat>, top: nat) returns (t: MountTable, r: Option<(nat, Path)>)
    requires |fs| == 7
    ensures !t.Valid() && r == Some((top, ["dev"]))
  {
    t := new MountTable(fs);
    var at := ["dev"];
    ghost var before := t.mounts;
    t.MountFs(top, "/");
    RootText();
    assert t.mounts[7].at == [];
    assert ProperPrefix([], before[1].at);
    r := t.GetMounted(at);
    assert t.mounts[7].at <= at;
    assert forall i: nat :: Newest(t.mounts, at, i) ==> i == 7;
    assert [] + r.value.1 == r.value.1;
  }

  lemma RootText()
    ensures Joined([], "/") == []
  {
    assert PathText([]) == "/";
    ParsePrint([], []);
  }
}
