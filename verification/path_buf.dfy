/** Paths as lists of components (`PathBuf`): joining text onto a path and printing it. */
module PathBufs {
  import opened Common

  type Path = seq<string>

  /** The pieces after one more character in front. */
  function Prepend(c: char, pieces: seq<string>): (r: seq<string>)
    requires |pieces| > 0
    ensures |r| > 0
  {
    if c == '/' then [""] + pieces else [[c] + pieces[0]] + pieces[1..]
  }

  lemma PrependAppend(c: char, a: seq<string>, b: seq<string>)
    requires |a| > 0
    ensures Prepend(c, a + b) == Prepend(c, a) + b
  {
    assert (a + b)[1..] == a[1..] + b;
  }

  /** The pieces of a text between slashes: one more than it has slashes. */
  function Split(s: string): (r: seq<string>)
    ensures |r| > 0
    ensures forall i :: 0 <= i < |r| ==> '/' !in r[i]
  {
    if s == "" then [""] else Prepend(s[0], Split(s[1..]))
  }

  /** `join("/")` of the standard library. */
  function JoinSlash(p: Path): string {
    if p == [] then "" else if |p| == 1 then p[0] else p[0] + "/" + JoinSlash(p[1..])
  }

  /** `path`. */
  function PathText(p: Path): string {
    "/" + JoinSlash(p)
  }

  predicate Absolute(s: string) {
    s != "" && s[0] == '/'
  }

  /** A component that names a directory entry. */
  predicate Name(x: string) {
    x != "" && x != "." && x != ".." && '/' !in x
  }

  predicate Normal(p: Path) {
    forall i :: 0 <= i < |p| ==> Name(p[i])
  }

  /** `dir`. */
  function Dir(p: Path): Path {
    if p == [] then [] else p[..|p| - 1]
  }

  function Step(p: Path, x: string): Path {
    if x == "." || x == "" then p else if x == ".." then Dir(p) else p + [x]
  }

  /** The path reached by following the pieces from left to right. */
  function Walk(p: Path, pieces: seq<string>): Path {
    if pieces == [] then p else Step(Walk(p, pieces[..|pieces| - 1]), pieces[|pieces| - 1])
  }

  function Joined(p: Path, s: string): Path {
    Walk(if Absolute(s) then [] else p, Split(s))
  }

  lemma {:induction false} WalkNormal(p: Path, pieces: seq<string>)
    requires Normal(p) && forall i :: 0 <= i < |pieces| ==> '/' !in pieces[i]
    ensures Normal(Walk(p, pieces))
    decreases |pieces|
  {
    if pieces != [] {
      WalkNormal(p, pieces[..|pieces| - 1]);
    }
  }

  lemma {:induction false} WalkAppend(p: Path, a: seq<string>, b: seq<string>)
    ensures Walk(p, a + b) == Walk(Walk(p, a), b)
    decreases |b|
  {
    if b == [] {
      assert a + b == a;
    } else {
      WalkAppend(p, a, b[..|b| - 1]);
      assert (a + b)[..|a + b| - 1] == a + b[..|b| - 1];
    }
  }

  lemma {:induction false} SplitSlash(a: string, b: string)
    ensures Split(a + "/" + b) == Split(a) + Split(b)
    decreases |a|
  {
    var s := a + "/" + b;
    if a == "" {
      assert s[1..] == b;
    } else {
      SplitSlash(a[1..], b);
      assert s[1..] == a[1..] + "/" + b && s[0] == a[0];
      PrependAppend(a[0], Split(a[1..]), Split(b));
      hide Prepend;
    }
  }

  lemma {:induction false} SplitName(x: string)
    requires '/' !in x
    ensures Split(x) == [x]
    decreases |x|
  {
    if x != "" {
      SplitName(x[1..]);
      assert [x[0]] + x[1..] == x;
    }
  }

  /** Splitting undoes joining. */
  lemma {:induction false} SplitJoin(p: Path)
    requires p != [] && Normal(p)
    ensures Split(JoinSlash(p)) == p
    decreases |p|
  {
    SplitName(p[0]);
    if |p| > 1 {
      SplitJoin(p[1..]);
      SplitSlash(p[0], JoinSlash(p[1..]));
    }
  }

  lemma {:induction false} WalkNames(p: Path, q: Path)
    requires Normal(q)
    ensures Walk(p, q) == p + q
    decreases |q|
  {
    if q != [] {
      WalkNames(p, q[..|q| - 1]);
      assert Name(q[|q| - 1]);
      assert q == q[..|q| - 1] + [q[|q| - 1]];
    }
  }

  /** Reading a printed path gives the path back. */
  lemma ParsePrint(p: Path, base: Path)
    requires Normal(p)
    ensures Joined(base, PathText(p)) == p
  {
    var s := PathText(p);
    assert s == "" + "/" + JoinSlash(p);
    SplitSlash("", JoinSlash(p));
    WalkAppend([], [""], Split(JoinSlash(p)));
    assert Walk([], [""]) == Step(Walk([], []), "") == [];
    if p == [] {
      assert Split(JoinSlash(p)) == [""];
    } else {
      SplitJoin(p);
      WalkNames([], p);
    }
  }

  /** Different normal paths print differently. */
  lemma PrintInjective(p: Path, q: Path)
    requires Normal(p) && Normal(q) && PathText(p) == PathText(q)
    ensures p == q
  {
    ParsePrint(p, []);
    ParsePrint(q, []);
  }

  lemma JoinedNormal(p: Path, s: string)
    requires Normal(p)
    ensures Normal(Joined(p, s))
  {
    WalkNormal(if Absolute(s) then [] else p, Split(s));
  }

  /** Joining a text with a relative one after it, in one step or two. */
  lemma JoinTwice(p: Path, a: string, b: string)
    requires a != "" && !Absolute(b)
    ensures Joined(Joined(p, a), b) == Joined(p, a + "/" + b)
  {
    assert (a + "/" + b)[0] == a[0];
    SplitSlash(a, b);
    WalkAppend(if Absolute(a) then [] else p, Split(a), Split(b));
  }

  /** With an empty first text the two agree exactly when `b` leads to the same place from
      the path and from the root: the slash makes the text absolute. */
  lemma JoinTwiceEmpty(p: Path, b: string)
    requires !Absolute(b)
    ensures Joined(Joined(p, ""), b) == Joined(p, "" + "/" + b) <==> Joined(p, b) == Joined([], b)
  {
    assert Split("") == [""];
    assert Walk(p, [""]) == Step(Walk(p, []), "") == p;
    assert Walk([], [""]) == Step(Walk([], []), "") == [];
    assert Absolute("" + "/" + b);
    SplitSlash("", b);
    WalkAppend([], [""], Split(b));
  }

  /** A name and ".." after it cancel out, and so do "." and doubled slashes. */
  lemma DotDotCancels(p: Path, a: string, x: string)
    requires a != "" && Name(x)
    ensures Joined(p, a + "/" + (x + "/" + "..")) == Joined(p, a)
    ensures Joined(p, a + "/" + ".") == Joined(p, a + "/" + "") == Joined(p, a)
    ensures Joined(p, a + "/" + x) == Joined(p, a) + [x]
  {
    var q := Joined(p, a);
    JoinTwice(p, a, x + "/" + "..");
    JoinTwice(q, x, "..");
    JoinTwice(p, a, x);
    JoinTwice(p, a, ".");
    JoinTwice(p, a, "");
    JoinPiece(q, x);
    JoinPiece(q + [x], "..");
    JoinPiece(q, ".");
    JoinPiece(q, "");
    assert Dir(q + [x]) == q;
  }

  /** Joining one piece, from any path: ".." leads to the parent, and at the root nowhere; a text that
      starts with a slash starts at the root. */
  lemma JoinOne(p: Path, x: string, s: string)
    requires Name(x)
    ensures Joined(p, x) == p + [x] && Joined(p + [x], "..") == p && Joined([], "..") == []
    ensures Joined(p, ".") == Joined(p, "") == p && Joined(p, "/" + s) == Joined([], s)
  {
    JoinPiece(p, x);
    JoinPiece(p + [x], "..");
    JoinPiece([], "..");
    JoinPiece(p, ".");
    JoinPiece(p, "");
    assert (p + [x])[..|p|] == p;
    assert "/" + s == "" + "/" + s;
    SplitSlash("", s);
    WalkAppend([], [""], Split(s));
    assert Walk([], [""]) == Step(Walk([], []), "") == [];
  }

  lemma Behind(a: string, s: string, t: string)
    requires a + s == a + t
    ensures s == t
  {
    assert (a + s)[|a|..] == s && (a + t)[|a|..] == t;
  }

  /** A path prints as its components, each after one slash, and the root as a slash. */
  lemma {:induction false} PrintsAs(p: Path, x: string)
    ensures PathText([]) == "/" && PathText([x]) == "/" + x
    ensures p != [] ==> PathText(p + [x]) == PathText(p) + "/" + x
    decreases |p|
  {
    if |p| > 1 {
      PrintsAs(p[1..], x);
      assert (p + [x])[1..] == p[1..] + [x];
      assert "/" + JoinSlash(p[1..] + [x]) == "/" + (JoinSlash(p[1..]) + "/" + x);
      Behind("/", JoinSlash(p[1..] + [x]), JoinSlash(p[1..]) + "/" + x);
      assert p[0] + "/" + (JoinSlash(p[1..]) + "/" + x) == p[0] + "/" + JoinSlash(p[1..]) + "/" + x;
    } else if |p| == 1 {
      assert (p + [x])[1..] == [x];
    }
  }

  lemma JoinPiece(p: Path, x: string)
    requires '/' !in x
    ensures Joined(p, x) == Step(p, x)
  {
    SplitName(x);
    assert Walk(p, [x]) == Step(Walk(p, []), x);
  }

  /** `join`: a normal path, whatever the text. */
  method Join(p: Path, s: string) returns (r: Path)
    requires Normal(p)
    ensures r == Joined(p, s) && Normal(r)
    ensures Joined([], PathText(r)) == r
  {
    r := if Absolute(s) then [] else p;
    ghost var start := r;
    var pieces := Split(s);
    for i := 0 to |pieces|
      invariant r == Walk(start, pieces[..i])
    {
      assert pieces[..i + 1][..i] == pieces[..i];
      if pieces[i] == "." || pieces[i] == "" {
      } else if pieces[i] == ".." {
        if r != [] {
          r := r[..|r| - 1];
        }
      } else {
        r := r + [pieces[i]];
      }
    }
    assert pieces[..|pieces|] == pieces;
    JoinedNormal(p, s);
    ParsePrint(r, []);
  }

  /** `starts_with`. */
  predicate StartsWith(p: Path, target: Path) {
    target <= p
  }

  /** `trim_start`. */
  function TrimStart(p: Path, target: Path): (r: Path)
    ensures StartsWith(p, target) <==> target + r == p
  {
    if StartsWith(p, target) then p[|target|..]
    else assert forall r: Path :: target + r == p ==> StartsWith(p, target); p
  }
}
