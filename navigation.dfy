/** Path resolution (`ShellEmulator.resolve_path`) and the change of
    directory it feeds (`ShellEmulator.cd`). */
module Navigation {

  import opened Options
  import opened PosixPaths
  import opened ZipTree

  /** A resolved position, or the part that named nothing. */
  datatype Resolution = Found(node: string) | NotFound(part: string)

  /** A part that names an entry, rather than the root, the parent or the
      current position. */
  predicate IsOrdinary(part: string)
  {
    part != "/" && part != ".." && part != "."
  }

  /** One turn of the resolution loop: the cursor after `part`. */
  function Advance(names: set<string>, cursor: string, part: string): (r: Resolution)
    ensures r.NotFound? <==> IsOrdinary(part) && ResolveDir(names, Join(cursor, part)) !in names
    ensures r.NotFound? ==> r.part == part
    ensures r.Found? && IsOrdinary(part) ==> r.node in names
  {
    if part == "/" then Found([])
    else if part == ".." then Found(if cursor == [] then [] else Parent(cursor))
    else if part == "." then Found(cursor)
    else
      var next := ResolveDir(names, Join(cursor, part));
      if next in names then Found(next) else NotFound(part)
  }

  /** `resolve_path`: fold the parts over a cursor that starts at `cursor`;
      the first part that names nothing ends resolution with no position. */
  function Resolve(names: set<string>, cursor: string, parts: seq<string>): (r: Resolution)
    ensures r.NotFound? ==> r.part in parts && IsOrdinary(r.part)
    ensures r.Found? && parts != [] && IsOrdinary(parts[|parts| - 1]) ==> r.node in names
    decreases |parts|
  {
    if parts == [] then Found(cursor)
    else
      match Advance(names, cursor, parts[0])
      case NotFound(p) => NotFound(p)
      case Found(next) =>
        var r := Resolve(names, next, parts[1..]);
        assert r.NotFound? ==> r.part in parts by {
          if r.NotFound? { assert r.part in parts[1..]; }
        }
        assert |parts| > 1 ==> parts[1..][|parts| - 2] == parts[|parts| - 1];
        r
  }

  /** Resolving `a + b` resolves `a` and then `b` from where `a` ended. */
  lemma {:induction false} ResolveConcat(names: set<string>, cursor: string, a: seq<string>, b: seq<string>)
    ensures Resolve(names, cursor, a + b) ==
            match Resolve(names, cursor, a)
            case NotFound(p) => NotFound(p)
            case Found(c) => Resolve(names, c, b)
    decreases |a|
  {
    if a == [] {
      assert a + b == b;
    } else {
      assert (a + b)[0] == a[0] && (a + b)[1..] == a[1..] + b;
      match Advance(names, cursor, a[0])
      case NotFound(p) =>
      case Found(next) => ResolveConcat(names, next, a[1..], b);
    }
  }

  /** Parts that are all `.` never move the cursor. */
  lemma {:induction false} DotsStay(names: set<string>, cursor: string, parts: seq<string>)
    requires forall k :: 0 <= k < |parts| ==> parts[k] == "."
    ensures Resolve(names, cursor, parts) == Found(cursor)
    decreases |parts|
  {
    if parts != [] {
      DotsStay(names, cursor, parts[1..]);
    }
  }

  /** `..` at the root stays at the root and never fails, however often. */
  lemma {:induction false} UpFromRootStays(names: set<string>, parts: seq<string>)
    requires forall k :: 0 <= k < |parts| ==> parts[k] == ".."
    ensures Resolve(names, [], parts) == Found([])
    decreases |parts|
  {
    if parts != [] {
      UpFromRootStays(names, parts[1..]);
    }
  }

  /** A `/` part forgets everything before it: what follows is resolved
      from the root, whatever the start and the earlier parts were. */
  lemma SlashResets(names: set<string>, cursor: string, a: seq<string>, b: seq<string>)
    requires Resolve(names, cursor, a).Found?
    ensures Resolve(names, cursor, a + ["/"] + b) == Resolve(names, [], b)
  {
    ResolveConcat(names, cursor, a, ["/"] + b);
    assert a + ["/"] + b == a + (["/"] + b);
    var c := Resolve(names, cursor, a).node;
    assert (["/"] + b)[1..] == b;
  }

  /** A failed resolution names the first part that does not exist: every
      part before it resolved, and that part itself named nothing. */
  lemma {:induction false} NotFoundIsFirstMissingPart(names: set<string>, cursor: string, parts: seq<string>)
    returns (k: nat)
    requires Resolve(names, cursor, parts).NotFound?
    ensures k < |parts| && parts[k] == Resolve(names, cursor, parts).part
    ensures Resolve(names, cursor, parts[..k]).Found?
    ensures Advance(names, Resolve(names, cursor, parts[..k]).node, parts[k]).NotFound?
    decreases |parts|
  {
    match Advance(names, cursor, parts[0])
    case NotFound(p) =>
      k := 0;
    case Found(next) =>
      var tail := parts[1..];
      var j := NotFoundIsFirstMissingPart(names, next, tail);
      k := j + 1;
      var done := parts[..k];
      assert done != [] && done[0] == parts[0] && done[1..] == tail[..j];
      assert Resolve(names, cursor, done) == Resolve(names, next, tail[..j]);
      assert parts[k] == tail[j];
  }

  /** A position that is the root or one of the archive's names. */
  predicate InTree(names: set<string>, at: string)
  {
    at == [] || at in names
  }

  /** Resolution from a position in the tree ends in the tree: it never
      yields a dangling position. */
  lemma {:induction false} ResolveStaysInTree(entries: set<string>, cursor: string, parts: seq<string>)
    requires WellFormed(entries)
    requires InTree(NameSet(entries), cursor)
    ensures Resolve(NameSet(entries), cursor, parts).Found? ==>
              InTree(NameSet(entries), Resolve(NameSet(entries), cursor, parts).node)
    decreases |parts|
  {
    if parts != [] {
      var names := NameSet(entries);
      if parts[0] == ".." && cursor != [] {
        ParentInNameSet(entries, cursor);
      }
      match Advance(names, cursor, parts[0])
      case NotFound(_) =>
      case Found(next) => ResolveStaysInTree(entries, next, parts[1..]);
    }
  }

  /** Going down into a child and back up with `..` returns to the start. */
  lemma ChildThenParent(names: set<string>, d: string, x: string)
    requires IsPlainDir(d) && IsChildPart(x)
    requires Resolve(names, d, [x]).Found?
    ensures Resolve(names, d, [x, ".."]) == Found(d)
  {
    var c := ResolveDir(names, d + x);
    assert Join(d, x) == d + x;
    assert Advance(names, d, x) == Found(c);
    ParentOfChild(d, x, c);
    assert Advance(names, c, "..") == Found(d);
    assert [x, ".."][1..] == [".."] && [".."][1..] == [];
  }

  /** The parent of a child `d + x`, file or directory, is `d`. */
  lemma ParentOfChild(d: string, x: string, c: string)
    requires IsPlainDir(d) && x != [] && '/' !in x
    requires c == d + x || c == d + x + "/"
    ensures c != [] && Parent(c) == d
  {
    DirNameOfChild(d, x);
    assert RStripSlash(c) == d + x;
    if d != [] {
      assert d[..|d| - 1] + "/" == d;
    }
  }

  /** What `ls` lists below a directory can be reached by resolving its
      listed name from there: the child `d + x` and the child directory
      `d + x + "/"` are both children of `d` named `x`, and resolving `x`
      reaches the file when there is one and the directory otherwise. */
  lemma ListedChildResolves(names: set<string>, archiveName: string, d: string, x: string, n: string)
    requires IsPlainDir(d) && IsChildPart(x)
    requires n in names && (n == d + x || n == d + x + "/")
    ensures n in Children(names, d)
    ensures ItemName(n, archiveName) == x
    ensures Resolve(names, d, [x]) == Found(if d + x in names then d + x else d + x + "/")
  {
    DirNameOfChild(d, x);
    assert RStripSlash(n) == d + x;
    assert IsChild(d, n);
    NameBelow(d, x);
    assert Name(n) == x;
    ResolveOneChild(names, d, x);
  }

  /** Resolving a single child name from a directory: the child exists as
      a file, or else as a directory, or the name is reported missing. */
  lemma ResolveOneChild(names: set<string>, d: string, x: string)
    requires IsChildPart(x) && (d == [] || d[|d| - 1] == '/')
    ensures Resolve(names, d, [x]) ==
            var c := ResolveDir(names, d + x); if c in names then Found(c) else NotFound(x)
  {
    assert Join(d, x) == d + x;
    assert [x][1..] == [];
  }

  /** `cd`: the shell moves only to an existing directory; a missing
      target, one that does not exist or one that is a file leaves the
      current position where it was. */
  function CdTarget(names: set<string>, pwd: string, path: Option<string>): (r: string)
    ensures r == pwd || (path == Some(r) && r in names && IsDir(r))
    ensures path.Some? && path.value in names && IsDir(path.value) ==> r == path.value
    ensures IsCwd(names, pwd) ==> IsCwd(names, r)
  {
    if path.None? || path.value !in names || !IsDir(path.value) then pwd else path.value
  }

  /** The root never exists as an archive name, so `cd` can never move
      back to it: `cd /` and `cd ..` out of a top-level directory fail. */
  lemma CdNeverReachesRoot(entries: set<string>, pwd: string)
    requires WellFormed(entries)
    ensures CdTarget(NameSet(entries), pwd, Some([])) == pwd
  {
    RootNeverExists(entries);
  }
}
