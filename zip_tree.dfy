/** The archive's namespace as `zipfile.Path` presents it to the shell.
    A position is the string `at` of a `zipfile.Path`: "" is the root, a
    name ending in a slash is a directory, anything else a file. The
    archive itself is the set of its entry names. */
module ZipTree {

  import opened PosixPaths

  /** Every proper prefix of an entry that ends in a slash: the directories
      the archive implies without storing a marker for them. */
  function ImpliedDirs(entries: set<string>): (dirs: set<string>)
    ensures forall d :: d in dirs ==> d != [] && d[|d| - 1] == '/'
  {
    set e, i | e in entries && 0 <= i < |e| - 1 && e[i] == '/' :: e[..i + 1]
  }

  /** The names at which a position exists: the entries themselves and the
      directories they imply. */
  function NameSet(entries: set<string>): (names: set<string>)
    ensures entries <= names
    ensures forall d :: d in names && d !in entries ==> d != [] && d[|d| - 1] == '/'
  {
    entries + ImpliedDirs(entries)
  }

  /** Entry names as an archive writer stores them: not empty and relative. */
  predicate WellFormed(entries: set<string>)
  {
    forall e :: e in entries ==> e != [] && e[0] != '/'
  }

  /** `zipfile.Path.is_dir()`: the root, or a name ending in a slash. */
  predicate IsDir(at: string)
  {
    at == [] || at[|at| - 1] == '/'
  }

  /** `zipfile.Path.exists()`: the position is one of the archive's names.
      The root is not a name, so it never exists in this sense. */
  lemma RootNeverExists(entries: set<string>)
    requires WellFormed(entries)
    ensures [] !in NameSet(entries)
  {
  }

  /** A position the shell may stand at: the root or an existing directory. */
  predicate IsCwd(names: set<string>, at: string)
  {
    at == [] || (at in names && IsDir(at))
  }

  /** `resolve_dir`: a name that is not itself a name of the archive but is
      one with a slash appended denotes that directory. */
  function ResolveDir(names: set<string>, name: string): (r: string)
    ensures r == name || (r == name + "/" && name !in names && r in names)
    ensures name in names ==> r == name
    ensures name !in names && name + "/" in names ==> r == name + "/"
  {
    if name !in names && name + "/" in names then name + "/" else name
  }

  /** `zipfile.Path.parent` of a position other than the root: the dirname
      of the position without its trailing slashes, as a directory. */
  function Parent(at: string): (r: string)
    requires at != []
    ensures r == [] || r[|r| - 1] == '/'
  {
    var d := DirName(RStripSlash(at));
    if d == [] then [] else d + "/"
  }

  /** For a relative position the parent is the root or a proper prefix of
      the position that ends in a slash. */
  lemma ParentIsPrefix(at: string)
    requires at != [] && at[0] != '/'
    ensures var p := Parent(at); p == [] || (|p| < |at| && p == at[..|p|])
  {
    var s := RStripSlash(at);
    assert at[0] == s[0];
    var i := RFind(s, '/') + 1;
    var head := s[..i];
    if i > 0 {
      assert head[0] == at[0] && head[i - 1] == '/';
      assert !AllSlashes(head);
      var d := RStripSlash(head);
      assert DirName(s) == d;
      assert d != [];
      assert |d| < i;
      assert head[|d|] == '/';
      assert d + "/" == at[..|d| + 1];
      assert |d| + 1 < |at|;
    }
  }

  /** A slash-terminated proper prefix of an entry is a name. */
  lemma PrefixInNameSet(entries: set<string>, e: string, k: int)
    requires e in entries && 0 <= k < |e| - 1 && e[k] == '/'
    ensures e[..k + 1] in NameSet(entries)
  {
    assert e[..k + 1] in ImpliedDirs(entries);
  }

  /** Every name is a prefix of some entry. */
  lemma NameIsEntryPrefix(entries: set<string>, at: string) returns (e: string)
    requires at in NameSet(entries)
    ensures e in entries && |at| <= |e| && at == e[..|at|]
    ensures at != e ==> |at| < |e|
  {
    if at in entries {
      e := at;
    } else {
      var e', j :| e' in entries && 0 <= j < |e'| - 1 && e'[j] == '/' && at == e'[..j + 1];
      e := e';
    }
  }

  /** Moving to the parent of an existing position lands on the root or on
      a name of the archive: navigation upwards never leaves the tree. */
  lemma ParentInNameSet(entries: set<string>, at: string)
    requires WellFormed(entries)
    requires at in NameSet(entries)
    ensures Parent(at) == [] || Parent(at) in NameSet(entries)
  {
    var e := NameIsEntryPrefix(entries, at);
    assert at != [] && at[0] != '/' by {
      if at !in entries { assert at[0] == e[0]; }
    }
    ParentIsPrefix(at);
    var p := Parent(at);
    if p != [] {
      assert p == e[..|p|];
      PrefixInNameSet(entries, e, |p| - 1);
    }
  }

  /** A part that can name a child of a directory. */
  predicate IsChildPart(x: string)
  {
    x != [] && '/' !in x && x != "." && x != ".."
  }

  /** A directory position with exactly one trailing slash, or the root. */
  predicate IsPlainDir(d: string)
  {
    d == [] || (|d| >= 2 && d[|d| - 1] == '/' && d[|d| - 2] != '/')
  }

  /** A child name has no trailing slash to strip, with or without its
      directory marker. */
  lemma StripChild(d: string, x: string)
    requires x != [] && '/' !in x
    ensures RStripSlash(d + x) == d + x && RStripSlash(d + x + "/") == d + x
  {
    var dx := d + x;
    assert dx[|dx| - 1] == x[|x| - 1];
    assert (dx + "/")[..|dx|] == dx;
  }

  /** The last slash of `d + x` is the one that ends `d`. */
  lemma LastSlashOfChild(d: string, x: string)
    requires d != [] && d[|d| - 1] == '/' && '/' !in x
    ensures RFind(d + x, '/') == |d| - 1
  {
    var dx := d + x;
    var r := RFind(dx, '/');
    assert dx[|d| - 1] == '/';
    assert forall j :: |d| <= j < |dx| ==> dx[j] == x[j - |d|];
  }

  /** Below a plain directory `d`, the dirname of `d + x` is `d` without
      its slash, and so is that of `d + x + "/"` once stripped. */
  lemma DirNameOfChild(d: string, x: string)
    requires IsPlainDir(d) && x != [] && '/' !in x
    ensures RStripSlash(d + x) == d + x && RStripSlash(d + x + "/") == d + x
    ensures DirName(d + x) == RStripSlash(d)
    ensures d != [] ==> RStripSlash(d) == d[..|d| - 1]
  {
    StripChild(d, x);
    if d != [] {
      LastSlashOfChild(d, x);
      assert (d + x)[..|d|] == d;
      assert !AllSlashes(d) by { assert d[|d| - 2] != '/'; }
      assert RStripSlash(d) == RStripSlash(d[..|d| - 1]);
    }
  }

  /** `zipfile.Path.name`: the last named part of the position, or the
      archive file's own name at the root. */
  function ItemName(at: string, archiveName: string): string
  {
    if Name(at) != [] then Name(at) else archiveName
  }

  /** `iterdir`'s test for a child of `at`: the dirname of `n`, trailing
      slashes ignored, is `at` without its trailing slashes. */
  predicate IsChild(at: string, n: string)
  {
    DirName(RStripSlash(n)) == RStripSlash(at)
  }

  /** The positions `iterdir` yields for `at`. */
  function Children(names: set<string>, at: string): (kids: set<string>)
    ensures kids <= names
  {
    set n | n in names && IsChild(at, n)
  }

  /** `iterdir` of a directory yields exactly the names whose parent is
      that directory: direct children, not the whole subtree. */
  lemma ChildIffParent(names: set<string>, at: string, n: string)
    requires IsPlainDir(at) && n in names && n != []
    ensures n in Children(names, at) <==> Parent(n) == at
  {
    var d := DirName(RStripSlash(n));
    if at != [] {
      assert RStripSlash(at) == RStripSlash(at[..|at| - 1]);
      assert RStripSlash(at) == at[..|at| - 1];
      assert at == at[..|at| - 1] + "/";
    }
  }
}
