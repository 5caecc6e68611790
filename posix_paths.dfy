/** The parts of Python's `posixpath` and `pathlib.PurePosixPath` that the
    shell's navigation relies on, over plain strings. */
module PosixPaths {

  import opened Text

  predicate AllSlashes(s: string)
  {
    forall i :: 0 <= i < |s| ==> s[i] == '/'
  }

  /** `s.rstrip("/")`: the longest prefix of `s` that does not end in a slash. */
  function RStripSlash(s: string): (r: string)
    ensures |r| <= |s| && r == s[..|r|]
    ensures r == [] || r[|r| - 1] != '/'
    ensures forall i :: |r| <= i < |s| ==> s[i] == '/'
  {
    if s != [] && s[|s| - 1] == '/' then RStripSlash(s[..|s| - 1]) else s
  }

  /** `s.rfind(c)`: the index of the last `c` in `s`, or -1 when there is none. */
  function RFind(s: string, c: char): (r: int)
    ensures -1 <= r < |s|
    ensures r >= 0 ==> s[r] == c
    ensures forall j :: r < j < |s| ==> s[j] != c
  {
    if s == [] then -1
    else if s[|s| - 1] == c then |s| - 1
    else RFind(s[..|s| - 1], c)
  }

  /** `posixpath.dirname(p)`: `p` up to its last slash, with trailing slashes
      removed unless nothing but slashes is left. */
  function DirName(p: string): (r: string)
    ensures |r| <= |p| && r == p[..|r|]
    ensures r == [] || AllSlashes(r) || r[|r| - 1] != '/'
    ensures '/' !in p ==> r == []
  {
    var head := p[..RFind(p, '/') + 1];
    if head != [] && !AllSlashes(head) then RStripSlash(head) else head
  }

  /** `posixpath.join(a, b)` for a single component `b`: an absolute `b`
      replaces `a`, otherwise `b` is appended after a separating slash. */
  function Join(a: string, b: string): (r: string)
    ensures |b| <= |r| && r[|r| - |b|..] == b
    ensures b != [] && b[0] == '/' ==> r == b
    ensures (b == [] || b[0] != '/') ==> |a| <= |r| && r[..|a|] == a
  {
    if b != [] && b[0] == '/' then b
    else if a == [] || a[|a| - 1] == '/' then a + b
    else a + "/" + b
  }

  /** The anchor `PurePosixPath` gives a path: exactly two leading slashes
      stay `//`, one or three or more become `/`, none gives no anchor. */
  function Anchor(s: string): (r: string)
    ensures r == [] <==> (s == [] || s[0] != '/')
    ensures r != [] ==> AllSlashes(r) && |r| <= 2
  {
    if |s| >= 2 && s[0] == '/' && s[1] == '/' && (|s| == 2 || s[2] != '/') then "//"
    else if s != [] && s[0] == '/' then "/"
    else []
  }

  /** The pieces of `ps` that are neither empty nor `.`. */
  function DropEmptyAndDot(ps: seq<string>): (r: seq<string>)
    ensures |r| <= |ps|
    ensures forall k :: 0 <= k < |r| ==> r[k] != [] && r[k] != "." && r[k] in ps
  {
    if ps == [] then []
    else (if ps[0] == [] || ps[0] == "." then [] else [ps[0]]) + DropEmptyAndDot(ps[1..])
  }

  lemma {:induction false} DropEmptyAndDotAppend(a: seq<string>, b: seq<string>)
    ensures DropEmptyAndDot(a + b) == DropEmptyAndDot(a) + DropEmptyAndDot(b)
    decreases |a|
  {
    if a == [] {
      assert a + b == b;
    } else {
      var h := if a[0] == [] || a[0] == "." then [] else [a[0]];
      calc {
        DropEmptyAndDot(a + b);
      == { assert (a + b)[0] == a[0] && (a + b)[1..] == a[1..] + b; }
        h + DropEmptyAndDot(a[1..] + b);
      == { DropEmptyAndDotAppend(a[1..], b); }
        h + (DropEmptyAndDot(a[1..]) + DropEmptyAndDot(b));
      ==
        (h + DropEmptyAndDot(a[1..])) + DropEmptyAndDot(b);
      }
    }
  }

  /** Pieces that are neither empty nor `.` are all kept. */
  lemma {:induction false} DropNothing(ps: seq<string>)
    requires forall k :: 0 <= k < |ps| ==> ps[k] != [] && ps[k] != "."
    ensures DropEmptyAndDot(ps) == ps
    decreases |ps|
  {
    if ps != [] {
      DropNothing(ps[1..]);
      assert [ps[0]] + ps[1..] == ps;
    }
  }

  /** The named parts of a path: the pieces between slashes, without empty
      pieces and without `.`, which `pathlib` discards. */
  function Segments(s: string): (r: seq<string>)
    ensures forall k :: 0 <= k < |r| ==> r[k] != [] && r[k] != "." && '/' !in r[k]
  {
    var pieces := Split(s, '/');
    var r := DropEmptyAndDot(pieces);
    assert forall k :: 0 <= k < |r| ==> '/' !in r[k] by {
      forall k | 0 <= k < |r| ensures '/' !in r[k] {
        var j :| 0 <= j < |pieces| && pieces[j] == r[k];
      }
    }
    r
  }

  /** `PurePosixPath(s).parts`: the anchor, if any, then the named parts. */
  function ParsePath(s: string): (r: seq<string>)
    ensures forall k :: 0 <= k < |r| ==> r[k] != [] && r[k] != "."
    ensures forall k :: 0 < k < |r| ==> '/' !in r[k]
    ensures s != [] && s[0] == '/' ==> r != [] && AllSlashes(r[0])
    ensures (s == [] || s[0] != '/') ==> forall k :: 0 <= k < |r| ==> '/' !in r[k]
  {
    var a := Anchor(s);
    (if a == [] then [] else [a]) + Segments(s)
  }

  /** Names that `pathlib` keeps as parts: not empty, not `.`, no slash. */
  predicate IsPart(x: string)
  {
    x != [] && x != "." && '/' !in x
  }

  /** A join starts with the first piece's first character. */
  lemma JoinStartsWith(ps: seq<string>, sep: char)
    requires ps != [] && ps[0] != []
    ensures JoinWith(ps, sep) != [] && JoinWith(ps, sep)[0] == ps[0][0]
  {
    if |ps| > 1 {
      assert JoinWith(ps, sep) == ps[0] + ([sep] + JoinWith(ps[1..], sep));
    }
  }

  /** Parts joined by single slashes are the named parts of the result. */
  lemma SegmentsOfJoined(xs: seq<string>)
    requires xs != [] && forall k :: 0 <= k < |xs| ==> IsPart(xs[k])
    ensures Segments(JoinWith(xs, '/')) == xs
  {
    JoinThenSplit(xs, '/');
    DropNothing(xs);
  }

  /** `Path("a/b/c").parts == ("a", "b", "c")`: a relative path made of
      parts, joined by single slashes, parses back into those parts. */
  lemma ParsePathOfJoined(xs: seq<string>)
    requires xs != [] && forall k :: 0 <= k < |xs| ==> IsPart(xs[k])
    ensures ParsePath(JoinWith(xs, '/')) == xs
  {
    SegmentsOfJoined(xs);
    JoinStartsWith(xs, '/');
    assert Anchor(JoinWith(xs, '/')) == [];
  }

  /** A leading slash adds no named part. */
  lemma SegmentsBehindSlash(j: string)
    ensures Segments("/" + j) == Segments(j)
  {
    var s := "/" + j;
    assert s[0] == '/' && s[1..] == j;
    assert Split(s, '/') == [[]] + Split(j, '/');
    assert DropEmptyAndDot([[]] + Split(j, '/')) == DropEmptyAndDot(Split(j, '/'));
  }

  /** `Path("/a/b").parts == ("/", "a", "b")`: the same parts behind a
      single leading slash parse with the root anchor first. */
  lemma AbsolutePathOfJoined(xs: seq<string>)
    requires xs != [] && forall k :: 0 <= k < |xs| ==> IsPart(xs[k])
    ensures ParsePath("/" + JoinWith(xs, '/')) == ["/"] + xs
  {
    var j := JoinWith(xs, '/');
    JoinStartsWith(xs, '/');
    assert ("/" + j)[1] == j[0];
    assert Anchor("/" + j) == "/";
    SegmentsBehindSlash(j);
    SegmentsOfJoined(xs);
  }

  /** `PurePosixPath(at).name`: the last named part, or "" when there is none. */
  function Name(at: string): (r: string)
    ensures r == [] || (r != "." && '/' !in r)
    ensures r == [] <==> Segments(at) == []
  {
    var segs := Segments(at);
    if segs == [] then [] else segs[|segs| - 1]
  }

  /** A single plain name is its own only part and its own name. */
  lemma PlainName(s: string)
    requires s != [] && s != "." && '/' !in s
    ensures Segments(s) == [s] && ParsePath(s) == [s] && Name(s) == s
  {
    SplitWithoutSeparator(s, '/');
    assert DropEmptyAndDot([s]) == [s] + DropEmptyAndDot([]);
  }

  /** Below a directory position `d` (the root or a name ending in a slash),
      the file `d + x` and the directory `d + x + "/"` are both named `x`. */
  lemma NameBelow(d: string, x: string)
    requires d == [] || d[|d| - 1] == '/'
    requires x != [] && x != "." && '/' !in x
    ensures Name(d + x) == x && Name(d + x + "/") == x
  {
    var dx := d + x;
    if d == [] {
      PlainName(x);
      assert dx == x;
    } else {
      var d' := d[..|d| - 1];
      assert dx == d' + ['/'] + x;
      SplitSnoc(d', '/', x);
      DropEmptyAndDotAppend(Split(d', '/'), [x]);
      assert DropEmptyAndDot([x]) == [x] + DropEmptyAndDot([]);
    }
    SplitSnoc(dx, '/', []);
    assert dx + "/" == dx + ['/'] + [];
    DropEmptyAndDotAppend(Split(dx, '/'), [[]]);
    assert DropEmptyAndDot([[]]) == [] + DropEmptyAndDot([]);
    assert Segments(dx + "/") == Segments(dx);
    if d == [] {
      assert Segments(dx) == [x];
    } else {
      assert Segments(dx) == DropEmptyAndDot(Split(d[..|d| - 1], '/')) + [x];
    }
  }
}
