/**
 * The parts of Python's `posixpath` the handlers rely on: `join`,
 * `splitext`, and the way the kernel reads a path string as a list of
 * components (`Segments`).
 */
module PosixPath {
  import opened Text

  /** `s.split('/')`: the pieces between the slashes, empty ones included. */
  function Split(s: string): (r: seq<string>)
    ensures |r| > 0
    ensures forall k :: 0 <= k < |r| ==> '/' !in r[k]
    decreases |s|
  {
    if |s| == 0 then [""]
    else if s[0] == '/' then [""] + Split(s[1..])
    else
      var t := Split(s[1..]);
      [[s[0]] + t[0]] + t[1..]
  }

  /** `'/'.join(parts)`. */
  function Unsplit(parts: seq<string>): string
    requires |parts| > 0
    decreases |parts|
  {
    if |parts| == 1 then parts[0] else parts[0] + "/" + Unsplit(parts[1..])
  }

  /** Splitting loses nothing: joining the pieces with slashes gives the
      string back. */
  lemma {:induction false} SplitRoundTrip(s: string)
    ensures Unsplit(Split(s)) == s
    decreases |s|
  {
    if |s| == 0 {
    } else if s[0] == '/' {
      SplitRoundTrip(s[1..]);
      assert Split(s) == [""] + Split(s[1..]);
      if |Split(s[1..])| == 1 {
        assert Unsplit(Split(s)) == "" + "/" + Split(s[1..])[0];
      } else {
        assert Split(s)[1..] == Split(s[1..]);
      }
    } else {
      var t := Split(s[1..]);
      SplitRoundTrip(s[1..]);
      var r := [[s[0]] + t[0]] + t[1..];
      assert Split(s) == r;
      if |t| == 1 {
        assert Unsplit(r) == [s[0]] + t[0];
      } else {
        assert r[1..] == t[1..];
        assert Unsplit(r) == [s[0]] + t[0] + "/" + Unsplit(t[1..]);
        assert Unsplit(t) == t[0] + "/" + Unsplit(t[1..]);
      }
    }
  }

  /** A slash splits a string into the pieces of its two sides. */
  lemma {:induction false} SplitConcat(a: string, b: string)
    ensures Split(a + "/" + b) == Split(a) + Split(b)
    decreases |a|
  {
    var s := a + "/" + b;
    if |a| == 0 {
      assert s[0] == '/' && s[1..] == b;
    } else if a[0] == '/' {
      assert s[1..] == a[1..] + "/" + b;
      SplitConcat(a[1..], b);
    } else {
      assert s[1..] == a[1..] + "/" + b;
      SplitConcat(a[1..], b);
    }
  }

  /** A string without a slash is one piece. */
  lemma {:induction false} SplitName(n: string)
    requires '/' !in n
    ensures Split(n) == [n]
    decreases |n|
  {
    if |n| > 0 {
      SplitName(n[1..]);
      assert [n[0]] + n[1..] == n;
    }
  }

  /** Keeps the pieces that name a component: the kernel skips the empty
      pieces repeated slashes leave and the `.` pieces. */
  function Keep(parts: seq<string>): (r: seq<string>)
    ensures forall k :: 0 <= k < |r| ==> r[k] in parts && r[k] != "" && r[k] != "."
    decreases |parts|
  {
    if |parts| == 0 then []
    else (if parts[0] == "" || parts[0] == "." then [] else [parts[0]]) + Keep(parts[1..])
  }

  lemma {:induction false} KeepConcat(a: seq<string>, b: seq<string>)
    ensures Keep(a + b) == Keep(a) + Keep(b)
    decreases |a|
  {
    if |a| > 0 {
      assert (a + b)[1..] == a[1..] + b;
      KeepConcat(a[1..], b);
    } else {
      assert a + b == b;
    }
  }

  /** The components the kernel reads from a path string. */
  function Segments(s: string): (r: seq<string>)
    ensures forall k :: 0 <= k < |r| ==> r[k] != "" && r[k] != "." && '/' !in r[k]
  {
    Keep(Split(s))
  }

  /** The components of `a/b` are those of `a` followed by those of `b`. */
  lemma SegmentsConcat(a: string, b: string)
    ensures Segments(a + "/" + b) == Segments(a) + Segments(b)
  {
    SplitConcat(a, b);
    KeepConcat(Split(a), Split(b));
  }

  lemma SegmentsEmpty()
    ensures Segments("") == []
  {
    assert Split("") == [""];
  }

  /** A name without a slash is one component, unless it is empty or `.`. */
  lemma SegmentsOfName(n: string)
    requires '/' !in n
    ensures Segments(n) == if n == "" || n == "." then [] else [n]
  {
    SplitName(n);
    assert Keep([n]) == (if n == "" || n == "." then [] else [n]) + Keep([]);
  }

  /** Leading slashes name no component. */
  lemma {:induction false} SegmentsAfterSlashes(p: string, x: string)
    requires forall k :: 0 <= k < |p| ==> p[k] == '/'
    ensures Segments(p + x) == Segments(x)
    decreases |p|
  {
    if |p| > 0 {
      assert p + x == "" + "/" + (p[1..] + x);
      SegmentsConcat("", p[1..] + x);
      SegmentsEmpty();
      SegmentsAfterSlashes(p[1..], x);
    } else {
      assert p + x == x;
    }
  }

  /** Trailing slashes name no component. */
  lemma SegmentsBeforeSlashes(x: string, q: string)
    requires forall k :: 0 <= k < |q| ==> q[k] == '/'
    ensures Segments(x + q) == Segments(x)
  {
    if |q| > 0 {
      assert x + q == x + "/" + (q[1..] + "");
      SegmentsConcat(x, q[1..] + "");
      SegmentsAfterSlashes(q[1..], "");
      SegmentsEmpty();
    } else {
      assert x + q == x;
    }
  }

  /** `path.strip('/')` keeps the components of `path`. */
  lemma SegmentsIgnoreOuterSlashes(s: string)
    ensures Segments(Strip(s, Slashes)) == Segments(s)
  {
    var mid := Strip(s, Slashes);
    var head, tail := StripFrame(s, Slashes);
    assert s == head + (mid + tail);
    SegmentsAfterSlashes(head, mid + tail);
    SegmentsBeforeSlashes(mid, tail);
  }

  /** `os.path.join(a, b)` for two arguments: an absolute `b` replaces `a`,
      and a slash is inserted unless `a` is empty or already ends in one. */
  function Join(a: string, b: string): (r: string)
    ensures StartsWith(b, "/") ==> r == b
    ensures !StartsWith(b, "/") ==>
              && |a| + |b| <= |r| <= |a| + |b| + 1
              && r[..|a|] == a && r[|r| - |b|..] == b
              && (|r| == |a| + |b| + 1 ==> r[|a|] == '/')
  {
    if StartsWith(b, "/") then b
    else if a == "" || a[|a| - 1] == '/' then a + b
    else a + "/" + b
  }

  /** The last piece of `p.split('/')`: empty when `p` ends in a slash. */
  function LastPiece(p: string): string {
    var pieces := Split(p);
    pieces[|pieces| - 1]
  }

  /** The kernel resolves a path that ends in a slash, or whose last
      component is `.`, only to a directory: the component before it is
      looked up as a directory, and a regular file there gives ENOTDIR. */
  predicate NamesDirectory(p: string) {
    LastPiece(p) == "" || LastPiece(p) == "."
  }

  /** The last piece of `a/b` is the last piece of `b`. */
  lemma LastPieceConcat(a: string, b: string)
    ensures LastPiece(a + "/" + b) == LastPiece(b)
  {
    SplitConcat(a, b);
  }

  /** A name without a slash is its own last piece. */
  lemma LastPieceOfName(n: string)
    requires '/' !in n
    ensures LastPiece(n) == n
  {
    SplitName(n);
  }

  /** Joining a relative `b` onto `a` keeps the last piece of `b`. */
  lemma LastPieceJoin(a: string, b: string)
    requires !StartsWith(b, "/")
    ensures LastPiece(Join(a, b)) == LastPiece(b)
  {
    if a == "" {
      assert Join(a, b) == b;
    } else if a[|a| - 1] == '/' {
      var a' := a[..|a| - 1];
      assert a == a' + "/" + "";
      assert Join(a, b) == a' + "/" + b;
      LastPieceConcat(a', b);
    } else {
      assert Join(a, b) == a + "/" + b;
      LastPieceConcat(a, b);
    }
  }

  /** Joining a relative `b` onto `a` appends the components of `b` to
      those of `a`. */
  lemma JoinSegments(a: string, b: string)
    requires !StartsWith(b, "/")
    ensures Segments(Join(a, b)) == Segments(a) + Segments(b)
  {
    SegmentsEmpty();
    if a == "" {
      assert Join(a, b) == b;
    } else if a[|a| - 1] == '/' {
      var a' := a[..|a| - 1];
      assert a == a' + "/" + "";
      assert Join(a, b) == a' + "/" + b;
      SegmentsConcat(a', "");
      SegmentsConcat(a', b);
    } else {
      assert Join(a, b) == a + "/" + b;
      SegmentsConcat(a, b);
    }
  }

  /** `os.path.splitext(p)`: cuts at the last dot of the last path
      component, unless everything in that component before the dot is a
      dot (so `.bashrc` and `..txt` have no extension). */
  function SplitExt(p: string): (r: (string, string))
    ensures r.0 + r.1 == p
    ensures r.1 == "" || (r.1[0] == '.' && '.' !in r.1[1..] && '/' !in r.1)
  {
    var sep := RFind(p, '/');
    var dot := RFind(p, '.');
    if dot > sep && exists k :: sep < k < dot && p[k] != '.' then
      (p[..dot], p[dot..])
    else
      (p, "")
  }

  /** `d` is where `splitext` cuts `p`: the last dot, after the last slash,
      with a character other than a dot between that slash (or the start)
      and the dot. */
  predicate ExtensionAt(p: string, d: int) {
    && 0 <= d < |p| && p[d] == '.'
    && (forall k :: d < k < |p| ==> p[k] != '.' && p[k] != '/')
    && (exists k :: 0 <= k < d && p[k] != '.' && forall j :: k <= j < d ==> p[j] != '/')
  }

  /** `splitext` cuts exactly where `ExtensionAt` says, and leaves a name
      with no such position whole. */
  lemma SplitExtCut(p: string)
    ensures forall d :: ExtensionAt(p, d) ==> SplitExt(p) == (p[..d], p[d..])
    ensures SplitExt(p).1 != "" ==> ExtensionAt(p, |SplitExt(p).0|)
    ensures (forall d :: !ExtensionAt(p, d)) ==> SplitExt(p) == (p, "")
  {
    var sep := RFind(p, '/');
    var dot := RFind(p, '.');
    forall d | ExtensionAt(p, d)
      ensures SplitExt(p) == (p[..d], p[d..])
    {
      assert dot == d;
      var k :| 0 <= k < d && p[k] != '.' && forall j :: k <= j < d ==> p[j] != '/';
      assert sep < k;
      assert sep < k < dot && p[k] != '.';
    }
    if SplitExt(p).1 != "" {
      assert dot > sep;
      var k :| sep < k < dot && p[k] != '.';
      assert forall j :: k <= j < dot ==> p[j] != '/';
      assert ExtensionAt(p, dot);
    }
  }
}
