/**
 * The storage the handlers act on: a set of directories and a map from
 * regular files to their bytes, both keyed by resolved absolute paths.
 * The operations model the system calls behind `os.path.exists`,
 * `os.makedirs`, `file.save` and reading a file.
 */
module FileStore {
  import opened Wrappers

  newtype byte = x: int | 0 <= x < 256

  /** A resolved absolute location: the component names below `/`. */
  type Path = seq<string>

  datatype Store = Store(dirs: set<Path>, files: map<Path, seq<byte>>)

  function Parent(p: Path): Path {
    if |p| == 0 then [] else p[..|p| - 1]
  }

  /** Moves from directory `cur` into component `seg`; `..` goes up one
      level and stays put at `/`. */
  function Step(cur: Path, seg: string): Path {
    if seg == ".." then Parent(cur) else cur + [seg]
  }

  /** The locations a walk from `cur` passes: `cur`, then the location
      reached after each component. */
  function Visited(cur: Path, segs: seq<string>): (v: seq<Path>)
    ensures |v| == |segs| + 1 && v[0] == cur
    ensures forall k {:trigger segs[k]} :: 0 <= k < |segs| ==> v[k + 1] == Step(v[k], segs[k])
    decreases |segs|
  {
    if |segs| == 0 then [cur] else [cur] + Visited(Step(cur, segs[0]), segs[1..])
  }

  /** Path resolution: every component is looked up in the location reached
      so far, which has to be an existing directory (otherwise the kernel
      answers ENOENT or ENOTDIR). */
  function Walk(dirs: set<Path>, cur: Path, segs: seq<string>): Option<Path>
    decreases |segs|
  {
    if |segs| == 0 then Some(cur)
    else if cur !in dirs then None
    else Walk(dirs, Step(cur, segs[0]), segs[1..])
  }

  /** A walk succeeds exactly when every location it looks a component up
      in is a directory, and it ends where `Visited` ends. */
  lemma {:induction false} WalkSpec(dirs: set<Path>, cur: Path, segs: seq<string>)
    ensures var r := Walk(dirs, cur, segs);
            && (r.Some? <==> forall k :: 0 <= k < |segs| ==> Visited(cur, segs)[k] in dirs)
            && (r.Some? ==> r.value == Visited(cur, segs)[|segs|])
    decreases |segs|
  {
    if |segs| == 0 {
    } else if cur !in dirs {
      assert Visited(cur, segs)[0] !in dirs;
    } else {
      WalkStep(dirs, cur, segs);
      WalkSpec(dirs, Step(cur, segs[0]), segs[1..]);
    }
  }

  lemma WalkStep(dirs: set<Path>, cur: Path, segs: seq<string>)
    requires |segs| > 0
    ensures var v := Visited(cur, segs);
            var w := Visited(Step(cur, segs[0]), segs[1..]);
            && v[|segs|] == w[|segs| - 1]
            && ((forall k :: 0 <= k < |segs| ==> v[k] in dirs)
                <==> (cur in dirs && forall k :: 0 <= k < |segs| - 1 ==> w[k] in dirs))
  {
    var v := Visited(cur, segs);
    var w := Visited(Step(cur, segs[0]), segs[1..]);
    assert v == [cur] + w;
    if cur in dirs && forall k :: 0 <= k < |segs| - 1 ==> w[k] in dirs {
      forall k | 0 <= k < |segs|
        ensures v[k] in dirs
      {
        if k > 0 {
          assert v[k] == w[k - 1];
        }
      }
    }
    if forall k :: 0 <= k < |segs| ==> v[k] in dirs {
      assert v[0] in dirs;
      forall k | 0 <= k < |segs| - 1
        ensures w[k] in dirs
      {
        assert v[k + 1] == w[k];
      }
    }
  }

  /** A walk that succeeds still succeeds, at the same location, once more
      directories exist. */
  lemma {:induction false} WalkGrows(dirs: set<Path>, more: set<Path>, cur: Path, segs: seq<string>)
    requires dirs <= more && Walk(dirs, cur, segs).Some?
    ensures Walk(more, cur, segs) == Walk(dirs, cur, segs)
    decreases |segs|
  {
    if |segs| > 0 {
      WalkGrows(dirs, more, Step(cur, segs[0]), segs[1..]);
    }
  }

  /** Walking one more component looks it up in where the walk ended,
      which has to be a directory. */
  lemma {:induction false} WalkAppend(dirs: set<Path>, cur: Path, segs: seq<string>, x: string)
    ensures var w := Walk(dirs, cur, segs);
            Walk(dirs, cur, segs + [x]) == if w.Some? && w.value in dirs then Some(Step(w.value, x)) else None
    decreases |segs|
  {
    if |segs| > 0 {
      assert (segs + [x])[0] == segs[0] && (segs + [x])[1..] == segs[1..] + [x];
      WalkAppend(dirs, Step(cur, segs[0]), segs[1..], x);
    }
  }

  /** Resolution of an absolute path from `/`. */
  function Lookup(dirs: set<Path>, segs: seq<string>): Option<Path> {
    Walk(dirs, [], segs)
  }

  /** `os.path.exists`: the path resolves to a directory or a regular file. */
  predicate Exists(s: Store, segs: seq<string>) {
    match Lookup(s.dirs, segs)
    case None => false
    case Some(t) => t in s.dirs || t in s.files
  }

  /** Reading a regular file: its bytes when the path resolves to one. */
  function Read(s: Store, segs: seq<string>): Option<seq<byte>> {
    match Lookup(s.dirs, segs)
    case None => None
    case Some(t) => if t in s.files then Some(s.files[t]) else None
  }

  function Elements(q: seq<Path>): set<Path> {
    set p | p in q
  }

  /** The position of the first regular file in `q`, or `|q|`. */
  function FirstFile(files: map<Path, seq<byte>>, q: seq<Path>): (j: nat)
    ensures j <= |q|
    ensures j < |q| ==> q[j] in files
    ensures forall k :: 0 <= k < j ==> q[k] !in files
    decreases |q|
  {
    if |q| == 0 then 0
    else if q[0] in files then 0
    else 1 + FirstFile(files, q[1..])
  }

  /** `os.makedirs(path, exist_ok=True)` applied to the components `segs`
      from `cur`: every location on the walk is made a directory, in order;
      the call fails at the first one that is a regular file, and the
      directories made before it stay. */
  function MakeDirs(s: Store, cur: Path, segs: seq<string>): (r: (Store, bool))
    ensures r.0.files == s.files
    ensures var q := Visited(cur, segs)[1..];
            && (r.1 <==> forall k :: 0 <= k < |q| ==> q[k] !in s.files)
            && r.0.dirs == s.dirs + Elements(q[..FirstFile(s.files, q)])
    decreases |segs|
  {
    if |segs| == 0 then (s, true)
    else
      var next := Step(cur, segs[0]);
      var q := Visited(cur, segs)[1..];
      var q' := Visited(next, segs[1..])[1..];
      assert q == [next] + q';
      if next in s.files then (s, false)
      else
        assert q[..FirstFile(s.files, q)] == [next] + q'[..FirstFile(s.files, q')];
        MakeDirs(Store(s.dirs + {next}, s.files), next, segs[1..])
  }

  /** `file.save(path)`: opens the resolved location for writing, which
      needs the components before the last one to resolve, and fails when
      the location is a directory. */
  function Save(s: Store, segs: seq<string>, content: seq<byte>): (r: Option<Store>)
    ensures r.Some? <==> |segs| > 0 && Lookup(s.dirs, segs).Some? && Lookup(s.dirs, segs).value !in s.dirs
    ensures r.Some? ==> var t := Lookup(s.dirs, segs).value;
            && r.value.dirs == s.dirs
            && r.value.files.Keys == s.files.Keys + {t}
            && (forall p :: p in s.files && p != t ==> r.value.files[p] == s.files[p])
            && Read(r.value, segs) == Some(content)
  {
    if |segs| == 0 then None
    else match Lookup(s.dirs, segs)
      case None => None
      case Some(t) => if t in s.dirs then None else Some(Store(s.dirs, s.files[t := content]))
  }

  /** What every real directory tree satisfies: `/` is a directory, nothing
      is both a directory and a file, and every location's parent is a
      directory. */
  predicate Valid(s: Store) {
    && [] in s.dirs
    && s.dirs !! s.files.Keys
    && (forall p :: p in s.dirs ==> Parent(p) in s.dirs)
    && (forall p :: p in s.files ==> Parent(p) in s.dirs)
  }

  /** `os.makedirs` keeps the tree well formed. */
  lemma {:induction false} MakeDirsPreservesValid(s: Store, cur: Path, segs: seq<string>)
    requires Valid(s) && cur in s.dirs
    ensures Valid(MakeDirs(s, cur, segs).0)
    decreases |segs|
  {
    if |segs| > 0 {
      var next := Step(cur, segs[0]);
      if next !in s.files {
        var s' := Store(s.dirs + {next}, s.files);
        assert Parent(next) in s.dirs;
        assert Valid(s');
        MakeDirsPreservesValid(s', next, segs[1..]);
      }
    }
  }

  /** Where a walk from a directory succeeds, the location it reaches lies
      in a directory. */
  lemma WalkEndsInDirectory(s: Store, segs: seq<string>)
    requires Valid(s)
    requires |segs| > 0 && Lookup(s.dirs, segs).Some?
    ensures var t := Lookup(s.dirs, segs).value;
            t in s.dirs || (|t| > 0 && Parent(t) in s.dirs)
  {
    WalkSpec(s.dirs, [], segs);
    var v := Visited([], segs);
    var n := |segs|;
    assert v[n] == Step(v[n - 1], segs[n - 1]);
    assert v[n - 1] in s.dirs;
  }

  /** `file.save` keeps the tree well formed. */
  lemma SavePreservesValid(s: Store, segs: seq<string>, content: seq<byte>)
    requires Valid(s)
    ensures Save(s, segs, content).Some? ==> Valid(Save(s, segs, content).value)
  {
    if Save(s, segs, content).Some? {
      WalkEndsInDirectory(s, segs);
    }
  }
}
