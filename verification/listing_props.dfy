/**
 * Properties of the listing handler: which target it reports as missing,
 * and that the listing of a directory is fixed up to the order the
 * operating system yields the names in.
 */
module ListingProps {
  import opened Wrappers
  import opened Text
  import opened Policy
  import opened PosixPath
  import opened FileStore
  import opened Handlers
  import opened UploadProps

  /** The listing reports PATH_NOT_FOUND exactly when nothing exists at the
      storage root followed by the components of the requested path, or
      the path ends in `.` (or is empty) and something other than a
      directory is there; it otherwise lists the directory that path
      resolves to, or reports LIST_ERROR when it resolves to a file. */
  lemma ListTargetResolves(s: Store, folderPath: string)
    ensures var segs := Segments(UploadFolder) + Segments(folderPath);
            var d := NamesDirectory(Strip(folderPath, Slashes));
            var r := ListTarget(s, folderPath);
            && (r == Err(PathNotFound) <==> !Exists(s, segs) || (d && Lookup(s.dirs, segs).value !in s.dirs))
            && (r.Ok? <==> Lookup(s.dirs, segs).Some? && Lookup(s.dirs, segs).value in s.dirs)
            && (r.Ok? ==> r.value == Lookup(s.dirs, segs).value)
            && (r == Err(ListError) <==> Exists(s, segs) && Lookup(s.dirs, segs).value !in s.dirs && !d)
  {
    var target := Join(UploadFolder, Strip(folderPath, Slashes));
    CreateDirectorySegments(folderPath);
    var segs := Segments(UploadFolder) + Segments(folderPath);
    assert Segments(target) == segs;
    assert PathExists(s, target) <==>
             Exists(s, segs) && (NamesDirectory(Strip(folderPath, Slashes)) ==> Lookup(s.dirs, segs).value in s.dirs);
  }

  /** A child directory of `t` appears in every listing of `t`, typed
      directory with size 0. */
  lemma EnumeratedChildDirectory(s: Store, t: Path, c: string)
    requires t + [c] in s.dirs
    ensures forall items: seq<Item> :: Enumerates(s, t, items) ==> Item(c, Directory, 0) in items
  {
    forall items: seq<Item> | Enumerates(s, t, items)
      ensures Item(c, Directory, 0) in items
    {
      ChildIn(s, t, c);
      assert c in Names(items);
      var k :| 0 <= k < |items| && items[k].name == c;
      assert Describes(s, t, items[k]);
    }
  }

  /** Two entries describing the same child are the same entry. */
  lemma DescribesUnique(s: Store, t: Path, x: Item, y: Item)
    requires Describes(s, t, x) && Describes(s, t, y) && x.name == y.name
    ensures x == y
  {
  }

  /** In a sequence whose entries have distinct names, every entry occurs
      once. */
  lemma {:induction false} DistinctOccursOnce(a: seq<Item>, x: Item)
    requires forall i, j :: 0 <= i < j < |a| ==> a[i].name != a[j].name
    ensures multiset(a)[x] == if x in a then 1 else 0
    decreases |a|
  {
    if |a| > 0 {
      assert a == [a[0]] + a[1..];
      DistinctOccursOnce(a[1..], x);
      if a[0] == x {
        assert x !in a[1..] by {
          forall j | 0 <= j < |a[1..]|
            ensures a[1..][j] != x
          {
            assert a[j + 1].name != a[0].name;
          }
        }
      }
    }
  }

  /** An entry of one enumeration of a directory occurs in any other. */
  lemma EnumeratedIn(s: Store, t: Path, a: seq<Item>, b: seq<Item>, x: Item)
    requires Enumerates(s, t, a) && Enumerates(s, t, b) && x in a
    ensures x in b
  {
    var i :| 0 <= i < |a| && a[i] == x;
    assert x.name in Names(a);
    var j :| 0 <= j < |b| && b[j].name == x.name;
    DescribesUnique(s, t, a[i], b[j]);
  }

  /** Two listings of the same directory hold the same entries, each once:
      they differ only in order. */
  lemma EnumerationsAgree(s: Store, t: Path, a: seq<Item>, b: seq<Item>)
    requires Enumerates(s, t, a) && Enumerates(s, t, b)
    ensures multiset(a) == multiset(b)
  {
    forall x
      ensures multiset(a)[x] == multiset(b)[x]
    {
      DistinctOccursOnce(a, x);
      DistinctOccursOnce(b, x);
      if x in a {
        EnumeratedIn(s, t, a, b, x);
      }
      if x in b {
        EnumeratedIn(s, t, b, a, x);
      }
    }
  }
}
