/**
 * Properties of folder creation: what `create_folder` adds to the store,
 * that repeating it changes nothing, that the folder it makes can be
 * listed, and that `..` components are walked rather than refused.
 */
module FolderProps {
  import opened Wrappers
  import opened Text
  import opened Policy
  import opened PosixPath
  import opened FileStore
  import opened Handlers
  import opened UploadProps
  import opened ListingProps

  /** `os.makedirs(..., exist_ok=True)` run twice is run once, whether the
      first run succeeded or stopped at a file. */
  lemma MakeDirsIdempotent(s: Store, cur: Path, segs: seq<string>)
    ensures var m := MakeDirs(s, cur, segs);
            MakeDirs(m.0, cur, segs) == m
  {
    var m := MakeDirs(s, cur, segs);
    var m2 := MakeDirs(m.0, cur, segs);
    assert m2.0.dirs == m.0.dirs;
    assert m2.0.files == m.0.files;
  }

  lemma CreateDirectoryIdempotent(s: Store, path: string)
    ensures var r := CreateDirectory(s, path);
            CreateDirectory(r.0, path) == r
  {
    var full := Join(UploadFolder, Strip(path, Slashes));
    MakeDirsIdempotent(s, [], Segments(full));
  }

  /** Repeating a folder creation returns the same result and leaves the
      store as the first call left it. */
  lemma CreateFolderIdempotent(s: Store, body: Option<map<string, Json>>)
    ensures var r := CreateFolder(s, body);
            CreateFolder(r.0, body) == r
  {
    var r := CreateFolder(s, body);
    if body.Some? && "path" in body.value && body.value["path"].JString? {
      var folderPath := Strip(body.value["path"].text, Slashes);
      if folderPath != "" {
        CreateDirectoryIdempotent(s, folderPath);
      }
    }
  }

  /** A successful `os.makedirs` from the root adds exactly the locations
      its walk passes. */
  lemma MakeDirsAddsWalk(s: Store, segs: seq<string>)
    requires [] in s.dirs && MakeDirs(s, [], segs).1
    ensures MakeDirs(s, [], segs).0.dirs == s.dirs + Elements(Visited([], segs))
  {
    var v := Visited([], segs);
    var q := v[1..];
    assert q[..FirstFile(s.files, q)] == q;
    assert v == [[]] + q;
    assert Elements(v) == {[]} + Elements(q);
  }

  /** A successful `create_directory` adds exactly the locations the walk
      of the storage root and the path passes, and no file. */
  lemma CreateDirectoryAddsWalk(s: Store, path: string)
    requires [] in s.dirs
    ensures var r := CreateDirectory(s, path);
            && r.0.files == s.files
            && (r.1.Some? ==> r.0.dirs == s.dirs + Elements(Visited([], Segments(UploadFolder) + Segments(path))))
  {
    CreateDirectorySegments(path);
    var segs := Segments(Join(UploadFolder, Strip(path, Slashes)));
    if MakeDirs(s, [], segs).1 {
      MakeDirsAddsWalk(s, segs);
    }
  }

  /** A successful folder creation makes the storage root, the folder and
      every directory on the way to it directories, changes nothing else,
      and echoes the requested path with its outer slashes stripped. */
  lemma CreateFolderMakesWalk(s: Store, body: Option<map<string, Json>>)
    requires [] in s.dirs
    ensures var r := CreateFolder(s, body);
            r.1.Ok? ==>
              var p := body.value["path"].text;
              && r.1.value.path == Strip(p, Slashes)
              && r.0.files == s.files
              && r.0.dirs == s.dirs + Elements(Visited([], Segments(UploadFolder) + Segments(p)))
  {
    var r := CreateFolder(s, body);
    if r.1.Ok? {
      var p := body.value["path"].text;
      var folderPath := Strip(p, Slashes);
      assert r.0 == CreateDirectory(s, folderPath).0;
      assert CreateDirectory(s, folderPath).1.Some?;
      CreateDirectoryAddsWalk(s, folderPath);
      SegmentsIgnoreOuterSlashes(p);
    }
  }

  /** A folder path that is not all slashes is created exactly when no
      location on the walk of the storage root and that path is a regular
      file; the answer then echoes the stripped path and joins it to the
      storage root. */
  lemma CreateFolderSucceeds(s: Store, p: string)
    requires Strip(p, Slashes) != ""
    ensures var segs := Segments(UploadFolder) + Segments(p);
            && (CreateFolder(s, Some(map["path" := JString(p)])).1
                  == Ok(Folder(Strip(p, Slashes), Join(UploadFolder, Strip(p, Slashes))))
                <==> forall k :: 0 < k <= |segs| ==> Visited([], segs)[k] !in s.files)
            && (CreateFolder(s, Some(map["path" := JString(p)])).1.Err? ==>
                  CreateFolder(s, Some(map["path" := JString(p)])).1 == Err(CreateFolderError))
  {
    var folderPath := Strip(p, Slashes);
    CreateFolderIsCreateDirectory(s, p);
    SegmentsIgnoreOuterSlashes(p);
    CreateDirectoryIsMakeDirs(s, folderPath);
    MakeDirsClearWalk(s, Segments(UploadFolder) + Segments(p));
  }

  /** A JSON body whose `path` is a string that is not all slashes is
      answered by `create_directory` on the stripped path. */
  lemma CreateFolderIsCreateDirectory(s: Store, p: string)
    requires Strip(p, Slashes) != ""
    ensures var made := CreateDirectory(s, Strip(p, Slashes));
            CreateFolder(s, Some(map["path" := JString(p)]))
              == (made.0, if made.1.Some? then Ok(Folder(Strip(p, Slashes), Join(UploadFolder, Strip(p, Slashes))))
                          else Err(CreateFolderError))
  {
  }

  /** `os.makedirs` from the root succeeds exactly when no location its
      walk passes is a regular file. */
  lemma MakeDirsClearWalk(s: Store, segs: seq<string>)
    ensures MakeDirs(s, [], segs).1 <==> forall k :: 0 < k <= |segs| ==> Visited([], segs)[k] !in s.files
  {
    if forall k :: 0 < k <= |segs| ==> Visited([], segs)[k] !in s.files {
      MakeDirsSucceeds(s, segs);
    } else {
      var k :| 0 < k <= |segs| && Visited([], segs)[k] in s.files;
      MakeDirsStopsAtFile(s, segs, k);
    }
  }

  /** `os.makedirs` from the root fails where a location its walk passes
      is a regular file. */
  lemma MakeDirsStopsAtFile(s: Store, segs: seq<string>, k: nat)
    requires 0 < k <= |segs| && Visited([], segs)[k] in s.files
    ensures !MakeDirs(s, [], segs).1
  {
  }

  /** A folder just created can be listed: the listing of the echoed path
      finds a directory. */
  lemma CreatedFolderListable(s: Store, body: Option<map<string, Json>>)
    requires [] in s.dirs
    ensures var r := CreateFolder(s, body);
            r.1.Ok? ==> ListTarget(r.0, r.1.value.path).Ok?
  {
    var r := CreateFolder(s, body);
    if r.1.Ok? {
      var p := body.value["path"].text;
      StripIdempotent(p, Slashes);
      var full := Join(UploadFolder, Strip(p, Slashes));
      assert CreateDirectory(s, Strip(p, Slashes)).1 == Some(full);
      assert r.0 == CreateDirectory(s, Strip(p, Slashes)).0;
    }
  }

  /** A folder created inside a parent path shows up when the parent is
      listed: the listing succeeds, the folder is a directory child of the
      listed directory, and every listing of it has an entry for the
      folder, typed directory with size 0. */
  lemma CreatedFolderInParentListing(s: Store, parent: string, c: string)
    requires [] in s.dirs
    requires '/' !in c && c != "" && c != "." && c != ".."
    ensures var r := CreateFolder(s, Some(map["path" := JString(parent + "/" + c)]));
            r.1.Ok? ==>
              && ListTarget(r.0, parent).Ok?
              && var t := ListTarget(r.0, parent).value;
                 && t + [c] in r.0.dirs
                 && c in Children(r.0, t)
                 && forall items: seq<Item> :: Enumerates(r.0, t, items) ==> Item(c, Directory, 0) in items
  {
    var p := parent + "/" + c;
    var r := CreateFolder(s, Some(map["path" := JString(p)]));
    if r.1.Ok? {
      var fp := Strip(p, Slashes);
      var made := CreateDirectory(s, fp);
      assert r.0 == made.0 && made.1.Some?;
      ParentHoldsChild(made.0.dirs, parent, c, fp);
      var t := Lookup(made.0.dirs, Segments(UploadFolder) + Segments(parent)).value;
      ListTargetResolves(made.0, parent);
      ChildIn(made.0, t, c);
      EnumeratedChildDirectory(made.0, t, c);
    }
  }

  /** Where the stripped `parent/c` resolves to a directory below the
      root, the parent resolves to a directory holding `c` as a
      directory. */
  lemma ParentHoldsChild(dirs: set<Path>, parent: string, c: string, fp: string)
    requires '/' !in c && c != "" && c != "." && c != ".."
    requires fp == Strip(parent + "/" + c, Slashes)
    requires var full := Segments(Join(UploadFolder, Strip(fp, Slashes)));
             Lookup(dirs, full).Some? && Lookup(dirs, full).value in dirs
    ensures var d := Segments(UploadFolder) + Segments(parent);
            && Lookup(dirs, d).Some? && Lookup(dirs, d).value in dirs
            && Lookup(dirs, d).value + [c] in dirs
  {
    var d := Segments(UploadFolder) + Segments(parent);
    CreateDirectorySegments(fp);
    SegmentsIgnoreOuterSlashes(parent + "/" + c);
    SegmentsConcat(parent, c);
    SegmentsOfName(c);
    assert Segments(UploadFolder) + Segments(fp) == d + [c];
    WalkAppend(dirs, [], d, c);
  }

  /** A path of slashes only is refused as EMPTY_PATH, before the store is
      touched. */
  lemma SlashesOnlyIsEmptyPath(s: Store)
    ensures CreateFolder(s, Some(map["path" := JString("///")])) == (s, Err(EmptyPath))
  {
    var body := map["path" := JString("///")];
    assert forall k :: 0 <= k < |body["path"].text| ==> body["path"].text[k] == '/';
  }

  /** `..` is not refused: with the root at `/app/files`, the folder
      `../outside` is made at `/app/outside`, outside the storage root. */
  lemma CreateFolderLeavesRoot(s: Store)
    requires Valid(s) && ["app", "files"] in s.dirs && ["app", "outside"] !in s.files
    ensures var r := CreateFolder(s, Some(map["path" := JString("../outside")]));
            && r.1 == Ok(Folder("../outside", "/app/files/../outside"))
            && ["app", "outside"] in r.0.dirs
  {
    var p := "../outside";
    assert StrippedAt(p, Slashes, 0, |p|);
    StripUnique(p, Slashes, 0, |p|);
    assert p[0..|p|] == p;
    assert Join(UploadFolder, p) == "/app/files/../outside";
    assert Parent(["app", "files"]) == ["app"];
    OutsideMade(s);
  }

  /** `/app/files/../outside` has the components `app`, `files`, `..`,
      `outside`. */
  lemma OutsideWalk()
    ensures Segments(UploadFolder) + Segments("../outside") == ["app", "files", "..", "outside"]
  {
    RootSegments();
    OutsideSegments();
  }

  /** Walking `a/b/../n` from the root passes `/a`, `/a/b`, `/a` and ends
      at `/a/n`. */
  lemma ClimbBack(a: string, b: string, n: string)
    requires a != ".." && b != ".." && n != ".."
    ensures var v := Visited([], [a, b, "..", n]);
            && v[1] == [a] && v[2] == [a, b] && v[3] == [a] && v[4] == [a, n]
  {
    var segs := [a, b, "..", n];
    var v := Visited([], segs);
    assert v[1] == Step(v[0], segs[0]);
    assert v[2] == Step(v[1], segs[1]);
    assert v[3] == Step(v[2], segs[2]);
    assert v[4] == Step(v[3], segs[3]);
  }

  /** `create_directory` is `os.makedirs` on the components of the
      storage root followed by those of the path. */
  lemma CreateDirectoryIsMakeDirs(s: Store, path: string)
    ensures var r := CreateDirectory(s, path);
            var m := MakeDirs(s, [], Segments(UploadFolder) + Segments(path));
            r.0 == m.0 && (r.1.Some? <==> m.1)
  {
    CreateDirectorySegments(path);
  }

  /** `os.makedirs` from the root succeeds where no location its walk
      passes is a file. */
  lemma MakeDirsSucceeds(s: Store, segs: seq<string>)
    requires forall k :: 0 < k <= |segs| ==> Visited([], segs)[k] !in s.files
    ensures MakeDirs(s, [], segs).1
  {
    var v := Visited([], segs);
    var q := v[1..];
    forall k | 0 <= k < |q|
      ensures q[k] !in s.files
    {
      assert q[k] == v[k + 1];
    }
  }

  /** Where no location the walk of the storage root and `path` passes is
      a file, `create_directory` succeeds and every one of those locations
      is then a directory. */
  lemma CreateDirectoryMakesWalk(s: Store, path: string)
    requires [] in s.dirs
    requires var segs := Segments(UploadFolder) + Segments(path);
             forall k :: 0 < k <= |segs| ==> Visited([], segs)[k] !in s.files
    ensures var r := CreateDirectory(s, path);
            && r.1.Some?
            && Elements(Visited([], Segments(UploadFolder) + Segments(path))) <= r.0.dirs
  {
    var segs := Segments(UploadFolder) + Segments(path);
    CreateDirectoryIsMakeDirs(s, path);
    MakeDirsSucceeds(s, segs);
    MakeDirsAddsWalk(s, segs);
  }

  /** Where none of the locations the walk of `../outside` passes is a
      file, making it succeeds and makes `/app/outside`. */
  lemma OutsideMade(s: Store)
    requires [] in s.dirs
    requires ["app"] !in s.files && ["app", "files"] !in s.files && ["app", "outside"] !in s.files
    ensures var r := CreateDirectory(s, "../outside");
            r.1.Some? && ["app", "outside"] in r.0.dirs
  {
    OutsideWalk();
    ClimbBackAvoidsFiles(s, "app", "files", "outside");
    CreateDirectoryMakesWalk(s, "../outside");
    ClimbBack("app", "files", "outside");
    var v := Visited([], ["app", "files", "..", "outside"]);
    assert ["app", "outside"] in Elements(v) by {
      assert v[4] == ["app", "outside"];
    }
  }

  /** Where `/a`, `/a/b` and `/a/n` are not files, no location past the
      root on the walk of `a/b/../n` is. */
  lemma ClimbBackAvoidsFiles(s: Store, a: string, b: string, n: string)
    requires a != ".." && b != ".." && n != ".."
    requires [a] !in s.files && [a, b] !in s.files && [a, n] !in s.files
    ensures forall k :: 0 < k <= 4 ==> Visited([], [a, b, "..", n])[k] !in s.files
  {
    ClimbBack(a, b, n);
  }

  /** A relative path of two plain names has those two components. */
  lemma SegmentsOfTwo(a: string, b: string)
    requires '/' !in a && '/' !in b
    requires a != "" && a != "." && b != "" && b != "."
    ensures Segments(a + "/" + b) == [a, b]
  {
    SegmentsConcat(a, b);
    SegmentsOfName(a);
    SegmentsOfName(b);
  }

  lemma RootSegments()
    ensures Segments("/app/files") == ["app", "files"]
  {
    var rel := "app" + "/" + "files";
    assert "/app/files" == "" + "/" + rel;
    SegmentsConcat("", rel);
    SegmentsEmpty();
    SegmentsOfTwo("app", "files");
  }

  lemma OutsideSegments()
    ensures Segments("../outside") == ["..", "outside"]
  {
    assert "../outside" == ".." + "/" + "outside";
    SegmentsOfTwo("..", "outside");
  }
}
