/**
 * Uploading the same file name twice to the same upload path: the second
 * upload finds the first one's name taken and is renamed, so both files
 * are kept and both download.
 */
module RepeatProps {
  import opened Wrappers
  import opened Text
  import opened Policy
  import opened PosixPath
  import opened FileStore
  import opened Handlers
  import opened NamingProps
  import opened UploadProps

  /** What exists keeps existing once directories and files are added. */
  lemma PathExistsGrows(s: Store, s': Store, path: string)
    requires s.dirs <= s'.dirs && s.files.Keys <= s'.files.Keys
    requires PathExists(s, path)
    ensures PathExists(s', path)
  {
    WalkGrows(s.dirs, s'.dirs, [], Segments(path));
  }

  /** A timestamp holds no slash. */
  lemma TimestampHasNoSlash(ts: string)
    requires IsTimestamp(ts)
    ensures '/' !in ts
  {
    forall k | 0 <= k < |ts|
      ensures ts[k] != '/'
    {
    }
  }

  /** The rename of a name without a slash, by a timestamp, has no slash. */
  lemma CollisionNameNoSlash(name: string, ts: string)
    requires '/' !in name && IsTimestamp(ts)
    ensures '/' !in CollisionName(name, ts)
  {
    TimestampHasNoSlash(ts);
    var (b, e) := SplitExt(name);
    assert name == b + e;
    assert CollisionName(name, ts) == b + "_" + ts + e;
  }

  /** Renames of one name by different stamps differ from each other, and
      from the name. */
  lemma CollisionNamesDiffer(name: string, ts1: string, ts2: string)
    requires ts1 != ts2
    ensures CollisionName(name, ts1) != CollisionName(name, ts2)
    ensures CollisionName(name, ts2) != name
  {
    var cut := |SplitExt(name).0|;
    if |ts1| == |ts2| {
      assert ("_" + ts1)[1..] == ts1 && ("_" + ts2)[1..] == ts2;
      assert CollisionName(name, ts1)[cut..cut + 1 + |ts1|] == "_" + ts1;
      assert CollisionName(name, ts2)[cut..cut + 1 + |ts2|] == "_" + ts2;
    }
  }

  /** In a well-formed tree, a one-component name that resolves to
      something other than a directory is not `..`, and lies directly below
      the directory it is looked up in. */
  lemma NameLocation(s: Store, dir: seq<string>, fn: string)
    requires Valid(s)
    requires Lookup(s.dirs, dir + [fn]).Some? && Lookup(s.dirs, dir + [fn]).value !in s.dirs
    ensures Lookup(s.dirs, dir).Some? && Lookup(s.dirs, dir).value in s.dirs
    ensures fn != ".." && Lookup(s.dirs, dir + [fn]) == Some(Lookup(s.dirs, dir).value + [fn])
  {
    WalkAppend(s.dirs, [], dir, fn);
    var p := Lookup(s.dirs, dir).value;
    assert Parent(p) in s.dirs;
  }

  /** The chosen name is taken once the first upload has saved: either it
      was saved under it, or it was taken already and stays so. */
  lemma NameTakenAfter(s1: Store, s2: Store, saveDir: string, up: string, name: string,
                       c1: seq<byte>, ts1: string)
    requires var p1 := PlaceIn(s1, saveDir, up, name, c1, ts1);
             p1.1.Ok? && p1.0.dirs <= s2.dirs && p1.0.files.Keys <= s2.files.Keys
    ensures PathExists(s2, Join(saveDir, name))
  {
    var p1 := PlaceIn(s1, saveDir, up, name, c1, ts1);
    var fn1 := ChooseName(s1, saveDir, name, ts1);
    var j := Join(saveDir, name);
    PlaceInEffect(s1, saveDir, up, name, c1, ts1);
    assert p1.0 == SavePath(s1, Join(saveDir, fn1), c1).value;
    if fn1 == name {
      assert ReadPath(p1.0, j).Some?;
    } else {
      PathExistsGrows(s1, p1.0, j);
    }
    PathExistsGrows(p1.0, s2, j);
  }

  /** The second save goes under a name other than the first's. */
  lemma SecondNameDiffers(s1: Store, s2: Store, saveDir: string, up: string, name: string,
                          c1: seq<byte>, c2: seq<byte>, ts1: string, ts2: string)
    requires ts1 != ts2
    requires var p1 := PlaceIn(s1, saveDir, up, name, c1, ts1);
             p1.1.Ok? && p1.0.dirs <= s2.dirs && p1.0.files.Keys <= s2.files.Keys
    ensures var p1 := PlaceIn(s1, saveDir, up, name, c1, ts1);
            var p2 := PlaceIn(s2, saveDir, up, name, c2, ts2);
            && ChooseName(s2, saveDir, name, ts2) == CollisionName(name, ts2)
            && (p2.1.Ok? ==> p2.1.value.filename != p1.1.value.filename)
  {
    NameTakenAfter(s1, s2, saveDir, up, name, c1, ts1);
    CollisionNamesDiffer(name, ts1, ts2);
    PlaceInEffect(s1, saveDir, up, name, c1, ts1);
    PlaceInEffect(s2, saveDir, up, name, c2, ts2);
  }

  /** A second save under a different one-component name leaves the first
      file's bytes where they were. */
  lemma SecondSaveKeepsFirst(s2: Store, dir: seq<string>, fn1: string, fn2: string,
                             c1: seq<byte>, c2: seq<byte>)
    requires Valid(s2) && fn1 != fn2
    requires Read(s2, dir + [fn1]) == Some(c1)
    requires Save(s2, dir + [fn2], c2).Some?
    ensures Read(Save(s2, dir + [fn2], c2).value, dir + [fn1]) == Some(c1)
  {
    NameLocation(s2, dir, fn1);
    NameLocation(s2, dir, fn2);
  }

  /** A save under a name without a slash, by a timestamp, goes under a
      one-component name directly in the save directory. */
  lemma SavedUnderName(s: Store, saveDir: string, up: string, name: string, c: seq<byte>, ts: string)
    requires '/' !in name && IsTimestamp(ts)
    ensures var p := PlaceIn(s, saveDir, up, name, c, ts);
            p.1.Ok? ==> var fn := p.1.value.filename;
                        && Segments(fn) == [fn]
                        && Save(s, Segments(saveDir) + [fn], c).Some?
                        && p.0 == Save(s, Segments(saveDir) + [fn], c).value
  {
    var p := PlaceIn(s, saveDir, up, name, c, ts);
    if p.1.Ok? {
      var fn := ChooseName(s, saveDir, name, ts);
      PlaceInEffect(s, saveDir, up, name, c, ts);
      CollisionNameNoSlash(name, ts);
      OneComponent(saveDir, fn);
      assert p.0 == SavePath(s, Join(saveDir, fn), c).value;
    }
  }

  /** A name without a slash that does not name a directory is one
      component, appended to the directory's. */
  lemma OneComponent(dir: string, fn: string)
    requires '/' !in fn && !NamesDirectory(Join(dir, fn))
    ensures Segments(fn) == [fn]
    ensures Segments(Join(dir, fn)) == Segments(dir) + [fn]
  {
    JoinSegments(dir, fn);
    LastPieceJoin(dir, fn);
    LastPieceOfName(fn);
    SegmentsOfName(fn);
  }

  /** Reading a file is unaffected by new directories. */
  lemma ReadGrows(s: Store, s': Store, segs: seq<string>)
    requires s.dirs <= s'.dirs && s.files == s'.files && Read(s, segs).Some?
    ensures Read(s', segs) == Read(s, segs)
  {
    WalkGrows(s.dirs, s'.dirs, [], segs);
  }

  /** Saving the same name twice into the same directory, with different
      stamps: the second file gets another name, and the first still reads
      back. */
  lemma PlaceInTwice(s1: Store, s2: Store, saveDir: string, up: string, name: string,
                     c1: seq<byte>, c2: seq<byte>, ts1: string, ts2: string)
    requires Valid(s2)
    requires '/' !in name && IsTimestamp(ts1) && IsTimestamp(ts2) && ts1 != ts2
    requires var p1 := PlaceIn(s1, saveDir, up, name, c1, ts1);
             p1.1.Ok? && p1.0.dirs <= s2.dirs && p1.0.files == s2.files
    ensures var p1 := PlaceIn(s1, saveDir, up, name, c1, ts1);
            var p2 := PlaceIn(s2, saveDir, up, name, c2, ts2);
            p2.1.Ok? ==> && p2.1.value.filename != p1.1.value.filename
                         && Read(p2.0, Segments(saveDir) + Segments(p1.1.value.filename)) == Some(c1)
  {
    var p1 := PlaceIn(s1, saveDir, up, name, c1, ts1);
    var p2 := PlaceIn(s2, saveDir, up, name, c2, ts2);
    SecondNameDiffers(s1, s2, saveDir, up, name, c1, c2, ts1, ts2);
    if p2.1.Ok? {
      var dir := Segments(saveDir);
      var fn1, fn2 := p1.1.value.filename, p2.1.value.filename;
      SavedUnderName(s1, saveDir, up, name, c1, ts1);
      SavedUnderName(s2, saveDir, up, name, c2, ts2);
      assert Read(p1.0, dir + [fn1]) == Some(c1);
      ReadGrows(p1.0, s2, dir + [fn1]);
      SecondSaveKeepsFirst(s2, dir, fn1, fn2, c1, c2);
    }
  }

  /** The relative path an upload returns determines the stored name. */
  lemma RelativePathInjective(up: string, fn1: string, fn2: string)
    requires fn1 != fn2
    ensures (if up == "" then fn1 else up + "/" + fn1) != (if up == "" then fn2 else up + "/" + fn2)
  {
    if up != "" {
      assert (up + "/" + fn1)[|up| + 1..] == fn1;
      assert (up + "/" + fn2)[|up| + 1..] == fn2;
    }
  }

  /** Two uploads of files with the same name, upload path and custom name,
      at two different times, keep two files: the second is renamed, so
      the returned paths differ, and each path downloads the bytes uploaded
      under it. The paths must hold no `..`, which the download guard
      refuses, and `secure_filename` must not yield a slash. */
  lemma UploadTwice(s: Store, part1: FilePart, part2: FilePart, path: string, custom: string,
                    secure: string -> string, ts1: string, ts2: string)
    requires Valid(s)
    requires forall x :: '/' !in secure(x)
    requires IsTimestamp(ts1) && IsTimestamp(ts2) && ts1 != ts2
    requires part1.filename == part2.filename
    requires var r1 := Upload(s, UploadForm(Some(part1), path, custom), secure, ts1);
             var r2 := Upload(r1.0, UploadForm(Some(part2), path, custom), secure, ts2);
             && r1.1.Ok? && r2.1.Ok?
             && (forall i :: !OccursAt(r1.1.value.path, "..", i))
             && (forall i :: !OccursAt(r2.1.value.path, "..", i))
    ensures var r1 := Upload(s, UploadForm(Some(part1), path, custom), secure, ts1);
            var r2 := Upload(r1.0, UploadForm(Some(part2), path, custom), secure, ts2);
            && r1.1.value.path != r2.1.value.path
            && Download(r2.0, r1.1.value.path) == Ok(part1.content)
            && Download(r2.0, r2.1.value.path) == Ok(part2.content)
  {
    var form1 := UploadForm(Some(part1), path, custom);
    var form2 := UploadForm(Some(part2), path, custom);
    var r1 := Upload(s, form1, secure, ts1);
    var r2 := Upload(r1.0, form2, secure, ts2);
    var up := Strip(path, Slashes);
    var name := StoredName(part1.filename, Strip(custom, Whitespace), secure);
    UploadIsPlaceIn(s, part1, path, custom, secure, ts1);
    UploadIsPlaceIn(r1.0, part2, path, custom, secure, ts2);
    StoredNameRelative(part1.filename, Strip(custom, Whitespace), secure);
    var made1 := SaveDirectory(s, up);
    var made2 := SaveDirectory(r1.0, up);
    var saveDir := made1.1.value;
    UploadPreservesValid(s, form1, secure, ts1);
    SaveDirectoryPreservesValid(r1.0, up);
    PlaceInTwice(made1.0, made2.0, saveDir, up, name, part1.content, part2.content, ts1, ts2);
    PlaceInReturnsPath(made1.0, saveDir, up, name, part1.content, ts1);
    PlaceInReturnsPath(made2.0, saveDir, up, name, part2.content, ts2);
    RelativePathInjective(up, r1.1.value.filename, r2.1.value.filename);
    UploadThenDownload(r1.0, form2, secure, ts2);
    StrippedIsRelative(path);
    SaveDirectorySegments(s, up);
    SecondKeepsFirstDownload(made1.0, r2.0, saveDir, up, name, part1.content, ts1);
  }

  /** A successful upload is a save into the directory of its stripped
      upload path, the same directory string whatever the store. */
  lemma UploadIsPlaceIn(s: Store, part: FilePart, path: string, custom: string,
                        secure: string -> string, ts: string)
    requires Upload(s, UploadForm(Some(part), path, custom), secure, ts).1.Ok?
    ensures var up := Strip(path, Slashes);
            var made := SaveDirectory(s, up);
            && AllowedFile(part.filename)
            && made.1 == Some(if up == "" then UploadFolder else Join(UploadFolder, Strip(up, Slashes)))
            && Upload(s, UploadForm(Some(part), path, custom), secure, ts)
               == PlaceIn(made.0, made.1.value, up,
                          StoredName(part.filename, Strip(custom, Whitespace), secure), part.content, ts)
  {
    var up := Strip(path, Slashes);
    var r := Upload(s, UploadForm(Some(part), path, custom), secure, ts);
    assert r == Place(s, part, up, Strip(custom, Whitespace), secure, ts);
  }


  /** The first upload's path still downloads its bytes from a store where
      they still read back below the save directory. */
  lemma SecondKeepsFirstDownload(s1: Store, st: Store, saveDir: string, up: string, name: string,
                                 c1: seq<byte>, ts1: string)
    requires '/' !in name && !StartsWith(up, "/")
    requires Segments(saveDir) == Segments(UploadFolder) + Segments(up)
    requires var p1 := PlaceIn(s1, saveDir, up, name, c1, ts1);
             && p1.1.Ok?
             && (forall i :: !OccursAt(p1.1.value.path, "..", i))
             && Read(st, Segments(saveDir) + Segments(p1.1.value.filename)) == Some(c1)
    ensures Download(st, PlaceIn(s1, saveDir, up, name, c1, ts1).1.value.path) == Ok(c1)
  {
    var p1 := PlaceIn(s1, saveDir, up, name, c1, ts1);
    var fn1 := p1.1.value.filename;
    PlaceInReadsBackBelowRoot(s1, saveDir, up, name, c1, ts1);
    PlaceInReturnsPath(s1, saveDir, up, name, c1, ts1);
    PlaceInReadsBack(s1, saveDir, up, name, c1, ts1);
    RelativePathSegments(up, fn1);
    ReadBelowRoot(st, Segments(UploadFolder), Segments(up), Segments(fn1), c1);
    DownloadReads(st, p1.1.value.path);
  }
}
