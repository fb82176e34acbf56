/**
 * When an accepted upload succeeds: the save directory can be made, and
 * neither the stored name nor its collision rename is a directory there.
 */
module UploadSuccess {
  import opened Wrappers
  import opened Text
  import opened Policy
  import opened PosixPath
  import opened FileStore
  import opened Handlers
  import opened NamingProps
  import opened FolderProps
  import opened RepeatProps

  /** Saving a name without a slash (nor empty, `.` or `..`) into a
      directory succeeds when neither the name nor its rename is a
      directory there. */
  lemma PlaceInSucceeds(s: Store, saveDir: string, up: string, name: string,
                        content: seq<byte>, ts: string)
    requires IsTimestamp(ts)
    requires '/' !in name && name != "" && name != "." && name != ".."
    requires var t := Lookup(s.dirs, Segments(saveDir));
             && t.Some? && t.value in s.dirs
             && t.value + [name] !in s.dirs
             && t.value + [CollisionName(name, ts)] !in s.dirs
    ensures PlaceIn(s, saveDir, up, name, content, ts).1.Ok?
  {
    var d := Lookup(s.dirs, Segments(saveDir)).value;
    var c := ChooseName(s, saveDir, name, ts);
    assert c == name || c == CollisionName(name, ts);
    assert '/' !in c && c != "" && c != "." && c != ".." by {
      CollisionNameNoSlash(name, ts);
      CollisionNameShape(name, ts);
    }
    var j := Join(saveDir, c);
    NameInDirectory(saveDir, c);
    assert Save(s, Segments(j), content).Some? by {
      WalkAppend(s.dirs, [], Segments(saveDir), c);
      assert Lookup(s.dirs, Segments(saveDir) + [c]) == Some(d + [c]);
    }
    assert SavePath(s, j, content).Some?;
  }

  /** A name without a slash, other than empty, `.` or `..`, joined onto a
      directory is one more component, and the join names no directory. */
  lemma NameInDirectory(dir: string, c: string)
    requires '/' !in c && c != "" && c != "." && c != ".."
    ensures !NamesDirectory(Join(dir, c))
    ensures Segments(Join(dir, c)) == Segments(dir) + [c]
  {
    assert c[0] != '/';
    assert !StartsWith(c, "/");
    LastPieceJoin(dir, c);
    LastPieceOfName(c);
    OneComponent(dir, c);
  }

  /** A walk that never steps up goes one level deeper at each component
      and ends at its start followed by its components. */
  lemma {:induction false} VisitedDescends(cur: Path, segs: seq<string>)
    requires forall k :: 0 <= k < |segs| ==> segs[k] != ".."
    ensures forall k :: 0 <= k <= |segs| ==> |Visited(cur, segs)[k]| == |cur| + k
    ensures Visited(cur, segs)[|segs|] == cur + segs
    decreases |segs|
  {
    if |segs| > 0 {
      var next := Step(cur, segs[0]);
      VisitedDescends(next, segs[1..]);
      assert next == cur + [segs[0]];
      assert Visited(cur, segs) == [cur] + Visited(next, segs[1..]);
      assert cur + segs == next + segs[1..];
    }
  }

  /** In a well-formed tree where the storage root is a directory, the
      root resolves to itself and its walk passes no file. */
  lemma RootResolves(s: Store)
    requires Valid(s) && ["app", "files"] in s.dirs
    ensures Lookup(s.dirs, ["app", "files"]) == Some(["app", "files"])
    ensures forall k :: 0 < k <= 2 ==> Visited([], ["app", "files"])[k] !in s.files
  {
    assert Parent(["app", "files"]) == ["app"];
    assert ["app"] in s.dirs;
    assert Step(["app"], "files") == ["app", "files"] && ["files"][1..] == [];
    assert Walk(s.dirs, ["app"], ["files"]) == Some(["app", "files"]);
    assert Step([], "app") == ["app"] && ["app", "files"][1..] == ["files"];
    assert Visited(["app"], ["files"]) == [["app"]] + Visited(["app", "files"], []);
    assert Visited([], ["app", "files"]) == [[]] + Visited(["app"], ["files"]);
  }

  /** A walk that never steps up passes no location one component below
      where it ends. */
  lemma WalkMissesChild(segs: seq<string>, x: string)
    requires forall k :: 0 <= k < |segs| ==> segs[k] != ".."
    ensures segs + [x] !in Elements(Visited([], segs))
  {
    VisitedDescends([], segs);
  }

  /** The directory an upload saves into, when no `..` is in its path and
      no file is on its walk: it resolves to its own components, is a
      directory, and only locations on its walk were added. */
  lemma SaveDirectoryMade(s: Store, up: string)
    requires Valid(s) && Segments(UploadFolder) in s.dirs
    requires var segs := Segments(UploadFolder) + Segments(up);
             && (forall k :: 0 <= k < |Segments(up)| ==> Segments(up)[k] != "..")
             && (forall k :: 0 < k <= |segs| ==> Visited([], segs)[k] !in s.files)
    ensures var segs := Segments(UploadFolder) + Segments(up);
            var made := SaveDirectory(s, up);
            && made.1.Some?
            && Segments(made.1.value) == segs
            && Lookup(made.0.dirs, segs) == Some(segs)
            && segs in made.0.dirs
            && (forall x :: segs + [x] in made.0.dirs ==> segs + [x] in s.dirs)
  {
    RootSegments();
    if up == "" {
      SegmentsEmpty();
      RootResolves(s);
    } else {
      PathDirectoryMade(s, up);
    }
  }

  /** With a non-empty upload path, `create_directory` makes the walk, and
      the only locations it adds are on the walk. */
  lemma PathDirectoryMade(s: Store, up: string)
    requires Valid(s) && up != ""
    requires var segs := ["app", "files"] + Segments(up);
             && Segments(UploadFolder) == ["app", "files"]
             && (forall k :: 0 <= k < |Segments(up)| ==> Segments(up)[k] != "..")
             && (forall k :: 0 < k <= |segs| ==> Visited([], segs)[k] !in s.files)
    ensures var segs := ["app", "files"] + Segments(up);
            var made := SaveDirectory(s, up);
            && made.1.Some?
            && Segments(made.1.value) == segs
            && Lookup(made.0.dirs, segs) == Some(segs)
            && segs in made.0.dirs
            && (forall x :: segs + [x] in made.0.dirs ==> segs + [x] in s.dirs)
  {
    var segs := ["app", "files"] + Segments(up);
    var made := SaveDirectory(s, up);
    assert made == CreateDirectory(s, up);
    assert made.1.Some? && Elements(Visited([], segs)) <= made.0.dirs by {
      CreateDirectoryMakesWalk(s, up);
    }
    assert made.0.dirs == s.dirs + Elements(Visited([], segs)) by {
      CreateDirectoryAddsWalk(s, up);
    }
    assert forall k :: 0 <= k < |segs| ==> segs[k] != "..";
    DescendingWalkResolves(made.0.dirs, segs);
    DescendingWalkAddsNoChild(s.dirs, made.0.dirs, segs);
  }

  /** Once every location of a walk that never steps up is a directory,
      the walk resolves to its own components. */
  lemma DescendingWalkResolves(dirs: set<Path>, segs: seq<string>)
    requires forall k :: 0 <= k < |segs| ==> segs[k] != ".."
    requires Elements(Visited([], segs)) <= dirs
    ensures Lookup(dirs, segs) == Some(segs) && segs in dirs
  {
    var v := Visited([], segs);
    VisitedDescends([], segs);
    assert v[|segs|] == segs;
    forall k | 0 <= k <= |segs|
      ensures v[k] in dirs
    {
      assert v[k] in Elements(v);
    }
    WalkSpec(dirs, [], segs);
  }

  /** Adding the locations of a walk that never steps up adds no location
      one component below where it ends. */
  lemma DescendingWalkAddsNoChild(dirs: set<Path>, more: set<Path>, segs: seq<string>)
    requires forall k :: 0 <= k < |segs| ==> segs[k] != ".."
    requires more == dirs + Elements(Visited([], segs))
    ensures forall x :: segs + [x] in more ==> segs + [x] in dirs
  {
    forall x | segs + [x] in more
      ensures segs + [x] in dirs
    {
      WalkMissesChild(segs, x);
    }
  }

  /** An accepted upload succeeds when no `..` is in its upload path, no
      file lies on the walk to it, and neither the stored name nor its
      collision rename is a directory in it. The storage root exists, as
      the start-up `makedirs` ensures. */
  lemma UploadSucceeds(s: Store, part: FilePart, path: string, custom: string,
                       secure: string -> string, ts: string)
    requires Valid(s) && Segments(UploadFolder) in s.dirs
    requires part.filename != "" && AllowedFile(part.filename)
    requires IsTimestamp(ts)
    requires var up := Strip(path, Slashes);
             var segs := Segments(UploadFolder) + Segments(up);
             && (forall k :: 0 <= k < |Segments(up)| ==> Segments(up)[k] != "..")
             && (forall k :: 0 < k <= |segs| ==> Visited([], segs)[k] !in s.files)
    requires var name := StoredName(part.filename, Strip(custom, Whitespace), secure);
             var segs := Segments(UploadFolder) + Segments(Strip(path, Slashes));
             && '/' !in name && name != "" && name != "." && name != ".."
             && segs + [name] !in s.dirs
             && segs + [CollisionName(name, ts)] !in s.dirs
    ensures Upload(s, UploadForm(Some(part), path, custom), secure, ts).1.Ok?
  {
    var up := Strip(path, Slashes);
    var name := StoredName(part.filename, Strip(custom, Whitespace), secure);
    var made := SaveDirectory(s, up);
    SaveDirectoryMade(s, up);
    PlaceInSucceeds(made.0, made.1.value, up, name, part.content, ts);
  }

  /** The plain case: a file sent with no upload path and no custom name,
      whose sanitised name is a single component and neither it nor its
      rename is a directory in the storage root, is stored. */
  lemma UploadToRootSucceeds(s: Store, part: FilePart, secure: string -> string, ts: string)
    requires Valid(s) && Segments(UploadFolder) in s.dirs
    requires part.filename != "" && AllowedFile(part.filename)
    requires IsTimestamp(ts)
    requires var n := secure(part.filename);
             && '/' !in n && n != "" && n != "." && n != ".."
             && ["app", "files", n] !in s.dirs
             && ["app", "files", CollisionName(n, ts)] !in s.dirs
    ensures Upload(s, UploadForm(Some(part), "", ""), secure, ts).1.Ok?
  {
    var n := secure(part.filename);
    EmptyFormIsPlace(s, part, secure, ts);
    RootPlaceSucceeds(s, n, part.content, ts);
    assert SaveDirectory(s, "") == (s, Some(UploadFolder));
    assert StoredName(part.filename, "", secure) == n;
  }

  /** With no path and no custom name, an accepted upload goes on into the
      storage root under the sanitised original name. */
  lemma EmptyFormIsPlace(s: Store, part: FilePart, secure: string -> string, ts: string)
    requires part.filename != "" && AllowedFile(part.filename)
    ensures Upload(s, UploadForm(Some(part), "", ""), secure, ts) == Place(s, part, "", "", secure, ts)
  {
    EmptyForm();
  }

  /** Saving into the storage root succeeds when neither the name nor its
      rename is a directory there. */
  lemma RootPlaceSucceeds(s: Store, n: string, content: seq<byte>, ts: string)
    requires Valid(s) && Segments(UploadFolder) in s.dirs
    requires IsTimestamp(ts)
    requires && '/' !in n && n != "" && n != "." && n != ".."
             && ["app", "files", n] !in s.dirs
             && ["app", "files", CollisionName(n, ts)] !in s.dirs
    ensures PlaceIn(s, UploadFolder, "", n, content, ts).1.Ok?
  {
    RootSegments();
    RootResolves(s);
    assert ["app", "files"] + [n] == ["app", "files", n];
    assert ["app", "files"] + [CollisionName(n, ts)] == ["app", "files", CollisionName(n, ts)];
    PlaceInSucceeds(s, UploadFolder, "", n, content, ts);
  }

  /** An absent path or file-name field strips to nothing and names no
      component, so the save directory is the storage root. */
  lemma EmptyForm()
    ensures Strip("", Slashes) == "" && Strip("", Whitespace) == ""
    ensures Segments(UploadFolder) == ["app", "files"] && Segments("") == []
    ensures Segments(UploadFolder) + Segments(Strip("", Slashes)) == ["app", "files"]
  {
    RootSegments();
    SegmentsEmpty();
  }
}
