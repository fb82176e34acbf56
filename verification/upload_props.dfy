/**
 * Properties of the upload handler as a whole: what it changes in the
 * store, that the tree stays well formed, where the collision rename
 * leads, and that the path it returns downloads the uploaded bytes.
 */
module UploadProps {
  import opened Wrappers
  import opened Text
  import opened Policy
  import opened PosixPath
  import opened FileStore
  import opened Handlers
  import opened NamingProps

  /** `a` and `b` hold the same files, with the same bytes, everywhere but
      at `t`. */
  ghost predicate SameFilesExcept(a: map<Path, seq<byte>>, b: map<Path, seq<byte>>, t: Path) {
    forall p :: p != t ==> (p in a <==> p in b) && (p in a ==> a[p] == b[p])
  }

  /** `create_directory` adds directories only along the walk of its
      path, and touches no file. */
  lemma CreateDirectoryStaysOnWalk(s: Store, path: string)
    ensures var r := CreateDirectory(s, path);
            && r.0.files == s.files
            && s.dirs <= r.0.dirs <= s.dirs + Elements(Visited([], Segments(UploadFolder) + Segments(path)))
  {
    var segs := Segments(Join(UploadFolder, Strip(path, Slashes)));
    CreateDirectorySegments(path);
    var v := Visited([], segs);
    var q := v[1..];
    var j := FirstFile(s.files, q);
    forall x | x in Elements(q[..j])
      ensures x in Elements(v)
    {
      var k :| 0 <= k < j && q[..j][k] == x;
      assert v[k + 1] == x;
    }
  }

  /** Saving under the chosen name changes no directory and at most one
      file location, and the file then reads back as the content. */
  lemma PlaceInEffect(s: Store, saveDir: string, uploadPath: string, name: string,
                      content: seq<byte>, ts: string)
    ensures var r := PlaceIn(s, saveDir, uploadPath, name, content, ts);
            && r.0.dirs == s.dirs
            && (exists t :: SameFilesExcept(r.0.files, s.files, t))
            && (r.1.Err? ==> r.0 == s)
            && (r.1.Ok? ==> && r.1.value.filename == ChooseName(s, saveDir, name, ts)
                            && !NamesDirectory(Join(saveDir, r.1.value.filename))
                            && Read(r.0, Segments(Join(saveDir, r.1.value.filename))) == Some(content))
  {
    var path := Join(saveDir, ChooseName(s, saveDir, name, ts));
    var segs := Segments(path);
    match SavePath(s, path, content)
    case None =>
      assert SameFilesExcept(s.files, s.files, []);
    case Some(s2) =>
      assert SameFilesExcept(s2.files, s.files, Lookup(s.dirs, segs).value);
  }

  /** The part of an upload after the checks adds directories only along
      the walk of the upload path and changes at most one file location. */
  lemma PlaceEffect(s: Store, part: FilePart, uploadPath: string, custom: string,
                    secure: string -> string, ts: string)
    requires AllowedFile(part.filename)
    ensures var r := Place(s, part, uploadPath, custom, secure, ts);
            && s.dirs <= r.0.dirs <= s.dirs + Elements(Visited([], Segments(UploadFolder) + Segments(uploadPath)))
            && (exists t :: SameFilesExcept(r.0.files, s.files, t))
            && (r.1.Err? ==> r.0.files == s.files)
  {
    var name := StoredName(part.filename, custom, secure);
    var made := SaveDirectory(s, uploadPath);
    if uploadPath != "" {
      CreateDirectoryStaysOnWalk(s, uploadPath);
    } else {
      assert made.0 == s;
    }
    if made.1.None? {
      assert SameFilesExcept(s.files, s.files, []);
    } else {
      PlaceInEffect(made.0, made.1.value, uploadPath, name, part.content, ts);
    }
  }

  /** The effect of an upload on the store: directories are added only
      along the walk of the upload path, and at most one file location
      changes. A request refused before the save, or a failed save, leaves
      every file as it was. */
  lemma UploadEffect(s: Store, form: UploadForm, secure: string -> string, ts: string)
    ensures var r := Upload(s, form, secure, ts);
            && s.dirs <= r.0.dirs <= s.dirs + Elements(Visited([], Segments(UploadFolder) + Segments(form.path)))
            && (exists t :: SameFilesExcept(r.0.files, s.files, t))
            && (r.1.Err? ==> r.0.files == s.files)
  {
    if form.file.Some? && form.file.value.filename != "" && AllowedFile(form.file.value.filename) {
      PlaceEffect(s, form.file.value, Strip(form.path, Slashes), Strip(form.filename, Whitespace), secure, ts);
      SegmentsIgnoreOuterSlashes(form.path);
    } else {
      assert SameFilesExcept(s.files, s.files, []);
    }
  }

  /** Saving under the chosen name keeps a well-formed tree well formed. */
  lemma PlaceInPreservesValid(s: Store, saveDir: string, uploadPath: string, name: string,
                              content: seq<byte>, ts: string)
    requires Valid(s)
    ensures Valid(PlaceIn(s, saveDir, uploadPath, name, content, ts).0)
  {
    SavePreservesValid(s, Segments(Join(saveDir, ChooseName(s, saveDir, name, ts))), content);
  }

  /** Making the save directory keeps a well-formed tree well formed. */
  lemma SaveDirectoryPreservesValid(s: Store, up: string)
    requires Valid(s)
    ensures Valid(SaveDirectory(s, up).0)
  {
    if up != "" {
      MakeDirsPreservesValid(s, [], Segments(Join(UploadFolder, Strip(up, Slashes))));
    }
  }
  /** The part of an upload after the checks keeps a well-formed tree
      well formed. */
  lemma PlacePreservesValid(s: Store, part: FilePart, uploadPath: string, custom: string,
                            secure: string -> string, ts: string)
    requires Valid(s) && AllowedFile(part.filename)
    ensures Valid(Place(s, part, uploadPath, custom, secure, ts).0)
  {
    var name := StoredName(part.filename, custom, secure);
    var made := SaveDirectory(s, uploadPath);
    SaveDirectoryPreservesValid(s, uploadPath);
    if made.1.Some? {
      assert Place(s, part, uploadPath, custom, secure, ts)
             == PlaceIn(made.0, made.1.value, uploadPath, name, part.content, ts);
      PlaceInPreservesValid(made.0, made.1.value, uploadPath, name, part.content, ts);
    }
  }

  /** An upload keeps a well-formed tree well formed. */
  lemma UploadPreservesValid(s: Store, form: UploadForm, secure: string -> string, ts: string)
    requires Valid(s)
    ensures Valid(Upload(s, form, secure, ts).0)
  {
    var r := Upload(s, form, secure, ts);
    if form.file.Some? && form.file.value.filename != "" && AllowedFile(form.file.value.filename) {
      var custom := Strip(form.filename, Whitespace);
      var up := Strip(form.path, Slashes);
      assert r == Place(s, form.file.value, up, custom, secure, ts);
      PlacePreservesValid(s, form.file.value, up, custom, secure, ts);
    } else {
      assert r.0 == s;
    }
  }

  /** The relative path returned after a save is the upload path and the
      name joined by a slash, or the name alone; its URL is the download
      prefix followed by it. */
  lemma PlaceInReturnsPath(s: Store, saveDir: string, uploadPath: string, name: string,
                           content: seq<byte>, ts: string)
    ensures var r := PlaceIn(s, saveDir, uploadPath, name, content, ts);
            r.1.Ok? ==>
              && r.1.value.path == (if uploadPath == "" then r.1.value.filename
                                    else uploadPath + "/" + r.1.value.filename)
              && r.1.value.url == UrlPrefix + r.1.value.path
  {
  }

  lemma PlaceReturnsPath(s: Store, part: FilePart, uploadPath: string, custom: string,
                         secure: string -> string, ts: string)
    requires AllowedFile(part.filename)
    ensures var r := Place(s, part, uploadPath, custom, secure, ts);
            r.1.Ok? ==>
              && r.1.value.path == (if uploadPath == "" then r.1.value.filename
                                    else uploadPath + "/" + r.1.value.filename)
              && r.1.value.url == UrlPrefix + r.1.value.path
  {
    var made := SaveDirectory(s, uploadPath);
    if made.1.Some? {
      var name := StoredName(part.filename, custom, secure);
      assert Place(s, part, uploadPath, custom, secure, ts)
             == PlaceIn(made.0, made.1.value, uploadPath, name, part.content, ts);
      PlaceInReturnsPath(made.0, made.1.value, uploadPath, name, part.content, ts);
    }
  }

  /** The relative path an upload returns is the stripped upload path and
      the stored name joined by a slash, or the stored name alone when
      there is no upload path; its URL is the download prefix followed by
      it. */
  lemma UploadReturnsPath(s: Store, form: UploadForm, secure: string -> string, ts: string)
    ensures var r := Upload(s, form, secure, ts);
            var up := Strip(form.path, Slashes);
            r.1.Ok? ==>
              && r.1.value.path == (if up == "" then r.1.value.filename else up + "/" + r.1.value.filename)
              && r.1.value.url == UrlPrefix + r.1.value.path
  {
    var r := Upload(s, form, secure, ts);
    if r.1.Ok? {
      var custom := Strip(form.filename, Whitespace);
      var up := Strip(form.path, Slashes);
      assert r == Place(s, form.file.value, up, custom, secure, ts);
      PlaceReturnsPath(s, form.file.value, up, custom, secure, ts);
    }
  }

  /** The name an upload stores under: the chosen name when nothing exists
      at it in the save directory, and its collision rename, which differs
      from it, when something does. */
  lemma UploadNaming(s: Store, form: UploadForm, secure: string -> string, ts: string)
    ensures var r := Upload(s, form, secure, ts);
            r.1.Ok? ==>
              var name := StoredName(form.file.value.filename, Strip(form.filename, Whitespace), secure);
              var made := SaveDirectory(s, Strip(form.path, Slashes));
              && made.1.Some?
              && (r.1.value.filename == name <==> !PathExists(made.0, Join(made.1.value, name)))
              && (r.1.value.filename != name ==> r.1.value.filename == CollisionName(name, ts))
  {
    var r := Upload(s, form, secure, ts);
    if r.1.Ok? {
      var custom := Strip(form.filename, Whitespace);
      var up := Strip(form.path, Slashes);
      var name := StoredName(form.file.value.filename, custom, secure);
      var made := SaveDirectory(s, up);
      assert r == PlaceIn(made.0, made.1.value, up, name, form.file.value.content, ts);
    }
  }

  /** The renamed target is not checked again: when both the chosen name
      and its rename exist as files, the upload replaces the renamed file's
      bytes. */
  lemma RenameNotRechecked(s: Store, saveDir: string, uploadPath: string, name: string,
                           content: seq<byte>, ts: string)
    requires Valid(s)
    requires PathExists(s, Join(saveDir, name))
    requires ReadPath(s, Join(saveDir, CollisionName(name, ts))).Some?
    ensures var r := PlaceIn(s, saveDir, uploadPath, name, content, ts);
            && r.1.Ok?
            && r.1.value.filename == CollisionName(name, ts)
            && Read(r.0, Segments(Join(saveDir, CollisionName(name, ts)))) == Some(content)
  {
    var c := CollisionName(name, ts);
    var path := Join(saveDir, c);
    var segs := Segments(path);
    assert ChooseName(s, saveDir, name, ts) == c;
    assert Read(s, segs).Some?;
    var t := Lookup(s.dirs, segs).value;
    assert t in s.files;
    assert SavePath(s, path, content).Some?;
  }

  /** The collision rename of a name without a slash does not start with
      one. */
  lemma CollisionNameRelative(name: string, ts: string)
    requires '/' !in name
    ensures !StartsWith(CollisionName(name, ts), "/")
  {
    var c := CollisionName(name, ts);
    var b := SplitExt(name).0;
    if |b| > 0 {
      assert c[0] == name[0];
    } else {
      assert c[0] == '_';
    }
  }

  /** The stored name holds no slash when `secure` never puts one in a
      name. */
  lemma StoredNameRelative(original: string, custom: string, secure: string -> string)
    requires AllowedFile(original)
    requires forall x :: '/' !in secure(x)
    ensures '/' !in StoredName(original, custom, secure)
  {
    if custom != "" {
      AllowedExtensionChars(Lower(Extension(original)));
      assert '/' !in secure(custom);
    }
  }

  /** Saving under a name without a slash: the file reads back at the save
      directory followed by the name's components. */
  lemma PlaceInReadsBack(s: Store, saveDir: string, uploadPath: string, name: string,
                         content: seq<byte>, ts: string)
    requires '/' !in name
    ensures var r := PlaceIn(s, saveDir, uploadPath, name, content, ts);
            r.1.Ok? ==> && !StartsWith(r.1.value.filename, "/")
                        && !NamesDirectory(r.1.value.filename)
                        && Read(r.0, Segments(saveDir) + Segments(r.1.value.filename)) == Some(content)
  {
    PlaceInEffect(s, saveDir, uploadPath, name, content, ts);
    CollisionNameRelative(name, ts);
    var fn := ChooseName(s, saveDir, name, ts);
    JoinSegments(saveDir, fn);
    LastPieceJoin(saveDir, fn);
  }

  /** The directory a file is saved into is the storage root followed by
      the components of the upload path. */
  lemma SaveDirectorySegments(s: Store, uploadPath: string)
    requires !StartsWith(uploadPath, "/")
    ensures var made := SaveDirectory(s, uploadPath);
            made.1.Some? ==> Segments(made.1.value) == Segments(UploadFolder) + Segments(uploadPath)
  {
    if uploadPath == "" {
      SegmentsEmpty();
    } else {
      CreateDirectorySegments(uploadPath);
    }
  }

  /** The relative path built from a relative upload path and a relative
      name is relative, and has the components of both. */
  lemma RelativePathSegments(uploadPath: string, name: string)
    requires !StartsWith(uploadPath, "/") && !StartsWith(name, "/")
    ensures var path := if uploadPath == "" then name else uploadPath + "/" + name;
            && Segments(path) == Segments(uploadPath) + Segments(name)
            && !(|path| > 0 && path[0] == '/')
  {
    if uploadPath == "" {
      SegmentsEmpty();
    } else {
      SegmentsConcat(uploadPath, name);
      assert (uploadPath + "/" + name)[0] == uploadPath[0];
    }
  }

  /** Saving into the directory of a relative upload path under a name
      without a slash: the returned relative path is relative and, below
      the storage root, reads back as the content. */
  lemma PlaceInReadsBackBelowRoot(s: Store, saveDir: string, uploadPath: string, name: string,
                                  content: seq<byte>, ts: string)
    requires '/' !in name && !StartsWith(uploadPath, "/")
    requires Segments(saveDir) == Segments(UploadFolder) + Segments(uploadPath)
    ensures var r := PlaceIn(s, saveDir, uploadPath, name, content, ts);
            r.1.Ok? ==> && !(|r.1.value.path| > 0 && r.1.value.path[0] == '/')
                        && !NamesDirectory(r.1.value.path)
                        && Read(r.0, Segments(UploadFolder) + Segments(r.1.value.path)) == Some(content)
  {
    var r := PlaceIn(s, saveDir, uploadPath, name, content, ts);
    if r.1.Ok? {
      PlaceInReadsBack(s, saveDir, uploadPath, name, content, ts);
      PlaceInReturnsPath(s, saveDir, uploadPath, name, content, ts);
      var fn := r.1.value.filename;
      if uploadPath != "" {
        LastPieceConcat(uploadPath, fn);
      }
      RelativePathSegments(uploadPath, fn);
      ReadBelowRoot(r.0, Segments(UploadFolder), Segments(uploadPath), Segments(fn), content);
    }
  }

  /** A file that reads back at the save directory followed by a name reads
      back at the storage root followed by the upload path and the name. */
  lemma ReadBelowRoot(st: Store, root: seq<string>, up: seq<string>, name: seq<string>,
                      content: seq<byte>)
    requires Read(st, (root + up) + name) == Some(content)
    ensures Read(st, root + (up + name)) == Some(content)
  {
    assert (root + up) + name == root + (up + name);
  }

  /** The part of an upload after the checks, for a relative upload path:
      the returned relative path is relative and, below the storage root,
      reads back as the content. */
  lemma PlaceReadsBack(s: Store, part: FilePart, uploadPath: string, custom: string,
                       secure: string -> string, ts: string)
    requires AllowedFile(part.filename)
    requires forall x :: '/' !in secure(x)
    requires !StartsWith(uploadPath, "/")
    ensures var r := Place(s, part, uploadPath, custom, secure, ts);
            r.1.Ok? ==> && !(|r.1.value.path| > 0 && r.1.value.path[0] == '/')
                        && !NamesDirectory(r.1.value.path)
                        && Read(r.0, Segments(UploadFolder) + Segments(r.1.value.path)) == Some(part.content)
  {
    var name := StoredName(part.filename, custom, secure);
    StoredNameRelative(part.filename, custom, secure);
    var made := SaveDirectory(s, uploadPath);
    if made.1.Some? {
      assert Place(s, part, uploadPath, custom, secure, ts)
             == PlaceIn(made.0, made.1.value, uploadPath, name, part.content, ts);
      SaveDirectorySegments(s, uploadPath);
      PlaceInReadsBackBelowRoot(made.0, made.1.value, uploadPath, name, part.content, ts);
    }
  }

  /** Upload then download: the relative path an upload returns, requested
      back from the download handler, gives the uploaded bytes, as long as
      it holds no `..` (which the download guard refuses) and `secure`
      never puts a slash in a name. */
  lemma UploadThenDownload(s: Store, form: UploadForm, secure: string -> string, ts: string)
    requires forall x :: '/' !in secure(x)
    requires var r := Upload(s, form, secure, ts);
             r.1.Ok? && forall i :: !OccursAt(r.1.value.path, "..", i)
    ensures var r := Upload(s, form, secure, ts);
            Download(r.0, r.1.value.path) == Ok(form.file.value.content)
  {
    var r := Upload(s, form, secure, ts);
    var custom := Strip(form.filename, Whitespace);
    var up := Strip(form.path, Slashes);
    assert r == Place(s, form.file.value, up, custom, secure, ts);
    StrippedIsRelative(form.path);
    PlaceReadsBack(s, form.file.value, up, custom, secure, ts);
    DownloadReads(r.0, r.1.value.path);
  }

  /** A relative path without `..` that reads as a file downloads its
      bytes. */
  lemma DownloadReads(s: Store, path: string)
    requires forall i :: !OccursAt(path, "..", i)
    requires !(|path| > 0 && path[0] == '/')
    requires !NamesDirectory(path)
    requires Read(s, Segments(UploadFolder) + Segments(path)).Some?
    ensures Download(s, path) == Ok(Read(s, Segments(UploadFolder) + Segments(path)).value)
  {
    ContainsIff(path, "..");
    var full := Join(UploadFolder, path);
    JoinSegments(UploadFolder, path);
    LastPieceJoin(UploadFolder, path);
    assert ReadPath(s, full) == Read(s, Segments(UploadFolder) + Segments(path));
    assert Download(s, path) == match ReadPath(s, full)
      case Some(bytes) => Ok(bytes)
      case None => Err(AccessError);
  }
}
