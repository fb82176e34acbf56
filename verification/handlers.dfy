/**
 * The request handlers of the upload service, as functions from a store
 * and a request to a new store and a result. HTTP framing is left out: a
 * handler returns its result record or one of the error codes.
 */
module Handlers {
  import opened Wrappers
  import opened Text
  import opened Policy
  import opened PosixPath
  import opened FileStore

  /** The `code` field of the error responses. */
  datatype ErrorCode =
    | NoFile            // NO_FILE
    | EmptyFilename     // EMPTY_FILENAME
    | InvalidFileType   // INVALID_FILE_TYPE
    | UploadError       // UPLOAD_ERROR
    | InvalidPath       // INVALID_PATH
    | FileNotFound      // FILE_NOT_FOUND
    | AccessError       // ACCESS_ERROR
    | MissingPath       // MISSING_PATH
    | EmptyPath         // EMPTY_PATH
    | CreateFolderError // CREATE_FOLDER_ERROR
    | PathNotFound      // PATH_NOT_FOUND
    | ListError         // LIST_ERROR

  /** `os.path.exists` on a path string: the components resolve to a
      directory or a file, and to a directory when the path ends in a slash
      or in a `.` component. A path exists exactly when it resolves to a
      directory or names a regular file that can be read. */
  predicate PathExists(s: Store, path: string)
    ensures PathExists(s, path) <==>
              || (Lookup(s.dirs, Segments(path)).Some? && Lookup(s.dirs, Segments(path)).value in s.dirs)
              || (!NamesDirectory(path) && Read(s, Segments(path)).Some?)
  {
    && Exists(s, Segments(path))
    && (NamesDirectory(path) ==> Lookup(s.dirs, Segments(path)).value in s.dirs)
  }

  /** Reading the regular file a path string names. A path ending in a
      slash or in a `.` component names no regular file. */
  function ReadPath(s: Store, path: string): (r: Option<seq<byte>>)
    ensures r.Some? <==> !NamesDirectory(path) && Read(s, Segments(path)).Some?
    ensures r.Some? ==> r == Read(s, Segments(path)) && PathExists(s, path)
  {
    if NamesDirectory(path) then None else Read(s, Segments(path))
  }

  /** Opening a path string for writing: a path ending in a slash or in a
      `.` component is refused (EISDIR or ENOTDIR), any other is saved at
      its components. */
  function SavePath(s: Store, path: string, content: seq<byte>): (r: Option<Store>)
    ensures r.Some? <==> !NamesDirectory(path) && Save(s, Segments(path), content).Some?
    ensures r.Some? ==> r == Save(s, Segments(path), content)
    ensures r.Some? ==> ReadPath(r.value, path) == Some(content) && PathExists(r.value, path)
  {
    if NamesDirectory(path) then None else Save(s, Segments(path), content)
  }

  /** A path stripped of its outer slashes is relative. */
  lemma StrippedIsRelative(p: string)
    ensures !StartsWith(Strip(p, Slashes), "/")
  {
    var r := Strip(p, Slashes);
    var i, j :| StrippedAt(p, Slashes, i, j) && r == p[i..j];
    if |r| > 0 {
      assert r[0] == p[i];
    }
  }

  /** The storage root joined with a slash-stripped path has the root's
      components followed by the path's, and names a directory exactly when
      the stripped path does. */
  lemma CreateDirectorySegments(path: string)
    ensures var full := Join(UploadFolder, Strip(path, Slashes));
            && Segments(full) == Segments(UploadFolder) + Segments(path)
            && (NamesDirectory(full) <==> NamesDirectory(Strip(path, Slashes)))
  {
    StrippedIsRelative(path);
    JoinSegments(UploadFolder, Strip(path, Slashes));
    LastPieceJoin(UploadFolder, Strip(path, Slashes));
    SegmentsIgnoreOuterSlashes(path);
  }

  /** `create_directory`: strips the slashes around `path`, joins it onto the
      storage root and makes every directory on the way. The full path is
      returned, or `None` where `os.makedirs` raises. No containment check
      is made: `..` components are walked like any other. */
  function CreateDirectory(s: Store, path: string): (r: (Store, Option<string>))
    ensures r.0.files == s.files && s.dirs <= r.0.dirs
    ensures r.1.Some? ==> r.1.value == Join(UploadFolder, Strip(path, Slashes))
    ensures r.1.Some? && [] in s.dirs ==>
              && Lookup(r.0.dirs, Segments(r.1.value)).Some?
              && Lookup(r.0.dirs, Segments(r.1.value)).value in r.0.dirs
  {
    var full := Join(UploadFolder, Strip(path, Slashes));
    var m := MakeDirs(s, [], Segments(full));
    if m.1 then
      if [] in s.dirs then
        MakeDirsReaches(s, [], Segments(full));
        (m.0, Some(full))
      else
        (m.0, Some(full))
    else
      (m.0, None)
  }

  /** After a successful `os.makedirs` the whole walk resolves, to a
      directory. */
  lemma MakeDirsReaches(s: Store, cur: Path, segs: seq<string>)
    requires cur in s.dirs && MakeDirs(s, cur, segs).1
    ensures var d := MakeDirs(s, cur, segs).0.dirs;
            && Walk(d, cur, segs) == Some(Visited(cur, segs)[|segs|])
            && Visited(cur, segs)[|segs|] in d
  {
    var v := Visited(cur, segs);
    var q := v[1..];
    assert q[..FirstFile(s.files, q)] == q;
    var d := MakeDirs(s, cur, segs).0.dirs;
    forall k | 0 <= k <= |segs|
      ensures v[k] in d
    {
      if k > 0 {
        assert v[k] == q[k - 1];
      }
    }
    WalkSpec(d, cur, segs);
  }

  // ---------------------------------------------------------------- upload

  datatype FilePart = FilePart(filename: string, content: seq<byte>)

  /** The multipart form of an upload. `path` and `filename` are the empty
      string when the field is absent, as `request.form.get(field, '')`
      gives. */
  datatype UploadForm = UploadForm(file: Option<FilePart>, path: string, filename: string)

  /** The `data` record of a successful upload (its timestamp left out). */
  datatype Uploaded = Uploaded(filename: string, path: string, url: string, size: nat)

  /** The name the file is stored under before any collision: the
      sanitised custom name with the original extension lower-cased, or the
      sanitised original name. */
  function StoredName(original: string, custom: string, secure: string -> string): (r: string)
    requires '.' in original
    ensures custom == "" ==> r == secure(original)
    ensures custom != "" ==>
              && '.' in r
              && Extension(r) == Lower(Extension(original))
              && |r| == |secure(custom)| + 1 + |Extension(original)|
              && r[..|secure(custom)|] == secure(custom)
  {
    if custom != "" then
      var e := Lower(Extension(original));
      LoweredExtensionHasNoDot(original);
      ExtensionAfterDot(secure(custom), e);
      var r := secure(custom) + "." + e;
      assert r[..|secure(custom)|] == secure(custom);
      r
    else
      secure(original)
  }


  /** The collision rename: the timestamp goes between the `splitext` base
      and extension. */
  function CollisionName(name: string, ts: string): (r: string)
    ensures |r| == |name| + 1 + |ts|
    ensures var cut := |SplitExt(name).0|;
            && r[cut..cut + 1 + |ts|] == "_" + ts
            && r[..cut] + r[cut + 1 + |ts|..] == name
  {
    var (base, ext) := SplitExt(name);
    var r := base + "_" + ts + ext;
    assert name == base + ext;
    assert r[..|base|] == base && r[|base| + 1 + |ts|..] == ext;
    assert r[|base|..|base| + 1 + |ts|] == "_" + ts;
    r
  }

  /** The directory the file goes into: the root, or the created upload
      path. */
  function SaveDirectory(s: Store, uploadPath: string): (r: (Store, Option<string>))
    ensures r.0.files == s.files && s.dirs <= r.0.dirs
    ensures uploadPath == "" ==> r == (s, Some(UploadFolder))
    ensures r.1.Some? ==> Segments(r.1.value) == Segments(UploadFolder) + Segments(uploadPath)
  {
    CreateDirectorySegments(uploadPath);
    SegmentsEmpty();
    if uploadPath != "" then CreateDirectory(s, uploadPath) else (s, Some(UploadFolder))
  }

  /** The single existence check of the collision policy. */
  function ChooseName(s: Store, saveDir: string, name: string, ts: string): (r: string)
    ensures r == name <==> !PathExists(s, Join(saveDir, name))
    ensures r != name ==> r == CollisionName(name, ts)
  {
    if PathExists(s, Join(saveDir, name)) then CollisionName(name, ts) else name
  }

  /** `upload_file`. The three request checks come first and return before
      anything is written; the rest is `Place`. `secure` is
      `secure_filename` and `ts` the `%Y%m%d_%H%M%S` rendering of the
      current time. */
  function Upload(s: Store, form: UploadForm, secure: string -> string, ts: string)
    : (r: (Store, Result<Uploaded, ErrorCode>))
    ensures r.1 == Err(NoFile) <==> form.file.None?
    ensures r.1 == Err(EmptyFilename) <==> form.file.Some? && form.file.value.filename == ""
    ensures r.1 == Err(InvalidFileType) <==>
              form.file.Some? && form.file.value.filename != "" && !AllowedFile(form.file.value.filename)
    ensures r.1.Err? ==> r.1.error in {NoFile, EmptyFilename, InvalidFileType, UploadError}
    ensures r.1.Err? && r.1.error != UploadError ==> r.0 == s
    ensures form.file.Some? && form.file.value.filename != "" && AllowedFile(form.file.value.filename) ==>
              r == Place(s, form.file.value, Strip(form.path, Slashes), Strip(form.filename, Whitespace),
                         secure, ts)
    ensures r.1.Ok? ==> && form.file.Some? && AllowedFile(form.file.value.filename)
                        && r.1.value.url == UrlPrefix + r.1.value.path
                        && r.1.value.size == |form.file.value.content|
  {
    match form.file
    case None => (s, Err(NoFile))
    case Some(part) =>
      if part.filename == "" then (s, Err(EmptyFilename))
      else if !AllowedFile(part.filename) then (s, Err(InvalidFileType))
      else Place(s, part, Strip(form.path, Slashes), Strip(form.filename, Whitespace), secure, ts)
  }

  /** The part of `upload_file` after the checks: the name is chosen and
      the directory made; every failure from here on is UPLOAD_ERROR. */
  function Place(s: Store, part: FilePart, uploadPath: string, custom: string,
                 secure: string -> string, ts: string): (r: (Store, Result<Uploaded, ErrorCode>))
    requires AllowedFile(part.filename)
    ensures r.1.Err? ==> r.1.error == UploadError
    ensures var made := SaveDirectory(s, uploadPath);
            r.1.Ok? <==> && made.1.Some?
                         && PlaceIn(made.0, made.1.value, uploadPath,
                                    StoredName(part.filename, custom, secure), part.content, ts).1.Ok?
    ensures r.1.Ok? ==> && r.1.value.url == UrlPrefix + r.1.value.path
                        && r.1.value.size == |part.content|
  {
    var name := StoredName(part.filename, custom, secure);
    var made := SaveDirectory(s, uploadPath);
    match made.1
    case None => (made.0, Err(UploadError))
    case Some(saveDir) => PlaceIn(made.0, saveDir, uploadPath, name, part.content, ts)
  }

  /** Saving into an existing directory: the collision rename applied once,
      the file saved and the relative path and URL built. */
  function PlaceIn(s: Store, saveDir: string, uploadPath: string, name: string,
                   content: seq<byte>, ts: string): (r: (Store, Result<Uploaded, ErrorCode>))
    ensures r.1.Err? ==> r.1.error == UploadError
    ensures r.1.Ok? <==> SavePath(s, Join(saveDir, ChooseName(s, saveDir, name, ts)), content).Some?
    ensures r.1.Err? ==> r.0 == s
    ensures r.1.Ok? ==> && r.1.value.url == UrlPrefix + r.1.value.path
                        && r.1.value.size == |content|
  {
    var filename := ChooseName(s, saveDir, name, ts);
    match SavePath(s, Join(saveDir, filename), content)
    case None => (s, Err(UploadError))
    case Some(s2) =>
      if uploadPath != "" then
        UrlOfPath(uploadPath, filename);
        (s2, Ok(Uploaded(filename, uploadPath + "/" + filename,
                         UrlPrefix + uploadPath + "/" + filename, |content|)))
      else
        (s2, Ok(Uploaded(filename, filename, UrlPrefix + filename, |content|)))
  }

  /** The URL of a file in an upload path is the prefix and its relative
      path. */
  lemma UrlOfPath(uploadPath: string, filename: string)
    ensures UrlPrefix + uploadPath + "/" + filename == UrlPrefix + (uploadPath + "/" + filename)
  {
  }

  // -------------------------------------------------------------- download

  /** `download_file`. The traversal guard is a literal test on the string
      and comes before any look-up. A directory passes the existence test
      but is not served (`send_from_directory` raises, reported as
      ACCESS_ERROR). A path ending in a slash or in `.` exists only as a
      directory. */
  function Download(s: Store, path: string): (r: Result<seq<byte>, ErrorCode>)
    ensures r == Err(InvalidPath) <==>
              (exists i :: OccursAt(path, "..", i)) || (|path| > 0 && path[0] == '/')
    ensures var segs := Segments(UploadFolder) + Segments(path);
            r == Err(FileNotFound) <==>
              && r != Err(InvalidPath)
              && !(Exists(s, segs) && (NamesDirectory(path) ==> Lookup(s.dirs, segs).value in s.dirs))
    ensures r.Ok? ==> && !NamesDirectory(path)
                      && Read(s, Segments(UploadFolder) + Segments(path)) == Some(r.value)
    ensures r.Err? ==> r.error in {InvalidPath, FileNotFound, AccessError}
  {
    ContainsIff(path, "..");
    if Contains(path, "..") || StartsWith(path, "/") then Err(InvalidPath)
    else
      var full := Join(UploadFolder, path);
      JoinSegments(UploadFolder, path);
      LastPieceJoin(UploadFolder, path);
      if !PathExists(s, full) then Err(FileNotFound)
      else match ReadPath(s, full)
        case Some(bytes) => Ok(bytes)
        case None => Err(AccessError)
  }

  // --------------------------------------------------------- create folder

  /** A JSON value as far as the handler looks at it. */
  datatype Json = JString(text: string) | JOther

  /** The `data` record of a successful folder creation (its timestamp left
      out). */
  datatype Folder = Folder(path: string, fullPath: string)

  /** `create_folder`. `body` is the parsed JSON object, `None` for a JSON
      `null` body. A `path` that is not a string makes `.strip` raise,
      reported as CREATE_FOLDER_ERROR. */
  function CreateFolder(s: Store, body: Option<map<string, Json>>): (r: (Store, Result<Folder, ErrorCode>))
    ensures r.1 == Err(MissingPath) <==> body.None? || "path" !in body.value
    ensures r.1 == Err(EmptyPath) <==>
              body.Some? && "path" in body.value && body.value["path"].JString?
              && forall k :: 0 <= k < |body.value["path"].text| ==> body.value["path"].text[k] == '/'
    ensures r.1.Err? && r.1.error != CreateFolderError ==> r.0 == s
    ensures r.1.Ok? ==> && body.Some? && "path" in body.value && body.value["path"].JString?
                        && r.1.value.path == Strip(body.value["path"].text, Slashes)
                        && r.1.value.path != ""
    ensures r.1.Ok? ==> r.1.value.fullPath == Join(UploadFolder, r.1.value.path)
    ensures body.Some? && "path" in body.value && body.value["path"].JOther? ==> r == (s, Err(CreateFolderError))
    ensures body.Some? && "path" in body.value && body.value["path"].JString?
            && Strip(body.value["path"].text, Slashes) != "" ==>
              var made := CreateDirectory(s, Strip(body.value["path"].text, Slashes));
              r.0 == made.0 && (r.1.Ok? <==> made.1.Some?)
  {
    if body.None? || |body.value| == 0 || "path" !in body.value then (s, Err(MissingPath))
    else match body.value["path"]
      case JOther => (s, Err(CreateFolderError))
      case JString(p) =>
        var folderPath := Strip(p, Slashes);
        StripEmptyIffAllDropped(p, Slashes);
        StripIdempotent(p, Slashes);
        if folderPath == "" then (s, Err(EmptyPath))
        else
          var (s', full) := CreateDirectory(s, folderPath);
          match full
          case None => (s', Err(CreateFolderError))
          case Some(f) => (s', Ok(Folder(folderPath, f)))
  }

  // ------------------------------------------------------------------ list

  datatype Kind = Directory | File

  /** One entry of a listing (its modification time left out). */
  datatype Item = Item(name: string, kind: Kind, size: nat)

  /** The `data` record of a listing; `path` echoes the request path as
      given. */
  datatype Listing = Listing(path: string, items: seq<Item>, count: nat)

  /** The names directly inside directory `t`. */
  function Children(s: Store, t: Path): set<string> {
    (set p | p in s.dirs && |p| == |t| + 1 && p[..|t|] == t :: p[|t|])
    + (set p | p in s.files && |p| == |t| + 1 && p[..|t|] == t :: p[|t|])
  }

  /** The directory a listing enumerates: PATH_NOT_FOUND when the path does
      not exist, LIST_ERROR when it is a file (`os.listdir` raises). */
  function ListTarget(s: Store, folderPath: string): (r: Result<Path, ErrorCode>)
    ensures r.Ok? ==> && r.value in s.dirs
                      && Lookup(s.dirs, Segments(UploadFolder) + Segments(folderPath)) == Some(r.value)
    ensures r.Err? ==> r.error in {PathNotFound, ListError}
  {
    var target := Join(UploadFolder, Strip(folderPath, Slashes));
    CreateDirectorySegments(folderPath);
    if !PathExists(s, target) then Err(PathNotFound)
    else
      var t := Lookup(s.dirs, Segments(target)).value;
      if t in s.dirs then Ok(t) else Err(ListError)
  }

  /** `item` describes child `item.name` of `t` as `list_files` does. */
  predicate Describes(s: Store, t: Path, item: Item) {
    var p := t + [item.name];
    && (item.kind == Directory <==> p in s.dirs)
    && (item.kind == Directory ==> item.size == 0)
    && (item.kind == File ==> p in s.files && item.size == |s.files[p]|)
  }

  function Names(items: seq<Item>): set<string> {
    set k | 0 <= k < |items| :: items[k].name
  }

  /** `list_files`: the target is checked, then its children enumerated. */
  method ListFiles(s: Store, folderPath: string) returns (r: Result<Listing, ErrorCode>)
    ensures r.Err? <==> ListTarget(s, folderPath).Err?
    ensures r.Err? ==> r.error == ListTarget(s, folderPath).error
    ensures r.Ok? ==> var t := ListTarget(s, folderPath).value;
            && r.value.path == folderPath
            && r.value.count == |r.value.items|
            && Enumerates(s, t, r.value.items)
  {
    var target := ListTarget(s, folderPath);
    if target.Err? {
      return Err(target.error);
    }
    var items := Enumerate(s, target.value);
    return Ok(Listing(folderPath, items, |items|));
  }

  /** `items` holds one entry per child of `t`, each described as
      `list_files` does, with no name twice. */
  predicate Enumerates(s: Store, t: Path, items: seq<Item>) {
    && |items| == |Children(s, t)|
    && Names(items) == Children(s, t)
    && (forall k :: 0 <= k < |items| ==> Describes(s, t, items[k]))
    && (forall i, j :: 0 <= i < j < |items| ==> items[i].name != items[j].name)
  }

  /** `names` lists every element of `all` exactly once. */
  predicate IsEnumeration(names: seq<string>, all: set<string>) {
    && |names| == |all|
    && (forall k :: 0 <= k < |names| ==> names[k] in all)
    && (forall n :: n in all ==> exists k :: 0 <= k < |names| && names[k] == n)
    && (forall i, j :: 0 <= i < j < |names| ==> names[i] != names[j])
  }

  /** The `os.listdir` loop: one entry per child, in the order the
      enumeration yields them. */
  method Enumerate(s: Store, t: Path) returns (items: seq<Item>)
    ensures Enumerates(s, t, items)
  {
    var names := ListDir(Children(s, t));
    items := DescribeAll(s, t, names);
    DescribeAllEnumerates(s, t, names);
  }

  function DescribeAll(s: Store, t: Path, names: seq<string>): (items: seq<Item>)
    requires forall k :: 0 <= k < |names| ==> names[k] in Children(s, t)
    ensures |items| == |names|
    ensures forall k :: 0 <= k < |names| ==> items[k] == Describe(s, t, names[k])
  {
    seq(|names|, k requires 0 <= k < |names| => Describe(s, t, names[k]))
  }

  lemma DescribeAllEnumerates(s: Store, t: Path, names: seq<string>)
    requires IsEnumeration(names, Children(s, t))
    ensures Enumerates(s, t, DescribeAll(s, t, names))
  {
    var items := DescribeAll(s, t, names);
    NamesOfEnumeration(items, names, Children(s, t));
  }

  /** Entries named after an enumeration of `all` are named after all of
      `all`, each once. */
  lemma NamesOfEnumeration(items: seq<Item>, names: seq<string>, all: set<string>)
    requires |items| == |names| && forall k :: 0 <= k < |names| ==> items[k].name == names[k]
    requires IsEnumeration(names, all)
    ensures |items| == |all| && Names(items) == all
    ensures forall i, j :: 0 <= i < j < |items| ==> items[i].name != items[j].name
  {
    forall n | n in all
      ensures n in Names(items)
    {
      var k :| 0 <= k < |names| && names[k] == n;
      assert items[k].name == n;
    }
  }

  /** `os.listdir`: every name once, in an order the model leaves open, as
      the operating system does. */
  method ListDir(all: set<string>) returns (names: seq<string>)
    ensures IsEnumeration(names, all)
  {
    var remaining := all;
    names := [];
    while remaining != {}
      invariant remaining <= all
      invariant forall k :: 0 <= k < |names| ==> names[k] in all && names[k] !in remaining
      invariant forall n :: n in all && n !in remaining ==> exists k :: 0 <= k < |names| && names[k] == n
      invariant |names| + |remaining| == |all|
      invariant forall i, j :: 0 <= i < j < |names| ==> names[i] != names[j]
      decreases remaining
    {
      var name :| name in remaining;
      var names' := names + [name];
      assert names'[|names|] == name;
      assert forall k :: 0 <= k < |names| ==> names'[k] == names[k];
      names := names';
      remaining := remaining - {name};
    }
  }

  /** The entry `list_files` builds for one child: a directory has size 0,
      a file its byte count. */
  function Describe(s: Store, t: Path, name: string): (item: Item)
    requires name in Children(s, t)
    ensures item.name == name && Describes(s, t, item)
  {
    ChildIn(s, t, name);
    var p := t + [name];
    if p in s.dirs then Item(name, Directory, 0) else Item(name, File, |s.files[p]|)
  }

  /** A child name stands for a directory or a file one level below. */
  lemma ChildIn(s: Store, t: Path, name: string)
    ensures name in Children(s, t) <==> t + [name] in s.dirs || t + [name] in s.files
  {
    var p := t + [name];
    assert p[..|t|] == t && p[|t|] == name;
    if name in Children(s, t) {
      if q :| q in s.dirs && |q| == |t| + 1 && q[..|t|] == t && q[|t|] == name {
        assert q == p;
      } else {
        var q :| q in s.files && |q| == |t| + 1 && q[..|t|] == t && q[|t|] == name;
        assert q == p;
      }
    }
  }
}
