# File upload service: path and naming policy

This project models the request handlers of a small Flask file server
(`app.py`). Clients upload files into a storage root (`/app/files`), download
them back, create folders and list directories. The model keeps the
handlers' string and path policy and leaves out the HTTP framing. It covers:

- the extension check;
- the slash-stripping of user paths;
- `create_directory`;
- the order of the upload checks;
- the stored name and its one-shot collision rename;
- the relative path and URL an upload returns;
- the literal traversal guard of the download handler;
- the error classification of folder creation and listing;
- the shape of a listing.

The filesystem is an immutable `FileStore.Store`. It holds a set of directories
and a map from regular files to their bytes. Both are keyed by resolved
absolute paths, written as sequences of component names.

- A path string is split on `/` into components (`PosixPath.Segments`).
  Empty and `.` components are dropped.
- A path that ends in a slash or in a `.` component
  (`PosixPath.NamesDirectory`) can only name a directory, as in the kernel.
  The existence test then requires a directory there. Reading or saving a
  file through such a path fails.
- It is then resolved component by component (`FileStore.Walk`). Each
  intermediate location must be a directory. `..` climbs one level and stays
  put at `/`.
- `os.makedirs(..., exist_ok=True)` is `FileStore.MakeDirs`. It makes each
  location on the walk a directory in turn, fails at the first one that is a
  regular file, and keeps the directories it made before that.
- `file.save` is `FileStore.Save`.

The upload and folder-creation handlers are functions from a store and a
request to a new store and a `Result` (the result record or an error code).
The download handler returns a `Result` and leaves the store alone. The
listing handler is a method, because `os.listdir` yields names in an order
the model leaves open.

Modules:

- `Text`: the Python string methods used (`strip`, `lower`, `in`, `rfind`).
- `Policy`: the constants and `allowed_file`.
- `PosixPath`: `os.path.join`, `os.path.splitext` and path components.
- `FileStore`: the store.
- `Handlers`: `create_directory` and the four handlers.
- `NamingProps`, `UploadProps`, `RepeatProps`, `UploadSuccess`, `FolderProps`,
  `ListingProps`: the properties proved about them.

Behaviours of the code worth knowing, which the model reproduces:

- No check rejects an upload whose sanitised name is empty. EMPTY_FILENAME
  is only reported when the uploaded part's own file name is empty.
- `create_directory` does not keep its result below the storage root.
  `FolderProps.CreateFolderLeavesRoot` shows the folder `../outside` being
  made at `/app/outside`.
- Listing a path that names a regular file reports LIST_ERROR. PATH_NOT_FOUND
  is reported only when nothing exists at the path.
- Without a custom name, the stored name is whatever `secure_filename` makes
  of the original name. Nothing re-checks that it still has an extension.

## Model

| member | source | states |
|---|---|---|
| Policy.Extension | app.py:33 | `rsplit('.', 1)[1]` is the text after the last dot: the character just before it is a dot, the text itself holds none, and it is a suffix of the name |
| Policy.AllowedFile | app.py:28-33 | an accepted name's last dot is followed by three or four characters, the length of every allowed extension |
| Policy.AllowedFileIff | app.py:28-33 | a name is accepted exactly when some dot is its last dot and the lower-cased text after it is one of the twelve allowed extensions |
| Policy.AllowedFileNeedsExtension | app.py:32-33 | a name without a dot, or whose last character is the dot, is refused |
| Policy.AllowedFileIgnoresCase | app.py:33 | two names equal after lowering are accepted or refused together, so the case of the extension does not matter |
| Text.Lower | app.py:33 | the lowered string has the argument's length, and each character is the lowered character at the same place |
| Text.Strip | app.py:39 | `strip` returns an infix of its argument: every character outside it is a stripped character, and its first and last characters, if any, are kept ones |
| Text.StripIdempotent | app.py:226 | stripping an already stripped path, as the listing does with a path folder creation echoed, removes nothing more |
| Text.StripEmptyIffAllDropped | app.py:193-194 | a path is empty after stripping slashes exactly when it consists of slashes only |
| Text.ContainsIff | app.py:152 | the substring test `'..' in filename` holds exactly when `..` occurs at some offset of the name |
| Text.RFindAppend | app.py:33 | the last occurrence of a character in a concatenation lies in the right part when the right part has one, and is otherwise the left part's last one |
| PosixPath.SplitExt | app.py:110 | `splitext` cuts a name into a base and an extension that concatenate back to the name; the extension is empty or a dot followed by neither dot nor slash |
| PosixPath.SplitExtCut | app.py:110 | `splitext` cuts at the last dot exactly when that dot comes after the last slash and a character other than a dot lies between them; otherwise it leaves the name whole with an empty extension |
| PosixPath.Join | app.py:39 | `os.path.join` returns an absolute second argument unchanged; otherwise the result is the first argument, at most one slash, then the second argument |
| PosixPath.JoinSegments | app.py:39 | joining a relative path onto a directory appends the path's components to the directory's |
| PosixPath.Segments | app.py:39-40 | the components the kernel reads from a path are non-empty, none is `.`, and none holds a slash |
| PosixPath.SegmentsIgnoreOuterSlashes | app.py:39 | stripping the outer slashes of a path keeps the components the kernel reads from it |
| FileStore.WalkSpec | app.py:160 | resolution succeeds exactly when every location the walk looks a component up in is a directory, and it ends at the walk's last location |
| FileStore.MakeDirs | app.py:40 | `makedirs` touches no file, and succeeds exactly when no location on the walk is a file; it adds the walk's locations up to the first file |
| FileStore.MakeDirsPreservesValid | app.py:40 | `makedirs` keeps the tree well formed: the root is a directory, nothing is both a file and a directory, and every parent is a directory |
| FileStore.Save | app.py:116 | saving succeeds exactly when the path resolves to a location that is not a directory; it changes only that file, and the file then reads back as the content |
| FileStore.SavePreservesValid | app.py:116 | a successful save keeps the tree well formed |
| Handlers.PathExists | app.py:108 | `os.path.exists` holds exactly when the path resolves to a directory, or does not end in a slash or `.` and resolves to a regular file that can be read |
| Handlers.ReadPath | app.py:160-170 | a file is read through a path only when the path does not end in a slash or `.`; a path that reads as a file exists |
| Handlers.SavePath | app.py:116 | saving fails on a path ending in a slash or `.`; after a successful save the path exists and reads back the content |
| Handlers.CreateDirectory | app.py:35-41 | `create_directory` touches no file, only adds directories, returns the root joined with the slash-stripped path, and after success that path resolves to a directory |
| Handlers.StoredName | app.py:93-99 | without a custom name the stored name is what `secure_filename` makes of the original name; with one it starts with the sanitised custom name, and its extension is the original's, lower-cased |
| Handlers.SaveDirectory | app.py:102-105 | with no upload path the root is used and the store is unchanged; otherwise the path is created; no file changes, directories only grow, and the directory's components are the root's followed by the upload path's |
| Handlers.ChooseName | app.py:107-113 | the chosen name is kept exactly when nothing exists at it in the save directory, and is otherwise the collision rename |
| Handlers.CollisionName | app.py:110-112 | the rename is longer by `_` and the timestamp, which sit at the `splitext` cut; taking them out gives the name back |
| Handlers.Upload | app.py:64-116 | the checks run in order: a missing part gives NO_FILE, an empty name EMPTY_FILENAME, a refused extension INVALID_FILE_TYPE; each leaves the store as it was; an accepted part goes on with the slash-stripped path and the whitespace-stripped custom name; a success had an accepted name, and its URL is the prefix followed by its path and its size the byte count |
| Handlers.Place | app.py:88-124 | every failure after the checks is UPLOAD_ERROR; the upload succeeds exactly when the save directory is made and the save into it succeeds; on success the URL is the prefix followed by the relative path and the size is the byte count |
| Handlers.PlaceIn | app.py:107-124 | the save succeeds exactly when the file can be opened for writing at the directory joined with the chosen name, and otherwise the result is UPLOAD_ERROR with the store unchanged; the URL is the download prefix followed by the returned relative path, and the size is the content's length |
| Handlers.Download | app.py:150-176 | INVALID_PATH exactly when the path contains `..` or starts with `/`, whatever the store; otherwise FILE_NOT_FOUND exactly when nothing exists below the root at the path, or the path ends in a slash or `.` and no directory is there; a success is for a path not ending so, and returns the bytes read there; no other error occurs |
| Handlers.CreateFolder | app.py:185-217 | MISSING_PATH exactly when the body is JSON `null`, an empty object or has no `path` key; EMPTY_PATH exactly when the path is all slashes; neither touches the store; a `path` that is not a string gives CREATE_FOLDER_ERROR with the store unchanged; for any other path the store is the one `create_directory` leaves, and the request succeeds exactly when `create_directory` does; a success echoes the stripped, non-empty path, and its full path is the root joined with it |
| Handlers.ListTarget | app.py:226-235 | a listed target is a directory, the one the root followed by the path resolves to; the only errors are PATH_NOT_FOUND and LIST_ERROR |
| Handlers.ListFiles | app.py:224-253 | the listing fails exactly when its target does, with the same code; on success it echoes the requested path, its count is the number of items, and the items enumerate the target's children |
| Handlers.ListDir | app.py:235 | `os.listdir` yields every child name exactly once |
| Handlers.Describe | app.py:236-244 | an entry is typed directory exactly when the child is a directory, has size 0 then, and otherwise has the file's byte count |
| Handlers.Enumerate | app.py:234-244 | the loop yields one entry per child, each described as above, with no name twice |
| NamingProps.CustomNameKeepsExtension | app.py:92-96 | with a custom name, the stored name's extension is the lower-cased original extension, so it passes the extension check whatever `secure_filename` does |
| NamingProps.CustomNameExample | app.py:92-96 | custom name `report` on `x.PDF` is stored as `report.pdf` |
| NamingProps.CollisionNameShape | app.py:109-112 | the rename adds 16 characters, changes the name, and `splitext` of the result is the old base with `_` and the timestamp appended, plus the old extension |
| NamingProps.CollisionHidesExtension | app.py:109-112 | a stored name that is a dot and an extension has no `splitext` extension, so the stamp goes after the extension and the renamed file fails the extension check |
| NamingProps.CollisionKeepsExtension | app.py:109-112 | where `splitext` finds an extension, the rename puts `_` and the timestamp just before its dot, so the text after the last dot is unchanged and the renamed file passes the extension check exactly when the original did |
| NamingProps.CollisionExample | app.py:109-112 | `report.pdf` is renamed `report_<timestamp>.pdf`, which still passes the extension check |
| UploadProps.CreateDirectoryStaysOnWalk | app.py:35-41 | `create_directory` adds directories only along the walk of the root and the path, and touches no file |
| UploadProps.PlaceInEffect | app.py:107-116 | saving changes no directory and at most one file location, a failed save changes nothing, and the saved file, whose path does not end in a slash or `.`, reads back |
| UploadProps.UploadEffect | app.py:64-116 | an upload adds directories only along the walk of the upload path and changes at most one file location; a refused or failed upload leaves every file as it was |
| UploadProps.UploadPreservesValid | app.py:101-116 | an upload keeps a well-formed tree well formed |
| UploadProps.UploadReturnsPath | app.py:118-124 | the returned path is the stripped upload path, a slash and the stored name, or the name alone when there is no upload path; the URL is the prefix followed by it |
| UploadProps.UploadNaming | app.py:107-113 | the upload keeps the chosen name exactly when nothing exists at it in the save directory; otherwise it uses the collision rename |
| UploadProps.RenameNotRechecked | app.py:107-116 | the rename is not checked again: when the name exists and its rename is a file, the upload succeeds and replaces the renamed file's bytes |
| UploadProps.UploadThenDownload | app.py:118-170 | when `secure_filename` never yields a slash, the path a successful upload returns downloads the uploaded bytes, unless it holds `..` |
| UploadProps.DownloadReads | app.py:152-170 | a relative path without `..`, not ending in a slash or `.`, that resolves to a file below the root downloads that file's bytes |
| RepeatProps.CollisionNamesDiffer | app.py:110-112 | renames of one name at two different timestamps differ from each other and from the name |
| RepeatProps.UploadTwice | app.py:64-170 | two uploads of the same file name to the same path at different times keep two files: the returned paths differ, and each downloads the bytes uploaded under it |
| UploadSuccess.PlaceInSucceeds | app.py:107-116 | saving a one-component name into a directory succeeds when neither the name nor its collision rename is a directory there |
| UploadSuccess.UploadSucceeds | app.py:64-124 | an accepted upload succeeds when its upload path holds no `..`, no regular file lies on the walk to it, and neither the stored name nor its rename is a directory in it |
| UploadSuccess.UploadToRootSucceeds | app.py:64-124 | a file uploaded with no path and no custom name, whose sanitised name is one component and neither it nor its rename is a directory in the storage root, is stored |
| FolderProps.MakeDirsIdempotent | app.py:40 | `makedirs` run twice is `makedirs` run once, whether the first run succeeded or stopped at a file |
| FolderProps.CreateFolderIdempotent | app.py:193-201 | repeating a folder creation on the store it produced returns the same result and leaves the store unchanged |
| FolderProps.CreateDirectoryAddsWalk | app.py:35-41 | a successful `create_directory` adds exactly the locations on the walk of the root and the path, and no file |
| FolderProps.CreateFolderMakesWalk | app.py:193-208 | a successful folder creation echoes the stripped path, touches no file, and adds exactly the walk of the root and the path |
| FolderProps.CreatedFolderListable | app.py:201-228 | listing the path a folder creation echoes finds a directory |
| FolderProps.CreatedFolderInParentListing | app.py:186-253 | after creating `parent/c`, listing `parent` succeeds, `c` is a directory child of it, and every listing of it holds the entry `c`, typed directory with size 0 |
| FolderProps.SlashesOnlyIsEmptyPath | app.py:193-198 | the path `///` is refused as EMPTY_PATH and the store is unchanged |
| FolderProps.CreateFolderLeavesRoot | app.py:39-40 | `..` is walked, not refused: `../outside` is reported as `/app/files/../outside` and made at `/app/outside`, outside the root |
| FolderProps.CreateDirectoryMakesWalk | app.py:35-41 | where no location on the walk is a file, `create_directory` succeeds and makes every location on it a directory |
| FolderProps.CreateFolderSucceeds | app.py:193-217 | a string path that is not all slashes is created exactly when no location on the walk of the root and the path is a regular file; the answer then echoes the stripped path with the root joined to it as full path, and any failure is CREATE_FOLDER_ERROR |
| FolderProps.CreateFolderIsCreateDirectory | app.py:193-208 | a string path that is not all slashes is answered by `create_directory` on the stripped path: its store, and success with the stripped path or CREATE_FOLDER_ERROR |
| FolderProps.MakeDirsClearWalk | app.py:40 | `makedirs` from the root succeeds exactly when no location its walk passes is a regular file |
| FolderProps.MakeDirsStopsAtFile | app.py:40 | `makedirs` from the root fails when a location its walk passes is a regular file |
| ListingProps.ListTargetResolves | app.py:226-235 | PATH_NOT_FOUND exactly when nothing exists at the root followed by the path, or the stripped path is empty or ends in `.` and no directory is there; a listing succeeds exactly when the path resolves to a directory, and lists that directory; LIST_ERROR exactly when something other than a directory is there and the stripped path does not end in `.` |
| ListingProps.EnumeratedChildDirectory | app.py:234-244 | a child directory appears in every listing of its parent, typed directory with size 0 |
| ListingProps.EnumerationsAgree | app.py:234-244 | two listings of the same directory hold the same entries, each once, and differ only in order |

## Left out

- HTTP routing, `jsonify` responses, status codes and the human-readable
  messages are left out. The handlers return the error code or the result
  record.
- The timestamps in responses (`upload_time`, `created_time`, `modified_time`)
  are left out, and so is `os.path.getmtime`. They are clock readings.
- The collision timestamp is a parameter `ts`. Lemmas that need its shape
  assume the 15-character `%Y%m%d_%H%M%S` form.
- `secure_filename` comes from a library that is not part of this model. It
  is an uninterpreted function parameter. Lemmas that need it assume only that
  its output holds no `/`.
- The health endpoint and the start-up `makedirs` of the root are left out.
  Lemmas that need the root to exist assume `/` is a directory or the tree is
  well formed.
- `MAX_CONTENT_LENGTH` is enforced by the framework before the handler runs,
  so it is left out.
- The race between the existence check and the save is left out. The model
  has a single writer.
- Symbolic links, permissions and I/O failures other than the ones the store
  models are left out. The modelled ones are a missing location, a file where
  a directory is needed (inside a path, or at the end of a path that ends in
  a slash or `.`), and a directory where a file is written.
- FileStore.MakeDirs: resolves the whole path as the kernel does. CPython's
  `os.makedirs` instead recurses over textual prefixes. The two differ in one
  case: a path ending in `/.` whose textual prefix does not exist but
  resolves through `..` to a regular file, such as `nope/../f/.` with `f` a
  file. There `makedirs` swallows the `FileExistsError` of its recursive
  call and returns at the `.`, so it succeeds. The model fails.
- FileStore.MakeDirs: a component holding a NUL character is made like any
  other. `os.mkdir` refuses it with ValueError, so folder creation and
  uploads into such a path fail in the code and succeed in the model.
- Handlers.CreateDirectory: inherits both cases above from
  FileStore.MakeDirs. So `create_folder` with `nope/../f/.` reports
  CREATE_FOLDER_ERROR in the model where the code reports success, and a
  folder path holding NUL succeeds in the model where the code reports
  CREATE_FOLDER_ERROR.
- Handlers.PathExists: a path holding a NUL character exists when its
  components resolve. `os.path.exists` returns False for it.
- Handlers.Download: for a path holding NUL, the model looks the path up
  where the code reports FILE_NOT_FOUND.
- ListingProps.ListTargetResolves: for a path holding NUL, the model looks
  the path up where the code reports PATH_NOT_FOUND.
- Handlers.SavePath: saves under a name holding NUL, where `open` raises
  ValueError and the upload reports UPLOAD_ERROR.
- `send_from_directory` streaming is reduced to returning the file's bytes.
  For a directory it raises, and the model reports ACCESS_ERROR.
- A JSON body that is not an object is not modelled. The body is JSON
  `null` (`None`) or a map; a `path` value that is not a string is `JOther`
  and gives CREATE_FOLDER_ERROR.
- A folder request without a JSON body is not modelled. There `get_json`
  fails inside the handler's `try`, and the handler reports
  CREATE_FOLDER_ERROR.
- Handlers.ListFiles: `os.listdir`'s order is left open (any enumeration).
  The contract fixes the entries, not their order.
- Text.Lower: lowers ASCII letters only, where Python's `str.lower` covers all
  of Unicode. On the names the handlers lower this makes no difference.
  Python's lowering maps only one non-ASCII character to a plain ASCII
  letter: the Kelvin sign, to `k`. None of the twelve extensions holds a
  `k`. So the same extensions pass the check, and an extension that passes
  is pure ASCII.
- Text.Strip: `strip()` without arguments uses the characters of
  `Text.IsSpace`, which follows Python's `str.isspace` for the code points
  listed there.
- UploadProps.UploadThenDownload: holds only for returned paths without `..`,
  because the download guard refuses those. It also assumes `secure_filename`
  never yields a slash.
- UploadSuccess.UploadSucceeds: gives a sufficient condition for success, not
  an exact one. It assumes no `..` component in the upload path, so that the
  save directory is the path's own components. It also assumes the storage
  root exists, which the start-up `makedirs` ensures. The exact condition is
  the one `Handlers.Place` and `Handlers.PlaceIn` state.
- RepeatProps.UploadTwice: assumes the two uploads get different timestamps,
  and the same assumptions as UploadProps.UploadThenDownload. Within one
  second, if the first upload was itself renamed, the second goes to the
  same renamed path and replaces it, as the code does.
