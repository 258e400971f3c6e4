# S3 contents manager, modelled in Dafny

`S3ContentsManager` is a storage backend for a notebook server. The server sees a
hierarchy of documents: files, notebooks and directories, addressed by
`/`-separated paths. The manager keeps them in a flat S3 bucket. A document path
maps to the store key `s3_prefix + path`. A "directory" is never stored. It is
only the question whether some stored key starts with the directory's key.

The model has four modules:

- `ObjectStore` (`object_store.dfy`) is the bucket as a value: a finite map from
  key strings to objects, each with a body and a last-modified time. Listing with
  a prefix (`ListKeys`) gives the stored keys that start with the prefix, each
  once, in lexicographic order. That is the order S3 lists in. The order is
  defined on `char` code points, which agrees with S3's UTF-8 byte order. The
  module proves that the order is a total order and that a key sorts before
  every longer key it is a prefix of.
- `Paths` (`paths.dfy`) holds `endswith` and the name extraction
  `path.rsplit('/', 1)[-1]`.
- `S3NbManager` (`s3nbmanager.dfy`) holds the contents model and the manager:
  - `Snapshot` is the manager at one instant: the bucket name, the key prefix
    and the bucket contents. Every query the host makes is a pure function of a
    snapshot: the existence predicates, the model builders, `get` and its
    dispatch decision `Classify`.
  - `S3ContentsManager` is the object itself. Its configuration is fixed, and its
    `objects` field is the bucket contents, which `WriteFile` replaces. `View()`
    is its current snapshot. `Delete` and `Copy` change nothing, as in the source.
- `Wrappers` (`wrappers.dfy`) holds `Option`, standing for Python's `None`.

A model is the `Model` datatype. Its `kind` is the `type` field, and it is `None`
in a base model before a builder sets it. The host's HTTP errors are
`HttpError.NotFound` (404) and `HttpError.BadType` (400, reason "bad type").

Behaviour the model makes explicit:

- `exists("")` goes through `file_exists`, because `""` does not end in `/`. So
  the root is found only when an object is stored under the bare prefix itself
  (`RootExistsIffPrefixStored`). Until then `get("")` answers 404, however many
  documents lie below the root.
- A directory listing is deep, not shallow. Every key under the directory's key
  gets one child model, including keys in subdirectories and a placeholder
  object stored under the directory key itself.
- A directory model built with content puts its children in a `contents`
  field. Its `content` field stays `None` (s3nbmanager.py:119).

The model follows the code as written. `delete` removes nothing, `copy` does
nothing, and `dir_exists` tests the key (prefix included) for a trailing `/`,
not the path.

## Model

| member | source | states |
|---|---|---|
| `ObjectStore.ListKeys` | s3nbmanager.py:43 | Listing under a prefix yields exactly the stored keys starting with it, each once, in strictly increasing lexicographic order. |
| `ObjectStore.SortedKeys` | s3nbmanager.py:32 | Listing order: the result holds exactly the keys of the set, each once, strictly sorted. |
| `ObjectStore.FirstListedIsExact` | s3nbmanager.py:31-36 | The first key listed under `key` is `key` itself exactly when `key` is stored, because a stored key sorts before every longer key it prefixes. |
| `ObjectStore.ListedIffSomeKeyHasPrefix` | s3nbmanager.py:43-45 | A prefix listing is non-empty exactly when some stored key starts with the prefix. |
| `ObjectStore.PrefixIsLexLe` | s3nbmanager.py:32-34 | A key sorts no later than every key it is a prefix of, so an exact match is listed first. |
| `ObjectStore.ListingOfTwo` | s3nbmanager.py:118 | When exactly two stored keys start with a prefix, listing it yields them in lexicographic order, whatever else is stored. |
| `Paths.BaseName` | s3nbmanager.py:67 | The name is a `/`-free suffix of the path that is either the whole path or starts right after a `/`, i.e. what follows the last `/`. |
| `Paths.BaseNameUnique` | s3nbmanager.py:67 | Those three conditions determine the name: any `/`-free suffix that is the whole path or follows a `/` is the base name. |
| `Paths.BaseNameOfChild` | s3nbmanager.py:67 | The name of `dir/name` is `name` when `name` holds no `/`. |
| `Paths.EndsWithChild` | s3nbmanager.py:137 | A `/`-free suffix such as `.ipynb` ends `dir/name` exactly when it ends `name`. |
| `S3NbManager.IsDirPath` | s3nbmanager.py:130 | `get` takes a path as a directory exactly when it is empty or its last character is `/`. |
| `S3NbManager.WantsNotebook` | s3nbmanager.py:137 | A non-directory path gets a notebook model exactly when `notebook` is asked, or when no type is asked and the path ends in `.ipynb`. |
| `S3NbManager.ChildPathType` | s3nbmanager.py:130-137 | For a `/`-free `name`, `dir/name` is a directory path only when `name` is empty, and wants a notebook exactly when `name` ends in `.ipynb`. |
| `S3NbManager.HttpError.Status` | s3nbmanager.py:127-142 | Not-found errors carry status 404 and bad-type errors 400, and no other status occurs. |
| `S3NbManager.Snapshot.Key` | s3nbmanager.py:31 | The key starts with the prefix, and dropping the prefix recovers the path, so distinct paths get distinct keys. |
| `S3NbManager.Snapshot.Listing` | s3nbmanager.py:117-118 | The objects listed under a path's key are exactly the stored keys starting with it, in strictly increasing lexicographic order. |
| `S3NbManager.Snapshot.FileExists` | s3nbmanager.py:29-36 | `file_exists(p)` holds exactly when `prefix + p` is a stored key. A key that only prefixes longer stored keys does not count. |
| `S3NbManager.Snapshot.DirExists` | s3nbmanager.py:38-47 | `dir_exists(p)` holds exactly when the key `prefix + p` ends in `/` and some stored key starts with it. The test is on the key, not the path. |
| `S3NbManager.Snapshot.Exists` | s3nbmanager.py:49-54 | For a path ending in `/`, `exists` holds exactly when some stored key starts with its key. For any other path, including `""`, it holds exactly when its key is stored. |
| `S3NbManager.Snapshot.RootExistsIffPrefixStored` | s3nbmanager.py:49-54 | The root `""` exists exactly when an object is stored under the bare prefix. |
| `S3NbManager.Snapshot.StoredKeyExists` | s3nbmanager.py:49-54 | Every stored key, read back as a path relative to the prefix, exists. |
| `S3NbManager.Snapshot.BaseModel` | s3nbmanager.py:56-74 | A model exists exactly when something is listed under the key; otherwise the result is None, the fall-through. It carries the bucket, the key `prefix + path`, the path, and the name after the last `/`. `last_modified` comes from the first listed object, and `created` equals it. `content`, `format`, `mimetype` and the type are unset. |
| `S3NbManager.Snapshot.ExistsGivesBaseModel` | s3nbmanager.py:56-60 | Whenever `exists(p)` holds, the base model is present rather than the implicit None. |
| `S3NbManager.Snapshot.ReadFile` | s3nbmanager.py:80-83 | Reading a path yields the body stored under its key; `Write` below proves that it reads back what was written. |
| `S3NbManager.Snapshot.Write` | s3nbmanager.py:76-83 | After writing, the path's key is stored and reading the path yields the written bytes, stamped with the write time. Every other document reads as before, the stored keys grow by that one key only, and bucket and prefix are unchanged. |
| `S3NbManager.Snapshot.GetAfterWrite` | s3nbmanager.py:125-144 | After a write to a path that is not a directory path, `get` with no type returns the written bytes: verbatim as a file, or as the parsed notebook with format `json` for a `.ipynb` path. |
| `S3NbManager.Snapshot.FileModel` | s3nbmanager.py:85-93 | A file model has the base fields and type `file`. With content it holds the stored bytes verbatim; `format` and `mimetype` stay unset. |
| `S3NbManager.Snapshot.NotebookModel` | s3nbmanager.py:95-110 | A notebook model has the base fields and type `notebook`. With content it holds the notebook parsed from the stored bytes, with format `json`. Without content both are unset. |
| `S3NbManager.Snapshot.ListingIsBelowPrefix` | s3nbmanager.py:116-118 | Every key listed under a directory's key is stored and starts with the configured prefix. |
| `S3NbManager.Snapshot.DirModel` | s3nbmanager.py:112-123 | A directory model has the base fields and type `directory`. With content it has format `json` and one child per listed key, in listing order. Each child carries that key, has no content, format or mimetype, and has the type `get` gives its path when no type is asked. |
| `S3NbManager.Snapshot.ChildModels` | s3nbmanager.py:119-120 | One child model per listed key, same length and same order, each carrying its key, typed as `get` types its path, with no content, format or mimetype. |
| `S3NbManager.Snapshot.ChildModel` | s3nbmanager.py:120 | `get(..., content=False)` on a listed object's path succeeds. Its model carries the object's key and base fields, has no content, format or mimetype, and has the type `get`'s dispatch gives that path with no type asked: directory, notebook or file. |
| `S3NbManager.Snapshot.Classify` | s3nbmanager.py:127-142 | A nonexistent path gives 404 whatever type is asked. An existing directory path (ends in `/` or is `""`) gives 400 exactly when a type other than None or `directory` is asked. An existing other path gives 400 exactly when `directory` is asked. A notebook is chosen exactly for a non-directory path asked as `notebook`, or asked for no type and ending in `.ipynb`. A file is chosen otherwise. |
| `S3NbManager.Snapshot.ClassifiedIsListed` | s3nbmanager.py:127-143 | A path `get` accepts has a base model, and a non-directory accepted path is a stored key. |
| `S3NbManager.Snapshot.StoredKeyIsAccepted` | s3nbmanager.py:120-137 | `get` with no type never rejects a stored key's path. |
| `S3NbManager.Snapshot.Get` | s3nbmanager.py:125-144 | `get` fails exactly when the dispatch rejects, with the same 404 or 400. Otherwise its model has the base fields for the path (timestamps from the first listed object) and the chosen type, and `mimetype` is unset. `format` is `json` exactly for a notebook or directory built with content. Without content, neither `content` nor `contents` is set. |
| `S3NbManager.Snapshot.GetContent` | s3nbmanager.py:125-144 | With content, `get` of a file returns the stored bytes, and of a notebook the notebook parsed from them. A directory returns one child per listed key, typed as `get` types its path, with no content, format or mimetype. |
| `S3NbManager.Snapshot.GetOfDirectory` | s3nbmanager.py:130-135 | An existing directory path asked for without a type gets its directory model. |
| `S3NbManager.Snapshot.ListingOfDirWithTwo` | s3nbmanager.py:116-118 | When the only keys under `dir/` are those of `dir/x` and `dir/y`, `dir/` exists and lists their keys in name order, whatever else is stored. |
| `S3NbManager.Snapshot.ShallowChildNamed` | s3nbmanager.py:120-137 | A shallow child stored under `dir/name` is named `name` and has no content. Its type is directory for an empty name, notebook for a name ending in `.ipynb`, and file otherwise. |
| `S3NbManager.Snapshot.DirListingOfTwo` | s3nbmanager.py:112-123 | When the only documents under `dir/` are `dir/x` and `dir/y`, `get("dir/", content=True)` returns a directory with exactly two children. They are named `x` and `y`, in that order, have no content, and are typed by their names. |
| `S3NbManager.S3ContentsManager.constructor` | s3nbmanager.py:14-23 | The manager starts with the configured bucket name and prefix over the given bucket contents. |
| `S3NbManager.S3ContentsManager.IsHidden` | s3nbmanager.py:25-27 | No path is hidden, the empty path included. |
| `S3NbManager.S3ContentsManager.WriteFile` | s3nbmanager.py:76-78 | Writing puts the bytes under the path's key and changes no other key: the new state is `Write` of the old one. For a path that does not end in `/` and is not `""`, a later `get` with no type returns the bytes: verbatim as a file, or as the parsed notebook with format `json` for a `.ipynb` path. A directory path gets its directory model instead. |
| `S3NbManager.S3ContentsManager.Delete` | s3nbmanager.py:146-148 | As written, `delete` leaves the bucket unchanged, so whatever existed still exists. |
| `S3NbManager.S3ContentsManager.Copy` | s3nbmanager.py:150-151 | As written, `copy` leaves the bucket unchanged. |
| `S3NbManager.S3ContentsManager.InfoString` | s3nbmanager.py:153-155 | The description is the fixed label followed by the bucket name. |

## Left out

- The boto3 client and resource objects (s3nbmanager.py:6, 21-22) are not modelled. The bucket is the `objects` map, and its listing is `ListKeys`. Store failures (network, permissions, throttling) are not modelled.
- `FileModel`, `NotebookModel` and `DirModel` require something to be listed under the path's key. The source would raise `TypeError` when `_base_model` returns None, but every call to them passes `get`'s existence check first (`ExistsGivesBaseModel`), so no reachable behaviour is lost.
- `ReadFile` requires the key to be stored, because the store raises `NoSuchKey` otherwise. `get` reads only keys it has found to be stored.
- `limit(1)` (s3nbmanager.py:32, 59) is modelled as taking the first element of the full sorted listing.
- Parsing, trust-marking and validating notebooks (`nbformat.read`, `mark_trusted_cells`, `validate_notebook_model`, s3nbmanager.py:105-109) are host library code. A notebook's content is the opaque `Parsed(bytes)`, and parse or validation failures are not modelled.
- Timestamps are opaque natural numbers taken from the store entry. The time a write is stamped with is a parameter of `WriteFile`, since the clock is outside the model.
- HTTP error messages and reason strings, the `print` calls (s3nbmanager.py:44, 122, 136) and the unused `self.mapping` (s3nbmanager.py:23) are left out.
- Four source defects would crash at run time; the model follows the evident intent instead:
  - `_read_file` names `self.s3_buckt` (s3nbmanager.py:82); `ReadFile` reads the configured bucket.
  - `get` passes `format=` to `_file_model`, which has no such parameter (s3nbmanager.py:143). `Get` accepts `format` and ignores it.
  - `nbformat` is unbound, because only `IPython.nbformat` is imported (s3nbmanager.py:9, 105). The notebook content is modelled as parsed.
  - `_dir_model` calls `get(obj.key)` with the full key, prefix included (s3nbmanager.py:120). `ChildModel` passes the key with the prefix removed, which is the document's path.
- Concurrent access to the bucket is not modelled; the source has none of its own.
