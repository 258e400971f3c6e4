/**
 * The S3 contents manager: a notebook server's document hierarchy (files,
 * notebooks, directories addressed by '/'-separated paths) laid over a flat,
 * prefix-addressed object store.  A document path maps to the store key
 * `s3Prefix + path`; a "directory" is nothing stored, only the question
 * whether some key starts with the directory's key.
 */
module S3NbManager {
  import opened Wrappers
  import opened ObjectStore
  import opened Paths

  /** The `type` field of a contents model. */
  datatype Kind = File | Notebook | Directory

  /** What a model's `content` field holds. */
  datatype Payload =
    | Raw(bytes: Bytes)       // a plain file: the stored bytes, verbatim
    | Parsed(source: Bytes)   // a notebook: the document the host parses from these bytes

  /**
   * A contents model, the dictionary handed to the host.  `kind` is None in a
   * base model, before the builder sets the type.  A directory built with
   * content carries its children in `contents`, a field of its own: its
   * `content` stays None.
   */
  datatype Model = Model(
    bucket: string,
    key: string,
    name: string,
    path: string,
    lastModified: Timestamp,
    created: Timestamp,
    content: Option<Payload>,
    format: Option<string>,
    mimetype: Option<string>,
    kind: Option<Kind>,
    contents: Option<seq<Model>>)

  /** The host's HTTP errors raised by `get`. */
  datatype HttpError =
    | NotFound(path: string)   // 404, "No such file or directory"
    | BadType(path: string)    // 400, reason "bad type"
  {
    function Status(): (code: int)
      ensures code == 404 <==> NotFound?
      ensures code == 400 <==> BadType?
    {
      if NotFound? then 404 else 400
    }
  }

  datatype Result<T> = Ok(value: T) | Err(error: HttpError)

  /** `get` treats a path as a directory when it ends in '/' or is the root "". */
  predicate IsDirPath(path: string): (b: bool)
    ensures b <==> |path| == 0 || path[|path| - 1] == '/'
  {
    EndsWith(path, "/") || path == ""
  }

  /** The request `get` answers with a notebook model, for a path that is not a directory. */
  predicate WantsNotebook(path: string, requested: Option<string>): (b: bool)
    ensures requested.Some? ==> (b <==> requested.value == "notebook")
    ensures requested == None ==> (b <==> EndsWith(path, ".ipynb"))
  {
    requested == Some("notebook") || (requested == None && EndsWith(path, ".ipynb"))
  }

  /** The path `dir/name` of a document directly inside a directory is a
    * directory path only for the empty name, and wants a notebook exactly
    * when the name ends in `.ipynb`. */
  lemma ChildPathType(dir: string, name: string)
    requires '/' !in name
    ensures IsDirPath(dir + "/" + name) <==> name == ""
    ensures WantsNotebook(dir + "/" + name, None) <==> EndsWith(name, ".ipynb")
  {
    var path := dir + "/" + name;
    EndsWithChild(dir, name, ".ipynb");
    if name != "" {
      assert path[|path| - 1] == name[|name| - 1];
    }
  }

  const InfoLabel := "Serving notebooks from s3. bucket name: "

  /**
   * The manager at one instant: the configured bucket name and key prefix,
   * and the contents of the bucket.  Every query the host makes is a
   * function of this value.
   */
  datatype Snapshot = Snapshot(s3Bucket: string, s3Prefix: string, objects: Bucket)
  {
    /** The store key of a document path; the path is recovered by dropping the prefix. */
    function Key(path: string): (key: string)
      ensures s3Prefix <= key
      ensures key[|s3Prefix|..] == path
    {
      s3Prefix + path
    }

    /** The keys listed under a path's key, in the order S3 lists them. */
    function Listing(path: string): (keys: seq<string>)
      ensures forall k :: k in keys <==> k in objects && Key(path) <= k
      ensures StrictlySorted(keys)
    {
      ListKeys(objects, Key(path))
    }

    // -------------------------------------------------------------------------
    // Existence

    /** The first object listed under the key must have exactly that key; this
      * holds exactly when the key is stored. */
    predicate FileExists(path: string): (b: bool)
      ensures b <==> Key(path) in objects
    {
      FirstListedIsExact(objects, Key(path));
      var objs := Listing(path);
      if |objs| > 0 then objs[0] == Key(path) else false
    }

    /** A key ending in '/' that some stored key starts with. */
    predicate DirExists(path: string): (b: bool)
      ensures b <==> EndsWith(Key(path), "/") && exists k :: k in objects && Key(path) <= k
    {
      var key := Key(path);
      ListedIffSomeKeyHasPrefix(objects, key);
      if EndsWith(key, "/") then |ListKeys(objects, key)| > 0 else false
    }

    /** What `exists` answers, in terms of the store alone: a path ending in
      * '/' exists when some stored key starts with its key, any other path
      * (the root "" included) when its key is stored. */
    predicate Exists(path: string): (b: bool)
      ensures !EndsWith(path, "/") ==> (b <==> Key(path) in objects)
      ensures EndsWith(path, "/") ==> (b <==> exists k :: k in objects && Key(path) <= k)
    {
      if EndsWith(path, "/") then
        EndsWithAppend(s3Prefix, path, "/");
        DirExists(path)
      else FileExists(path)
    }

    /** The root "" does not end in '/', so it exists only when an object is
      * stored under the bare prefix itself, whatever lies below it. */
    lemma RootExistsIffPrefixStored()
      ensures Exists("") <==> s3Prefix in objects
    {
      assert Key("") == s3Prefix;
    }

    /** Every stored key under the prefix names an existing document. */
    lemma StoredKeyExists(path: string)
      requires Key(path) in objects
      ensures Exists(path)
    {
      assert Key(path) <= Key(path);
    }

    // -------------------------------------------------------------------------
    // Models

    /** The fields `_base_model` sets, the timestamps taken from the first
      * object listed under the key. */
    predicate HasBaseFields(m: Model, path: string)
    {
      && |Listing(path)| > 0
      && m.lastModified == objects[Listing(path)[0]].lastModified
      && m.bucket == s3Bucket
      && m.key == Key(path)
      && m.path == path
      && m.name == BaseName(path)
      && m.created == m.lastModified
    }

    /** The common part of every model; None when nothing is listed under the
      * key (the source falls through and returns None). */
    function BaseModel(path: string): (r: Option<Model>)
      ensures r.Some? <==> |Listing(path)| > 0
      ensures r.Some? ==> HasBaseFields(r.value, path)
      ensures r.Some? ==> r.value.content == None && r.value.format == None && r.value.mimetype == None
      ensures r.Some? ==> r.value.kind == None && r.value.contents == None
    {
      var objs := Listing(path);
      if |objs| > 0 then
        var lastModified := objects[objs[0]].lastModified;
        Some(Model(s3Bucket, Key(path), BaseName(path), path, lastModified, lastModified,
                   None, None, None, None, None))
      else None
    }

    lemma ExistsGivesBaseModel(path: string)
      requires Exists(path)
      ensures BaseModel(path).Some?
    {
      if EndsWith(path, "/") {
        var k :| k in objects && Key(path) <= k;
        assert k in Listing(path);
      } else {
        assert Key(path) in Listing(path);
      }
    }

    /** The bytes stored under the path's key (the source's `_read_file`). */
    function ReadFile(path: string): (body: Bytes)
      requires Key(path) in objects
      ensures body == objects[Key(path)].body
    {
      objects[Key(path)].body
    }

    /** The snapshot after `_write_file(path, content)`, stamped `now`: reading
      * the path back yields `content`, and every other document reads as before. */
    function Write(path: string, content: Bytes, now: Timestamp): (s: Snapshot)
      ensures s.s3Bucket == s3Bucket && s.s3Prefix == s3Prefix
      ensures s.objects.Keys == objects.Keys + {Key(path)}
      ensures s.Key(path) in s.objects && s.ReadFile(path) == content
      ensures s.objects[Key(path)].lastModified == now
      ensures forall p :: p != path && Key(p) in objects ==> s.ReadFile(p) == ReadFile(p)
    {
      Snapshot(s3Bucket, s3Prefix, objects[Key(path) := Object(content, now)])
    }

    /** After a write to a file or notebook path, `get` with no type asked
      * returns the written bytes: verbatim for a file, as the parsed notebook
      * in format `json` for a path ending in `.ipynb`. */
    lemma GetAfterWrite(path: string, content: Bytes, now: Timestamp)
      requires !IsDirPath(path)
      ensures var r := Write(path, content, now).Get(path, true, None, None);
        && r.Ok?
        && r.value.kind == Some(if EndsWith(path, ".ipynb") then Notebook else File)
        && r.value.content == Some(if EndsWith(path, ".ipynb") then Parsed(content) else Raw(content))
        && r.value.format == (if EndsWith(path, ".ipynb") then Some("json") else None)
    {
      var s := Write(path, content, now);
      s.StoredKeyIsAccepted(path);
      s.GetContent(path, None, None);
    }

    function FileModel(path: string, content: bool): (m: Model)
      requires |Listing(path)| > 0
      requires content ==> Key(path) in objects
      ensures HasBaseFields(m, path) && m.kind == Some(File)
      ensures m.content == (if content then Some(Raw(ReadFile(path))) else None)
      ensures m.format == None && m.mimetype == None && m.contents == None
    {
      var base := BaseModel(path).value.(kind := Some(File));
      if content then base.(content := Some(Raw(ReadFile(path)))) else base
    }

    function NotebookModel(path: string, content: bool): (m: Model)
      requires |Listing(path)| > 0
      requires content ==> Key(path) in objects
      ensures HasBaseFields(m, path) && m.kind == Some(Notebook)
      ensures m.content == (if content then Some(Parsed(ReadFile(path))) else None)
      ensures m.format == (if content then Some("json") else None)
      ensures m.mimetype == None && m.contents == None
    {
      var base := BaseModel(path).value.(kind := Some(Notebook));
      if content then base.(content := Some(Parsed(ReadFile(path))), format := Some("json"))
      else base
    }

    /** A child in a directory listing: the content-less model of the document
      * stored under `key`, of the type `get` gives its path when no type is
      * asked, with `content`, `contents`, `format` and `mimetype` all unset. */
    predicate IsShallowChild(m: Model, key: string)
    {
      && HasBaseFields(m, m.path)
      && m.key == key
      && m.kind.Some?
      && Classify(m.path, None) == Ok(m.kind.value)
      && m.content == None
      && m.contents == None
      && m.format == None
      && m.mimetype == None
    }

    /** A stored key that starts with the configured prefix: the key of some document. */
    predicate StoredUnderPrefix(key: string)
    {
      key in objects && s3Prefix <= key
    }

    /** Every key listed under a path is stored and starts with the prefix. */
    lemma ListingIsBelowPrefix(path: string)
      ensures forall i :: 0 <= i < |Listing(path)| ==>
                StoredUnderPrefix(Listing(path)[i])
    {
      var l := Listing(path);
      forall i | 0 <= i < |l|
        ensures StoredUnderPrefix(l[i])
      {
        assert l[i] in l;
        assert Key(path) <= l[i];
        assert l[i][..|s3Prefix|] == Key(path)[..|s3Prefix|];
      }
    }

    function DirModel(path: string, content: bool): (m: Model)
      requires |Listing(path)| > 0
      ensures HasBaseFields(m, path) && m.kind == Some(Directory)
      ensures m.content == None && m.mimetype == None
      ensures m.format == (if content then Some("json") else None)
      ensures !content ==> m.contents == None
      ensures content ==> m.contents.Some? && |m.contents.value| == |Listing(path)|
      ensures content ==> forall i :: 0 <= i < |Listing(path)| ==>
                            IsShallowChild(m.contents.value[i], Listing(path)[i])
      decreases if content then 1 else 0, 1, 0
    {
      var base := BaseModel(path).value.(kind := Some(Directory));
      if content then
        var keys := Listing(path);
        ListingIsBelowPrefix(path);
        base.(contents := Some(ChildModels(keys)), format := Some("json"))
      else base
    }

    /** One shallow model per listed key, in listing order. */
    function ChildModels(keys: seq<string>): (ms: seq<Model>)
      requires forall i :: 0 <= i < |keys| ==> StoredUnderPrefix(keys[i])
      ensures |ms| == |keys|
      ensures forall i :: 0 <= i < |keys| ==> IsShallowChild(ms[i], keys[i])
      decreases 1, 0, |keys|
    {
      if keys == [] then []
      else
        var ms := [ChildModel(keys[0])] + ChildModels(keys[1..]);
        ShallowChildrenCons(ms, keys);
        ms
    }

    /** Shallow children of the first key and of the rest are shallow children of all keys. */
    lemma ShallowChildrenCons(ms: seq<Model>, keys: seq<string>)
      requires |ms| == |keys| > 0
      requires IsShallowChild(ms[0], keys[0])
      requires forall i :: 0 <= i < |keys| - 1 ==> IsShallowChild(ms[1..][i], keys[1..][i])
      ensures forall i :: 0 <= i < |keys| ==> IsShallowChild(ms[i], keys[i])
    {
      forall i | 0 < i < |keys|
        ensures IsShallowChild(ms[i], keys[i])
      {
        assert ms[1..][i - 1] == ms[i] && keys[1..][i - 1] == keys[i];
      }
    }

    /** The model of a listed object, built by `get` without content on the
      * key's path relative to the prefix.  (The source passes the key itself,
      * prefix included, which finds the object only when the prefix is empty.) */
    function ChildModel(key: string): (m: Model)
      requires StoredUnderPrefix(key)
      ensures IsShallowChild(m, key)
      decreases 1, 0, 0
    {
      var child := key[|s3Prefix|..];
      assert Key(child) == key;
      StoredKeyIsAccepted(child);
      Get(child, false, None, None).value
    }

    /**
     * The decision `get` takes before building anything: 404 for a path that
     * does not exist, whatever is requested; 400 when the requested type
     * contradicts what the path is; otherwise the kind of model to build.
     */
    function Classify(path: string, requested: Option<string>): (r: Result<Kind>)
      ensures !Exists(path) <==> r == Err(NotFound(path))
      ensures Exists(path) && IsDirPath(path) ==>
                (r.Err? <==> requested != None && requested != Some("directory"))
      ensures Exists(path) && !IsDirPath(path) ==> (r.Err? <==> requested == Some("directory"))
      ensures Exists(path) && r.Err? ==> r.error == BadType(path)
      ensures r.Ok? ==> (r.value == Directory <==> IsDirPath(path))
      ensures r.Ok? ==> (r.value == Notebook <==> !IsDirPath(path) && WantsNotebook(path, requested))
      ensures r.Ok? ==> (r.value == File <==> !IsDirPath(path) && !WantsNotebook(path, requested))
    {
      if !Exists(path) then Err(NotFound(path))
      else if IsDirPath(path) then
        if requested != None && requested != Some("directory") then Err(BadType(path))
        else Ok(Directory)
      else if WantsNotebook(path, requested) then Ok(Notebook)
      else if requested == Some("directory") then Err(BadType(path))
      else Ok(File)
    }

    /** A path `get` accepts has a base model, and a file or notebook path names a stored object. */
    lemma ClassifiedIsListed(path: string, requested: Option<string>)
      requires Classify(path, requested).Ok?
      ensures |Listing(path)| > 0
      ensures !IsDirPath(path) ==> Key(path) in objects
    {
      ExistsGivesBaseModel(path);
    }

    /** A document stored under the prefix is accepted by `get` when no type is requested. */
    lemma StoredKeyIsAccepted(path: string)
      requires Key(path) in objects
      ensures Classify(path, None).Ok?
    {
      StoredKeyExists(path);
    }

    /**
     * The host's `get`: the error `Classify` decides on, or the model of the
     * kind it decides on.  `format` is accepted and not used.
     */
    function Get(path: string, content: bool, requested: Option<string>, format: Option<string>): (r: Result<Model>)
      ensures r.Err? <==> Classify(path, requested).Err?
      ensures r.Err? ==> r.error == Classify(path, requested).error
      ensures r.Ok? ==> HasBaseFields(r.value, path)
      ensures r.Ok? ==> r.value.kind == Some(Classify(path, requested).value)
      ensures r.Ok? && !content ==> r.value.content == None && r.value.contents == None
      ensures r.Ok? ==> r.value.mimetype == None
      ensures r.Ok? ==> r.value.format == (if content && r.value.kind != Some(File) then Some("json") else None)
      decreases if content then 1 else 0, 2, 0
    {
      match Classify(path, requested)
      case Err(e) => Err(e)
      case Ok(kind) =>
        ClassifiedIsListed(path, requested);
        match kind
        case Directory => Ok(DirModel(path, content))
        case Notebook => Ok(NotebookModel(path, content))
        case File => Ok(FileModel(path, content))
    }

    /** What `get` returns as content: a file's stored bytes, the notebook
      * parsed from them, or one shallow child per key listed under a directory. */
    lemma GetContent(path: string, requested: Option<string>, format: Option<string>)
      ensures var r := Get(path, true, requested, format);
        && (r.Ok? && !IsDirPath(path) ==>
              Key(path) in objects &&
              r.value.content == (if WantsNotebook(path, requested)
                                  then Some(Parsed(objects[Key(path)].body))
                                  else Some(Raw(objects[Key(path)].body))))
        && (r.Ok? && IsDirPath(path) ==>
              r.value.content == None && r.value.contents.Some? &&
              |r.value.contents.value| == |Listing(path)| &&
              forall i :: 0 <= i < |Listing(path)| ==>
                IsShallowChild(r.value.contents.value[i], Listing(path)[i]))
    {
      if Get(path, true, requested, format).Ok? {
        ClassifiedIsListed(path, requested);
      }
    }

    // -------------------------------------------------------------------------
    // A directory listing

    /** An existing directory path asked for without a type gets its directory model. */
    lemma GetOfDirectory(path: string, content: bool)
      requires Exists(path) && IsDirPath(path)
      ensures |Listing(path)| > 0
      ensures Get(path, content, None, None) == Ok(DirModel(path, content))
    {
      ExistsGivesBaseModel(path);
    }

    /** When the only keys under `dir/` are those of two documents directly
      * inside it, they are listed in their names' order. */
    lemma ListingOfDirWithTwo(dir: string, x: string, y: string)
      requires LexLe(x, y) && x != y
      requires KeysWithPrefix(objects, Key(dir + "/")) == {Key(dir + "/" + x), Key(dir + "/" + y)}
      ensures Listing(dir + "/") == [Key(dir + "/" + x), Key(dir + "/" + y)]
      ensures Exists(dir + "/")
    {
      var d, kx, ky := Key(dir + "/"), Key(dir + "/" + x), Key(dir + "/" + y);
      assert kx == d + x && ky == d + y;
      assert kx != ky by { assert kx[|d|..] == x && ky[|d|..] == y; }
      LexLeCommonPrefix(d, x, y);
      ListingOfTwo(objects, d, kx, ky);
      assert EndsWith(dir + "/", "/");
      assert kx in KeysWithPrefix(objects, d);
    }

    /** A shallow child stored under `dir/name` is named `name`, has no
      * content, and is typed by `name`: a directory placeholder when `name` is
      * empty, a notebook when it ends in `.ipynb`, a file otherwise. */
    lemma ShallowChildNamed(m: Model, dir: string, name: string)
      requires '/' !in name
      requires IsShallowChild(m, Key(dir + "/" + name))
      ensures m.name == name && m.content == None
      ensures m.kind == Some(if name == "" then Directory
                             else if EndsWith(name, ".ipynb") then Notebook
                             else File)
    {
      var path := dir + "/" + name;
      assert m.path == path by {
        assert Key(m.path)[|s3Prefix|..] == m.path;
        assert Key(path)[|s3Prefix|..] == path;
      }
      BaseNameOfChild(dir, name);
      ChildPathType(dir, name);
    }

    /** With only two documents under it, `dir/x` and `dir/y`, the directory
      * `dir/` lists exactly two shallow children, named `x` and `y`, in that
      * order, each typed by its name. */
    lemma DirListingOfTwo(dir: string, x: string, y: string)
      requires '/' !in x && '/' !in y && LexLe(x, y) && x != y
      requires KeysWithPrefix(objects, Key(dir + "/")) == {Key(dir + "/" + x), Key(dir + "/" + y)}
      ensures var r := Get(dir + "/", true, None, None);
        && r.Ok? && r.value.kind == Some(Directory) && r.value.contents.Some?
        && |r.value.contents.value| == 2
        && r.value.contents.value[0].name == x && r.value.contents.value[0].content == None
        && r.value.contents.value[1].name == y && r.value.contents.value[1].content == None
        && r.value.contents.value[0].kind ==
             Some(if x == "" then Directory else if EndsWith(x, ".ipynb") then Notebook else File)
        && r.value.contents.value[1].kind ==
             Some(if y == "" then Directory else if EndsWith(y, ".ipynb") then Notebook else File)
    {
      ListingOfDirWithTwo(dir, x, y);
      GetOfDirectory(dir + "/", true);
      var cs := DirModel(dir + "/", true).contents.value;
      ShallowChildNamed(cs[0], dir, x);
      ShallowChildNamed(cs[1], dir, y);
    }
  }

  /**
   * The manager object: configured once, then serving requests against a
   * bucket whose contents change under `_write_file`.  Queries are answered
   * by the current snapshot, `View()`.
   */
  class S3ContentsManager {
    /** The bucket name and the key prefix, fixed by configuration. */
    const s3Bucket: string
    const s3Prefix: string
    /** The contents of the bucket: the store the manager reads and writes. */
    var objects: Bucket

    constructor (bucket: string, prefix: string, initial: Bucket)
      ensures s3Bucket == bucket && s3Prefix == prefix && objects == initial
    {
      s3Bucket := bucket;
      s3Prefix := prefix;
      objects := initial;
    }

    function View(): Snapshot
      reads this
    {
      Snapshot(s3Bucket, s3Prefix, objects)
    }

    /** The store has no hidden files. */
    function IsHidden(path: string): (hidden: bool)
      ensures !hidden
    {
      false
    }

    /** Store `content` under the path's key, stamped `now`; a later `get`
      * of a file or notebook path returns exactly these bytes. */
    method WriteFile(path: string, content: Bytes, now: Timestamp)
      modifies this
      ensures objects == old(objects)[View().Key(path) := Object(content, now)]
      ensures View() == old(View()).Write(path, content, now)
      ensures !IsDirPath(path) && !EndsWith(path, ".ipynb") ==>
                var r := View().Get(path, true, None, None);
                r.Ok? && r.value.kind == Some(File) && r.value.content == Some(Raw(content))
      ensures !IsDirPath(path) && EndsWith(path, ".ipynb") ==>
                var r := View().Get(path, true, None, None);
                r.Ok? && r.value.kind == Some(Notebook) && r.value.content == Some(Parsed(content))
                && r.value.format == Some("json")
    {
      var before := View();
      objects := objects[View().Key(path) := Object(content, now)];
      if !IsDirPath(path) {
        before.GetAfterWrite(path, content, now);
      }
    }

    /** As written, `delete` only builds an object handle: nothing is removed,
      * so whatever existed still exists. */
    method Delete(path: string)
      ensures objects == old(objects)
      ensures View().Exists(path) == old(View().Exists(path))
    {
    }

    /** As written, `copy` does nothing. */
    method Copy(fromPath: string, toPath: Option<string>)
      ensures objects == old(objects)
    {
    }

    /** The description names the bucket after a fixed label. */
    function InfoString(): (s: string)
      ensures |s| == |InfoLabel| + |s3Bucket|
      ensures s[..|InfoLabel|] == InfoLabel
      ensures s[|InfoLabel|..] == s3Bucket
    {
      InfoLabel + s3Bucket
    }
  }
}
