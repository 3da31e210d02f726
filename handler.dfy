/** `DataHandler`: a format-aware load/save codec rooted at a folder of the
    filesystem. `LoadFrom` and `SaveTo` give its behaviour as functions of the
    filesystem's state; the class performs the same steps on the shared
    `FileSystem` object. */
module Handler {
  import opened Paths
  import opened Values
  import opened Files

  /** What `save` leaves behind: the new filesystem and whether it raised. */
  datatype Saved = Saved(fs: FsState, outcome: Outcome)

  /** Reading the text at an existing path fails when the path is a directory. */
  function ReadText(st: FsState, full: string): Result<string, Error> {
    if full in st.files then Ok(st.files[full]) else Err(NotAFile(full))
  }

  /** `load(relative_path, initial_value)`, with `root` the handler's root:
      the existence check comes first, the extension second. */
  function LoadFrom(st: FsState, root: string, p: string, initial: Value, lib: Foreign): (r: Result<Value, Error>)
    ensures !st.Exists(Join(root, p)) ==> (r.Ok? <==> !initial.IsNone())
    ensures st.Exists(Join(root, p)) && r.Ok? ==>
      Join(root, p) in st.files && (r.value.Frame? <==> ExtensionKey(p) == ".csv")
  {
    var full := Join(root, p);
    if !st.Exists(full) then
      if !initial.IsNone() then Ok(initial) else Err(FileNotFound(p))
    else
      var ext := ExtensionKey(p);
      if ext != ".csv" && ext != ".json" then Err(UnsupportedExtension(ext))
      else
        match ReadText(st, full)
        case Err(e) => Err(e)
        case Ok(text) => Decode(ext, text, lib)
  }

  /** Parsing the text of a `.csv` file (`pd.read_csv`) or, for any other
      extension `load` lets through, a `.json` file (`json.loads`). */
  function Decode(ext: string, text: string, lib: Foreign): (r: Result<Value, Error>)
    ensures r.Err? ==> r.error.CsvFailed? || r.error == JsonFailed
    ensures r.Ok? ==> (r.value.Frame? <==> ext == ".csv")
  {
    if ext == ".csv" then
      match lib.readCsv(text)
      case Ok(t) => Ok(Frame(t))
      case Err(e) => Err(CsvFailed(e))
    else
      match lib.loads(text)
      case Some(j) => Ok(Data(j))
      case None => Err(JsonFailed)
  }

  /** The content/extension pairs `save` knows how to write. */
  predicate Writable(content: Value, ext: string)
    ensures Writable(content, ext) ==> ext == ".csv" || ext == ".json"
    ensures Writable(content, ext) ==> (content.Frame? <==> ext == ".csv")
  {
    || (content.Frame? && ext == ".csv")
    || (content.Data? && (content.json.JDict? || content.json.JList?) && ext == ".json")
  }

  /** The text `save` writes for a writable content. */
  function Encode(content: Value, lib: Foreign): string {
    match content
    case Frame(t) => lib.toCsv(t)
    case Data(j) => lib.dumps(j)
  }

  /** The filesystem after `save` has made sure the parent directory exists. */
  function WithParent(st: FsState, full: string): (r: FsState)
    ensures r.files == st.files
    ensures r.Exists(Dirname(full))
    ensures st.dirs <= r.dirs
  {
    var parent := Dirname(full);
    if st.Exists(parent) then st else st.MakeDirs(parent)
  }

  /** `save(relative_path, content)`, with `root` the handler's root: the
      parent directory first, then the write or the `ValueError`. */
  function SaveTo(st: FsState, root: string, p: string, content: Value, lib: Foreign): (r: Saved)
    ensures r.fs.Exists(Dirname(Join(root, p)))
    ensures st.dirs <= r.fs.dirs
    ensures r.outcome.Failed? ==> r.fs.files == st.files
    ensures r.outcome.Done? ==> Join(root, p) in r.fs.files
  {
    var full := Join(root, p);
    var st1 := WithParent(st, full);
    var ext := ExtensionKey(p);
    if Writable(content, ext) then Saved(st1.WriteText(full, Encode(content, lib)), Done)
    else Saved(st1, Failed(UnsupportedContent(ext)))
  }

  /** Reading back: a write is read back as written, and leaves what every
      other path reads unchanged; `mkdirs` changes no read. */
  lemma ReadAfterWrite(st: FsState, p: string, text: string, q: string, d: string)
    ensures ReadText(st.WriteText(p, text), p) == Ok(text)
    ensures q != p ==> ReadText(st.WriteText(p, text), q) == ReadText(st, q)
    ensures ReadText(st.MakeDirs(d), q) == ReadText(st, q)
  {
  }

  // Properties of load

  /** A missing file yields a non-`None` default as it is, before the
      extension is looked at. */
  lemma LoadMissingReturnsDefault(st: FsState, root: string, p: string, initial: Value, lib: Foreign)
    requires !st.Exists(Join(root, p)) && !initial.IsNone()
    ensures LoadFrom(st, root, p, initial, lib) == Ok(initial)
  {
  }

  /** A missing file without a default raises `FileNotFoundError`. */
  lemma LoadMissingWithoutDefaultFails(st: FsState, root: string, p: string, lib: Foreign)
    requires !st.Exists(Join(root, p))
    ensures LoadFrom(st, root, p, Data(JNull), lib) == Err(FileNotFound(p))
  {
  }

  /** `load` fails with `FileNotFoundError` exactly when the file is missing
      and no default was given; it fails with `ValueError` exactly when the
      file exists and its extension is neither `.csv` nor `.json`. */
  lemma LoadErrors(st: FsState, root: string, p: string, initial: Value, lib: Foreign)
    ensures LoadFrom(st, root, p, initial, lib) == Err(FileNotFound(p))
        <==> !st.Exists(Join(root, p)) && initial.IsNone()
    ensures LoadFrom(st, root, p, initial, lib).Err? && LoadFrom(st, root, p, initial, lib).error.UnsupportedExtension?
        <==> st.Exists(Join(root, p)) && ExtensionKey(p) != ".csv" && ExtensionKey(p) != ".json"
  {
    var full := Join(root, p);
    var r := LoadFrom(st, root, p, initial, lib);
    var ext := ExtensionKey(p);
    var unsupported := ext != ".csv" && ext != ".json";
    if !st.Exists(full) {
      assert r == if initial.IsNone() then Err(FileNotFound(p)) else Ok(initial);
    } else if unsupported {
      assert r == Err(UnsupportedExtension(ext));
    } else if full in st.files {
      assert r == Decode(ext, st.files[full], lib);
    } else {
      assert r == Err(NotAFile(full));
    }
    ClassifyLoadError(r, st.Exists(full), unsupported, p, ext, initial);
  }

  lemma ClassifyLoadError(r: Result<Value, Error>, found: bool, unsupported: bool, p: string, ext: string, initial: Value)
    requires !found ==> r == if initial.IsNone() then Err(FileNotFound(p)) else Ok(initial)
    requires found && unsupported ==> r == Err(UnsupportedExtension(ext))
    requires found && !unsupported ==> r.Ok? || r.error.CsvFailed? || r.error == JsonFailed || r.error.NotAFile?
    ensures r == Err(FileNotFound(p)) <==> !found && initial.IsNone()
    ensures r.Err? && r.error.UnsupportedExtension? <==> found && unsupported
  {
  }

  /** What an existing CSV file loads to: the decoded table, or the decoder's
      exception. */
  lemma LoadCsv(st: FsState, root: string, p: string, initial: Value, lib: Foreign)
    requires Join(root, p) in st.files && ExtensionKey(p) == ".csv"
    ensures var r := LoadFrom(st, root, p, initial, lib);
      match lib.readCsv(st.files[Join(root, p)])
      case Ok(t) => r == Ok(Frame(t))
      case Err(e) => r == Err(CsvFailed(e))
  {
  }

  /** What an existing JSON file loads to: the parsed value, or the parser's
      exception. */
  lemma LoadJson(st: FsState, root: string, p: string, initial: Value, lib: Foreign)
    requires Join(root, p) in st.files && ExtensionKey(p) == ".json"
    ensures var r := LoadFrom(st, root, p, initial, lib);
      match lib.loads(st.files[Join(root, p)])
      case Some(j) => r == Ok(Data(j))
      case None => r == Err(JsonFailed)
  {
  }

  /** Only a CSV file loads as a table; only a JSON file loads as a plain
      value (unless the file is missing and the default is returned). */
  lemma LoadShapeFollowsExtension(st: FsState, root: string, p: string, initial: Value, lib: Foreign)
    requires st.Exists(Join(root, p))
    ensures LoadFrom(st, root, p, initial, lib).Ok? ==>
      (LoadFrom(st, root, p, initial, lib).value.Frame? <==> ExtensionKey(p) == ".csv")
  {
  }

  /** Dispatch ignores case: paths differing only in letter case that name
      the same file text load the same way. */
  lemma LoadIgnoresCase(st: FsState, root: string, p: string, q: string, initial: Value, lib: Foreign)
    requires Lower(p) == Lower(q)
    requires Join(root, p) in st.files && Join(root, q) in st.files
    requires st.files[Join(root, p)] == st.files[Join(root, q)]
    ensures LoadFrom(st, root, p, initial, lib) == LoadFrom(st, root, q, initial, lib)
  {
    ExtensionKeyIgnoresCase(p, q);
    var text := st.files[Join(root, p)];
    var ext := ExtensionKey(p);
    if ext == ".csv" || ext == ".json" {
      assert LoadFrom(st, root, p, initial, lib) == Decode(ext, text, lib);
      assert LoadFrom(st, root, q, initial, lib) == Decode(ext, text, lib);
    }
  }

  // Properties of save

  /** After any `save`, whether it wrote or raised, the parent directory of
      the resolved path exists. */
  lemma SaveCreatesParent(st: FsState, root: string, p: string, content: Value, lib: Foreign)
    ensures SaveTo(st, root, p, content, lib).fs.Exists(Dirname(Join(root, p)))
  {
  }

  /** `mkdirs` runs only when the parent is absent: otherwise the directories
      are left as they were. When it runs, it adds only the parent and its
      ancestors. */
  lemma SaveTouchesDirsOnlyWhenParentAbsent(st: FsState, root: string, p: string, content: Value, lib: Foreign)
    ensures var parent := Dirname(Join(root, p));
      var r := SaveTo(st, root, p, content, lib);
      && (st.Exists(parent) ==> r.fs.dirs == st.dirs)
      && (!st.Exists(parent) ==> r.fs.dirs == st.dirs + Lineage(parent))
  {
  }

  /** `save` writes exactly when the content/extension pair is supported, and
      then only the resolved file; otherwise it raises `ValueError` and leaves
      every file as it was. */
  lemma SaveWritesOnlySupported(st: FsState, root: string, p: string, content: Value, lib: Foreign)
    ensures var r := SaveTo(st, root, p, content, lib);
      var full := Join(root, p);
      && (r.outcome.Done? <==> Writable(content, ExtensionKey(p)))
      && (Writable(content, ExtensionKey(p)) ==> r.fs.files == st.files[full := Encode(content, lib)])
      && (!Writable(content, ExtensionKey(p)) ==>
            r.fs.files == st.files && r.outcome == Failed(UnsupportedContent(ExtensionKey(p))))
  {
    assert WithParent(st, Join(root, p)).files == st.files;
  }

  /** Dispatch ignores case: `save` succeeds or fails the same way for paths
      that differ only in letter case. */
  lemma SaveIgnoresCase(st: FsState, root: string, p: string, q: string, content: Value, lib: Foreign)
    requires Lower(p) == Lower(q)
    ensures SaveTo(st, root, p, content, lib).outcome == SaveTo(st, root, q, content, lib).outcome
  {
    ExtensionKeyIgnoresCase(p, q);
    var ext := ExtensionKey(p);
    assert SaveTo(st, root, p, content, lib).outcome == if Writable(content, ext) then Done else Failed(UnsupportedContent(ext));
    assert SaveTo(st, root, q, content, lib).outcome == if Writable(content, ext) then Done else Failed(UnsupportedContent(ext));
  }

  /** A successful save leaves a file that `load` finds, so a later load does
      not take the missing-file branch. */
  lemma SavedFileIsFound(st: FsState, root: string, p: string, content: Value, initial: Value, lib: Foreign)
    requires SaveTo(st, root, p, content, lib).outcome.Done?
    ensures var st' := SaveTo(st, root, p, content, lib).fs;
      Join(root, p) in st'.files && LoadFrom(st', root, p, initial, lib) != Err(FileNotFound(p))
  {
    var full := Join(root, p);
    var st' := WithParent(st, full).WriteText(full, Encode(content, lib));
    assert SaveTo(st, root, p, content, lib).fs == st';
    assert st'.Exists(full);
    LoadErrors(st', root, p, initial, lib);
  }

  class DataHandler {
    const filesystem: FileSystem
    const rootPath: string
    const lib: Foreign

    constructor (filesystem: FileSystem, rootPath: string, lib: Foreign)
      ensures this.filesystem == filesystem && this.rootPath == rootPath && this.lib == lib
    {
      this.filesystem := filesystem;
      this.rootPath := rootPath;
      this.lib := lib;
    }

    /** `_resolve_path`: the path under the root, which always ends with `p`;
        a relative `p` is appended to the root. */
    function ResolvePath(p: string): (r: string)
      ensures r == Join(rootPath, p)
      ensures !IsAbsolute(p) ==> rootPath <= r
      ensures !IsAbsolute(p) && rootPath != "" && !EndsWithSlash(rootPath) ==> r == rootPath + "/" + p
    {
      Join(rootPath, p)
    }

    /** `exists(p)` asks the filesystem about the resolved path, not about `p`. */
    predicate Exists(p: string)
      reads filesystem
      ensures Exists(p) <==> filesystem.State().Exists(Join(rootPath, p))
    {
      filesystem.State().Exists(ResolvePath(p))
    }

    /** `load`; being a function of the filesystem, it writes nothing. */
    function Load(p: string, initial: Value): (r: Result<Value, Error>)
      reads filesystem
      ensures !Exists(p) && !initial.IsNone() ==> r == Ok(initial)
      ensures !Exists(p) && initial.IsNone() ==> r == Err(FileNotFound(p))
      ensures Exists(p) && ExtensionKey(p) != ".csv" && ExtensionKey(p) != ".json" ==>
        r == Err(UnsupportedExtension(ExtensionKey(p)))
    {
      LoadFrom(filesystem.State(), rootPath, p, initial, lib)
    }

    /** `write_text(p, text)`, writing at the resolved path. */
    method WriteText(p: string, text: string)
      modifies filesystem
      ensures filesystem.State() == old(filesystem.State()).WriteText(ResolvePath(p), text)
    {
      filesystem.WriteText(ResolvePath(p), text);
    }

    /** `save(p, content)`: create the parent directory when it is absent, then
        write the encoded content or raise `ValueError`. */
    method Save(p: string, content: Value) returns (o: Outcome)
      modifies filesystem
      ensures Saved(filesystem.State(), o) == SaveTo(old(filesystem.State()), rootPath, p, content, lib)
      ensures filesystem.State().Exists(Dirname(ResolvePath(p)))
      ensures o.Done? <==> Writable(content, ExtensionKey(p))
      ensures o.Failed? ==> filesystem.files == old(filesystem.files)
    {
      var full := ResolvePath(p);
      var parent := Dirname(full);
      if !filesystem.State().Exists(parent) {
        filesystem.MakeDirs(parent);
      }
      var ext := ExtensionKey(p);
      if content.Frame? && ext == ".csv" {
        WriteText(p, lib.toCsv(content.table));
        o := Done;
      } else if content.Data? && (content.json.JDict? || content.json.JList?) && ext == ".json" {
        WriteText(p, lib.dumps(content.json));
        o := Done;
      } else {
        o := Failed(UnsupportedContent(ext));
      }
    }
  }

  /** `exists` on a handler with a proper root never asks about the bare
      relative path: the resolved path is strictly longer. */
  lemma ResolvedPathIsNotRelativePath(h: DataHandler, p: string)
    requires h.rootPath != "" && !IsAbsolute(p)
    ensures h.ResolvePath(p) != p
  {
    var r := h.ResolvePath(p);
    assert |r| == |h.rootPath| + |Separator(h.rootPath)| + |p|;
  }
}
