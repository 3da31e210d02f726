/** `DataManager.load_user_data`: loading one per-user table into the session
    state. `LoadUserDataSpec` is the state transition as a function of the
    session entries, the registry and the filesystem; the class performs it
    step by step on the `SessionState`, its own registry and the
    `FileSystem`. */
module Manager {
  import opened Paths
  import opened Values
  import opened Files
  import opened Handler

  /** The three columns of a fresh per-user table. */
  const UserColumns: seq<string> := ["datum_zeit", "blutzuckerwert", "zeitpunkt"]

  /** `pd.DataFrame(columns=[...])`: the only default `load_user_data` uses. */
  const EmptyUserTable: Table := Table(UserColumns, [])

  /** The default has the three columns and no row, so it is empty in the
      sense of `data.empty`; a single row of any shape makes it non-empty. */
  lemma EmptyUserTableShape(row: seq<Cell>)
    ensures |EmptyUserTable.columns| == 3 && EmptyUserTable.rows == []
    ensures EmptyUserTable.IsEmpty()
    ensures !Table(EmptyUserTable.columns, [row]).IsEmpty()
  {
  }

  /** `st.session_state.get('username', None)`, formatted as the f-string
      formats it: a string as it is, any other value through `str()`. */
  function Username(entries: map<string, Value>, lib: Foreign): (r: Option<string>)
    ensures r.None? <==> "username" !in entries || entries["username"].IsNone()
    ensures "username" in entries && entries["username"].Data? && entries["username"].json.JString? ==>
      r == Some(entries["username"].json.s)
  {
    if "username" !in entries then None
    else
      match entries["username"]
      case Data(JNull) => None
      case Data(JString(s)) => Some(s)
      case v => Some(lib.str(v))
  }

  /** The per-user folder, relative to the manager's root. */
  function UserFolder(name: string): (r: string)
    ensures |r| == 10 + |name| && r[..10] == "user_data_" && r[10..] == name
  {
    "user_data_" + name
  }

  /** The file `load_user_data` reads and writes, resolved from the root
      through the handler rooted at the user folder: it ends with the file
      name, is the file name itself when that is absolute, and otherwise lies
      under the user folder's path. */
  function UserFile(root: string, name: string, fileName: string): (r: string)
    ensures |fileName| <= |r| && r[|r| - |fileName|..] == fileName
    ensures IsAbsolute(fileName) ==> r == fileName
    ensures !IsAbsolute(fileName) ==> Join(root, UserFolder(name)) <= r
  {
    Join(Join(root, UserFolder(name)), fileName)
  }

  /** The table a load produced and the filesystem after it. */
  datatype Loaded = Loaded(result: Result<Table, Error>, fs: FsState)

  /** Everything `load_user_data` can change, plus its result. */
  datatype UserLoad = UserLoad(
    result: Result<Table, Error>,
    entries: map<string, Value>,
    registry: map<string, string>,
    fs: FsState)

  /** Writing the empty three-column table back and using it as the data. */
  function ResetToDefault(st: FsState, home: string, fileName: string, lib: Foreign): (r: Loaded)
    ensures r.result.Ok? ==> r.result.value == EmptyUserTable
    ensures r.result.Err? ==> r.result.error.UnsupportedContent?
    ensures ExtensionKey(fileName) == ".csv" ==> r.result.Ok?
  {
    var s := SaveTo(st, home, fileName, Frame(EmptyUserTable), lib);
    if s.outcome.Failed? then Loaded(Err(s.outcome.error), s.fs) else Loaded(Ok(EmptyUserTable), s.fs)
  }

  /** The `if data.empty` test and the `except EmptyDataError` handler: the
      loaded value is replaced by the default when it is
      an empty table or when the CSV reader raised `EmptyDataError`. */
  predicate NeedsReset(loaded: Result<Value, Error>)
    ensures NeedsReset(loaded) ==> loaded.Ok? || loaded.error.CsvFailed?
  {
    || (loaded.Ok? && loaded.value.Frame? && loaded.value.table.IsEmpty())
    || loaded == Err(CsvFailed(EmptyDataError))
  }

  /** The `try` block and its `except EmptyDataError` handler: load
      without a default, then act on what came back. */
  function LoadOrReset(st: FsState, home: string, fileName: string, lib: Foreign): (r: Loaded)
    ensures !st.Exists(Join(home, fileName)) ==> r == Loaded(Err(FileNotFound(fileName)), st)
    ensures r.result.Ok? && r.result.value.IsEmpty() ==> r.result.value == EmptyUserTable
  {
    AfterLoad(LoadFrom(st, home, fileName, Data(JNull), lib), st, home, fileName, lib)
  }

  /** Acting on the loaded value: reset when `NeedsReset`; a plain value has
      no `.empty`; any other error escapes. */
  function AfterLoad(loaded: Result<Value, Error>, st: FsState, home: string, fileName: string, lib: Foreign): (r: Loaded)
    ensures !NeedsReset(loaded) ==> r.fs == st
    ensures r.result.Ok? && r.result.value.IsEmpty() ==> r.result.value == EmptyUserTable
  {
    if NeedsReset(loaded) then ResetToDefault(st, home, fileName, lib)
    else
      match loaded
      case Ok(Frame(t)) => Loaded(Ok(t), st)
      case Ok(Data(_)) => Loaded(Err(NoEmptyAttribute), st)
      case Err(e) => Loaded(Err(e), st)
  }

  /** The `if not dh.exists(file_name)` block: a missing file is first created holding the empty
      three-column table. */
  function CreateIfMissing(st: FsState, home: string, fileName: string, lib: Foreign): (r: Saved)
    ensures st.Exists(Join(home, fileName)) ==> r == Saved(st, Done)
    ensures r.outcome.Done? ==> r.fs.Exists(Join(home, fileName))
  {
    if st.Exists(Join(home, fileName)) then Saved(st, Done)
    else SaveTo(st, home, fileName, Frame(EmptyUserTable), lib)
  }

  /** Everything after the username check, for a known user folder: create
      if missing, then load. */
  function LoadInFolder(st: FsState, home: string, fileName: string, lib: Foreign): (r: Loaded)
    ensures st.Exists(Join(home, fileName)) ==> r == LoadOrReset(st, home, fileName, lib)
    ensures r.result.Ok? && r.result.value.IsEmpty() ==> r.result.value == EmptyUserTable
  {
    var created := CreateIfMissing(st, home, fileName, lib);
    if created.outcome.Failed? then Loaded(Err(created.outcome.error), created.fs)
    else LoadOrReset(created.fs, home, fileName, lib)
  }

  /** The two assignments after the `try`: record a successful load in the
      session state and in the registry. */
  function Commit(loaded: Loaded, entries: map<string, Value>, registry: map<string, string>,
                  key: string, folder: string, fileName: string): (r: UserLoad)
    ensures r.result == loaded.result && r.fs == loaded.fs
    ensures r.result.Err? ==> r.entries == entries && r.registry == registry
    ensures r.result.Ok? ==> r.entries == entries[key := Frame(r.result.value)]
  {
    match loaded.result
    case Err(e) => UserLoad(Err(e), entries, registry, loaded.fs)
    case Ok(t) => UserLoad(Ok(t), entries[key := Frame(t)], registry[key := Join(folder, fileName)], loaded.fs)
  }

  /** `load_user_data(key, file_name)` from the session entries, the registry
      and the filesystem. The caller's `initial_value` is not an argument: it
      never reaches the result. */
  function LoadUserDataSpec(
    entries: map<string, Value>, registry: map<string, string>, st: FsState,
    root: string, lib: Foreign, key: string, fileName: string): (r: UserLoad)
    ensures Username(entries, lib).None? ==> r == UserLoad(Err(NotLoggedIn), entries, registry, st)
    ensures r.result.Err? ==> r.entries == entries && r.registry == registry
    ensures r.result.Ok? ==> Username(entries, lib).Some? && r.entries == entries[key := Frame(r.result.value)]
  {
    match Username(entries, lib)
    case None => UserLoad(Err(NotLoggedIn), entries, registry, st)
    case Some(name) =>
      var folder := UserFolder(name);
      Commit(LoadInFolder(st, Join(root, folder), fileName, lib), entries, registry, key, folder, fileName)
  }

  // Properties of the steps

  /** `st'` differs from `st` at most in the file `full` and in the
      directories on the way to it. */
  ghost predicate StaysAt(st: FsState, st': FsState, full: string) {
    && (forall q :: q != full ==> (q in st'.files <==> q in st.files))
    && (forall q :: q != full && q in st.files ==> st'.files[q] == st.files[q])
    && st.dirs <= st'.dirs <= st.dirs + Lineage(Dirname(full))
  }

  lemma StaysAtTransitive(st: FsState, st': FsState, st'': FsState, full: string)
    requires StaysAt(st, st', full) && StaysAt(st', st'', full)
    ensures StaysAt(st, st'', full)
  {
  }

  /** One `save` changes only the file at the resolved path and adds only that
      file's parent directory and its ancestors. */
  lemma SaveStaysAtPath(st: FsState, home: string, fileName: string, content: Value, lib: Foreign)
    ensures StaysAt(st, SaveTo(st, home, fileName, content, lib).fs, Join(home, fileName))
  {
    var full := Join(home, fileName);
    var st1 := WithParent(st, full);
    assert st1.files == st.files;
    assert st.dirs <= st1.dirs <= st.dirs + Lineage(Dirname(full));
    if Writable(content, ExtensionKey(fileName)) {
      assert SaveTo(st, home, fileName, content, lib).fs == st1.WriteText(full, Encode(content, lib));
    } else {
      assert SaveTo(st, home, fileName, content, lib).fs == st1;
    }
  }

  /** Writing the default back always succeeds for a `.csv` file and leaves
      the encoded empty table there. */
  lemma ResetWritesDefault(st: FsState, home: string, fileName: string, lib: Foreign)
    requires ExtensionKey(fileName) == ".csv"
    ensures var r := ResetToDefault(st, home, fileName, lib);
      && r.result == Ok(EmptyUserTable)
      && Join(home, fileName) in r.fs.files
      && r.fs.files[Join(home, fileName)] == lib.toCsv(EmptyUserTable)
  {
    var full := Join(home, fileName);
    assert Writable(Frame(EmptyUserTable), ExtensionKey(fileName));
    var s := SaveTo(st, home, fileName, Frame(EmptyUserTable), lib);
    assert s == Saved(WithParent(st, full).WriteText(full, lib.toCsv(EmptyUserTable)), Done);
    assert ResetToDefault(st, home, fileName, lib) == Loaded(Ok(EmptyUserTable), s.fs);
  }

  /** What `load` without a default can return for an existing file: a table
      or a CSV decoder error only for a `.csv` regular file, and then the one
      its text decodes to; never the missing-username error. */
  ghost predicate LoadedFromFile(loaded: Result<Value, Error>, st: FsState, full: string, ext: string, lib: Foreign) {
    && loaded != Err(NotLoggedIn)
    && (((loaded.Ok? && loaded.value.Frame?) || (loaded.Err? && loaded.error.CsvFailed?)) ==>
          ext == ".csv" && full in st.files)
    && (ext == ".csv" && full in st.files ==>
          match lib.readCsv(st.files[full])
          case Ok(t) => loaded == Ok(Frame(t))
          case Err(e) => loaded == Err(CsvFailed(e)))
  }

  lemma LoadFromIsLoadedFromFile(st: FsState, home: string, fileName: string, lib: Foreign)
    requires st.Exists(Join(home, fileName))
    ensures LoadedFromFile(LoadFrom(st, home, fileName, Data(JNull), lib), st, Join(home, fileName), ExtensionKey(fileName), lib)
  {
    var ext := ExtensionKey(fileName);
    if ext == ".csv" {
      LoadedFromCsvFile(st, home, fileName, lib);
    } else {
      LoadedFromOtherFile(st, home, fileName, lib);
    }
  }

  lemma LoadedFromCsvFile(st: FsState, home: string, fileName: string, lib: Foreign)
    requires st.Exists(Join(home, fileName)) && ExtensionKey(fileName) == ".csv"
    ensures LoadedFromFile(LoadFrom(st, home, fileName, Data(JNull), lib), st, Join(home, fileName), ".csv", lib)
  {
    var full := Join(home, fileName);
    if full in st.files {
      LoadCsv(st, home, fileName, Data(JNull), lib);
    } else {
      assert LoadFrom(st, home, fileName, Data(JNull), lib) == Err(NotAFile(full));
    }
  }

  lemma LoadedFromOtherFile(st: FsState, home: string, fileName: string, lib: Foreign)
    requires st.Exists(Join(home, fileName)) && ExtensionKey(fileName) != ".csv"
    ensures LoadedFromFile(LoadFrom(st, home, fileName, Data(JNull), lib), st, Join(home, fileName), ExtensionKey(fileName), lib)
  {
    var r := LoadFrom(st, home, fileName, Data(JNull), lib);
    if ExtensionKey(fileName) == ".json" && Join(home, fileName) in st.files {
      LoadJson(st, home, fileName, Data(JNull), lib);
      assert r == Err(JsonFailed) || (r.Ok? && r.value.Data?);
    } else {
      LoadedWithoutDecoding(st, home, fileName, lib);
    }
    NonCsvIsLoadedFromFile(r, st, Join(home, fileName), ExtensionKey(fileName), lib);
  }

  lemma NonCsvIsLoadedFromFile(r: Result<Value, Error>, st: FsState, full: string, ext: string, lib: Foreign)
    requires ext != ".csv"
    requires r.Ok? ==> r.value.Data?
    requires r.Err? ==> r.error == JsonFailed || r.error.UnsupportedExtension? || r.error.NotAFile?
    ensures LoadedFromFile(r, st, full, ext, lib)
  {
  }

  /** An unsupported extension, or a directory where a file was expected,
      fails before any decoder runs. */
  lemma LoadedWithoutDecoding(st: FsState, home: string, fileName: string, lib: Foreign)
    requires st.Exists(Join(home, fileName)) && ExtensionKey(fileName) != ".csv"
    requires ExtensionKey(fileName) != ".json" || Join(home, fileName) !in st.files
    ensures var r := LoadFrom(st, home, fileName, Data(JNull), lib);
      || r == Err(UnsupportedExtension(ExtensionKey(fileName)))
      || r == Err(NotAFile(Join(home, fileName)))
  {
  }

  /** The load step writes at most the file itself: the only write is the
      default written back. */
  lemma AfterLoadStays(loaded: Result<Value, Error>, st: FsState, home: string, fileName: string, lib: Foreign)
    ensures StaysAt(st, AfterLoad(loaded, st, home, fileName, lib).fs, Join(home, fileName))
  {
    if NeedsReset(loaded) {
      SaveStaysAtPath(st, home, fileName, Frame(EmptyUserTable), lib);
    } else {
      assert AfterLoad(loaded, st, home, fileName, lib).fs == st;
    }
  }

  /** On an existing file the load step succeeds only for a `.csv` file, and
      then with a non-empty table the file decodes to, or with the empty
      three-column table written back; it never raises the missing-username
      error. */
  lemma AfterLoadResult(loaded: Result<Value, Error>, st: FsState, home: string, fileName: string, lib: Foreign)
    requires LoadedFromFile(loaded, st, Join(home, fileName), ExtensionKey(fileName), lib)
    ensures var full := Join(home, fileName);
      var r := AfterLoad(loaded, st, home, fileName, lib);
      && r.result != Err(NotLoggedIn)
      && (r.result.Ok? ==>
            && ExtensionKey(fileName) == ".csv"
            && full in r.fs.files
            && ((r.result.value == EmptyUserTable && r.fs.files[full] == lib.toCsv(EmptyUserTable))
                || (!r.result.value.IsEmpty() && lib.readCsv(r.fs.files[full]) == Ok(r.result.value))))
      && (r.result.Err? && ExtensionKey(fileName) != ".csv" ==> r.fs == st)
  {
    if NeedsReset(loaded) {
      assert ExtensionKey(fileName) == ".csv";
      ResetWritesDefault(st, home, fileName, lib);
      assert AfterLoad(loaded, st, home, fileName, lib) == ResetToDefault(st, home, fileName, lib);
    } else if loaded.Ok? && loaded.value.Frame? {
      assert AfterLoad(loaded, st, home, fileName, lib) == Loaded(Ok(loaded.value.table), st);
    } else {
      assert AfterLoad(loaded, st, home, fileName, lib).result.Err?;
      assert AfterLoad(loaded, st, home, fileName, lib).fs == st;
    }
  }

  /** On an existing `.csv` file the load step fails only when the decoder
      raises something other than `EmptyDataError`. */
  lemma AfterLoadCsv(loaded: Result<Value, Error>, st: FsState, home: string, fileName: string, lib: Foreign)
    requires LoadedFromFile(loaded, st, Join(home, fileName), ".csv", lib)
    requires ExtensionKey(fileName) == ".csv" && Join(home, fileName) in st.files
    ensures var r := AfterLoad(loaded, st, home, fileName, lib);
      r.result.Ok? || r.result == Err(CsvFailed(OtherCsvError))
  {
    if NeedsReset(loaded) {
      AfterLoadResets(loaded, st, home, fileName, lib);
    } else {
      AfterLoadKeeps(loaded, st, home, fileName, lib);
      KeptCsvResult(loaded, AfterLoad(loaded, st, home, fileName, lib), lib.readCsv(st.files[Join(home, fileName)]));
    }
  }

  /** Without a reset, a table is kept and the only decoder error passed on
      is one other than `EmptyDataError`. */
  lemma KeptCsvResult(loaded: Result<Value, Error>, r: Loaded, d: Result<Table, CsvError>)
    requires !NeedsReset(loaded)
    requires match d
      case Ok(t) => loaded == Ok(Frame(t))
      case Err(e) => loaded == Err(CsvFailed(e))
    requires loaded.Ok? && loaded.value.Frame? ==> r.result == Ok(loaded.value.table)
    requires loaded.Err? ==> r.result == Err(loaded.error)
    ensures r.result.Ok? || r.result == Err(CsvFailed(OtherCsvError))
  {
    if d.Err? {
      assert d.error == OtherCsvError;
    }
  }

  lemma AfterLoadResets(loaded: Result<Value, Error>, st: FsState, home: string, fileName: string, lib: Foreign)
    requires NeedsReset(loaded) && ExtensionKey(fileName) == ".csv"
    ensures AfterLoad(loaded, st, home, fileName, lib).result == Ok(EmptyUserTable)
  {
    ResetWritesDefault(st, home, fileName, lib);
  }

  /** Without a reset the filesystem is untouched and a table or an error is
      passed on as it came. */
  lemma AfterLoadKeeps(loaded: Result<Value, Error>, st: FsState, home: string, fileName: string, lib: Foreign)
    requires !NeedsReset(loaded)
    ensures var r := AfterLoad(loaded, st, home, fileName, lib);
      && r.fs == st
      && (loaded.Ok? && loaded.value.Frame? ==> r.result == Ok(loaded.value.table))
      && (loaded.Err? ==> r.result == Err(loaded.error))
  {
  }

  /** The create step: an existing file is left alone; a missing `.csv` file
      is created holding the encoded empty table, so that the load that
      follows finds it; a missing file of any other extension cannot be
      created, and only its parent directory is made. */
  lemma CreateIfMissingResult(st: FsState, home: string, fileName: string, lib: Foreign)
    ensures var full := Join(home, fileName);
      var c := CreateIfMissing(st, home, fileName, lib);
      && StaysAt(st, c.fs, full)
      && (st.Exists(full) ==> c == Saved(st, Done))
      && (!st.Exists(full) && ExtensionKey(fileName) == ".csv" ==>
            && c.outcome == Done
            && full in c.fs.files
            && c.fs.files[full] == lib.toCsv(EmptyUserTable))
      && (!st.Exists(full) && ExtensionKey(fileName) != ".csv" ==>
            c == Saved(WithParent(st, full), Failed(UnsupportedContent(ExtensionKey(fileName)))))
      && (c.outcome.Done? ==> c.fs.Exists(full))
  {
    var full := Join(home, fileName);
    if !st.Exists(full) {
      SaveStaysAtPath(st, home, fileName, Frame(EmptyUserTable), lib);
      SaveWritesOnlySupported(st, home, fileName, Frame(EmptyUserTable), lib);
      if ExtensionKey(fileName) == ".csv" {
        assert Writable(Frame(EmptyUserTable), ".csv");
      }
    }
  }

  /** Creation and load together, for a known user folder. */
  lemma LoadInFolderResult(st: FsState, home: string, fileName: string, lib: Foreign)
    ensures var full := Join(home, fileName);
      var r := LoadInFolder(st, home, fileName, lib);
      && StaysAt(st, r.fs, full)
      && r.result != Err(NotLoggedIn)
      && (r.result.Ok? ==>
            && ExtensionKey(fileName) == ".csv"
            && full in r.fs.files
            && ((r.result.value == EmptyUserTable && r.fs.files[full] == lib.toCsv(EmptyUserTable))
                || (!r.result.value.IsEmpty() && lib.readCsv(r.fs.files[full]) == Ok(r.result.value))))
  {
    var c := CreateIfMissing(st, home, fileName, lib);
    CreateIfMissingResult(st, home, fileName, lib);
    if c.outcome.Done? {
      assert LoadInFolder(st, home, fileName, lib) == LoadOrReset(c.fs, home, fileName, lib);
      LoadAfterCreate(st, c.fs, home, fileName, lib);
    } else {
      assert LoadInFolder(st, home, fileName, lib) == Loaded(Err(c.outcome.error), c.fs);
    }
  }

  /** The load step on a filesystem where creation left the file present. */
  lemma LoadAfterCreate(st: FsState, st1: FsState, home: string, fileName: string, lib: Foreign)
    requires StaysAt(st, st1, Join(home, fileName)) && st1.Exists(Join(home, fileName))
    ensures var full := Join(home, fileName);
      var r := LoadOrReset(st1, home, fileName, lib);
      && StaysAt(st, r.fs, full)
      && r.result != Err(NotLoggedIn)
      && (r.result.Ok? ==>
            && ExtensionKey(fileName) == ".csv"
            && full in r.fs.files
            && ((r.result.value == EmptyUserTable && r.fs.files[full] == lib.toCsv(EmptyUserTable))
                || (!r.result.value.IsEmpty() && lib.readCsv(r.fs.files[full]) == Ok(r.result.value))))
  {
    var loaded := LoadFrom(st1, home, fileName, Data(JNull), lib);
    LoadFromIsLoadedFromFile(st1, home, fileName, lib);
    AfterLoadStays(loaded, st1, home, fileName, lib);
    AfterLoadResult(loaded, st1, home, fileName, lib);
    StaysAtTransitive(st, st1, AfterLoad(loaded, st1, home, fileName, lib).fs, Join(home, fileName));
  }

  // Properties of load_user_data

  /** Without a username nothing is touched and `ValueError` is raised; it is
      raised for no other reason. */
  lemma RefusesWithoutUsername(
    entries: map<string, Value>, registry: map<string, string>, st: FsState,
    root: string, lib: Foreign, key: string, fileName: string)
    ensures var r := LoadUserDataSpec(entries, registry, st, root, lib, key, fileName);
      r.result == Err(NotLoggedIn) <==> Username(entries, lib).None?
    ensures Username(entries, lib).None? ==>
      LoadUserDataSpec(entries, registry, st, root, lib, key, fileName) == UserLoad(Err(NotLoggedIn), entries, registry, st)
  {
    match Username(entries, lib)
    case None =>
    case Some(name) =>
      LoadInFolderResult(st, Join(root, UserFolder(name)), fileName, lib);
  }

  /** On success the session entry and the registry entry for `key` are set
      and every other key of both maps is unchanged; on failure neither map
      changes. */
  lemma SessionAndRegistryUpdate(
    entries: map<string, Value>, registry: map<string, string>, st: FsState,
    root: string, lib: Foreign, key: string, fileName: string)
    ensures var r := LoadUserDataSpec(entries, registry, st, root, lib, key, fileName);
      && (r.result.Ok? ==>
            && Username(entries, lib).Some?
            && r.entries == entries[key := Frame(r.result.value)]
            && r.registry == registry[key := Join(UserFolder(Username(entries, lib).value), fileName)])
      && (r.result.Err? ==> r.entries == entries && r.registry == registry)
  {
    match Username(entries, lib)
    case None =>
    case Some(name) =>
      var loaded := LoadInFolder(st, Join(root, UserFolder(name)), fileName, lib);
      assert LoadUserDataSpec(entries, registry, st, root, lib, key, fileName)
        == Commit(loaded, entries, registry, key, UserFolder(name), fileName);
  }

  /** Everything `load_user_data` writes is the file at the path string
      `UserFile(...)`, the root joined with `user_data_<username>` and the
      file name, plus the directories on the way to it; no file at any other
      path string changes. Paths are compared as strings, not normalised. */
  lemma ChangesStayInUserFile(
    entries: map<string, Value>, registry: map<string, string>, st: FsState,
    root: string, lib: Foreign, key: string, fileName: string)
    requires Username(entries, lib).Some?
    ensures var r := LoadUserDataSpec(entries, registry, st, root, lib, key, fileName);
      StaysAt(st, r.fs, UserFile(root, Username(entries, lib).value, fileName))
  {
    var name := Username(entries, lib).value;
    LoadInFolderResult(st, Join(root, UserFolder(name)), fileName, lib);
  }

  /** The registry stores the user folder joined with the file name, and
      joining it onto the root gives the same path string `UserFile(...)` the
      file was loaded from; for a relative file name that string starts with
      the user folder's path (a prefix of strings: `..` is not resolved). */
  lemma RegistryNamesUserFile(
    entries: map<string, Value>, registry: map<string, string>, st: FsState,
    root: string, lib: Foreign, key: string, fileName: string)
    requires LoadUserDataSpec(entries, registry, st, root, lib, key, fileName).result.Ok?
    ensures Username(entries, lib).Some?
    ensures var r := LoadUserDataSpec(entries, registry, st, root, lib, key, fileName);
      var name := Username(entries, lib).value;
      && key in r.registry
      && r.registry[key] == Join(UserFolder(name), fileName)
      && Join(root, r.registry[key]) == UserFile(root, name, fileName)
      && (!IsAbsolute(fileName) ==> Join(root, UserFolder(name)) <= UserFile(root, name, fileName))
  {
    SessionAndRegistryUpdate(entries, registry, st, root, lib, key, fileName);
    var name := Username(entries, lib).value;
    JoinAssociative(root, UserFolder(name), fileName);
  }

  /** An absolute file name is joined over the user's folder, so the file read
      and written is that absolute path and not one inside the folder. */
  lemma AbsoluteFileNameLeavesUserFolder(root: string, name: string, fileName: string)
    requires IsAbsolute(fileName)
    ensures UserFile(root, name, fileName) == fileName
  {
  }

  /** A missing `.csv` file is first created holding the empty three-column
      table, so the load that follows finds it; a missing file with any other
      extension cannot be created and `save`'s `ValueError` escapes, changing
      neither map and leaving only the parent directory behind. */
  lemma MissingFileIsCreatedFirst(
    entries: map<string, Value>, registry: map<string, string>, st: FsState,
    root: string, lib: Foreign, key: string, fileName: string)
    requires Username(entries, lib).Some?
    requires !st.Exists(UserFile(root, Username(entries, lib).value, fileName))
    ensures var name := Username(entries, lib).value;
      var home := Join(root, UserFolder(name));
      var full := UserFile(root, name, fileName);
      var created := CreateIfMissing(st, home, fileName, lib);
      var r := LoadUserDataSpec(entries, registry, st, root, lib, key, fileName);
      if ExtensionKey(fileName) == ".csv" then
        && created.outcome == Done
        && full in created.fs.files
        && created.fs.files[full] == lib.toCsv(EmptyUserTable)
        && LoadFrom(created.fs, home, fileName, Data(JNull), lib) != Err(FileNotFound(fileName))
        && (r.result.Ok? || r.result == Err(CsvFailed(OtherCsvError)))
      else
        r == UserLoad(Err(UnsupportedContent(ExtensionKey(fileName))), entries, registry, WithParent(st, full))
  {
    var name := Username(entries, lib).value;
    var home := Join(root, UserFolder(name));
    var l := LoadInFolder(st, home, fileName, lib);
    assert LoadUserDataSpec(entries, registry, st, root, lib, key, fileName)
      == Commit(l, entries, registry, key, UserFolder(name), fileName);
    if ExtensionKey(fileName) == ".csv" {
      MissingCsvIsCreated(st, home, fileName, lib);
    } else {
      MissingOtherIsRefused(st, home, fileName, lib);
    }
  }

  lemma MissingCsvIsCreated(st: FsState, home: string, fileName: string, lib: Foreign)
    requires !st.Exists(Join(home, fileName)) && ExtensionKey(fileName) == ".csv"
    ensures var full := Join(home, fileName);
      var created := CreateIfMissing(st, home, fileName, lib);
      var l := LoadInFolder(st, home, fileName, lib);
      && created.outcome == Done
      && full in created.fs.files
      && created.fs.files[full] == lib.toCsv(EmptyUserTable)
      && LoadFrom(created.fs, home, fileName, Data(JNull), lib) != Err(FileNotFound(fileName))
      && (l.result.Ok? || l.result == Err(CsvFailed(OtherCsvError)))
  {
    CreateIfMissingResult(st, home, fileName, lib);
    var created := CreateIfMissing(st, home, fileName, lib);
    LoadErrors(created.fs, home, fileName, Data(JNull), lib);
    var loaded := LoadFrom(created.fs, home, fileName, Data(JNull), lib);
    LoadFromIsLoadedFromFile(created.fs, home, fileName, lib);
    AfterLoadCsv(loaded, created.fs, home, fileName, lib);
    assert LoadInFolder(st, home, fileName, lib) == AfterLoad(loaded, created.fs, home, fileName, lib);
  }

  lemma MissingOtherIsRefused(st: FsState, home: string, fileName: string, lib: Foreign)
    requires !st.Exists(Join(home, fileName)) && ExtensionKey(fileName) != ".csv"
    ensures LoadInFolder(st, home, fileName, lib)
      == Loaded(Err(UnsupportedContent(ExtensionKey(fileName))), WithParent(st, Join(home, fileName)))
  {
    CreateIfMissingResult(st, home, fileName, lib);
  }

  /** The result is either a non-empty table that the user's `.csv` file now
      decodes to, or the empty three-column table, which has then also been
      written to that file; the caller's default plays no part. */
  lemma ResultIsLoadedOrDefault(
    entries: map<string, Value>, registry: map<string, string>, st: FsState,
    root: string, lib: Foreign, key: string, fileName: string)
    requires LoadUserDataSpec(entries, registry, st, root, lib, key, fileName).result.Ok?
    ensures Username(entries, lib).Some?
    ensures var r := LoadUserDataSpec(entries, registry, st, root, lib, key, fileName);
      var full := UserFile(root, Username(entries, lib).value, fileName);
      var t := r.result.value;
      && ExtensionKey(fileName) == ".csv"
      && full in r.fs.files
      && ((t == EmptyUserTable && r.fs.files[full] == lib.toCsv(EmptyUserTable))
          || (!t.IsEmpty() && lib.readCsv(r.fs.files[full]) == Ok(t)))
  {
    SessionAndRegistryUpdate(entries, registry, st, root, lib, key, fileName);
    var name := Username(entries, lib).value;
    LoadInFolderResult(st, Join(root, UserFolder(name)), fileName, lib);
  }

  /** An existing user file is never overwritten by the creation step; when
      its extension is unsupported `load`'s `ValueError` escapes, and a `.json`
      file never produces a table and changes nothing. */
  lemma ExistingFileErrors(
    entries: map<string, Value>, registry: map<string, string>, st: FsState,
    root: string, lib: Foreign, key: string, fileName: string)
    requires Username(entries, lib).Some?
    requires st.Exists(UserFile(root, Username(entries, lib).value, fileName))
    ensures CreateIfMissing(st, Join(root, UserFolder(Username(entries, lib).value)), fileName, lib) == Saved(st, Done)
    ensures var r := LoadUserDataSpec(entries, registry, st, root, lib, key, fileName);
      var ext := ExtensionKey(fileName);
      && (ext != ".csv" && ext != ".json" ==> r == UserLoad(Err(UnsupportedExtension(ext)), entries, registry, st))
      && (ext == ".json" ==> r.result.Err? && r == UserLoad(r.result, entries, registry, st))
  {
    var name := Username(entries, lib).value;
    var home := Join(root, UserFolder(name));
    CreateIfMissingResult(st, home, fileName, lib);
    var loaded := LoadFrom(st, home, fileName, Data(JNull), lib);
    LoadErrors(st, home, fileName, Data(JNull), lib);
    LoadFromIsLoadedFromFile(st, home, fileName, lib);
    AfterLoadResult(loaded, st, home, fileName, lib);
  }

  /** The Streamlit session state: a map from key to value. */
  class SessionState {
    var entries: map<string, Value>

    constructor (entries: map<string, Value>)
      ensures this.entries == entries
    {
      this.entries := entries;
    }
  }

  class DataManager {
    const filesystem: FileSystem
    const rootPath: string
    const lib: Foreign
    var userDataReg: map<string, string>

    constructor (filesystem: FileSystem, rootPath: string, lib: Foreign)
      ensures this.filesystem == filesystem && this.rootPath == rootPath && this.lib == lib
      ensures userDataReg == map[]
    {
      this.filesystem := filesystem;
      this.rootPath := rootPath;
      this.lib := lib;
      userDataReg := map[];
    }

    /** `_get_data_handler(subfolder=...)`: a handler on the same filesystem
        rooted at the sub-folder of the manager's root. */
    method GetDataHandler(subfolder: string) returns (dh: DataHandler)
      ensures fresh(dh)
      ensures dh.filesystem == filesystem && dh.rootPath == Join(rootPath, subfolder) && dh.lib == lib
    {
      dh := new DataHandler(filesystem, Join(rootPath, subfolder), lib);
    }

    /** The `if not dh.exists(file_name)` block: save the empty three-column
        table when the file is absent. */
    method CreateUserFile(dh: DataHandler, fileName: string) returns (o: Outcome)
      requires dh.filesystem == filesystem && dh.lib == lib
      modifies filesystem
      ensures Saved(filesystem.State(), o) == CreateIfMissing(old(filesystem.State()), dh.rootPath, fileName, lib)
    {
      o := Done;
      if !dh.Exists(fileName) {
        var defaultTable := Frame(EmptyUserTable);
        o := dh.Save(fileName, defaultTable);
      }
    }

    /** The `try` block: load without a default; write the empty table back when
        the file held an empty table or no CSV data at all. */
    method LoadOrResetUserFile(dh: DataHandler, fileName: string) returns (r: Result<Table, Error>)
      requires dh.filesystem == filesystem && dh.lib == lib
      modifies filesystem
      ensures Loaded(r, filesystem.State()) == LoadOrReset(old(filesystem.State()), dh.rootPath, fileName, lib)
    {
      ghost var st := filesystem.State();
      var loaded := dh.Load(fileName, Data(JNull));
      assert LoadOrReset(st, dh.rootPath, fileName, lib) == AfterLoad(loaded, st, dh.rootPath, fileName, lib);
      match loaded {
        case Ok(Frame(t)) =>
          if t.IsEmpty() {
            r := ResetUserFile(dh, fileName);
          } else {
            r := Ok(t);
          }
        case Ok(Data(_)) =>
          r := Err(NoEmptyAttribute);
        case Err(CsvFailed(EmptyDataError)) =>
          r := ResetUserFile(dh, fileName);
        case Err(e) =>
          r := Err(e);
      }
    }

    /** The body of `if data.empty` and of the `except EmptyDataError`
        handler: write the empty table back and use it. */
    method ResetUserFile(dh: DataHandler, fileName: string) returns (r: Result<Table, Error>)
      requires dh.filesystem == filesystem && dh.lib == lib
      modifies filesystem
      ensures Loaded(r, filesystem.State()) == ResetToDefault(old(filesystem.State()), dh.rootPath, fileName, lib)
    {
      var saved := dh.Save(fileName, Frame(EmptyUserTable));
      if saved.Failed? {
        r := Err(saved.error);
      } else {
        r := Ok(EmptyUserTable);
      }
    }

    /** `load_user_data(session_state_key, file_name, initial_value)`. */
    method LoadUserData(session: SessionState, key: string, fileName: string, initial: Value)
      returns (r: Result<Table, Error>)
      modifies this, session, filesystem
      ensures UserLoad(r, session.entries, userDataReg, filesystem.State())
        == LoadUserDataSpec(old(session.entries), old(userDataReg), old(filesystem.State()), rootPath, lib, key, fileName)
    {
      ghost var st := filesystem.State();
      ghost var spec := LoadUserDataSpec(session.entries, userDataReg, st, rootPath, lib, key, fileName);
      var user := Username(session.entries, lib);
      if user.None? {
        assert spec == UserLoad(Err(NotLoggedIn), session.entries, userDataReg, st);
        return Err(NotLoggedIn);
      }
      var folder := UserFolder(user.value);
      assert spec == Commit(LoadInFolder(st, Join(rootPath, folder), fileName, lib),
                            session.entries, userDataReg, key, folder, fileName);
      var dh := GetDataHandler(folder);
      var created := CreateUserFile(dh, fileName);
      if created.Failed? {
        assert LoadInFolder(st, dh.rootPath, fileName, lib) == Loaded(Err(created.error), filesystem.State());
        assert spec == UserLoad(Err(created.error), session.entries, userDataReg, filesystem.State());
        return Err(created.error);
      }
      var data := LoadOrResetUserFile(dh, fileName);
      assert LoadInFolder(st, dh.rootPath, fileName, lib) == Loaded(data, filesystem.State());
      if data.Err? {
        assert spec == UserLoad(data, session.entries, userDataReg, filesystem.State());
        return data;
      }
      assert spec == UserLoad(data, session.entries[key := Frame(data.value)],
                              userDataReg[key := Join(folder, fileName)], filesystem.State());
      Record(session, key, data.value, Join(folder, fileName));
      r := data;
    }

    /** The two assignments after the `try`: the table into the session state,
        its folder-relative path into the registry. */
    method Record(session: SessionState, key: string, t: Table, path: string)
      modifies this, session
      ensures session.entries == old(session.entries)[key := Frame(t)]
      ensures userDataReg == old(userDataReg)[key := path]
    {
      session.entries := session.entries[key := Frame(t)];
      userDataReg := userDataReg[key := path];
    }
  }
}
