# Storage core of the blood-glucose tracker

The tracker keeps each user's glucose readings in one table. That table lives in a
file under a per-user folder (`user_data_<username>`) of a filesystem root.
This project models the storage layer underneath in Dafny:

- `DataHandler` (`utils/data_handler.py`): a format-aware codec rooted at a folder.
  - `load` picks a decoder from the file's lower-cased extension: CSV becomes a
    DataFrame, JSON a plain value.
  - `load` returns a default for a missing file when one is given, and raises otherwise.
  - `save` creates the parent directory when it is absent, then writes a DataFrame
    as CSV or a dict/list as JSON, and raises for any other pairing.
- `load_user_data` (`utils/data_manager.py`): loads the logged-in user's table into
  the session state.
  - It refuses when no username is set.
  - It creates a missing file holding an empty table with the three columns
    `datum_zeit`, `blutzuckerwert` and `zeitpunkt`.
  - It replaces an empty table, or a file the CSV reader finds empty, by that
    empty table and writes it back.
  - It records the table in the session state and the relative path in the
    manager's registry.

Layout:

- `paths.dfy` (`Paths`): `posixpath.join`, `splitext` and `dirname`, and ASCII
  `str.lower`, as pure string functions.
- `values.dfy` (`Values`): tables, JSON values, the errors raised, and `Foreign`.
  `Foreign` holds the library calls whose behaviour is not modelled (`to_csv`,
  `read_csv`, `json.dumps`, `json.loads`, `str()`) as function-valued fields.
- `files.dfy` (`Files`): the filesystem as a value `FsState` (directories plus a
  map from path to text), and the `FileSystem` object that the handlers share
  and update in place.
- `handler.dfy` (`Handler`): `LoadFrom` and `SaveTo` specify `load` and `save` as
  functions of the filesystem state. The class `DataHandler` performs the same
  steps on its `FileSystem`, and its methods are proved equal to those functions.
- `manager.dfy` (`Manager`): `LoadUserDataSpec` is the whole state transition of
  `load_user_data` over the session entries, the registry and the filesystem.
  `DataManager.LoadUserData` performs it step by step on a `SessionState`, the
  manager's registry and the `FileSystem`.

Python's `None` is `Data(JNull)`. Each Python exception is an `Error` value in a
`Result` or an `Outcome`.

The model follows the code. The docstring of `load_user_data`
(utils/data_manager.py:2-5) says a missing or empty file is created with initial
values. The code does less:

- Only a `.csv` file can be created or refilled. For any other extension `save`
  raises `ValueError` (`MissingFileIsCreatedFirst`).
- "Empty" means an empty table or `EmptyDataError`. Any other decoder error
  escapes (`AfterLoadCsv`).
- The initial values are always the empty three-column table. The caller's
  `initial_value` never reaches the result.
- `load` itself raises `FileNotFoundError` for a missing file when no default is
  given. Only `.csv` and `.json` are dispatched.

Behaviour of the code as written that the lemmas make explicit:

- A `.json` user file loads as a plain value, which has no `.empty`. So
  `load_user_data` then raises `AttributeError` (`NoEmptyAttribute`):
  `ExistingFileErrors`.
- An absolute `file_name` replaces the user folder in the join, so the file read
  and written lies outside that folder: `AbsoluteFileNameLeavesUserFolder`.

## Model

| member | source | states |
|---|---|---|
| `Paths.Join` | utils/data_handler.py:23-30 | the joined path ends with the last component; an absolute component discards what precedes it; otherwise the first part is a prefix |
| `Paths.JoinAll` | utils/data_handler.py:23-30 | with no absolute component after the first, the first part is a prefix of the joined path |
| `Paths.JoinAllRestartsAtAbsolute` | utils/data_handler.py:23-30 | joining many components restarts at the last absolute one |
| `Paths.JoinAllEndsWithLast` | utils/data_handler.py:23-30 | joining many components yields a path ending with the last one |
| `Paths.JoinAssociative` | utils/data_handler.py:32-42 | resolving through a sub-folder root equals joining the sub-folder-relative path onto the outer root |
| `Paths.JoinAfterSeparator` | utils/data_handler.py:23-30 | joining an empty component then a relative one is joining the relative one |
| `Paths.JoinThroughNonEmpty` | utils/data_handler.py:23-30 | associativity of the join when the middle component is relative and non-empty |
| `Paths.JoinLeftNested` | utils/data_handler.py:23-30 | joining a relative non-empty part then a relative part puts one separator after each |
| `Paths.JoinRightNested` | utils/data_handler.py:23-30 | joining onto an already joined relative path gives the same string |
| `Paths.SeparatorOfSuffix` | utils/data_handler.py:23-30 | whether a separator is needed depends only on the last character |
| `Paths.LastIndexOf` | utils/data_handler.py:75 | the index found holds the character and none occurs after it; -1 when absent |
| `Paths.LastIndexBefore` | utils/data_handler.py:75 | the index found below the bound holds the character and none occurs between it and the bound |
| `Paths.SplitExt` | utils/data_handler.py:75 | root and extension concatenate to the path; the extension is empty or one leading dot with no further dot and no slash |
| `Paths.SplitAtDot` | utils/data_handler.py:75 | when the last dot follows the last slash, the root is everything before that dot and the extension everything from it |
| `Paths.SuffixFromLastDot` | utils/data_handler.py:75 | the part from the last dot after the last slash starts with that dot and holds no other dot or slash |
| `Paths.LastIndexOfIs` | utils/data_handler.py:75 | an index holding the character with none after it, or -1 when absent, is the one the search returns |
| `Paths.ExtensionOfName` | utils/data_handler.py:75 | a stem whose last component has a non-dot character, followed by a dot and no further dot or slash, splits into exactly that stem and extension |
| `Paths.LeadingDotsAreNoExtension` | utils/data_handler.py:75 | a last component made only of dots up to its last dot (such as `.profile`) has no extension |
| `Paths.Lower` | utils/data_handler.py:75 | same length; each character lowered on its own (ASCII letters only) |
| `Paths.LowerKeepsSeparators` | utils/data_handler.py:75 | lowering never creates or removes a dot or a slash |
| `Paths.LastIndexOfIgnoresCase` | utils/data_handler.py:75 | the last dot and the last slash sit at the same place in paths equal up to case |
| `Paths.LastIndexBeforeIgnoresCase` | utils/data_handler.py:75 | the downward scan for a dot or slash stops at the same place in paths equal up to case |
| `Paths.LowerSuffix` | utils/data_handler.py:75 | equality up to case is kept by taking suffixes |
| `Paths.HasNonDotIgnoresCase` | utils/data_handler.py:75 | the leading-dot test of `splitext` does not depend on case |
| `Paths.ExtensionKeyIgnoresCase` | utils/data_handler.py:75 | paths equal up to case yield the same dispatch key |
| `Paths.ExtensionKey` | utils/data_handler.py:75 | the dispatch key is empty or starts with a dot |
| `Paths.DataCsvIsCsv` | utils/data_handler.py:75 | `data.csv`, the file name the tracker page passes to `load_user_data`, has the dispatch key `.csv` |
| `Paths.StripTrailingSlashes` | utils/data_handler.py:96 | the result is a prefix without a trailing slash, and only slashes were removed |
| `Paths.Dirname` | utils/data_handler.py:96 | the directory is a prefix of the path, and empty when the path has no slash |
| `Paths.DirnameOfJoin` | utils/data_handler.py:95-96 | the parent of a plain name joined onto a folder is that folder |
| `Values.Table.IsEmpty` | utils/data_manager.py:23 | the definition of pandas' `.empty` (either axis of length zero); `Manager.EmptyUserTableShape` applies it to the default |
| `Files.FsState.Exists` | utils/data_handler.py:55 | the definition of the filesystem's `exists` (a directory or a file is there); `MakeDirs` and `WriteText` state exactly what exists after them |
| `Files.Lineage` | utils/data_handler.py:100 | `mkdirs` creates the directory and only prefixes of it |
| `Files.FsState.MakeDirs` | utils/data_handler.py:100 | files untouched; existing directories kept; afterwards exactly the old paths and the directory with its ancestors exist |
| `Files.FsState.WriteText` | utils/data_handler.py:106 | the file holds the new text; every other file is unchanged; directories unchanged; afterwards exactly the old paths and the written one exist |
| `Files.FileSystem.constructor` | utils/data_handler.py:20 | the filesystem object starts in the given state |
| `Files.FileSystem.MakeDirs` | utils/data_handler.py:100 | new state is the `mkdirs` transition of the old one |
| `Files.FileSystem.WriteText` | utils/data_handler.py:106 | new state is the write transition of the old one |
| `Handler.ReadText` | utils/data_handler.py:79-82 | the assumed behaviour of `read_text` and of opening a file: the text of a regular file, an error for a directory; `ReadAfterWrite` is its partner |
| `Handler.ReadAfterWrite` | utils/data_handler.py:82 | a written text is read back as written; a write leaves every other path's read unchanged; `mkdirs` changes no read |
| `Handler.LoadFrom` | utils/data_handler.py:57-84 | a missing file succeeds exactly when a default is given; an existing path loads only when it is a regular file, and as a table exactly when the extension is `.csv` |
| `Handler.Decode` | utils/data_handler.py:78-82 | decoding raises only the CSV reader's or the JSON parser's own errors, and gives a table exactly for `.csv` |
| `Handler.Encode` | utils/data_handler.py:105-108 | the assumed encoders: `to_csv(index=False)` for a table, `json.dumps(indent=4)` for a dict or list; `SaveWritesOnlySupported` shows this text, and only it, is written |
| `Handler.Writable` | utils/data_handler.py:105-107 | only `.csv` and `.json` are writable, and a table exactly for `.csv` |
| `Handler.WithParent` | utils/data_handler.py:95-100 | files are untouched, the parent directory exists afterwards, and directories are only added |
| `Handler.SaveTo` | utils/data_handler.py:86-110 | the parent exists afterwards; directories are only added; files are unchanged on failure; on success the resolved file exists |
| `Handler.LoadMissingReturnsDefault` | utils/data_handler.py:69-72 | a missing file with a non-`None` default yields the default, whatever the extension |
| `Handler.LoadMissingWithoutDefaultFails` | utils/data_handler.py:69-73 | a missing file without a default raises `FileNotFoundError` naming the relative path |
| `Handler.LoadErrors` | utils/data_handler.py:69-84 | `FileNotFoundError` exactly when missing without default; `ValueError` exactly when present with an extension other than `.csv`/`.json` |
| `Handler.LoadCsv` | utils/data_handler.py:78-80 | an existing CSV file loads to the table its text decodes to, or the reader's error |
| `Handler.LoadJson` | utils/data_handler.py:81-82 | an existing JSON file loads to the value its text parses to, or the parser's error |
| `Handler.LoadShapeFollowsExtension` | utils/data_handler.py:78-82 | for an existing file a table comes back exactly when the extension is `.csv` |
| `Handler.LoadIgnoresCase` | utils/data_handler.py:75-84 | paths equal up to case naming the same text load identically |
| `Handler.SaveCreatesParent` | utils/data_handler.py:95-100 | after `save`, written or raised, the parent directory exists |
| `Handler.SaveTouchesDirsOnlyWhenParentAbsent` | utils/data_handler.py:96-100 | directories unchanged when the parent exists; otherwise exactly the parent and its ancestors are added |
| `Handler.SaveWritesOnlySupported` | utils/data_handler.py:102-110 | writes exactly for DataFrame/`.csv` and dict-or-list/`.json`, and then only the resolved file; otherwise `ValueError` and no file changes |
| `Handler.SaveIgnoresCase` | utils/data_handler.py:102-110 | succeeding or failing does not depend on the extension's case |
| `Handler.SavedFileIsFound` | utils/data_handler.py:86-110 | after a successful save the file exists, so a later `load` does not raise `FileNotFoundError` |
| `Handler.DataHandler.constructor` | utils/data_handler.py:12-21 | the handler keeps the filesystem and the root it is given |
| `Handler.DataHandler.ResolvePath` | utils/data_handler.py:32-42 | the resolved path is the root joined with the argument; a relative path is appended under the root |
| `Handler.DataHandler.Exists` | utils/data_handler.py:44-55 | asks the filesystem about the resolved path |
| `Handler.DataHandler.Load` | utils/data_handler.py:57-84 | missing with default gives the default; missing without default raises; an unsupported extension raises `ValueError` |
| `Handler.DataHandler.WriteText` | utils/data_handler.py:106-108 | writes the text at the resolved path and nowhere else |
| `Handler.DataHandler.Save` | utils/data_handler.py:86-110 | new filesystem and outcome equal `SaveTo`; the parent exists afterwards; succeeds exactly for supported pairs; files unchanged on failure |
| `Handler.ResolvedPathIsNotRelativePath` | utils/data_handler.py:42-55 | with a non-empty root, `exists` never asks about the bare relative path |
| `Manager.Username` | utils/data_manager.py:6-10 | no username exactly when the key is absent or `None`; a string username is used as it is |
| `Manager.EmptyUserTableShape` | utils/data_manager.py:16 | the default `DataFrame(columns=[...])` has the three columns and no row, so `data.empty` holds of it; one row of any shape makes it non-empty |
| `Manager.UserFolder` | utils/data_manager.py:10 | the folder is `user_data_` followed by the username, which can be read back from it |
| `Manager.UserFile` | utils/data_manager.py:10-11 | the path string the user's handler resolves: it ends with the file name, is the file name itself when that is absolute, and otherwise starts with the user folder's path |
| `Manager.LoadInFolder` | utils/data_manager.py:13-31 | an existing file goes straight to the load step; an empty table comes back only as the three-column default |
| `Manager.ResetToDefault` | utils/data_manager.py:24-31 | success gives the empty three-column table; the only failure is `save`'s `ValueError`; a `.csv` file always succeeds |
| `Manager.NeedsReset` | utils/data_manager.py:23-28 | only a loaded table or a CSV reader error can trigger the reset |
| `Manager.AfterLoad` | utils/data_manager.py:22-31 | without a reset the filesystem is untouched; an empty table comes back only as the three-column default |
| `Manager.LoadOrReset` | utils/data_manager.py:19-31 | a missing file raises `FileNotFoundError` and changes nothing; an empty table comes back only as the three-column default |
| `Manager.CreateIfMissing` | utils/data_manager.py:13-17 | an existing file is left alone; when creation succeeds the file exists |
| `Manager.Commit` | utils/data_manager.py:33-35 | result and filesystem pass through; a failure changes neither map; a success stores the table under the key |
| `Manager.LoadUserDataSpec` | utils/data_manager.py:1-37 | without a username nothing changes and "not logged in" is raised; any failure leaves both maps; a success needs a username and stores the table under the key |
| `Manager.StaysAtTransitive` | utils/data_manager.py:13-31 | confinement to one file and its directories composes over successive steps |
| `Manager.SaveStaysAtPath` | utils/data_handler.py:95-110 | one `save` changes only the resolved file and that file's parent directories |
| `Manager.ResetWritesDefault` | utils/data_manager.py:25-26 | writing back the empty three-column table to a `.csv` file succeeds and leaves its encoding there |
| `Manager.LoadFromIsLoadedFromFile` | utils/data_manager.py:20 | for an existing file, `load` gives a table or a CSV error only for a `.csv` regular file, and then the one its text decodes to |
| `Manager.LoadedFromCsvFile` | utils/data_handler.py:78-80 | an existing `.csv` path loads to its decoded table or the reader's error, or fails as a directory |
| `Manager.LoadedFromOtherFile` | utils/data_handler.py:81-84 | an existing path of any other extension never loads to a table or a CSV error |
| `Manager.LoadedWithoutDecoding` | utils/data_handler.py:79-84 | an unsupported extension or a directory fails before any decoder runs |
| `Manager.AfterLoadStays` | utils/data_manager.py:19-31 | the try block writes at most the user file |
| `Manager.AfterLoadResult` | utils/data_manager.py:19-31 | the try block succeeds only for `.csv`, with a non-empty decoded table or the default written back; a failure other than `.csv` changes nothing |
| `Manager.AfterLoadCsv` | utils/data_manager.py:19-31 | on an existing `.csv` file the try block fails only with a CSV error other than `EmptyDataError` |
| `Manager.AfterLoadResets` | utils/data_manager.py:22-31 | an empty table or `EmptyDataError` on a `.csv` file is replaced by the empty three-column table |
| `Manager.AfterLoadKeeps` | utils/data_manager.py:20-23 | without a reset nothing is written and the table or the error is passed on as loaded |
| `Manager.CreateIfMissingResult` | utils/data_manager.py:13-17 | an existing file is left alone; a missing `.csv` file is created with the empty table; other missing files fail with only the parent made |
| `Manager.LoadInFolderResult` | utils/data_manager.py:13-31 | creation plus load only touch the user file; success means `.csv` and either a non-empty decoded table or the written-back default |
| `Manager.LoadAfterCreate` | utils/data_manager.py:19-31 | on a present file the load step only touches that file; success means `.csv` and either a non-empty decoded table or the written-back default |
| `Manager.RefusesWithoutUsername` | utils/data_manager.py:6-8 | `ValueError` for "not logged in" exactly when no username is set, and then nothing changes |
| `Manager.SessionAndRegistryUpdate` | utils/data_manager.py:33-35 | on success the session entry and registry entry for the key are set and all other keys kept; on failure neither map changes |
| `Manager.ChangesStayInUserFile` | utils/data_manager.py:10-31 | no file changes except the one at the path string `UserFile`: the root joined with `user_data_<username>` and the file name (for an absolute name, the name itself); only that string's parent directories are added |
| `Manager.RegistryNamesUserFile` | utils/data_manager.py:10-35 | the registry holds `user_data_<username>` joined with the file name; joined onto the root it is the same path string `UserFile` the table was loaded from; for a relative name that string starts with the user folder's path |
| `Manager.AbsoluteFileNameLeavesUserFolder` | utils/data_manager.py:10-11 | an absolute file name is used as it is, outside the user folder |
| `Manager.MissingFileIsCreatedFirst` | utils/data_manager.py:13-31 | a missing `.csv` file is created with the empty table so the load finds it; another extension raises `save`'s `ValueError` with only the parent made |
| `Manager.MissingCsvIsCreated` | utils/data_manager.py:13-31 | a missing `.csv` file is written with the encoded empty table, then found by `load`; the step fails only with a CSV error other than `EmptyDataError` |
| `Manager.MissingOtherIsRefused` | utils/data_manager.py:13-17 | a missing file of another extension stops at `save`'s `ValueError`, with only the parent directory made |
| `Manager.ResultIsLoadedOrDefault` | utils/data_manager.py:19-37 | the table returned is a non-empty one the `.csv` file decodes to, or the empty three-column table also written to it |
| `Manager.ExistingFileErrors` | utils/data_manager.py:13-31 | for an existing file of any extension the creation step does nothing; an unsupported extension raises `ValueError`; a `.json` file always fails and changes nothing |
| `Manager.SessionState.constructor` | utils/data_manager.py:6 | the session state starts with the given entries |
| `Manager.DataManager.constructor` | utils/data_manager.py:35 | the registry `user_data_reg` written here starts empty, and the manager keeps its filesystem and root (the constructor itself is not shown in the source) |
| `Manager.DataManager.GetDataHandler` | utils/data_manager.py:11 | a fresh handler on the same filesystem rooted at the sub-folder of the root |
| `Manager.DataManager.CreateUserFile` | utils/data_manager.py:13-17 | new filesystem and outcome equal `CreateIfMissing` of the old filesystem |
| `Manager.DataManager.LoadOrResetUserFile` | utils/data_manager.py:19-31 | result and new filesystem equal `LoadOrReset` of the old filesystem |
| `Manager.DataManager.ResetUserFile` | utils/data_manager.py:24-31 | result and new filesystem equal writing the default back |
| `Manager.DataManager.Record` | utils/data_manager.py:33-35 | the session entry for the key becomes the table and the registry entry the folder-relative path |
| `Manager.DataManager.LoadUserData` | utils/data_manager.py:1-37 | result, session entries, registry and filesystem equal `LoadUserDataSpec` of the old ones |

## Left out

- The CSV and JSON codecs (`to_csv`, `read_csv`, `json.dumps`, `json.loads`) are
  abstract parameters. No save/load round trip is claimed, because the model never
  sees how a table is encoded.
- `load_args`/`**load_args` are not modelled. The reader is always called with
  its defaults.
- `str.lower` is modelled on ASCII letters only. Unicode case mapping is not modelled.
- Floating-point cells and JSON numbers are integers in this model.
- `DataHandler.join` with no arguments (a `TypeError` in Python) is not modelled.
  Every call in the core passes at least two parts.
- fsspec backends are not modelled. `mkdirs` adds the directory and its parent
  directories. Opening a directory for reading is an error. Remote failures are
  not modelled.
- Handler.SaveTo: writing succeeds even where a real filesystem raises, namely
  `IsADirectoryError` when the resolved path is an existing directory, and
  `NotADirectoryError` when its parent is a regular file. `FsState` does not keep
  directories and files apart.
- Files.FsState.WriteText: for the same reason, it writes any path, whether a
  directory is there or the parent is a file.
- Paths are not normalised: `..`, `.` and repeated slashes stay as written. So
  confinement to the user file and "no other file changes" hold for path strings,
  not for the locations they name.
- `read_text` and `write_text` are called at utils/data_handler.py:82, 106 and 108
  but not defined in that file. They are assumed to read and write the text at
  the resolved path (`Handler.ReadText`, `Files.FsState.WriteText`).
- `_get_data_handler` (called at utils/data_manager.py:11) and the `DataManager`
  constructor are not shown in the source. They are assumed to give a handler on
  the same filesystem rooted at the root joined with the sub-folder, and to start
  with an empty registry.
- Manager.Username: a non-string username goes through an abstract `str()`.
  Only `None` and strings are given concrete names.
- Logging, `print` and Streamlit's `st.warning`/`st.error` produce no state and are left out.
- `login_manager`, the pages and the other registry operations are outside the storage core.
- Concurrent sessions sharing one filesystem are not modelled. Each operation runs
  to completion on its own.
