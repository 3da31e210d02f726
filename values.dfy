/** The values the storage layer moves between memory and files, the errors
    it raises, and the library calls it makes but whose behaviour is not part
    of this model. */
module Values {

  datatype Option<T> = None | Some(value: T)

  datatype Result<T, E> = Ok(value: T) | Err(error: E)

  /** One scalar of a table. */
  datatype Cell = Text(s: string) | Number(n: int) | Missing

  /** A pandas DataFrame: its column labels and its rows. */
  datatype Table = Table(columns: seq<string>, rows: seq<seq<Cell>>) {
    /** `DataFrame.empty`: true when either axis has length zero. */
    predicate IsEmpty() {
      |columns| == 0 || |rows| == 0
    }
  }

  /** A value `json.loads` can produce; Python's `None` is `JNull`. */
  datatype Json =
    | JNull
    | JBool(b: bool)
    | JNumber(n: int)
    | JString(s: string)
    | JList(items: seq<Json>)
    | JDict(fields: map<string, Json>)

  /** A Python value handed to or returned by the handler: a DataFrame, or a
      plain value (dict, list, string, number, boolean or `None`). */
  datatype Value = Frame(table: Table) | Data(json: Json) {
    predicate IsNone() {
      this == Data(JNull)
    }
  }

  /** The exceptions `pd.read_csv` raises on unreadable text: `EmptyDataError`
      for text with no columns at all, and `OtherCsvError` standing for every
      other exception it raises (`ParserError`, a decoding error, ...). */
  datatype CsvError = EmptyDataError | OtherCsvError

  datatype Error =
    | FileNotFound(path: string)          // FileNotFoundError from load
    | NotAFile(path: string)              // opening an existing directory for reading
    | UnsupportedExtension(ext: string)   // ValueError from load
    | UnsupportedContent(ext: string)     // ValueError from save
    | CsvFailed(cause: CsvError)          // raised by pd.read_csv
    | JsonFailed                          // json.JSONDecodeError
    | NotLoggedIn                         // ValueError from load_user_data
    | NoEmptyAttribute                    // AttributeError: a non-DataFrame has no `.empty`

  /** Outcome of an operation that returns nothing or raises. */
  datatype Outcome = Done | Failed(error: Error)

  /** The library calls the core depends on, as uninterpreted parameters:
      `DataFrame.to_csv(index=False)`, `pd.read_csv`, `json.dumps(indent=4)`,
      `json.loads`, and `str()` as used when formatting a value into a name. */
  datatype Foreign = Foreign(
    toCsv: Table -> string,
    readCsv: string -> Result<Table, CsvError>,
    dumps: Json -> string,
    loads: string -> Option<Json>,
    str: Value -> string)
}
