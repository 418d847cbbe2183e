/** Value shapes shared by every parser: Python's None-or-value, an operation
    that may raise IndexError, and the (headers, rows) pair the parsers return. */
module Tables {

  /** A cell or field that Python leaves as `None` when nothing was found. */
  datatype Option<+T> = None | Some(value: T)

  /** The outcome of a parser that indexes a list without checking its length:
      either its value, or the IndexError Python would raise. */
  datatype Result<+T> = Ok(value: T) | IndexError

  /** The `(headers, data)` pair every listing parser returns. */
  datatype Table<+R> = Table(headers: seq<string>, rows: seq<R>)
}
