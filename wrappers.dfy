/** Option and Result values, and the exceptions the dialect raises or lets through. */
module Wrappers {

  datatype Option<+T> = None | Some(value: T)

  /** The Python exceptions that can leave the dialect's operations. */
  datatype Error =
    | NoSuchTable(table: string)                   // sqlalchemy.exc.NoSuchTableError
    | EngineError(operational: bool, message: string)  // raised by the connection, re-raised unchanged
    | TypeError                                    // a regex applied to None, a parser given a non-string
    | AttributeError                               // `.group(0)` on a failed `re.search`
    | KeyError(key: string)                        // a `_type_map[...]` lookup that misses
    | UnboundLocalError                            // `i` read after an empty `enumerate` loop
    | AssertionError(text: string)                 // a failed `assert` in the statement compiler
    | ValueError                                   // HiveArray given an array instance as item type
    | NotImplementedError                          // writing date, timestamp or decimal values
    | FormatError(text: string)                    // a date, timestamp or decimal parser rejected its text

  datatype Result<+T> = Ok(value: T) | Err(error: Error)
}
