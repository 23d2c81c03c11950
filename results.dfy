/** Outcomes of the renamer's name generation: a value, or the Python
    exception that the original code lets escape. */
module Results {

  datatype Option<T> = None | Some(value: T)

  /** The exceptions name generation can raise. */
  datatype PyError =
    | KeyError(key: string)           // Template.substitute met a placeholder it was given no value for
    | InvalidPlaceholder(offset: nat) // ValueError: '%' followed by none of '%', an identifier, '{identifier}';
                                      // offset is the index just after that '%'
    | ZeroStep                        // ValueError: range() called with step 0

  datatype Result<T> = Ok(value: T) | Err(error: PyError)
}
