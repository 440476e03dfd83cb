/** Values shared by every module of the model: optional values and the
    Python exceptions the modelled code raises, turned into an error result. */
module Common {

  /** `X | None` in the source's type hints. */
  datatype Option<T> = None | Some(value: T)

  /** The exceptions raised by the core, by their Python class. */
  datatype Exc =
    | KeyError
    | RuntimeError(message: string)
    | TimeoutError
    | RepoError
    | AttributeError
    | RecursionError

  /** An operation either returns a value or raises one of the exceptions above. */
  datatype Result<T> = Ok(value: T) | Err(error: Exc)

  const OutsideTransaction := "Operation outside of transaction context"
  const TransactionInProgress := "Transaction already in progress"
  const NestedTransaction := "Nested transactions are not supported"
  /** Raised by the interpreter when a dict is resized while being iterated. */
  const DictChangedSize := "dictionary changed size during iteration"
}
