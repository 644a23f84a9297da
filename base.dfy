/** Shared datatypes: optional values, the two failures of the script the model represents, and results. */
module Base {

  datatype Option<T> = None | Some(value: T)

  /** The two exceptions of the script the model represents. */
  datatype Error =
    | InvalidLiteral(text: string)      // `int(text)` raised ValueError
    | MissingCore(socket: int, core: int) // `core_map[(socket, core)]` raised KeyError

  datatype Result<T> = Ok(value: T) | Err(error: Error)
}
