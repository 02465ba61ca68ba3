/** Option and result values used in place of nil pointers and error returns. */
module Optional {

  datatype Option<T> = None | Some(value: T)

  /** The three error values declared by the program. Only `Unknown` is
      returned by the modelled operations. `NoSuchTimer` is declared but
      never used. `InputIllegal` is only printed or logged, by the prompt,
      the menu's default branch and the two timer-adding entries. */
  datatype Error = Unknown | NoSuchTimer | InputIllegal

  datatype Result<T> = Success(value: T) | Failure(error: Error)
}
