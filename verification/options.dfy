/** The optional value used for the key-value store slot, the date parser's
    result and the timer handle. */
module Options {

  datatype Option<+T> = None | Some(value: T)
}
