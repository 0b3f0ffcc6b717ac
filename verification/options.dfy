/** The optional value returned by every first/last query: absence is a normal
    outcome, never an error. */
module Options {

  datatype Option<+T> = None | Some(value: T)
}
