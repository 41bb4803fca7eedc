/** The optional value used where the source has `null` or `NaN`. */
module Options {

  datatype Option<+T> = None | Some(value: T)
}
