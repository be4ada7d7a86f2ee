/** The optional-value type used for fields that a YAML mapping may leave out. */
module Options {

  datatype Option<+T> = None | Some(value: T)

}
