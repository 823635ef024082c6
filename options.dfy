/** The optional value the source writes as `X | None`. */
module Options {

  datatype Option<+T> = None | Some(value: T)
}
