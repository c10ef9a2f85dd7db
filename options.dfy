/** The optional value used for slots that may be unset and for lookups that may miss. */
module Options {

  datatype Option<+T> = None | Some(value: T)
}
