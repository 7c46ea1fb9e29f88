/** The optional value used for the record model's optional fields and for lookups that may miss. */
module Optional {

  datatype Option<+T> = None | Some(value: T)
}
