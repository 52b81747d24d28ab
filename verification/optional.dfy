/** The usual Some/None datatype, used for frames that are dropped and for
    steps that emit no record. */
module Optional {

  datatype Option<+T> = None | Some(value: T)
}
