/** An optional value: a null pointer, an uninitialised member or "nothing
    was selected". */
module Options {

  datatype Option<+T> = None | Some(value: T)
}
