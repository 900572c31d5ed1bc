/** The Some/None datatype standing in for the C code's nullable pointers and "not found" indices. */
module Optional {

  datatype Option<+T> = None | Some(value: T)
}
