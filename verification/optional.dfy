/** An optional value: a row a query may or may not return, a field a message may lack. */
module Optional {

  datatype Option<+T> = None | Some(value: T)
}
