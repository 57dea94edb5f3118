/** An optional value, used where the service's code either produces a value or raises. */
module Options {

  datatype Option<+T> = None | Some(value: T)
}
