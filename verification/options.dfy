/**
 An optional value, used for "the key path leads nowhere", for a PHP value
 that may be null, and for "the handler was not invoked".
 */
module Options {

  datatype Option<+T> = None | Some(value: T)
}
