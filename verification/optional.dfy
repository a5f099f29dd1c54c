/** The usual Some/None datatype, used where a PHP array access may find no entry. */
module Optional {

  datatype Option<+T> = None | Some(value: T)
}
