/** A value that may be absent: a missing e-mail property, a failed lookup,
    or "no match" from a search. */
module Optional {

  datatype Option<+T> = None | Some(value: T)
}
