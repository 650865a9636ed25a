/** A value that may be absent: the model's stand-in for a Java `null`
    result and for a parse that throws. */
module Optional {

  datatype Option<+T> = None | Some(value: T)
}
