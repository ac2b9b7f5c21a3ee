/** A value that may be absent: stands for a Java reference that may be null. */
module Optional {

  datatype Option<T> = None | Some(value: T)
}
