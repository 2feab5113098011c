/** The Java code signals "no result" with null; the model uses Option. */
module Options {

  datatype Option<+T> = None | Some(value: T)

}
