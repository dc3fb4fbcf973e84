/** The optional value returned where the source raises an error. */
module Optional {

  datatype Option<T> = None | Some(value: T)

}
