/** The optional result of a lookup that may find nothing (Go's nil *Job). */
module Options {

  datatype Option<T> = None | Some(value: T)

}
