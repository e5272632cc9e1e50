/** The result of a run of steps: None once a step is not enabled. */
module Options {
  datatype Option<T> = None | Some(value: T)
}
