/** The `Optional[...]` references of the source: a missing parent, no active node, no dragged node. */
module Optional {

  datatype Option<T> = None | Some(value: T)
}
