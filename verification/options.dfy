/** The optional value used for the allocator's "null" results and for
    lookups that may fail. */
module Options {

  datatype Option<T> = None | Some(value: T)
}
