/** Optional values, used wherever the source has `None` or a missing key. */
module Options {

  datatype Option<T> = None | Some(value: T)
}
