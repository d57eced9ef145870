/** An optional value: the result of a search over the segments, which may
    find nothing. */
module Options {

  datatype Option<+T> = None | Some(value: T)
}
