/** An optional value: what `find` returns, or what a lookup returns when the
    thing sought may be absent. */
module Options {
  datatype Option<T> = None | Some(value: T)
}
