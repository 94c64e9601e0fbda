/** An optional value: JavaScript's `null`/`undefined`, Python's `None`, or a
    lookup that found nothing. */
module Options {
  datatype Option<T> = None | Some(value: T)
}
