/** An optional value: `Some` when a lookup found something or a handler
    emitted a value, `None` when it did not. */
module Options {

  datatype Option<+T> = None | Some(value: T)

}
