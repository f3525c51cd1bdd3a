/** The "value or nothing" result shared by the iterators, the binding slots and
    the term positions: `None` stands for JavaScript's `undefined`/`false`
    sentinels. */
module Options {

  datatype Option<+T> = None | Some(value: T)
}
