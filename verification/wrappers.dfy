/** The absence signal every resolver of the store uses: a JavaScript
    `undefined`/`null` result is `None`, a record is `Some(record)`. */
module Wrappers {

  datatype Option<+T> = None | Some(value: T)
}
