/** Optional values and fallible results, the model's counterparts of Go's
    nil pointers and `(value, error)` returns. Errors carry no payload: the
    source only wraps and propagates them. */
module Wrappers {

  datatype Option<+T> = None | Some(value: T)

  datatype Result<+T> = Ok(value: T) | Fail
}
