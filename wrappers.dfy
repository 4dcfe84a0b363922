/** Optional values and the error path of the host-API entry points: a
    call either hands back a buffer or fails with an error the caller sees. */
module Wrappers {

  datatype Option<T> = None | Some(value: T)

  datatype Result<T, E> = Ok(value: T) | Err(error: E)
}
