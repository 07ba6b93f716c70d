/** Shared vocabulary of the buffer model: bytes of the backing store and
    the NULL-or-pointer results of `cirbuf_peek` and `cirbuf_poll`. */
module Bytes {

  /** One octet of the backing store (`unsigned char`). */
  newtype byte = x: int | 0 <= x < 256

  /** A result that is either absent (a NULL pointer) or a value. */
  datatype Option<+T> = None | Some(value: T)
}
