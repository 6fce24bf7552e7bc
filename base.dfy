/** Shared vocabulary of the port scanner model: an optional value, Rust's
    unsigned 16-bit integer and the highest TCP port number. */
module Base {

  datatype Option<+T> = None | Some(value: T)

  /** Rust's `u16`; arithmetic on it is written out explicitly where it matters. */
  newtype u16 = x: int | 0 <= x < 0x1_0000

  /** The largest port number probed (`MAX` in src/main.rs). */
  const MAX: int := 65535
}
