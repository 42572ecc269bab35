/** Values shared by every component: optional values, Go's `uint64` and instants. */
module Basics {

  datatype Option<+T> = None | Some(value: T)

  datatype Result<+T, +E> = Ok(value: T) | Err(error: E)

  /** An instant: nanoseconds since Go's zero time (1 January of year 1, UTC). */
  type Time = nat

  /** The instant for which Go's `IsZero` holds. */
  const ZERO_TIME: Time := 0

  const MINUTE: nat := 60_000_000_000

  const UINT64_MODULUS: nat := 0x1_0000_0000_0000_0000

  type uint64 = n: nat | n < UINT64_MODULUS

  /** `n + 1` on `uint64`, which wraps around to 0. */
  function Increment(n: uint64): (r: uint64)
    ensures if n == 0xFFFF_FFFF_FFFF_FFFF then r == 0 else r == n + 1
  {
    (n + 1) % UINT64_MODULUS
  }

  function Lookup<K, V>(m: map<K, V>, k: K): Option<V> {
    if k in m then Some(m[k]) else None
  }
}
