/** Types shared by every part of the model: bytes, 64-bit words and the usual Option and Result. */
module Common {
  /** One unsigned 8-bit value (`uint8_t`). */
  type Byte = b: int | 0 <= b < 0x100

  /** Number of values of an unsigned 64-bit word; address and size arithmetic wraps modulo this. */
  const TWO_64: int := 0x1_0000_0000_0000_0000

  /** One unsigned 64-bit value (`uint64_t`, and `size_t` on the 64-bit targets). */
  type U64 = a: int | 0 <= a < TWO_64

  datatype Option<+T> = None | Some(value: T)

  datatype Result<+T, +E> = Ok(value: T) | Err(error: E)

  function Min(a: int, b: int): int {
    if a < b then a else b
  }

  function Max(a: int, b: int): int {
    if a < b then b else a
  }

  /** Clock ticks (nanoseconds) in one second. */
  const TICKS: nat := 1_000_000_000

  /** Whole seconds from `since` to `now`, truncated toward zero as `duration_cast` does. */
  function WholeSeconds(since: int, now: int): int {
    if since <= now then (now - since) / TICKS else -((since - now) / TICKS)
  }

  lemma MoreByProduct(a: nat, b: nat, n: nat)
    requires a <= b
    ensures a * n <= b * n
  {
  }

  lemma LessByProduct(a: nat, b: nat, n: nat)
    requires a * n < b * n
    ensures a < b
  {
  }

  /** What has been read so far, followed by the outcome of reading on. */
  function Prefixed<T>(done: seq<T>, r: Option<seq<T>>): Option<seq<T>> {
    if r.None? then None else Some(done + r.value)
  }

  lemma PrefixedByNothing<T>(r: Option<seq<T>>)
    ensures Prefixed([], r) == r
  {
    if r.Some? {
      assert [] + r.value == r.value;
    }
  }

  /** Addition of words, wrapping. */
  function Add(x: U64, y: nat): U64 {
    (x + y) % TWO_64
  }

  lemma AddModulo(total: nat, more: nat)
    ensures (total % TWO_64 + more) % TWO_64 == (total + more) % TWO_64
  {
  }
}
