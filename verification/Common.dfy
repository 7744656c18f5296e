/** Value types shared by the models. */
module Common {

  datatype Option<+T> = None | Some(value: T)

  datatype Result<+T, +E> = Ok(value: T) | Err(error: E)

  /** One octet of a serialized transaction, key or account. */
  type byte = b: int | 0 <= b < 256

  type bytes = seq<byte>

  const TWO32: nat := 0x1_0000_0000

  function Min(a: int, b: int): int {
    if a < b then a else b
  }

  function Max(a: int, b: int): int {
    if a < b then b else a
  }

  /** Element `i`, or `default` past the end: Rust's `get(i).copied().unwrap_or(..)` and JavaScript's `a[i] ?? ..`. */
  function GetOr<T>(s: seq<T>, i: nat, default: T): T {
    if i < |s| then s[i] else default
  }

  function Repeat<T>(x: T, n: nat): (s: seq<T>)
    ensures |s| == n && forall k | 0 <= k < n :: s[k] == x
  {
    seq(n, _ => x)
  }
}
