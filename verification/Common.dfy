/** Types and small facts shared by every model in this project. */
module Common {

  newtype byte = b: int | 0 <= b < 256

  /** Byte strings: keys, values, transactions, encoded messages, UTF-8 text. */
  type Bytes = seq<byte>

  datatype Option<+T> = None | Some(value: T)

  datatype Result<+T, +E> = Ok(value: T) | Err(error: E)

  const U64_MAX: nat := 0xffff_ffff_ffff_ffff

  function Min(a: int, b: int): int {
    if a <= b then a else b
  }

  function Max(a: int, b: int): int {
    if a <= b then b else a
  }

  /** `saturating_sub` on unsigned integers. */
  function SubSat(a: nat, b: nat): nat {
    if a <= b then 0 else a - b
  }

  /** `u64::saturating_add`. */
  function AddSatU64(a: nat, b: nat): nat {
    if a + b > U64_MAX then U64_MAX else a + b
  }

  function Repeat(b: byte, n: nat): (r: Bytes)
    ensures |r| == n && (forall i :: 0 <= i < n ==> r[i] == b)
  {
    seq(n, _ => b)
  }
}
