/** Shared vocabulary of the kernel model: bytes, and how an operation ends. */
module Common {

  /** An 8-bit unsigned value (`u8`, or a `char` used as a flag or a byte). */
  newtype byte = x: int | 0 <= x < 256

  /** 2^64, for the kernel's `u64`/`usize` fields. */
  const U64_LIMIT: int := 0x1_0000_0000_0000_0000

  /** The outcome of an operation that returns a value: the value, or a
      kernel halt (`PANIC`, or a failed `assert`), with the reason. */
  datatype Result<T> = Ok(value: T) | Halt(reason: string)

  /** The outcome of an operation that returns nothing. */
  datatype Status = Done | Halted(reason: string)

  datatype Option<T> = None | Some(value: T)

  /** `n` zero bytes. */
  function Zeros(n: nat): (z: seq<byte>)
    ensures |z| == n && forall k :: 0 <= k < n ==> z[k] == 0
  {
    seq(n, _ => 0)
  }

  /** A slice of a slice is a slice of the whole. */
  lemma SliceOfSlice<T>(s: seq<T>, lo: nat, hi: nat, a: nat, b: nat)
    requires lo <= hi <= |s| && a <= b <= hi - lo
    ensures s[lo..hi][a..b] == s[lo + a..lo + b]
  {
    var x, y := s[lo..hi][a..b], s[lo + a..lo + b];
    forall j | 0 <= j < |x|
      ensures x[j] == y[j]
    {
    }
  }

  function Min(a: int, b: int): int { if a <= b then a else b }

  function Max(a: int, b: int): int { if a >= b then a else b }
}
