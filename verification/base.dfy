/** Shared vocabulary: bytes, the Option/Result wrappers the Rust code
    returns, and a few sequence helpers used by several components. */
module Base {

  /** A `u8` / `uint8_t`. The CRC does its shifts and exclusive-ors on a
      `bv8` copy. */
  newtype byte = x: int | 0 <= x < 0x100

  datatype Option<+T> = None | Some(value: T)

  datatype Result<+T, +E> = Ok(value: T) | Err(error: E)

  /** Index of the first zero byte of `s`, or `|s|` when there is none:
      Rust's `iter().position(|&b| b == 0).unwrap_or(len)`. */
  function ZeroIndex(s: seq<byte>): (n: nat)
    ensures n <= |s|
    ensures forall i :: 0 <= i < n ==> s[i] != 0
    ensures n < |s| ==> s[n] == 0
  {
    if s == [] then 0
    else if s[0] == 0 then 0
    else 1 + ZeroIndex(s[1..])
  }

  /** The byte sequence holds no NUL, so it survives a C-string round trip. */
  predicate NoNul(s: seq<byte>)
  {
    forall i :: 0 <= i < |s| ==> s[i] != 0
  }

  lemma {:induction false} ZeroIndexOfTerminated(s: seq<byte>, rest: seq<byte>)
    requires NoNul(s)
    ensures ZeroIndex(s + [0] + rest) == |s|
  {
    if s != [] {
      assert (s + [0] + rest)[1..] == s[1..] + [0] + rest;
      ZeroIndexOfTerminated(s[1..], rest);
    }
  }

  /** `part` occurs in `s` starting at index `i`. */
  predicate MatchesAt<T(==)>(s: seq<T>, part: seq<T>, i: int)
  {
    0 <= i && i + |part| <= |s| && s[i..i + |part|] == part
  }

  /** Rust's `str::contains` on a string pattern. */
  predicate Contains<T(==)>(s: seq<T>, part: seq<T>)
  {
    exists i :: 0 <= i <= |s| && MatchesAt(s, part, i)
  }
}
