/** Shared vocabulary of the model: bytes as the integers Python's `bytes` holds, and the
    Option/Result wrappers used for Python's `None` and for raised exceptions. */
module Common {

  /** One element of a Python `bytes` object. */
  type byte = x: int | 0 <= x < 256

  datatype Option<+T> = None | Some(value: T)

  /** `Err` stands for an exception raised by the source; `Ok` for a normal return. */
  datatype Result<+T, +E> = Ok(value: T) | Err(error: E)

  /** True when every character is 7-bit ASCII, so that Python's `str.encode('ascii')` succeeds. */
  predicate IsAscii(s: string)
  {
    forall i :: 0 <= i < |s| ==> s[i] as int < 128
  }

  /** True when every byte is 7-bit ASCII, so that Python's `bytes.decode('ascii')` succeeds. */
  predicate IsAsciiBytes(b: seq<byte>)
  {
    forall i :: 0 <= i < |b| ==> b[i] < 128
  }

  /** `s.encode('ascii')`, defined where it succeeds. */
  function AsciiEncode(s: string): (b: seq<byte>)
    requires IsAscii(s)
    ensures |b| == |s|
    ensures forall i :: 0 <= i < |s| ==> b[i] == s[i] as int
  {
    seq(|s|, i requires 0 <= i < |s| => s[i] as int)
  }

  /** `b.decode('ascii')`, defined where it succeeds. */
  function AsciiDecode(b: seq<byte>): (s: string)
    requires IsAsciiBytes(b)
    ensures |s| == |b|
    ensures forall i :: 0 <= i < |b| ==> s[i] as int == b[i]
  {
    seq(|b|, i requires 0 <= i < |b| => b[i] as char)
  }

  /** Number of occurrences of `x` in `s` (Python's `count`). */
  function Count<T(==)>(s: seq<T>, x: T): (n: nat)
    ensures n <= |s|
    ensures n == 0 <==> x !in s
  {
    if s == [] then 0 else Count(s[..|s| - 1], x) + (if s[|s| - 1] == x then 1 else 0)
  }
}
