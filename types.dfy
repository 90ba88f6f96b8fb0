/** Fixed-width integer types of the C code and small shared helpers. */
module Types {
  /** An `unsigned char`. */
  type byte = x: int | 0 <= x < 0x100
  /** A value that fits in 16 bits (the hints word). */
  type u16 = x: int | 0 <= x < 0x1_0000
  /** An `unsigned int` on the platforms the library targets (32 bits). */
  type u32 = x: int | 0 <= x < 0x1_0000_0000

  datatype Option<T> = None | Some(value: T)

  /** `n` NUL characters: what `memset (field, 0x00, n)` or a `= {0}` initialiser leaves. */
  function Zeros(n: nat): (z: seq<char>)
    ensures |z| == n
    ensures forall k :: 0 <= k < n ==> z[k] == '\0'
  {
    seq(n, _ => '\0')
  }

  /** The first `n` elements of `s`, or all of `s` when it is shorter. */
  function Take<T>(s: seq<T>, n: nat): (t: seq<T>)
    ensures t <= s
    ensures |t| == if |s| < n then |s| else n
  {
    if |s| <= n then s else s[..n]
  }
}
