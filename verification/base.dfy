/** Values shared by the whole model: bytes as a Uint8Array holds them, optional values,
    results, and the few JavaScript conversions the client relies on. */
module Base {

  /** One element of a Uint8Array. */
  type byte = x: int | 0 <= x < 256

  /** A CRC-16 value, as the checksum library returns it. */
  type Word16 = x: int | 0 <= x < 0x1_0000

  datatype Option<+T> = None | Some(value: T)

  datatype Result<+T, +E> = Success(value: T) | Failure(error: E)

  const TwoTo31: int := 0x8000_0000
  const TwoTo32: int := 0x1_0000_0000

  function Min(a: int, b: int): int { if a < b then a else b }

  /** ECMAScript ToUint8: the byte a Uint8Array stores when an integer is written into it. */
  function ToUint8(x: int): (b: byte)
    ensures (x - b) % 256 == 0
    ensures 0 <= x < 256 ==> b == x
  {
    x % 256
  }

  /** `(b0 << 24) | (b1 << 16) | (b2 << 8) | b3` under JavaScript's signed 32-bit
      bitwise operators: the big-endian word, read back as a two's-complement int32. */
  function Int32BE(b0: byte, b1: byte, b2: byte, b3: byte): (t: int)
    ensures -TwoTo31 <= t < TwoTo31
    ensures (t - (b0 * 0x100_0000 + b1 * 0x1_0000 + b2 * 0x100 + b3)) % TwoTo32 == 0
    ensures t < 0 <==> b0 >= 128
  {
    var u := b0 * 0x100_0000 + b1 * 0x1_0000 + b2 * 0x100 + b3;
    if u >= TwoTo31 then u - TwoTo32 else u
  }

  /** `s[i]` on a Uint8Array: undefined outside the array. */
  function At(s: seq<byte>, i: int): (r: Option<byte>)
    ensures r.Some? <==> 0 <= i < |s|
    ensures r.Some? ==> r.value == s[i]
  {
    if 0 <= i < |s| then Some(s[i]) else None
  }

  /** `s[i]` used as an operand of a bitwise operator: undefined converts to 0. */
  function ByteOrZero(s: seq<byte>, i: int): (b: byte)
    ensures At(s, i).Some? ==> b == At(s, i).value
    ensures At(s, i).None? ==> b == 0
  {
    if 0 <= i < |s| then s[i] else 0
  }

  /** `s.slice(start, end)` on a Uint8Array or a string, for non-negative bounds: clamped to
      the end, empty when reversed. */
  function Slice<T>(s: seq<T>, start: nat, end: nat): (r: seq<T>)
    ensures |r| == if end <= start || |s| <= start then 0 else Min(end, |s|) - start
    ensures forall i :: 0 <= i < |r| ==> r[i] == s[start + i]
    ensures start <= end <= |s| ==> r == s[start..end]
  {
    if end <= start || |s| <= start then [] else s[start..Min(end, |s|)]
  }

  /** A fresh Uint8Array of length n: every element is 0. */
  function Zeros(n: nat): (r: seq<byte>)
    ensures |r| == n && forall i :: 0 <= i < n ==> r[i] == 0
  {
    seq(n, _ => 0)
  }

  /** Array.prototype.reverse, as a value. */
  function Reverse<T>(s: seq<T>): (r: seq<T>)
    ensures |r| == |s|
    ensures forall i :: 0 <= i < |s| ==> r[i] == s[|s| - 1 - i]
  {
    if s == [] then [] else Reverse(s[1..]) + [s[0]]
  }
}
