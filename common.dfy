/** Machine integer ranges, the Option/Result wrappers and the little-endian
    32-bit layout shared by the wire format and the device models. */
module Common {

  type byte = x: int | 0 <= x < 0x100
  type u32 = x: int | 0 <= x < 0x1_0000_0000
  type i32 = x: int | -0x8000_0000 <= x < 0x8000_0000
  type u64 = x: int | 0 <= x < 0x1_0000_0000_0000_0000
  type i64 = x: int | -0x8000_0000_0000_0000 <= x < 0x8000_0000_0000_0000

  const U32_MAX: u32 := 0xFFFF_FFFF

  datatype Option<+T> = None | Some(value: T) {
    predicate IsFailure() { None? }
    function PropagateFailure<U>(): Option<U> requires None? { None }
    function Extract(): T requires Some? { value }
  }

  datatype Result<+T, +E> = Ok(value: T) | Err(error: E)

  /** The four bytes of `x`, least significant first. */
  function LeU32(x: u32): (b: seq<byte>)
    ensures |b| == 4
  {
    var q1 := x / 0x100;
    var q2 := q1 / 0x100;
    var q3 := q2 / 0x100;
    [x % 0x100, q1 % 0x100, q2 % 0x100, q3]
  }

  /** Reads a little-endian u32 from the front of `s`; the rest follows. */
  function ParseU32(s: seq<byte>): (r: Option<(u32, seq<byte>)>)
    ensures r.Some? <==> |s| >= 4
    ensures r.Some? ==> r.value.1 == s[4..]
  {
    if |s| < 4 then None
    else Some((s[0] as int + 0x100 * (s[1] as int + 0x100 * (s[2] as int + 0x100 * s[3] as int)), s[4..]))
  }

  lemma ParseLeU32(x: u32, rest: seq<byte>)
    ensures ParseU32(LeU32(x) + rest) == Some((x, rest))
  {
    var s := LeU32(x) + rest;
    assert s[4..] == rest;
  }

  /** Two's complement: an i32 travels as the u32 with the same bits. */
  function I32Bits(y: i32): (u: u32)
    ensures (u < 0x8000_0000) == (y >= 0)
  {
    if y < 0 then y + 0x1_0000_0000 else y
  }

  function BitsI32(u: u32): (y: i32)
    ensures I32Bits(y) == u
  {
    if u >= 0x8000_0000 then u - 0x1_0000_0000 else u
  }

  lemma I32BitsRoundTrip(y: i32)
    ensures BitsI32(I32Bits(y)) == y
  {
  }
}
