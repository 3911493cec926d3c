/** CRC-32/CKSUM, the checksum of the POSIX `cksum` utility without its length
    suffix: polynomial 0x04C11DB7, register initialised to 0, bits processed
    most significant first (neither input nor output reflected), and the final
    register complemented (xorout 0xFFFFFFFF). */
module Crc32 {
  import opened Common

  const POLY: bv32 := 0x04C1_1DB7
  const XOR_OUT: bv32 := 0xFFFF_FFFF

  /** One bit of long division by the polynomial. */
  function Step(reg: bv32): bv32 {
    if reg & 0x8000_0000 != 0 then (reg << 1) ^ POLY else reg << 1
  }

  /** Four bits of the division. */
  function Shift4(reg: bv32): bv32 {
    Step(Step(Step(Step(reg))))
  }

  /** A byte lined up with the top of the register. */
  function TopByte(b: byte): bv32 {
    (b as bv32) << 24
  }

  /** Feeds one byte into the register, top bit first. */
  function FeedByte(reg: bv32, b: byte): bv32 {
    Shift4(Shift4(reg ^ TopByte(b)))
  }

  /** The register after feeding `data` from its initial value 0. */
  function Register(data: seq<byte>): bv32
    decreases |data|
  {
    if |data| == 0 then 0
    else FeedByte(Register(data[..|data| - 1]), data[|data| - 1])
  }

  /** The checksum as the u32 the checksum routine returns. */
  function Checksum(data: seq<byte>): u32
  {
    (Register(data) ^ XOR_OUT) as int
  }

  /** The checksum of `data` followed by one more byte extends the register of
      `data` by that byte, so the checksum can be computed incrementally. */
  lemma ChecksumAppend(data: seq<byte>, b: byte)
    ensures Register(data + [b]) == FeedByte(Register(data), b)
  {
    assert (data + [b])[..|data|] == data;
  }

  lemma RegisterSnoc(p: seq<byte>, b: byte, q: seq<byte>, rp: bv32, r: bv32)
    requires q == p + [b] && Register(p) == rp && FeedByte(rp, b) == r
    ensures Register(q) == r
  {
    ChecksumAppend(p, b);
  }

  // ---- a single-byte change always changes the checksum ----

  /** Undoes one division step: the low bit of the result says whether the
      polynomial was subtracted, and the top bit shifted out comes back. */
  function Unstep(r: bv32): bv32 {
    if r & 1 != 0 then ((r ^ POLY) >> 1) | 0x8000_0000 else r >> 1
  }

  lemma TopInverse(x: bv32)
    requires x & 0x8000_0000 != 0
    ensures Unstep((x << 1) ^ POLY) == x
  {
  }

  lemma LowInverse(x: bv32)
    requires x & 0x8000_0000 == 0
    ensures Unstep(x << 1) == x
  {
  }

  /** One division step loses nothing: the polynomial's constant term puts
      the shifted-out top bit into the low bit of the result. */
  lemma StepInverse(x: bv32)
    ensures Unstep(Step(x)) == x
  {
    if x & 0x8000_0000 != 0 {
      TopInverse(x);
    } else {
      LowInverse(x);
    }
  }

  /** Undoes four division steps. */
  function Unshift4(r: bv32): bv32 {
    Unstep(Unstep(Unstep(Unstep(r))))
  }

  lemma Shift4Inverse(x: bv32)
    ensures Unshift4(Shift4(x)) == x
  {
    StepInverse(Step(Step(Step(x))));
    StepInverse(Step(Step(x)));
    StepInverse(Step(x));
    StepInverse(x);
  }

  /** Equal registers after a byte mean equal registers before the division. */
  lemma FeedByteUndone(r1: bv32, b1: byte, r2: bv32, b2: byte)
    ensures FeedByte(r1, b1) == FeedByte(r2, b2) ==> r1 ^ TopByte(b1) == r2 ^ TopByte(b2)
  {
    Shift4Inverse(Shift4(r1 ^ TopByte(b1)));
    Shift4Inverse(r1 ^ TopByte(b1));
    Shift4Inverse(Shift4(r2 ^ TopByte(b2)));
    Shift4Inverse(r2 ^ TopByte(b2));
  }

  /** With one side of an exclusive or fixed, the other side is determined. */
  lemma XorSides(r1: bv32, t1: bv32, r2: bv32, t2: bv32)
    ensures r1 ^ t1 == r2 ^ t2 && (r1 == r2 || t1 == t2) ==> r1 == r2 && t1 == t2
  {
  }

  lemma ByteBits(b: byte)
    ensures b as bv32 == (b as bv8) as bv32 && (b as bv8) as int == b
  {
  }

  /** A byte lined up with the top of the register is recoverable. */
  lemma TopByteInjective(b1: byte, b2: byte)
    ensures TopByte(b1) == TopByte(b2) ==> b1 == b2
  {
    ByteBits(b1);
    ByteBits(b2);
  }

  /** From the same register, two different bytes leave different registers,
      and the same byte sends different registers to different registers. */
  lemma FeedByteInjective(r1: bv32, b1: byte, r2: bv32, b2: byte)
    ensures FeedByte(r1, b1) == FeedByte(r2, b2) && (r1 == r2 || b1 == b2) ==> r1 == r2 && b1 == b2
  {
    FeedByteUndone(r1, b1, r2, b2);
    XorSides(r1, TopByte(b1), r2, TopByte(b2));
    TopByteInjective(b1, b2);
  }

  /** Feeding the last byte keeps two registers apart when exactly one of the
      earlier registers and the last bytes differ. */
  lemma LastByteKeepsApart(a: seq<byte>, b: seq<byte>)
    requires |a| == |b| > 0
    requires var n := |a| - 1;
      (Register(a[..n]) != Register(b[..n]) && a[n] == b[n])
      || (Register(a[..n]) == Register(b[..n]) && a[n] != b[n])
    ensures Register(a) != Register(b)
  {
    var n := |a| - 1;
    FeedByteInjective(Register(a[..n]), a[n], Register(b[..n]), b[n]);
  }

  /** Two byte strings of the same length that differ in exactly one byte
      leave different registers. */
  lemma {:induction false} RegisterOneByteDiffers(a: seq<byte>, b: seq<byte>, k: nat)
    requires |a| == |b| && k < |a| && a[k] != b[k]
    requires forall i :: 0 <= i < |a| && i != k ==> a[i] == b[i]
    ensures Register(a) != Register(b)
    decreases |a|
  {
    var n := |a| - 1;
    if k < n {
      RegisterOneByteDiffers(a[..n], b[..n], k);
    } else {
      assert a[..n] == b[..n];
    }
    LastByteKeepsApart(a, b);
  }

  lemma U32RoundTrip(x: bv32)
    ensures (x as int) as bv32 == x
  {
  }

  /** Any corruption confined to a single byte of the data (in particular any
      single flipped bit) changes the checksum, so the receiver's comparison
      reports it. */
  lemma SingleByteErrorDetected(a: seq<byte>, b: seq<byte>, k: nat)
    requires |a| == |b| && k < |a| && a[k] != b[k]
    requires forall i :: 0 <= i < |a| && i != k ==> a[i] == b[i]
    ensures Checksum(a) != Checksum(b)
  {
    RegisterOneByteDiffers(a, b, k);
    U32RoundTrip(Register(a) ^ XOR_OUT);
    U32RoundTrip(Register(b) ^ XOR_OUT);
  }

  // ---- the catalogue check value ----

  /** The register after each digit of the check string "123456789". */
  lemma CheckSteps()
    ensures FeedByte(0, 0x31) == 0xD0F3_7027
    ensures FeedByte(0xD0F3_7027, 0x32) == 0x3F5B_3A17
    ensures FeedByte(0x3F5B_3A17, 0x33) == 0x6E36_8C64
    ensures FeedByte(0x6E36_8C64, 0x34) == 0x6191_19D1
    ensures FeedByte(0x6191_19D1, 0x35) == 0xFA8A_0CDB
    ensures FeedByte(0xFA8A_0CDB, 0x36) == 0xE28A_D0FD
    ensures FeedByte(0xE28A_D0FD, 0x37) == 0x8C8E_DD82
    ensures FeedByte(0x8C8E_DD82, 0x38) == 0x20E7_79A2
    ensures FeedByte(0x20E7_79A2, 0x39) == 0x89A1_897F
  {
  }

  /** The catalogue check value of CRC-32/CKSUM: the nine ASCII digits
      "123456789" give 0x765E7680. */
  lemma CheckValue(digits: seq<byte>)
    requires digits == [0x31, 0x32, 0x33, 0x34, 0x35, 0x36, 0x37, 0x38, 0x39]
    ensures Checksum(digits) == 0x765E_7680
  {
    CheckSteps();
    RegisterSnoc([], 0x31, [0x31], 0, 0xD0F3_7027);
    RegisterSnoc([0x31], 0x32, [0x31, 0x32], 0xD0F3_7027, 0x3F5B_3A17);
    RegisterSnoc([0x31, 0x32], 0x33, [0x31, 0x32, 0x33], 0x3F5B_3A17, 0x6E36_8C64);
    RegisterSnoc([0x31, 0x32, 0x33], 0x34, [0x31, 0x32, 0x33, 0x34], 0x6E36_8C64, 0x6191_19D1);
    RegisterSnoc([0x31, 0x32, 0x33, 0x34], 0x35, [0x31, 0x32, 0x33, 0x34, 0x35], 0x6191_19D1, 0xFA8A_0CDB);
    RegisterSnoc([0x31, 0x32, 0x33, 0x34, 0x35], 0x36, [0x31, 0x32, 0x33, 0x34, 0x35, 0x36], 0xFA8A_0CDB, 0xE28A_D0FD);
    RegisterSnoc([0x31, 0x32, 0x33, 0x34, 0x35, 0x36], 0x37, [0x31, 0x32, 0x33, 0x34, 0x35, 0x36, 0x37], 0xE28A_D0FD, 0x8C8E_DD82);
    RegisterSnoc([0x31, 0x32, 0x33, 0x34, 0x35, 0x36, 0x37], 0x38, [0x31, 0x32, 0x33, 0x34, 0x35, 0x36, 0x37, 0x38], 0x8C8E_DD82, 0x20E7_79A2);
    RegisterSnoc([0x31, 0x32, 0x33, 0x34, 0x35, 0x36, 0x37, 0x38], 0x39, digits, 0x20E7_79A2, 0x89A1_897F);
  }
}
