/** The frames of the serial link: a serialised payload followed by the
    CRC-32/CKSUM of exactly the payload bytes as a little-endian u32, the whole
    COBS-encoded so that the single zero byte at its end delimits it. */
module Framing {
  import opened Common
  import Crc32
  import Cobs
  import opened Messages

  /** The checksum that goes on the wire: in test mode one more than the true
      one, to exercise the receiver's fault path. The increment is a u32
      addition that would overflow on a checksum of u32::MAX, so test mode
      requires a smaller one. */
  function WireCrc(ser: seq<byte>, testMode: bool): (c: u32)
    requires testMode ==> Crc32.Checksum(ser) < U32_MAX
    ensures c != Crc32.Checksum(ser) <==> testMode
  {
    var crc := Crc32.Checksum(ser);
    if testMode then crc + 1 else crc
  }

  function TransmittedCrc(p: Payload, testMode: bool): (c: u32)
    requires testMode ==> Crc32.Checksum(Serialize(p)) < U32_MAX
    ensures c != Crc32.Checksum(Serialize(p)) <==> testMode
  {
    WireCrc(Serialize(p), testMode)
  }

  /** The bytes before COBS encoding: payload then checksum. */
  function RawFrame(p: Payload, testMode: bool): (raw: seq<byte>)
    requires testMode ==> Crc32.Checksum(Serialize(p)) < U32_MAX
    ensures |raw| == |Serialize(p)| + 4
    ensures raw[..|Serialize(p)|] == Serialize(p)
  {
    Serialize(p) + LeU32(TransmittedCrc(p, testMode))
  }

  /** What `serialize_crc_cobs` returns: the encoded frame. */
  function Frame(p: Payload, testMode: bool): seq<byte>
    requires testMode ==> Crc32.Checksum(Serialize(p)) < U32_MAX
  {
    Cobs.Encode(RawFrame(p, testMode))
  }

  /** The buffer after `decode_in_place`: the decoded bytes over its front,
      the rest of the buffer as it was. */
  function DecodedInPlace(buf: seq<byte>): (b: seq<byte>)
    requires Cobs.Decode(buf).Some?
    ensures |b| == |buf|
    ensures b[..|Cobs.Decode(buf).value|] == Cobs.Decode(buf).value
  {
    var d := Cobs.Decode(buf).value;
    d + buf[|d|..]
  }

  /** The three `unwrap`s of `deserialize_crc_cobs` succeed: the buffer holds a
      COBS frame, its decoded bytes start with a payload of the expected kind,
      and four bytes remain after that payload for the checksum. */
  predicate FrameDecodes(k: Kind, buf: seq<byte>) {
    Cobs.Decode(buf).Some?
    && Deserialize(k, Cobs.Decode(buf).value).Some?
    && Deserialize(k, Cobs.Decode(buf).value).value.1 + 4 <= |buf|
  }

  /** `deserialize_crc_cobs`: the payload, or BitFlipData when the checksum
      read after the payload differs from the checksum of the payload bytes.
      The checksum is read from the buffer as decoding left it, not from the
      decoded bytes alone. */
  function Unframe(k: Kind, buf: seq<byte>): (r: Result<Payload, Faults>)
    requires FrameDecodes(k, buf)
    ensures r.Ok? ==> KindOf(r.value) == k
    ensures r.Ok? ==> r.value == Deserialize(k, Cobs.Decode(buf).value).value.0
  {
    var d := Cobs.Decode(buf).value;
    var (t, used) := Deserialize(k, d).value;
    var b := DecodedInPlace(buf);
    var (crc, _) := ParseU32(b[used..]).value;
    if crc != Crc32.Checksum(b[..used]) then Err(BitFlipData) else Ok(t)
  }

  /** The frame ends in its terminator and has no other zero, which is what
      both receivers wait for. */
  lemma FrameDelimited(p: Payload, testMode: bool)
    requires testMode ==> Crc32.Checksum(Serialize(p)) < U32_MAX
    ensures var f := Frame(p, testMode);
      |f| >= 2 && f[|f| - 1] == 0 && forall i :: 0 <= i < |f| - 1 ==> f[i] != 0
  {
    Cobs.EncodeDelimited(RawFrame(p, testMode));
  }

  /** The frame is the raw bytes plus one code byte per started 254-byte block
      plus the terminator. */
  lemma FrameLength(p: Payload, testMode: bool)
    requires testMode ==> Crc32.Checksum(Serialize(p)) < U32_MAX
    ensures var n := |Serialize(p)| + 4;
      n + 2 <= |Frame(p, testMode)| <= n + 2 + n / Cobs.MAX_RUN
  {
    Cobs.BlocksLength(RawFrame(p, testMode));
  }

  /** Decoding a COBS frame of payload bytes `ser` and a checksum `crc`,
      whatever follows it in the buffer: the payload is read back, and the
      result is BitFlipData exactly when `crc` is not the checksum of `ser`. */
  lemma UnframeRaw(k: Kind, ser: seq<byte>, crc: u32, t: Payload, rest: seq<byte>)
    requires Deserialize(k, ser + LeU32(crc)) == Some((t, |ser|))
    ensures FrameDecodes(k, Cobs.Encode(ser + LeU32(crc)) + rest)
    ensures Unframe(k, Cobs.Encode(ser + LeU32(crc)) + rest)
      == if crc == Crc32.Checksum(ser) then Ok(t) else Err(BitFlipData)
  {
    var raw := ser + LeU32(crc);
    var buf := Cobs.Encode(raw) + rest;
    Cobs.DecodeEncode(raw, rest);
    Cobs.BlocksLength(raw);
    var b := DecodedInPlace(buf);
    assert b[..|raw|] == raw;
    SplitPrefix(b, ser, LeU32(crc));
    ParseLeU32(crc, b[|ser| + 4..]);
  }

  /** A receiver that stores the bytes of frame `f` before its terminator
      over the start of `buf`, and then a zero after them, holds `f`
      followed by the rest of `buf`. */
  lemma StoredFrame(buf: seq<byte>, f: seq<byte>)
    requires |f| >= 1 && f[|f| - 1] == 0 && |f| <= |buf|
    ensures var run := f[..|f| - 1];
      |run| < |buf[..0] + run + buf[|run|..]|
      && (buf[..0] + run + buf[|run|..])[|run| := 0] == f + buf[|f|..]
  {
  }

  /** A buffer that starts with `x + y` starts with `x`, and after `x` comes
      `y` and then the rest of the buffer. */
  lemma SplitPrefix(b: seq<byte>, x: seq<byte>, y: seq<byte>)
    requires |x| + |y| <= |b| && b[..|x| + |y|] == x + y
    ensures b[..|x|] == x && b[|x|..] == y + b[|x| + |y|..]
  {
    assert b[..|x|] == b[..|x| + |y|][..|x|];
    assert b[|x|..|x| + |y|] == b[..|x| + |y|][|x|..];
  }

  /** A frame made by `Frame` is read back as its payload, or as BitFlipData
      when it was made in test mode. */
  lemma UnframeFrame(p: Payload, testMode: bool, rest: seq<byte>)
    requires testMode ==> Crc32.Checksum(Serialize(p)) < U32_MAX
    ensures FrameDecodes(KindOf(p), Frame(p, testMode) + rest)
    ensures Unframe(KindOf(p), Frame(p, testMode) + rest)
      == if testMode then Err(BitFlipData) else Ok(p)
  {
    var crc := TransmittedCrc(p, testMode);
    DeserializeSerialize(p, LeU32(crc));
    UnframeRaw(KindOf(p), Serialize(p), crc, p, rest);
  }

  /** Round trip: deserialising what was serialised outside test mode gives
      the value back. */
  lemma RoundTrip(p: Payload, rest: seq<byte>)
    ensures FrameDecodes(KindOf(p), Frame(p, false) + rest)
    ensures Unframe(KindOf(p), Frame(p, false) + rest) == Ok(p)
  {
    UnframeFrame(p, false, rest);
  }

  /** Fault injection: a frame sent in test mode is always rejected. */
  lemma TestModeDetected(p: Payload, rest: seq<byte>)
    requires Crc32.Checksum(Serialize(p)) < U32_MAX
    ensures FrameDecodes(KindOf(p), Frame(p, true) + rest)
    ensures Unframe(KindOf(p), Frame(p, true) + rest) == Err(BitFlipData)
  {
    UnframeFrame(p, true, rest);
  }

  /** Copies `data` into `a` from index `at` on; nothing else changes. */
  method WriteAt(a: array<byte>, at: nat, data: seq<byte>)
    requires at + |data| <= a.Length
    modifies a
    ensures a[..] == old(a[..at]) + data + old(a[at + |data|..])
    ensures a[..at] == old(a[..at]) && a[at..at + |data|] == data
    ensures a[at + |data|..] == old(a[at + |data|..])
  {
    var i := 0;
    while i < |data|
      invariant 0 <= i <= |data|
      invariant a[..at] == old(a[..at])
      invariant a[at..at + i] == data[..i]
      invariant a[at + i..] == old(a[at + i..])
    {
      a[at + i] := data[i];
      i := i + 1;
      assert a[at..at + i] == a[at..at + i - 1] + [data[i - 1]];
      assert data[..i] == data[..i - 1] + [data[i - 1]];
    }
    assert a[..] == a[..at] + a[at..at + |data|] + a[at + |data|..];
  }

  /** `serialize_crc_cobs`: serialises `p` at the front of `outBuf`, then
      frames those bytes there. The buffer must be large enough for each step
      (the source unwraps them). */
  method SerializeCrcCobs(p: Payload, outBuf: array<byte>, testMode: bool) returns (n: nat)
    requires testMode ==> Crc32.Checksum(Serialize(p)) < U32_MAX
    requires |Frame(p, testMode)| <= outBuf.Length
    modifies outBuf
    ensures n == |Frame(p, testMode)| <= outBuf.Length
    ensures outBuf[..n] == Frame(p, testMode)
    ensures outBuf[n..] == old(outBuf[n..])
  {
    FrameLength(p, testMode);
    var ser := Serialize(p);
    n := CrcCobsInPlace(ser, outBuf, testMode);
  }

  /** The rest of `serialize_crc_cobs` once the payload bytes `ser` are
      known: the payload and its checksum are written to the front of the
      buffer, then COBS-encoded from a copy of the buffer back over it. */
  method CrcCobsInPlace(ser: seq<byte>, outBuf: array<byte>, testMode: bool) returns (n: nat)
    requires testMode ==> Crc32.Checksum(ser) < U32_MAX
    requires |Cobs.Encode(ser + LeU32(WireCrc(ser, testMode)))| <= outBuf.Length
    modifies outBuf
    ensures n == |Cobs.Encode(ser + LeU32(WireCrc(ser, testMode)))|
    ensures outBuf[..n] == Cobs.Encode(ser + LeU32(WireCrc(ser, testMode)))
    ensures outBuf[n..] == old(outBuf[n..])
  {
    var raw := ser + LeU32(WireCrc(ser, testMode));
    Cobs.BlocksLength(raw);
    var nRaw := PayloadAndCrc(ser, outBuf, testMode);
    n := EncodeFromCopy(outBuf, nRaw);
  }

  /** Writes the payload to the front of the buffer, computes the checksum of
      those buffer bytes, adjusts it in test mode and writes it after them. */
  method PayloadAndCrc(ser: seq<byte>, outBuf: array<byte>, testMode: bool) returns (nRaw: nat)
    requires testMode ==> Crc32.Checksum(ser) < U32_MAX
    requires |ser| + 4 <= outBuf.Length
    modifies outBuf
    ensures nRaw == |ser| + 4
    ensures outBuf[..nRaw] == ser + LeU32(WireCrc(ser, testMode))
    ensures outBuf[nRaw..] == old(outBuf[nRaw..])
  {
    var nSer := |ser|;
    WriteAt(outBuf, 0, ser);
    var crc := Crc32.Checksum(outBuf[0..nSer]);
    if testMode {
      crc := crc + 1;
    }
    assert crc == WireCrc(ser, testMode);
    ghost var mid := outBuf[..];
    WriteAt(outBuf, nSer, LeU32(crc));
    nRaw := nSer + 4;
    assert outBuf[..nSer] == mid[..nSer] == ser;
    assert outBuf[..nRaw] == outBuf[..nSer] + outBuf[nSer..nRaw];
  }

  /** `encode_buf` from a copy of the first `nRaw` bytes back into the
      buffer; the bytes after the encoding stay as they were. */
  method EncodeFromCopy(outBuf: array<byte>, nRaw: nat) returns (n: nat)
    requires nRaw <= outBuf.Length
    requires |Cobs.Encode(outBuf[..nRaw])| <= outBuf.Length
    modifies outBuf
    ensures n == |Cobs.Encode(old(outBuf[..nRaw]))|
    ensures outBuf[..n] == Cobs.Encode(old(outBuf[..nRaw]))
    ensures outBuf[n..] == old(outBuf[n..])
  {
    var bufCopy := outBuf[..];
    var frame := Cobs.Encode(bufCopy[0..nRaw]);
    n := |frame|;
    WriteAt(outBuf, 0, frame);
  }

  /** `deserialize_crc_cobs`: decodes the frame in place and checks the
      checksum. */
  method DeserializeCrcCobs(k: Kind, inBuf: array<byte>) returns (r: Result<Payload, Faults>)
    requires FrameDecodes(k, inBuf[..])
    modifies inBuf
    ensures inBuf[..] == DecodedInPlace(old(inBuf[..]))
    ensures r == Unframe(k, old(inBuf[..]))
  {
    ghost var b := DecodedInPlace(inBuf[..]);
    var decoded := Cobs.Decode(inBuf[..]).value;
    var n := |decoded|;
    WriteAt(inBuf, 0, decoded);
    assert inBuf[..] == b;
    assert inBuf[0..n] == decoded;
    var (t, respUsed) := Deserialize(k, inBuf[0..n]).value;
    var crcBuf := inBuf[respUsed..];
    assert crcBuf == b[respUsed..];
    var (crc, _) := ParseU32(crcBuf).value;
    assert inBuf[0..respUsed] == b[..respUsed];
    var pkgCrc := Crc32.Checksum(inBuf[0..respUsed]);
    if crc != pkgCrc {
      return Err(BitFlipData);
    }
    return Ok(t);
  }
}
