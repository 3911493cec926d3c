/** Consistent Overhead Byte Stuffing (Cheshire and Baker) as the `corncobs`
    crate applies it to frames: the data is cut at its zero bytes into blocks;
    each block travels as a code byte (one more than the number of data bytes
    it carries, which are all non-zero) followed by those bytes, and a decoder
    puts a zero back between blocks. A code of 0xFF marks a full block of 254
    data bytes with no zero after it. The encoded frame ends in one zero byte,
    the only zero it contains. */
module Cobs {
  import opened Common

  const MAX_RUN := 254

  /** Number of leading non-zero bytes of `s`, at most 254. */
  function RunLength(s: seq<byte>): (k: nat)
    ensures k <= |s| && k <= MAX_RUN
    ensures forall i :: 0 <= i < k ==> s[i] != 0
    ensures k < |s| && k < MAX_RUN ==> s[k] == 0
    decreases |s|
  {
    if |s| == 0 || s[0] == 0 then 0
    else var k := RunLength(s[1..]); if k == MAX_RUN then MAX_RUN else 1 + k
  }

  /** The stuffed blocks of `s`, without the terminating zero. */
  function Blocks(s: seq<byte>): (e: seq<byte>)
    ensures |e| > 0 && e[0] != 0
    decreases |s|
  {
    var k := RunLength(s);
    if k == MAX_RUN then var full: seq<byte> := [0xFF]; full + s[..k] + Blocks(s[k..])
    else if k == |s| then [k + 1] + s
    else [k + 1] + s[..k] + Blocks(s[k + 1..])
  }

  /** `corncobs::encode_buf`: the blocks followed by the frame terminator. */
  function Encode(s: seq<byte>): seq<byte>
  {
    Blocks(s) + [0]
  }

  /** `corncobs::decode_in_place`, as a function of the buffer: the data of the
      first frame in `buf`, or None when the buffer does not start with a
      well-formed frame (a zero where a code byte is due, a zero inside a
      block, or no terminator before the end). */
  function Decode(buf: seq<byte>): (r: Option<seq<byte>>)
    ensures r.Some? ==> |r.value| < |buf|
    decreases |buf|
  {
    if |buf| == 0 then None
    else
      var code := buf[0];
      if code == 0 || code >= |buf| then None
      else
        var data := buf[1..code];
        if 0 in data then None
        else if buf[code] == 0 then Some(data)
        else match Decode(buf[code..])
          case None => None
          case Some(rest) => Some(data + (if code < 0xFF then [0] else []) + rest)
  }

  /** No zero byte occurs among the stuffed blocks. */
  lemma {:induction false} BlocksZeroFree(s: seq<byte>)
    ensures 0 !in Blocks(s)
    decreases |s|
  {
    var k := RunLength(s);
    if k == MAX_RUN {
      BlocksZeroFree(s[k..]);
    } else if k == |s| {
    } else {
      BlocksZeroFree(s[k + 1..]);
    }
  }

  /** The encoded frame ends in the terminator and has no other zero byte, so a
      receiver can cut the byte stream into frames at the zeros. */
  lemma EncodeDelimited(s: seq<byte>)
    ensures |Encode(s)| >= 2 && Encode(s)[|Encode(s)| - 1] == 0
    ensures forall i :: 0 <= i < |Encode(s)| - 1 ==> Encode(s)[i] != 0
  {
    BlocksZeroFree(s);
    assert Encode(s)[..|Encode(s)| - 1] == Blocks(s);
  }

  /** Stuffing adds one code byte per started block: at least one byte and at
      most one per 254 data bytes plus one. */
  lemma {:induction false} BlocksLength(s: seq<byte>)
    ensures |s| + 1 <= |Blocks(s)| <= |s| + 1 + |s| / MAX_RUN
    decreases |s|
  {
    var k := RunLength(s);
    if k == MAX_RUN {
      BlocksLength(s[k..]);
    } else if k == |s| {
    } else {
      BlocksLength(s[k + 1..]);
    }
  }

  /** A block followed by another code byte: the decoded data continues with
      the next block, after a zero unless the block was a full one. */
  lemma DecodeJoin(buf: seq<byte>, tail: seq<byte>)
    requires |buf| > 0 && 0 < buf[0] < |buf| && 0 !in buf[1..buf[0]]
    requires buf[buf[0]..] == tail && tail[0] != 0 && Decode(tail).Some?
    ensures Decode(buf) == Some(buf[1..buf[0]] + (if buf[0] < 0xFF then [0] else []) + Decode(tail).value)
  {
  }

  /** A block followed by the terminator ends the frame. */
  lemma DecodeLast(buf: seq<byte>)
    requires |buf| > 0 && 0 < buf[0] < |buf| && 0 !in buf[1..buf[0]] && buf[buf[0]] == 0
    ensures Decode(buf) == Some(buf[1..buf[0]])
  {
  }

  /** The frame of data starting with 254 non-zero bytes: a full block and
      then the frame of the remainder. */
  lemma FullBlockLayout(s: seq<byte>, rest: seq<byte>)
    requires RunLength(s) == MAX_RUN
    ensures var buf := Encode(s) + rest;
      |buf| > 0xFF && buf[0] == 0xFF && buf[1..0xFF] == s[..MAX_RUN]
      && buf[0xFF..] == Encode(s[MAX_RUN..]) + rest
  {
    var head: seq<byte> := [0xFF] + s[..MAX_RUN];
    var tail := Encode(s[MAX_RUN..]) + rest;
    assert Blocks(s) == head + Blocks(s[MAX_RUN..]);
    assert Encode(s) + rest == head + tail;
    assert |head| == 0xFF;
  }

  lemma DecodeEncodeFull(s: seq<byte>, rest: seq<byte>)
    requires RunLength(s) == MAX_RUN
    requires Decode(Encode(s[MAX_RUN..]) + rest) == Some(s[MAX_RUN..])
    ensures Decode(Encode(s) + rest) == Some(s)
  {
    var buf := Encode(s) + rest;
    var tail := Encode(s[MAX_RUN..]) + rest;
    FullBlockLayout(s, rest);
    assert 0 !in s[..MAX_RUN] by {
      forall i | 0 <= i < MAX_RUN ensures s[..MAX_RUN][i] != 0 { }
    }
    assert tail[0] != 0;
    DecodeJoin(buf, tail);
    assert s[..MAX_RUN] + [] + s[MAX_RUN..] == s;
  }

  /** The frame of data whose first zero comes within 254 bytes: a block of
      the bytes before it and then the frame of what follows the zero. */
  lemma ZeroBlockLayout(s: seq<byte>, rest: seq<byte>, k: nat)
    requires k == RunLength(s) < MAX_RUN && k < |s|
    ensures var buf := Encode(s) + rest;
      |buf| > k + 1 && buf[0] == k + 1 && buf[1..k + 1] == s[..k]
      && buf[k + 1..] == Encode(s[k + 1..]) + rest
  {
    var head: seq<byte> := [k + 1] + s[..k];
    var tail := Encode(s[k + 1..]) + rest;
    assert Blocks(s) == head + Blocks(s[k + 1..]);
    assert Encode(s) + rest == head + tail;
  }

  lemma DecodeEncodeZero(s: seq<byte>, rest: seq<byte>, k: nat)
    requires k == RunLength(s) < MAX_RUN && k < |s|
    requires Decode(Encode(s[k + 1..]) + rest) == Some(s[k + 1..])
    ensures Decode(Encode(s) + rest) == Some(s)
  {
    var buf := Encode(s) + rest;
    var tail := Encode(s[k + 1..]) + rest;
    ZeroBlockLayout(s, rest, k);
    DecodeJoin(buf, tail);
    SplitAtZero(s, k);
  }

  lemma SplitAtZero(s: seq<byte>, k: nat)
    requires k < |s| && s[k] == 0
    ensures s[..k] + [0] + s[k + 1..] == s
  {
  }

  /** Decoding the frame that Encode produced gives the data back, whatever
      bytes follow the terminator in the buffer. */
  lemma {:induction false} DecodeEncode(s: seq<byte>, rest: seq<byte>)
    ensures Decode(Encode(s) + rest) == Some(s)
    decreases |s|
  {
    var k := RunLength(s);
    if k == MAX_RUN {
      DecodeEncode(s[k..], rest);
      DecodeEncodeFull(s, rest);
    } else if k == |s| {
      var buf := Encode(s) + rest;
      assert buf == [k + 1] + s + [0] + rest;
      assert buf[1..k + 1] == s;
      DecodeLast(buf);
    } else {
      DecodeEncode(s[k + 1..], rest);
      DecodeEncodeZero(s, rest, k);
    }
  }
}
