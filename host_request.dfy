/** The host's `request` (host/src/main.rs): send the framed command, read
    the reply byte by byte into the input buffer until a zero byte arrives,
    and send the same frame again whenever a read times out; then decode the
    reply. The serial port is a finite sequence of read events and a choice of
    which transmission, if any, fails to write. What the source does by
    panicking (an index past the input buffer, an `unwrap` of a malformed or
    corrupted reply) is reported as a `Panicked` outcome, and a port that
    falls silent for good is the outcome `EventsExhausted`. */
module HostRequest {
  import opened Common
  import opened Messages
  import Cobs
  import Framing

  /** What one one-byte `read_exact` does. */
  datatype ReadEvent = Byte(b: byte) | TimedOut | ReadFailed

  datatype IoKind = WriteFailed | ReadError
  datatype Panic = InBufOverrun | MalformedReply | ChecksumFault

  datatype Outcome =
    | Replied(rsp: Response)
    | IoFailure(kind: IoKind)
    | Panicked(reason: Panic)
    | EventsExhausted

  /** How a request ends: the outcome, the number of `write_all` calls, the
      input buffer as left behind and the number of read events consumed. */
  datatype RunResult = RunResult(outcome: Outcome, writes: nat, buf: seq<byte>, consumed: nat)

  /** How the transmission loop ends: a zero byte completed the reply frame,
      or the request stopped there with an outcome. */
  datatype LoopEnd = FrameRead | Halted(outcome: Outcome)

  /** The loop's end, with the same counts and buffer as a `RunResult`. */
  datatype LoopResult = LoopResult(end: LoopEnd, writes: nat, buf: seq<byte>, consumed: nat)

  /** The bytes `s` arriving one read at a time. */
  function Bytes(s: seq<byte>): (ev: seq<ReadEvent>)
    ensures |ev| == |s| && forall j :: 0 <= j < |s| ==> ev[j] == Byte(s[j])
  {
    seq(|s|, j requires 0 <= j < |s| => Byte(s[j]))
  }

  function Timeouts(k: nat): (ev: seq<ReadEvent>)
    ensures |ev| == k && forall j :: 0 <= j < k ==> ev[j] == TimedOut
  {
    seq(k, _ => TimedOut)
  }

  function CountTimeouts(ev: seq<ReadEvent>): nat
    decreases |ev|
  {
    if |ev| == 0 then 0 else (if ev[0].TimedOut? then 1 else 0) + CountTimeouts(ev[1..])
  }

  /** The final `deserialize_crc_cobs(in_buf).unwrap()`. */
  function Finish(buf: seq<byte>, writes: nat, consumed: nat): (r: RunResult)
    ensures r.writes == writes && r.consumed == consumed
    ensures r.outcome.Replied? || r.outcome == Panicked(MalformedReply) || r.outcome == Panicked(ChecksumFault)
  {
    if !Framing.FrameDecodes(ResponseKind, buf) then RunResult(Panicked(MalformedReply), writes, buf, consumed)
    else match Framing.Unframe(ResponseKind, buf)
      case Ok(p) => RunResult(Replied(p.rsp), writes, Framing.DecodedInPlace(buf), consumed)
      case Err(_) => RunResult(Panicked(ChecksumFault), writes, Framing.DecodedInPlace(buf), consumed)
  }

  /** The transmission loop from read event `i` on, with `attempt`
      transmissions done. In the writing phase the frame is about to be
      sent; otherwise byte number `index` of the reply is about to be read. */
  function Run(ev: seq<ReadEvent>, writeFail: Option<nat>, i: nat, index: nat, buf: seq<byte>,
               attempt: nat, writing: bool): (r: LoopResult)
    requires i <= |ev|
    decreases |ev| - i, if writing then 1 else 0
  {
    if writing then
      if writeFail == Some(attempt) then LoopResult(Halted(IoFailure(WriteFailed)), attempt + 1, buf, i)
      else Run(ev, writeFail, i, 0, buf, attempt, false)
    else if index >= |buf| then LoopResult(Halted(Panicked(InBufOverrun)), attempt + 1, buf, i)
    else if i == |ev| then LoopResult(Halted(EventsExhausted), attempt + 1, buf, i)
    else match ev[i]
      case TimedOut => Run(ev, writeFail, i + 1, 0, buf, attempt + 1, true)
      case ReadFailed => LoopResult(Halted(IoFailure(ReadError)), attempt + 1, buf, i + 1)
      case Byte(b) =>
        if b == 0 then LoopResult(FrameRead, attempt + 1, buf[index := b], i + 1)
        else Run(ev, writeFail, i + 1, index + 1, buf[index := b], attempt, false)
  }

  /** A whole request: the loop from the first transmission, then the
      decoding of a reply frame it read. */
  function Request(ev: seq<ReadEvent>, writeFail: Option<nat>, buf: seq<byte>): RunResult {
    var l := Run(ev, writeFail, 0, 0, buf, 0, true);
    match l.end
    case FrameRead => Finish(l.buf, l.writes, l.consumed)
    case Halted(o) => RunResult(o, l.writes, l.buf, l.consumed)
  }

  /** The frame goes out once, and once more after every timeout: the number
      of transmissions is one plus the timeouts among the events consumed. */
  lemma {:induction false} WritesCountTimeouts(ev: seq<ReadEvent>, writeFail: Option<nat>, i: nat, index: nat,
                                               buf: seq<byte>, attempt: nat, writing: bool)
    requires i <= |ev|
    ensures var r := Run(ev, writeFail, i, index, buf, attempt, writing);
      i <= r.consumed <= |ev| && r.writes == attempt + 1 + CountTimeouts(ev[i..r.consumed])
    decreases |ev| - i, if writing then 1 else 0
  {
    var r := Run(ev, writeFail, i, index, buf, attempt, writing);
    if writing {
      if writeFail != Some(attempt) {
        WritesCountTimeouts(ev, writeFail, i, 0, buf, attempt, false);
      }
    } else if index < |buf| && i < |ev| {
      match ev[i]
      case TimedOut =>
        WritesCountTimeouts(ev, writeFail, i + 1, 0, buf, attempt + 1, true);
        assert ev[i..r.consumed][1..] == ev[i + 1..r.consumed];
      case ReadFailed =>
        assert ev[i..r.consumed][1..] == [];
      case Byte(b) =>
        if b == 0 {
          assert ev[i..r.consumed][1..] == [];
        } else {
          WritesCountTimeouts(ev, writeFail, i + 1, index + 1, buf[index := b], attempt, false);
          assert ev[i..r.consumed][1..] == ev[i + 1..r.consumed];
        }
    }
  }

  /** The loop reads a frame only up to a zero byte, reports a read error
      only right after a failed read, and never stops with a reply. */
  lemma {:induction false} EndsOnEvent(ev: seq<ReadEvent>, writeFail: Option<nat>, i: nat, index: nat,
                                       buf: seq<byte>, attempt: nat, writing: bool)
    requires i <= |ev|
    ensures var r := Run(ev, writeFail, i, index, buf, attempt, writing);
      (r.end == FrameRead ==> 0 < r.consumed <= |ev| && ev[r.consumed - 1] == Byte(0))
      && (r.end == Halted(IoFailure(ReadError)) ==> 0 < r.consumed <= |ev| && ev[r.consumed - 1] == ReadFailed)
      && (r.end.Halted? ==> !r.end.outcome.Replied?)
    decreases |ev| - i, if writing then 1 else 0
  {
    if writing {
      if writeFail != Some(attempt) {
        EndsOnEvent(ev, writeFail, i, 0, buf, attempt, false);
      }
    } else if index < |buf| && i < |ev| {
      match ev[i]
      case TimedOut =>
        EndsOnEvent(ev, writeFail, i + 1, 0, buf, attempt + 1, true);
      case ReadFailed =>
      case Byte(b) =>
        if b != 0 {
          EndsOnEvent(ev, writeFail, i + 1, index + 1, buf[index := b], attempt, false);
        }
    }
  }

  /** A request whose loop halts ends with the loop's outcome. */
  lemma HaltedRequest(ev: seq<ReadEvent>, writeFail: Option<nat>, buf: seq<byte>, l: LoopResult)
    requires Run(ev, writeFail, 0, 0, buf, 0, true) == l && l.end.Halted?
    ensures Request(ev, writeFail, buf) == RunResult(l.end.outcome, l.writes, l.buf, l.consumed)
  {
  }

  /** A request whose loop reads a frame ends by decoding it. */
  lemma FrameReadRequest(ev: seq<ReadEvent>, writeFail: Option<nat>, buf: seq<byte>, l: LoopResult)
    requires Run(ev, writeFail, 0, 0, buf, 0, true) == l && l.end == FrameRead
    ensures Request(ev, writeFail, buf) == Finish(l.buf, l.writes, l.consumed)
  {
  }

  /** Hence a request replies only after a zero byte, fails to read only
      right after a failed read, and sends its frame once plus once per
      timeout it consumed. */
  lemma RequestEnds(ev: seq<ReadEvent>, writeFail: Option<nat>, buf: seq<byte>)
    ensures var r := Request(ev, writeFail, buf);
      r.consumed <= |ev| && r.writes == 1 + CountTimeouts(ev[..r.consumed])
      && (r.outcome.Replied? ==> 0 < r.consumed && ev[r.consumed - 1] == Byte(0))
      && (r.outcome == IoFailure(ReadError) ==> 0 < r.consumed && ev[r.consumed - 1] == ReadFailed)
  {
    WritesCountTimeouts(ev, writeFail, 0, 0, buf, 0, true);
    EndsOnEvent(ev, writeFail, 0, 0, buf, 0, true);
    assert ev[0..Run(ev, writeFail, 0, 0, buf, 0, true).consumed] == ev[..Run(ev, writeFail, 0, 0, buf, 0, true).consumed];
  }

  /** Timeouts at the start of a transmission: each one sends the frame again
      with the index back at 0, and nothing else happens. */
  lemma {:induction false} SkipTimeouts(ev: seq<ReadEvent>, i: nat, buf: seq<byte>, attempt: nat, k: nat)
    requires i + k <= |ev| && |buf| > 0
    requires forall j :: i <= j < i + k ==> ev[j] == TimedOut
    ensures Run(ev, None, i, 0, buf, attempt, true) == Run(ev, None, i + k, 0, buf, attempt + k, true)
    decreases k
  {
    if k > 0 {
      SkipTimeouts(ev, i + 1, buf, attempt + 1, k - 1);
    }
  }

  /** The non-zero bytes `s` arrive one by one as the events from `i` on. */
  predicate Arrives(ev: seq<ReadEvent>, i: nat, s: seq<byte>) {
    i + |s| <= |ev| && 0 !in s && forall j :: 0 <= j < |s| ==> ev[i + j] == Byte(s[j])
  }

  /** Non-zero bytes are stored one after the other from the index on. */
  lemma {:induction false} StoreBytes(ev: seq<ReadEvent>, writeFail: Option<nat>, i: nat, index: nat,
                                      buf: seq<byte>, attempt: nat, s: seq<byte>)
    requires index + |s| <= |buf| && Arrives(ev, i, s)
    ensures Run(ev, writeFail, i, index, buf, attempt, false)
      == Run(ev, writeFail, i + |s|, index + |s|, buf[..index] + s + buf[index + |s|..], attempt, false)
    decreases |s|
  {
    if |s| == 0 {
      assert buf[..index] + s + buf[index..] == buf;
    } else {
      var buf1 := buf[index := s[0]];
      StoreOne(ev, writeFail, i, index, buf, attempt, s);
      StoreBytes(ev, writeFail, i + 1, index + 1, buf1, attempt, s[1..]);
      Splice(buf, index, s);
    }
  }

  /** The first of those bytes is stored, and the rest still qualify. */
  lemma StoreOne(ev: seq<ReadEvent>, writeFail: Option<nat>, i: nat, index: nat,
                 buf: seq<byte>, attempt: nat, s: seq<byte>)
    requires |s| > 0 && index + |s| <= |buf| && Arrives(ev, i, s)
    ensures Run(ev, writeFail, i, index, buf, attempt, false)
      == Run(ev, writeFail, i + 1, index + 1, buf[index := s[0]], attempt, false)
    ensures Arrives(ev, i + 1, s[1..])
  {
    assert s[0] in s && ev[i + 0] == Byte(s[0]);
    forall j | 0 <= j < |s[1..]| ensures s[1..][j] != 0 && ev[i + 1 + j] == Byte(s[1..][j]) {
      assert s[1..][j] == s[j + 1] && s[j + 1] in s;
      assert ev[i + (j + 1)] == Byte(s[j + 1]);
    }
  }

  /** Storing the head of `s` and then its tail stores `s`. */
  lemma Splice(buf: seq<byte>, index: nat, s: seq<byte>)
    requires |s| > 0 && index + |s| <= |buf|
    ensures var buf1 := buf[index := s[0]];
      buf1[..index + 1] + s[1..] + buf1[index + 1 + |s[1..]|..] == buf[..index] + s + buf[index + |s|..]
  {
    var buf1 := buf[index := s[0]];
    assert buf1[..index + 1] == buf[..index] + [s[0]];
    assert [s[0]] + s[1..] == s;
    assert buf1[index + 1 + |s[1..]|..] == buf[index + |s|..];
  }

  /** The reply frame `f` followed by whatever the buffer held beyond it is
      decoded as the response, or rejected when it was framed in test mode. */
  lemma FinishFrame(rsp: Response, testMode: bool, buf: seq<byte>, writes: nat, consumed: nat)
    requires testMode ==> Framing.Crc32.Checksum(Serialize(ResponsePayload(rsp))) < U32_MAX
    requires |Framing.Frame(ResponsePayload(rsp), testMode)| <= |buf|
    ensures var f := Framing.Frame(ResponsePayload(rsp), testMode);
      Finish(f + buf[|f|..], writes, consumed).outcome == if testMode then Panicked(ChecksumFault) else Replied(rsp)
  {
    var f := Framing.Frame(ResponsePayload(rsp), testMode);
    Framing.UnframeFrame(ResponsePayload(rsp), testMode, buf[|f|..]);
  }

  /** A zero byte ends the reply: the buffer so far is decoded. */
  lemma ZeroEnds(ev: seq<ReadEvent>, i: nat, index: nat, buf: seq<byte>, attempt: nat)
    requires i < |ev| && index < |buf| && ev[i] == Byte(0)
    ensures Run(ev, None, i, index, buf, attempt, false) == LoopResult(FrameRead, attempt + 1, buf[index := 0], i + 1)
  {
  }

  /** Reading a frame into the buffer from index 0: its bytes up to the
      terminator are stored, and the terminator ends the request. */
  lemma ReadFrame(ev: seq<ReadEvent>, i: nat, attempt: nat, f: seq<byte>, buf: seq<byte>)
    requires |f| >= 1 && f[|f| - 1] == 0 && forall j :: 0 <= j < |f| - 1 ==> f[j] != 0
    requires |f| <= |buf| && i + |f| <= |ev| && ev[i..i + |f|] == Bytes(f)
    ensures Run(ev, None, i, 0, buf, attempt, true) == LoopResult(FrameRead, attempt + 1, f + buf[|f|..], i + |f|)
  {
    var s := f[..|f| - 1];
    FrameEvents(ev, i, f, s);
    Framing.StoredFrame(buf, f);
    StoreBytes(ev, None, i, 0, buf, attempt, s);
    var buf1 := buf[..0] + s + buf[|s|..];
    ZeroEnds(ev, i + |s|, |s|, buf1, attempt);
    assert Run(ev, None, i, 0, buf, attempt, true) == Run(ev, None, i, 0, buf, attempt, false);
  }

  /** The events of a zero-terminated frame: its zero-free run, byte by
      byte, then the zero. */
  lemma FrameEvents(ev: seq<ReadEvent>, i: nat, f: seq<byte>, s: seq<byte>)
    requires |f| >= 1 && f[|f| - 1] == 0 && forall j :: 0 <= j < |f| - 1 ==> f[j] != 0
    requires i + |f| <= |ev| && ev[i..i + |f|] == Bytes(f)
    requires s == f[..|f| - 1]
    ensures Arrives(ev, i, s)
    ensures i + |s| < |ev| && ev[i + |s|] == Byte(0)
  {
    forall j | 0 <= j < |s| ensures s[j] != 0 && ev[i + j] == Byte(s[j]) {
      assert s[j] == f[j];
      assert ev[i..i + |f|][j] == Bytes(f)[j];
    }
    assert ev[i..i + |f|][|s|] == Bytes(f)[|s|];
  }

  /** The events of `k` timeouts followed by the bytes of `f`. */
  lemma TimeoutsThenBytes(k: nat, f: seq<byte>, rest: seq<ReadEvent>)
    ensures var ev := Timeouts(k) + Bytes(f) + rest;
      k + |f| <= |ev| && (forall j :: 0 <= j < k ==> ev[j] == TimedOut) && ev[k..k + |f|] == Bytes(f)
  {
    var ev := Timeouts(k) + Bytes(f) + rest;
    forall j | 0 <= j < k ensures ev[j] == TimedOut {
      assert ev[j] == Timeouts(k)[j];
    }
    assert ev[k..k + |f|] == Bytes(f);
  }

  /** Any zero-terminated frame that arrives after `k` timeouts is read
      whole, after `k + 1` sends. */
  lemma FrameAfterTimeouts(k: nat, f: seq<byte>, rest: seq<ReadEvent>, buf: seq<byte>)
    requires |f| >= 1 && f[|f| - 1] == 0 && forall j :: 0 <= j < |f| - 1 ==> f[j] != 0
    requires |f| <= |buf|
    ensures Run(Timeouts(k) + Bytes(f) + rest, None, 0, 0, buf, 0, true)
      == LoopResult(FrameRead, k + 1, f + buf[|f|..], k + |f|)
  {
    var ev := Timeouts(k) + Bytes(f) + rest;
    TimeoutsThenBytes(k, f, rest);
    SkipTimeouts(ev, 0, buf, 0, k);
    ReadFrame(ev, k, k, f, buf);
  }

  /** End to end: after any number of timeouts the device's reply frame
      arrives; the request sends its frame once per timeout plus once, and
      returns the response, or panics on the checksum when the reply was
      framed in test mode. */
  lemma ReplyAfterTimeouts(k: nat, rsp: Response, testMode: bool, rest: seq<ReadEvent>, buf: seq<byte>)
    requires testMode ==> Framing.Crc32.Checksum(Serialize(ResponsePayload(rsp))) < U32_MAX
    requires |Framing.Frame(ResponsePayload(rsp), testMode)| <= |buf|
    ensures var r := Request(Timeouts(k) + Bytes(Framing.Frame(ResponsePayload(rsp), testMode)) + rest, None, buf);
      r.outcome == (if testMode then Panicked(ChecksumFault) else Replied(rsp)) && r.writes == k + 1
  {
    var f := Framing.Frame(ResponsePayload(rsp), testMode);
    Framing.FrameDelimited(ResponsePayload(rsp), testMode);
    FrameAfterTimeouts(k, f, rest, buf);
    FinishFrame(rsp, testMode, buf, k + 1, k + |f|);
  }

  /** More bytes than the input buffer holds, with no zero among them, run
      the index past the buffer. */
  lemma OverrunPanics(s: seq<byte>, rest: seq<ReadEvent>, buf: seq<byte>)
    requires 0 !in s && |s| >= |buf|
    ensures Request(Bytes(s) + rest, None, buf).outcome == Panicked(InBufOverrun)
  {
    var ev := Bytes(s) + rest;
    var t := s[..|buf|];
    assert 0 !in t by {
      forall j | 0 <= j < |t| ensures t[j] != 0 {
        assert t[j] == s[j];
      }
    }
    StoreBytes(ev, None, 0, 0, buf, 0, t);
  }

  /** How one transmission's reading ends: a timeout asks for the frame to
      be sent again, a zero byte completes the reply, anything else stops the
      request with an outcome. */
  datatype AttemptEnd = Resend | Terminated | Stopped(outcome: Outcome)

  /** `request`. The frame is encoded once, before the first transmission,
      into `outBuf`; the reply is read into `inBuf` and then decoded. */
  method SendRequest(cmd: Command, ev: seq<ReadEvent>, writeFail: Option<nat>,
                     outBuf: array<byte>, inBuf: array<byte>) returns (outcome: Outcome, writes: seq<seq<byte>>)
    requires outBuf != inBuf
    requires |Framing.Frame(CommandPayload(cmd), false)| <= outBuf.Length
    modifies outBuf, inBuf
    ensures var r := Request(ev, writeFail, old(inBuf[..]));
      outcome == r.outcome && |writes| == r.writes && inBuf[..] == r.buf
    ensures forall w :: w in writes ==> w == Framing.Frame(CommandPayload(cmd), false)
    ensures var f := Framing.Frame(CommandPayload(cmd), false);
      outBuf[..|f|] == f && outBuf[|f|..] == old(outBuf[|f|..])
  {
    var n := Framing.SerializeCrcCobs(CommandPayload(cmd), outBuf, false);
    var toWrite := outBuf[..n];
    var end, consumed;
    end, writes, consumed := Transmit(toWrite, ev, writeFail, inBuf);
    ghost var l := LoopResult(end, |writes|, inBuf[..], consumed);
    match end {
      case FrameRead =>
        FrameReadRequest(ev, writeFail, old(inBuf[..]), l);
        outcome := DecodeReply(inBuf, |writes|, consumed);
      case Halted(o) =>
        HaltedRequest(ev, writeFail, old(inBuf[..]), l);
        outcome := o;
    }
  }

  /** The `while tx_complete == false` loop of `request`: write the frame,
      read the reply, and go round again after a timeout. */
  method Transmit(toWrite: seq<byte>, ev: seq<ReadEvent>, writeFail: Option<nat>, inBuf: array<byte>)
    returns (end: LoopEnd, writes: seq<seq<byte>>, consumed: nat)
    modifies inBuf
    ensures Run(ev, writeFail, 0, 0, old(inBuf[..]), 0, true) == LoopResult(end, |writes|, inBuf[..], consumed)
    ensures forall w :: w in writes ==> w == toWrite
  {
    ghost var target := Run(ev, writeFail, 0, 0, inBuf[..], 0, true);
    var txComplete := false;
    var i := 0;
    var attempt := 0;
    writes := [];
    while !txComplete
      invariant i <= |ev|
      invariant forall w :: w in writes ==> w == toWrite
      invariant !txComplete ==> |writes| == attempt && Run(ev, writeFail, i, 0, inBuf[..], attempt, true) == target
      invariant txComplete ==> |writes| == attempt + 1 && target == LoopResult(FrameRead, attempt + 1, inBuf[..], i)
      decreases |ev| - i, if txComplete then 0 else 1
    {
      writes := writes + [toWrite];
      if writeFail == Some(attempt) {
        return Halted(IoFailure(WriteFailed)), writes, i;
      }
      var stop;
      stop, i := ReadReply(ev, writeFail, i, attempt, inBuf);
      match stop {
        case Resend =>
          attempt := attempt + 1;
        case Terminated =>
          txComplete := true;
        case Stopped(o) =>
          return Halted(o), writes, i;
      }
    }
    return FrameRead, writes, i;
  }

  /** The inner loop of `request`: reads bytes into `inBuf` from index 0 on
      until a timeout, an error or a zero byte. The slice of the next byte is
      taken before the index is checked, so an index at the end of the
      buffer panics. */
  method ReadReply(ev: seq<ReadEvent>, writeFail: Option<nat>, i0: nat, attempt: nat, inBuf: array<byte>)
    returns (end: AttemptEnd, i: nat)
    requires i0 <= |ev|
    modifies inBuf
    ensures !end.Stopped? ==> i0 < i <= |ev|
    ensures var target := Run(ev, writeFail, i0, 0, old(inBuf[..]), attempt, false);
      match end
      case Resend => Run(ev, writeFail, i, 0, inBuf[..], attempt + 1, true) == target
      case Terminated => target == LoopResult(FrameRead, attempt + 1, inBuf[..], i)
      case Stopped(o) => target == LoopResult(Halted(o), attempt + 1, inBuf[..], i)
  {
    ghost var target := Run(ev, writeFail, i0, 0, inBuf[..], attempt, false);
    i := i0;
    var index := 0;
    while true
      invariant i0 <= i <= |ev|
      invariant Run(ev, writeFail, i, index, inBuf[..], attempt, false) == target
      decreases |ev| - i
    {
      if index >= inBuf.Length {
        return Stopped(Panicked(InBufOverrun)), i;
      }
      var slot := index;
      index := index + 1;
      if i == |ev| {
        return Stopped(EventsExhausted), i;
      }
      var e := ev[i];
      i := i + 1;
      match e {
        case TimedOut =>
          return Resend, i;
        case ReadFailed =>
          return Stopped(IoFailure(ReadError)), i;
        case Byte(b) =>
          inBuf[slot] := b;
          if b == 0 {
            return Terminated, i;
          }
      }
    }
  }

  /** The closing `deserialize_crc_cobs(in_buf).unwrap()`. */
  method DecodeReply(inBuf: array<byte>, writes: nat, consumed: nat) returns (outcome: Outcome)
    modifies inBuf
    ensures outcome == Finish(old(inBuf[..]), writes, consumed).outcome
    ensures inBuf[..] == Finish(old(inBuf[..]), writes, consumed).buf
  {
    if !Framing.FrameDecodes(ResponseKind, inBuf[..]) {
      return Panicked(MalformedReply);
    }
    var r := Framing.DeserializeCrcCobs(ResponseKind, inBuf);
    match r {
      case Ok(p) => outcome := Replied(p.rsp);
      case Err(_) => outcome := Panicked(ChecksumFault);
    }
  }
}
