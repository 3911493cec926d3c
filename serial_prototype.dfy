/** The device side of the serial link (esp32c3/examples/serial_prototype.rs):
    the UART receive handler that collects bytes up to a zero, decodes the
    frame as a command and answers it through a bounded response queue; the
    timer handler that advances the wall-clock epoch by the real-time-clock
    delta; and the transmit task that frames queued responses.

    Each handler is one sequential step. Its effect is specified by a pure
    step function on `DeviceState`, and the class methods are proved to
    perform exactly that step. */
module SerialPrototype {
  import opened Common
  import opened DateTime
  import opened Messages
  import Cobs
  import Framing

  /** Capacity of the response channel. */
  const CAPACITY: nat := 100

  /** The device's epoch at start-up: 2023-01-01T00:00:00Z. */
  function InitialDate(): (dt: ChronoDateTime)
    ensures ValidChrono(dt)
  {
    ChronoDateTime(2023, 1, 1, 0, 0, 0, 0)
  }

  /** What the receive handler works on: the receive buffer and its cursor,
      the shared epoch and the responses waiting to be sent. */
  datatype DeviceState = DeviceState(buf: seq<byte>, idx: nat, epochMillis: int, queue: seq<Response>)

  /** The decoded frame is a command: `Unframe` of the command kind only ever
      yields command payloads. */
  function AsCommand(r: Result<Payload, Faults>): (c: Result<Command, Faults>)
    requires r.Ok? ==> r.value.CommandPayload?
    ensures c.Ok? <==> r.Ok?
  {
    match r
    case Ok(p) => Ok(p.cmd)
    case Err(f) => Err(f)
  }

  /** `Set(_, A(udt), _)` turns the date into a chrono instant, which panics
      unless it is a valid date and time. */
  predicate DateAccepted(r: Result<Command, Faults>) {
    r.Ok? && r.value.Set? && r.value.msg.A? ==> ValidUtc(r.value.msg.udt)
  }

  /** The response to a decoded frame and the epoch after it. */
  function Dispatch(r: Result<Command, Faults>, epochMillis: int): (out: (Response, int))
    requires DateAccepted(r)
    ensures out.0 == SetOk <==> r.Ok?
    ensures out.0 == NotOK <==> r.Err?
    ensures r.Ok? && r.value.Set? && r.value.msg.A? ==>
      out.1 == UnixSeconds(r.value.msg.udt.year, r.value.msg.udt.month, r.value.msg.udt.day,
                           r.value.msg.udt.hour, r.value.msg.udt.minute, r.value.msg.udt.second) * 1000
    ensures !(r.Ok? && r.value.Set? && r.value.msg.A?) ==> out.1 == epochMillis
  {
    match r
    case Ok(Set(_, A(udt), _)) => (SetOk, TimestampMillis(ToChrono(udt)))
    case Ok(_) => (SetOk, epochMillis)
    case Err(BitFlipData) => (NotOK, epochMillis)
  }

  /** `try_send`: the response joins the queue unless the queue is full, in
      which case it is dropped. The queued responses stay in order ahead of
      it, and a queue within its capacity stays within it. */
  function Offer(queue: seq<Response>, rsp: Response): (q: seq<Response>)
    ensures |queue| <= |q| <= |queue| + 1 && q[..|queue|] == queue
    ensures |q| == |queue| + 1 <==> |queue| < CAPACITY
    ensures |q| > |queue| ==> q[|queue|] == rsp
    ensures |queue| <= CAPACITY ==> |q| <= CAPACITY
  {
    if |queue| < CAPACITY then queue + [rsp] else queue
  }

  /** The buffer as the handler hands it to `deserialize_crc_cobs` at a zero
      byte. */
  function Completed(s: DeviceState): seq<byte>
    requires s.idx < |s.buf|
  {
    s.buf[s.idx := 0]
  }

  /** The receive handler does not panic on byte `c`: the cursor is inside
      the buffer, and at a zero byte the buffer holds a well-formed frame
      whose date, if it sets one, is valid. */
  predicate CanReceive(s: DeviceState, c: byte) {
    s.idx < |s.buf|
    && (c == 0 ==>
          Framing.FrameDecodes(CommandKind, Completed(s))
          && DateAccepted(AsCommand(Framing.Unframe(CommandKind, Completed(s)))))
  }

  /** The handler at a zero byte: reset the cursor, decode the buffer in
      place, dispatch and offer the response. */
  function Answered(s: DeviceState): (t: DeviceState)
    requires CanReceive(s, 0)
    ensures |t.buf| == |s.buf| && t.idx == 0
    ensures |t.queue| == if |s.queue| < CAPACITY then |s.queue| + 1 else |s.queue|
  {
    var b := Completed(s);
    var (rsp, epoch) := Dispatch(AsCommand(Framing.Unframe(CommandKind, b)), s.epochMillis);
    DeviceState(Framing.DecodedInPlace(b), 0, epoch, Offer(s.queue, rsp))
  }

  /** One pass of the receive loop: store the byte and advance the cursor,
      or at a zero answer the frame. */
  function Received(s: DeviceState, c: byte): (t: DeviceState)
    requires CanReceive(s, c)
    ensures |t.buf| == |s.buf|
    ensures c != 0 ==> t == s.(buf := s.buf[s.idx := c], idx := s.idx + 1)
    ensures c == 0 ==> t.idx == 0 && |t.queue| == if |s.queue| < CAPACITY then |s.queue| + 1 else |s.queue|
  {
    if c != 0 then s.(buf := s.buf[s.idx := c], idx := s.idx + 1)
    else Answered(s)
  }

  /** The receive loop over the bytes the UART has ready does not panic. */
  predicate CanFeed(s: DeviceState, bytes: seq<byte>)
    decreases |bytes|
  {
    |bytes| == 0 || (CanReceive(s, bytes[0]) && CanFeed(Received(s, bytes[0]), bytes[1..]))
  }

  /** The state after the receive loop has taken `bytes`. */
  function Fed(s: DeviceState, bytes: seq<byte>): (t: DeviceState)
    requires CanFeed(s, bytes)
    ensures |t.buf| == |s.buf|
    decreases |bytes|
  {
    if |bytes| == 0 then s else Fed(Received(s, bytes[0]), bytes[1..])
  }

  /** `advance_time`: the epoch gains the milliseconds the real-time clock
      advanced since the previous tick. */
  function Advanced(epochMillis: int, previousRtc: u64, newRtc: u64): (r: (int, u64))
    requires previousRtc <= newRtc
    ensures r.1 == newRtc
    ensures r.0 - epochMillis == newRtc - previousRtc
  {
    (epochMillis + (newRtc - previousRtc), newRtc)
  }

  /** Ticks at the real-time-clock readings `rtcs`, in order, with no `Set`
      in between. */
  predicate NonDecreasing(previousRtc: u64, rtcs: seq<u64>)
    decreases |rtcs|
  {
    |rtcs| == 0 || (previousRtc <= rtcs[0] && NonDecreasing(rtcs[0], rtcs[1..]))
  }

  function AfterTicks(epochMillis: int, previousRtc: u64, rtcs: seq<u64>): (int, u64)
    requires NonDecreasing(previousRtc, rtcs)
    decreases |rtcs|
  {
    if |rtcs| == 0 then (epochMillis, previousRtc)
    else
      var (e, p) := Advanced(epochMillis, previousRtc, rtcs[0]);
      AfterTicks(e, p, rtcs[1..])
  }

  /** The epoch gained over a run of ticks is the last clock reading minus
      the reading before the first tick: no millisecond is lost or counted
      twice between ticks. */
  lemma {:induction false} TicksTelescope(epochMillis: int, previousRtc: u64, rtcs: seq<u64>)
    requires NonDecreasing(previousRtc, rtcs) && |rtcs| > 0
    ensures AfterTicks(epochMillis, previousRtc, rtcs)
      == (epochMillis + rtcs[|rtcs| - 1] - previousRtc, rtcs[|rtcs| - 1])
    decreases |rtcs|
  {
    if |rtcs| > 1 {
      var (e, p) := Advanced(epochMillis, previousRtc, rtcs[0]);
      TicksTelescope(e, p, rtcs[1..]);
    }
  }

  /** A byte other than zero is always received, and the loop carries on
      from the state it leaves. */
  lemma StoreOne(s: DeviceState, c: byte, bytes: seq<byte>)
    requires c != 0 && s.idx < |s.buf| && |bytes| > 0 && bytes[0] == c
    ensures CanReceive(s, c)
    ensures CanFeed(s, bytes) <==> CanFeed(Received(s, c), bytes[1..])
    ensures CanFeed(s, bytes) ==> Fed(s, bytes) == Fed(Received(s, c), bytes[1..])
  {
  }

  /** Bytes other than zero are stored one after the other from the cursor on,
      and the loop then carries on from there. */
  lemma {:induction false} FeedRun(s: DeviceState, run: seq<byte>, tail: seq<byte>)
    requires 0 !in run && s.idx + |run| <= |s.buf|
    ensures var t := s.(buf := s.buf[..s.idx] + run + s.buf[s.idx + |run|..], idx := s.idx + |run|);
      (CanFeed(s, run + tail) <==> CanFeed(t, tail))
      && (CanFeed(t, tail) ==> Fed(s, run + tail) == Fed(t, tail))
    decreases |run|
  {
    var t := s.(buf := s.buf[..s.idx] + run + s.buf[s.idx + |run|..], idx := s.idx + |run|);
    if |run| == 0 {
      assert run + tail == tail;
      assert s.buf[..s.idx] + run + s.buf[s.idx..] == s.buf;
      assert t == s;
    } else {
      StoreOne(s, run[0], run + tail);
      var s1 := Received(s, run[0]);
      var run1 := run[1..];
      assert (run + tail)[1..] == run1 + tail;
      assert 0 !in run1 by {
        forall i | 0 <= i < |run1| ensures run1[i] != 0 {
          assert run1[i] == run[i + 1];
        }
      }
      FeedRun(s1, run1, tail);
      assert s1.buf[..s1.idx] + run1 + s1.buf[s1.idx + |run1|..] == t.buf;
      assert s1.(buf := s1.buf[..s1.idx] + run1 + s1.buf[s1.idx + |run1|..], idx := s1.idx + |run1|) == t;
      assert CanFeed(s, run + tail) <==> CanFeed(s1, run1 + tail);
    }
  }

  /** End to end: a device whose cursor is at the start of its buffer and that
      receives a whole frame of command `c` stores it, decodes it, answers
      SetOk, or NotOK when the frame was sent in test mode, and for `Set` of
      a date moves its epoch to that date; otherwise the epoch is kept. */
  lemma DeviceAnswersFrame(s: DeviceState, c: Command, testMode: bool)
    requires s.idx == 0
    requires testMode ==> Crc32Ok(c)
    requires |Framing.Frame(CommandPayload(c), testMode)| <= |s.buf|
    requires c.Set? && c.msg.A? ==> ValidUtc(c.msg.udt)
    ensures CanFeed(s, Framing.Frame(CommandPayload(c), testMode))
    ensures var t := Fed(s, Framing.Frame(CommandPayload(c), testMode));
      t.idx == 0
      && t.queue == Offer(s.queue, if testMode then NotOK else SetOk)
      && t.epochMillis == if !testMode && c.Set? && c.msg.A? then TimestampMillis(ToChrono(c.msg.udt)) else s.epochMillis
  {
    var p := CommandPayload(c);
    var f := Framing.Frame(p, testMode);
    Framing.FrameDelimited(p, testMode);
    var run := f[..|f| - 1];
    SplitTerminator(f);
    FeedRun(s, run, [0]);
    var t := s.(buf := s.buf[..s.idx] + run + s.buf[s.idx + |run|..], idx := s.idx + |run|);
    var rest := s.buf[|f|..];
    Framing.StoredFrame(s.buf, f);
    AnswersFrame(t, c, testMode, rest);
  }

  /** A frame is its zero-free run followed by the delimiter. */
  lemma SplitTerminator(f: seq<byte>)
    requires |f| >= 1 && f[|f| - 1] == 0 && forall i :: 0 <= i < |f| - 1 ==> f[i] != 0
    ensures f == f[..|f| - 1] + [0] && 0 !in f[..|f| - 1]
  {
    var run := f[..|f| - 1];
    forall i | 0 <= i < |run| ensures run[i] != 0 {
      assert run[i] == f[i];
    }
  }

  /** The delimiter after a whole stored frame: the handler answers it and
      resets the cursor. */
  lemma AnswersFrame(t: DeviceState, c: Command, testMode: bool, rest: seq<byte>)
    requires t.idx < |t.buf|
    requires testMode ==> Crc32Ok(c)
    requires Completed(t) == Framing.Frame(CommandPayload(c), testMode) + rest
    requires c.Set? && c.msg.A? ==> ValidUtc(c.msg.udt)
    ensures CanFeed(t, [0])
    ensures var u := Fed(t, [0]);
      u.idx == 0
      && u.queue == Offer(t.queue, if testMode then NotOK else SetOk)
      && u.epochMillis == if !testMode && c.Set? && c.msg.A? then TimestampMillis(ToChrono(c.msg.udt)) else t.epochMillis
  {
    Framing.UnframeFrame(CommandPayload(c), testMode, rest);
    assert CanFeed(Received(t, 0), []);
    assert [0][1..] == [];
  }

  /** Test mode is usable for `c`: its checksum is not u32::MAX. */
  predicate Crc32Ok(c: Command) {
    Framing.Crc32.Checksum(Serialize(CommandPayload(c))) < U32_MAX
  }

  /** Every response fits a transmit frame of 23 bytes. */
  lemma ResponseFrameSize(r: Response)
    ensures |Framing.Frame(ResponsePayload(r), false)| <= 23
  {
    ResponseSize(r);
    Framing.FrameLength(ResponsePayload(r), false);
  }

  /** The device state of the RTIC application: the receive handler's local
      buffer and cursor, the shared epoch, the timer handler's previous clock
      reading and the response channel. */
  class Device {
    const rxBuff: array<byte>
    var rxIdx: nat
    var epochMillis: int
    var previousRtc: u64
    var queue: seq<Response>
    /** Size of the transmit buffer. */
    const outSize: nat

    ghost predicate Valid()
      reads this
    {
      |queue| <= CAPACITY
    }

    function State(): DeviceState
      reads this, rxBuff
    {
      DeviceState(rxBuff[..], rxIdx, epochMillis, queue)
    }

    /** `init`: a zeroed receive buffer of `inSize` bytes, the epoch of
        2023-01-01 and the clock reading at start-up. */
    constructor (inSize: nat, outSize: nat, rtcNow: u64)
      ensures Valid() && fresh(rxBuff)
      ensures rxBuff.Length == inSize && rxIdx == 0 && queue == []
      ensures epochMillis == 1_672_531_200_000 && previousRtc == rtcNow
      ensures this.outSize == outSize
    {
      rxBuff := new byte[inSize](_ => 0);
      rxIdx := 0;
      InitialEpoch();
      epochMillis := TimestampMillis(InitialDate());
      previousRtc := rtcNow;
      queue := [];
      this.outSize := outSize;
    }

    /** One pass of the `uart0` receive loop on byte `c`. */
    method ReceiveByte(c: byte)
      requires Valid() && CanReceive(State(), c)
      modifies this, rxBuff
      ensures Valid()
      ensures State() == Received(old(State()), c)
      ensures previousRtc == old(previousRtc)
    {
      rxBuff[rxIdx] := c;
      if c == 0 {
        rxIdx := 0;
        var cmdRes := Framing.DeserializeCrcCobs(CommandKind, rxBuff);
        var rsp := SetOk;
        match cmdRes {
          case Ok(p) =>
            match p.cmd {
              case Set(_, msg, _) =>
                match msg {
                  case A(udt) =>
                    epochMillis := TimestampMillis(ToChrono(udt));
                  case B(_) =>
                  case C(_, _) =>
                  case D(_, _, _) =>
                }
              case Get(_, _, _) =>
            }
          case Err(BitFlipData) =>
            rsp := NotOK;
        }
        if |queue| < CAPACITY {
          queue := queue + [rsp];
        }
      } else {
        rxIdx := rxIdx + 1;
      }
    }

    /** `uart0`: the receive loop over the bytes the UART has ready. */
    method Uart0(incoming: seq<byte>)
      requires Valid() && CanFeed(State(), incoming)
      modifies this, rxBuff
      ensures Valid()
      ensures State() == Fed(old(State()), incoming)
      ensures previousRtc == old(previousRtc)
    {
      var i := 0;
      while i < |incoming|
        invariant 0 <= i <= |incoming|
        invariant Valid() && CanFeed(State(), incoming[i..])
        invariant Fed(State(), incoming[i..]) == Fed(old(State()), incoming)
        invariant previousRtc == old(previousRtc)
      {
        assert incoming[i..][1..] == incoming[i + 1..];
        ReceiveByte(incoming[i]);
        i := i + 1;
      }
    }

    /** `advance_time`: the clock may not run backwards (the u64 difference
        would underflow). */
    method AdvanceTime(newRtc: u64)
      requires previousRtc <= newRtc
      modifies this
      ensures (epochMillis, previousRtc) == Advanced(old(epochMillis), old(previousRtc), newRtc)
      ensures rxIdx == old(rxIdx) && queue == old(queue)
    {
      var millisPassed := newRtc - previousRtc;
      previousRtc := newRtc;
      epochMillis := epochMillis + millisPassed;
    }

    /** One pass of `uart_tx`: the oldest queued response, framed for sending
        outside test mode. */
    method TransmitNext() returns (toWrite: seq<byte>)
      requires Valid() && |queue| > 0
      requires |Framing.Frame(ResponsePayload(queue[0]), false)| <= outSize
      modifies this
      ensures Valid() && queue == old(queue[1..])
      ensures toWrite == Framing.Frame(ResponsePayload(old(queue[0])), false)
      ensures epochMillis == old(epochMillis) && rxIdx == old(rxIdx)
      ensures previousRtc == old(previousRtc)
    {
      var c := queue[0];
      queue := queue[1..];
      var txBuff := new byte[outSize](_ => 0);
      var n := Framing.SerializeCrcCobs(ResponsePayload(c), txBuff, false);
      toWrite := txBuff[..n];
    }
  }
}
