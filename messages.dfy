/** The messages of the serial link and their fixed-layout serialisation.

    The byte layout stands in for `ssmarshal`: fields in declaration order,
    each integer as fixed-width little-endian bytes (an i32 as its two's
    complement bits), and each enum as a one-byte variant index before the
    variant's fields. What the framing relies on is proved below rather than
    assumed: deserialising a serialised value gives the value back together
    with the number of bytes it took, whatever follows it (round trip and
    prefix delimitation). */
module Messages {
  import opened Common
  import opened DateTime

  type Id = u32
  type DevId = u32
  type Parameter = u32

  datatype Message =
    | A(udt: UtcDateTime)
    | B(value: u32)
    | C(durationSecs: u32, freqHz: u32)
    | D(at: UtcDateTime, durationSecs: u32, freqHz: u32)

  datatype Command =
    | Set(id: Id, msg: Message, devId: DevId)
    | Get(id: Id, param: Parameter, devId: DevId)

  datatype Response =
    | Data(id: Id, param: Parameter, value: u32, devId: DevId)
    | SetOk
    | ParseError
    | NotOK
    | Illegal

  datatype Faults = BitFlipData

  /** The two instantiations of the generic (de)serialiser that the link uses:
      commands travel host to device, responses device to host. */
  datatype Kind = CommandKind | ResponseKind

  datatype Payload = CommandPayload(cmd: Command) | ResponsePayload(rsp: Response)

  function KindOf(p: Payload): Kind {
    match p
    case CommandPayload(_) => CommandKind
    case ResponsePayload(_) => ResponseKind
  }

  // ---- serialisation ----

  function SerUtc(u: UtcDateTime): seq<byte> {
    LeU32(I32Bits(u.year)) + LeU32(u.month) + LeU32(u.day) + SerTime(u)
  }

  function SerTime(u: UtcDateTime): seq<byte> {
    LeU32(u.hour) + LeU32(u.minute) + LeU32(u.second) + LeU32(u.nanoseconds)
  }

  function SerMessage(m: Message): seq<byte> {
    match m
    case A(u) => [0] + SerUtc(u)
    case B(v) => [1] + LeU32(v)
    case C(d, f) => [2] + LeU32(d) + LeU32(f)
    case D(u, d, f) => [3] + SerUtc(u) + LeU32(d) + LeU32(f)
  }

  function SerCommand(c: Command): seq<byte> {
    match c
    case Set(id, m, dev) => [0] + LeU32(id) + SerMessage(m) + LeU32(dev)
    case Get(id, p, dev) => [1] + LeU32(id) + LeU32(p) + LeU32(dev)
  }

  function SerResponse(r: Response): seq<byte> {
    match r
    case Data(id, p, v, dev) => [0] + LeU32(id) + LeU32(p) + LeU32(v) + LeU32(dev)
    case SetOk => [1]
    case ParseError => [2]
    case NotOK => [3]
    case Illegal => [4]
  }

  /** `ssmarshal::serialize` of a payload. */
  function Serialize(p: Payload): seq<byte> {
    match p
    case CommandPayload(c) => SerCommand(c)
    case ResponsePayload(r) => SerResponse(r)
  }

  // ---- deserialisation: each parser returns the value and the rest ----

  /** Hour, minute, second and nanosecond, in that order. */
  function ParseTime(s: seq<byte>): (r: Option<((u32, u32, u32, u32), seq<byte>)>)
    ensures r.Some? ==> |r.value.1| < |s|
  {
    var (h, s1) :- ParseU32(s);
    var (mi, s2) :- ParseU32(s1);
    var (se, s3) :- ParseU32(s2);
    var (ns, s4) :- ParseU32(s3);
    Some(((h, mi, se, ns), s4))
  }

  function ParseUtc(s: seq<byte>): (r: Option<(UtcDateTime, seq<byte>)>)
    ensures r.Some? ==> |r.value.1| < |s|
  {
    var (y, s1) :- ParseU32(s);
    var (mo, s2) :- ParseU32(s1);
    var (d, s3) :- ParseU32(s2);
    var (t, s4) :- ParseTime(s3);
    Some((UtcDateTime(BitsI32(y), mo, d, t.0, t.1, t.2, t.3), s4))
  }

  /** The fields of `C` and `D` after the variant index. */
  function ParseC(s: seq<byte>): (r: Option<(Message, seq<byte>)>)
    ensures r.Some? ==> |r.value.1| < |s|
  {
    var (d, s1) :- ParseU32(s);
    var (f, s2) :- ParseU32(s1);
    Some((C(d, f), s2))
  }

  function ParseD(s: seq<byte>): (r: Option<(Message, seq<byte>)>)
    ensures r.Some? ==> |r.value.1| < |s|
  {
    var (u, s1) :- ParseUtc(s);
    var (d, s2) :- ParseU32(s1);
    var (f, s3) :- ParseU32(s2);
    Some((D(u, d, f), s3))
  }

  function ParseMessage(s: seq<byte>): (r: Option<(Message, seq<byte>)>)
    ensures r.Some? ==> |r.value.1| < |s|
  {
    if |s| == 0 then None
    else if s[0] == 0 then
      var (u, s1) :- ParseUtc(s[1..]);
      Some((A(u), s1))
    else if s[0] == 1 then
      var (v, s1) :- ParseU32(s[1..]);
      Some((B(v), s1))
    else if s[0] == 2 then ParseC(s[1..])
    else if s[0] == 3 then ParseD(s[1..])
    else None
  }

  /** The fields of `Set` and `Get` after the variant index. */
  function ParseSet(s: seq<byte>): (r: Option<(Command, seq<byte>)>)
    ensures r.Some? ==> |r.value.1| < |s|
  {
    var (id, s1) :- ParseU32(s);
    var (m, s2) :- ParseMessage(s1);
    var (dev, s3) :- ParseU32(s2);
    Some((Set(id, m, dev), s3))
  }

  function ParseGet(s: seq<byte>): (r: Option<(Command, seq<byte>)>)
    ensures r.Some? ==> |r.value.1| < |s|
  {
    var (id, s1) :- ParseU32(s);
    var (p, s2) :- ParseU32(s1);
    var (dev, s3) :- ParseU32(s2);
    Some((Get(id, p, dev), s3))
  }

  function ParseCommand(s: seq<byte>): (r: Option<(Command, seq<byte>)>)
    ensures r.Some? ==> |r.value.1| < |s|
  {
    if |s| == 0 then None
    else if s[0] == 0 then ParseSet(s[1..])
    else if s[0] == 1 then ParseGet(s[1..])
    else None
  }

  /** The fields of `Data` after the variant index. */
  function ParseData(s: seq<byte>): (r: Option<(Response, seq<byte>)>)
    ensures r.Some? ==> |r.value.1| < |s|
  {
    var (id, s1) :- ParseU32(s);
    var (p, s2) :- ParseU32(s1);
    var (v, s3) :- ParseU32(s2);
    var (dev, s4) :- ParseU32(s3);
    Some((Data(id, p, v, dev), s4))
  }

  function ParseResponse(s: seq<byte>): (r: Option<(Response, seq<byte>)>)
    ensures r.Some? ==> |r.value.1| < |s|
  {
    if |s| == 0 then None
    else if s[0] == 0 then ParseData(s[1..])
    else if s[0] == 1 then Some((SetOk, s[1..]))
    else if s[0] == 2 then Some((ParseError, s[1..]))
    else if s[0] == 3 then Some((NotOK, s[1..]))
    else if s[0] == 4 then Some((Illegal, s[1..]))
    else None
  }

  /** `ssmarshal::deserialize::<T>`: the value read from the front of `s` and
      the number of bytes it used, or None where ssmarshal reports an error
      (too few bytes, an unknown variant index). */
  function Deserialize(k: Kind, s: seq<byte>): (r: Option<(Payload, nat)>)
    ensures r.Some? ==> KindOf(r.value.0) == k && 0 < r.value.1 <= |s|
  {
    match k
    case CommandKind =>
      var (c, rest) :- ParseCommand(s);
      Some((CommandPayload(c), |s| - |rest|))
    case ResponseKind =>
      var (rsp, rest) :- ParseResponse(s);
      Some((ResponsePayload(rsp), |s| - |rest|))
  }

  // ---- round trips ----
  // Each serialiser appends its fields left to right; the layout lemmas
  // regroup `fields + rest` to the right so that every parser step sees
  // its own field in front of the rest, and the field lemmas run the
  // parsers over that shape.

  lemma TimeLayout(u: UtcDateTime, rest: seq<byte>)
    ensures SerTime(u) + rest
      == LeU32(u.hour) + (LeU32(u.minute) + (LeU32(u.second) + (LeU32(u.nanoseconds) + rest)))
  {
  }

  lemma ParseSerTime(u: UtcDateTime, rest: seq<byte>)
    ensures ParseTime(SerTime(u) + rest) == Some(((u.hour, u.minute, u.second, u.nanoseconds), rest))
  {
    TimeLayout(u, rest);
    var r3 := LeU32(u.nanoseconds) + rest;
    var r2 := LeU32(u.second) + r3;
    var r1 := LeU32(u.minute) + r2;
    ParseLeU32(u.hour, r1);
    ParseLeU32(u.minute, r2);
    ParseLeU32(u.second, r3);
    ParseLeU32(u.nanoseconds, rest);
  }

  lemma UtcLayout(u: UtcDateTime, rest: seq<byte>)
    ensures SerUtc(u) + rest
      == LeU32(I32Bits(u.year)) + (LeU32(u.month) + (LeU32(u.day) + (SerTime(u) + rest)))
  {
  }

  lemma ParseSerUtc(u: UtcDateTime, rest: seq<byte>)
    ensures ParseUtc(SerUtc(u) + rest) == Some((u, rest))
  {
    UtcLayout(u, rest);
    var r3 := SerTime(u) + rest;
    var r2 := LeU32(u.day) + r3;
    var r1 := LeU32(u.month) + r2;
    ParseLeU32(I32Bits(u.year), r1);
    ParseLeU32(u.month, r2);
    ParseLeU32(u.day, r3);
    ParseSerTime(u, rest);
    I32BitsRoundTrip(u.year);
  }

  /** `([tag] + x)[1..] == x`, the step past a variant index. */
  lemma SkipTag(tag: byte, x: seq<byte>)
    ensures ([tag] + x)[0] == tag && ([tag] + x)[1..] == x
  {
  }

  /** Concatenation regroups. */
  lemma Assoc(a: seq<byte>, b: seq<byte>, c: seq<byte>)
    ensures (a + b) + c == a + (b + c)
  {
  }

  lemma MessageLayout(m: Message, rest: seq<byte>)
    ensures match m
      case A(u) => SerMessage(m) + rest == [0] + (SerUtc(u) + rest)
      case B(v) => SerMessage(m) + rest == [1] + (LeU32(v) + rest)
      case C(d, f) => SerMessage(m) + rest == [2] + (LeU32(d) + (LeU32(f) + rest))
      case D(u, d, f) => SerMessage(m) + rest == [3] + (SerUtc(u) + (LeU32(d) + (LeU32(f) + rest)))
  {
    match m
    case A(u) => Assoc([0], SerUtc(u), rest);
    case B(v) => Assoc([1], LeU32(v), rest);
    case C(d, f) =>
      Assoc([2] + LeU32(d), LeU32(f), rest);
      Assoc([2], LeU32(d), LeU32(f) + rest);
    case D(u, d, f) =>
      var x := [3] + SerUtc(u);
      Assoc(x + LeU32(d), LeU32(f), rest);
      Assoc(x, LeU32(d), LeU32(f) + rest);
      Assoc([3], SerUtc(u), LeU32(d) + (LeU32(f) + rest));
  }

  lemma ParseSerMessage(m: Message, rest: seq<byte>)
    ensures ParseMessage(SerMessage(m) + rest) == Some((m, rest))
  {
    MessageLayout(m, rest);
    match m
    case A(u) =>
      SkipTag(0, SerUtc(u) + rest);
      ParseSerUtc(u, rest);
    case B(v) =>
      SkipTag(1, LeU32(v) + rest);
      ParseLeU32(v, rest);
    case C(d, f) =>
      var r1 := LeU32(f) + rest;
      SkipTag(2, LeU32(d) + r1);
      ParseLeU32(d, r1);
      ParseLeU32(f, rest);
    case D(u, d, f) =>
      var r1 := LeU32(d) + (LeU32(f) + rest);
      SkipTag(3, SerUtc(u) + r1);
      ParseDFields(u, d, f, rest);
  }

  lemma ParseDFields(u: UtcDateTime, d: u32, f: u32, rest: seq<byte>)
    ensures ParseD(SerUtc(u) + (LeU32(d) + (LeU32(f) + rest))) == Some((D(u, d, f), rest))
  {
    var r2 := LeU32(f) + rest;
    var r1 := LeU32(d) + r2;
    ParseSerUtc(u, r1);
    ParseLeU32(d, r2);
    ParseLeU32(f, rest);
  }

  lemma CommandLayout(c: Command, rest: seq<byte>)
    ensures match c
      case Set(id, m, dev) => SerCommand(c) + rest == [0] + (LeU32(id) + (SerMessage(m) + (LeU32(dev) + rest)))
      case Get(id, p, dev) => SerCommand(c) + rest == [1] + (LeU32(id) + (LeU32(p) + (LeU32(dev) + rest)))
  {
    match c
    case Set(id, m, dev) =>
      var x := [0] + LeU32(id);
      Assoc(x + SerMessage(m), LeU32(dev), rest);
      Assoc(x, SerMessage(m), LeU32(dev) + rest);
      Assoc([0], LeU32(id), SerMessage(m) + (LeU32(dev) + rest));
    case Get(id, p, dev) =>
      var x := [1] + LeU32(id);
      Assoc(x + LeU32(p), LeU32(dev), rest);
      Assoc(x, LeU32(p), LeU32(dev) + rest);
      Assoc([1], LeU32(id), LeU32(p) + (LeU32(dev) + rest));
  }

  lemma ParseSerCommand(c: Command, rest: seq<byte>)
    ensures ParseCommand(SerCommand(c) + rest) == Some((c, rest))
  {
    CommandLayout(c, rest);
    match c
    case Set(id, m, dev) =>
      var r1 := SerMessage(m) + (LeU32(dev) + rest);
      SkipTag(0, LeU32(id) + r1);
      ParseSetFields(id, m, dev, rest);
    case Get(id, p, dev) =>
      var r2 := LeU32(dev) + rest;
      var r1 := LeU32(p) + r2;
      SkipTag(1, LeU32(id) + r1);
      ParseLeU32(id, r1);
      ParseLeU32(p, r2);
      ParseLeU32(dev, rest);
  }

  lemma ParseSetFields(id: Id, m: Message, dev: DevId, rest: seq<byte>)
    ensures ParseSet(LeU32(id) + (SerMessage(m) + (LeU32(dev) + rest))) == Some((Set(id, m, dev), rest))
  {
    var r2 := LeU32(dev) + rest;
    var r1 := SerMessage(m) + r2;
    ParseLeU32(id, r1);
    ParseSerMessage(m, r2);
    ParseLeU32(dev, rest);
  }

  lemma ParseSerResponse(r: Response, rest: seq<byte>)
    ensures ParseResponse(SerResponse(r) + rest) == Some((r, rest))
  {
    match r
    case Data(id, p, v, dev) =>
      DataLayout(id, p, v, dev, rest);
      var r3 := LeU32(dev) + rest;
      var r2 := LeU32(v) + r3;
      var r1 := LeU32(p) + r2;
      SkipTag(0, LeU32(id) + r1);
      ParseLeU32(id, r1);
      ParseLeU32(p, r2);
      ParseLeU32(v, r3);
      ParseLeU32(dev, rest);
    case _ =>
      SkipTag(SerResponse(r)[0], rest);
  }

  lemma DataLayout(id: Id, p: u32, v: u32, dev: DevId, rest: seq<byte>)
    ensures SerResponse(Data(id, p, v, dev)) + rest
      == [0] + (LeU32(id) + (LeU32(p) + (LeU32(v) + (LeU32(dev) + rest))))
  {
  }

  lemma DeserializeSerialize(p: Payload, rest: seq<byte>)
    ensures Deserialize(KindOf(p), Serialize(p) + rest) == Some((p, |Serialize(p)|))
  {
    match p
    case CommandPayload(c) => ParseSerCommand(c, rest);
    case ResponsePayload(r) => ParseSerResponse(r, rest);
  }

  /** The longest serialised command is a Set carrying a D message. */
  lemma CommandSize(c: Command)
    ensures 13 <= |SerCommand(c)| <= 46
  {
  }

  /** The longest serialised response is Data; the others are a single byte. */
  lemma ResponseSize(r: Response)
    ensures 1 <= |SerResponse(r)| <= 17
  {
  }
}
