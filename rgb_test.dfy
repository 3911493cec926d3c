/** The day-phase lamp (esp32c3/examples/rgb_test.rs): on each pass of its
    main loop the program reads the real-time clock, picks the colour of the
    phase of day the reading falls in (dawn, noon, evening, night; minutes of
    the clock stand for hours), blanks it on every other pass and writes it to
    the LED. Colours are kept as the HSV triples of the source; conversion
    to RGB, gamma and brightness are not modelled. */
module RgbTest {
  import opened Common

  const DAWN_START_SEC: nat := 3 * 60
  const NOON_START_SEC: nat := 9 * 60
  const EVENING_START_SEC: nat := 15 * 60
  const NIGHT_START_SEC: nat := 21 * 60

  datatype Hsv = Hsv(hue: byte, sat: byte, val: byte)

  const DAWN: Hsv := Hsv(42, 211, 248)
  const NOON: Hsv := Hsv(125, 99, 255)
  const EVENING: Hsv := Hsv(144, 241, 224)
  const NIGHT: Hsv := Hsv(231, 213, 240)
  const LED_OFF: Hsv := Hsv(0, 0, 0)

  datatype Phase = Dawn | Noon | Evening | Night

  /** The if-chain on `time_sec`. */
  function PhaseAt(timeSec: nat): (p: Phase)
    ensures p == Dawn <==> DAWN_START_SEC <= timeSec < NOON_START_SEC
    ensures p == Noon <==> NOON_START_SEC <= timeSec < EVENING_START_SEC
    ensures p == Evening <==> EVENING_START_SEC <= timeSec < NIGHT_START_SEC
    ensures p == Night <==> timeSec < DAWN_START_SEC || NIGHT_START_SEC <= timeSec
  {
    if timeSec >= DAWN_START_SEC && timeSec < NOON_START_SEC then Dawn
    else if timeSec >= NOON_START_SEC && timeSec < EVENING_START_SEC then Noon
    else if timeSec >= EVENING_START_SEC && timeSec < NIGHT_START_SEC then Evening
    else Night
  }

  function ColorOf(p: Phase): Hsv {
    match p
    case Dawn => DAWN
    case Noon => NOON
    case Evening => EVENING
    case Night => NIGHT
  }

  /** The colour written on a pass at RTC reading `rtcMillis` with the LED
      switched on or off. */
  function Written(rtcMillis: nat, ledOn: bool): Hsv {
    if ledOn then ColorOf(PhaseAt(rtcMillis / 1000)) else LED_OFF
  }

  /** Every phase colour is lit, so a pass writes the blank colour exactly
      when the LED is off; and the phase depends only on whole seconds. */
  lemma WrittenOffIffOff(rtcMillis: nat, ledOn: bool)
    ensures Written(rtcMillis, ledOn) == LED_OFF <==> !ledOn
    ensures ledOn ==> Written(rtcMillis, ledOn) == Written(rtcMillis / 1000 * 1000, ledOn)
  {
    var t := rtcMillis / 1000;
    assert (t * 1000) / 1000 == t;
  }

  /** The main loop over the clock readings `rtc` of its passes: `led_on`
      starts false and flips after every write. */
  method RunLoop(rtc: seq<u64>) returns (writes: seq<Hsv>)
    ensures |writes| == |rtc|
    ensures forall i :: 0 <= i < |rtc| ==> writes[i] == Written(rtc[i], i % 2 == 1)
  {
    var ledOn := false;
    writes := [];
    var i := 0;
    while i < |rtc|
      invariant 0 <= i <= |rtc|
      invariant ledOn == (i % 2 == 1)
      invariant |writes| == i
      invariant forall j :: 0 <= j < i ==> writes[j] == Written(rtc[j], j % 2 == 1)
    {
      var timeSec := rtc[i] / 1000;
      var color;
      if timeSec >= DAWN_START_SEC && timeSec < NOON_START_SEC {
        color := DAWN;
      } else if timeSec >= NOON_START_SEC && timeSec < EVENING_START_SEC {
        color := NOON;
      } else if timeSec >= EVENING_START_SEC && timeSec < NIGHT_START_SEC {
        color := EVENING;
      } else {
        color := NIGHT;
      }
      if !ledOn {
        color := LED_OFF;
      }
      writes := writes + [color];
      ledOn := !ledOn;
      i := i + 1;
    }
  }

  /** Hence the writes alternate: blank on the first pass and every other
      one after it, the phase colour of the reading on the others. */
  lemma WritesAlternate(rtc: seq<u64>, writes: seq<Hsv>, i: nat)
    requires |writes| == |rtc| && forall j :: 0 <= j < |rtc| ==> writes[j] == Written(rtc[j], j % 2 == 1)
    requires i < |rtc|
    ensures writes[i] == LED_OFF <==> i % 2 == 0
    ensures i % 2 == 1 ==> writes[i] == ColorOf(PhaseAt(rtc[i] / 1000))
  {
    WrittenOffIffOff(rtc[i], i % 2 == 1);
  }
}
