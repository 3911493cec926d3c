/** The tap-tempo application (esp32c3/examples/tap_tempo.rs): a software
    clock of milliseconds, seconds, minutes and hours advanced by a periodic
    timer, and a blinking LED whose period a button press switches between
    500 ms and 250 ms at the next blink. */
module TapTempo {
  import opened Common

  const U64_LIMIT: int := 0x1_0000_0000_0000_0000

  /** The clock timer's period, `TIMER_UPDATE_PERIOD_MS`. */
  const TIMER_UPDATE_PERIOD_MS: u64 := 10

  /** The four fields of an `RTC`. */
  datatype Clock = Clock(millis: u64, secs: u64, mins: u64, hours: u64)

  /** `get_time_millis`: the clock's reading in milliseconds. */
  function TimeMillis(c: Clock): nat {
    c.millis + 1000 * c.secs + 60 * 1000 * c.mins + 60 * 60 * 1000 * c.hours
  }

  /** The fields are in their usual ranges; hours have no bound. */
  predicate Normal(c: Clock) {
    c.millis < 1000 && c.secs < 60 && c.mins < 60
  }

  /** `increment_millis(incr)` does not overflow a u64 field (which would
      panic): neither the sum of milliseconds nor the carry it makes. */
  predicate CanIncrement(c: Clock, incr: u64) {
    c.millis + incr < U64_LIMIT
    && (c.millis + incr >= 1000 ==>
          (c.secs != 59 ==> c.secs + 1 < U64_LIMIT)
          && (c.secs == 59 && c.mins != 59 ==> c.mins + 1 < U64_LIMIT)
          && (c.secs == 59 && c.mins == 59 ==> c.hours + 1 < U64_LIMIT))
  }

  /** The clock after `increment_millis(incr)`: the milliseconds grow by
      `incr`, and when they reach 1000 they lose 1000 once and carry one
      second, which may carry on from 59 into the minutes and from 59
      minutes into the hours. From a normal clock and an increment of at
      most a second, the reading grows by exactly `incr`. */
  function Incremented(c: Clock, incr: u64): (r: Clock)
    requires CanIncrement(c, incr)
    ensures Normal(c) && incr <= 1000 ==> Normal(r) && TimeMillis(r) == TimeMillis(c) + incr
    ensures c.millis + incr < 1000 ==> r == c.(millis := c.millis + incr)
    ensures c.millis + incr >= 1000 && c.secs == 59 && c.mins == 59 ==>
      r.secs == 0 && r.mins == 0 && r.hours == c.hours + 1
  {
    var m := c.millis + incr;
    if m < 1000 then c.(millis := m)
    else if c.secs != 59 then c.(millis := m - 1000, secs := c.secs + 1)
    else if c.mins != 59 then c.(millis := m - 1000, secs := 0, mins := c.mins + 1)
    else Clock(m - 1000, 0, 0, c.hours + 1)
  }

  /** A normal clock whose reading stays below 2^64 after the increment can
      always be incremented. */
  lemma NormalCanIncrement(c: Clock, incr: u64)
    requires Normal(c) && incr <= 1000 && TimeMillis(c) + incr < U64_LIMIT
    ensures CanIncrement(c, incr)
  {
    if c.millis + incr >= 1000 && c.secs == 59 && c.mins == 59 {
      assert 60 * 60 * 1000 * (c.hours + 1) <= TimeMillis(c) + incr;
    }
  }

  /** The clock after `n` timer ticks. */
  function Ticked(c: Clock, n: nat): (r: Clock)
    requires Normal(c) && TimeMillis(c) + TIMER_UPDATE_PERIOD_MS * n < U64_LIMIT
    ensures Normal(r) && TimeMillis(r) == TimeMillis(c) + TIMER_UPDATE_PERIOD_MS * n
    decreases n
  {
    if n == 0 then c
    else
      var p := Ticked(c, n - 1);
      NormalCanIncrement(p, TIMER_UPDATE_PERIOD_MS);
      Incremented(p, TIMER_UPDATE_PERIOD_MS)
  }

  /** A normal clock is determined by its reading: each field is the
      reading's digit in the mixed radix 1000, 60, 60. */
  lemma NormalFromMillis(c: Clock)
    requires Normal(c)
    ensures var t := TimeMillis(c);
      c.millis == t % 1000 && c.secs == t / 1000 % 60
      && c.mins == t / 60_000 % 60 && c.hours == t / 3_600_000
  {
    var t := TimeMillis(c);
    var mh: nat := c.mins + 60 * c.hours;
    var smh: nat := c.secs + 60 * mh;
    assert t == 1000 * smh + c.millis;
    assert t / 1000 == smh;
    assert smh % 60 == c.secs && smh / 60 == mh;
    assert t / 60_000 == mh;
    assert mh % 60 == c.mins && mh / 60 == c.hours;
  }

  /** Hence two normal clocks with the same reading are the same clock. */
  lemma NormalInjective(a: Clock, b: Clock)
    requires Normal(a) && Normal(b) && TimeMillis(a) == TimeMillis(b)
    ensures a == b
  {
    NormalFromMillis(a);
    NormalFromMillis(b);
  }

  /** `RTC`, the shared global clock. */
  class Rtc {
    var millis: u64
    var secs: u64
    var mins: u64
    var hours: u64

    function Value(): Clock
      reads this
    {
      Clock(millis, secs, mins, hours)
    }

    /** The clock of `init`: all fields zero. */
    constructor ()
      ensures Value() == Clock(0, 0, 0, 0)
    {
      millis, secs, mins, hours := 0, 0, 0, 0;
    }

    /** `increment_millis`. */
    method IncrementMillis(incr: u64)
      requires CanIncrement(Value(), incr)
      modifies this
      ensures Value() == Incremented(old(Value()), incr)
    {
      millis := millis + incr;
      if millis >= 1000 {
        millis := millis - 1000;
        if secs == 59 {
          secs := 0;
          if mins == 59 {
            mins := 0;
            hours := hours + 1;
          } else {
            mins := mins + 1;
          }
        } else {
          secs := secs + 1;
        }
      }
    }

    /** `reset`: all fields zero, so the reading is zero. */
    method Reset()
      modifies this
      ensures Value() == Clock(0, 0, 0, 0) && TimeMillis(Value()) == 0
    {
      millis := 0;
      secs := 0;
      mins := 0;
      hours := 0;
    }
  }

  /** What the blink handler works on: the LED level, the blink period and
      the flag the button handler raises. */
  datatype BlinkState = BlinkState(ledHigh: bool, periodMillis: u64, ledSwitch: bool)

  /** The LED state of `init`: LED low, period 500 ms, no switch pending. */
  function InitialBlink(): BlinkState {
    BlinkState(false, 500, false)
  }

  /** `button`: a switch is pending. */
  function Pressed(b: BlinkState): BlinkState {
    b.(ledSwitch := true)
  }

  /** `blink`: invert the LED; if a switch is pending, swap the period
      between 500 and 250 (any period other than 500 becomes 500) and clear
      the flag. */
  function Blinked(b: BlinkState): BlinkState {
    var b1 := b.(ledHigh := !b.ledHigh);
    if b.ledSwitch then b1.(periodMillis := if b.periodMillis == 500 then 250 else 500, ledSwitch := false)
    else b1
  }

  predicate PeriodValid(b: BlinkState) {
    b.periodMillis == 500 || b.periodMillis == 250
  }

  /** The period is always one of the two rates, and a blink after a press
      changes it to the other one while a blink without a press keeps it;
      the LED level flips on every blink. */
  lemma BlinkPeriods(b: BlinkState)
    requires PeriodValid(b)
    ensures PeriodValid(Blinked(b)) && PeriodValid(Pressed(b))
    ensures Blinked(b).ledHigh == !b.ledHigh && !Blinked(b).ledSwitch
    ensures Blinked(Pressed(b)).periodMillis != b.periodMillis
    ensures !b.ledSwitch ==> Blinked(b).periodMillis == b.periodMillis
  {
  }

  /** `n` blinks with no press in between. */
  function Blinks(b: BlinkState, n: nat): BlinkState
    decreases n
  {
    if n == 0 then b else Blinked(Blinks(b, n - 1))
  }

  /** Over `n` blinks the LED flips `n` times; the period is settled by the
      first blink and does not change after it. */
  lemma {:induction false} BlinksAlternate(b: BlinkState, n: nat)
    ensures Blinks(b, n).ledHigh == (b.ledHigh != (n % 2 == 1))
    ensures n >= 1 ==> Blinks(b, n).periodMillis == Blinked(b).periodMillis && !Blinks(b, n).ledSwitch
    decreases n
  {
    if n > 0 {
      BlinksAlternate(b, n - 1);
    }
  }

  /** Two presses, each followed by a blink, bring the period back. */
  lemma PressTwiceRestores(b: BlinkState)
    requires PeriodValid(b)
    ensures Blinked(Pressed(Blinked(Pressed(b)))).periodMillis == b.periodMillis
  {
    BlinkPeriods(b);
    BlinkPeriods(Blinked(Pressed(b)));
  }

  /** The application's state: the shared clock and switch flag, and the
      blink handler's LED and period. */
  class App {
    const globalTime: Rtc
    var ledSwitch: bool
    var ledHigh: bool
    var ledPeriodMillis: u64

    function Blink(): BlinkState
      reads this
    {
      BlinkState(ledHigh, ledPeriodMillis, ledSwitch)
    }

    /** `init`. */
    constructor ()
      ensures fresh(globalTime)
      ensures globalTime.Value() == Clock(0, 0, 0, 0)
      ensures Blink() == InitialBlink() && PeriodValid(Blink())
    {
      globalTime := new Rtc();
      ledSwitch := false;
      ledHigh := false;
      ledPeriodMillis := 500;
    }

    /** The `button` handler. */
    method Button()
      modifies this
      ensures Blink() == Pressed(old(Blink()))
    {
      ledSwitch := true;
    }

    /** The `blink` handler. */
    method BlinkTask()
      modifies this
      ensures Blink() == Blinked(old(Blink()))
    {
      if ledHigh {
        ledHigh := false;
      } else {
        ledHigh := true;
      }
      if ledSwitch == true {
        if ledPeriodMillis == 500 {
          ledPeriodMillis := 250;
        } else {
          ledPeriodMillis := 500;
        }
        ledSwitch := false;
      }
    }

    /** The `timer` handler: the clock advances by one timer period. */
    method Timer()
      requires Normal(globalTime.Value())
      requires TimeMillis(globalTime.Value()) + TIMER_UPDATE_PERIOD_MS < U64_LIMIT
      modifies globalTime
      ensures globalTime.Value() == Ticked(old(globalTime.Value()), 1)
      ensures TimeMillis(globalTime.Value()) == TimeMillis(old(globalTime.Value())) + TIMER_UPDATE_PERIOD_MS
    {
      NormalCanIncrement(globalTime.Value(), TIMER_UPDATE_PERIOD_MS);
      globalTime.IncrementMillis(TIMER_UPDATE_PERIOD_MS);
    }
  }

  /** `n` timer interrupts advance the clock by `n` periods. */
  method RunTimer(app: App, n: nat)
    requires Normal(app.globalTime.Value())
    requires TimeMillis(app.globalTime.Value()) + TIMER_UPDATE_PERIOD_MS * n < U64_LIMIT
    modifies app.globalTime
    ensures app.globalTime.Value() == Ticked(old(app.globalTime.Value()), n)
    ensures TimeMillis(app.globalTime.Value()) == TimeMillis(old(app.globalTime.Value())) + TIMER_UPDATE_PERIOD_MS * n
  {
    ghost var c0 := app.globalTime.Value();
    for i := 0 to n
      invariant app.globalTime.Value() == Ticked(c0, i)
    {
      app.Timer();
    }
  }
}
