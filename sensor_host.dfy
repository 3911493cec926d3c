/** The host client of the sensor exercise
    (exercise_3/host-client/src/main.rs): three sensor devices publish
    temperature and humidity readings; the host stamps each reading with
    its arrival time, marks a device valid while both of its readings are
    younger than five seconds, and selects the first valid device in the
    priority order rear, top, front.

    Wall-clock time is a number of milliseconds since the Unix epoch, read
    once per iteration of the notification loop. Readings keep the four
    payload bytes they arrived in. */
module SensorHost {
  import opened Common

  const DEVICE_COUNT: nat := 3

  /** `DEVICE_TIMEOUT`: five seconds. */
  const DEVICE_TIMEOUT_MS: nat := 5000

  /** `usize::MAX` of a 64-bit host: no device selected. */
  const NO_DEVICE: nat := 0xFFFF_FFFF_FFFF_FFFF

  const UUID_ESP0: string := "16e337a0-935d-4f32-bf3c-6ded006cesp0"
  const UUID_ESP1: string := "16e337a0-935d-4f32-bf3c-6ded006cesp1"
  const UUID_ESP2: string := "16e337a0-935d-4f32-bf3c-6ded006cesp2"

  datatype DeviceStatus = OK | DEAD

  datatype DevicePosition = Front | Top | Rear

  /** A reading: its raw big-endian bytes and the time it arrived. */
  datatype Reading = Reading(raw: seq<byte>, at: nat)

  datatype Device = Device(id: u32, uuid: string, position: DevicePosition, status: DeviceStatus,
                           temperature: Reading, humidity: Reading, valid: bool)

  datatype Quantity = Temperature | Humidity

  /** The subscribed topics: one per device and quantity. */
  datatype Topic = DataTopic(dev: nat, quantity: Quantity) | OtherTopic

  datatype Publish = Publish(topic: Topic, payload: seq<byte>)

  /** One item of the connection's notification stream with the time the
      loop handles it; `publish` is None for anything but an incoming
      publish packet (errors included). */
  datatype Notification = Notification(publish: Option<Publish>, now: nat)

  function ReadingOf(d: Device, q: Quantity): Reading {
    if q == Temperature then d.temperature else d.humidity
  }

  /** `initialise_devices`. */
  function InitialDevices(): (ds: seq<Device>)
    ensures |ds| == DEVICE_COUNT
    ensures forall k :: 0 <= k < DEVICE_COUNT ==>
      ds[k].id == k && ds[k].status == DEAD && !ds[k].valid
      && ds[k].temperature.at == 0 && ds[k].humidity.at == 0
  {
    var zero := Reading([0, 0, 0, 0], 0);
    [Device(0, UUID_ESP0, Rear, DEAD, zero, zero, false),
     Device(1, UUID_ESP1, Top, DEAD, zero, zero, false),
     Device(2, UUID_ESP2, Front, DEAD, zero, zero, false)]
  }

  /** The publish is a four-byte reading of quantity `q` for device `k`;
      a payload of any other length is ignored. */
  predicate Carries(p: Option<Publish>, k: nat, q: Quantity) {
    p.Some? && p.value.topic == DataTopic(k, q) && |p.value.payload| == 4
  }

  /** Device `d` after its reading of `q` arrived at `now`: it is alive and
      that reading is replaced. */
  function Published(d: Device, q: Quantity, payload: seq<byte>, now: nat): (r: Device)
    ensures r.status == OK && ReadingOf(r, q) == Reading(payload, now)
    ensures r.id == d.id && r.valid == d.valid
    ensures q == Temperature ==> r.humidity == d.humidity
    ensures q == Humidity ==> r.temperature == d.temperature
  {
    if q == Temperature then d.(status := OK, temperature := Reading(payload, now))
    else d.(status := OK, humidity := Reading(payload, now))
  }

  /** The per-topic rule of the notification loop. */
  function ApplyPublish(devs: seq<Device>, p: Option<Publish>, now: nat): (r: seq<Device>)
    requires |devs| == DEVICE_COUNT
    ensures |r| == DEVICE_COUNT
    ensures forall k :: 0 <= k < DEVICE_COUNT && !Carries(p, k, Temperature) && !Carries(p, k, Humidity) ==>
      r[k] == devs[k]
    ensures forall k, q :: 0 <= k < DEVICE_COUNT && Carries(p, k, q) ==>
      r[k] == Published(devs[k], q, p.value.payload, now)
  {
    match p
    case None => devs
    case Some(Publish(OtherTopic, _)) => devs
    case Some(Publish(DataTopic(k, q), payload)) =>
      if k < DEVICE_COUNT && |payload| == 4 then devs[k := Published(devs[k], q, payload, now)] else devs
  }

  /** Neither reading was stamped after `now` (`duration_since` would fail
      and panic). */
  predicate StampedBy(d: Device, now: nat) {
    d.temperature.at <= now && d.humidity.at <= now
  }

  /** The rule of `set_device_valid`. */
  predicate IsValid(d: Device, now: nat)
    requires StampedBy(d, now)
  {
    match d.status
    case OK => now - d.temperature.at < DEVICE_TIMEOUT_MS && now - d.humidity.at < DEVICE_TIMEOUT_MS
    case DEAD => false
  }

  /** `get_select_device`: the id of the first valid device, or `usize::MAX`
      when none is valid. */
  function SelectDevice(devs: seq<Device>): (r: nat)
    requires |devs| == DEVICE_COUNT
    ensures r == NO_DEVICE <==> forall k :: 0 <= k < DEVICE_COUNT ==> !devs[k].valid
    ensures r != NO_DEVICE ==>
      exists k :: 0 <= k < DEVICE_COUNT && devs[k].valid && r == devs[k].id && forall j :: 0 <= j < k ==> !devs[j].valid
  {
    if devs[0].valid then devs[0].id
    else if devs[1].valid then devs[1].id
    else if devs[2].valid then devs[2].id
    else NO_DEVICE
  }

  predicate AllStampedBy(devs: seq<Device>, now: nat) {
    forall k :: 0 <= k < |devs| ==> StampedBy(devs[k], now)
  }

  /** One iteration of the notification loop: the publish (if any) is
      applied, all three devices are revalidated, and during the first five
      seconds after `start` the devices are initialised again. */
  function Step(devs: seq<Device>, n: Notification, start: nat): (r: seq<Device>)
    requires |devs| == DEVICE_COUNT && AllStampedBy(devs, n.now) && start <= n.now
    ensures |r| == DEVICE_COUNT && AllStampedBy(r, n.now)
  {
    var d1 := ApplyPublish(devs, n.publish, n.now);
    assert AllStampedBy(d1, n.now);
    var d2 := seq(DEVICE_COUNT, k requires 0 <= k < DEVICE_COUNT => d1[k].(valid := IsValid(d1[k], n.now)));
    if n.now - start < DEVICE_TIMEOUT_MS then InitialDevices() else d2
  }

  /** The loop sees the clock at or after `start` and never going back. */
  predicate Chronological(evs: seq<Notification>, start: nat) {
    (forall i :: 0 <= i < |evs| ==> start <= evs[i].now)
    && (forall i, j :: 0 <= i < j < |evs| ==> evs[i].now <= evs[j].now)
  }

  /** The devices after the loop has handled `evs`. */
  function Run(evs: seq<Notification>, start: nat): (r: seq<Device>)
    requires Chronological(evs, start)
    ensures |r| == DEVICE_COUNT
    ensures |evs| > 0 ==> AllStampedBy(r, evs[|evs| - 1].now)
    ensures forall k :: 0 <= k < DEVICE_COUNT ==> r[k].id == k
    decreases |evs|
  {
    if |evs| == 0 then InitialDevices()
    else
      var pre := evs[..|evs| - 1];
      var n := evs[|evs| - 1];
      assert Chronological(pre, start);
      var d := Run(pre, start);
      assert AllStampedBy(d, n.now) by {
        if |pre| > 0 {
          assert pre[|pre| - 1].now == evs[|evs| - 2].now <= n.now;
        }
      }
      Step(d, n, start)
  }

  /** The arrival time of the last reading of `q` for device `k` handled
      after the first five seconds, if there was one. */
  function LastStamp(evs: seq<Notification>, start: nat, k: nat, q: Quantity): (r: Option<nat>)
    ensures r.Some? ==> exists i :: 0 <= i < |evs| && r.value == evs[i].now && Carries(evs[i].publish, k, q)
    decreases |evs|
  {
    if |evs| == 0 then None
    else
      var n := evs[|evs| - 1];
      if n.now - start >= DEVICE_TIMEOUT_MS && Carries(n.publish, k, q) then Some(n.now)
      else LastStamp(evs[..|evs| - 1], start, k, q)
  }

  /** Before the five seconds are over, no reading counts. */
  lemma {:induction false} NoStampDuringStartup(evs: seq<Notification>, start: nat, k: nat, q: Quantity)
    requires forall i :: 0 <= i < |evs| ==> evs[i].now - start < DEVICE_TIMEOUT_MS
    ensures LastStamp(evs, start, k, q) == None
    decreases |evs|
  {
    if |evs| > 0 {
      var pre := evs[..|evs| - 1];
      assert forall i :: 0 <= i < |pre| ==> pre[i].now - start < DEVICE_TIMEOUT_MS by {
        forall i | 0 <= i < |pre| ensures pre[i].now - start < DEVICE_TIMEOUT_MS {
          assert pre[i] == evs[i];
        }
      }
      NoStampDuringStartup(pre, start, k, q);
    }
  }

  function OrZero(o: Option<nat>): nat {
    if o.Some? then o.value else 0
  }

  /** What the devices record after any run of the loop: each reading's
      stamp is the time of the last reading of it after start-up (0 if none),
      a device is alive iff some reading of it arrived after start-up, and its
      valid flag is the validity rule at the last iteration's time. */
  predicate Tracks(devs: seq<Device>, evs: seq<Notification>, start: nat)
    requires |devs| == DEVICE_COUNT && |evs| > 0 && AllStampedBy(devs, evs[|evs| - 1].now)
  {
    forall k :: 0 <= k < DEVICE_COUNT ==>
      devs[k].temperature.at == OrZero(LastStamp(evs, start, k, Temperature))
      && devs[k].humidity.at == OrZero(LastStamp(evs, start, k, Humidity))
      && (devs[k].status == OK <==>
            LastStamp(evs, start, k, Temperature).Some? || LastStamp(evs, start, k, Humidity).Some?)
      && devs[k].valid == IsValid(devs[k], evs[|evs| - 1].now)
  }

  lemma {:induction false} RunTracks(evs: seq<Notification>, start: nat)
    requires Chronological(evs, start) && |evs| > 0
    ensures Tracks(Run(evs, start), evs, start)
    decreases |evs|
  {
    var pre := evs[..|evs| - 1];
    var n := evs[|evs| - 1];
    assert Chronological(pre, start);
    if n.now - start < DEVICE_TIMEOUT_MS {
      StartupTracks(evs, start);
    } else if |pre| == 0 {
      FirstTracks(evs, start);
    } else {
      RunTracks(pre, start);
      StepTracks(evs, start);
    }
  }

  /** An iteration inside the first five seconds leaves the devices as
      initialised, and no reading has counted yet. */
  lemma StartupTracks(evs: seq<Notification>, start: nat)
    requires Chronological(evs, start) && |evs| > 0
    requires evs[|evs| - 1].now - start < DEVICE_TIMEOUT_MS
    ensures Tracks(Run(evs, start), evs, start)
  {
    var n := evs[|evs| - 1];
    assert Run(evs, start) == InitialDevices();
    forall i | 0 <= i < |evs| ensures evs[i].now - start < DEVICE_TIMEOUT_MS {
      if i < |evs| - 1 {
        assert evs[i].now <= n.now;
      }
    }
    forall k: nat, q | k < DEVICE_COUNT ensures LastStamp(evs, start, k, q) == None {
      NoStampDuringStartup(evs, start, k, q);
    }
  }

  /** The iteration that handles `n` after start-up, from devices that
      track the earlier events `pre`. */
  lemma StepTracksFrom(pre: seq<Notification>, d: seq<Device>, n: Notification, start: nat)
    requires |d| == DEVICE_COUNT && AllStampedBy(d, n.now) && start <= n.now
    requires n.now - start >= DEVICE_TIMEOUT_MS
    requires forall k, q :: 0 <= k < DEVICE_COUNT ==>
      ReadingOf(d[k], q).at == OrZero(LastStamp(pre, start, k, q))
    requires forall k :: 0 <= k < DEVICE_COUNT ==>
      (d[k].status == OK <==> LastStamp(pre, start, k, Temperature).Some? || LastStamp(pre, start, k, Humidity).Some?)
    ensures Tracks(Step(d, n, start), pre + [n], start)
  {
    var evs := pre + [n];
    assert evs[..|evs| - 1] == pre;
    var r := Step(d, n, start);
    var d1 := ApplyPublish(d, n.publish, n.now);
    forall k | 0 <= k < DEVICE_COUNT
      ensures r[k] == d1[k].(valid := IsValid(d1[k], n.now))
      ensures forall q :: ReadingOf(d1[k], q).at == OrZero(LastStamp(evs, start, k, q))
      ensures d1[k].status == OK <==> LastStamp(evs, start, k, Temperature).Some? || LastStamp(evs, start, k, Humidity).Some?
    {
      forall q ensures ReadingOf(d1[k], q).at == OrZero(LastStamp(evs, start, k, q)) {
        if Carries(n.publish, k, q) {
          assert d1[k] == Published(d[k], q, n.publish.value.payload, n.now);
        } else {
          assert ReadingOf(d[k], q).at == OrZero(LastStamp(pre, start, k, q));
        }
      }
    }
  }

  lemma StepTracks(evs: seq<Notification>, start: nat)
    requires Chronological(evs, start) && |evs| > 1
    requires evs[|evs| - 1].now - start >= DEVICE_TIMEOUT_MS
    requires Chronological(evs[..|evs| - 1], start)
    requires Tracks(Run(evs[..|evs| - 1], start), evs[..|evs| - 1], start)
    ensures Tracks(Run(evs, start), evs, start)
  {
    var pre := evs[..|evs| - 1];
    var n := evs[|evs| - 1];
    var d := Run(pre, start);
    assert pre[|pre| - 1].now <= n.now;
    forall k, q | 0 <= k < DEVICE_COUNT
      ensures ReadingOf(d[k], q).at == OrZero(LastStamp(pre, start, k, q))
    {
    }
    assert pre + [n] == evs;
    StepTracksFrom(pre, d, n, start);
  }

  lemma FirstTracks(evs: seq<Notification>, start: nat)
    requires Chronological(evs, start) && |evs| == 1
    requires evs[0].now - start >= DEVICE_TIMEOUT_MS
    ensures Tracks(Run(evs, start), evs, start)
  {
    var pre := evs[..0];
    assert pre == [];
    var d := InitialDevices();
    assert Run(evs, start) == Step(d, evs[0], start);
    assert [] + [evs[0]] == evs;
    StepTracksFrom(pre, d, evs[0], start);
  }

  /** A reading that counts is younger than five seconds exactly when it is
      recent; a missing one is stamped at the epoch, which is always too old
      once the start-up window is over. */
  predicate Recent(evs: seq<Notification>, start: nat, k: nat, q: Quantity, now: nat) {
    var s := LastStamp(evs, start, k, q);
    s.Some? && now - s.value < DEVICE_TIMEOUT_MS
  }

  /** After any run of the loop, a device is valid exactly when, after the
      first five seconds, both a temperature and a humidity reading of it
      arrived less than five seconds before the last iteration. */
  lemma ValidIffRecent(evs: seq<Notification>, start: nat, k: nat)
    requires Chronological(evs, start) && |evs| > 0 && k < DEVICE_COUNT
    ensures var now := evs[|evs| - 1].now;
      Run(evs, start)[k].valid <==>
        now - start >= DEVICE_TIMEOUT_MS && BothRecent(evs, start, k, now)
  {
    var now := evs[|evs| - 1].now;
    if now - start < DEVICE_TIMEOUT_MS {
      StartupTracks(evs, start);
    } else {
      RunTracks(evs, start);
    }
  }

  /** Hence the selected device is the first, in priority order, with both
      readings recent, and none is selected while the loop is in its first
      five seconds. */
  lemma SelectedIsFirstRecent(evs: seq<Notification>, start: nat)
    requires Chronological(evs, start) && |evs| > 0
    ensures var now := evs[|evs| - 1].now;
      var sel := SelectDevice(Run(evs, start));
      (now - start < DEVICE_TIMEOUT_MS ==> sel == NO_DEVICE)
      && (sel != NO_DEVICE ==>
            sel < DEVICE_COUNT && BothRecent(evs, start, sel, now)
            && forall j :: 0 <= j < sel ==> !BothRecent(evs, start, j, now))
  {
    var now := evs[|evs| - 1].now;
    var d := Run(evs, start);
    var sel := SelectDevice(d);
    SelectsFirstValid(d);
    if now - start < DEVICE_TIMEOUT_MS {
      forall k | 0 <= k < DEVICE_COUNT ensures !d[k].valid {
        ValidIffRecent(evs, start, k);
      }
    }
    if sel != NO_DEVICE {
      ValidIffRecent(evs, start, sel);
      forall j | 0 <= j < sel ensures !BothRecent(evs, start, j, now) {
        ValidIffRecent(evs, start, j);
      }
    }
  }

  /** With ids equal to positions, the selected id is the position of the
      first valid device. */
  lemma SelectsFirstValid(d: seq<Device>)
    requires |d| == DEVICE_COUNT && forall k :: 0 <= k < DEVICE_COUNT ==> d[k].id == k
    ensures var sel := SelectDevice(d);
      sel != NO_DEVICE ==> sel < DEVICE_COUNT && d[sel].valid && forall j :: 0 <= j < sel ==> !d[j].valid
  {
  }

  predicate BothRecent(evs: seq<Notification>, start: nat, k: nat, now: nat) {
    Recent(evs, start, k, Temperature, now) && Recent(evs, start, k, Humidity, now)
  }

  /** The publish handling of one loop iteration, in place. */
  method HandlePublish(devices: array<Device>, p: Option<Publish>, now: nat)
    requires devices.Length == DEVICE_COUNT
    modifies devices
    ensures devices[..] == ApplyPublish(old(devices[..]), p, now)
  {
    if p.Some? && p.value.topic.DataTopic? && |p.value.payload| == 4 {
      var k := p.value.topic.dev;
      if k < DEVICE_COUNT {
        var d := devices[k];
        devices[k] := if p.value.topic.quantity == Temperature
                      then d.(status := OK, temperature := Reading(p.value.payload, now))
                      else d.(status := OK, humidity := Reading(p.value.payload, now));
      }
    }
  }

  /** `set_device_valid` on device `k`. */
  method SetDeviceValid(devices: array<Device>, k: nat, now: nat)
    requires k < devices.Length && StampedBy(devices[k], now)
    modifies devices
    ensures devices[..] == old(devices[..])[k := old(devices[k]).(valid := IsValid(old(devices[k]), now))]
  {
    var d := devices[k];
    var temperatureAge := now - d.temperature.at;
    var humidityAge := now - d.humidity.at;
    match d.status {
      case OK =>
        if temperatureAge < DEVICE_TIMEOUT_MS && humidityAge < DEVICE_TIMEOUT_MS {
          devices[k] := d.(valid := true);
        } else {
          devices[k] := d.(valid := false);
        }
      case DEAD =>
        devices[k] := d.(valid := false);
    }
  }

  /** `initialise_devices` written into the device array. */
  method Initialise(devices: array<Device>)
    requires devices.Length == DEVICE_COUNT
    modifies devices
    ensures devices[..] == InitialDevices()
  {
    var init := InitialDevices();
    devices[0] := init[0];
    devices[1] := init[1];
    devices[2] := init[2];
  }

  /** One iteration of the notification loop, in place. */
  method Iterate(devices: array<Device>, n: Notification, start: nat)
    requires devices.Length == DEVICE_COUNT && AllStampedBy(devices[..], n.now) && start <= n.now
    modifies devices
    ensures devices[..] == Step(old(devices[..]), n, start)
  {
    HandlePublish(devices, n.publish, n.now);
    ghost var d1 := devices[..];
    assert AllStampedBy(d1, n.now);
    SetDeviceValid(devices, 0, n.now);
    SetDeviceValid(devices, 1, n.now);
    SetDeviceValid(devices, 2, n.now);
    if n.now - start < DEVICE_TIMEOUT_MS {
      Initialise(devices);
    } else {
      assert devices[..] == seq(DEVICE_COUNT, k requires 0 <= k < DEVICE_COUNT => d1[k].(valid := IsValid(d1[k], n.now)));
    }
  }

  /** The notification loop of `main` over the notifications `evs`; it
      ends with the devices the loop holds and the device a status report
      at the last iteration would show. The source reports status only
      after start-up; during start-up `selected` is the no-device value
      (SelectedIsFirstRecent), which the source never shows. */
  method MainLoop(evs: seq<Notification>, start: nat) returns (devices: array<Device>, selected: nat)
    requires Chronological(evs, start)
    ensures fresh(devices)
    ensures devices[..] == Run(evs, start)
    ensures selected == SelectDevice(Run(evs, start))
  {
    var init := InitialDevices();
    devices := new Device[DEVICE_COUNT](k requires 0 <= k < DEVICE_COUNT => init[k]);
    assert devices[..] == init;
    for i := 0 to |evs|
      invariant devices[..] == Run(evs[..i], start)
    {
      var n := evs[i];
      assert evs[..i + 1][..i] == evs[..i];
      assert evs[..i + 1][i] == n;
      assert Chronological(evs[..i], start);
      assert AllStampedBy(devices[..], n.now) by {
        if i > 0 {
          assert evs[..i][i - 1].now == evs[i - 1].now <= n.now;
        }
      }
      Iterate(devices, n, start);
    }
    assert evs[..|evs|] == evs;
    selected := SelectDevice(devices[..]);
  }
}
