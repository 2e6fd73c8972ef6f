/** kern/io/driver.c: which drivers are probed with which devices, over any run of
    registrations. */
module Probing {
  import opened Devices

  /** DEVICE_TYPE_NONE. */
  const NONE := 0

  /** struct driver. */
  class Driver {
    const name: string
    /** Whether there is a probe and a probe_directed function. */
    const probe: bool
    const directed: bool
    const dependsOn: int
    var disabled: bool
    var firstProbe: bool

    constructor (name: string, probe: bool, directed: bool, dependsOn: int, disabled: bool)
      ensures this.name == name && this.probe == probe && this.directed == directed
      ensures this.dependsOn == dependsOn && this.disabled == disabled && !firstProbe
    {
      this.name, this.probe, this.directed := name, probe, directed;
      this.dependsOn, this.disabled, this.firstProbe := dependsOn, disabled, false;
    }
  }

  /** What the assertions of the code ask of a driver. */
  predicate Proper(v: Driver) {
    (v.probe || v.directed) && (v.dependsOn != NONE ==> v.directed)
  }

  /** A call of a probe function, or of a directed one. */
  datatype Probe = Plain(driver: Driver) | Directed(driver: Driver, invoker: Device?)

  predicate Matches(v: Driver, d: Device) {
    v.dependsOn != NONE && v.dependsOn == d.kind
  }

  /** What happens to the registry; a driver is registered disabled or not. */
  datatype Event =
    | DeviceRegistered(device: Device)
    | DriverRegistered(driver: Driver, disabled: bool)
    | DriverEnabled(driver: Driver)

  type History = seq<Event>

  function DevicesOf(h: History): seq<Device> {
    if h == [] then [] else
      DevicesOf(h[..|h| - 1])
      + (match h[|h| - 1] case DeviceRegistered(d) => [d] case _ => [])
  }

  function DriversOf(h: History): seq<Driver> {
    if h == [] then [] else
      DriversOf(h[..|h| - 1])
      + (match h[|h| - 1] case DriverRegistered(v, _) => [v] case _ => [])
  }

  /** A new device is offered to every registered driver that depends on its type,
      disabled or not. */
  function DeviceProbes(drivers: seq<Driver>, d: Device): seq<Probe> {
    if drivers == [] then [] else
      var v := drivers[|drivers| - 1];
      DeviceProbes(drivers[..|drivers| - 1], d) + if Matches(v, d) then [Directed(v, d)] else []
  }

  lemma DeviceProbesNext(drivers: seq<Driver>, k: nat, d: Device)
    requires k < |drivers|
    ensures DeviceProbes(drivers[..k + 1], d)
         == DeviceProbes(drivers[..k], d) + if Matches(drivers[k], d) then [Directed(drivers[k], d)] else []
  {
    assert drivers[..k + 1][..k] == drivers[..k];
  }

  /** A driver is offered every registered device of the type it depends on. */
  function DriverProbes(v: Driver, devices: seq<Device>): seq<Probe> {
    if devices == [] then [] else
      var d := devices[|devices| - 1];
      DriverProbes(v, devices[..|devices| - 1]) + if v.dependsOn == d.kind then [Directed(v, d)] else []
  }

  /** driver_first_probe. */
  function FirstProbes(v: Driver, devices: seq<Device>): seq<Probe> {
    if v.probe then [Plain(v)]
    else if v.dependsOn == NONE then [Directed(v, null)]
    else DriverProbes(v, devices)
  }

  function ProbesOf(e: Event, drivers: seq<Driver>, devices: seq<Device>): seq<Probe> {
    match e
    case DeviceRegistered(d) => DeviceProbes(drivers, d)
    case DriverRegistered(v, disabled) => if disabled then [] else FirstProbes(v, devices)
    case DriverEnabled(v) => FirstProbes(v, devices)
  }

  /** Every probe of a run, in order. */
  function Log(h: History): seq<Probe> {
    if h == [] then [] else
      var before := h[..|h| - 1];
      Log(before) + ProbesOf(h[|h| - 1], DriversOf(before), DevicesOf(before))
  }

  // ---- counting probes

  function Times<T(==)>(x: T, s: seq<T>): nat {
    multiset(s)[x]
  }

  /** How often the run has offered d to v. */
  function Probed(h: History, v: Driver, d: Device): nat {
    Times(Directed(v, d), Log(h))
  }

  /** How often a driver has been registered. */
  function Registrations(v: Driver, h: History): nat {
    Times(DriverRegistered(v, false), h) + Times(DriverRegistered(v, true), h)
  }

  lemma TimesAppend<T>(x: T, a: seq<T>, b: seq<T>)
    ensures Times(x, a + b) == Times(x, a) + Times(x, b)
  {
  }

  lemma {:induction false} TimesDeviceProbes(drivers: seq<Driver>, d: Device, v: Driver, e: Device)
    ensures Times(Directed(v, e), DeviceProbes(drivers, d))
         == if d == e && Matches(v, e) then Times(v, drivers) else 0
  {
    if drivers != [] {
      var n := |drivers| - 1;
      TimesDeviceProbes(drivers[..n], d, v, e);
      assert drivers == drivers[..n] + [drivers[n]];
    }
  }

  lemma {:induction false} TimesDriverProbes(w: Driver, devices: seq<Device>, v: Driver, d: Device)
    ensures Times(Directed(v, d), DriverProbes(w, devices))
         == if w == v && v.dependsOn == d.kind then Times(d, devices) else 0
  {
    if devices != [] {
      var n := |devices| - 1;
      TimesDriverProbes(w, devices[..n], v, d);
      assert devices == devices[..n] + [devices[n]];
    }
  }

  lemma {:induction false} TimesDevice(h: History, d: Device)
    ensures Times(d, DevicesOf(h)) == Times(DeviceRegistered(d), h)
  {
    if h != [] {
      var n := |h| - 1;
      assert h == h[..n] + [h[n]];
      TimesDevice(h[..n], d);
      ListsMore(h[..n], h[n]);
    }
  }

  lemma {:induction false} TimesDriver(h: History, v: Driver)
    ensures Times(v, DriversOf(h)) == Registrations(v, h)
  {
    if h != [] {
      var n := |h| - 1;
      var e := h[n];
      assert h == h[..n] + [e];
      TimesDriver(h[..n], v);
      ListsMore(h[..n], e);
      hide Times, DriversOf, DevicesOf;
      var more := match e case DriverRegistered(w, _) => [w] case _ => [];
      TimesAppend(v, DriversOf(h[..n]), more);
      TimesAppend(DriverRegistered(v, false), h[..n], [e]);
      TimesAppend(DriverRegistered(v, true), h[..n], [e]);
      TimesOne(v, e);
    }
  }

  lemma TimesOne(v: Driver, e: Event)
    ensures Times(v, match e case DriverRegistered(w, _) => [w] case _ => []) == Registrations(v, [e])
  {
  }

  lemma TimesFirst(w: Driver, devices: seq<Device>, v: Driver, d: Device)
    requires Matches(v, d)
    ensures Times(Directed(v, d), FirstProbes(w, devices)) == if w == v && !v.probe then Times(d, devices) else 0
  {
    TimesDriverProbes(w, devices, v, d);
    hide DriverProbes;
  }

  lemma TimesStep(e: Event, drivers: seq<Driver>, devices: seq<Device>, v: Driver, d: Device)
    requires Matches(v, d)
    ensures Times(Directed(v, d), ProbesOf(e, drivers, devices)) ==
            match e
            case DeviceRegistered(f) => if f == d then Times(v, drivers) else 0
            case DriverRegistered(w, disabled) => if w == v && !disabled && !v.probe then Times(d, devices) else 0
            case DriverEnabled(w) => if w == v && !v.probe then Times(d, devices) else 0
  {
    match e
    case DeviceRegistered(f) =>
      TimesDeviceProbes(drivers, f, v, d);
    case DriverRegistered(w, disabled) =>
      hide FirstProbes;
      TimesFirst(w, devices, v, d);
    case DriverEnabled(w) =>
      hide FirstProbes;
      TimesFirst(w, devices, v, d);
  }

  /** How one more event adds to the probes of a driver with a device. */
  lemma OneMore(h: History, e: Event, v: Driver, d: Device)
    requires Matches(v, d)
    ensures Probed(h + [e], v, d) == Probed(h, v, d) +
            match e
            case DeviceRegistered(f) => if f == d then Registrations(v, h) else 0
            case DriverRegistered(w, disabled) => if w == v && !disabled && !v.probe then Times(DeviceRegistered(d), h) else 0
            case DriverEnabled(w) => if w == v && !v.probe then Times(DeviceRegistered(d), h) else 0
  {
    LogMore(h, e);
    hide Times, ProbesOf, Log, DevicesOf, DriversOf;
    TimesAppend(Directed(v, d), Log(h), ProbesOf(e, DriversOf(h), DevicesOf(h)));
    TimesStep(e, DriversOf(h), DevicesOf(h), v, d);
    TimesDevice(h, d);
    TimesDriver(h, v);
  }

  lemma LogMore(h: History, e: Event)
    ensures Log(h + [e]) == Log(h) + ProbesOf(e, DriversOf(h), DevicesOf(h))
  {
    assert (h + [e])[..|h|] == h && (h + [e])[|h|] == e;
  }

  // ---- probes without a device

  lemma {:induction false} NoOthers(devices: seq<Device>, drivers: seq<Driver>, d: Device, w: Driver, p: Probe)
    requires p.Plain? || p.invoker == null
    ensures Times(p, DeviceProbes(drivers, d)) == 0 && Times(p, DriverProbes(w, devices)) == 0
    decreases |devices| + |drivers|
  {
    if drivers != [] {
      NoOthers(devices, drivers[..|drivers| - 1], d, w, p);
    } else if devices != [] {
      NoOthers(devices[..|devices| - 1], drivers, d, w, p);
    }
  }

  /** How often an event calls a probe that is passed no device. */
  lemma TimesAlone(e: Event, drivers: seq<Driver>, devices: seq<Device>, v: Driver, p: Probe)
    requires p == Plain(v) || p == Directed(v, null)
    ensures var n := if p.Plain? then v.probe else !v.probe && v.dependsOn == NONE;
            Times(p, ProbesOf(e, drivers, devices)) ==
            match e
            case DeviceRegistered(_) => 0
            case DriverRegistered(w, disabled) => if w == v && !disabled && n then 1 else 0
            case DriverEnabled(w) => if w == v && n then 1 else 0
  {
    match e
    case DeviceRegistered(d) => NoOthers(devices, drivers, d, v, p);
    case DriverRegistered(w, disabled) => FirstAlone(w, devices, v, p);
    case DriverEnabled(w) => FirstAlone(w, devices, v, p);
  }

  lemma FirstAlone(w: Driver, devices: seq<Device>, v: Driver, p: Probe)
    requires p == Plain(v) || p == Directed(v, null)
    ensures var n := if p.Plain? then v.probe else !v.probe && v.dependsOn == NONE;
            Times(p, FirstProbes(w, devices)) == if w == v && n then 1 else 0
  {
    if !w.probe && w.dependsOn != NONE && devices != [] {
      NoOthers(devices, [], devices[0], w, p);
    }
  }

  /** A probe that is passed no device is called once whenever its driver is
      registered, not disabled, or enabled, if the driver has a plain probe
      function, or a directed one and depends on no type; in all other cases it is
      never called. */
  lemma {:induction false} ProbedAlone(h: History, v: Driver, p: Probe)
    requires p == Plain(v) || p == Directed(v, null)
    ensures var n := if p.Plain? then v.probe else !v.probe && v.dependsOn == NONE;
            Times(p, Log(h)) == if n then Times(DriverRegistered(v, false), h) + Times(DriverEnabled(v), h) else 0
  {
    if h != [] {
      var n := |h| - 1;
      var before, e := h[..n], h[n];
      assert h == before + [e];
      ProbedAlone(before, v, p);
      LogMore(before, e);
      MoreOffers(v, before, e);
      assert Offers(v, h) == Times(DriverRegistered(v, false), h) + Times(DriverEnabled(v), h);
      hide Times, ProbesOf, Log, DevicesOf, DriversOf;
      TimesAppend(p, Log(before), ProbesOf(e, DriversOf(before), DevicesOf(before)));
      TimesAlone(e, DriversOf(before), DevicesOf(before), v, p);
    }
  }

  // ---- each pair exactly once

  /** Nothing is offered before it is there. */
  lemma {:induction false} NoDeviceNoProbe(h: History, v: Driver, d: Device)
    requires Matches(v, d) && DeviceRegistered(d) !in h
    ensures Probed(h, v, d) == 0
  {
    if h != [] {
      var n := |h| - 1;
      NoDeviceNoProbe(h[..n], v, d);
      OneMore(h[..n], h[n], v, d);
      assert h == h[..n] + [h[n]];
    }
  }

  /** A device that is registered once is offered to a driver that depends on its
      type once for every registration of the driver before and, unless the driver
      has a plain probe function, once for every later one that is not disabled and
      once for every later enabling. */
  lemma {:induction false} ProbedExactly(h: History, v: Driver, d: Device, i: nat)
    requires Matches(v, d)
    requires i < |h| && h[i] == DeviceRegistered(d) && Times(DeviceRegistered(d), h) == 1
    ensures Probed(h, v, d) == Registrations(v, h[..i]) + if v.probe then 0 else Offers(v, h[i + 1..])
  {
    var n := |h| - 1;
    var before, e := h[..n], h[n];
    assert h == before + [e];
    TimesAppend(DeviceRegistered(d), before, [e]);
    TimesOneDevice(d, e);
    if n == i {
      assert DeviceRegistered(d) !in before;
    }
    hide Times, Probed;
    OneMore(before, e, v, d);
    if n == i {
      NoDeviceNoProbe(before, v, d);
      assert h[i + 1..] == [] && h[..i] == before;
      NoOffers(v);
    } else {
      hide Registrations, Offers;
      assert h[..i] == before[..i] && h[i + 1..] == before[i + 1..] + [e];
      MoreOffers(v, before[i + 1..], e);
      OnceBefore(h, i, e);
      ProbedExactly(before, v, d, i);
    }
  }

  /** The events that offer a driver the devices present. */
  function Offers(v: Driver, h: History): nat {
    Times(DriverRegistered(v, false), h) + Times(DriverEnabled(v), h)
  }

  lemma NoOffers(v: Driver)
    ensures Offers(v, []) == 0
  {
  }

  lemma MoreOffers(v: Driver, h: History, e: Event)
    ensures Offers(v, h + [e]) == Offers(v, h) +
            match e
            case DeviceRegistered(_) => 0
            case DriverRegistered(w, disabled) => if w == v && !disabled then 1 else 0
            case DriverEnabled(w) => if w == v then 1 else 0
  {
  }

  lemma TimesOneDevice(d: Device, e: Event)
    ensures Times(DeviceRegistered(d), [e]) == if e == DeviceRegistered(d) then 1 else 0
  {
  }

  /** The last event is not one that came before, if that came only once. */
  lemma OnceBefore(h: History, i: nat, e: Event)
    requires i < |h| - 1 && h[|h| - 1] == e && Times(h[i], h) == 1
    ensures e != h[i]
  {
    assert h == h[..|h| - 1] + [e] && h[..|h| - 1][i] == h[i];
  }

  /** The driver and the device are each registered once, the driver not disabled,
      and it is never enabled again. */
  ghost predicate Plainly(h: History, v: Driver, d: Device) {
    && Times(DeviceRegistered(d), h) == 1
    && Times(DriverRegistered(v, false), h) == 1 && DriverRegistered(v, true) !in h
    && DriverEnabled(v) !in h
  }

  /** Whatever the order, each matching pair is probed exactly once. */
  lemma ExactlyOnce(h: History, v: Driver, d: Device)
    requires !v.probe && Matches(v, d) && Plainly(h, v, d)
    ensures Probed(h, v, d) == 1
  {
    var i: nat :| i < |h| && h[i] == DeviceRegistered(d);
    Around(h, i, DriverRegistered(v, false));
    Around(h, i, DriverRegistered(v, true));
    Around(h, i, DriverEnabled(v));
    assert Times(DriverRegistered(v, true), h) == 0 && Times(DriverEnabled(v), h) == 0;
    hide Times, Probed;
    ProbedExactly(h, v, d, i);
  }

  /** An event other than the i-th comes before or after it. */
  lemma Around(h: History, i: nat, e: Event)
    requires i < |h| && h[i] != e
    ensures Times(e, h) == Times(e, h[..i]) + Times(e, h[i + 1..])
  {
    assert h == h[..i] + [h[i]] + h[i + 1..];
  }

  /** A driver registered once, disabled, and not enabled afterwards: the flag
      keeps it from a device only if the device was there first. */
  lemma DisabledUnprobed(h: History, v: Driver, d: Device, i: nat, k: nat)
    requires !v.probe && Matches(v, d)
    requires i < |h| && h[i] == DeviceRegistered(d) && Times(DeviceRegistered(d), h) == 1
    requires k < |h| && h[k] == DriverRegistered(v, true) && Registrations(v, h) == 1
    ensures Probed(h, v, d) == 0 <==> i < k && DriverEnabled(v) !in h[i + 1..]
  {
    Around(h, i, DriverRegistered(v, false));
    Around(h, i, DriverRegistered(v, true));
    if k < i {
      assert h[..i][k] == h[k] && Times(DriverRegistered(v, true), h[..i]) > 0;
    } else {
      assert h[i + 1..][k - i - 1] == h[k] && Times(DriverRegistered(v, true), h[i + 1..]) > 0;
    }
    assert Times(DriverEnabled(v), h[i + 1..]) == 0 <==> DriverEnabled(v) !in h[i + 1..];
    hide Times, Probed;
    ProbedExactly(h, v, d, i);
  }

  /** A disabled driver is probed with a device that is registered after it. */
  lemma DisabledProbed(v: Driver, d: Device)
    requires !v.probe && Matches(v, d)
    ensures Probed([DriverRegistered(v, true), DeviceRegistered(d)], v, d) == 1
  {
    var h := [DriverRegistered(v, true), DeviceRegistered(d)];
    assert h[..1] == [DriverRegistered(v, true)] && h[2..] == [];
    ProbedExactly(h, v, d, 1);
  }

  /** The lists of the driver manager. */
  class Manager {
    var drivers: seq<Driver>
    var devices: seq<Device>
    ghost var history: History
    /** The probes so far. */
    ghost var probes: seq<Probe>

    /** driver_init. */
    constructor ()
      ensures Valid() && history == []
    {
      drivers, devices, history, probes := [], [], [], [];
    }

    ghost predicate Valid()
      reads this
    {
      && drivers == DriversOf(history) && devices == DevicesOf(history) && probes == Log(history)
      && forall v | v in drivers :: Proper(v)
    }

    /** device_register. */
    method RegisterDevice(device: Device)
      requires Valid()
      modifies this
      ensures Valid() && history == old(history) + [DeviceRegistered(device)]
    {
      ghost var e := DeviceRegistered(device);
      LogMore(history, e);
      ListsMore(history, e);
      assert ProbesOf(e, drivers, devices) == DeviceProbes(drivers, device);
      hide Log, ProbesOf, DriversOf, DevicesOf, DeviceProbes, Proper;
      devices := devices + [device];
      Offer(device);
      history := history + [e];
    }

    /** The loop of device_register. */
    method Offer(device: Device)
      modifies this`probes
      ensures probes == old(probes) + DeviceProbes(drivers, device)
    {
      assert DeviceProbes(drivers[..0], device) == [];
      hide DeviceProbes;
      var k := 0;
      while k < |drivers|
        invariant 0 <= k <= |drivers| && probes == old(probes) + DeviceProbes(drivers[..k], device)
      {
        var drv := drivers[k];
        DeviceProbesNext(drivers, k, device);
        if drv.dependsOn != NONE && drv.dependsOn == device.kind {
          probes := probes + [Directed(drv, device)];
        }
        k := k + 1;
      }
      assert drivers[..k] == drivers;
    }

    /** driver_first_probe. */
    method FirstProbe(driver: Driver)
      requires Proper(driver)
      modifies this`probes, driver`firstProbe
      ensures probes == old(probes) + FirstProbes(driver, devices) && !driver.firstProbe
    {
      driver.firstProbe := true;
      if driver.probe {
        probes := probes + [Plain(driver)];
      } else if driver.dependsOn != NONE {
        ghost var was := probes;
        var k := 0;
        while k < |devices|
          invariant 0 <= k <= |devices| && probes == was + DriverProbes(driver, devices[..k])
        {
          assert devices[..k + 1][..k] == devices[..k];
          if devices[k].kind == driver.dependsOn {
            probes := probes + [Directed(driver, devices[k])];
          }
          k := k + 1;
        }
        assert devices[..k] == devices;
      } else {
        probes := probes + [Directed(driver, null)];
      }
      driver.firstProbe := false;
    }

    /** driver_register. */
    method RegisterDriver(driver: Driver)
      requires Valid() && Proper(driver)
      modifies this, driver`firstProbe
      ensures Valid() && history == old(history) + [DriverRegistered(driver, old(driver.disabled))]
    {
      ghost var e := DriverRegistered(driver, driver.disabled);
      LogMore(history, e);
      ListsMore(history, e);
      drivers := drivers + [driver];
      if !driver.disabled {
        FirstProbe(driver);
      }
      history := history + [e];
    }

    /** driver_enable. */
    method EnableDriver(driver: Driver)
      requires Valid() && Proper(driver)
      modifies this, driver
      ensures Valid() && history == old(history) + [DriverEnabled(driver)] && !driver.disabled
    {
      LogMore(history, DriverEnabled(driver));
      ListsMore(history, DriverEnabled(driver));
      driver.disabled := false;
      FirstProbe(driver);
      history := history + [DriverEnabled(driver)];
    }
  }

  lemma ListsMore(h: History, e: Event)
    ensures DevicesOf(h + [e]) == DevicesOf(h) + (match e case DeviceRegistered(d) => [d] case _ => [])
    ensures DriversOf(h + [e]) == DriversOf(h) + (match e case DriverRegistered(v, _) => [v] case _ => [])
  {
    assert (h + [e])[..|h|] == h && (h + [e])[|h|] == e;
  }
}
