/**
 * The diff-and-emit caches of device and battery status.  The driver keeps
 * the last value it reported of each quantity and signals a change only when
 * a fresh reading differs from it.  Cache contents and emitted signals are
 * modelled as values here; the driver's fields follow these functions.
 */
module Status {
  import opened Protocol

  /** The device-status part of the driver's state; -1 means "never read". */
  datatype DeviceCache = DeviceCache(
    homeButtonState: int, ambientLightValue: int, hardwareErrors: bv32, batteryPresent: int)

  /** The five battery quantities whose change is signalled. */
  datatype BatteryCache = BatteryCache(
    level: int, chargeCurrent: int, temperature: int, timeToEmpty: int, timeToFull: int)

  /** The home-button bit of a status word, as 0 or 1. */
  function HomeBit(status: bv32): (b: int)
    ensures b == 0 || b == 1
  {
    if status & DEVICE_STATUS_HOME_BUTTON != 0 then 1 else 0
  }

  const BATTERY_ERRORS: bv32 := HWERR_BATTERY_NOT_RESPONDING | HWERR_BATTERY_INIT_ERROR

  /** The battery counts as absent when it does not respond or failed to initialise. */
  predicate BatteryFault(errors: bv32) {
    errors & BATTERY_ERRORS != 0
  }

  /**
   * One device-status reading folded into the cache: the new cache and the
   * signals, in the order home button, ambient light, hardware errors.
   */
  function DeviceUpdate(c: DeviceCache, d: DeviceStatus): (DeviceCache, seq<Event>) {
    var home := HomeBit(d.status);
    var homeEvents := if c.homeButtonState != home then [HomeButtonChanged(home == 1)] else [];
    var light := d.ambientLight as int;
    var lightEvents := if c.ambientLightValue == -1 || c.ambientLightValue != light then [AmbientLightChanged(light)] else [];
    var errorEvents := if d.hardwareErrors != c.hardwareErrors then [HardwareErrorsChanged] else [];
    var present := if BatteryFault(d.hardwareErrors) then 0 else 1;
    (DeviceCache(home, light, d.hardwareErrors, present), homeEvents + lightEvents + errorEvents)
  }

  /** After a reading the cache holds it. */
  lemma DeviceUpdateHoldsReading(c: DeviceCache, d: DeviceStatus)
    ensures var r := DeviceUpdate(c, d).0;
      && r.homeButtonState == HomeBit(d.status)
      && r.ambientLightValue == d.ambientLight as int
      && r.hardwareErrors == d.hardwareErrors
      && (r.batteryPresent == 1 <==> !BatteryFault(d.hardwareErrors))
      && (r.batteryPresent == 0 <==> BatteryFault(d.hardwareErrors))
  {
  }

  /** A signal fires exactly for a quantity that changed. */
  lemma DeviceUpdateSignalsChanges(c: DeviceCache, d: DeviceStatus)
    ensures HomeButtonChanged(HomeBit(d.status) == 1) in DeviceUpdate(c, d).1 <==> c.homeButtonState != HomeBit(d.status)
    ensures AmbientLightChanged(d.ambientLight as int) in DeviceUpdate(c, d).1 <==> c.ambientLightValue != d.ambientLight as int
    ensures HardwareErrorsChanged in DeviceUpdate(c, d).1 <==> c.hardwareErrors != d.hardwareErrors
  {
  }

  /** At most one signal per quantity. */
  lemma DeviceUpdateSignalCount(c: DeviceCache, d: DeviceStatus)
    ensures |DeviceUpdate(c, d).1| == (if c.homeButtonState != HomeBit(d.status) then 1 else 0)
      + (if c.ambientLightValue != d.ambientLight as int then 1 else 0)
      + (if c.hardwareErrors != d.hardwareErrors then 1 else 0)
  {
  }

  /** The cache the driver starts with: nothing reported yet, errors as they happen to be. */
  function InitialDeviceCache(hardwareErrors: bv32): DeviceCache {
    DeviceCache(-1, -1, hardwareErrors, -1)
  }

  /** The first reading always reports the home button and the ambient light. */
  lemma FirstReadingReports(hardwareErrors: bv32, d: DeviceStatus)
    ensures var r := DeviceUpdate(InitialDeviceCache(hardwareErrors), d);
      HomeButtonChanged(HomeBit(d.status) == 1) in r.1 && AmbientLightChanged(d.ambientLight as int) in r.1
  {
  }

  /** Reading the same status twice reports nothing the second time. */
  lemma RepeatedReadingSilent(c: DeviceCache, d: DeviceStatus)
    ensures DeviceUpdate(DeviceUpdate(c, d).0, d).1 == []
  {
  }

  function BatteryOf(b: BatteryStatus): BatteryCache {
    BatteryCache(b.level, b.chargeCurrent, b.temp, b.averageTimeToEmpty, b.averageTimeToFull)
  }

  /** One battery-status reading folded into the cache, with at most one signal. */
  function BatteryUpdate(c: BatteryCache, b: BatteryStatus): (BatteryCache, seq<Event>) {
    if c.level != b.level || c.chargeCurrent != b.chargeCurrent || c.temperature != b.temp
      || c.timeToEmpty != b.averageTimeToEmpty || c.timeToFull != b.averageTimeToFull
    then (BatteryCache(b.level, b.chargeCurrent, b.temp, b.averageTimeToEmpty, b.averageTimeToFull),
          [BatteryStateChanged(b.level, b.chargeCurrent, b.temp, b.averageTimeToEmpty, b.averageTimeToFull)])
    else (c, [])
  }

  /** After a reading the cache holds it; one signal fires exactly when any of the five quantities changed. */
  lemma BatteryUpdateReports(c: BatteryCache, b: BatteryStatus)
    ensures var r := BatteryUpdate(c, b);
      && r.0 == BatteryOf(b)
      && (r.1 == [] <==> c == BatteryOf(b))
      && (r.1 != [] ==> r.1 == [BatteryStateChanged(b.level, b.chargeCurrent, b.temp, b.averageTimeToEmpty, b.averageTimeToFull)])
  {
  }

  /** Reading the same battery status twice reports nothing the second time. */
  lemma RepeatedBatteryReadingSilent(c: BatteryCache, b: BatteryStatus)
    ensures BatteryUpdate(BatteryUpdate(c, b).0, b).1 == []
  {
  }
}
