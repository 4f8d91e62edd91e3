/** The firmware's global state and the entry points that change it:
    `setup()`, `loop()`, the configuration-sync callback and the forecast
    webhook handler.  The globals of the program are the fields of one
    `Device`; each method is proved against the value-level model in
    `Forecast` and `Cycle`. */
module Firmware {
  import opened Forecast
  import opened Cycle

  /** Body of the `weather` telemetry event: `{lat, lon, cnt}`. */
  datatype Telemetry = Telemetry(lat: real, lon: real, cnt: int)

  /** The global `CloudEvent event`: cleared, or holding a name and data. */
  datatype CloudEvent = Cleared | Staged(name: string, data: Telemetry)

  /** The three values read from the synchronised ledger. */
  datatype LedgerData = LedgerData(lat: real, lon: real, posixTz: string)

  /** Name of the telemetry event; publishing it triggers the forecast webhook. */
  const WeatherEventName := "weather"

  class Device {
    var forecastList: array<ForecastEntry>
    var minTemperature: real
    var maxTemperature: real
    var didUpdateScreen: bool
    var didPublish: bool
    var didSync: bool
    var latitude: real
    var longitude: real
    /** The POSIX timezone string, also handed to the local-time library. */
    var localTimePosixTz: string
    var event: CloudEvent
    /** Set by the hibernate request in `loop()`; nothing runs after it. */
    var hibernated: bool
    /** Telemetry bodies handed to `Particle.publish`, in order. */
    var outbox: seq<Telemetry>

    ghost predicate Valid()
      reads this
    {
      forecastList.Length == NumForecastEntries
    }

    /** The state the forecast handler reads and writes. */
    function WeatherState(): Weather
      reads this, forecastList
    {
      Weather(forecastList[..], minTemperature, maxTemperature, didUpdateScreen)
    }

    /** The state `loop()` decides on. */
    function FlagState(): Flags
      reads this
    {
      Flags(didSync, didUpdateScreen, didPublish, hibernated)
    }

    /** The program's static initialisation: blank slots, bounds seeded at
        1000.0 and 0.0, every flag false, coordinates zero. */
    constructor ()
      ensures Valid() && fresh(forecastList)
      ensures WeatherState() == Weather([BlankEntry, BlankEntry, BlankEntry, BlankEntry],
                                        InitialMinTemperature, InitialMaxTemperature, false)
      ensures FlagState() == Boot
      ensures latitude == 0.0 && longitude == 0.0 && localTimePosixTz == ""
      ensures event == Cleared && outbox == []
    {
      var slots := new ForecastEntry[NumForecastEntries](_ => BlankEntry);
      assert slots[..] == [BlankEntry, BlankEntry, BlankEntry, BlankEntry];
      forecastList := slots;
      minTemperature, maxTemperature := InitialMinTemperature, InitialMaxTemperature;
      didUpdateScreen, didPublish, didSync := false, false, false;
      latitude, longitude, localTimePosixTz := 0.0, 0.0, "";
      event, hibernated, outbox := Cleared, false, [];
    }

    /** `ledgerSyncCallback`: copy the coordinates and timezone out of the
        ledger and mark the configuration synchronised. */
    method LedgerSyncCallback(config: LedgerData)
      requires Valid() && !hibernated
      modifies this
      ensures Valid()
      ensures latitude == config.lat && longitude == config.lon
      ensures localTimePosixTz == config.posixTz
      ensures FlagState() == Step(old(FlagState()), ConfigSynced).flags
      ensures forecastList == old(forecastList) && minTemperature == old(minTemperature)
      ensures maxTemperature == old(maxTemperature)
      ensures event == old(event) && outbox == old(outbox)
    {
      latitude := config.lat;
      longitude := config.lon;
      localTimePosixTz := config.posixTz;
      didSync := true;
    }

    /** `setup()`: besides the display, subscription and ledger wiring, it
        calls the sync callback once itself, so the configuration counts as
        synchronised from boot on. */
    method Setup(config: LedgerData)
      requires Valid() && !hibernated
      modifies this
      ensures Valid()
      ensures didSync && !hibernated
      ensures FlagState() == old(FlagState()).(didSync := true)
      ensures latitude == config.lat && longitude == config.lon
      ensures localTimePosixTz == config.posixTz
      ensures forecastList == old(forecastList) && minTemperature == old(minTemperature)
      ensures maxTemperature == old(maxTemperature)
      ensures event == old(event) && outbox == old(outbox)
    {
      LedgerSyncCallback(config);
    }

    /** `handleWeatherResponse` for one delivered chunk: `chunkAdded` and
        `parsed` are what the JSON parser answered, `list` the parsed `list`
        array with each entry's hour label already formatted. */
    method HandleWeatherResponse(chunkAdded: bool, parsed: bool,
                                 list: seq<ListEntry>)
      requires Valid() && !hibernated
      modifies this, forecastList
      ensures Valid() && forecastList == old(forecastList)
      ensures WeatherState() == HandleResponse(old(WeatherState()), chunkAdded, parsed, list)
      ensures didSync == old(didSync) && didPublish == old(didPublish) && !hibernated
      ensures latitude == old(latitude) && longitude == old(longitude)
      ensures localTimePosixTz == old(localTimePosixTz)
      ensures event == old(event) && outbox == old(outbox)
    {
      if !chunkAdded {
        return;
      }
      if !parsed {
        return;
      }
      ghost var before := forecastList[..];
      ghost var lo, hi := minTemperature, maxTemperature;
      var count := |list|;
      var i := 0;
      while i < count && i < NumForecastEntries
        invariant 0 <= i <= Processed(list)
        modifies forecastList, this`minTemperature, this`maxTemperature
        invariant forecastList[..] == Extract(before, list[..i])
        invariant minTemperature == WidenMin(lo, list, i)
        invariant maxTemperature == WidenMax(hi, list, i)
      {
        var temp := list[i].temp;
        // label stripped of one leading '0', temperature, (int)(pop * 100)
        forecastList[i] := ToForecastEntry(list[i]);
        assert forecastList[..] == Extract(before, list[..i + 1]);
        if temp > maxTemperature {
          maxTemperature := temp;
        }
        if temp < minTemperature {
          minTemperature := temp;
        }
        i := i + 1;
      }
      assert i == Processed(list);
      assert forecastList[..] == Extract(before, list);
      // drawWeatherForecast: the chart itself is not modelled, its flag is
      didUpdateScreen := true;
    }

    /** One pass of `loop()` with the cloud connection state, whether a
        hibernation request takes effect, and the outcome the publish would
        have.  A hibernation that takes effect does not return: the next
        code to run is `setup()` of a new wake cycle.  One that fails
        returns, and the pass goes on to the publish check. */
    method Loop(connected: bool, slept: bool, outcome: PublishOutcome)
      requires Valid() && !hibernated
      modifies this
      ensures Valid()
      ensures FlagState() == LoopPass(old(FlagState()), connected, slept, outcome).flags
      ensures var act := LoopPass(old(FlagState()), connected, slept, outcome).action;
        && outbox == old(outbox) + (if act.Publish? then [Telemetry(latitude, longitude, NumForecastEntries)] else [])
        && event == (if act.Publish? && outcome == StillSending
                     then Staged(WeatherEventName, Telemetry(latitude, longitude, NumForecastEntries))
                     else if act.Publish? then Cleared
                     else old(event))
      ensures forecastList == old(forecastList) && minTemperature == old(minTemperature)
      ensures maxTemperature == old(maxTemperature)
      ensures latitude == old(latitude) && longitude == old(longitude)
      ensures localTimePosixTz == old(localTimePosixTz)
    {
      if connected && didSync {
        if didUpdateScreen {
          // System.sleep in hibernate mode
          if slept {
            hibernated := true;
            return;
          }
        }
        if !didPublish {
          var data := Telemetry(latitude, longitude, NumForecastEntries);
          event := Staged(WeatherEventName, data);
          outbox := outbox + [data];
          match outcome
          case Sent =>
            event := Cleared;
            didPublish := true;
          case Failed =>
            event := Cleared;
          case StillSending =>
        }
      }
    }
  }
}
