/** What the forecast webhook handler (`handleWeatherResponse`) computes
    from a parsed response: up to four forecast slots, each with an hour
    label, a temperature and a precipitation percentage, and the running
    temperature bounds the chart is scaled to. */
module Forecast {

  /** `NUM_FORECAST_ENTRIES`: slots in `forecastList`. */
  const NumForecastEntries: nat := 4

  /** Boot values of `minTemperature` and `maxTemperature`. */
  const InitialMinTemperature: real := 1000.0
  const InitialMaxTemperature: real := 0.0

  /** One element of the response's `list` array, as read by the handler:
      `main.temp`, `pop` (a probability fraction), and the local-time library's
      `"%I %p"` rendering of `dt` in the configured timezone. */
  datatype ListEntry = ListEntry(temp: real, pop: real, hourLabel: string)

  /** `ForecastEntry`: one slot of `forecastList`. */
  datatype ForecastEntry = ForecastEntry(dtTxt: string, temp: real, precip: int)

  /** The slot value a statically allocated `ForecastEntry` starts with. */
  const BlankEntry := ForecastEntry("", 0.0, 0)

  /** The globals the handler reads and writes: `forecastList`, the two
      bounds, and `didUpdateScreen` (set by the redraw). */
  datatype Weather = Weather(
    forecast: seq<ForecastEntry>,
    minTemperature: real,
    maxTemperature: real,
    didUpdateScreen: bool)

  /** The C conversion `(int)x` of a floating value: truncation toward zero. */
  function TruncateToInt(x: real): (r: int)
    ensures 0.0 <= x ==> 0 <= r && r as real <= x < r as real + 1.0
    ensures x < 0.0 ==> r <= 0 && r as real - 1.0 < x <= r as real
  {
    if x >= 0.0 then x.Floor else -((-x).Floor)
  }

  /** `(int)(pop * 100)`: the precipitation percentage stored in a slot. */
  function Percent(pop: real): int
  {
    TruncateToInt(pop * 100.0)
  }

  /** A probability fraction gives a percentage in 0..100. */
  lemma PercentInRange(pop: real)
    requires 0.0 <= pop <= 1.0
    ensures 0 <= Percent(pop) <= 100
  {
  }

  /** The conversion truncates rather than rounds. */
  lemma PercentTruncates()
    ensures Percent(0.0) == 0 && Percent(1.0) == 100
    ensures Percent(0.456) == 45 && Percent(0.999) == 99
    ensures Percent(0.1) == 10 && Percent(0.9) == 90
  {
    assert (0.456 * 100.0).Floor == 45;
    assert (0.999 * 100.0).Floor == 99;
  }

  /** One leading `'0'` of the formatted hour label is removed. */
  function StripLeadingZero(s: string): string
  {
    if |s| > 0 && s[0] == '0' then s[1..] else s
  }

  /** The strip removes exactly the first character when that is `'0'`,
      and otherwise leaves the label as it is. */
  lemma StripLeadingZeroSpec(s: string)
    ensures s == StripLeadingZero(s) || s == ['0'] + StripLeadingZero(s)
    ensures (|s| > 0 && s[0] == '0') <==> s == ['0'] + StripLeadingZero(s)
    ensures |StripLeadingZero(s)| == if |s| > 0 && s[0] == '0' then |s| - 1 else |s|
  {
  }

  /** The decimal digit character of `d`. */
  function Digit(d: int): char
    requires 0 <= d < 10
  {
    ['0', '1', '2', '3', '4', '5', '6', '7', '8', '9'][d]
  }

  function Meridiem(pm: bool): string
  {
    if pm then "PM" else "AM"
  }

  /** What `format("%I %p")` produces: the 12-hour clock hour as two digits,
      a space and the meridiem marker. */
  function FormattedHour(hour: int, pm: bool): string
    requires 1 <= hour <= 12
  {
    [Digit(hour / 10), Digit(hour % 10), ' '] + Meridiem(pm)
  }

  /** The hour written without padding, as the display shows it. */
  function PlainHour(hour: int, pm: bool): string
    requires 1 <= hour <= 12
  {
    (if hour < 10 then [Digit(hour)] else [Digit(hour / 10), Digit(hour % 10)]) + [' '] + Meridiem(pm)
  }

  /** Stripping a formatted label gives the unpadded hour, which never
      starts with `'0'`. */
  lemma {:induction false} StripFormattedHour(hour: int, pm: bool)
    requires 1 <= hour <= 12
    ensures StripLeadingZero(FormattedHour(hour, pm)) == PlainHour(hour, pm)
    ensures StripLeadingZero(FormattedHour(hour, pm))[0] != '0'
  {
    var f := FormattedHour(hour, pm);
    if hour < 10 {
      assert f[0] == '0';
      assert f[1..] == [Digit(hour), ' '] + Meridiem(pm);
    } else {
      assert f[0] == '1';
    }
  }

  /** The two labels that come up most: `"09 AM"` and `"12 PM"`. */
  lemma StripExamples()
    ensures StripLeadingZero("09 AM") == "9 AM"
    ensures StripLeadingZero("12 PM") == "12 PM"
  {
    assert "09 AM"[1..] == "9 AM";
  }

  /** `maxTemperature` after the first `n` entries went through
      `if (temp > maxTemperature) maxTemperature = temp` in order. */
  function WidenMax(hi: real, list: seq<ListEntry>, n: nat): real
    requires n <= |list|
    decreases n
  {
    if n == 0 then hi
    else
      var m := WidenMax(hi, list, n - 1);
      if list[n - 1].temp > m then list[n - 1].temp else m
  }

  /** `minTemperature` after the first `n` entries went through
      `if (temp < minTemperature) minTemperature = temp` in order. */
  function WidenMin(lo: real, list: seq<ListEntry>, n: nat): real
    requires n <= |list|
    decreases n
  {
    if n == 0 then lo
    else
      var m := WidenMin(lo, list, n - 1);
      if list[n - 1].temp < m then list[n - 1].temp else m
  }

  /** The widened maximum is the largest of the seed and the first `n`
      temperatures: at least each of them, and equal to one of them. */
  lemma {:induction false} WidenMaxIsMaximum(hi: real, list: seq<ListEntry>, n: nat)
    requires n <= |list|
    ensures hi <= WidenMax(hi, list, n)
    ensures forall i :: 0 <= i < n ==> list[i].temp <= WidenMax(hi, list, n)
    ensures WidenMax(hi, list, n) == hi || exists i :: 0 <= i < n && WidenMax(hi, list, n) == list[i].temp
    decreases n
  {
    if n > 0 {
      WidenMaxIsMaximum(hi, list, n - 1);
    }
  }

  /** The widened minimum is the smallest of the seed and the first `n`
      temperatures. */
  lemma {:induction false} WidenMinIsMinimum(lo: real, list: seq<ListEntry>, n: nat)
    requires n <= |list|
    ensures WidenMin(lo, list, n) <= lo
    ensures forall i :: 0 <= i < n ==> WidenMin(lo, list, n) <= list[i].temp
    ensures WidenMin(lo, list, n) == lo || exists i :: 0 <= i < n && WidenMin(lo, list, n) == list[i].temp
    decreases n
  {
    if n > 0 {
      WidenMinIsMinimum(lo, list, n - 1);
    }
  }

  /** The bounds depend only on the entries visited: two lists that agree
      on their first `n` entries give the same bounds. */
  lemma {:induction false} BoundsDependOnPrefix(lo: real, hi: real, l1: seq<ListEntry>, l2: seq<ListEntry>, n: nat)
    requires n <= |l1| && n <= |l2| && l1[..n] == l2[..n]
    ensures WidenMax(hi, l1, n) == WidenMax(hi, l2, n)
    ensures WidenMin(lo, l1, n) == WidenMin(lo, l2, n)
    decreases n
  {
    if n > 0 {
      assert l1[..n - 1] == l1[..n][..n - 1] && l2[..n - 1] == l2[..n][..n - 1];
      assert l1[n - 1] == l1[..n][n - 1] && l2[n - 1] == l2[..n][n - 1];
      BoundsDependOnPrefix(lo, hi, l1, l2, n - 1);
    }
  }

  /** Number of list entries the loop visits: `i < count && i < 4`. */
  function Processed(list: seq<ListEntry>): (n: nat)
  {
    if |list| < NumForecastEntries then |list| else NumForecastEntries
  }

  /** The slot the loop writes for one entry. */
  function ToForecastEntry(e: ListEntry): ForecastEntry
  {
    ForecastEntry(StripLeadingZero(e.hourLabel), e.temp, Percent(e.pop))
  }

  /** `forecastList` after the loop: visited slots rewritten from the list,
      the others as before. */
  function Extract(before: seq<ForecastEntry>, list: seq<ListEntry>)
    : seq<ForecastEntry>
    requires |before| == NumForecastEntries
  {
    seq(NumForecastEntries, i requires 0 <= i < NumForecastEntries =>
      if i < |list| then ToForecastEntry(list[i]) else before[i])
  }

  /** The whole handler: a failed chunk append or a failed parse returns
      with nothing changed; otherwise the slots and bounds are updated and
      the redraw sets `didUpdateScreen`. */
  function HandleResponse(w: Weather, chunkAdded: bool, parsed: bool,
                          list: seq<ListEntry>): Weather
    requires |w.forecast| == NumForecastEntries
  {
    if !chunkAdded || !parsed then w
    else
      Weather(Extract(w.forecast, list),
              WidenMin(w.minTemperature, list, Processed(list)),
              WidenMax(w.maxTemperature, list, Processed(list)),
              true)
  }

  /** Extraction writes slots `0 .. min(count, 4) - 1` from the list in
      order and leaves every later slot as it was. */
  lemma ExtractOrderAndExtent(before: seq<ForecastEntry>, list: seq<ListEntry>)
    requires |before| == NumForecastEntries
    ensures |Extract(before, list)| == NumForecastEntries
    ensures forall i :: 0 <= i < Processed(list) ==>
      Extract(before, list)[i] == ToForecastEntry(list[i])
    ensures forall i :: Processed(list) <= i < NumForecastEntries ==>
      Extract(before, list)[i] == before[i]
  {
  }

  /** Conversely, any four slots that hold the visited entries in order and
      the earlier contents elsewhere are the extraction's result. */
  lemma ExtractCharacterised(before: seq<ForecastEntry>, after: seq<ForecastEntry>,
                             list: seq<ListEntry>)
    requires |before| == NumForecastEntries && |after| == NumForecastEntries
    requires forall i :: 0 <= i < Processed(list) ==> after[i] == ToForecastEntry(list[i])
    requires forall i :: Processed(list) <= i < NumForecastEntries ==> after[i] == before[i]
    ensures after == Extract(before, list)
  {
  }

  /** A failed append or parse leaves slots, bounds and the redraw flag
      unchanged. */
  lemma FailureLeavesStateUnchanged(w: Weather, chunkAdded: bool, parsed: bool,
                                    list: seq<ListEntry>)
    requires |w.forecast| == NumForecastEntries
    requires !chunkAdded || !parsed
    ensures HandleResponse(w, chunkAdded, parsed, list) == w
  {
  }

  /** The handler redraws, and so sets `didUpdateScreen`, exactly when the
      chunk was added and the buffer parsed; it never clears the flag. */
  lemma RedrawExactlyOnSuccess(w: Weather, chunkAdded: bool, parsed: bool,
                               list: seq<ListEntry>)
    requires |w.forecast| == NumForecastEntries
    ensures HandleResponse(w, chunkAdded, parsed, list).didUpdateScreen
        <==> w.didUpdateScreen || (chunkAdded && parsed)
  {
  }

  /** An empty list changes neither the slots nor the bounds, yet the
      screen is still redrawn. */
  lemma {:induction false} EmptyListOnlyRedraws(w: Weather)
    requires |w.forecast| == NumForecastEntries
    ensures HandleResponse(w, true, true, []) == w.(didUpdateScreen := true)
  {
    assert Extract(w.forecast, []) == w.forecast;
  }

  /** After a successful extraction every visited temperature lies within
      the bounds, and the bounds have only widened. */
  lemma BoundsCoverVisited(w: Weather, list: seq<ListEntry>)
    requires |w.forecast| == NumForecastEntries
    ensures var r := HandleResponse(w, true, true, list);
      && r.minTemperature <= w.minTemperature
      && w.maxTemperature <= r.maxTemperature
      && forall i :: 0 <= i < Processed(list) ==>
           r.minTemperature <= list[i].temp <= r.maxTemperature
  {
    WidenMinIsMinimum(w.minTemperature, list, Processed(list));
    WidenMaxIsMaximum(w.maxTemperature, list, Processed(list));
  }

  /** The bounds are the seeds widened by the visited temperatures, not the
      true extremes: temperatures all below zero leave `maxTemperature` at
      its seed 0.0, above every one of them. */
  lemma SeedBoundsSurvive()
    ensures var w := Weather([BlankEntry, BlankEntry, BlankEntry, BlankEntry],
                             InitialMinTemperature, InitialMaxTemperature, false);
      var r := HandleResponse(w, true, true, [ListEntry(-5.0, 0.0, "06 AM"), ListEntry(-2.0, 0.0, "09 AM")]);
      r.maxTemperature == 0.0 && r.minTemperature == -5.0
  {
    var list := [ListEntry(-5.0, 0.0, "06 AM"), ListEntry(-2.0, 0.0, "09 AM")];
    assert WidenMax(InitialMaxTemperature, list, 1) == 0.0;
    assert WidenMin(InitialMinTemperature, list, 1) == -5.0;
  }

  /** Entries after the fourth never matter: a list and its first four
      entries lead to the same state. */
  lemma {:induction false} TailIgnored(w: Weather, chunkAdded: bool, parsed: bool,
                                       list: seq<ListEntry>)
    requires |w.forecast| == NumForecastEntries
    requires NumForecastEntries <= |list|
    ensures HandleResponse(w, chunkAdded, parsed, list)
         == HandleResponse(w, chunkAdded, parsed, list[..NumForecastEntries])
  {
    var head := list[..NumForecastEntries];
    assert head[..NumForecastEntries] == list[..NumForecastEntries];
    BoundsDependOnPrefix(w.minTemperature, w.maxTemperature, list, head, NumForecastEntries);
    assert Extract(w.forecast, list) == Extract(w.forecast, head);
  }

  /** A full response of four entries with the temperatures
      40.2, 45.0, 38.5, 42.1 and probabilities 0.1, 0.5, 0.2, 0.9, from the
      boot bounds, yields the percentages 10, 50, 20, 90 and the bounds
      38.5 .. 45.0. */
  lemma FourEntryScenario()
    ensures var w := Weather([BlankEntry, BlankEntry, BlankEntry, BlankEntry],
                             InitialMinTemperature, InitialMaxTemperature, false);
      var list := [ListEntry(40.2, 0.1, "09 AM"), ListEntry(45.0, 0.5, "12 PM"),
                   ListEntry(38.5, 0.2, "03 PM"), ListEntry(42.1, 0.9, "06 PM")];
      var r := HandleResponse(w, true, true, list);
      && [r.forecast[0].precip, r.forecast[1].precip, r.forecast[2].precip, r.forecast[3].precip]
         == [10, 50, 20, 90]
      && [r.forecast[0].temp, r.forecast[1].temp, r.forecast[2].temp, r.forecast[3].temp]
         == [40.2, 45.0, 38.5, 42.1]
      && [r.forecast[0].dtTxt, r.forecast[1].dtTxt, r.forecast[2].dtTxt, r.forecast[3].dtTxt]
         == ["9 AM", "12 PM", "3 PM", "6 PM"]
      && r.minTemperature == 38.5 && r.maxTemperature == 45.0
      && r.didUpdateScreen
  {
    var list := [ListEntry(40.2, 0.1, "09 AM"), ListEntry(45.0, 0.5, "12 PM"),
                 ListEntry(38.5, 0.2, "03 PM"), ListEntry(42.1, 0.9, "06 PM")];
    PercentTruncates();
  }
}
