/** The pure parts of `weather_api.py`: the UV summary, the shaping of the five-day
    forecast, icon lookup with its fallback, and when a cached payload is accepted.
    Timestamps are integers; the calendar date, hour and weekday of a timestamp are
    supplied by the caller (they stand for `datetime.fromtimestamp`). */
module Weather {
  import opened Wrappers

  // ---------------------------------------------------------------- payload

  /** An hourly entry; `None` is a missing key. */
  datatype Hour = Hour(dt: Option<real>, uvi: Option<real>)

  /** The `weather` list of an entry, reduced to each element's `icon` key. */
  type Conditions = Option<seq<Option<string>>>

  datatype Current = Current(dt: Option<real>, uvi: Option<real>, weather: Conditions)

  datatype Day = Day(dt: Option<real>, weather: Conditions, tempMin: Option<real>, tempMax: Option<real>)

  /** The decoded One Call payload; a missing section is `None`. */
  datatype WeatherData = WeatherData(current: Option<Current>, hourly: Option<seq<Hour>>, daily: Option<seq<Day>>)

  /** The calendar functions of the local clock. */
  datatype Calendar = Calendar(dateOf: real -> int, hourOf: real -> int, weekdayOf: real -> int)

  // ---------------------------------------------------------------- UV summary

  /** Threshold of a high UV hour. */
  const HighUv: real := 3.0

  datatype HourUv = HourUv(hour: int, uv: real)

  function UvOf(h: Hour): real { h.uvi.GetOr(0.0) }

  predicate SameDay(h: Hour, date: int, cal: Calendar) {
    cal.dateOf(h.dt.GetOr(0.0)) == date
  }

  predicate HighOnDay(h: Hour, date: int, cal: Calendar) {
    SameDay(h, date, cal) && UvOf(h) >= HighUv
  }

  /** The `(hour, uv)` pair recorded for an hourly entry. */
  function EntryOf(h: Hour, cal: Calendar): HourUv {
    HourUv(cal.hourOf(h.dt.GetOr(0.0)), UvOf(h))
  }

  /** The first loop of `get_uv_info`: same-day hours with their UV, in order. */
  function SameDayUv(hourly: seq<Hour>, date: int, cal: Calendar): (r: seq<HourUv>)
    ensures |r| <= |hourly|
    ensures forall i :: 0 <= i < |hourly| && SameDay(hourly[i], date, cal) ==> EntryOf(hourly[i], cal) in r
  {
    if |hourly| == 0 then []
    else
      var h := hourly[0];
      var rest := SameDayUv(hourly[1..], date, cal);
      assert forall i :: 1 <= i < |hourly| ==> hourly[i] == hourly[1..][i - 1];
      (if SameDay(h, date, cal) then [EntryOf(h, cal)] else []) + rest
  }

  /** Each recorded pair comes from a same-day entry `i`. */
  lemma {:induction false} SameDayUvSource(hourly: seq<Hour>, date: int, cal: Calendar, k: int) returns (i: int)
    requires 0 <= k < |SameDayUv(hourly, date, cal)|
    ensures 0 <= i < |hourly| && SameDay(hourly[i], date, cal)
    ensures SameDayUv(hourly, date, cal)[k] == EntryOf(hourly[i], cal)
  {
    var h := hourly[0];
    var rest := SameDayUv(hourly[1..], date, cal);
    if SameDay(h, date, cal) {
      if k == 0 {
        i := 0;
      } else {
        var i' := SameDayUvSource(hourly[1..], date, cal, k - 1);
        i := i' + 1;
      }
    } else {
      var i' := SameDayUvSource(hourly[1..], date, cal, k);
      i := i' + 1;
    }
  }

  /** The running maximum, started from `m`. */
  function MaxUv(m: real, hs: seq<HourUv>): (r: real)
    ensures r >= m
    ensures forall k :: 0 <= k < |hs| ==> hs[k].uv <= r
    ensures r == m || exists k :: 0 <= k < |hs| && hs[k].uv == r
    decreases |hs|
  {
    if |hs| == 0 then m
    else
      var rest := MaxUv(if hs[0].uv > m then hs[0].uv else m, hs[1..]);
      assert (exists k :: 0 <= k < |hs[1..]| && hs[1..][k].uv == rest) ==> exists k :: 0 <= k < |hs| && hs[k].uv == rest;
      rest
  }

  /** The second loop: the hours whose UV is at least 3. */
  function HighHours(hs: seq<HourUv>): (r: seq<int>)
    ensures forall j :: 0 <= j < |hs| && hs[j].uv >= HighUv ==> hs[j].hour in r
  {
    if |hs| == 0 then []
    else
      var rest := HighHours(hs[1..]);
      assert forall j :: 1 <= j < |hs| ==> hs[j] == hs[1..][j - 1];
      (if hs[0].uv >= HighUv then [hs[0].hour] else []) + rest
  }

  /** Each listed hour is that of a pair `j` with UV at least 3. */
  lemma {:induction false} HighHoursSource(hs: seq<HourUv>, k: int) returns (j: int)
    requires 0 <= k < |HighHours(hs)|
    ensures 0 <= j < |hs| && hs[j].uv >= HighUv && hs[j].hour == HighHours(hs)[k]
  {
    if hs[0].uv >= HighUv {
      if k == 0 {
        j := 0;
      } else {
        var j' := HighHoursSource(hs[1..], k - 1);
        j := j' + 1;
      }
    } else {
      var j' := HighHoursSource(hs[1..], k);
      j := j' + 1;
    }
  }

  function Min(s: seq<int>): (r: int)
    requires |s| > 0
    ensures r in s && forall k :: 0 <= k < |s| ==> r <= s[k]
  {
    if |s| == 1 then s[0]
    else
      var m := Min(s[1..]);
      assert m in s;
      if s[0] < m then s[0] else m
  }

  function Max(s: seq<int>): (r: int)
    requires |s| > 0
    ensures r in s && forall k :: 0 <= k < |s| ==> s[k] <= r
  {
    if |s| == 1 then s[0]
    else
      var m := Max(s[1..]);
      assert m in s;
      if s[0] > m then s[0] else m
  }

  /** The first and last hour of high UV, which need not be contiguous. */
  datatype HourSpan = HourSpan(first: int, last: int)

  /** What `get_uv_info` formats: the current index, the day's maximum, and the
      span of high-UV hours if there is one. */
  datatype UvInfo = UvInfo(current: real, maxUv: real, span: Option<HourSpan>)

  /** `get_uv_info` before formatting. */
  function GetUvInfo(data: WeatherData, cal: Calendar): (r: UvInfo)
    ensures r.current == data.current.GetOr(Current(None, None, None)).uvi.GetOr(0.0)
    ensures r.maxUv >= r.current
  {
    var cur := data.current.GetOr(Current(None, None, None));
    var currentUv := cur.uvi.GetOr(0.0);
    var date := cal.dateOf(cur.dt.GetOr(0.0));
    var uvHours := SameDayUv(data.hourly.GetOr([]), date, cal);
    var high := HighHours(uvHours);
    var span := if |high| == 0 then None else Some(HourSpan(Min(high), Max(high)));
    UvInfo(currentUv, MaxUv(currentUv, uvHours), span)
  }

  /** The date of the current reading; only hours on this date count. */
  function CurrentDate(data: WeatherData, cal: Calendar): int {
    cal.dateOf(data.current.GetOr(Current(None, None, None)).dt.GetOr(0.0))
  }

  /** The maximum is the largest UV of the current reading and the same-day hours;
      hours on other dates play no part. */
  lemma UvMaxIsDayMaximum(data: WeatherData, cal: Calendar)
    ensures var r, date, hourly := GetUvInfo(data, cal), CurrentDate(data, cal), data.hourly.GetOr([]);
      && (forall i :: 0 <= i < |hourly| && SameDay(hourly[i], date, cal) ==> UvOf(hourly[i]) <= r.maxUv)
      && (r.maxUv == r.current ||
          exists i :: 0 <= i < |hourly| && SameDay(hourly[i], date, cal) && UvOf(hourly[i]) == r.maxUv)
  {
    var date, hourly := CurrentDate(data, cal), data.hourly.GetOr([]);
    var hs := SameDayUv(hourly, date, cal);
    var r := GetUvInfo(data, cal);
    assert r.maxUv == MaxUv(r.current, hs);
    forall i | 0 <= i < |hourly| && SameDay(hourly[i], date, cal)
      ensures UvOf(hourly[i]) <= r.maxUv
    {
      var k :| 0 <= k < |hs| && hs[k] == EntryOf(hourly[i], cal);
    }
    if r.maxUv != r.current {
      var k :| 0 <= k < |hs| && hs[k].uv == r.maxUv;
      var i := SameDayUvSource(hourly, date, cal, k);
    }
  }

  /** Every high same-day entry has its hour listed by the second loop. */
  lemma HighHoursComplete(hourly: seq<Hour>, date: int, cal: Calendar)
    ensures var high := HighHours(SameDayUv(hourly, date, cal));
      forall i :: 0 <= i < |hourly| && HighOnDay(hourly[i], date, cal) ==> cal.hourOf(hourly[i].dt.GetOr(0.0)) in high
  {
    var hs := SameDayUv(hourly, date, cal);
    forall i | 0 <= i < |hourly| && HighOnDay(hourly[i], date, cal)
      ensures cal.hourOf(hourly[i].dt.GetOr(0.0)) in HighHours(hs)
    {
      var k :| 0 <= k < |hs| && hs[k] == EntryOf(hourly[i], cal);
    }
  }

  /** Every hour the second loop lists is the hour of a high same-day entry `i`. */
  lemma HighHourSource(hourly: seq<Hour>, date: int, cal: Calendar, hr: int) returns (i: int)
    requires hr in HighHours(SameDayUv(hourly, date, cal))
    ensures 0 <= i < |hourly| && HighOnDay(hourly[i], date, cal) && cal.hourOf(hourly[i].dt.GetOr(0.0)) == hr
  {
    var hs := SameDayUv(hourly, date, cal);
    var high := HighHours(hs);
    var k :| 0 <= k < |high| && high[k] == hr;
    var j := HighHoursSource(hs, k);
    i := SameDayUvSource(hourly, date, cal, j);
  }

  /** There is a span exactly when some same-day hour reaches UV 3; the current
      reading itself is not compared with 3. */
  lemma UvSpanIffHighHour(data: WeatherData, cal: Calendar)
    ensures var r, date, hourly := GetUvInfo(data, cal), CurrentDate(data, cal), data.hourly.GetOr([]);
      r.span.None? <==> forall i :: 0 <= i < |hourly| ==> !HighOnDay(hourly[i], date, cal)
  {
    var date, hourly := CurrentDate(data, cal), data.hourly.GetOr([]);
    var high := HighHours(SameDayUv(hourly, date, cal));
    HighHoursComplete(hourly, date, cal);
    if |high| > 0 {
      var i := HighHourSource(hourly, date, cal, high[0]);
    }
  }

  /** Every high same-day hour lies within the span, whether or not the hours
      between are high. */
  lemma UvSpanCoversHighHours(data: WeatherData, cal: Calendar)
    ensures var r, date, hourly := GetUvInfo(data, cal), CurrentDate(data, cal), data.hourly.GetOr([]);
      r.span.Some? ==> forall i :: 0 <= i < |hourly| && HighOnDay(hourly[i], date, cal) ==>
        r.span.value.first <= cal.hourOf(hourly[i].dt.GetOr(0.0)) <= r.span.value.last
  {
    var date, hourly := CurrentDate(data, cal), data.hourly.GetOr([]);
    var high := HighHours(SameDayUv(hourly, date, cal));
    HighHoursComplete(hourly, date, cal);
    if |high| > 0 {
      var lo, hi := Min(high), Max(high);
      assert GetUvInfo(data, cal).span == Some(HourSpan(lo, hi));
      forall i | 0 <= i < |hourly| && HighOnDay(hourly[i], date, cal)
        ensures lo <= cal.hourOf(hourly[i].dt.GetOr(0.0)) <= hi
      {
        var hr := cal.hourOf(hourly[i].dt.GetOr(0.0));
        assert hr in high;
        var k :| 0 <= k < |high| && high[k] == hr;
        assert lo <= high[k] <= hi;
      }
    }
  }

  /** Both ends of the span are hours of high same-day entries. */
  lemma UvSpanEndsAreHighHours(data: WeatherData, cal: Calendar)
    ensures var r, date, hourly := GetUvInfo(data, cal), CurrentDate(data, cal), data.hourly.GetOr([]);
      r.span.Some? ==>
        && (exists i :: 0 <= i < |hourly| && HighOnDay(hourly[i], date, cal) &&
              cal.hourOf(hourly[i].dt.GetOr(0.0)) == r.span.value.first)
        && (exists i :: 0 <= i < |hourly| && HighOnDay(hourly[i], date, cal) &&
              cal.hourOf(hourly[i].dt.GetOr(0.0)) == r.span.value.last)
  {
    var date, hourly := CurrentDate(data, cal), data.hourly.GetOr([]);
    var high := HighHours(SameDayUv(hourly, date, cal));
    if |high| > 0 {
      assert GetUvInfo(data, cal).span == Some(HourSpan(Min(high), Max(high)));
      var i := HighHourSource(hourly, date, cal, Min(high));
      var j := HighHourSource(hourly, date, cal, Max(high));
    }
  }

  // ---------------------------------------------------------------- icons

  /** `WEATHER_ICONS`: OpenWeatherMap icon code to glyph. */
  const WeatherIcons: map<string, string> := map[
    "01d" := "\U{f157}", "01n" := "\U{e386}",
    "02d" := "\U{e81a}", "02n" := "\U{e391}",
    "03d" := "\U{e818}", "03n" := "\U{e818}",
    "04d" := "\U{e818}", "04n" := "\U{e818}",
    "09d" := "\U{f61f}", "09n" := "\U{f61f}",
    "10d" := "\U{f176}", "10n" := "\U{f176}",
    "11d" := "\U{e80f}", "11n" := "\U{e80f}",
    "13d" := "\U{e80c}", "13n" := "\U{e80c}",
    "50d" := "\U{e8e7}", "50n" := "\U{e8e7}"]

  /** The cloudy glyph used for unknown codes. */
  const CloudyGlyph := "\U{e818}"

  /** Icon code used when an entry's first condition has no `icon` key. */
  const DefaultCode := "01d"

  /** `WEATHER_ICONS.get(code, "\ue818")`: an unknown code gets the cloudy glyph. */
  function IconFor(code: string): (r: string)
    ensures code in WeatherIcons ==> r == WeatherIcons[code]
    ensures code !in WeatherIcons ==> r == CloudyGlyph
  {
    if code in WeatherIcons then WeatherIcons[code] else CloudyGlyph
  }

  /** Every code, known or not, is drawn with one of the table's glyphs: the
      fallback is the glyph of scattered clouds. */
  lemma IconForInTable(code: string)
    ensures IconFor(code) in WeatherIcons.Values
    ensures code !in WeatherIcons ==> IconFor(code) == IconFor("03d")
  {
    assert "03d" in WeatherIcons && WeatherIcons["03d"] == CloudyGlyph;
  }

  /** `entry.get('weather', [{}])[0].get('icon', '01d')`; `None` is the IndexError
      of an empty list. */
  function IconCode(w: Conditions): (r: Option<string>)
    ensures r.None? <==> w.Some? && |w.value| == 0
    ensures w.None? ==> r == Some(DefaultCode)
    ensures w.Some? && |w.value| > 0 ==> r == Some(w.value[0].GetOr(DefaultCode))
  {
    match w
    case None => Some(DefaultCode)
    case Some(ws) => if |ws| == 0 then None else Some(ws[0].GetOr(DefaultCode))
  }

  // ---------------------------------------------------------------- forecast

  /** `DAYS_OF_WEEK_SV.get(weekday, "")`. */
  function DayName(weekday: int): string {
    if weekday == 0 then "Mån"
    else if weekday == 1 then "Tis"
    else if weekday == 2 then "Ons"
    else if weekday == 3 then "Tor"
    else if weekday == 4 then "Fre"
    else if weekday == 5 then "Lör"
    else if weekday == 6 then "Sön"
    else ""
  }

  /** One forecast entry; the temperatures are shown rounded, which is not modelled. */
  datatype ForecastEntry = ForecastEntry(day: string, icon: string, tempMin: real, tempMax: real)

  /** The number of days shown. */
  const ForecastDays := 5

  /** `daily[1:6]`: the five days after today. */
  function ForecastDaysOf(daily: seq<Day>): (r: seq<Day>)
    ensures |r| <= ForecastDays
    ensures |r| == if |daily| <= 1 then 0 else if |daily| - 1 < ForecastDays then |daily| - 1 else ForecastDays
    ensures forall k :: 0 <= k < |r| ==> r[k] == daily[k + 1]
  {
    if |daily| <= 1 then [] else daily[1..if |daily| < ForecastDays + 1 then |daily| else ForecastDays + 1]
  }

  /** The loop over forecast days; `None` when some day's condition list is empty. */
  function ForecastOf(days: seq<Day>, cal: Calendar): (r: Option<seq<ForecastEntry>>)
    ensures r.None? <==> exists k :: 0 <= k < |days| && IconCode(days[k].weather).None?
    ensures r.Some? ==> |r.value| == |days| && forall k :: 0 <= k < |days| ==>
      r.value[k] == ForecastEntry(DayName(cal.weekdayOf(days[k].dt.GetOr(0.0))),
                                  IconFor(IconCode(days[k].weather).value),
                                  days[k].tempMin.GetOr(0.0), days[k].tempMax.GetOr(0.0))
  {
    if |days| == 0 then Some([])
    else
      var d := days[0];
      match IconCode(d.weather)
      case None => None
      case Some(code) =>
        match ForecastOf(days[1..], cal)
        case None =>
          assert exists k :: 0 <= k < |days[1..]| && IconCode(days[1..][k].weather).None?;
          None
        case Some(rest) =>
          Some([ForecastEntry(DayName(cal.weekdayOf(d.dt.GetOr(0.0))), IconFor(code), d.tempMin.GetOr(0.0), d.tempMax.GetOr(0.0))] + rest)
  }

  // ---------------------------------------------------------------- display data

  datatype CurrentDisplay = CurrentDisplay(icon: string, uv: UvInfo)

  datatype Display = Display(current: CurrentDisplay, forecast: seq<ForecastEntry>)

  /** The display data of the exception handler. */
  const FallbackDisplay := Display(
    CurrentDisplay("\U{f157}", UvInfo(99.0, 99.0, Some(HourSpan(10, 14)))),
    [ForecastEntry("Mån", "\U{f157}", 16.0, 24.0), ForecastEntry("Tis", "\U{e81a}", 14.0, 20.0),
     ForecastEntry("Ons", "\U{e798}", 10.0, 17.0), ForecastEntry("Tor", "\U{e818}", 12.0, 19.0),
     ForecastEntry("Fre", "\U{e80f}", 15.0, 22.0)])

  /** Whether building the display raises: an empty condition list, now or on a forecast day. */
  predicate DisplayFails(data: WeatherData) {
    var days := ForecastDaysOf(data.daily.GetOr([]));
    IconCode(data.current.GetOr(Current(None, None, None)).weather).None?
    || exists k :: 0 <= k < |days| && IconCode(days[k].weather).None?
  }

  /** `get_weather_display_data` for a fetched payload. Any IndexError from an empty
      condition list gives the fallback display as a whole. */
  function GetWeatherDisplayData(data: WeatherData, cal: Calendar): (r: Display)
    ensures DisplayFails(data) ==> r == FallbackDisplay
    ensures !DisplayFails(data) ==>
      && r.current == CurrentDisplay(IconFor(IconCode(data.current.GetOr(Current(None, None, None)).weather).value), GetUvInfo(data, cal))
      && ForecastOf(ForecastDaysOf(data.daily.GetOr([])), cal) == Some(r.forecast)
  {
    var cur := data.current.GetOr(Current(None, None, None));
    match IconCode(cur.weather)
    case None => FallbackDisplay
    case Some(code) =>
      var uv := GetUvInfo(data, cal);
      match ForecastOf(ForecastDaysOf(data.daily.GetOr([])), cal)
      case None => FallbackDisplay
      case Some(forecast) => Display(CurrentDisplay(IconFor(code), uv), forecast)
  }

  /** Forecast entry `k` shows `daily[k + 1]`: at most five days, never today's entry. */
  lemma ForecastShowsFollowingDays(data: WeatherData, cal: Calendar)
    requires !DisplayFails(data)
    ensures var r, daily := GetWeatherDisplayData(data, cal), data.daily.GetOr([]);
      && |r.forecast| <= ForecastDays
      && |r.forecast| == (if |daily| <= 1 then 0 else if |daily| - 1 < ForecastDays then |daily| - 1 else ForecastDays)
      && forall k :: 0 <= k < |r.forecast| ==>
           && r.forecast[k].icon == IconFor(IconCode(daily[k + 1].weather).value)
           && r.forecast[k].day == DayName(cal.weekdayOf(daily[k + 1].dt.GetOr(0.0)))
  {
    var days := ForecastDaysOf(data.daily.GetOr([]));
    assert forall k :: 0 <= k < |days| ==> IconCode(days[k].weather).Some?;
  }

  // ---------------------------------------------------------------- cache

  /** The cache file: `timestamp` and `data` keys, either possibly missing. */
  datatype CacheFile = CacheFile(timestamp: Option<real>, data: Option<WeatherData>)

  /** The freshness test of `get_cached_data`; a missing timestamp counts as 0. */
  predicate Fresh(file: CacheFile, now: real, duration: real) {
    now - file.timestamp.GetOr(0.0) < duration
  }

  /** `get_cached_data` given the file's contents (`None` if absent or unreadable). */
  function GetCachedData(file: Option<CacheFile>, now: real, duration: real): (r: Option<WeatherData>)
    ensures r.Some? ==> file.Some? && Fresh(file.value, now, duration) && r == file.value.data
    ensures file.Some? && Fresh(file.value, now, duration) ==> r == file.value.data
    ensures file.None? || !Fresh(file.value, now, duration) ==> r.None?
  {
    match file
    case None => None
    case Some(f) => if Fresh(f, now, duration) then f.data else None
  }

  /** `save_to_cache(data)` at time `now`. */
  function SaveToCache(data: WeatherData, now: real): (r: CacheFile)
    ensures r.timestamp == Some(now) && r.data == Some(data)
  {
    CacheFile(Some(now), Some(data))
  }

  /** A saved payload is read back exactly while less than `duration` has passed. */
  lemma CacheRoundTrip(data: WeatherData, savedAt: real, now: real, duration: real)
    ensures GetCachedData(Some(SaveToCache(data, savedAt)), now, duration) ==
      (if now < savedAt + duration then Some(data) else None)
  {
  }

  /** A cache accepted now was accepted at every earlier time as well. */
  lemma FreshnessIsMonotone(file: CacheFile, earlier: real, now: real, duration: real)
    requires earlier <= now && Fresh(file, now, duration)
    ensures Fresh(file, earlier, duration)
  {
  }

  /** `fetch_weather_data`: a cached payload if there is one, else the fetched one,
      else the fallback payload built at `now`. */
  function FetchWeatherData(cached: Option<WeatherData>, fetched: Option<WeatherData>, now: real): (r: WeatherData)
    ensures cached.Some? ==> r == cached.value
    ensures cached.None? && fetched.Some? ==> r == fetched.value
    ensures cached.None? && fetched.None? ==> r == FallbackData(now)
  {
    if cached.Some? then cached.value
    else if fetched.Some? then fetched.value
    else FallbackData(now)
  }

  /** A payload fetched and saved at `savedAt` is what every fetch returns until the
      cache duration has passed, whatever the network would answer; after that the
      fetch goes to the network again. */
  lemma FetchServesSavedPayload(data: WeatherData, savedAt: real, now: real, duration: real,
                                fetched: Option<WeatherData>)
    ensures now < savedAt + duration ==>
      FetchWeatherData(GetCachedData(Some(SaveToCache(data, savedAt)), now, duration), fetched, now) == data
    ensures now >= savedAt + duration && fetched.Some? ==>
      FetchWeatherData(GetCachedData(Some(SaveToCache(data, savedAt)), now, duration), fetched, now) == fetched.value
  {
    CacheRoundTrip(data, savedAt, now, duration);
  }

  /** `get_fallback_data`: clear sky now and for five days from `now` on. */
  function FallbackData(now: real): (r: WeatherData)
    ensures r.current.Some? && r.current.value.uvi == Some(1.0)
    ensures r.current.Some? && IconCode(r.current.value.weather) == Some(DefaultCode)
    ensures r.hourly.None?
    ensures r.daily.Some? && |r.daily.value| == ForecastDays
    ensures r.daily.Some? && r.daily.value[0].dt == Some(now)
    ensures r.daily.Some? && forall j, k :: 0 <= j <= k < |r.daily.value| ==>
      r.daily.value[j].dt.Some? && r.daily.value[k].dt.Some? &&
      r.daily.value[k].dt.value - r.daily.value[j].dt.value == (k - j) as real * 86400.0
    ensures r.daily.Some? && forall k :: 0 <= k < |r.daily.value| ==>
      IconCode(r.daily.value[k].weather) == Some(DefaultCode) &&
      r.daily.value[k].tempMin == Some(10.0) && r.daily.value[k].tempMax == Some(20.0)
  {
    WeatherData(Some(Current(None, Some(1.0), Some([Some(DefaultCode)]))), None,
      Some(seq(ForecastDays, i => Day(Some(now + (i as real) * 86400.0), Some([Some(DefaultCode)]), Some(10.0), Some(20.0)))))
  }

  /** The fallback payload's five days start with today, so only four reach the forecast,
      each with the clear-day glyph. */
  lemma FallbackDataShowsFourDays(now: real, cal: Calendar)
    ensures var r := GetWeatherDisplayData(FallbackData(now), cal);
      |r.forecast| == 4 && forall k :: 0 <= k < 4 ==> r.forecast[k].icon == "\U{f157}"
  {
    var data := FallbackData(now);
    var days := ForecastDaysOf(data.daily.value);
    assert forall k :: 0 <= k < |days| ==> IconCode(days[k].weather) == Some(DefaultCode);
    assert IconFor(DefaultCode) == "\U{f157}";
  }
}
