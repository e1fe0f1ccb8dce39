/**
 * Rolling device statistics: a batch simulation of a streaming job that
 * deduplicates sensor readings, generates overlapping sliding windows over
 * the readings' time range, and emits count, temperature sum, min and max
 * per (window, device) that has at least one reading, ordered by
 * (window_start, device_id).
 *
 * Times are integer seconds; window length and slide are given in minutes,
 * as in the source. Temperatures are integers, and the rounded float mean is
 * represented by the (tempSum, eventCount) pair it is computed from.
 */
module DeviceStats {
  import opened Wrappers
  import Order
  import Dedup

  const SecondsPerMinute := 60

  /** One reading of the stream. */
  datatype SensorEvent = SensorEvent(eventId: string, deviceId: string, ts: int, temperature: int)

  /** The half-open interval [start, end) of event times. */
  datatype Window = Window(start: int, end: int)

  /** One output row; the mean temperature is tempSum / eventCount. */
  datatype DeviceWindowStats = DeviceWindowStats(
    deviceId: string,
    windowStart: int,
    windowEnd: int,
    tempSum: int,
    eventCount: nat,
    minTemp: int,
    maxTemp: int)

  /**
   * Raised when there is no row at all: the final sort of a frame built from
   * an empty list finds no `window_start` column.
   */
  datatype StatsError = NoRowsToSort

  // ---------------------------------------------------------------------
  // Window generation
  // ---------------------------------------------------------------------

  /**
   * The windows the generator yields, in closed form: `start_time + i * slide`
   * for every `i` whose start does not pass `end_time`.
   */
  function SlidingWindows(startTime: int, endTime: int, windowLengthMinutes: int, slideMinutes: int): seq<Window>
    requires slideMinutes > 0 || startTime > endTime
  {
    if startTime > endTime then []
    else
      var length := windowLengthMinutes * SecondsPerMinute;
      var slide := slideMinutes * SecondsPerMinute;
      seq((endTime - startTime) / slide + 1, i => Window(startTime + i * slide, startTime + i * slide + length))
  }

  lemma DivIsUnique(x: int, d: int, q: int)
    requires d > 0 && q * d <= x < q * d + d
    ensures x / d == q
  {
    var p := x / d;
    assert p * d <= x < p * d + d;
    if p < q {
      MulIsMonotone(p + 1, q, d);
    } else if q < p {
      MulIsMonotone(q + 1, p, d);
    }
  }

  lemma MulIsMonotone(a: int, b: int, d: int)
    requires a <= b && d > 0
    ensures a * d <= b * d
  {
    assert b * d - a * d == (b - a) * d;
  }

  lemma DivIsMonotone(x: int, y: int, d: int)
    requires 0 <= x <= y && d > 0
    ensures x / d <= y / d
  {
    var p, q := x / d, y / d;
    assert p * d <= x && y < q * d + d;
    if q < p {
      MulIsMonotone(q + 1, p, d);
    }
  }

  /**
   * The generator's contract: the first window starts at `start_time`, every
   * window is `window_length` long, consecutive starts are `slide` apart, every
   * start is at most `end_time`, the start after the last one is past
   * `end_time`, and there is no window exactly when `start_time > end_time`.
   */
  lemma SlidingWindowsShape(startTime: int, endTime: int, windowLengthMinutes: int, slideMinutes: int)
    requires slideMinutes > 0 || startTime > endTime
    ensures var ws := SlidingWindows(startTime, endTime, windowLengthMinutes, slideMinutes);
      && (ws == [] <==> startTime > endTime)
      && (ws != [] ==> ws[0].start == startTime)
      && (forall i :: 0 <= i < |ws| ==> ws[i].end == ws[i].start + windowLengthMinutes * SecondsPerMinute)
      && (forall i :: 0 < i < |ws| ==> ws[i].start == ws[i - 1].start + slideMinutes * SecondsPerMinute)
      && (forall i :: 0 <= i < |ws| ==> ws[i].start <= endTime)
      && (ws != [] ==> ws[|ws| - 1].start + slideMinutes * SecondsPerMinute > endTime)
  {
    var ws := SlidingWindows(startTime, endTime, windowLengthMinutes, slideMinutes);
    if startTime <= endTime {
      var slide := slideMinutes * SecondsPerMinute;
      var x := endTime - startTime;
      var q := x / slide;
      assert q * slide <= x < q * slide + slide;
      forall i | 0 <= i < |ws| ensures ws[i].start <= endTime {
        MulIsMonotone(i, q, slide);
      }
      forall i | 0 < i < |ws| ensures ws[i].start == ws[i - 1].start + slide {
        assert i * slide == (i - 1) * slide + slide;
      }
    }
  }

  /** Windows start strictly later one after another. */
  ghost predicate StartsIncreasing(ws: seq<Window>)
  {
    forall i, j :: 0 <= i < j < |ws| ==> ws[i].start < ws[j].start
  }

  lemma SlidingWindowsIncreasing(startTime: int, endTime: int, windowLengthMinutes: int, slideMinutes: int)
    requires slideMinutes > 0
    ensures StartsIncreasing(SlidingWindows(startTime, endTime, windowLengthMinutes, slideMinutes))
  {
    var ws := SlidingWindows(startTime, endTime, windowLengthMinutes, slideMinutes);
    var slide := slideMinutes * SecondsPerMinute;
    forall i, j | 0 <= i < j < |ws| ensures ws[i].start < ws[j].start {
      MulIsMonotone(i + 1, j, slide);
    }
  }

  /**
   * With windows at least as long as the slide, every instant of
   * [start_time, end_time] lies in some window.
   */
  lemma SlidingWindowsCover(startTime: int, endTime: int, windowLengthMinutes: int, slideMinutes: int, t: int)
    requires 0 < slideMinutes <= windowLengthMinutes
    requires startTime <= t <= endTime
    ensures var ws := SlidingWindows(startTime, endTime, windowLengthMinutes, slideMinutes);
      exists i :: 0 <= i < |ws| && ws[i].start <= t < ws[i].end
  {
    var ws := SlidingWindows(startTime, endTime, windowLengthMinutes, slideMinutes);
    var slide := slideMinutes * SecondsPerMinute;
    var i := (t - startTime) / slide;
    DivIsMonotone(t - startTime, endTime - startTime, slide);
    assert i * slide <= t - startTime < i * slide + slide;
    assert ws[i].start <= t < ws[i].end;
  }

  /** The generator loop: `current` advances by `slide` while it is at most `end_time`. */
  method CreateSlidingWindows(startTime: int, endTime: int, windowLengthMinutes: int, slideMinutes: int)
    returns (windows: seq<Window>)
    requires slideMinutes > 0 || startTime > endTime
    ensures windows == SlidingWindows(startTime, endTime, windowLengthMinutes, slideMinutes)
  {
    var current := startTime;
    var windowLength := windowLengthMinutes * SecondsPerMinute;
    var slide := slideMinutes * SecondsPerMinute;
    windows := [];
    while current <= endTime
      invariant current == startTime + |windows| * slide
      invariant windows != [] ==> startTime <= endTime && current - slide <= endTime
      invariant forall i :: 0 <= i < |windows| ==>
        windows[i] == Window(startTime + i * slide, startTime + i * slide + windowLength)
      decreases endTime - current
    {
      windows := windows + [Window(current, current + windowLength)];
      current := current + slide;
    }
    if windows != [] {
      var n := |windows| - 1;
      assert n * slide + slide == |windows| * slide;
      DivIsUnique(endTime - startTime, slide, n);
    }
  }

  // ---------------------------------------------------------------------
  // Per-window, per-device aggregation
  // ---------------------------------------------------------------------

  function EventId(e: SensorEvent): string { e.eventId }

  function EventTs(e: SensorEvent): int { e.ts }

  /** Step 2 of the job: keep the latest reading of every event id. */
  function Clean(stream: seq<SensorEvent>): seq<SensorEvent>
  {
    Dedup.KeepLatest(stream, EventId, EventTs)
  }

  /** `window_start <= ts < window_end`. */
  predicate InWindow(e: SensorEvent, w: Window)
  {
    w.start <= e.ts < w.end
  }

  /** The readings inside a window, in input order. */
  function EventsIn(events: seq<SensorEvent>, w: Window): seq<SensorEvent>
  {
    if events == [] then []
    else (if InWindow(events[0], w) then [events[0]] else []) + EventsIn(events[1..], w)
  }

  /** The readings of one device, in input order. */
  function EventsOf(events: seq<SensorEvent>, device: string): seq<SensorEvent>
  {
    if events == [] then []
    else (if events[0].deviceId == device then [events[0]] else []) + EventsOf(events[1..], device)
  }

  function DeviceIds(events: seq<SensorEvent>): seq<string>
  {
    if events == [] then []
    else [events[0].deviceId] + DeviceIds(events[1..])
  }

  function Timestamps(events: seq<SensorEvent>): (r: seq<int>)
    ensures |r| == |events|
  {
    if events == [] then []
    else [events[0].ts] + Timestamps(events[1..])
  }

  function Temperatures(events: seq<SensorEvent>): (r: seq<int>)
    ensures |r| == |events|
  {
    if events == [] then []
    else [events[0].temperature] + Temperatures(events[1..])
  }

  lemma {:induction false} EventsInMember(events: seq<SensorEvent>, w: Window, e: SensorEvent)
    ensures e in EventsIn(events, w) <==> e in events && InWindow(e, w)
  {
    if events != [] {
      EventsInMember(events[1..], w, e);
      assert events == [events[0]] + events[1..];
    }
  }

  lemma {:induction false} EventsOfMember(events: seq<SensorEvent>, device: string, e: SensorEvent)
    ensures e in EventsOf(events, device) <==> e in events && e.deviceId == device
  {
    if events != [] {
      EventsOfMember(events[1..], device, e);
      assert events == [events[0]] + events[1..];
    }
  }

  lemma {:induction false} DeviceIdsMember(events: seq<SensorEvent>, d: string)
    ensures d in DeviceIds(events) <==> exists e :: e in events && e.deviceId == d
  {
    if events != [] {
      DeviceIdsMember(events[1..], d);
      assert events == [events[0]] + events[1..];
    }
  }

  lemma {:induction false} TimestampsMember(events: seq<SensorEvent>, t: int)
    ensures t in Timestamps(events) <==> exists e :: e in events && e.ts == t
  {
    if events != [] {
      TimestampsMember(events[1..], t);
      assert events == [events[0]] + events[1..];
    }
  }

  lemma {:induction false} TemperaturesMember(events: seq<SensorEvent>, t: int)
    ensures t in Temperatures(events) <==> exists e :: e in events && e.temperature == t
  {
    if events != [] {
      TemperaturesMember(events[1..], t);
      assert events == [events[0]] + events[1..];
    }
  }

  /** The aggregates of one device's readings in one window. */
  function StatsRow(w: Window, device: string, group: seq<SensorEvent>): DeviceWindowStats
    requires group != []
  {
    var temps := Temperatures(group);
    DeviceWindowStats(device, w.start, w.end, Order.SumOf(temps), |group|, Order.MinOf(temps), Order.MaxOf(temps))
  }

  /** Every listed device has at least one of the readings. */
  ghost predicate AllPresent(events: seq<SensorEvent>, devices: seq<string>)
  {
    forall k :: 0 <= k < |devices| ==> EventsOf(events, devices[k]) != []
  }

  /** `groupby('device_id')`: the devices present, ascending and distinct. */
  function DeviceGroups(events: seq<SensorEvent>): (r: seq<string>)
    ensures Order.SortedBy(Order.StrLt, r)
    ensures forall d :: d in r <==> d in DeviceIds(events)
    ensures AllPresent(events, r)
  {
    Order.StrLtIsStrictTotalOrder();
    var r := Order.SortedDistinct(Order.StrLt, DeviceIds(events));
    assert AllPresent(events, r) by {
      forall k | 0 <= k < |r| ensures EventsOf(events, r[k]) != [] {
        assert r[k] in DeviceIds(events);
        DeviceIdsMember(events, r[k]);
        var e :| e in events && e.deviceId == r[k];
        EventsOfMember(events, r[k], e);
      }
    }
    r
  }

  /** One row per listed device, in list order. */
  function GroupRows(w: Window, inWindow: seq<SensorEvent>, devices: seq<string>): seq<DeviceWindowStats>
    requires AllPresent(inWindow, devices)
  {
    if devices == [] then []
    else
      var device := devices[|devices| - 1];
      GroupRows(w, inWindow, devices[..|devices| - 1]) + [StatsRow(w, device, EventsOf(inWindow, device))]
  }

  /** The rows one window contributes: one per device present, devices ascending. */
  function WindowRows(clean: seq<SensorEvent>, w: Window): seq<DeviceWindowStats>
  {
    var inWindow := EventsIn(clean, w);
    if inWindow == [] then [] else GroupRows(w, inWindow, DeviceGroups(inWindow))
  }

  /** The rows of a sequence of windows, window after window. */
  function RowsFor(clean: seq<SensorEvent>, ws: seq<Window>): seq<DeviceWindowStats>
  {
    Order.ConcatMap(w => WindowRows(clean, w), ws)
  }

  lemma RowsForSnoc(clean: seq<SensorEvent>, ws: seq<Window>, i: nat)
    requires i < |ws|
    ensures RowsFor(clean, ws[..i + 1]) == RowsFor(clean, ws[..i]) + WindowRows(clean, ws[i])
  {
    assert ws[..i + 1][..i] == ws[..i];
  }

  lemma GroupRowsSnoc(w: Window, inWindow: seq<SensorEvent>, devices: seq<string>, j: nat)
    requires j < |devices|
    requires AllPresent(inWindow, devices)
    ensures GroupRows(w, inWindow, devices[..j + 1])
      == GroupRows(w, inWindow, devices[..j]) + [StatsRow(w, devices[j], EventsOf(inWindow, devices[j]))]
  {
    assert devices[..j + 1][..j] == devices[..j];
  }

  /** The windows the job generates: from the earliest to the latest clean reading. */
  function JobWindows(clean: seq<SensorEvent>, windowLengthMinutes: int, slideMinutes: int): seq<Window>
    requires clean != [] ==> slideMinutes > 0
  {
    if clean == [] then []
    else
      var times := Timestamps(clean);
      SlidingWindows(Order.MinOf(times), Order.MaxOf(times), windowLengthMinutes, slideMinutes)
  }

  /** What the job returns; `watermark_minutes` is not an argument because the job never reads it. */
  function DeviceStatsReport(stream: seq<SensorEvent>, windowLengthMinutes: int, slideMinutes: int)
    : Result<seq<DeviceWindowStats>, StatsError>
    requires stream != [] ==> slideMinutes > 0
  {
    var clean := Clean(stream);
    var rows := RowsFor(clean, JobWindows(clean, windowLengthMinutes, slideMinutes));
    if rows == [] then Failure(NoRowsToSort) else Success(rows)
  }

  /** The inner loop of the job: one row per device present in the window, devices ascending. */
  method DeviceRows(w: Window, inWindow: seq<SensorEvent>) returns (rows: seq<DeviceWindowStats>)
    ensures rows == GroupRows(w, inWindow, DeviceGroups(inWindow))
  {
    var devices := DeviceGroups(inWindow);
    rows := [];
    var j := 0;
    while j < |devices|
      invariant 0 <= j <= |devices|
      invariant rows == GroupRows(w, inWindow, devices[..j])
    {
      var group := EventsOf(inWindow, devices[j]);
      rows := rows + [StatsRow(w, devices[j], group)];
      GroupRowsSnoc(w, inWindow, devices, j);
      j := j + 1;
    }
    assert devices[..j] == devices;
  }

  /**
   * The job: deduplicate, generate the windows over the readings' time range,
   * and for each window with readings append one row per device.
   */
  method ProcessDeviceStats(stream: seq<SensorEvent>, watermarkMinutes: int, windowLengthMinutes: int, slideMinutes: int)
    returns (output: Result<seq<DeviceWindowStats>, StatsError>)
    requires stream != [] ==> slideMinutes > 0
    ensures output == DeviceStatsReport(stream, windowLengthMinutes, slideMinutes)
  {
    var clean := Clean(stream);
    var windows: seq<Window> := [];
    if clean != [] {
      var times := Timestamps(clean);
      windows := CreateSlidingWindows(Order.MinOf(times), Order.MaxOf(times), windowLengthMinutes, slideMinutes);
    }
    assert windows == JobWindows(clean, windowLengthMinutes, slideMinutes);
    var results: seq<DeviceWindowStats> := [];
    var i := 0;
    while i < |windows|
      invariant 0 <= i <= |windows|
      invariant results == RowsFor(clean, windows[..i])
    {
      var w := windows[i];
      RowsForSnoc(clean, windows, i);
      var inWindow := EventsIn(clean, w);
      if inWindow == [] {
        i := i + 1;
        continue;
      }
      var rows := DeviceRows(w, inWindow);
      results := results + rows;
      i := i + 1;
    }
    assert windows[..i] == windows;
    if results == [] {
      output := Failure(NoRowsToSort);
    } else {
      output := Success(results);
    }
  }

  // ---------------------------------------------------------------------
  // Properties of the report
  // ---------------------------------------------------------------------

  /** The rows of a result; a job that raised has none. */
  function ReportRows(report: Result<seq<DeviceWindowStats>, StatsError>): seq<DeviceWindowStats>
  {
    if report.Success? then report.value else []
  }

  /** The order of the final sort: by window start, then by device id. */
  predicate RowLt(a: DeviceWindowStats, b: DeviceWindowStats)
  {
    a.windowStart < b.windowStart || (a.windowStart == b.windowStart && Order.StrLt(a.deviceId, b.deviceId))
  }

  /**
   * A row describes the readings of its device in its window: there is at
   * least one, the count is theirs, the sum is the sum of their temperatures,
   * and min / max are the least and greatest of those temperatures.
   */
  ghost predicate Summarises(clean: seq<SensorEvent>, r: DeviceWindowStats)
  {
    var group := EventsOf(EventsIn(clean, Window(r.windowStart, r.windowEnd)), r.deviceId);
    && group != []
    && r.eventCount == |group|
    && r.tempSum == Order.SumOf(Temperatures(group))
    && (exists e :: e in group && e.temperature == r.minTemp)
    && (forall e :: e in group ==> r.minTemp <= e.temperature)
    && (exists e :: e in group && e.temperature == r.maxTemp)
    && (forall e :: e in group ==> e.temperature <= r.maxTemp)
  }

  lemma StatsRowSummarises(clean: seq<SensorEvent>, w: Window, device: string)
    requires EventsOf(EventsIn(clean, w), device) != []
    ensures Summarises(clean, StatsRow(w, device, EventsOf(EventsIn(clean, w), device)))
  {
    var group := EventsOf(EventsIn(clean, w), device);
    var temps := Temperatures(group);
    var lo, hi := Order.MinOf(temps), Order.MaxOf(temps);
    TemperaturesMember(group, lo);
    TemperaturesMember(group, hi);
    forall e | e in group ensures lo <= e.temperature <= hi {
      TemperaturesMember(group, e.temperature);
    }
  }

  /** The k-th listed device gets the k-th row. */
  lemma {:induction false} GroupRowsShape(w: Window, inWindow: seq<SensorEvent>, devices: seq<string>)
    requires AllPresent(inWindow, devices)
    ensures var rows := GroupRows(w, inWindow, devices);
      && |rows| == |devices|
      && forall k :: 0 <= k < |devices| ==> rows[k] == StatsRow(w, devices[k], EventsOf(inWindow, devices[k]))
  {
    if devices != [] {
      var init := devices[..|devices| - 1];
      assert AllPresent(inWindow, init) by {
        forall k | 0 <= k < |init| ensures EventsOf(inWindow, init[k]) != [] {
          assert init[k] == devices[k];
        }
      }
      GroupRowsShape(w, inWindow, init);
    }
  }

  /** One window's rows carry the window's bounds and have ascending device ids. */
  lemma WindowRowsSorted(clean: seq<SensorEvent>, w: Window)
    ensures Order.SortedBy(RowLt, WindowRows(clean, w))
  {
    var inWindow := EventsIn(clean, w);
    if inWindow != [] {
      var devices := DeviceGroups(inWindow);
      var rows := GroupRows(w, inWindow, devices);
      GroupRowsShape(w, inWindow, devices);
      forall i, j | 0 <= i < j < |rows| ensures RowLt(rows[i], rows[j]) {
        assert Order.StrLt(devices[i], devices[j]);
      }
    }
  }

  /** Each row of a window carries the window's bounds and summarises its device's readings there. */
  lemma WindowRowSummarises(clean: seq<SensorEvent>, w: Window, r: DeviceWindowStats)
    requires r in WindowRows(clean, w)
    ensures r.windowStart == w.start && r.windowEnd == w.end
    ensures Summarises(clean, r)
  {
    var inWindow := EventsIn(clean, w);
    var devices := DeviceGroups(inWindow);
    var rows := GroupRows(w, inWindow, devices);
    GroupRowsShape(w, inWindow, devices);
    var k :| 0 <= k < |rows| && rows[k] == r;
    StatsRowSummarises(clean, w, devices[k]);
  }

  /** A device has a row in a window exactly when it has a reading in that window. */
  lemma WindowRowsDevice(clean: seq<SensorEvent>, w: Window, d: string)
    ensures (exists r :: r in WindowRows(clean, w) && r.deviceId == d)
      <==> (exists e :: e in clean && e.deviceId == d && InWindow(e, w))
  {
    var inWindow := EventsIn(clean, w);
    if inWindow != [] {
      var devices := DeviceGroups(inWindow);
      var rows := GroupRows(w, inWindow, devices);
      GroupRowsShape(w, inWindow, devices);
      if exists r :: r in rows && r.deviceId == d {
        var r :| r in rows && r.deviceId == d;
        var k :| 0 <= k < |rows| && rows[k] == r;
        assert devices[k] in devices;
        DeviceIdsMember(inWindow, d);
        var e :| e in inWindow && e.deviceId == d;
        EventsInMember(clean, w, e);
      }
      if exists e :: e in clean && e.deviceId == d && InWindow(e, w) {
        var e :| e in clean && e.deviceId == d && InWindow(e, w);
        EventsInMember(clean, w, e);
        DeviceIdsMember(inWindow, d);
        assert d in devices;
        var k :| 0 <= k < |devices| && devices[k] == d;
        assert rows[k] in rows;
      }
    } else if exists e :: e in clean && e.deviceId == d && InWindow(e, w) {
      var e :| e in clean && e.deviceId == d && InWindow(e, w);
      EventsInMember(clean, w, e);
    }
  }

  /** A row of a run of windows is a row of one of them. */
  lemma RowsForMember(clean: seq<SensorEvent>, ws: seq<Window>, r: DeviceWindowStats)
    ensures r in RowsFor(clean, ws) <==> exists i :: 0 <= i < |ws| && r in WindowRows(clean, ws[i])
  {
    Order.ConcatMapMember(w => WindowRows(clean, w), ws, r);
  }

  /** Over windows with increasing starts the rows come out strictly ordered by (window start, device id). */
  lemma {:induction false} RowsForSorted(clean: seq<SensorEvent>, ws: seq<Window>)
    requires StartsIncreasing(ws)
    ensures Order.SortedBy(RowLt, RowsFor(clean, ws))
  {
    if ws != [] {
      var init, last := ws[..|ws| - 1], ws[|ws| - 1];
      var front, back := RowsFor(clean, init), WindowRows(clean, last);
      RowsForSorted(clean, init);
      WindowRowsSorted(clean, last);
      forall a, b | a in front && b in back ensures RowLt(a, b) {
        RowsForMember(clean, init, a);
        var i :| 0 <= i < |init| && a in WindowRows(clean, init[i]);
        WindowRowSummarises(clean, init[i], a);
        WindowRowSummarises(clean, last, b);
      }
      Order.SortedConcat(RowLt, front, back);
    }
  }

  /** The job's rows, before its final sort, are what `DeviceStatsReport` returns, or none. */
  lemma ReportRowsAre(stream: seq<SensorEvent>, windowLengthMinutes: int, slideMinutes: int)
    requires stream != [] ==> slideMinutes > 0
    ensures ReportRows(DeviceStatsReport(stream, windowLengthMinutes, slideMinutes))
      == RowsFor(Clean(stream), JobWindows(Clean(stream), windowLengthMinutes, slideMinutes))
  {
  }

  lemma JobWindowsIncreasing(clean: seq<SensorEvent>, windowLengthMinutes: int, slideMinutes: int)
    requires clean != [] ==> slideMinutes > 0
    ensures StartsIncreasing(JobWindows(clean, windowLengthMinutes, slideMinutes))
  {
    if clean != [] {
      var times := Timestamps(clean);
      SlidingWindowsIncreasing(Order.MinOf(times), Order.MaxOf(times), windowLengthMinutes, slideMinutes);
    }
  }

  /**
   * The report is strictly ordered by (window_start, device_id), so no
   * (window, device) pair occurs twice.
   */
  lemma ReportSorted(stream: seq<SensorEvent>, windowLengthMinutes: int, slideMinutes: int)
    requires stream != [] ==> slideMinutes > 0
    ensures Order.SortedBy(RowLt, ReportRows(DeviceStatsReport(stream, windowLengthMinutes, slideMinutes)))
  {
    var clean := Clean(stream);
    ReportRowsAre(stream, windowLengthMinutes, slideMinutes);
    JobWindowsIncreasing(clean, windowLengthMinutes, slideMinutes);
    RowsForSorted(clean, JobWindows(clean, windowLengthMinutes, slideMinutes));
  }

  /** A possible outcome of sorting `rows` by (window_start, device_id): a rearrangement in that order. */
  ghost predicate SortedRearrangement(rows: seq<DeviceWindowStats>, out: seq<DeviceWindowStats>)
  {
    && multiset(out) == multiset(rows)
    && forall i, j :: 0 <= i < j < |out| ==> !RowLt(out[j], out[i])
  }

  /** A sorted rearrangement of strictly ordered rows starts with the same row. */
  lemma SortedHeadsAgree(rows: seq<DeviceWindowStats>, out: seq<DeviceWindowStats>)
    requires Order.SortedBy(RowLt, rows) && rows != []
    requires SortedRearrangement(rows, out)
    ensures out != [] && out[0] == rows[0]
  {
    assert rows[0] in multiset(out);
    assert out[0] in multiset(rows);
    var k :| 0 <= k < |rows| && rows[k] == out[0];
    var m :| 0 <= m < |out| && out[m] == rows[0];
    if k > 0 {
      assert RowLt(rows[0], rows[k]);
      if m == 0 {
        Order.StrLtIrreflexive(rows[0].deviceId);
      }
      assert false;
    }
  }

  /** Sorting rows that are already strictly ordered by the sort key gives them back unchanged. */
  lemma {:induction false} SortingSortedRowsIsIdentity(rows: seq<DeviceWindowStats>, out: seq<DeviceWindowStats>)
    requires Order.SortedBy(RowLt, rows)
    requires SortedRearrangement(rows, out)
    ensures out == rows
  {
    if rows == [] {
      assert |multiset(out)| == |out|;
    } else {
      SortedHeadsAgree(rows, out);
      assert multiset(out[1..]) == multiset(rows[1..]) by {
        Order.MultisetOfTail(rows);
        Order.MultisetOfTail(out);
      }
      SortingSortedRowsIsIdentity(rows[1..], out[1..]);
      assert rows == [rows[0]] + rows[1..] && out == [out[0]] + out[1..];
    }
  }

  /** The final `sort_values(['window_start', 'device_id'])` leaves the job's rows as they are. */
  lemma FinalSortChangesNothing(stream: seq<SensorEvent>, windowLengthMinutes: int, slideMinutes: int,
                                out: seq<DeviceWindowStats>)
    requires stream != [] ==> slideMinutes > 0
    requires SortedRearrangement(ReportRows(DeviceStatsReport(stream, windowLengthMinutes, slideMinutes)), out)
    ensures out == ReportRows(DeviceStatsReport(stream, windowLengthMinutes, slideMinutes))
  {
    ReportSorted(stream, windowLengthMinutes, slideMinutes);
    SortingSortedRowsIsIdentity(ReportRows(DeviceStatsReport(stream, windowLengthMinutes, slideMinutes)), out);
  }

  /**
   * Every row belongs to a generated window, spans the window length, and
   * summarises its device's clean readings in that window.
   */
  lemma ReportRowSummarises(stream: seq<SensorEvent>, windowLengthMinutes: int, slideMinutes: int,
                            r: DeviceWindowStats)
    requires stream != [] ==> slideMinutes > 0
    requires r in ReportRows(DeviceStatsReport(stream, windowLengthMinutes, slideMinutes))
    ensures Window(r.windowStart, r.windowEnd) in JobWindows(Clean(stream), windowLengthMinutes, slideMinutes)
    ensures r.windowEnd == r.windowStart + windowLengthMinutes * SecondsPerMinute
    ensures Summarises(Clean(stream), r)
  {
    var clean := Clean(stream);
    var ws := JobWindows(clean, windowLengthMinutes, slideMinutes);
    ReportRowsAre(stream, windowLengthMinutes, slideMinutes);
    RowsForMember(clean, ws, r);
    var i :| 0 <= i < |ws| && r in WindowRows(clean, ws[i]);
    WindowRowSummarises(clean, ws[i], r);
    var times := Timestamps(clean);
    SlidingWindowsShape(Order.MinOf(times), Order.MaxOf(times), windowLengthMinutes, slideMinutes);
    assert Window(r.windowStart, r.windowEnd) == ws[i];
  }

  /**
   * A generated window has a row for a device exactly when the device has a
   * clean reading in that window.
   */
  lemma ReportCoverage(stream: seq<SensorEvent>, windowLengthMinutes: int, slideMinutes: int, i: int, d: string)
    requires stream != [] ==> slideMinutes > 0
    requires 0 <= i < |JobWindows(Clean(stream), windowLengthMinutes, slideMinutes)|
    ensures var w := JobWindows(Clean(stream), windowLengthMinutes, slideMinutes)[i];
      (exists r :: r in ReportRows(DeviceStatsReport(stream, windowLengthMinutes, slideMinutes))
                   && r.windowStart == w.start && r.deviceId == d)
      <==> (exists e :: e in Clean(stream) && e.deviceId == d && InWindow(e, w))
  {
    var clean := Clean(stream);
    var ws := JobWindows(clean, windowLengthMinutes, slideMinutes);
    var rows := RowsFor(clean, ws);
    ReportRowsAre(stream, windowLengthMinutes, slideMinutes);
    WindowRowsDevice(clean, ws[i], d);
    if exists r :: r in rows && r.windowStart == ws[i].start && r.deviceId == d {
      var r :| r in rows && r.windowStart == ws[i].start && r.deviceId == d;
      RowsForMember(clean, ws, r);
      var k :| 0 <= k < |ws| && r in WindowRows(clean, ws[k]);
      WindowRowSummarises(clean, ws[k], r);
      JobWindowsIncreasing(clean, windowLengthMinutes, slideMinutes);
      assert k == i;
    }
    if exists e :: e in clean && e.deviceId == d && InWindow(e, ws[i]) {
      var r :| r in WindowRows(clean, ws[i]) && r.deviceId == d;
      WindowRowSummarises(clean, ws[i], r);
      RowsForMember(clean, ws, r);
    }
  }

  /**
   * With windows at least as long as the slide, no clean reading is lost:
   * each is counted in the row of its device for some window.
   */
  lemma EveryReadingCounted(stream: seq<SensorEvent>, windowLengthMinutes: int, slideMinutes: int, e: SensorEvent)
    requires 0 < slideMinutes <= windowLengthMinutes
    requires e in Clean(stream)
    ensures exists r :: (r in ReportRows(DeviceStatsReport(stream, windowLengthMinutes, slideMinutes))
      && r.deviceId == e.deviceId
      && e in EventsOf(EventsIn(Clean(stream), Window(r.windowStart, r.windowEnd)), r.deviceId))
  {
    var clean := Clean(stream);
    var times := Timestamps(clean);
    var ws := JobWindows(clean, windowLengthMinutes, slideMinutes);
    TimestampsMember(clean, e.ts);
    SlidingWindowsCover(Order.MinOf(times), Order.MaxOf(times), windowLengthMinutes, slideMinutes, e.ts);
    var i :| 0 <= i < |ws| && ws[i].start <= e.ts < ws[i].end;
    WindowRowsDevice(clean, ws[i], e.deviceId);
    var r :| r in WindowRows(clean, ws[i]) && r.deviceId == e.deviceId;
    WindowRowSummarises(clean, ws[i], r);
    assert Window(r.windowStart, r.windowEnd) == ws[i];
    EventsInMember(clean, ws[i], e);
    EventsOfMember(EventsIn(clean, ws[i]), e.deviceId, e);
    ReportRowsAre(stream, windowLengthMinutes, slideMinutes);
    RowsForMember(clean, ws, r);
  }

  /** The job raises exactly when the stream is empty or the windows have no length. */
  lemma ReportFails(stream: seq<SensorEvent>, windowLengthMinutes: int, slideMinutes: int)
    requires stream != [] ==> slideMinutes > 0
    ensures DeviceStatsReport(stream, windowLengthMinutes, slideMinutes).Failure?
      <==> stream == [] || windowLengthMinutes <= 0
  {
    var clean := Clean(stream);
    var ws := JobWindows(clean, windowLengthMinutes, slideMinutes);
    var rows := RowsFor(clean, ws);
    if clean != [] {
      var times := Timestamps(clean);
      SlidingWindowsShape(Order.MinOf(times), Order.MaxOf(times), windowLengthMinutes, slideMinutes);
    }
    if stream != [] && windowLengthMinutes > 0 {
      Dedup.KeepLatestCovers(stream, EventId, EventTs, stream[0]);
      var times := Timestamps(clean);
      TimestampsMember(clean, Order.MinOf(times));
      var e :| e in clean && e.ts == Order.MinOf(times);
      WindowRowsDevice(clean, ws[0], e.deviceId);
      var r :| r in WindowRows(clean, ws[0]) && r.deviceId == e.deviceId;
      RowsForMember(clean, ws, r);
    } else if rows != [] {
      RowsForMember(clean, ws, rows[0]);
      var i :| 0 <= i < |ws| && rows[0] in WindowRows(clean, ws[i]);
      WindowRowsDevice(clean, ws[i], rows[0].deviceId);
      assert false;
    }
  }
}
