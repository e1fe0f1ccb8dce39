/**
 * Incremental daily user metrics: load the event files of a run, drop
 * events dated after the run date, keep the latest occurrence of every event
 * id, count page views and active time per (user, day), and merge these
 * fresh rows into the existing table so that re-running a day replaces its
 * rows instead of adding to them.
 *
 * Times are integer seconds and days are day numbers (`ts / 86400`); the run
 * date is a day number too. Active time is kept in seconds; the source's
 * conversion to rounded float minutes is not modelled.
 */
module UserDaily {
  import opened Wrappers
  import Order
  import Dedup

  const SecondsPerMinute := 60
  const SecondsPerDay := 86400

  /** The gap threshold `build_user_daily` uses (the default of `calculate_active_minutes`). */
  const DefaultGapThresholdMinutes := 5

  const PageView := "page_view"

  /** One row of an event file. */
  datatype UserEvent = UserEvent(eventId: string, userId: string, ts: int, eventType: string)

  /** A (user, day) pair: the key of the daily table. */
  datatype DayKey = DayKey(dt: int, userId: string)

  /** One row of the daily table; active time in seconds. */
  datatype DailyRow = DailyRow(userId: string, dt: int, pageviews: nat, activeSeconds: int)

  // ---------------------------------------------------------------------
  // Active time
  // ---------------------------------------------------------------------

  /** The sum of the differences between neighbours of `sorted` that are at most `limit`. */
  function GapSum(sorted: seq<int>, limit: int): int
  {
    if |sorted| <= 1 then 0
    else
      var n := |sorted|;
      var gap := sorted[n - 1] - sorted[n - 2];
      GapSum(sorted[..n - 1], limit) + (if gap <= limit then gap else 0)
  }

  /** `calculate_active_minutes`, in seconds: none for fewer than two events, else the short gaps summed. */
  function ActiveSeconds(timestamps: seq<int>, gapThresholdMinutes: int): int
  {
    if |timestamps| <= 1 then 0
    else GapSum(Order.SortInts(timestamps), gapThresholdMinutes * SecondsPerMinute)
  }

  /** `calculate_active_minutes`: nothing for fewer than two events, else the short gaps of the sorted times. */
  method CalculateActiveSeconds(timestamps: seq<int>, gapThresholdMinutes: int) returns (activeTime: int)
    ensures activeTime == ActiveSeconds(timestamps, gapThresholdMinutes)
  {
    if |timestamps| <= 1 {
      return 0;
    }
    var sortedTs := Order.SortInts(timestamps);
    activeTime := SumShortGaps(sortedTs, gapThresholdMinutes * SecondsPerMinute);
  }

  /** The loop of `calculate_active_minutes`: walk the neighbour pairs, adding the gaps within the limit. */
  method SumShortGaps(sortedTs: seq<int>, limit: int) returns (activeTime: int)
    ensures activeTime == GapSum(sortedTs, limit)
  {
    activeTime := 0;
    if |sortedTs| <= 1 {
      return;
    }
    var k := 1;
    while k < |sortedTs|
      invariant 1 <= k <= |sortedTs|
      invariant activeTime == GapSum(sortedTs[..k], limit)
    {
      var gap := sortedTs[k] - sortedTs[k - 1];
      if gap <= limit {
        activeTime := activeTime + gap;
      }
      GapSumStep(sortedTs, limit, k);
      k := k + 1;
    }
    assert sortedTs[..k] == sortedTs;
  }

  /** One more neighbour pair adds its gap when the gap is within the limit. */
  lemma GapSumStep(s: seq<int>, limit: int, k: int)
    requires 1 <= k < |s|
    ensures GapSum(s[..k + 1], limit)
      == GapSum(s[..k], limit) + (if s[k] - s[k - 1] <= limit then s[k] - s[k - 1] else 0)
  {
    assert s[..k + 1][..k] == s[..k];
  }

  lemma {:induction false} GapSumBounds(sorted: seq<int>, limit: int)
    requires Order.NonDecreasing(sorted) && sorted != []
    ensures 0 <= GapSum(sorted, limit) <= sorted[|sorted| - 1] - sorted[0]
  {
    if |sorted| > 1 {
      GapSumBounds(sorted[..|sorted| - 1], limit);
    }
  }

  lemma {:induction false} GapSumUnbroken(sorted: seq<int>, limit: int)
    requires sorted != []
    requires forall i :: 0 < i < |sorted| ==> sorted[i] - sorted[i - 1] <= limit
    ensures GapSum(sorted, limit) == sorted[|sorted| - 1] - sorted[0]
  {
    if |sorted| > 1 {
      GapSumUnbroken(sorted[..|sorted| - 1], limit);
    }
  }

  /** The ascending sort starts at the minimum and ends at the maximum. */
  lemma SortedEnds(timestamps: seq<int>)
    requires timestamps != []
    ensures var s := Order.SortInts(timestamps);
      |s| == |timestamps| && s[0] == Order.MinOf(timestamps) && s[|s| - 1] == Order.MaxOf(timestamps)
  {
    var s := Order.SortInts(timestamps);
    assert |s| == |multiset(s)|;
    var lo, hi := Order.MinOf(timestamps), Order.MaxOf(timestamps);
    assert s[0] in multiset(timestamps) && s[|s| - 1] in multiset(timestamps);
    assert s[0] in timestamps && s[|s| - 1] in timestamps;
    assert lo in multiset(s) && hi in multiset(s);
    var i :| 0 <= i < |s| && s[i] == lo;
    var j :| 0 <= j < |s| && s[j] == hi;
    assert s[0] <= s[i] && s[j] <= s[|s| - 1];
  }

  /**
   * Active time is never negative and never more than the span from the
   * first to the last event; with fewer than two events it is zero.
   */
  lemma ActiveSecondsBounds(timestamps: seq<int>, gapThresholdMinutes: int)
    ensures |timestamps| <= 1 ==> ActiveSeconds(timestamps, gapThresholdMinutes) == 0
    ensures timestamps != [] ==>
      0 <= ActiveSeconds(timestamps, gapThresholdMinutes) <= Order.MaxOf(timestamps) - Order.MinOf(timestamps)
  {
    if |timestamps| > 1 {
      SortedEnds(timestamps);
      GapSumBounds(Order.SortInts(timestamps), gapThresholdMinutes * SecondsPerMinute);
    }
  }

  /** Active time does not depend on the order of the events, since they are sorted first. */
  lemma ActiveSecondsOrderIndependent(a: seq<int>, b: seq<int>, gapThresholdMinutes: int)
    requires multiset(a) == multiset(b)
    ensures ActiveSeconds(a, gapThresholdMinutes) == ActiveSeconds(b, gapThresholdMinutes)
  {
    assert |a| == |multiset(a)| && |b| == |multiset(b)|;
    Order.SortedPermutationsEqual(Order.SortInts(a), Order.SortInts(b));
  }

  /** When no gap exceeds the threshold the whole span is active. */
  lemma ActiveSecondsUnbroken(timestamps: seq<int>, gapThresholdMinutes: int)
    requires timestamps != []
    requires var s := Order.SortInts(timestamps);
      forall i :: 0 < i < |s| ==> s[i] - s[i - 1] <= gapThresholdMinutes * SecondsPerMinute
    ensures ActiveSeconds(timestamps, gapThresholdMinutes) == Order.MaxOf(timestamps) - Order.MinOf(timestamps)
  {
    SortedEnds(timestamps);
    GapSumUnbroken(Order.SortInts(timestamps), gapThresholdMinutes * SecondsPerMinute);
  }

  // ---------------------------------------------------------------------
  // Loading, run-date filter and deduplication
  // ---------------------------------------------------------------------

  /** The calendar day of a timestamp, as a day number. */
  function Day(ts: int): int
  {
    ts / SecondsPerDay
  }

  /** `pd.concat` of the files' rows, in file order. */
  function ConcatFiles(files: seq<seq<UserEvent>>): seq<UserEvent>
  {
    if files == [] then [] else files[0] + ConcatFiles(files[1..])
  }

  lemma {:induction false} ConcatFilesAppend(a: seq<seq<UserEvent>>, b: seq<seq<UserEvent>>)
    ensures ConcatFiles(a + b) == ConcatFiles(a) + ConcatFiles(b)
  {
    if a == [] {
      assert a + b == b;
    } else {
      assert (a + b)[1..] == a[1..] + b;
      ConcatFilesAppend(a[1..], b);
    }
  }

  /** `raw[raw['dt'] <= run_date]`. */
  function OnOrBefore(events: seq<UserEvent>, runDate: int): seq<UserEvent>
  {
    if events == [] then []
    else (if Day(events[0].ts) <= runDate then [events[0]] else []) + OnOrBefore(events[1..], runDate)
  }

  lemma {:induction false} OnOrBeforeMember(events: seq<UserEvent>, runDate: int, e: UserEvent)
    ensures e in OnOrBefore(events, runDate) <==> e in events && Day(e.ts) <= runDate
  {
    if events != [] {
      OnOrBeforeMember(events[1..], runDate, e);
      assert events == [events[0]] + events[1..];
    }
  }

  lemma {:induction false} OnOrBeforeAppend(a: seq<UserEvent>, b: seq<UserEvent>, runDate: int)
    ensures OnOrBefore(a + b, runDate) == OnOrBefore(a, runDate) + OnOrBefore(b, runDate)
  {
    if a == [] {
      assert a + b == b;
    } else {
      assert (a + b)[1..] == a[1..] + b;
      OnOrBeforeAppend(a[1..], b, runDate);
    }
  }

  function EventId(e: UserEvent): string { e.eventId }

  function EventTs(e: UserEvent): int { e.ts }

  /** Steps 2 and 3: drop events after the run date, then keep the latest occurrence of each event id. */
  function CleanEvents(raw: seq<UserEvent>, runDate: int): seq<UserEvent>
  {
    Dedup.KeepLatest(OnOrBefore(raw, runDate), EventId, EventTs)
  }

  /**
   * The clean events come from the raw events, none is dated after the run
   * date, each event id occurs once, every id dated up to the run date keeps
   * an occurrence, and the kept one has the latest timestamp among them.
   */
  lemma CleanEventsFacts(raw: seq<UserEvent>, runDate: int, e: UserEvent)
    ensures e in CleanEvents(raw, runDate) ==> e in raw && Day(e.ts) <= runDate
    ensures e in CleanEvents(raw, runDate) ==>
      forall y :: y in raw && Day(y.ts) <= runDate && y.eventId == e.eventId ==> y.ts <= e.ts
    ensures e in raw && Day(e.ts) <= runDate ==>
      exists x :: x in CleanEvents(raw, runDate) && x.eventId == e.eventId
    ensures Dedup.UniqueIds(CleanEvents(raw, runDate), EventId)
  {
    var kept := OnOrBefore(raw, runDate);
    OnOrBeforeMember(raw, runDate, e);
    if e in CleanEvents(raw, runDate) {
      forall y | y in raw && Day(y.ts) <= runDate && y.eventId == e.eventId ensures y.ts <= e.ts {
        OnOrBeforeMember(raw, runDate, y);
      }
    }
    if e in raw && Day(e.ts) <= runDate {
      Dedup.KeepLatestCovers(kept, EventId, EventTs, e);
    }
  }

  // ---------------------------------------------------------------------
  // Per (user, day) aggregation
  // ---------------------------------------------------------------------

  /** The (user, day) an event belongs to. */
  function KeyOf(e: UserEvent): DayKey
  {
    DayKey(Day(e.ts), e.userId)
  }

  function RowKey(r: DailyRow): DayKey
  {
    DayKey(r.dt, r.userId)
  }

  /** The order `groupby(['user_id', 'dt'])` walks the groups in. */
  predicate GroupLt(a: DayKey, b: DayKey)
  {
    Order.StrLt(a.userId, b.userId) || (a.userId == b.userId && a.dt < b.dt)
  }

  /** The order of the final `sort_values(['dt', 'user_id'])`. */
  predicate KeyLt(a: DayKey, b: DayKey)
  {
    a.dt < b.dt || (a.dt == b.dt && Order.StrLt(a.userId, b.userId))
  }

  lemma GroupLtIsStrictTotalOrder()
    ensures Order.IsStrictTotalOrder(GroupLt)
  {
    Order.StrLtIsStrictTotalOrder();
    forall a: DayKey, b: DayKey | a != b ensures GroupLt(a, b) || GroupLt(b, a) {
      assert a == DayKey(a.dt, a.userId) && b == DayKey(b.dt, b.userId);
    }
  }

  lemma KeyLtIsStrictTotalOrder()
    ensures Order.IsStrictTotalOrder(KeyLt)
  {
    Order.StrLtIsStrictTotalOrder();
    forall a: DayKey, b: DayKey | a != b ensures KeyLt(a, b) || KeyLt(b, a) {
      assert a == DayKey(a.dt, a.userId) && b == DayKey(b.dt, b.userId);
    }
  }

  function UserDays(events: seq<UserEvent>): seq<DayKey>
  {
    if events == [] then [] else [KeyOf(events[0])] + UserDays(events[1..])
  }

  lemma {:induction false} UserDaysMember(events: seq<UserEvent>, k: DayKey)
    ensures k in UserDays(events) <==> exists e :: e in events && KeyOf(e) == k
  {
    if events != [] {
      UserDaysMember(events[1..], k);
      assert events == [events[0]] + events[1..];
    }
  }

  /** The events of one (user, day) group, in input order. */
  function GroupOf(events: seq<UserEvent>, k: DayKey): seq<UserEvent>
  {
    if events == [] then []
    else (if KeyOf(events[0]) == k then [events[0]] else []) + GroupOf(events[1..], k)
  }

  lemma {:induction false} GroupOfMember(events: seq<UserEvent>, k: DayKey, e: UserEvent)
    ensures e in GroupOf(events, k) <==> e in events && KeyOf(e) == k
  {
    if events != [] {
      GroupOfMember(events[1..], k, e);
      assert events == [events[0]] + events[1..];
    }
  }

  /** `(group['event_type'] == 'page_view').sum()`. */
  function PageViews(group: seq<UserEvent>): nat
  {
    if group == [] then 0 else (if group[0].eventType == PageView then 1 else 0) + PageViews(group[1..])
  }

  lemma {:induction false} PageViewsBounds(group: seq<UserEvent>)
    ensures PageViews(group) <= |group|
    ensures PageViews(group) == 0 <==> forall e :: e in group ==> e.eventType != PageView
  {
    if group != [] {
      PageViewsBounds(group[1..]);
      assert group == [group[0]] + group[1..];
    }
  }

  /**
   * The `ts` column of a group. `DeviceStats.Timestamps` is the same
   * projection over sensor readings; each stays with its own record type so
   * that no proof about either has to unfold a field passed as a function.
   */
  function Timestamps(events: seq<UserEvent>): (r: seq<int>)
    ensures |r| == |events|
  {
    if events == [] then [] else [events[0].ts] + Timestamps(events[1..])
  }

  /** `aggregate_user_day` for one group. */
  function DailyRowFor(clean: seq<UserEvent>, k: DayKey): DailyRow
  {
    var group := GroupOf(clean, k);
    DailyRow(k.userId, k.dt, PageViews(group), ActiveSeconds(Timestamps(group), DefaultGapThresholdMinutes))
  }

  /** Step 4: one row per (user, day) present, in group-by order. */
  function FreshRows(clean: seq<UserEvent>): seq<DailyRow>
  {
    var keys := FreshKeys(clean);
    seq(|keys|, i requires 0 <= i < |keys| => DailyRowFor(clean, keys[i]))
  }

  /** The (user, day) keys of the fresh rows, in group-by order. */
  function FreshKeys(clean: seq<UserEvent>): (keys: seq<DayKey>)
    ensures Order.SortedBy(GroupLt, keys)
  {
    GroupLtIsStrictTotalOrder();
    Order.SortedDistinct(GroupLt, UserDays(clean))
  }

  /** The group-by lists a key exactly when some clean event has it. */
  lemma FreshKeysMember(clean: seq<UserEvent>, k: DayKey)
    ensures k in FreshKeys(clean) <==> exists e :: e in clean && KeyOf(e) == k
  {
    GroupLtIsStrictTotalOrder();
    UserDaysMember(clean, k);
  }

  lemma FreshRowsAt(clean: seq<UserEvent>, i: int)
    requires 0 <= i < |FreshKeys(clean)|
    ensures |FreshRows(clean)| == |FreshKeys(clean)|
    ensures FreshRows(clean)[i] == DailyRowFor(clean, FreshKeys(clean)[i])
  {
  }

  /**
   * There is exactly one fresh row per (user, day) present in the clean
   * events, and it holds that group's page-view count and active time.
   */
  lemma FreshRowsFacts(clean: seq<UserEvent>, k: DayKey)
    ensures Order.DistinctKeys(RowKey, FreshRows(clean))
    ensures Dedup.KeyOccurs(RowKey, k, FreshRows(clean)) <==> exists e :: e in clean && KeyOf(e) == k
    ensures forall r :: r in FreshRows(clean) ==> r == DailyRowFor(clean, RowKey(r)) && GroupOf(clean, RowKey(r)) != []
  {
    FreshRowsDistinct(clean);
    FreshRowsCover(clean, k);
    forall r | r in FreshRows(clean) ensures r == DailyRowFor(clean, RowKey(r)) && GroupOf(clean, RowKey(r)) != [] {
      FreshRowOfGroup(clean, r);
    }
  }

  lemma FreshRowsDistinct(clean: seq<UserEvent>)
    ensures Order.DistinctKeys(RowKey, FreshRows(clean))
  {
    GroupLtIsStrictTotalOrder();
    var keys, rows := FreshKeys(clean), FreshRows(clean);
    forall i, j | 0 <= i < j < |rows| ensures RowKey(rows[i]) != RowKey(rows[j]) {
      FreshRowsAt(clean, i);
      FreshRowsAt(clean, j);
      Order.SortedByIsDistinct(GroupLt, keys, i, j);
    }
  }

  lemma FreshRowsCover(clean: seq<UserEvent>, k: DayKey)
    ensures Dedup.KeyOccurs(RowKey, k, FreshRows(clean)) <==> exists e :: e in clean && KeyOf(e) == k
  {
    var keys, rows := FreshKeys(clean), FreshRows(clean);
    FreshKeysMember(clean, k);
    if Dedup.KeyOccurs(RowKey, k, rows) {
      var i :| 0 <= i < |rows| && RowKey(rows[i]) == k;
      FreshRowsAt(clean, i);
      assert keys[i] in keys;
    }
    if k in keys {
      var i :| 0 <= i < |keys| && keys[i] == k;
      FreshRowsAt(clean, i);
    }
  }

  lemma FreshRowOfGroup(clean: seq<UserEvent>, r: DailyRow)
    requires r in FreshRows(clean)
    ensures r == DailyRowFor(clean, RowKey(r)) && GroupOf(clean, RowKey(r)) != []
  {
    var keys, rows := FreshKeys(clean), FreshRows(clean);
    var i :| 0 <= i < |rows| && rows[i] == r;
    FreshRowsAt(clean, i);
    assert keys[i] in keys;
    FreshKeysMember(clean, keys[i]);
    var e :| e in clean && KeyOf(e) == keys[i];
    GroupOfMember(clean, keys[i], e);
  }

  // ---------------------------------------------------------------------
  // Merge with the existing table
  // ---------------------------------------------------------------------

  /** `existing[existing['dt'] < cutoff_date]`. */
  function OlderThan(rows: seq<DailyRow>, cutoff: int): seq<DailyRow>
  {
    if rows == [] then []
    else (if rows[0].dt < cutoff then [rows[0]] else []) + OlderThan(rows[1..], cutoff)
  }

  /** The part of a table dated before `cutoff`. */
  function OlderPart(m: map<DayKey, DailyRow>, cutoff: int): map<DayKey, DailyRow>
  {
    map k | k in m && k.dt < cutoff :: m[k]
  }

  /** `sort_values(['dt', 'user_id'])` of rows whose keys do not repeat. */
  function SortRows(rows: seq<DailyRow>): (r: seq<DailyRow>)
    requires Order.DistinctKeys(RowKey, rows)
    ensures Order.SortedOn(RowKey, KeyLt, r)
    ensures multiset(r) == multiset(rows)
  {
    KeyLtIsStrictTotalOrder();
    Order.SortOn(RowKey, KeyLt, rows)
  }

  /** Step 5 with an existing table: old rows plus fresh rows, the last row of each key kept, sorted. */
  function Merge(existing: seq<DailyRow>, newRows: seq<DailyRow>, runDate: int, updateWindowDays: int)
    : seq<DailyRow>
  {
    var combined := OlderThan(existing, runDate - updateWindowDays) + newRows;
    var result := Dedup.KeepLast(RowKey, combined);
    Dedup.KeepLastFacts(RowKey, combined);
    SortRows(result)
  }

  /** The build: nothing without files; otherwise the fresh rows, merged into the existing table if there is one. */
  function BuildUserDaily(runDate: int, newFiles: seq<seq<UserEvent>>, existing: Option<seq<DailyRow>>,
                          updateWindowDays: int): seq<DailyRow>
  {
    if newFiles == [] then []
    else
      var clean := CleanEvents(ConcatFiles(newFiles), runDate);
      var newRows := FreshRows(clean);
      match existing
      case None =>
        FreshRowsFacts(clean, DayKey(0, ""));
        SortRows(newRows)
      case Some(rows) => Merge(rows, newRows, runDate, updateWindowDays)
  }

  lemma OlderPartOfUpdate(r: DailyRow, m: map<DayKey, DailyRow>, cutoff: int)
    ensures OlderPart(map[RowKey(r) := r] + m, cutoff)
      == (if r.dt < cutoff then map[RowKey(r) := r] + OlderPart(m, cutoff) else OlderPart(m, cutoff))
  {
    var lhs := OlderPart(map[RowKey(r) := r] + m, cutoff);
    var rhs := if r.dt < cutoff then map[RowKey(r) := r] + OlderPart(m, cutoff) else OlderPart(m, cutoff);
    forall k | k in lhs ensures k in rhs && lhs[k] == rhs[k] {
    }
    forall k | k in rhs ensures k in lhs {
    }
  }

  lemma {:induction false} AsMapOlderThan(rows: seq<DailyRow>, cutoff: int)
    ensures Dedup.AsMap(RowKey, OlderThan(rows, cutoff)) == OlderPart(Dedup.AsMap(RowKey, rows), cutoff)
  {
    if rows != [] {
      var r, rest := rows[0], rows[1..];
      var older := OlderThan(rest, cutoff);
      AsMapOlderThan(rest, cutoff);
      OlderPartOfUpdate(r, Dedup.AsMap(RowKey, rest), cutoff);
      if r.dt < cutoff {
        assert OlderThan(rows, cutoff) == [r] + older;
        assert ([r] + older)[1..] == older;
      } else {
        assert OlderThan(rows, cutoff) == older;
      }
    }
  }

  /** A list sorted on the key is determined by the table it describes. */
  lemma SortedTableDetermined(a: seq<DailyRow>, b: seq<DailyRow>)
    requires Order.SortedOn(RowKey, KeyLt, a) && Order.SortedOn(RowKey, KeyLt, b)
    requires Dedup.AsMap(RowKey, a) == Dedup.AsMap(RowKey, b)
    ensures a == b
  {
    KeyLtIsStrictTotalOrder();
    Order.SortedOnIsDistinct(RowKey, KeyLt, a);
    Order.SortedOnIsDistinct(RowKey, KeyLt, b);
    forall x ensures x in a <==> x in b {
      Dedup.DistinctKeysAsMap(RowKey, a, x);
      Dedup.DistinctKeysAsMap(RowKey, b, x);
    }
    Order.SortedOnDetermined(RowKey, KeyLt, a, b);
  }

  /** The table the sorted rows describe is that of its input, when no key repeats. */
  lemma SortOnKeepsTable(s: seq<DailyRow>)
    requires Order.DistinctKeys(RowKey, s)
    ensures Dedup.AsMap(RowKey, SortRows(s)) == Dedup.AsMap(RowKey, s)
  {
    KeyLtIsStrictTotalOrder();
    var sorted := SortRows(s);
    Order.SortedOnIsDistinct(RowKey, KeyLt, sorted);
    forall x ensures x in sorted <==> x in s {
      assert x in sorted <==> x in multiset(sorted);
    }
    Dedup.SameElementsSameMap(RowKey, sorted, s);
  }

  /**
   * The merged table is sorted on (dt, user_id), so no key repeats, and it
   * is the existing table's rows dated before `run_date - update_window_days`
   * overridden by the fresh rows.
   */
  lemma MergeTable(existing: seq<DailyRow>, newRows: seq<DailyRow>, runDate: int, updateWindowDays: int)
    ensures Order.SortedOn(RowKey, KeyLt, Merge(existing, newRows, runDate, updateWindowDays))
    ensures Dedup.AsMap(RowKey, Merge(existing, newRows, runDate, updateWindowDays))
      == OlderPart(Dedup.AsMap(RowKey, existing), runDate - updateWindowDays) + Dedup.AsMap(RowKey, newRows)
  {
    var cutoff := runDate - updateWindowDays;
    var combined := OlderThan(existing, cutoff) + newRows;
    var kept := Dedup.KeepLast(RowKey, combined);
    Dedup.KeepLastFacts(RowKey, combined);
    assert Merge(existing, newRows, runDate, updateWindowDays) == SortRows(kept);
    SortOnKeepsTable(kept);
    Dedup.AsMapAppend(RowKey, OlderThan(existing, cutoff), newRows);
    AsMapOlderThan(existing, cutoff);
    calc {
      Dedup.AsMap(RowKey, SortRows(kept));
      Dedup.AsMap(RowKey, kept);
      Dedup.AsMap(RowKey, combined);
      Dedup.AsMap(RowKey, OlderThan(existing, cutoff)) + Dedup.AsMap(RowKey, newRows);
      OlderPart(Dedup.AsMap(RowKey, existing), cutoff) + Dedup.AsMap(RowKey, newRows);
    }
  }

  /**
   * A row is in the merged table exactly when it is the last fresh row of
   * its key, or its key has no fresh row, it is dated before the cutoff, and
   * it is the last existing row of its key.
   */
  lemma MergeRows(existing: seq<DailyRow>, newRows: seq<DailyRow>, runDate: int, updateWindowDays: int, x: DailyRow)
    ensures var e, f := Dedup.AsMap(RowKey, existing), Dedup.AsMap(RowKey, newRows);
      x in Merge(existing, newRows, runDate, updateWindowDays) <==>
        || (RowKey(x) in f && f[RowKey(x)] == x)
        || (RowKey(x) !in f && x.dt < runDate - updateWindowDays && RowKey(x) in e && e[RowKey(x)] == x)
  {
    var merged := Merge(existing, newRows, runDate, updateWindowDays);
    MergeTable(existing, newRows, runDate, updateWindowDays);
    KeyLtIsStrictTotalOrder();
    Order.SortedOnIsDistinct(RowKey, KeyLt, merged);
    Dedup.DistinctKeysAsMap(RowKey, merged, x);
  }

  /** A fresh row always lands in the merged table (fresh rows have distinct keys). */
  lemma MergeFreshWins(existing: seq<DailyRow>, newRows: seq<DailyRow>, runDate: int, updateWindowDays: int, x: DailyRow)
    requires Order.DistinctKeys(RowKey, newRows)
    requires x in newRows
    ensures x in Merge(existing, newRows, runDate, updateWindowDays)
  {
    Dedup.DistinctKeysAsMap(RowKey, newRows, x);
    MergeRows(existing, newRows, runDate, updateWindowDays, x);
  }

  /** An existing row dated before the cutoff whose key gets no fresh row is kept unchanged. */
  lemma MergeKeepsOld(existing: seq<DailyRow>, newRows: seq<DailyRow>, runDate: int, updateWindowDays: int, x: DailyRow)
    requires Order.DistinctKeys(RowKey, existing)
    requires x in existing && x.dt < runDate - updateWindowDays
    requires !Dedup.KeyOccurs(RowKey, RowKey(x), newRows)
    ensures x in Merge(existing, newRows, runDate, updateWindowDays)
  {
    Dedup.DistinctKeysAsMap(RowKey, existing, x);
    Dedup.AsMapDomain(RowKey, newRows, RowKey(x));
    MergeRows(existing, newRows, runDate, updateWindowDays, x);
  }

  /** Every merged row dated at or after the cutoff is a fresh row: recent existing rows are dropped. */
  lemma MergeDropsRecent(existing: seq<DailyRow>, newRows: seq<DailyRow>, runDate: int, updateWindowDays: int, x: DailyRow)
    requires x in Merge(existing, newRows, runDate, updateWindowDays)
    requires x.dt >= runDate - updateWindowDays
    ensures x in newRows
  {
    MergeRows(existing, newRows, runDate, updateWindowDays, x);
    Dedup.AsMapDomain(RowKey, newRows, RowKey(x));
  }

  /** Overriding the older part of a table by `b` a second time adds nothing. */
  lemma OlderPartAbsorbed(a: map<DayKey, DailyRow>, b: map<DayKey, DailyRow>, cutoff: int,
                          m: map<DayKey, DailyRow>)
    requires m == OlderPart(a, cutoff) + b
    ensures m == OlderPart(m, cutoff) + b
  {
  }

  lemma OlderPartOfSelf(b: map<DayKey, DailyRow>, cutoff: int)
    ensures OlderPart(b, cutoff) + b == b
  {
  }

  /** A table sorted on its key that already holds its own older part overridden by the fresh rows. */
  ghost predicate Settled(table: seq<DailyRow>, newRows: seq<DailyRow>, cutoff: int)
  {
    && Order.SortedOn(RowKey, KeyLt, table)
    && Dedup.AsMap(RowKey, table) == OlderPart(Dedup.AsMap(RowKey, table), cutoff) + Dedup.AsMap(RowKey, newRows)
  }

  /** A merge leaves a settled table alone. */
  lemma MergeFixedPoint(table: seq<DailyRow>, newRows: seq<DailyRow>, runDate: int, updateWindowDays: int)
    requires Settled(table, newRows, runDate - updateWindowDays)
    ensures Merge(table, newRows, runDate, updateWindowDays) == table
  {
    MergeTable(table, newRows, runDate, updateWindowDays);
    SortedTableDetermined(Merge(table, newRows, runDate, updateWindowDays), table);
  }

  /** A sorted table made of some older part overridden by the fresh rows is settled. */
  lemma TableAbsorbs(table: seq<DailyRow>, e: map<DayKey, DailyRow>, newRows: seq<DailyRow>, cutoff: int)
    requires Order.SortedOn(RowKey, KeyLt, table)
    requires Dedup.AsMap(RowKey, table) == OlderPart(e, cutoff) + Dedup.AsMap(RowKey, newRows)
    ensures Settled(table, newRows, cutoff)
  {
    OlderPartAbsorbed(e, Dedup.AsMap(RowKey, newRows), cutoff, Dedup.AsMap(RowKey, table));
  }

  /** A merge leaves alone a sorted table made of some older part overridden by the fresh rows. */
  lemma MergeKeepsAbsorbed(table: seq<DailyRow>, e: map<DayKey, DailyRow>, newRows: seq<DailyRow>,
                           runDate: int, updateWindowDays: int)
    requires Order.SortedOn(RowKey, KeyLt, table)
    requires Dedup.AsMap(RowKey, table) == OlderPart(e, runDate - updateWindowDays) + Dedup.AsMap(RowKey, newRows)
    ensures Merge(table, newRows, runDate, updateWindowDays) == table
  {
    TableAbsorbs(table, e, newRows, runDate - updateWindowDays);
    MergeFixedPoint(table, newRows, runDate, updateWindowDays);
  }

  /**
   * Merging the same fresh rows into a merge's own output changes nothing:
   * re-running a day gives the same table.
   */
  lemma MergeIdempotent(existing: seq<DailyRow>, newRows: seq<DailyRow>, runDate: int, updateWindowDays: int)
    ensures var once := Merge(existing, newRows, runDate, updateWindowDays);
      Merge(once, newRows, runDate, updateWindowDays) == once
  {
    MergeTable(existing, newRows, runDate, updateWindowDays);
    MergeKeepsAbsorbed(Merge(existing, newRows, runDate, updateWindowDays), Dedup.AsMap(RowKey, existing), newRows,
                       runDate, updateWindowDays);
  }

  /** An empty list of new files gives an empty table, whatever the existing state. */
  lemma NoFilesNoRows(runDate: int, existing: Option<seq<DailyRow>>, updateWindowDays: int)
    ensures BuildUserDaily(runDate, [], existing, updateWindowDays) == []
  {
  }

  /**
   * Running the build again with its own output as the existing table, the
   * same files, run date and window gives the same table.
   */
  lemma BuildUserDailyIdempotent(runDate: int, newFiles: seq<seq<UserEvent>>, existing: Option<seq<DailyRow>>,
                                 updateWindowDays: int)
    ensures var once := BuildUserDaily(runDate, newFiles, existing, updateWindowDays);
      BuildUserDaily(runDate, newFiles, Some(once), updateWindowDays) == once
  {
    if newFiles != [] {
      var clean := CleanEvents(ConcatFiles(newFiles), runDate);
      var newRows := FreshRows(clean);
      match existing
      case None =>
        var once := BuildUserDaily(runDate, newFiles, existing, updateWindowDays);
        FreshRowsFacts(clean, DayKey(0, ""));
        SortOnKeepsTable(newRows);
        OlderPartOfSelf(Dedup.AsMap(RowKey, newRows), runDate - updateWindowDays);
        MergeFixedPoint(once, newRows, runDate, updateWindowDays);
      case Some(rows) =>
        MergeIdempotent(rows, newRows, runDate, updateWindowDays);
    }
  }

  /** Sending every file twice in one run gives the same table as sending it once. */
  lemma ResentFilesChangeNothing(runDate: int, newFiles: seq<seq<UserEvent>>, existing: Option<seq<DailyRow>>,
                                 updateWindowDays: int)
    ensures BuildUserDaily(runDate, newFiles + newFiles, existing, updateWindowDays)
      == BuildUserDaily(runDate, newFiles, existing, updateWindowDays)
  {
    if newFiles != [] {
      var raw := ConcatFiles(newFiles);
      ConcatFilesAppend(newFiles, newFiles);
      OnOrBeforeAppend(raw, raw, runDate);
      Dedup.KeepLatestResent(OnOrBefore(raw, runDate), EventId, EventTs);
    }
  }

  /**
   * Whatever the tie-break among equal latest times, sending every file twice
   * leaves the same event ids after cleaning, each with the same latest time.
   */
  lemma ResentFilesSameLatestTimes(runDate: int, newFiles: seq<seq<UserEvent>>)
    ensures forall x :: x in CleanEvents(ConcatFiles(newFiles + newFiles), runDate) ==>
      exists y :: y in CleanEvents(ConcatFiles(newFiles), runDate) && y.eventId == x.eventId && y.ts == x.ts
    ensures forall y :: y in CleanEvents(ConcatFiles(newFiles), runDate) ==>
      exists x :: x in CleanEvents(ConcatFiles(newFiles + newFiles), runDate) && x.eventId == y.eventId && x.ts == y.ts
  {
    var raw := ConcatFiles(newFiles);
    ConcatFilesAppend(newFiles, newFiles);
    OnOrBeforeAppend(raw, raw, runDate);
    Dedup.KeepLatestResentLatestTimes(OnOrBefore(raw, runDate), EventId, EventTs);
  }
}
