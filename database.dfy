/**
 * The offline bookkeeping of main.py: `DatabaseManager` without its graph
 * database (the session cache `local_cache`, the status overrides
 * `device_statuses` and the sighting history `device_history`), the
 * selection `_save_blocked_devices` makes from the blocker's table, and the
 * padding `apply_history_filter` gives to the dates it filters the history
 * by. File loads and saves are left out: the dictionaries are the state.
 */
module Database {
  import opened Wrappers
  import opened Text
  import opened BlockTable

  const UNKNOWN := "Unknown"
  const KNOWN := "Known"
  /** What `get_all_history_devices` shows for a missing timestamp. */
  const NO_DATE := "N/A"
  /** The times `apply_history_filter` appends to a bare `YYYY-MM-DD`. */
  const DAY_START := " 00:00:00"
  const DAY_END := " 23:59:59"

  /**
   * A device dictionary of `local_cache` (and of a scan result): address,
   * hardware address, and the optional `vendor` and `status` keys.
   */
  datatype Device = Device(ip: string, mac: string, vendor: Option<string>, status: Option<string>)

  /** A `device_history` value; each key may be absent from the loaded file. */
  datatype History = History(vendor: Option<string>, firstSeen: Option<string>,
                             lastSeen: Option<string>, status: Option<string>)

  /** A dictionary returned by the two history queries. */
  datatype HistoryRow = HistoryRow(mac: string, vendor: string, status: string,
                                   firstSeen: string, lastSeen: string)

  /** An `{ip, mac}` record `_save_blocked_devices` writes. */
  datatype SavedBlock = SavedBlock(ip: string, mac: string)

  // ---------------------------------------------------------------------
  // save_scan_results

  /** The last cache entry carrying `mac`, searched from the end. */
  function LastEntry(cache: seq<Device>, mac: string): (r: Option<Device>)
    ensures r.None? <==> forall k :: 0 <= k < |cache| ==> cache[k].mac != mac
    ensures r.Some? ==> exists k :: 0 <= k < |cache| && cache[k] == r.value && cache[k].mac == mac &&
                                    forall j :: k < j < |cache| ==> cache[j].mac != mac
  {
    if cache == [] then None
    else if cache[|cache| - 1].mac == mac then Some(cache[|cache| - 1])
    else LastEntry(cache[..|cache| - 1], mac)
  }

  /** `existing_cache_map`: the cache keyed by MAC, a later entry replacing an earlier one. */
  function CacheMap(cache: seq<Device>): (m: map<string, Device>)
  {
    if cache == [] then map[]
    else CacheMap(cache[..|cache| - 1])[cache[|cache| - 1].mac := cache[|cache| - 1]]
  }

  /** The loop of `save_scan_results` that builds `existing_cache_map`. */
  method BuildCacheMap(cache: seq<Device>) returns (existing: map<string, Device>)
    ensures existing == CacheMap(cache)
  {
    existing := map[];
    var j := 0;
    while j < |cache|
      invariant 0 <= j <= |cache|
      invariant existing == CacheMap(cache[..j])
    {
      assert cache[..j + 1][..j] == cache[..j];
      existing := existing[cache[j].mac := cache[j]];
      j := j + 1;
    }
    assert cache[..|cache|] == cache;
  }

  /** The cache map holds, for each MAC in the cache, its last entry, and nothing else. */
  lemma {:induction false} CacheMapIsLastEntry(cache: seq<Device>, mac: string)
    ensures mac in CacheMap(cache) <==> LastEntry(cache, mac).Some?
    ensures mac in CacheMap(cache) ==> CacheMap(cache)[mac] == LastEntry(cache, mac).value
    decreases |cache|
  {
    if cache != [] {
      CacheMapIsLastEntry(cache[..|cache| - 1], mac);
    }
  }

  /** The status a cached entry hands on: `None` reads as "Unknown", which hands on nothing. */
  function Inherit(cached: map<string, Device>, d: Device): Device
  {
    if d.mac in cached && cached[d.mac].status.GetOr(UNKNOWN) != UNKNOWN
    then d.(status := cached[d.mac].status)
    else d
  }

  /** `merged_devices`: the scan, each device inheriting the cache's status. */
  function Merged(cache: seq<Device>, devices: seq<Device>): (r: seq<Device>)
  {
    seq(|devices|, k requires 0 <= k < |devices| => Inherit(CacheMap(cache), devices[k]))
  }

  /**
   * The new cache is the scanned list, in order: only a status changes, and it
   * changes exactly when the last old cache entry for the MAC has a status
   * other than "Unknown", which the device then takes over.
   */
  lemma MergedStatus(cache: seq<Device>, devices: seq<Device>, k: nat)
    requires k < |devices|
    ensures |Merged(cache, devices)| == |devices|
    ensures Merged(cache, devices)[k] == devices[k].(status := Merged(cache, devices)[k].status)
    ensures match LastEntry(cache, devices[k].mac)
            case Some(c) =>
              if c.status.Some? && c.status.value != UNKNOWN
              then Merged(cache, devices)[k].status == c.status
              else Merged(cache, devices)[k] == devices[k]
            case None => Merged(cache, devices)[k] == devices[k]
  {
    CacheMapIsLastEntry(cache, devices[k].mac);
  }

  /** The history after sighting device `d` at time `t`. */
  function Seen(h: map<string, History>, d: Device, t: string): map<string, History>
  {
    if d.mac in h then
      h[d.mac := h[d.mac].(lastSeen := Some(t),
                           vendor := Some(d.vendor.GetOr(h[d.mac].vendor.GetOr(UNKNOWN))))]
    else
      h[d.mac := History(Some(d.vendor.GetOr(UNKNOWN)), Some(t), Some(t), Some(UNKNOWN))]
  }

  /** The history after sighting every device of a scan, in order. */
  function Recorded(h: map<string, History>, devices: seq<Device>, t: string): map<string, History>
  {
    if devices == [] then h
    else Seen(Recorded(h, devices[..|devices| - 1], t), devices[|devices| - 1], t)
  }

  function MacsOf(devices: seq<Device>): set<string>
  {
    set k | 0 <= k < |devices| :: devices[k].mac
  }

  lemma MacsOfSnoc(devices: seq<Device>)
    requires devices != []
    ensures MacsOf(devices) == MacsOf(devices[..|devices| - 1]) + {devices[|devices| - 1].mac}
  {
    var init := devices[..|devices| - 1];
    forall mac | mac in MacsOf(devices) ensures mac in MacsOf(init) + {devices[|devices| - 1].mac} {
      var k :| 0 <= k < |devices| && devices[k].mac == mac;
      if k < |init| { assert init[k] == devices[k]; }
    }
    forall mac | mac in MacsOf(init) ensures mac in MacsOf(devices) {
      var k :| 0 <= k < |init| && init[k].mac == mac;
      assert devices[k] == init[k];
    }
  }

  /** After a scan the history's keys are the old ones and the scanned MACs. */
  lemma {:induction false} RecordedKeys(h: map<string, History>, devices: seq<Device>, t: string)
    ensures Recorded(h, devices, t).Keys == h.Keys + MacsOf(devices)
    decreases |devices|
  {
    if devices != [] {
      RecordedKeys(h, devices[..|devices| - 1], t);
      MacsOfSnoc(devices);
    }
  }

  /** Every scanned MAC is last seen at the scan time. */
  lemma {:induction false} RecordedLastSeen(h: map<string, History>, devices: seq<Device>, t: string)
    ensures forall k :: 0 <= k < |devices| ==>
              devices[k].mac in Recorded(h, devices, t) &&
              Recorded(h, devices, t)[devices[k].mac].lastSeen == Some(t)
    decreases |devices|
  {
    if devices != [] {
      var init := devices[..|devices| - 1];
      RecordedLastSeen(h, init, t);
      forall k | 0 <= k < |devices|
        ensures devices[k].mac in Recorded(h, devices, t) &&
                Recorded(h, devices, t)[devices[k].mac].lastSeen == Some(t)
      {
        if k < |init| { assert init[k] == devices[k]; }
      }
    }
  }

  /**
   * An old MAC keeps its `first_seen` and status; a new one is first seen at
   * the scan time with status "Unknown".
   */
  lemma {:induction false} RecordedFirstSeen(h: map<string, History>, devices: seq<Device>, t: string)
    ensures forall mac :: mac in h ==>
              mac in Recorded(h, devices, t) &&
              Recorded(h, devices, t)[mac].firstSeen == h[mac].firstSeen &&
              Recorded(h, devices, t)[mac].status == h[mac].status
    ensures forall mac :: mac in Recorded(h, devices, t) && mac !in h ==>
              Recorded(h, devices, t)[mac].firstSeen == Some(t) &&
              Recorded(h, devices, t)[mac].status == Some(UNKNOWN)
    decreases |devices|
  {
    if devices != [] {
      RecordedFirstSeen(h, devices[..|devices| - 1], t);
    }
  }

  /** A MAC the scan does not name keeps its entry unchanged. */
  lemma {:induction false} RecordedUntouched(h: map<string, History>, devices: seq<Device>, t: string, mac: string)
    requires mac in h && mac !in MacsOf(devices)
    ensures mac in Recorded(h, devices, t) && Recorded(h, devices, t)[mac] == h[mac]
    decreases |devices|
  {
    if devices != [] {
      MacsOfSnoc(devices);
      RecordedUntouched(h, devices[..|devices| - 1], t, mac);
    }
  }

  /** The vendor recorded for a MAC is the one its last scan entry names, if any. */
  lemma {:induction false} RecordedVendor(h: map<string, History>, devices: seq<Device>, t: string, k: nat)
    requires k < |devices| && devices[k].vendor.Some?
    requires forall j :: k < j < |devices| ==> devices[j].mac != devices[k].mac
    ensures devices[k].mac in Recorded(h, devices, t)
    ensures Recorded(h, devices, t)[devices[k].mac].vendor == devices[k].vendor
    decreases |devices|
  {
    var init := devices[..|devices| - 1];
    if k < |init| {
      assert init[k] == devices[k];
      assert forall j :: k < j < |init| ==> init[j] == devices[j];
      RecordedVendor(h, init, t, k);
    }
  }

  // ---------------------------------------------------------------------
  // mark_device_as_known / mark_device_as_unknown, delete_device

  /** The cache with `status` written into every entry carrying `mac`. */
  function WithStatus(cache: seq<Device>, mac: string, status: string): (r: seq<Device>)
    ensures |r| == |cache|
  {
    seq(|cache|, k requires 0 <= k < |cache| =>
      if cache[k].mac == mac then cache[k].(status := Some(status)) else cache[k])
  }

  /** Marking changes the status of the entries with that MAC and nothing else. */
  lemma WithStatusChanges(cache: seq<Device>, mac: string, status: string, k: nat)
    requires k < |cache|
    ensures cache[k].mac == mac ==> WithStatus(cache, mac, status)[k].status == Some(status)
    ensures WithStatus(cache, mac, status)[k] == cache[k].(status := WithStatus(cache, mac, status)[k].status)
    ensures cache[k].mac != mac ==> WithStatus(cache, mac, status)[k] == cache[k]
  {
  }

  /**
   * A device marked "Known" keeps that status through the next scan that
   * sees it again, as long as it was in the cache when marked.
   */
  lemma MarkedStatusSurvivesScan(cache: seq<Device>, mac: string, devices: seq<Device>, k: nat)
    requires k < |devices| && devices[k].mac == mac
    requires mac in MacsOf(cache)
    ensures Merged(WithStatus(cache, mac, KNOWN), devices)[k].status == Some(KNOWN)
  {
    var marked := WithStatus(cache, mac, KNOWN);
    var i :| 0 <= i < |cache| && cache[i].mac == mac;
    assert marked[i].mac == mac;
    CacheMapIsLastEntry(marked, mac);
    var c := LastEntry(marked, mac).value;
    var j :| 0 <= j < |marked| && marked[j] == c && marked[j].mac == mac;
    assert c.status == Some(KNOWN);
  }

  /** The list comprehension of offline `delete_device`: the entries not carrying `mac`. */
  function Dropped(cache: seq<Device>, mac: string): (r: seq<Device>)
    ensures |r| <= |cache|
  {
    if cache == [] then []
    else if cache[|cache| - 1].mac == mac then Dropped(cache[..|cache| - 1], mac)
    else Dropped(cache[..|cache| - 1], mac) + [cache[|cache| - 1]]
  }

  /** Deleting keeps exactly the entries with another MAC. */
  lemma {:induction false} DroppedMembers(cache: seq<Device>, mac: string)
    ensures forall d :: d in Dropped(cache, mac) <==> d in cache && d.mac != mac
    decreases |cache|
  {
    if cache != [] {
      DroppedMembers(cache[..|cache| - 1], mac);
      assert cache == cache[..|cache| - 1] + [cache[|cache| - 1]];
    }
  }

  /** How many cache entries carry MAC `mac`. */
  function MacCount(cache: seq<Device>, mac: string): (n: nat)
    ensures n <= |cache|
    ensures n == 0 <==> forall k :: 0 <= k < |cache| ==> cache[k].mac != mac
    decreases |cache|
  {
    if cache == [] then 0
    else MacCount(cache[..|cache| - 1], mac) + (if cache[|cache| - 1].mac == mac then 1 else 0)
  }

  /** Deleting removes one entry per entry with that MAC and no other. */
  lemma {:induction false} DroppedCount(cache: seq<Device>, mac: string)
    ensures |Dropped(cache, mac)| == |cache| - MacCount(cache, mac)
    decreases |cache|
  {
    if cache != [] {
      DroppedCount(cache[..|cache| - 1], mac);
    }
  }

  /** Deleting keeps the order: it splits over a concatenation. */
  lemma {:induction false} DroppedAppend(a: seq<Device>, b: seq<Device>, mac: string)
    ensures Dropped(a + b, mac) == Dropped(a, mac) + Dropped(b, mac)
    decreases |b|
  {
    if b == [] {
      assert a + b == a;
    } else {
      var b0 := b[..|b| - 1];
      assert (a + b)[..|a + b| - 1] == a + b0;
      assert (a + b)[|a + b| - 1] == b[|b| - 1];
      DroppedAppend(a, b0, mac);
    }
  }

  // ---------------------------------------------------------------------
  // get_all_history_devices / get_history_by_date_range

  /** The status shown for `mac`: the saved override when there is one. */
  function ShownStatus(statuses: map<string, string>, mac: string, e: History): string
  {
    if mac in statuses then statuses[mac] else e.status.GetOr(UNKNOWN)
  }

  /** A row of `get_all_history_devices`. */
  function HistoryRowOf(statuses: map<string, string>, mac: string, e: History): HistoryRow
  {
    HistoryRow(mac, e.vendor.GetOr(UNKNOWN), ShownStatus(statuses, mac, e),
               e.firstSeen.GetOr(NO_DATE), e.lastSeen.GetOr(NO_DATE))
  }

  /** A row of `get_history_by_date_range`: missing timestamps show as empty. */
  function RangeRowOf(statuses: map<string, string>, mac: string, e: History): HistoryRow
  {
    HistoryRow(mac, e.vendor.GetOr(UNKNOWN), ShownStatus(statuses, mac, e),
               e.firstSeen.GetOr(""), e.lastSeen.GetOr(""))
  }

  /** `last_seen >= start_date and first_seen <= end_date`, both defaulting to "". */
  predicate InRange(e: History, start: string, end: string)
  {
    StrLe(start, e.lastSeen.GetOr("")) && StrLe(e.firstSeen.GetOr(""), end)
  }

  /** A marked status is what both history queries show from then on. */
  lemma MarkedStatusShown(statuses: map<string, string>, mac: string, status: string, e: History)
    ensures HistoryRowOf(statuses[mac := status], mac, e).status == status
    ensures RangeRowOf(statuses[mac := status], mac, e).status == status
  {
  }

  function RowMacs(rows: seq<HistoryRow>): set<string>
  {
    set k | 0 <= k < |rows| :: rows[k].mac
  }

  predicate DistinctMacs(rows: seq<HistoryRow>)
  {
    forall k, j :: 0 <= k < j < |rows| ==> rows[k].mac != rows[j].mac
  }

  /** Every row is the listing of the history entry its MAC names. */
  predicate AllFromHistory(statuses: map<string, string>, history: map<string, History>, rows: seq<HistoryRow>)
  {
    forall k :: 0 <= k < |rows| ==>
      rows[k].mac in history && rows[k] == HistoryRowOf(statuses, rows[k].mac, history[rows[k].mac])
  }

  /** Every row lists a history entry that overlaps the range `[start, end]`. */
  predicate AllInRange(statuses: map<string, string>, history: map<string, History>,
                       start: string, end: string, rows: seq<HistoryRow>)
  {
    forall k :: 0 <= k < |rows| ==>
      rows[k].mac in history && InRange(history[rows[k].mac], start, end) &&
      rows[k] == RangeRowOf(statuses, rows[k].mac, history[rows[k].mac])
  }

  /** A row for a MAC not listed yet keeps the MACs distinct. */
  lemma AppendRow(rows: seq<HistoryRow>, r: HistoryRow)
    requires DistinctMacs(rows) && r.mac !in RowMacs(rows)
    ensures DistinctMacs(rows + [r])
    ensures RowMacs(rows + [r]) == RowMacs(rows) + {r.mac}
  {
    var after := rows + [r];
    assert forall k :: 0 <= k < |rows| ==> after[k] == rows[k];
    assert forall k :: 0 <= k < |rows| ==> rows[k].mac in RowMacs(rows);
    assert after[|rows|] == r;
  }

  lemma AppendHistoryRow(statuses: map<string, string>, history: map<string, History>,
                         rows: seq<HistoryRow>, mac: string)
    requires AllFromHistory(statuses, history, rows) && mac in history
    ensures AllFromHistory(statuses, history, rows + [HistoryRowOf(statuses, mac, history[mac])])
  {
    var after := rows + [HistoryRowOf(statuses, mac, history[mac])];
    assert forall k :: 0 <= k < |rows| ==> after[k] == rows[k];
  }

  lemma AppendRangeRow(statuses: map<string, string>, history: map<string, History>,
                       start: string, end: string, rows: seq<HistoryRow>, mac: string)
    requires AllInRange(statuses, history, start, end, rows)
    requires mac in history && InRange(history[mac], start, end)
    ensures AllInRange(statuses, history, start, end, rows + [RangeRowOf(statuses, mac, history[mac])])
  {
    var after := rows + [RangeRowOf(statuses, mac, history[mac])];
    assert forall k :: 0 <= k < |rows| ==> after[k] == rows[k];
  }

  // ---------------------------------------------------------------------
  // apply_history_filter

  /** A `from` or `to` date as the filter hands it on: a bare date gets a time appended. */
  function PadDate(date: string, time: string): (r: string)
    ensures |date| == 10 ==> r == date + time
    ensures |date| != 10 ==> r == date
  {
    if |date| == 10 then date + time else date
  }

  /**
   * The bounds `apply_history_filter` queries with: both stripped, `None`
   * (nothing queried) when either is empty, a bare date padded to the first
   * or the last second of its day.
   */
  function PadHistoryDates(fromDate: string, toDate: string): (r: Option<(string, string)>)
    ensures r.None? <==> Strip(fromDate) == "" || Strip(toDate) == ""
    ensures r.Some? ==> r.value == (PadDate(Strip(fromDate), DAY_START), PadDate(Strip(toDate), DAY_END))
  {
    var f := Strip(fromDate);
    var t := Strip(toDate);
    if f == "" || t == "" then None else Some((PadDate(f, DAY_START), PadDate(t, DAY_END)))
  }

  /** `HH:MM:SS` with hours below 24 and minutes and seconds below 60. */
  predicate IsClock(c: string)
  {
    |c| == 8 && c[2] == ':' && c[5] == ':' &&
    IsDigit(c[0]) && IsDigit(c[1]) && IsDigit(c[3]) && IsDigit(c[4]) && IsDigit(c[6]) && IsDigit(c[7]) &&
    (c[0] < '2' || (c[0] == '2' && c[1] <= '3')) && c[3] <= '5' && c[6] <= '5'
  }

  /** The `%Y-%m-%d %H:%M:%S` shape `save_scan_results` stamps with. */
  predicate IsTimestamp(ts: string)
  {
    |ts| == 19 && ts[10] == ' ' && IsClock(ts[11..])
  }

  /** Character by character no greater is no greater in string order. */
  lemma {:induction false} PointwiseLe(a: string, b: string)
    requires |a| == |b|
    requires forall i :: 0 <= i < |a| ==> a[i] <= b[i]
    ensures StrLe(a, b)
    decreases |a|
  {
    if a != [] && a[0] == b[0] {
      PointwiseLe(a[1..], b[1..]);
      if a[1..] == b[1..] {
        assert a == [a[0]] + a[1..] && b == [b[0]] + b[1..];
      }
    }
  }

  /** The time part of a timestamp lies between the two paddings. */
  lemma ClockWithinDay(s: string)
    requires |s| == 9 && s[0] == ' ' && IsClock(s[1..])
    ensures StrLe(DAY_START, s)
    ensures StrLe(s, DAY_END)
  {
    PointwiseLe(DAY_START, s);
    var c := s[1..];
    var e := DAY_END[1..];
    assert s == " " + c && DAY_END == " " + e;
    StrLtCommonPrefix(" ", c, e);
    if c[0] == '2' && c[1] == '3' {
      assert c == "23" + c[2..] && e == "23" + e[2..];
      StrLtCommonPrefix("23", c[2..], e[2..]);
      PointwiseLe(c[2..], e[2..]);
      if c[2..] == e[2..] {
        assert c == e;
      }
    } else if c[0] == '2' {
      assert c[1..] != [] && e[1..] != [];
      assert c[1..][0] == c[1] && e[1..][0] == '3';
    }
  }

  /** `Strip` leaves alone a string that neither starts nor ends with whitespace. */
  lemma StripDate(date: string)
    requires NoSpace(date)
    ensures Strip(date) == date
  {
    StripNoSpace(date);
  }

  /**
   * Filtering by two bare days selects a device by its days alone: a
   * timestamp on day `D` is at or after the padded `from` day `F` exactly
   * when `D >= F`, and at or before the padded `to` day `T` exactly when
   * `D <= T`. So the range query over the padded bounds returns exactly the
   * devices last seen on or after `F` and first seen on or before `T`.
   */
  lemma {:induction false} PaddedRangeIsDayRange(fromDay: string, toDay: string, e: History)
    requires |fromDay| == 10 && |toDay| == 10 && NoSpace(fromDay) && NoSpace(toDay)
    requires e.firstSeen.Some? && IsTimestamp(e.firstSeen.value)
    requires e.lastSeen.Some? && IsTimestamp(e.lastSeen.value)
    ensures PadHistoryDates(fromDay, toDay) == Some((fromDay + DAY_START, toDay + DAY_END))
    ensures InRange(e, fromDay + DAY_START, toDay + DAY_END) <==>
            StrLe(fromDay, e.lastSeen.value[..10]) && StrLe(e.firstSeen.value[..10], toDay)
  {
    StripDate(fromDay);
    StripDate(toDay);
    var f := e.firstSeen.value;
    var l := e.lastSeen.value;
    assert l == l[..10] + l[10..] && f == f[..10] + f[10..];
    assert l[10..][1..] == l[11..] && f[10..][1..] == f[11..];
    ClockWithinDay(l[10..]);
    ClockWithinDay(f[10..]);
    DayDecides(fromDay, DAY_START, l[..10], l[10..]);
    DayDecides(f[..10], f[10..], toDay, DAY_END);
  }

  /**
   * Two strings made of an equal-length head and a tail, whose tails are in
   * order, are in order exactly when their heads are.
   */
  lemma DayDecides(x: string, r1: string, y: string, r2: string)
    requires |x| == |y| && StrLe(r1, r2)
    ensures StrLe(x + r1, y + r2) <==> StrLe(x, y)
  {
    if StrLe(x, y) {
      StrLeAppend(x, y, r1, r2);
    } else {
      StrLtTotal(x, y);
      StrLtAppend(y, x, r2, r1);
      StrLtTotal(x + r1, y + r2);
      if x + r1 == y + r2 {
        StrLtIrreflexive(x + r1);
      }
    }
  }

  // ---------------------------------------------------------------------
  // _save_blocked_devices

  function SavedIps(blocks: seq<SavedBlock>): set<string>
  {
    set k | 0 <= k < |blocks| :: blocks[k].ip
  }

  /** Every record names an active table entry and carries that entry's MAC. */
  predicate Faithful(t: Table, blocks: seq<SavedBlock>)
  {
    forall k :: 0 <= k < |blocks| ==>
      IsActive(t, blocks[k].ip) && blocks[k].mac == t[blocks[k].ip].mac
  }

  predicate DistinctIps(blocks: seq<SavedBlock>)
  {
    forall k, j :: 0 <= k < j < |blocks| ==> blocks[k].ip != blocks[j].ip
  }

  /** Appending the record of a not yet saved active entry keeps both properties. */
  lemma AppendBlock(t: Table, blocks: seq<SavedBlock>, ip: string)
    requires Faithful(t, blocks) && DistinctIps(blocks)
    requires IsActive(t, ip) && ip !in SavedIps(blocks)
    ensures Faithful(t, blocks + [SavedBlock(ip, t[ip].mac)])
    ensures DistinctIps(blocks + [SavedBlock(ip, t[ip].mac)])
    ensures SavedIps(blocks + [SavedBlock(ip, t[ip].mac)]) == SavedIps(blocks) + {ip}
  {
    var after := blocks + [SavedBlock(ip, t[ip].mac)];
    assert forall k :: 0 <= k < |blocks| ==> after[k] == blocks[k];
    assert forall k :: 0 <= k < |blocks| ==> blocks[k].ip in SavedIps(blocks);
    assert after[|blocks|].ip == ip;
  }

  /**
   * The records `_save_blocked_devices` collects: one `{ip, mac}` per active
   * table entry and none for another. The table's iteration order is not
   * modelled: any order is allowed.
   */
  method ActiveBlocks(t: Table) returns (blocks: seq<SavedBlock>)
    ensures Faithful(t, blocks)
    ensures DistinctIps(blocks)
    ensures forall ip :: IsActive(t, ip) ==> ip in SavedIps(blocks)
  {
    var left := t.Keys;
    blocks := [];
    while left != {}
      invariant left <= t.Keys
      invariant Faithful(t, blocks) && DistinctIps(blocks)
      invariant SavedIps(blocks) !! left
      invariant forall ip :: IsActive(t, ip) && ip !in left ==> ip in SavedIps(blocks)
      decreases |left|
    {
      var ip :| ip in left;
      if t[ip].active {
        AppendBlock(t, blocks, ip);
        blocks := blocks + [SavedBlock(ip, t[ip].mac)];
      }
      left := left - {ip};
    }
  }

  /** `_save_blocked_devices`: nothing is written when there is no blocker. */
  method SaveBlockedDevices(blocker: Option<Table>) returns (saved: Option<seq<SavedBlock>>)
    ensures saved.None? <==> blocker.None?
    ensures saved.Some? ==>
              Faithful(blocker.value, saved.value) && DistinctIps(saved.value) &&
              (forall ip :: IsActive(blocker.value, ip) ==> ip in SavedIps(saved.value))
  {
    if blocker.None? {
      return None;
    }
    var blocks := ActiveBlocks(blocker.value);
    return Some(blocks);
  }

  // ---------------------------------------------------------------------
  // DatabaseManager

  /** `DatabaseManager` with no graph database connected. */
  class DatabaseManager {
    var localCache: seq<Device>
    var deviceStatuses: map<string, string>
    var deviceHistory: map<string, History>

    /** Starts with an empty cache and the statuses and history loaded from file. */
    constructor(statuses: map<string, string>, history: map<string, History>)
      ensures localCache == [] && deviceStatuses == statuses && deviceHistory == history
    {
      localCache := [];
      deviceStatuses := statuses;
      deviceHistory := history;
    }

    /**
     * `save_scan_results` at time `currentTime`: records every sighting in the
     * history and replaces the cache by the scan, with cached statuses
     * handed on.
     */
    method SaveScanResults(devices: seq<Device>, currentTime: string)
      modifies this`deviceHistory, this`localCache
      ensures deviceHistory == Recorded(old(deviceHistory), devices, currentTime)
      ensures localCache == Merged(old(localCache), devices)
    {
      var existing := BuildCacheMap(localCache);
      ghost var h0 := deviceHistory;
      var merged: seq<Device> := [];
      var i := 0;
      while i < |devices|
        invariant 0 <= i <= |devices|
        invariant deviceHistory == Recorded(h0, devices[..i], currentTime)
        invariant |merged| == i
        invariant forall k :: 0 <= k < i ==> merged[k] == Inherit(existing, devices[k])
      {
        assert devices[..i + 1][..i] == devices[..i];
        var d := devices[i];
        var mac := d.mac;
        if mac in deviceHistory {
          var e := deviceHistory[mac];
          deviceHistory := deviceHistory[mac := e.(lastSeen := Some(currentTime),
                                                   vendor := Some(d.vendor.GetOr(e.vendor.GetOr(UNKNOWN))))];
        } else {
          deviceHistory := deviceHistory[mac := History(Some(d.vendor.GetOr(UNKNOWN)),
                                                        Some(currentTime), Some(currentTime), Some(UNKNOWN))];
        }
        if mac in existing {
          var cachedStatus := existing[mac].status.GetOr(UNKNOWN);
          if cachedStatus != UNKNOWN {
            d := d.(status := Some(cachedStatus));
          }
        }
        merged := merged + [d];
        i := i + 1;
      }
      assert devices[..|devices|] == devices;
      localCache := merged;
    }

    /** Writes `status` into the override map and into every cached entry for `mac`. */
    method MarkDevice(mac: string, status: string)
      modifies this`localCache, this`deviceStatuses
      ensures localCache == WithStatus(old(localCache), mac, status)
      ensures deviceStatuses == old(deviceStatuses)[mac := status]
    {
      ghost var cache0 := localCache;
      var k := 0;
      while k < |localCache|
        invariant 0 <= k <= |localCache| == |cache0|
        invariant deviceStatuses == old(deviceStatuses)
        invariant forall i :: 0 <= i < |cache0| ==>
                    localCache[i] == if i < k && cache0[i].mac == mac then cache0[i].(status := Some(status)) else cache0[i]
      {
        if localCache[k].mac == mac {
          localCache := localCache[k := localCache[k].(status := Some(status))];
        }
        k := k + 1;
      }
      deviceStatuses := deviceStatuses[mac := status];
    }

    /** `mark_device_as_known`; it reports success whatever happens. */
    method MarkDeviceAsKnown(mac: string) returns (ok: bool)
      modifies this`localCache, this`deviceStatuses
      ensures localCache == WithStatus(old(localCache), mac, KNOWN)
      ensures deviceStatuses == old(deviceStatuses)[mac := KNOWN]
      ensures ok
    {
      MarkDevice(mac, KNOWN);
      return true;
    }

    /** `mark_device_as_unknown`; it reports success whatever happens. */
    method MarkDeviceAsUnknown(mac: string) returns (ok: bool)
      modifies this`localCache, this`deviceStatuses
      ensures localCache == WithStatus(old(localCache), mac, UNKNOWN)
      ensures deviceStatuses == old(deviceStatuses)[mac := UNKNOWN]
      ensures ok
    {
      MarkDevice(mac, UNKNOWN);
      return true;
    }

    /** Offline `delete_device`: drops the cached entries for `mac`; history and statuses stay. */
    method DeleteDevice(mac: string) returns (ok: bool)
      modifies this`localCache
      ensures localCache == Dropped(old(localCache), mac)
      ensures ok
    {
      localCache := Dropped(localCache, mac);
      return true;
    }

    /**
     * `get_all_history_devices`: one row per history entry, with the status
     * override applied. The dictionary's order is not modelled.
     */
    method GetAllHistoryDevices() returns (rows: seq<HistoryRow>)
      ensures |rows| == |deviceHistory|
      ensures AllFromHistory(deviceStatuses, deviceHistory, rows)
      ensures DistinctMacs(rows)
      ensures deviceHistory.Keys == RowMacs(rows)
    {
      var left := deviceHistory.Keys;
      rows := [];
      while left != {}
        invariant left <= deviceHistory.Keys
        invariant |rows| + |left| == |deviceHistory.Keys|
        invariant AllFromHistory(deviceStatuses, deviceHistory, rows) && DistinctMacs(rows)
        invariant RowMacs(rows) == deviceHistory.Keys - left
        decreases |left|
      {
        var mac :| mac in left;
        var r := HistoryRowOf(deviceStatuses, mac, deviceHistory[mac]);
        AppendRow(rows, r);
        AppendHistoryRow(deviceStatuses, deviceHistory, rows, mac);
        rows := rows + [r];
        left := left - {mac};
      }
    }

    /**
     * `get_history_by_date_range`: a row for exactly the entries last seen at
     * or after `start` and first seen at or before `end`.
     */
    method GetHistoryByDateRange(start: string, end: string) returns (rows: seq<HistoryRow>)
      ensures AllInRange(deviceStatuses, deviceHistory, start, end, rows)
      ensures DistinctMacs(rows)
      ensures forall mac :: mac in deviceHistory && InRange(deviceHistory[mac], start, end) ==>
                mac in RowMacs(rows)
    {
      var left := deviceHistory.Keys;
      rows := [];
      while left != {}
        invariant left <= deviceHistory.Keys
        invariant AllInRange(deviceStatuses, deviceHistory, start, end, rows) && DistinctMacs(rows)
        invariant RowMacs(rows) !! left
        invariant forall mac :: mac in deviceHistory && mac !in left && InRange(deviceHistory[mac], start, end) ==>
                    mac in RowMacs(rows)
        decreases |left|
      {
        var mac :| mac in left;
        if InRange(deviceHistory[mac], start, end) {
          var r := RangeRowOf(deviceStatuses, mac, deviceHistory[mac]);
          AppendRow(rows, r);
          AppendRangeRow(deviceStatuses, deviceHistory, start, end, rows, mac);
          rows := rows + [r];
        }
        left := left - {mac};
      }
    }
  }
}
