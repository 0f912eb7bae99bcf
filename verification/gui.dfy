/** The pure helpers of the desktop GUI (gui.py): deciding whether a device snapshot from
    the heartbeat manager is worth redrawing, keeping one cached widget per device key,
    deriving the OSC port from a device address, and keeping the last 100 IR ADC samples. */
module Gui {
  import opened Wrappers
  import opened Text
  import opened Numerals
  import opened Heartbeat

  // ----- dictionaries built from lists -----

  /** Entry `i` is the last one in `keys` with its key. */
  predicate IsLast(keys: seq<string>, i: int) {
    0 <= i < |keys| && forall j :: i < j < |keys| ==> keys[j] != keys[i]
  }

  /** Position of the last occurrence of `k` in `keys`; -1 when there is none. */
  function LastIndex(keys: seq<string>, k: string): (i: int)
    ensures k in keys <==> i >= 0
    ensures i >= 0 ==> IsLast(keys, i) && keys[i] == k
    decreases |keys|
  {
    if |keys| == 0 then -1
    else
      var n := |keys| - 1;
      if keys[n] == k then n
      else
        assert keys == keys[..n] + [keys[n]];
        LastIndex(keys[..n], k)
  }

  /** The dictionary {keys[i]: vals[i] for i in range(len(keys))}: a later entry with the
      same key replaces an earlier one. */
  function LastMap<T>(keys: seq<string>, vals: seq<T>): (m: map<string, T>)
    requires |keys| == |vals|
    ensures forall k :: k in m <==> k in keys
    ensures forall i :: IsLast(keys, i) ==> m[keys[i]] == vals[i]
    decreases |keys|
  {
    if |keys| == 0 then map[]
    else
      var n := |keys| - 1;
      var m := LastMap(keys[..n], vals[..n])[keys[n] := vals[n]];
      assert keys == keys[..n] + [keys[n]];
      forall i | IsLast(keys, i)
        ensures m[keys[i]] == vals[i]
      {
        if i < n {
          assert IsLast(keys[..n], i);
        }
      }
      m
  }

  /** In a list without repeats every entry is the last with its key. */
  lemma DistinctAllLast(keys: seq<string>, i: int)
    requires NoDuplicates(keys) && 0 <= i < |keys|
    ensures IsLast(keys, i) && LastIndex(keys, keys[i]) == i
  {
  }

  // ----- snapshot change detection -----

  /** The key the GUI files a snapshot entry under: f"{name}_{ip}", the registry's key. */
  function SnapshotKey(d: StatusInfo): string {
    Key(d.name, d.ip)
  }

  /** The keys of a snapshot's entries, in order. */
  function KeysOf(snap: seq<StatusInfo>): (ks: seq<string>)
    ensures |ks| == |snap| && forall i :: 0 <= i < |snap| ==> ks[i] == SnapshotKey(snap[i])
  {
    seq(|snap|, i requires 0 <= i < |snap| => SnapshotKey(snap[i]))
  }

  /** The dictionary {f"{d['name']}_{d['ip']}": d for d in snap}. */
  function SnapshotMap(snap: seq<StatusInfo>): (m: map<string, StatusInfo>)
    ensures forall k :: k in m <==> k in KeysOf(snap)
  {
    LastMap(KeysOf(snap), snap)
  }

  /** The entry such a dictionary keeps for key `k`: the last one filed under it. */
  function LastEntry(snap: seq<StatusInfo>, k: string): StatusInfo
    requires k in KeysOf(snap)
  {
    snap[LastIndex(KeysOf(snap), k)]
  }

  /** The fields _devices_status_unchanged compares; uptime and the derived texts are not
      among them. */
  predicate SameStatus(a: StatusInfo, b: StatusInfo) {
    && a.isOnline == b.isOnline
    && a.heartbeatCount == b.heartbeatCount
    && a.lastHeartbeat == b.lastHeartbeat
    && a.pingMs == b.pingMs
    && a.pingStatus == b.pingStatus
  }

  /** _devices_status_unchanged: the same number of entries, the same keys, and for every
      key the last entries filed under it agree on the compared fields. */
  function DevicesStatusUnchanged(prev: seq<StatusInfo>, next: seq<StatusInfo>): (r: bool)
    ensures r <==>
              && |prev| == |next|
              && (forall k :: k in KeysOf(prev) <==> k in KeysOf(next))
              && forall k :: k in KeysOf(prev) ==> SameStatus(LastEntry(prev, k), LastEntry(next, k))
    ensures prev == next ==> r
  {
    if |next| != |prev| then false
    else
      var before := SnapshotMap(prev);
      var after := SnapshotMap(next);
      if before.Keys != after.Keys then
        assert !forall k :: k in KeysOf(prev) <==> k in KeysOf(next);
        false
      else
        assert forall k :: k in before ==> before[k] == LastEntry(prev, k);
        assert forall k :: k in after ==> after[k] == LastEntry(next, k);
        forall k :: k in before ==> SameStatus(before[k], after[k])
  }

  /** A registry's snapshot lists its keys in insertion order. */
  lemma KeysOfRegistry(reg: Registry, now: int)
    requires Valid(reg)
    ensures KeysOf(AllDevicesStatus(reg, now)) == reg.order
  {
    var snap := AllDevicesStatus(reg, now);
    assert forall i :: 0 <= i < |snap| ==> SnapshotKey(snap[i]) == reg.order[i];
  }

  /** A registry's snapshot, read as a dictionary, holds each record's status under its key. */
  lemma {:induction false} SnapshotOfRegistry(reg: Registry, now: int)
    requires Valid(reg)
    ensures forall k :: k in SnapshotMap(AllDevicesStatus(reg, now)) <==> k in reg.devices
    ensures forall k :: k in reg.devices ==> SnapshotMap(AllDevicesStatus(reg, now))[k] == GetStatusInfo(reg.devices[k], now)
  {
    KeysOfRegistry(reg, now);
    forall k | k in reg.devices
      ensures SnapshotMap(AllDevicesStatus(reg, now))[k] == GetStatusInfo(reg.devices[k], now)
    {
      SnapshotEntry(reg, now, k);
    }
  }

  /** The snapshot files a registry record under its key: as the last entry with that key,
      and so in the snapshot dictionary. */
  lemma SnapshotEntry(reg: Registry, now: int, k: string)
    requires Valid(reg) && k in reg.devices
    ensures k in KeysOf(AllDevicesStatus(reg, now))
    ensures LastEntry(AllDevicesStatus(reg, now), k) == GetStatusInfo(reg.devices[k], now)
    ensures SnapshotMap(AllDevicesStatus(reg, now))[k] == GetStatusInfo(reg.devices[k], now)
  {
    KeysOfRegistry(reg, now);
    var i := LastIndex(reg.order, k);
    DistinctAllLast(reg.order, i);
  }

  /** Two snapshots of the same registry differ only in uptime, so the periodic refresh
      alone is never judged a change. */
  lemma {:induction false} RefreshIsUnchanged(reg: Registry, now1: int, now2: int)
    requires Valid(reg)
    ensures DevicesStatusUnchanged(AllDevicesStatus(reg, now1), AllDevicesStatus(reg, now2))
  {
    KeysOfRegistry(reg, now1);
    KeysOfRegistry(reg, now2);
    var prev := AllDevicesStatus(reg, now1);
    var next := AllDevicesStatus(reg, now2);
    forall k | k in KeysOf(prev)
      ensures SameStatus(LastEntry(prev, k), LastEntry(next, k))
    {
      SnapshotEntry(reg, now1, k);
      SnapshotEntry(reg, now2, k);
    }
  }

  /** A heartbeat always changes the snapshot: a new device adds an entry, a known one
      counts one more heartbeat. */
  lemma {:induction false} HeartbeatIsNoticed(reg: Registry, name: string, ip: string, t: int, now1: int, now2: int)
    requires Valid(reg)
    ensures !DevicesStatusUnchanged(AllDevicesStatus(reg, now1),
                                    AllDevicesStatus(UpdateDevice(reg, name, ip, t).0, now2))
  {
    var reg' := UpdateDevice(reg, name, ip, t).0;
    var k := Key(name, ip);
    if k !in reg.devices {
      assert reg'.devices.Keys == reg.devices.Keys + {k};
      assert |reg'.devices.Keys| == |reg.devices.Keys| + 1;
    } else {
      SnapshotEntry(reg, now1, k);
      SnapshotEntry(reg', now2, k);
      assert !SameStatus(LastEntry(AllDevicesStatus(reg, now1), k), LastEntry(AllDevicesStatus(reg', now2), k));
    }
  }

  // ----- header and widget cache -----

  /** Number of snapshot entries marked online. */
  function OnlineEntries(snap: seq<StatusInfo>): (n: nat)
    ensures n <= |snap|
    ensures n == 0 <==> forall i :: 0 <= i < |snap| ==> !snap[i].isOnline
    ensures n == |snap| <==> forall i :: 0 <= i < |snap| ==> snap[i].isOnline
    decreases |snap|
  {
    if |snap| == 0 then 0
    else
      var rest := OnlineEntries(snap[1..]);
      assert forall i :: 1 <= i < |snap| ==> snap[1..][i - 1] == snap[i];
      (if snap[0].isOnline then 1 else 0) + rest
  }

  /** The header's figures: entries online, and all entries. */
  datatype Header = Header(online: nat, total: nat)

  function HeaderCounts(snap: seq<StatusInfo>): (h: Header)
    ensures h.total == |snap| && h.online <= h.total
  {
    Header(OnlineEntries(snap), |snap|)
  }

  /** The header label's text. */
  function HeaderText(h: Header): string {
    "\U{1F4E1} ESP32 DEVICES STATUS (" + NatToString(h.online) + " Online / " + NatToString(h.total) + " Total)"
  }

  /** The statuses of the records under `keys`, in that order. */
  function StatusList(devs: map<string, Device>, keys: seq<string>, now: int): (r: seq<StatusInfo>)
    requires KeysIn(keys, devs)
    ensures |r| == |keys| && forall i :: 0 <= i < |keys| ==> r[i] == GetStatusInfo(devs[keys[i]], now)
  {
    seq(|keys|, i requires 0 <= i < |keys| => GetStatusInfo(devs[keys[i]], now))
  }

  /** Counting online entries of the records' statuses counts the online records. */
  lemma {:induction false} OnlineEntriesOfRecords(devs: map<string, Device>, keys: seq<string>, now: int)
    requires KeysIn(keys, devs)
    ensures OnlineEntries(StatusList(devs, keys, now)) == CountOnline(devs, keys)
    decreases |keys|
  {
    var snap := StatusList(devs, keys, now);
    if |keys| > 0 {
      var tail := keys[1..];
      assert KeysIn(tail, devs) by {
        assert forall i :: 0 <= i < |tail| ==> tail[i] == keys[i + 1];
      }
      OnlineEntriesOfRecords(devs, tail, now);
      assert snap[1..] == StatusList(devs, tail, now);
    }
  }

  /** The header over a registry's snapshot shows get_device_count's online and total. */
  lemma {:induction false} HeaderMatchesDeviceCount(reg: Registry, now: int)
    requires Valid(reg)
    ensures HeaderCounts(AllDevicesStatus(reg, now)).online == DeviceCount(reg).online
    ensures HeaderCounts(AllDevicesStatus(reg, now)).total == DeviceCount(reg).total
  {
    assert KeysIn(reg.order, reg.devices);
    SnapshotAsSeq(reg, now);
    OnlineEntriesOfRecords(reg.devices, reg.order, now);
    OnlineInOrder(reg);
  }

  lemma SnapshotAsSeq(reg: Registry, now: int)
    requires Valid(reg)
    ensures KeysIn(reg.order, reg.devices)
    ensures AllDevicesStatus(reg, now) == StatusList(reg.devices, reg.order, now)
  {
  }

  lemma OnlineInOrder(reg: Registry)
    requires Valid(reg)
    ensures CountOnline(reg.devices, reg.order) == DeviceCount(reg).online
  {
    assert (set k | k in reg.order && reg.devices[k].isOnline) == OnlineKeys(reg.devices);
  }

  /** A cached device row: its grid row, the status it shows, and whether it carries an
      Access button. */
  datatype Widget = Widget(row: nat, shows: StatusInfo, accessButton: bool)

  /** What _create_new_device_widget builds and _update_existing_device_widget brings an
      existing row to: the entry's status at `row`, with an Access button exactly when the
      device is online. */
  function Render(d: StatusInfo, row: nat): (w: Widget)
    ensures w.row == row && w.shows == d
    ensures w.accessButton <==> d.isOnline
  {
    Widget(row, d, d.isOnline)
  }

  /** Each entry rendered at its position. */
  function Renders(snap: seq<StatusInfo>): (ws: seq<Widget>)
    ensures |ws| == |snap| && forall i :: 0 <= i < |snap| ==> ws[i] == Render(snap[i], i)
  {
    seq(|snap|, i requires 0 <= i < |snap| => Render(snap[i], i))
  }

  /** _update_device_widgets: drop the cached rows whose key left the snapshot, then walk
      the entries in order, updating the row of a cached key and creating one otherwise, so
      that a later entry with the same key overwrites an earlier one. */
  function Reconcile(cache: map<string, Widget>, snap: seq<StatusInfo>): (r: map<string, Widget>)
    ensures forall k :: k in r <==> k in KeysOf(snap)
    ensures forall k :: k in KeysOf(snap) ==>
              r[k] == Render(LastEntry(snap, k), LastIndex(KeysOf(snap), k))
  {
    var keys := KeysOf(snap);
    var kept := map k | k in cache && k in keys :: cache[k];
    kept + LastMap(keys, Renders(snap))
  }

  /** The rows after reconciling depend on the snapshot alone, so reconciling twice
      changes nothing. */
  lemma {:induction false} ReconcileForgetsCache(c1: map<string, Widget>, c2: map<string, Widget>, snap: seq<StatusInfo>)
    ensures Reconcile(c1, snap) == Reconcile(c2, snap)
    ensures Reconcile(Reconcile(c1, snap), snap) == Reconcile(c1, snap)
  {
    SameRows(c1, c2, snap);
    SameRows(c1, Reconcile(c1, snap), snap);
  }

  lemma SameRows(c1: map<string, Widget>, c2: map<string, Widget>, snap: seq<StatusInfo>)
    ensures Reconcile(c1, snap) == Reconcile(c2, snap)
  {
    SameMap(Reconcile(c1, snap), Reconcile(c2, snap));
  }

  /** Two maps with the same keys and the same value under each key are equal. */
  lemma SameMap(m1: map<string, Widget>, m2: map<string, Widget>)
    requires forall k :: k in m1 <==> k in m2
    requires forall k :: k in m1 ==> m1[k] == m2[k]
    ensures m1 == m2
  {
    assert m1.Keys == m2.Keys;
  }

  /** Over a registry's snapshot every record gets the row of its position in insertion
      order, with an Access button exactly when it is online. */
  lemma {:induction false} RowsFollowInsertionOrder(cache: map<string, Widget>, reg: Registry, now: int)
    requires Valid(reg)
    ensures forall k :: k in Reconcile(cache, AllDevicesStatus(reg, now)) <==> k in reg.devices
    ensures forall i :: 0 <= i < |reg.order| ==>
              var w := Reconcile(cache, AllDevicesStatus(reg, now))[reg.order[i]];
              && w.row == i
              && (w.accessButton <==> reg.devices[reg.order[i]].isOnline)
  {
    var snap := AllDevicesStatus(reg, now);
    KeysOfRegistry(reg, now);
    var r := Reconcile(cache, snap);
    forall i | 0 <= i < |reg.order|
      ensures r[reg.order[i]].row == i && (r[reg.order[i]].accessButton <==> reg.devices[reg.order[i]].isOnline)
    {
      RowOf(cache, reg, now, i);
    }
  }

  lemma RowOf(cache: map<string, Widget>, reg: Registry, now: int, i: int)
    requires Valid(reg) && 0 <= i < |reg.order|
    ensures reg.order[i] in Reconcile(cache, AllDevicesStatus(reg, now))
    ensures Reconcile(cache, AllDevicesStatus(reg, now))[reg.order[i]]
            == Render(GetStatusInfo(reg.devices[reg.order[i]], now), i)
  {
    KeysOfRegistry(reg, now);
    DistinctAllLast(reg.order, i);
  }

  /** The ESP32 devices panel of the home view. */
  datatype Panel = Panel(
    onHome: bool,
    shown: seq<StatusInfo>,
    header: string,
    widgets: map<string, Widget>,
    waiting: bool)

  /** update_esp_devices_status's update(): nothing off the home view or when the snapshot
      is judged unchanged; otherwise adopt the snapshot, rewrite the header, and either
      clear the rows and show the waiting message or reconcile the rows. Reports whether
      the panel was redrawn. */
  function UpdateEspDevicesStatus(p: Panel, snap: seq<StatusInfo>): (r: (Panel, bool))
    ensures r.1 <==> p.onHome && !DevicesStatusUnchanged(p.shown, snap)
    ensures !r.1 ==> r.0 == p
    ensures r.1 ==>
              && r.0.onHome
              && r.0.shown == snap
              && r.0.header == HeaderText(HeaderCounts(snap))
              && (forall k :: k in r.0.widgets <==> k in KeysOf(snap))
              && (r.0.waiting <==> |snap| == 0)
  {
    if !p.onHome || DevicesStatusUnchanged(p.shown, snap) then (p, false)
    else
      var p' := p.(shown := snap, header := HeaderText(HeaderCounts(snap)));
      if |snap| == 0 then
        (p'.(widgets := map[], waiting := true), true)
      else
        (p'.(widgets := Reconcile(p.widgets, snap), waiting := false), true)
  }

  /** Delivering the same snapshot again never redraws. */
  lemma {:induction false} RepeatedSnapshotIsQuiet(p: Panel, snap: seq<StatusInfo>)
    ensures var p' := UpdateEspDevicesStatus(p, snap).0;
            UpdateEspDevicesStatus(p', snap) == (p', false)
  {
  }

  /** A panel showing a registry's snapshot is not redrawn by a later snapshot of the same
      registry, but is redrawn after any heartbeat. */
  lemma {:induction false} RedrawOnlyOnHeartbeat(p: Panel, reg: Registry, name: string, ip: string, t: int, now1: int, now2: int)
    requires Valid(reg) && p.shown == AllDevicesStatus(reg, now1)
    ensures !UpdateEspDevicesStatus(p, AllDevicesStatus(reg, now2)).1
    ensures UpdateEspDevicesStatus(p, AllDevicesStatus(UpdateDevice(reg, name, ip, t).0, now2)).1 <==> p.onHome
  {
    RefreshIsUnchanged(reg, now1, now2);
    HeartbeatIsNoticed(reg, name, ip, t, now1, now2);
  }

  // ----- device access -----

  /** The connection settings access_device rewrites. */
  datatype Config = Config(espIp: string, espPort: int, oscPort: int)

  /** access_device's outcome: the address is rejected (the error dialog), or the settings
      point at the device and the UDP server restarts when the port changed and the
      application is there to restart it. */
  datatype Access = Rejected | Connected(config: Config, restart: bool)

  /** access_device: split the address on '.', demand exactly four parts, read the last
      with int(), and take the port int(str(octet) + "00"). */
  function AccessDevice(cfg: Config, ip: string, appAvailable: bool): (r: Access)
    ensures var parts := Split(ip, '.');
            r.Rejected? <==> |parts| != 4 || PyInt(parts[3]).None?
    ensures r.Connected? ==>
              var octet := PyInt(Split(ip, '.')[3]).value;
              && r.config == Config(ip, 100 * octet, 100 * octet)
              && (r.restart <==> cfg.oscPort != 100 * octet && appAvailable)
  {
    var parts := Split(ip, '.');
    if |parts| != 4 then Rejected
    else
      match PyInt(parts[3])
      case None => Rejected
      case Some(octet) =>
        PyIntOfHundredfold(octet);
        var port := PyInt(IntToString(octet) + "00").value;
        Connected(Config(ip, port, port), cfg.oscPort != port && appAvailable)
  }

  /** An address '.'.join of four printed numbers connects on 100 times the last one,
      which for an octet is a multiple of 100 no larger than 25500. */
  lemma {:induction false} AccessPrintedAddress(cfg: Config, a: int, b: int, c: int, d: int, appAvailable: bool)
    ensures var ip := Join([IntToString(a), IntToString(b), IntToString(c), IntToString(d)], '.');
            var r := AccessDevice(cfg, ip, appAvailable);
            && r.Connected?
            && r.config.oscPort == r.config.espPort == 100 * d
            && (0 <= d <= 255 ==> 0 <= r.config.oscPort <= 25500)
  {
    var parts := [IntToString(a), IntToString(b), IntToString(c), IntToString(d)];
    NoDot(a);
    NoDot(b);
    NoDot(c);
    NoDot(d);
    SplitJoin(parts, '.');
    PyIntOfIntToString(d);
  }

  lemma NoDot(n: int)
    ensures '.' !in IntToString(n)
  {
    IntToStringShape(n);
  }

  // ----- IR ADC samples -----

  const AdcMax: int := 4095
  const AdcHistory: nat := 100
  const AdcTag: string := "IR_ADC:"

  /** The sample store: the latest value, and the deques of values and their indices
      (both deque(maxlen=100)). */
  datatype Adc = Adc(current: int, data: seq<int>, times: seq<int>)

  const InitialAdc: Adc := Adc(0, [], [])

  /** Both deques hold at most 100 items, and equally many. */
  predicate AdcInv(a: Adc) {
    |a.data| <= AdcHistory && |a.times| == |a.data|
  }

  /** max(0, min(4095, v)). */
  function Clamp(v: int): (c: int)
    ensures 0 <= c <= AdcMax
    ensures 0 <= v <= AdcMax ==> c == v
    ensures v < 0 ==> c == 0
    ensures v > AdcMax ==> c == AdcMax
  {
    if v < 0 then 0 else if v > AdcMax then AdcMax else v
  }

  /** What a deque(maxlen=100) holds after appending: the newest 100 items. */
  function Window(s: seq<int>): seq<int> {
    if |s| <= AdcHistory then s else s[|s| - AdcHistory..]
  }

  /** process_adc_data: clamp, remember as the current value, append to the history and
      append the history's new length to the index deque. */
  function ProcessAdcData(a: Adc, v: int): (r: Adc)
    ensures 0 <= r.current <= AdcMax && r.current == Clamp(v)
    ensures |r.data| == if |a.data| < AdcHistory then |a.data| + 1 else AdcHistory
    ensures r.data[|r.data| - 1] == r.current
    ensures r.data[..|r.data| - 1] == (a.data + [r.current])[|a.data| + 1 - |r.data|..|a.data|]
    ensures |r.times| > 0 && r.times[|r.times| - 1] == |r.data|
    ensures AdcInv(a) ==> AdcInv(r)
  {
    var c := Clamp(v);
    var data := Window(a.data + [c]);
    Adc(c, data, Window(a.times + [|data|]))
  }

  /** Feeds samples in arrival order. */
  function ProcessAll(a: Adc, vs: seq<int>): Adc
    decreases |vs|
  {
    if |vs| == 0 then a else ProcessAll(ProcessAdcData(a, vs[0]), vs[1..])
  }

  /** A batch of samples, each clamped: every value lands in [0, AdcMax] and one already
      in range passes unchanged. */
  function ClampAll(vs: seq<int>): (cs: seq<int>)
    ensures |cs| == |vs| && forall i :: 0 <= i < |vs| ==> cs[i] == Clamp(vs[i])
    ensures forall i :: 0 <= i < |cs| ==> 0 <= cs[i] <= AdcMax
    ensures forall i :: 0 <= i < |vs| && 0 <= vs[i] <= AdcMax ==> cs[i] == vs[i]
  {
    seq(|vs|, i requires 0 <= i < |vs| => Clamp(vs[i]))
  }

  /** The history always holds the newest (at most 100) clamped samples in arrival order,
      and the index deque keeps pace with it. */
  lemma {:induction false} HistoryIsWindow(a: Adc, vs: seq<int>)
    requires AdcInv(a)
    ensures AdcInv(ProcessAll(a, vs))
    ensures ProcessAll(a, vs).data == Window(a.data + ClampAll(vs))
    decreases |vs|
  {
    if |vs| > 0 {
      HistoryIsWindow(ProcessAdcData(a, vs[0]), vs[1..]);
      HistoryStep(a, vs);
    } else {
      assert a.data + ClampAll(vs) == a.data;
    }
  }

  /** One sample, then the rest: the same window as all of them at once. */
  lemma HistoryStep(a: Adc, vs: seq<int>)
    requires |vs| > 0
    ensures Window(ProcessAdcData(a, vs[0]).data + ClampAll(vs[1..])) == Window(a.data + ClampAll(vs))
  {
    var c := Clamp(vs[0]);
    assert ProcessAdcData(a, vs[0]).data == Window(a.data + [c]);
    WindowAppend(a.data, c, ClampAll(vs[1..]));
    ClampAllCons(vs);
  }

  lemma ClampAllCons(vs: seq<int>)
    requires |vs| > 0
    ensures ClampAll(vs) == [Clamp(vs[0])] + ClampAll(vs[1..])
  {
  }

  /** Trimming before appending more keeps the same newest 100 items. */
  lemma WindowAppend(s: seq<int>, x: int, rest: seq<int>)
    ensures Window(Window(s + [x]) + rest) == Window(s + ([x] + rest))
  {
    assert s + ([x] + rest) == (s + [x]) + rest;
    var t := s + [x];
    if |t| > AdcHistory {
      var u := Window(t) + rest;
      var v := t + rest;
      assert u == v[|t| - AdcHistory..];
    }
  }

  /** Whether a match of the pattern IR_ADC:(\d+) starts at `i`. */
  predicate AdcMatchAt(s: string, i: nat) {
    OccursAt(s, AdcTag, i) && i + |AdcTag| < |s| && IsDigit(s[i + |AdcTag|])
  }

  /** The value of the digits right after the tag of a match at `i`. */
  function AdcValueAt(s: string, i: nat): nat
    requires i + |AdcTag| <= |s|
  {
    var t := s[i + |AdcTag|..];
    DigitsValue(t[..DigitRun(t)])
  }

  /** The leftmost match at or after `from`, as re.search scans. */
  function AdcSearch(s: string, from: nat): (r: Option<nat>)
    ensures r.Some? ==> from <= r.value && AdcMatchAt(s, r.value)
    ensures r.Some? ==> forall j :: from <= j < r.value ==> !AdcMatchAt(s, j)
    ensures r.None? ==> forall j :: from <= j ==> !AdcMatchAt(s, j)
    decreases |s| - from
  {
    match FindFrom(s, AdcTag, from)
    case None => None
    case Some(i) =>
      assert forall j :: from <= j < i ==> !AdcMatchAt(s, j);
      if i + |AdcTag| < |s| && IsDigit(s[i + |AdcTag|]) then Some(i)
      else
        assert !AdcMatchAt(s, i);
        AdcSearch(s, i + 1)
  }

  /** The IR_ADC extraction of update_realtime_data: re.search(r'IR_ADC:(\d+)') and int()
      of the digits. */
  function ExtractIrAdc(s: string): (r: Option<int>)
    ensures r.None? <==> forall j: nat :: !AdcMatchAt(s, j)
    ensures r.Some? ==> exists i: nat :: && AdcMatchAt(s, i)
                                        && (forall j: nat :: j < i ==> !AdcMatchAt(s, j))
                                        && r.value == AdcValueAt(s, i)
  {
    match AdcSearch(s, 0)
    case None => None
    case Some(i) => Some(AdcValueAt(s, i))
  }

  /** update_realtime_data for a text frame: the first match's value goes to
      process_adc_data; text without a match leaves the samples alone. */
  function UpdateRealtimeData(a: Adc, data: string): (r: Adc)
    ensures ExtractIrAdc(data).None? ==> r == a
    ensures ExtractIrAdc(data).Some? ==> r == ProcessAdcData(a, ExtractIrAdc(data).value)
    ensures (forall j: nat :: !AdcMatchAt(data, j)) ==> r == a
    ensures forall i: nat :: AdcMatchAt(data, i) && (forall j: nat :: j < i ==> !AdcMatchAt(data, j)) ==>
              r == ProcessAdcData(a, AdcValueAt(data, i))
    ensures AdcInv(a) ==> AdcInv(r)
  {
    match ExtractIrAdc(data)
    case None => a
    case Some(v) => ProcessAdcData(a, v)
  }

  /** A frame "IR_ADC:<n>" after text without a colon yields n, whatever follows the digits. */
  lemma {:induction false} ExtractPrintedAdc(prefix: string, n: nat, rest: string)
    requires ':' !in prefix
    requires |rest| == 0 || !IsDigit(rest[0])
    ensures ExtractIrAdc(prefix + AdcTag + NatToString(n) + rest) == Some(n)
    ensures UpdateRealtimeData(InitialAdc, prefix + AdcTag + NatToString(n) + rest).current == Clamp(n)
  {
    var s := prefix + AdcTag + NatToString(n) + rest;
    var p := |prefix|;
    NoMatchBeforeTag(prefix, NatToString(n) + rest);
    MatchAtTag(prefix, n, rest);
    assert s == prefix + AdcTag + (NatToString(n) + rest);
    var found := AdcSearch(s, 0);
    assert found.Some? && found.value == p by {
      assert AdcMatchAt(s, p);
    }
  }

  /** No match starts inside colon-free text that precedes the tag. */
  lemma NoMatchBeforeTag(prefix: string, tail: string)
    requires ':' !in prefix
    ensures forall j: nat :: j < |prefix| ==> !AdcMatchAt(prefix + AdcTag + tail, j)
  {
    var s := prefix + AdcTag + tail;
    var p := |prefix|;
    forall j: nat | j < p
      ensures !AdcMatchAt(s, j)
    {
      if j + |AdcTag| <= |s| {
        assert s[j + 6] != ':' by {
          if j + 6 < p {
            assert s[j + 6] == prefix[j + 6];
          } else {
            assert s[j + 6] == AdcTag[j + 6 - p];
          }
        }
        assert s[j..j + |AdcTag|][6] == s[j + 6];
      }
    }
  }

  /** A match starts at the tag and its digits are the printed number. */
  lemma {:induction false} MatchAtTag(prefix: string, n: nat, rest: string)
    requires |rest| == 0 || !IsDigit(rest[0])
    ensures AdcMatchAt(prefix + AdcTag + (NatToString(n) + rest), |prefix|)
    ensures AdcValueAt(prefix + AdcTag + (NatToString(n) + rest), |prefix|) == n
  {
    var d := NatToString(n);
    var head, tail := prefix + AdcTag, d + rest;
    var s := head + tail;
    var p := |prefix|;
    assert s[p..p + |AdcTag|] == head[p..] == AdcTag;
    assert s[p + |AdcTag|..] == tail;
    assert s[p + |AdcTag|] == d[0];
    DigitRunOfConcat(d, rest);
    assert tail[..|d|] == d;
  }
}
