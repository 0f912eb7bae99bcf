/** The device liveness registry of heartbeat.py. ESP32 devices announce themselves with
    UDP lines `HEARTBEAT:<name>,IP:<addr>,...`; the registry keeps one record per key
    name + "_" + ip, renews it on every heartbeat, marks it offline once it has been silent
    for longer than the timeout, records probe latency, and reports fleet counts.

    Clock readings are integer microseconds (the resolution of Python's datetime); every
    operation that reads the clock takes the reading `now` as a parameter. */
module Heartbeat {
  import opened Wrappers
  import opened Text

  const MicrosPerSecond: int := 1_000_000
  const SecondsPerDay: int := 86400
  /** HeartbeatManager's default listening port and silence timeout. */
  const ListenPort: int := 1509
  const DefaultTimeoutSeconds: int := 3
  /** The sweeper's refresh-only notification interval. */
  const RefreshSeconds: int := 5
  const HeartbeatPrefix: string := "HEARTBEAT:"
  const IpFieldPrefix: string := "IP:"

  /** The latency class shown for a device; Unknown until the first probe. */
  datatype PingStatus = Unknown | Good | Fair | Poor | Timeout

  /** ESP32Device: one device's identity, liveness, counters and latency. */
  datatype Device = Device(
    name: string,
    ip: string,
    lastHeartbeat: int,
    isOnline: bool,
    heartbeatCount: nat,
    firstSeen: int,
    pingMs: real,
    pingStatus: PingStatus)

  /** A record as ESP32Device.__init__ creates it: offline, no heartbeat counted, not probed. */
  function NewDevice(name: string, ip: string, now: int): Device {
    Device(name, ip, now, false, 0, now, 0.0, Unknown)
  }

  /** ESP32Device.update_heartbeat: the device is online, heard from at `now`, once more. */
  function UpdateHeartbeat(d: Device, now: int): (d': Device)
    ensures d'.isOnline && d'.lastHeartbeat == now
    ensures d'.heartbeatCount == d.heartbeatCount + 1
    ensures d' == d.(isOnline := true, lastHeartbeat := now, heartbeatCount := d'.heartbeatCount)
  {
    d.(lastHeartbeat := now, isOnline := true, heartbeatCount := d.heartbeatCount + 1)
  }

  /** The latency class update_ping derives from a probe result in milliseconds (a Python
      float); a negative result is the probe's timeout sentinel. */
  function Classify(pingMs: real): (s: PingStatus)
    ensures s != Unknown
    ensures s == Timeout <==> pingMs < 0.0
    ensures s == Good <==> 0.0 <= pingMs <= 50.0
    ensures s == Fair <==> 50.0 < pingMs <= 150.0
    ensures s == Poor <==> 150.0 < pingMs
  {
    if pingMs < 0.0 then Timeout
    else if pingMs <= 50.0 then Good
    else if pingMs <= 150.0 then Fair
    else Poor
  }

  /** ESP32Device.update_ping: records the probe result and its class, nothing else. */
  function UpdatePing(d: Device, pingMs: real): (d': Device)
    ensures d'.pingMs == pingMs && d'.pingStatus != Unknown
    ensures d'.pingStatus == Timeout <==> pingMs < 0.0
    ensures d' == d.(pingMs := pingMs, pingStatus := d'.pingStatus)
  {
    d.(pingMs := pingMs, pingStatus := Classify(pingMs))
  }

  /** More than `timeoutSeconds` have passed since the device's last heartbeat. */
  predicate Expired(d: Device, now: int, timeoutSeconds: int) {
    now - d.lastHeartbeat > timeoutSeconds * MicrosPerSecond
  }

  /** ESP32Device.check_timeout: reports whether the device has been silent for strictly
      longer than the timeout, and if so marks it offline; it never marks a device online. */
  function CheckTimeout(d: Device, now: int, timeoutSeconds: int): (r: (Device, bool))
    ensures r.1 <==> now - d.lastHeartbeat > timeoutSeconds * MicrosPerSecond
    ensures r.1 ==> !r.0.isOnline && r.0 == d.(isOnline := false)
    ensures !r.1 ==> r.0 == d
  {
    if now - d.lastHeartbeat > timeoutSeconds * MicrosPerSecond then (d.(isOnline := false), true)
    else (d, false)
  }

  /** Hours, minutes and seconds. */
  datatype Clock = Clock(hours: int, minutes: int, seconds: int)

  /** Whole seconds split into hours, minutes and seconds the way get_uptime does it. */
  function SplitSeconds(secs: int): (c: Clock)
    ensures 0 <= c.minutes < 60 && 0 <= c.seconds < 60
    ensures c.hours * 3600 + c.minutes * 60 + c.seconds == secs
    ensures 0 <= secs < SecondsPerDay ==> 0 <= c.hours < 24
  {
    Clock(secs / 3600, (secs % 3600) / 60, secs % 60)
  }

  /** get_uptime as the source computes it: from timedelta.seconds, which holds only the
      seconds within the last whole day, so a device seen 25 hours ago shows one hour. */
  function UptimeAsWritten(d: Device, now: int): (c: Clock)
    ensures 0 <= c.hours < 24 && 0 <= c.minutes < 60 && 0 <= c.seconds < 60
    ensures c.hours * 3600 + c.minutes * 60 + c.seconds
            == ((now - d.firstSeen) / MicrosPerSecond) % SecondsPerDay
  {
    SplitSeconds(((now - d.firstSeen) / MicrosPerSecond) % SecondsPerDay)
  }

  /** The uptime since the device was first seen, from the total elapsed whole seconds. */
  function Uptime(d: Device, now: int): (c: Clock)
    ensures 0 <= c.minutes < 60 && 0 <= c.seconds < 60
    ensures c.hours * 3600 + c.minutes * 60 + c.seconds == (now - d.firstSeen) / MicrosPerSecond
  {
    SplitSeconds((now - d.firstSeen) / MicrosPerSecond)
  }

  /** The time of day of a clock reading, as strftime("%H:%M:%S") shows it; readings are
      taken to be local time. */
  function TimeOfDay(t: int): (c: Clock)
    ensures 0 <= c.hours < 24 && 0 <= c.minutes < 60 && 0 <= c.seconds < 60
    ensures c.hours * 3600 + c.minutes * 60 + c.seconds == (t / MicrosPerSecond) % SecondsPerDay
  {
    SplitSeconds((t / MicrosPerSecond) % SecondsPerDay)
  }

  /** A device first seen 25 hours ago: the source shows 01:00:00, the total is 25:00:00. */
  lemma UptimeDropsWholeDays()
    ensures var d := NewDevice("Cube43", "192.168.0.43", 0);
            var now := 25 * 3600 * MicrosPerSecond;
            && UptimeAsWritten(d, now) == Clock(1, 0, 0)
            && Uptime(d, now) == Clock(25, 0, 0)
  {
  }

  /** The two agree for devices seen less than a day ago. */
  lemma {:induction false} UptimeAgreesWithinADay(d: Device, now: int)
    requires d.firstSeen <= now < d.firstSeen + SecondsPerDay * MicrosPerSecond
    ensures UptimeAsWritten(d, now) == Uptime(d, now)
  {
    var secs := (now - d.firstSeen) / MicrosPerSecond;
    assert 0 <= secs < SecondsPerDay;
    assert secs % SecondsPerDay == secs;
  }

  // ----- the registry -----

  /** HeartbeatManager.devices: records by key, plus the keys in insertion order (Python
      dicts iterate in insertion order, which fixes snapshot order and the lookups' pick). */
  datatype Registry = Registry(devices: map<string, Device>, order: seq<string>)

  /** The registry key _update_device builds: the name and address joined by "_". */
  function Key(name: string, ip: string): string {
    name + "_" + ip
  }

  predicate NoDuplicates(keys: seq<string>) {
    forall i, j :: 0 <= i < j < |keys| ==> keys[i] != keys[j]
  }

  /** The order lists every key exactly once, and each record sits under its own key. */
  ghost predicate Valid(reg: Registry) {
    && NoDuplicates(reg.order)
    && (forall k :: k in reg.devices <==> k in reg.order)
    && (forall k :: k in reg.devices ==> Key(reg.devices[k].name, reg.devices[k].ip) == k)
  }

  const EmptyRegistry: Registry := Registry(map[], [])

  /** The notifications the manager raises through its callbacks. */
  datatype Event =
    | NewDeviceFound(name: string, ip: string)
    | WentOffline(name: string, ip: string)
    | StatusChanged

  /** Different (name, ip) pairs can share a key: "a_b" at "c" and "a" at "b_c". */
  lemma KeyCollision()
    ensures ("a_b", "c") != ("a", "b_c")
    ensures Key("a_b", "c") == Key("a", "b_c")
  {
  }

  /** HeartbeatManager._update_device: looks the key up, creates an offline record with no
      heartbeats for an unseen key, then applies the heartbeat. Every other record is kept. */
  function UpdateDevice(reg: Registry, name: string, ip: string, now: int): (r: (Registry, seq<Event>))
    requires Valid(reg)
    ensures Valid(r.0)
    ensures var k := Key(name, ip);
            && k in r.0.devices
            && r.0.devices.Keys == reg.devices.Keys + {k}
            && r.0.devices[k].isOnline
            && r.0.devices[k].lastHeartbeat == now
            && (forall k' :: k' in reg.devices && k' != k ==> r.0.devices[k'] == reg.devices[k'])
    ensures var k := Key(name, ip);
            k !in reg.devices ==>
              && r.0.devices[k] == NewDevice(name, ip, now).(isOnline := true, heartbeatCount := 1)
              && r.0.order == reg.order + [k]
              && r.1 == [NewDeviceFound(name, ip), StatusChanged]
    ensures var k := Key(name, ip);
            k in reg.devices ==>
              && r.0.devices[k].heartbeatCount == reg.devices[k].heartbeatCount + 1
              && r.0.devices[k].firstSeen == reg.devices[k].firstSeen
              && r.0.devices[k].name == reg.devices[k].name
              && r.0.devices[k].ip == reg.devices[k].ip
              && r.0.devices[k].pingMs == reg.devices[k].pingMs
              && r.0.devices[k].pingStatus == reg.devices[k].pingStatus
              && r.0.order == reg.order
              && r.1 == [StatusChanged]
  {
    var k := Key(name, ip);
    if k !in reg.devices then
      var reg' := Registry(reg.devices[k := UpdateHeartbeat(NewDevice(name, ip, now), now)], reg.order + [k]);
      assert NoDuplicates(reg'.order) by {
        assert k !in reg.order;
      }
      (reg', [NewDeviceFound(name, ip), StatusChanged])
    else
      (Registry(reg.devices[k := UpdateHeartbeat(reg.devices[k], now)], reg.order), [StatusChanged])
  }

  /** The address a heartbeat's second field names: the text after `IP:` when the
      stripped field starts with it, otherwise the sender's address. */
  function AddressField(field: string, senderIp: string): string {
    var ipPart := Strip(Py, field);
    if StartsWith(ipPart, IpFieldPrefix) then ipPart[|IpFieldPrefix|..] else senderIp
  }

  /** _process_heartbeat's parsing: the device name and address a heartbeat line
      announces, or None for a line the manager ignores. */
  function ParseHeartbeat(message: string, senderIp: string): (r: Option<(string, string)>)
    ensures r.Some? <==> StartsWith(message, HeartbeatPrefix) && ',' in message[|HeartbeatPrefix|..]
    ensures r.Some? ==> IsStripped(Py, r.value.0) && ',' !in r.value.0
  {
    if !StartsWith(message, HeartbeatPrefix) then None
    else
      var parts := Split(message[|HeartbeatPrefix|..], ',');
      if |parts| < 2 then
        assert ',' !in message[|HeartbeatPrefix|..] by {
          assert Join(parts, ',') == parts[0];
        }
        None
      else
        assert ',' in message[|HeartbeatPrefix|..] by {
          assert Join(parts, ',') == parts[0] + [','] + Join(parts[1..], ',');
        }
        var name := Strip(Py, parts[0]);
        assert ',' !in name;
        Some((name, AddressField(parts[1], senderIp)))
  }

  /** The first two comma-separated fields of a line are what lies before its first comma
      and between that comma and the next one (or the end). */
  lemma {:induction false} SplitTwoFields(a: string, b: string, rest: string)
    requires ',' !in a && ',' !in b
    requires |rest| == 0 || rest[0] == ','
    ensures var parts := Split(a + [','] + b + rest, ',');
            |parts| >= 2 && parts[0] == a && parts[1] == b
  {
    if |rest| == 0 {
      assert a + [','] + b + rest == a + [','] + b;
      SplitCons(a, ',', b);
    } else {
      var tail := rest[1..];
      assert a + [','] + b + rest == a + [','] + (b + [','] + tail);
      SplitCons(a, ',', b + [','] + tail);
      SplitCons(b, ',', tail);
    }
  }

  lemma {:induction false} ParseFields(name: string, field: string, rest: string, senderIp: string)
    requires ',' !in name && ',' !in field
    requires |rest| == 0 || rest[0] == ','
    requires IsStripped(Py, name)
    ensures ParseHeartbeat(HeartbeatPrefix + name + [','] + field + rest, senderIp)
            == Some((name, AddressField(field, senderIp)))
  {
    var m := HeartbeatPrefix + name + [','] + field + rest;
    assert m[..|HeartbeatPrefix|] == HeartbeatPrefix;
    assert m[|HeartbeatPrefix|..] == name + [','] + field + rest;
    SplitTwoFields(name, field, rest);
    StripOfStripped(Py, name);
  }

  /** A formatted heartbeat parses back to the name and address it carries. */
  lemma {:induction false} ParseFormattedHeartbeat(name: string, ip: string, suffix: string, senderIp: string)
    requires ',' !in name && ',' !in ip
    requires IsStripped(Py, name) && IsStripped(Py, IpFieldPrefix + ip)
    ensures ParseHeartbeat(HeartbeatPrefix + name + "," + IpFieldPrefix + ip + "," + suffix, senderIp)
            == Some((name, ip))
  {
    IpFieldLayout(name, ip, suffix);
    assert ',' !in IpFieldPrefix + ip;
    ParseFields(name, IpFieldPrefix + ip, "," + suffix, senderIp);
    AddressOfIpField(ip, senderIp);
  }

  lemma IpFieldLayout(name: string, ip: string, suffix: string)
    ensures HeartbeatPrefix + name + "," + IpFieldPrefix + ip + "," + suffix
            == HeartbeatPrefix + name + [','] + (IpFieldPrefix + ip) + ("," + suffix)
  {
  }

  lemma FormattedLayout(name: string, field: string, rest: string)
    ensures HeartbeatPrefix + name + "," + field + rest == HeartbeatPrefix + name + [','] + field + rest
  {
  }

  /** An `IP:` field names the device address. */
  lemma AddressOfIpField(ip: string, senderIp: string)
    requires IsStripped(Py, IpFieldPrefix + ip)
    ensures AddressField(IpFieldPrefix + ip, senderIp) == ip
  {
    var field := IpFieldPrefix + ip;
    StripOfStripped(Py, field);
    assert field[..|IpFieldPrefix|] == IpFieldPrefix;
    assert field[|IpFieldPrefix|..] == ip;
  }

  /** Without an `IP:` field the sender's address stands in for the device address. */
  lemma {:induction false} ParseFallsBackToSender(name: string, field: string, rest: string, senderIp: string)
    requires ',' !in name && ',' !in field
    requires |rest| == 0 || rest[0] == ','
    requires IsStripped(Py, name) && IsStripped(Py, field)
    requires !StartsWith(field, IpFieldPrefix)
    ensures ParseHeartbeat(HeartbeatPrefix + name + "," + field + rest, senderIp) == Some((name, senderIp))
  {
    FormattedLayout(name, field, rest);
    ParseFields(name, field, rest, senderIp);
    StripOfStripped(Py, field);
  }

  /** HeartbeatManager._process_heartbeat: a recognised heartbeat upserts its device;
      anything else leaves the registry as it was and notifies nobody. */
  function ProcessHeartbeat(reg: Registry, message: string, senderIp: string, now: int): (r: (Registry, seq<Event>))
    requires Valid(reg)
    ensures Valid(r.0)
    ensures !StartsWith(message, HeartbeatPrefix) ==> r == (reg, [])
    ensures ParseHeartbeat(message, senderIp).None? ==> r == (reg, [])
    ensures ParseHeartbeat(message, senderIp).Some? ==>
              var (name, ip) := ParseHeartbeat(message, senderIp).value;
              && Key(name, ip) in r.0.devices
              && r.0.devices[Key(name, ip)].isOnline
              && r.0.devices[Key(name, ip)].lastHeartbeat == now
              && StatusChanged in r.1
  {
    match ParseHeartbeat(message, senderIp)
    case None => (reg, [])
    case Some((name, ip)) => UpdateDevice(reg, name, ip, now)
  }

  /** One datagram as _heartbeat_listener handles it: the decoded text is stripped of
      surrounding white space before it is parsed. */
  function ReceiveDatagram(reg: Registry, text: string, senderIp: string, now: int): (r: (Registry, seq<Event>))
    requires Valid(reg)
    ensures Valid(r.0)
    ensures !StartsWith(Strip(Py, text), HeartbeatPrefix) ==> r == (reg, [])
  {
    ProcessHeartbeat(reg, Strip(Py, text), senderIp, now)
  }

  // ----- the timeout sweep -----

  /** The device is online and its silence has outlasted the timeout. */
  predicate TurnsOffline(d: Device, now: int, timeoutSeconds: int) {
    d.isOnline && Expired(d, now, timeoutSeconds)
  }

  /** Keys that all name records and hold no key twice. */
  predicate KeysIn(keys: seq<string>, devs: map<string, Device>) {
    NoDuplicates(keys) && forall i :: 0 <= i < |keys| ==> keys[i] in devs
  }

  /** One pass of _timeout_checker's loop over `keys`, in order: every record is checked,
      and each one that goes from online to offline raises WentOffline. */
  function SweepKeys(devs: map<string, Device>, keys: seq<string>, now: int, timeoutSeconds: int)
    : (r: (map<string, Device>, seq<Event>))
    requires KeysIn(keys, devs)
    ensures r.0.Keys == devs.Keys
    ensures forall k :: k in devs && k in keys ==> r.0[k] == CheckTimeout(devs[k], now, timeoutSeconds).0
    ensures forall k :: k in devs && k !in keys ==> r.0[k] == devs[k]
    decreases |keys|
  {
    if |keys| == 0 then (devs, [])
    else
      var k := keys[0];
      var d := devs[k];
      var checked := CheckTimeout(d, now, timeoutSeconds);
      var devs1 := devs[k := checked.0];
      assert KeysIn(keys[1..], devs1) by {
        assert forall i :: 0 <= i < |keys| - 1 ==> keys[1..][i] == keys[i + 1];
      }
      assert k !in keys[1..];
      var rest := SweepKeys(devs1, keys[1..], now, timeoutSeconds);
      var mine := if d.isOnline && checked.1 then [WentOffline(d.name, d.ip)] else [];
      (rest.0, mine + rest.1)
  }

  /** The pass raises WentOffline for a device of `keys` exactly when it turns offline. */
  lemma {:induction false} SweepKeysEvents(devs: map<string, Device>, keys: seq<string>, now: int, timeoutSeconds: int)
    requires KeysIn(keys, devs)
    ensures forall e :: e in SweepKeys(devs, keys, now, timeoutSeconds).1 ==>
              exists k :: k in keys && TurnsOffline(devs[k], now, timeoutSeconds)
                          && e == WentOffline(devs[k].name, devs[k].ip)
    ensures forall k :: k in keys && TurnsOffline(devs[k], now, timeoutSeconds) ==>
              WentOffline(devs[k].name, devs[k].ip) in SweepKeys(devs, keys, now, timeoutSeconds).1
    decreases |keys|
  {
    if |keys| > 0 {
      var k := keys[0];
      var d := devs[k];
      var checked := CheckTimeout(d, now, timeoutSeconds);
      var devs1 := devs[k := checked.0];
      assert KeysIn(keys[1..], devs1) by {
        assert forall i :: 0 <= i < |keys| - 1 ==> keys[1..][i] == keys[i + 1];
      }
      assert k !in keys[1..];
      SweepKeysEvents(devs1, keys[1..], now, timeoutSeconds);
      assert forall k' :: k' in keys[1..] ==> devs1[k'] == devs[k'];
      assert forall k' :: k' in keys ==> k' == k || k' in keys[1..];
    }
  }

  /** Over a whole valid registry, the pass raises WentOffline exactly for the devices that
      drop, and raises something exactly when one does. */
  lemma {:induction false} SweepKeysOfRegistry(reg: Registry, now: int, timeoutSeconds: int)
    requires Valid(reg)
    ensures var swept := SweepKeys(reg.devices, reg.order, now, timeoutSeconds);
            && (forall name, ip :: WentOffline(name, ip) in swept.1 <==>
                  Key(name, ip) in reg.devices && TurnsOffline(reg.devices[Key(name, ip)], now, timeoutSeconds)
                  && reg.devices[Key(name, ip)].name == name && reg.devices[Key(name, ip)].ip == ip)
            && (forall e :: e in swept.1 ==> e.WentOffline?)
            && (|swept.1| > 0 <==> exists k :: k in reg.devices && TurnsOffline(reg.devices[k], now, timeoutSeconds))
  {
    var swept := SweepKeys(reg.devices, reg.order, now, timeoutSeconds);
    SweepKeysEvents(reg.devices, reg.order, now, timeoutSeconds);
    forall name, ip
      ensures WentOffline(name, ip) in swept.1 <==>
                Key(name, ip) in reg.devices && TurnsOffline(reg.devices[Key(name, ip)], now, timeoutSeconds)
                && reg.devices[Key(name, ip)].name == name && reg.devices[Key(name, ip)].ip == ip
    {
      if WentOffline(name, ip) in swept.1 {
        var k :| k in reg.order && TurnsOffline(reg.devices[k], now, timeoutSeconds)
                 && WentOffline(name, ip) == WentOffline(reg.devices[k].name, reg.devices[k].ip);
        assert Key(name, ip) == k;
      }
    }
    if |swept.1| > 0 {
      assert swept.1[0] in swept.1;
    }
  }

  /** What one tick of _timeout_checker leaves behind: the registry, the notifications in
      the order they are raised, and the time of the last refresh-only notification (absent
      until the first tick, as the attribute is before it is first set). */
  datatype SweepResult = SweepResult(reg: Registry, events: seq<Event>, lastRefresh: Option<int>)

  /** One tick of _timeout_checker: checks every device in insertion order, raises
      WentOffline for each one that drops, then StatusChanged if any dropped; otherwise a
      refresh-only StatusChanged at most every RefreshSeconds. */
  function Sweep(reg: Registry, now: int, timeoutSeconds: int, lastRefresh: Option<int>): (r: SweepResult)
    requires Valid(reg)
    ensures Valid(r.reg) && r.reg.order == reg.order && r.reg.devices.Keys == reg.devices.Keys
    ensures forall k :: k in reg.devices ==> r.reg.devices[k] == CheckTimeout(reg.devices[k], now, timeoutSeconds).0
    ensures forall name, ip :: WentOffline(name, ip) in r.events <==>
              Key(name, ip) in reg.devices && TurnsOffline(reg.devices[Key(name, ip)], now, timeoutSeconds)
              && reg.devices[Key(name, ip)].name == name && reg.devices[Key(name, ip)].ip == ip
    ensures forall e :: e in r.events ==> e.WentOffline? || e.StatusChanged?
    ensures var changed := exists k :: k in reg.devices && TurnsOffline(reg.devices[k], now, timeoutSeconds);
            var due := lastRefresh.Some? && now - lastRefresh.value >= RefreshSeconds * MicrosPerSecond;
            && (StatusChanged in r.events <==> changed || due)
            && (changed ==> r.lastRefresh == lastRefresh)
            && (!changed && (lastRefresh.None? || due) ==> r.lastRefresh == Some(now))
            && (!changed && lastRefresh.Some? && !due ==> r.lastRefresh == lastRefresh)
  {
    var swept := SweepKeys(reg.devices, reg.order, now, timeoutSeconds);
    SweepKeysOfRegistry(reg, now, timeoutSeconds);
    SweptIsValid(reg, now, timeoutSeconds);
    var reg' := Registry(swept.0, reg.order);
    assert StatusChanged !in swept.1;
    var due := lastRefresh.Some? && now - lastRefresh.value >= RefreshSeconds * MicrosPerSecond;
    if |swept.1| > 0 then
      SweepResult(reg', swept.1 + [StatusChanged], lastRefresh)
    else if lastRefresh.None? then
      SweepResult(reg', swept.1, Some(now))
    else if due then
      SweepResult(reg', swept.1 + [StatusChanged], Some(now))
    else
      SweepResult(reg', swept.1, lastRefresh)
  }

  /** The pass keeps each record under its own key. */
  lemma SweptIsValid(reg: Registry, now: int, timeoutSeconds: int)
    requires Valid(reg)
    ensures Valid(Registry(SweepKeys(reg.devices, reg.order, now, timeoutSeconds).0, reg.order))
  {
    var devs := SweepKeys(reg.devices, reg.order, now, timeoutSeconds).0;
    forall k | k in devs
      ensures Key(devs[k].name, devs[k].ip) == k
    {
      assert devs[k].name == reg.devices[k].name && devs[k].ip == reg.devices[k].ip;
    }
  }

  /** Checking the device now would neither drop it nor change it. */
  predicate Settled(d: Device, now: int, timeoutSeconds: int) {
    !TurnsOffline(d, now, timeoutSeconds) && CheckTimeout(d, now, timeoutSeconds).0 == d
  }

  /** After a sweep no device is left that the same instant's check would drop. */
  lemma {:induction false} SweepSettles(reg: Registry, now: int, timeoutSeconds: int, last: Option<int>)
    requires Valid(reg)
    ensures var swept := Sweep(reg, now, timeoutSeconds, last).reg;
            forall k :: k in swept.devices ==> Settled(swept.devices[k], now, timeoutSeconds)
  {
  }

  /** A sweep over a registry with nothing to drop changes no record and raises no
      WentOffline. */
  lemma {:induction false} SettledSweepIsQuiet(reg: Registry, now: int, timeoutSeconds: int, last: Option<int>)
    requires Valid(reg)
    requires forall k :: k in reg.devices ==> Settled(reg.devices[k], now, timeoutSeconds)
    ensures var swept := Sweep(reg, now, timeoutSeconds, last);
            swept.reg == reg && forall e :: e in swept.events ==> e == StatusChanged
  {
    var swept := Sweep(reg, now, timeoutSeconds, last);
    assert swept.reg.devices == reg.devices;
    forall name, ip
      ensures WentOffline(name, ip) !in swept.events
    {
      if Key(name, ip) in reg.devices {
        assert !TurnsOffline(reg.devices[Key(name, ip)], now, timeoutSeconds);
      }
    }
  }

  /** A second sweep at the same instant finds nothing more to drop and leaves the records
      as they are. */
  lemma {:induction false} SweepTwiceDropsNothing(reg: Registry, now: int, timeoutSeconds: int, last: Option<int>)
    requires Valid(reg)
    ensures var first := Sweep(reg, now, timeoutSeconds, last);
            var second := Sweep(first.reg, now, timeoutSeconds, first.lastRefresh);
            && second.reg == first.reg
            && forall e :: e in second.events ==> e == StatusChanged
  {
    var first := Sweep(reg, now, timeoutSeconds, last);
    SweepSettles(reg, now, timeoutSeconds, last);
    SettledSweepIsQuiet(first.reg, now, timeoutSeconds, first.lastRefresh);
  }

  /** A device that has just sent a heartbeat survives any sweep within the timeout. */
  lemma {:induction false} FreshHeartbeatSurvivesSweep(reg: Registry, name: string, ip: string, t: int,
                                                        now: int, timeoutSeconds: int, last: Option<int>)
    requires Valid(reg)
    requires now - t <= timeoutSeconds * MicrosPerSecond
    ensures var beat := UpdateDevice(reg, name, ip, t).0;
            var swept := Sweep(beat, now, timeoutSeconds, last);
            && swept.reg.devices[Key(name, ip)].isOnline
            && WentOffline(name, ip) !in swept.events
  {
  }

  /** A device heard at time t and swept each second afterwards with the default timeout:
      it is still online at t + 3 s and drops, with one WentOffline, at t + 4 s. */
  lemma {:induction false} SilentDeviceDropsAfterTimeout(name: string, ip: string, t: int)
    ensures var beat := UpdateDevice(EmptyRegistry, name, ip, t).0;
            var at3 := Sweep(beat, t + 3 * MicrosPerSecond, DefaultTimeoutSeconds, None);
            var at4 := Sweep(at3.reg, t + 4 * MicrosPerSecond, DefaultTimeoutSeconds, at3.lastRefresh);
            && at3.reg.devices[Key(name, ip)].isOnline
            && WentOffline(name, ip) !in at3.events
            && !at4.reg.devices[Key(name, ip)].isOnline
            && WentOffline(name, ip) in at4.events
            && StatusChanged in at4.events
  {
    var beat := UpdateDevice(EmptyRegistry, name, ip, t).0;
    var at3 := Sweep(beat, t + 3 * MicrosPerSecond, DefaultTimeoutSeconds, None);
    var k := Key(name, ip);
    assert beat.devices[k].name == name && beat.devices[k].ip == ip;
    assert at3.reg.devices[k] == beat.devices[k];
    assert TurnsOffline(at3.reg.devices[k], t + 4 * MicrosPerSecond, DefaultTimeoutSeconds);
  }

  // ----- latency probing -----

  /** One round of _ping_checker: every online device is probed and its latency recorded;
      offline devices are left alone. `probe` stands for _ping_device's answer for the
      device under a registry key, in milliseconds, negative when the probe failed; each
      device is pinged on its own, so two records sharing an address may get different
      answers. The status callback fires
      when at least one device is online. */
  function ProbePass(reg: Registry, probe: string -> real): (r: (Registry, seq<Event>))
    requires Valid(reg)
    ensures Valid(r.0) && r.0.order == reg.order && r.0.devices.Keys == reg.devices.Keys
    ensures forall k :: k in reg.devices && reg.devices[k].isOnline ==>
              r.0.devices[k] == UpdatePing(reg.devices[k], probe(k))
    ensures forall k :: k in reg.devices && !reg.devices[k].isOnline ==> r.0.devices[k] == reg.devices[k]
    ensures (exists k :: k in reg.devices && reg.devices[k].isOnline) ==> r.1 == [StatusChanged]
    ensures (forall k :: k in reg.devices ==> !reg.devices[k].isOnline) ==> r.1 == []
  {
    var devs := map k | k in reg.devices ::
                  if reg.devices[k].isOnline then UpdatePing(reg.devices[k], probe(k))
                  else reg.devices[k];
    var anyOnline := exists k :: k in reg.devices && reg.devices[k].isOnline;
    (Registry(devs, reg.order), if anyOnline then [StatusChanged] else [])
  }

  /** Probing records latency only: every device keeps its liveness, so the online and
      total counts are what they were. */
  lemma ProbeKeepsCounts(reg: Registry, probe: string -> real)
    requires Valid(reg)
    ensures var probed := ProbePass(reg, probe).0;
            && (forall k :: k in reg.devices ==> probed.devices[k].isOnline == reg.devices[k].isOnline)
            && DeviceCount(probed) == DeviceCount(reg)
  {
    var probed := ProbePass(reg, probe).0;
    assert OnlineKeys(probed.devices) == OnlineKeys(reg.devices);
  }

  // ----- counts and statistics -----

  /** The keys of online records. */
  function OnlineKeys(devs: map<string, Device>): set<string> {
    set k | k in devs && devs[k].isOnline
  }

  /** The online keys of a key list: those of its tail, plus its head when online. */
  lemma OnlineSetStep(devs: map<string, Device>, keys: seq<string>)
    requires KeysIn(keys, devs) && |keys| > 0
    ensures KeysIn(keys[1..], devs)
    ensures var rest := set x | x in keys[1..] && devs[x].isOnline;
            && keys[0] !in rest
            && (set x | x in keys && devs[x].isOnline)
               == if devs[keys[0]].isOnline then rest + {keys[0]} else rest
  {
    var tail := keys[1..];
    assert forall i :: 0 <= i < |tail| ==> tail[i] == keys[i + 1];
    assert keys == [keys[0]] + tail;
  }

  /** Number of online records among `keys`, counted one key at a time. */
  function CountOnline(devs: map<string, Device>, keys: seq<string>): (n: nat)
    requires KeysIn(keys, devs)
    ensures n <= |keys|
    ensures n == |set k | k in keys && devs[k].isOnline|
    decreases |keys|
  {
    if |keys| == 0 then 0
    else
      var k := keys[0];
      var tail := keys[1..];
      assert KeysIn(tail, devs) by {
        assert forall i :: 0 <= i < |tail| ==> tail[i] == keys[i + 1];
      }
      var n' := CountOnline(devs, tail);
      OnlineSetStep(devs, keys);
      if devs[k].isOnline then n' + 1 else n'
  }

  /** A list without repeats has as many distinct elements as entries. */
  lemma {:induction false} DistinctCount(keys: seq<string>)
    requires NoDuplicates(keys)
    ensures |set k | k in keys| == |keys|
    decreases |keys|
  {
    if |keys| > 0 {
      var tail := keys[1..];
      assert NoDuplicates(tail) by {
        assert forall i :: 0 <= i < |tail| ==> tail[i] == keys[i + 1];
      }
      DistinctCount(tail);
      assert keys[0] !in tail;
      assert (set k | k in keys) == (set k | k in tail) + {keys[0]};
    }
  }

  /** In a valid registry the insertion order is as long as the record map. */
  lemma {:induction false} OrderLength(reg: Registry)
    requires Valid(reg)
    ensures |reg.order| == |reg.devices|
  {
    DistinctCount(reg.order);
    assert (set k | k in reg.order) == reg.devices.Keys;
  }

  /** get_device_count's figures. */
  datatype Counts = Counts(online: nat, offline: nat, total: nat)

  /** HeartbeatManager.get_device_count: online records, the rest, and all of them. */
  function DeviceCount(reg: Registry): (c: Counts)
    requires Valid(reg)
    ensures c.total == |reg.devices|
    ensures c.online == |OnlineKeys(reg.devices)|
    ensures c.online + c.offline == c.total
  {
    OrderLength(reg);
    var online := CountOnline(reg.devices, reg.order);
    assert (set k | k in reg.order && reg.devices[k].isOnline) == OnlineKeys(reg.devices);
    Counts(online, |reg.devices| - online, |reg.devices|)
  }

  /** get_statistics' figures. */
  datatype Statistics = Statistics(
    totalDevices: nat, onlineDevices: nat, offlineDevices: nat,
    heartbeatPort: int, timeoutSeconds: int, isRunning: bool)

  /** HeartbeatManager.get_statistics: the device counts with the manager's settings. */
  function GetStatistics(reg: Registry, listenPort: int, timeoutSeconds: int, isRunning: bool): (s: Statistics)
    requires Valid(reg)
    ensures s.totalDevices == |reg.devices| && s.onlineDevices + s.offlineDevices == s.totalDevices
    ensures s.onlineDevices == |OnlineKeys(reg.devices)|
    ensures s.heartbeatPort == listenPort && s.timeoutSeconds == timeoutSeconds && s.isRunning == isRunning
  {
    var c := DeviceCount(reg);
    Statistics(c.total, c.online, c.offline, listenPort, timeoutSeconds, isRunning)
  }

  // ----- lookups -----

  /** Position in `keys` of the first record whose name (byName) or address (not byName)
      equals `target`; |keys| when there is none. */
  function FirstIndexWhere(devs: map<string, Device>, keys: seq<string>, byName: bool, target: string): (i: nat)
    requires KeysIn(keys, devs)
    ensures i <= |keys|
    ensures forall j :: 0 <= j < i ==> (if byName then devs[keys[j]].name else devs[keys[j]].ip) != target
    ensures i < |keys| ==> (if byName then devs[keys[i]].name else devs[keys[i]].ip) == target
    decreases |keys|
  {
    if |keys| == 0 then 0
    else if (if byName then devs[keys[0]].name else devs[keys[0]].ip) == target then 0
    else
      var tail := keys[1..];
      assert KeysIn(tail, devs) by {
        assert forall j :: 0 <= j < |tail| ==> tail[j] == keys[j + 1];
      }
      FirstIndexWhere(devs, tail, byName, target) + 1
  }

  /** HeartbeatManager.get_device_by_name: the earliest-inserted device with that name. */
  function GetDeviceByName(reg: Registry, name: string): (r: Option<Device>)
    requires Valid(reg)
    ensures r.None? <==> forall k :: k in reg.devices ==> reg.devices[k].name != name
    ensures r.Some? ==> r.value.name == name
                        && exists i :: 0 <= i < |reg.order| && reg.devices[reg.order[i]] == r.value
                                       && forall j :: 0 <= j < i ==> reg.devices[reg.order[j]].name != name
  {
    var i := FirstIndexWhere(reg.devices, reg.order, true, name);
    if i < |reg.order| then Some(reg.devices[reg.order[i]])
    else
      assert forall k :: k in reg.devices ==> reg.devices[k].name != name by {
        forall k | k in reg.devices
          ensures reg.devices[k].name != name
        {
          var j :| 0 <= j < |reg.order| && reg.order[j] == k;
        }
      }
      None
  }

  /** HeartbeatManager.get_device_by_ip: the earliest-inserted device with that address. */
  function GetDeviceByIp(reg: Registry, ip: string): (r: Option<Device>)
    requires Valid(reg)
    ensures r.None? <==> forall k :: k in reg.devices ==> reg.devices[k].ip != ip
    ensures r.Some? ==> r.value.ip == ip
                        && exists i :: 0 <= i < |reg.order| && reg.devices[reg.order[i]] == r.value
                                       && forall j :: 0 <= j < i ==> reg.devices[reg.order[j]].ip != ip
  {
    var i := FirstIndexWhere(reg.devices, reg.order, false, ip);
    if i < |reg.order| then Some(reg.devices[reg.order[i]])
    else
      assert forall k :: k in reg.devices ==> reg.devices[k].ip != ip by {
        forall k | k in reg.devices
          ensures reg.devices[k].ip != ip
        {
          var j :| 0 <= j < |reg.order| && reg.order[j] == k;
        }
      }
      None
  }

  // ----- removal of offline devices -----

  /** Where `k` first occurs in `keys`. */
  function IndexOf(keys: seq<string>, k: string): (i: nat)
    requires k in keys
    ensures i < |keys| && keys[i] == k && k !in keys[..i]
  {
    if keys[0] == k then 0
    else
      assert keys[1..][..IndexOf(keys[1..], k)] == keys[1..IndexOf(keys[1..], k) + 1];
      IndexOf(keys[1..], k) + 1
  }

  /** The online keys of `keys`, in the same order: exactly those keys, each placed after
      every online key that precedes it in `keys`. */
  function OnlineOnly(devs: map<string, Device>, keys: seq<string>): (r: seq<string>)
    requires KeysIn(keys, devs)
    ensures KeysIn(r, devs) && |r| <= |keys|
    ensures forall k :: k in r <==> k in keys && devs[k].isOnline
    ensures forall i, j :: 0 <= i < j < |r| ==> IndexOf(keys, r[i]) < IndexOf(keys, r[j])
    decreases |keys|
  {
    if |keys| == 0 then []
    else
      var tail := keys[1..];
      assert KeysIn(tail, devs) by {
        assert forall j :: 0 <= j < |tail| ==> tail[j] == keys[j + 1];
      }
      var rest := OnlineOnly(devs, tail);
      assert keys[0] !in tail;
      ShiftedIndices(keys, rest);
      if devs[keys[0]].isOnline then
        OrderAfterHead(keys, rest);
        [keys[0]] + rest
      else rest
  }

  /** A key of the tail sits one place further along the whole list. */
  lemma ShiftedIndices(keys: seq<string>, rest: seq<string>)
    requires |keys| > 0 && keys[0] !in keys[1..]
    requires forall k :: k in rest ==> k in keys[1..]
    ensures forall i :: 0 <= i < |rest| ==>
              rest[i] in keys && IndexOf(keys, rest[i]) == IndexOf(keys[1..], rest[i]) + 1
  {
    forall i | 0 <= i < |rest|
      ensures rest[i] in keys && IndexOf(keys, rest[i]) == IndexOf(keys[1..], rest[i]) + 1
    {
      ShiftedIndex(keys, rest[i]);
    }
  }

  lemma ShiftedIndex(keys: seq<string>, x: string)
    requires |keys| > 0 && x in keys[1..] && x != keys[0]
    ensures x in keys && IndexOf(keys, x) == IndexOf(keys[1..], x) + 1
  {
    var j := IndexOf(keys[1..], x);
    assert keys[j + 1] == x;
  }

  /** Putting the head in front of an ordered selection of the tail keeps it ordered. */
  lemma OrderAfterHead(keys: seq<string>, rest: seq<string>)
    requires |keys| > 0 && keys[0] !in keys[1..]
    requires forall i :: 0 <= i < |rest| ==> rest[i] in keys[1..]
    requires forall i, j :: 0 <= i < j < |rest| ==> IndexOf(keys[1..], rest[i]) < IndexOf(keys[1..], rest[j])
    ensures forall i, j :: 0 <= i < j < |[keys[0]] + rest| ==>
              && ([keys[0]] + rest)[i] in keys && ([keys[0]] + rest)[j] in keys
              && IndexOf(keys, ([keys[0]] + rest)[i]) < IndexOf(keys, ([keys[0]] + rest)[j])
  {
    forall i, j | 0 <= i < j < |[keys[0]] + rest|
      ensures && ([keys[0]] + rest)[i] in keys && ([keys[0]] + rest)[j] in keys
              && IndexOf(keys, ([keys[0]] + rest)[i]) < IndexOf(keys, ([keys[0]] + rest)[j])
    {
      PairAfterHead(keys, rest, i, j);
    }
  }

  /** One pair of positions of the head followed by the selection. */
  lemma PairAfterHead(keys: seq<string>, rest: seq<string>, i: nat, j: nat)
    requires |keys| > 0 && keys[0] !in keys[1..]
    requires forall i :: 0 <= i < |rest| ==> rest[i] in keys[1..]
    requires forall i, j :: 0 <= i < j < |rest| ==> IndexOf(keys[1..], rest[i]) < IndexOf(keys[1..], rest[j])
    requires i < j < |rest| + 1
    ensures && ([keys[0]] + rest)[i] in keys && ([keys[0]] + rest)[j] in keys
            && IndexOf(keys, ([keys[0]] + rest)[i]) < IndexOf(keys, ([keys[0]] + rest)[j])
  {
    var x, y := ([keys[0]] + rest)[i], ([keys[0]] + rest)[j];
    assert y == rest[j - 1];
    assert y in keys[1..];
    if i > 0 {
      assert x == rest[i - 1];
      assert x in keys[1..];
      ShiftedPair(keys, x, y);
    } else {
      ShiftedIndex(keys, y);
    }
  }

  /** Two keys of the tail keep their relative order in the whole list. */
  lemma ShiftedPair(keys: seq<string>, x: string, y: string)
    requires |keys| > 0 && keys[0] !in keys[1..] && x in keys[1..] && y in keys[1..]
    requires IndexOf(keys[1..], x) < IndexOf(keys[1..], y)
    ensures x in keys && y in keys && IndexOf(keys, x) < IndexOf(keys, y)
  {
    ShiftedIndex(keys, x);
    ShiftedIndex(keys, y);
  }

  /** HeartbeatManager.clear_offline_devices: removes every offline record and keeps the
      online ones, in their order and unchanged; notifies only when something was removed. */
  function ClearOfflineDevices(reg: Registry): (r: (Registry, seq<Event>))
    requires Valid(reg)
    ensures Valid(r.0)
    ensures r.0.devices.Keys == OnlineKeys(reg.devices)
    ensures forall k :: k in r.0.devices ==> r.0.devices[k] == reg.devices[k]
    ensures r.0.order == OnlineOnly(reg.devices, reg.order)
    ensures r.1 == [StatusChanged] <==> exists k :: k in reg.devices && !reg.devices[k].isOnline
    ensures r.1 == [] <==> forall k :: k in reg.devices ==> reg.devices[k].isOnline
  {
    ClearedIsValid(reg);
    var anyOffline := exists k :: k in reg.devices && !reg.devices[k].isOnline;
    (Registry(OnlineRecords(reg.devices), OnlineOnly(reg.devices, reg.order)),
     if anyOffline then [StatusChanged] else [])
  }

  /** The online records of `devs`, each unchanged. */
  function OnlineRecords(devs: map<string, Device>): (m: map<string, Device>)
    ensures m.Keys == OnlineKeys(devs)
    ensures forall k :: k in m ==> m[k] == devs[k]
  {
    map k | k in devs && devs[k].isOnline :: devs[k]
  }

  lemma ClearedIsValid(reg: Registry)
    requires Valid(reg)
    ensures Valid(Registry(OnlineRecords(reg.devices), OnlineOnly(reg.devices, reg.order)))
  {
  }

  /** After clearing, nothing is offline and the online count is what it was. */
  lemma {:induction false} ClearLeavesOnlyOnline(reg: Registry)
    requires Valid(reg)
    ensures var cleared := ClearOfflineDevices(reg).0;
            && DeviceCount(cleared).offline == 0
            && DeviceCount(cleared).online == DeviceCount(reg).online
  {
    var cleared := ClearOfflineDevices(reg).0;
    assert OnlineKeys(cleared.devices) == cleared.devices.Keys;
    assert OnlineKeys(cleared.devices) == OnlineKeys(reg.devices);
  }

  // ----- status snapshots -----

  /** The text get_ping_color gives each latency class. */
  function PingColor(s: PingStatus): string {
    match s
    case Good => "#27ae60"
    case Fair => "#f39c12"
    case Poor => "#e74c3c"
    case Timeout => "#95a5a6"
    case Unknown => "#bdc3c7"
  }

  /** The marker get_ping_icon gives each latency class. */
  function PingIcon(s: PingStatus): string {
    match s
    case Good => "\U{1F7E2}"
    case Fair => "\U{1F7E1}"
    case Poor => "\U{1F534}"
    case Timeout => "\U{26AB}"
    case Unknown => "\U{26AA}"
  }

  /** Each latency class has its own colour and its own marker. */
  lemma PingPresentationDistinct(s: PingStatus, t: PingStatus)
    requires s != t
    ensures PingColor(s) != PingColor(t) && PingIcon(s) != PingIcon(t)
  {
  }

  const OnlineText: string := "\U{1F7E2} ONLINE"
  const OfflineText: string := "\U{1F534} OFFLINE"

  /** get_status_info's dictionary. The last heartbeat is its time of day; the uptime is
      the corrected one. */
  datatype StatusInfo = StatusInfo(
    name: string, ip: string, isOnline: bool, lastHeartbeat: Clock, heartbeatCount: nat,
    uptime: Clock, statusText: string, pingMs: real, pingStatus: PingStatus,
    pingColor: string, pingIcon: string)

  /** ESP32Device.get_status_info: the record's fields with derived text. */
  function GetStatusInfo(d: Device, now: int): (s: StatusInfo)
    ensures s.name == d.name && s.ip == d.ip && s.isOnline == d.isOnline
    ensures s.heartbeatCount == d.heartbeatCount && s.lastHeartbeat == TimeOfDay(d.lastHeartbeat)
    ensures s.pingMs == d.pingMs && s.pingStatus == d.pingStatus
    ensures s.statusText == (if d.isOnline then OnlineText else OfflineText)
    ensures s.uptime.hours * 3600 + s.uptime.minutes * 60 + s.uptime.seconds == (now - d.firstSeen) / MicrosPerSecond
  {
    StatusInfo(d.name, d.ip, d.isOnline, TimeOfDay(d.lastHeartbeat), d.heartbeatCount, Uptime(d, now),
               if d.isOnline then OnlineText else OfflineText,
               d.pingMs, d.pingStatus, PingColor(d.pingStatus), PingIcon(d.pingStatus))
  }

  /** For a device seen less than a day ago the record shows what the source shows. */
  lemma StatusUptimeWithinADay(d: Device, now: int)
    requires d.firstSeen <= now < d.firstSeen + SecondsPerDay * MicrosPerSecond
    ensures GetStatusInfo(d, now).uptime == UptimeAsWritten(d, now)
  {
    UptimeAgreesWithinADay(d, now);
  }

  /** HeartbeatManager.get_all_devices_status: one snapshot per device, in insertion order. */
  function AllDevicesStatus(reg: Registry, now: int): (r: seq<StatusInfo>)
    requires Valid(reg)
    ensures |r| == |reg.order| == |reg.devices|
    ensures forall i :: 0 <= i < |r| ==> r[i] == GetStatusInfo(reg.devices[reg.order[i]], now)
  {
    OrderLength(reg);
    var r := seq(|reg.order|, i requires 0 <= i < |reg.order| => GetStatusInfo(reg.devices[reg.order[i]], now));
    r
  }

  // ----- sequences of heartbeats -----

  /** The registry after the given heartbeats, each (name, address, time), in order. */
  function Replay(reg: Registry, beats: seq<(string, string, int)>): (r: Registry)
    requires Valid(reg)
    ensures Valid(r)
    ensures forall k :: k in reg.devices ==> k in r.devices
    decreases |beats|
  {
    if |beats| == 0 then reg
    else
      var (name, ip, t) := beats[0];
      Replay(UpdateDevice(reg, name, ip, t).0, beats[1..])
  }

  /** Heartbeats from one device at the times `ts`. */
  function Beats(name: string, ip: string, ts: seq<int>): (r: seq<(string, string, int)>)
    ensures |r| == |ts|
    ensures forall i :: 0 <= i < |ts| ==> r[i] == (name, ip, ts[i])
  {
    if |ts| == 0 then [] else [(name, ip, ts[0])] + Beats(name, ip, ts[1..])
  }

  /** Heartbeats from one device at times ts: counted once each, first seen at the first
      one, last heard at the last one, and online. */
  lemma {:induction false} ReplayOneDevice(name: string, ip: string, ts: seq<int>)
    requires |ts| > 0
    ensures var r := Replay(EmptyRegistry, Beats(name, ip, ts));
            var k := Key(name, ip);
            && k in r.devices
            && r.devices[k].heartbeatCount == |ts|
            && r.devices[k].firstSeen == ts[0]
            && r.devices[k].lastHeartbeat == ts[|ts| - 1]
            && r.devices[k].isOnline
            && r.order == [k]
  {
    var first := UpdateDevice(EmptyRegistry, name, ip, ts[0]).0;
    FirstBeat(name, ip, ts[0]);
    BeatsTail(name, ip, ts);
    ReplaySameDevice(first, name, ip, ts[1..]);
  }

  /** The first heartbeat into an empty registry creates the one record. */
  lemma FirstBeat(name: string, ip: string, t: int)
    ensures var r := UpdateDevice(EmptyRegistry, name, ip, t).0;
            var k := Key(name, ip);
            && Valid(r) && k in r.devices && r.order == [k]
            && r.devices[k].heartbeatCount == 1 && r.devices[k].firstSeen == t
            && r.devices[k].lastHeartbeat == t && r.devices[k].isOnline
  {
  }

  /** Replaying the beats at `ts` is the first beat, then the beats at the rest. */
  lemma BeatsTail(name: string, ip: string, ts: seq<int>)
    requires |ts| > 0
    ensures Replay(EmptyRegistry, Beats(name, ip, ts))
            == Replay(UpdateDevice(EmptyRegistry, name, ip, ts[0]).0, Beats(name, ip, ts[1..]))
  {
    assert Beats(name, ip, ts)[1..] == Beats(name, ip, ts[1..]);
  }

  /** Further heartbeats from an already registered device only renew its record. */
  lemma {:induction false} ReplaySameDevice(reg: Registry, name: string, ip: string, ts: seq<int>)
    requires Valid(reg) && Key(name, ip) in reg.devices
    ensures var r := Replay(reg, Beats(name, ip, ts));
            var k := Key(name, ip);
            && k in r.devices
            && r.devices[k].heartbeatCount == reg.devices[k].heartbeatCount + |ts|
            && r.devices[k].firstSeen == reg.devices[k].firstSeen
            && r.devices[k].lastHeartbeat == (if |ts| == 0 then reg.devices[k].lastHeartbeat else ts[|ts| - 1])
            && (|ts| > 0 ==> r.devices[k].isOnline)
            && r.order == reg.order
    decreases |ts|
  {
    if |ts| > 0 {
      var next := UpdateDevice(reg, name, ip, ts[0]).0;
      ReplaySameDevice(next, name, ip, ts[1..]);
    }
  }
}
