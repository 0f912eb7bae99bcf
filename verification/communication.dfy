/** CommunicationHandler of communication.py: the bounded log buffer, the packet counters,
    the connection status and the parser for the touch sensor's `Val:/Thr:/Stt:` lines.

    The wall clock is not read here: every operation that writes a log entry takes the
    already formatted `%H:%M:%S` timestamp, and the configured `max_log_entries` is passed
    as `maxEntries`. A UDP send is represented by its outcome. */
module Communication {
  import opened Wrappers
  import opened Text

  datatype ConnectionStatus = Disconnected | Connected

  /** The handler's current_state: the last raw touch flag, value and threshold, as text. */
  datatype TouchState = TouchState(rawTouch: string, value: string, threshold: string)

  const NotAvailable: string := "N/A"
  const InitialTouchState: TouchState := TouchState(NotAvailable, NotAvailable, NotAvailable)

  datatype Handler = Handler(
    logs: seq<string>,
    packetsSent: nat,
    packetsReceived: nat,
    status: ConnectionStatus,
    current: TouchState)

  /** A handler as CommunicationHandler.__init__ leaves it. */
  const InitialHandler: Handler := Handler([], 0, 0, Disconnected, InitialTouchState)

  /** The text of one log entry. */
  function LogEntry(timestamp: string, message: string): string {
    "[" + timestamp + "] " + message
  }

  /** Appends `entry` and, when that makes the buffer longer than `maxEntries`, drops the
      single oldest entry. */
  function Push(logs: seq<string>, maxEntries: int, entry: string): (r: seq<string>)
    ensures |r| == (if |logs| + 1 > maxEntries then |logs| else |logs| + 1)
    ensures r == (logs + [entry])[|logs| + 1 - |r|..]
    ensures |r| > 0 ==> r[|r| - 1] == entry
    ensures |logs| <= maxEntries ==> |r| <= maxEntries
  {
    var appended := logs + [entry];
    if |appended| > maxEntries then appended[1..] else appended
  }

  /** CommunicationHandler.add_log: one entry at the end, the oldest dropped on overflow;
      nothing but the log changes. */
  function AddLog(h: Handler, maxEntries: int, timestamp: string, message: string): (h': Handler)
    ensures h'.logs == Push(h.logs, maxEntries, LogEntry(timestamp, message))
    ensures h' == h.(logs := h'.logs)
    ensures maxEntries >= 1 ==> h'.logs[|h'.logs| - 1] == LogEntry(timestamp, message)
    ensures |h.logs| <= maxEntries ==> |h'.logs| <= maxEntries
  {
    h.(logs := Push(h.logs, maxEntries, LogEntry(timestamp, message)))
  }

  /** Pushes each entry in turn. */
  function PushAll(logs: seq<string>, maxEntries: int, entries: seq<string>): seq<string>
    decreases |entries|
  {
    if |entries| == 0 then logs else PushAll(Push(logs, maxEntries, entries[0]), maxEntries, entries[1..])
  }

  /** The last min(|all|, maxEntries) entries of `all`. */
  function Newest(all: seq<string>, maxEntries: nat): (r: seq<string>)
    ensures |r| == (if |all| <= maxEntries then |all| else maxEntries)
    ensures r == all[|all| - |r|..]
  {
    if |all| <= maxEntries then all else all[|all| - maxEntries..]
  }

  /** A buffer within its bound always holds the newest entries ever logged: after any
      number of appends it is the last min(total, maxEntries) of everything. */
  lemma {:induction false} PushAllKeepsNewest(logs: seq<string>, maxEntries: int, entries: seq<string>)
    requires |logs| <= maxEntries
    ensures PushAll(logs, maxEntries, entries) == Newest(logs + entries, maxEntries)
    decreases |entries|
  {
    if |entries| > 0 {
      var next := Push(logs, maxEntries, entries[0]);
      PushAllKeepsNewest(next, maxEntries, entries[1..]);
      PushWindow(logs, maxEntries, entries);
    } else {
      assert logs + entries == logs;
    }
  }

  /** Appending the first entry, then the rest, keeps the newest window of all of them. */
  lemma PushWindow(logs: seq<string>, maxEntries: nat, entries: seq<string>)
    requires |logs| <= maxEntries && |entries| > 0
    ensures Newest(Push(logs, maxEntries, entries[0]) + entries[1..], maxEntries) == Newest(logs + entries, maxEntries)
  {
    var all := logs + entries;
    var next := Push(logs, maxEntries, entries[0]);
    assert all == (logs + [entries[0]]) + entries[1..];
    if |logs| + 1 > maxEntries {
      assert next + entries[1..] == all[1..];
    } else {
      assert next + entries[1..] == all;
    }
  }

  /** CommunicationHandler.clear_logs: empties the buffer, then logs that it did; with a
      bound below one even that entry is dropped. */
  function ClearLogs(h: Handler, maxEntries: int, timestamp: string): (h': Handler)
    ensures maxEntries >= 1 ==> h'.logs == [LogEntry(timestamp, "Logs cleared")]
    ensures maxEntries < 1 ==> h'.logs == []
    ensures h' == h.(logs := h'.logs)
  {
    AddLog(h.(logs := []), maxEntries, timestamp, "Logs cleared")
  }

  /** What became of a UDP send: it went out, or the socket raised with this message. */
  datatype SendOutcome = Sent | SendFailed(reason: string)

  /** CommunicationHandler.send_udp_command: reports whether the send went out; only a sent
      command counts as a sent packet; either way one log entry says what happened. */
  function SendUdpCommand(h: Handler, command: string, outcome: SendOutcome, maxEntries: int, timestamp: string)
    : (r: (Handler, bool))
    ensures r.1 <==> outcome.Sent?
    ensures r.0.packetsSent == (if r.1 then h.packetsSent + 1 else h.packetsSent)
    ensures r.0.packetsReceived == h.packetsReceived && r.0.status == h.status && r.0.current == h.current
    ensures r.0.logs == Push(h.logs, maxEntries, LogEntry(timestamp,
              if r.1 then "Sent command: " + command
              else "Error sending command '" + command + "': " + outcome.reason))
  {
    match outcome
    case Sent =>
      (AddLog(h.(packetsSent := h.packetsSent + 1), maxEntries, timestamp, "Sent command: " + command), true)
    case SendFailed(reason) =>
      (AddLog(h, maxEntries, timestamp, "Error sending command '" + command + "': " + reason), false)
  }

  const ValueTag: string := "Val:"
  const ThresholdTag: string := "Thr:"
  const StatusTag: string := "Stt:"

  /** Python's message for `split()[0]` on an all-white-space string. */
  const IndexErrorText: string := "list index out of range"

  /** `line.split(tag)[1].split()[0]`: the first word after the first `tag`, None where
      Python would raise IndexError. */
  function WordAfter(line: string, tag: string): (r: Option<string>)
    requires |tag| > 0 && Contains(line, tag)
    ensures r.None? <==> AllSpace(Py, AfterFirst(line, tag).value)
    ensures r.Some? ==> |r.value| > 0 && NoSpace(Py, r.value)
  {
    FirstToken(AfterFirst(line, tag).value)
  }

  /** The touch state after parsing a line, and whether parsing got to the end. */
  datatype ParseResult = ParseResult(state: TouchState, ok: bool)

  /** The assignments of _parse_data_line, in its order: value, threshold, raw touch flag,
      each only when its tag occurs. A tag followed by nothing but white space raises, and
      the assignments made before it stay made. */
  function ParseFields(cur: TouchState, line: string): (r: ParseResult)
    ensures r.ok <==> (Contains(line, ValueTag) ==> WordAfter(line, ValueTag).Some?)
                      && (Contains(line, ThresholdTag) ==> WordAfter(line, ThresholdTag).Some?)
    ensures Contains(line, ValueTag) && WordAfter(line, ValueTag).Some? ==>
              r.state.value == WordAfter(line, ValueTag).value
    ensures !(Contains(line, ValueTag) && WordAfter(line, ValueTag).Some?) ==> r.state.value == cur.value
    ensures r.ok && Contains(line, ThresholdTag) ==> r.state.threshold == WordAfter(line, ThresholdTag).value
    ensures !(r.ok && Contains(line, ThresholdTag)) ==> r.state.threshold == cur.threshold
    ensures r.ok && Contains(line, StatusTag) ==>
              r.state.rawTouch == Strip(Py, AfterFirst(line, StatusTag).value) && IsStripped(Py, r.state.rawTouch)
    ensures !(r.ok && Contains(line, StatusTag)) ==> r.state.rawTouch == cur.rawTouch
  {
    var afterValue :=
      if !Contains(line, ValueTag) then Some(cur)
      else match WordAfter(line, ValueTag)
           case None => None
           case Some(v) => Some(cur.(value := v));
    match afterValue
    case None => ParseResult(cur, false)
    case Some(s1) =>
      var afterThreshold :=
        if !Contains(line, ThresholdTag) then Some(s1)
        else match WordAfter(line, ThresholdTag)
             case None => None
             case Some(t) => Some(s1.(threshold := t));
      match afterThreshold
      case None => ParseResult(s1, false)
      case Some(s2) =>
        var s3 := if Contains(line, StatusTag)
                  then s2.(rawTouch := Strip(Py, AfterFirst(line, StatusTag).value))
                  else s2;
        ParseResult(s3, true)
  }

  /** CommunicationHandler._parse_data_line: stores what it parsed; notifies the listener
      when parsing got to the end, and logs the error otherwise. */
  function ParseDataLine(h: Handler, line: string, maxEntries: int, timestamp: string): (r: (Handler, bool))
    ensures r.1 <==> ParseFields(h.current, line).ok
    ensures r.0.current == ParseFields(h.current, line).state
    ensures r.0.packetsSent == h.packetsSent && r.0.packetsReceived == h.packetsReceived && r.0.status == h.status
    ensures r.1 ==> r.0.logs == h.logs
    ensures !r.1 ==> r.0.logs == Push(h.logs, maxEntries, LogEntry(timestamp, "Error parsing: " + IndexErrorText))
  {
    var parsed := ParseFields(h.current, line);
    if parsed.ok then (h.(current := parsed.state), true)
    else (AddLog(h.(current := parsed.state), maxEntries, timestamp, "Error parsing: " + IndexErrorText), false)
  }

  /** CommunicationHandler.handle_raw_udp_data: every datagram counts as received and marks
      the link connected, whatever the parser makes of it. */
  function HandleRawUdpData(h: Handler, line: string, maxEntries: int, timestamp: string): (r: (Handler, bool))
    ensures r.0.packetsReceived == h.packetsReceived + 1 && r.0.status == Connected
    ensures r.0.packetsSent == h.packetsSent
    ensures r.0.current == ParseFields(h.current, line).state
    ensures r.1 <==> ParseFields(h.current, line).ok
  {
    var h1 := h.(packetsReceived := h.packetsReceived + 1, status := Connected);
    ParseDataLine(h1, line, maxEntries, timestamp)
  }

  /** CommunicationHandler.handle_osc_data: an OSC message without arguments is ignored;
      otherwise its first argument is handled like a raw datagram. */
  function HandleOscData(h: Handler, args: seq<string>, maxEntries: int, timestamp: string): (r: (Handler, bool))
    ensures |args| == 0 ==> r == (h, false)
    ensures |args| > 0 ==> r == HandleRawUdpData(h, args[0], maxEntries, timestamp)
    ensures r.1 <==> |args| > 0 && ParseFields(h.current, args[0]).ok
    ensures r.0.packetsReceived == h.packetsReceived + (if |args| > 0 then 1 else 0)
    ensures |args| > 0 ==> r.0.status == Connected && r.0.current == ParseFields(h.current, args[0]).state
  {
    if |args| == 0 then (h, false) else HandleRawUdpData(h, args[0], maxEntries, timestamp)
  }

  /** An OSC message whose first argument is a formatted data line sets the touch state to
      the line's three fields, whatever arguments follow. */
  lemma {:induction false} OscDataLineSetsFields(h: Handler, value: string, threshold: string, status: string,
                                                 more: seq<string>, maxEntries: int, timestamp: string)
    requires WellFormedFields(value, threshold, status)
    ensures var r := HandleOscData(h, [DataLine(value, threshold, status)] + more, maxEntries, timestamp);
            && r.1 && r.0.current == TouchState(status, value, threshold)
            && r.0.packetsReceived == h.packetsReceived + 1 && r.0.status == Connected
  {
    ParseDataLineRoundTrip(h.current, value, threshold, status);
  }

  /** CommunicationHandler.reset_statistics: zeroes both counters and logs it; the touch
      state and the connection status are kept. */
  function ResetStatistics(h: Handler, maxEntries: int, timestamp: string): (h': Handler)
    ensures h'.packetsSent == 0 && h'.packetsReceived == 0
    ensures h'.current == h.current && h'.status == h.status
    ensures h'.logs == Push(h.logs, maxEntries, LogEntry(timestamp, "Statistics reset"))
  {
    AddLog(h.(packetsSent := 0, packetsReceived := 0), maxEntries, timestamp, "Statistics reset")
  }

  /** A data line as the firmware formats it. */
  function DataLine(value: string, threshold: string, status: string): string {
    ValueTag + " " + value + " " + ThresholdTag + " " + threshold + " " + StatusTag + " " + status
  }

  /** Holds none of the letters the tags start with. */
  predicate TagFree(s: string) {
    'V' !in s && 'T' !in s && 'S' !in s
  }

  /** The field conditions under which a data line parses back to its fields. */
  predicate WellFormedFields(value: string, threshold: string, status: string) {
    && TagFree(value) && TagFree(threshold) && TagFree(status)
    && |value| > 0 && NoSpace(Py, value) && |threshold| > 0 && NoSpace(Py, threshold)
    && IsStripped(Py, status)
  }

  lemma {:induction false} DataLineValue(value: string, threshold: string, status: string)
    requires WellFormedFields(value, threshold, status)
    ensures Contains(DataLine(value, threshold, status), ValueTag)
    ensures WordAfter(DataLine(value, threshold, status), ValueTag) == Some(value)
  {
    var rest := " " + ThresholdTag + " " + threshold + " " + StatusTag + " " + status;
    var post := " " + value + rest;
    ValueLayout(value, threshold, status);
    AfterFirstOfUnique(DataLine(value, threshold, status), [], ValueTag, post);
    FirstTokenOf(" ", value, rest);
  }

  lemma {:induction false} DataLineThreshold(value: string, threshold: string, status: string)
    requires WellFormedFields(value, threshold, status)
    ensures Contains(DataLine(value, threshold, status), ThresholdTag)
    ensures WordAfter(DataLine(value, threshold, status), ThresholdTag) == Some(threshold)
  {
    var pre := ValueTag + " " + value + " ";
    var rest := " " + StatusTag + " " + status;
    var post := " " + threshold + rest;
    ThresholdLayout(value, threshold, status);
    AfterFirstOfUnique(DataLine(value, threshold, status), pre, ThresholdTag, post);
    FirstTokenOf(" ", threshold, rest);
  }

  lemma {:induction false} DataLineStatus(value: string, threshold: string, status: string)
    requires WellFormedFields(value, threshold, status)
    ensures Contains(DataLine(value, threshold, status), StatusTag)
    ensures Strip(Py, AfterFirst(DataLine(value, threshold, status), StatusTag).value) == status
  {
    var pre := ValueTag + " " + value + " " + ThresholdTag + " " + threshold + " ";
    var post := " " + status;
    StatusLayout(value, threshold, status);
    AfterFirstOfUnique(DataLine(value, threshold, status), pre, StatusTag, post);
    StripSurrounded(Py, " ", status, []);
    assert " " + status + [] == post;
  }

  lemma ValueLayout(value: string, threshold: string, status: string)
    ensures DataLine(value, threshold, status)
            == [] + ValueTag + (" " + value + (" " + ThresholdTag + " " + threshold + " " + StatusTag + " " + status))
  {
  }

  lemma ThresholdLayout(value: string, threshold: string, status: string)
    ensures DataLine(value, threshold, status)
            == (ValueTag + " " + value + " ") + ThresholdTag + (" " + threshold + (" " + StatusTag + " " + status))
  {
  }

  lemma StatusLayout(value: string, threshold: string, status: string)
    ensures DataLine(value, threshold, status)
            == (ValueTag + " " + value + " " + ThresholdTag + " " + threshold + " ") + StatusTag + (" " + status)
  {
  }

  /** Parsing a formatted data line recovers the three fields it was built from. */
  lemma {:induction false} ParseDataLineRoundTrip(cur: TouchState, value: string, threshold: string, status: string)
    requires WellFormedFields(value, threshold, status)
    ensures ParseFields(cur, DataLine(value, threshold, status)) == ParseResult(TouchState(status, value, threshold), true)
  {
    DataLineValue(value, threshold, status);
    DataLineThreshold(value, threshold, status);
    DataLineStatus(value, threshold, status);
  }

  /** A line without any tag changes nothing and still counts as parsed. */
  lemma ParseUntaggedLine(cur: TouchState, line: string)
    requires !Contains(line, ValueTag) && !Contains(line, ThresholdTag) && !Contains(line, StatusTag)
    ensures ParseFields(cur, line) == ParseResult(cur, true)
  {
  }
}
