/** How the parts meet on the wire: the firmware's debug datagram is the line the
    telemetry handler parses, and the cylinder's commands are not commands of the LED
    firmware. */
module Link {
  import opened Text
  import opened Numerals
  import Communication
  import Xilanh
  import Firmware
  import LedStrip

  /** The firmware's debug datagram is a data line in the handler's format. */
  lemma DebugMessageIsDataLine(value: int, status: int)
    ensures Firmware.DebugMessage(value, status)
            == Communication.DataLine(IntToString(value), IntToString(Firmware.ReportedThreshold), IntToString(status))
  {
    DataLineSpelling(IntToString(value), IntToString(Firmware.ReportedThreshold), IntToString(status));
  }

  /** The firmware's format string spells out the handler's tags and separators. */
  lemma DataLineSpelling(value: string, threshold: string, status: string)
    ensures "Val: " + value + " Thr: " + threshold + " Stt: " + status
            == Communication.DataLine(value, threshold, status)
  {
    assert Communication.ValueTag + " " == "Val: ";
    assert " " + Communication.ThresholdTag + " " == " Thr: ";
    assert " " + Communication.StatusTag + " " == " Stt: ";
  }

  /** A printed integer is a well-formed data line field. */
  lemma NumeralField(n: int)
    ensures Communication.TagFree(IntToString(n))
    ensures |IntToString(n)| > 0 && NoSpace(Py, IntToString(n)) && IsStripped(Py, IntToString(n))
  {
    IntToStringShape(n);
    var s := IntToString(n);
    assert forall i :: 0 <= i < |s| ==> s[i] != 'V' && s[i] != 'T' && s[i] != 'S';
  }

  /** The handler receiving the firmware's debug datagram counts it and shows the sensor
      value, the reported threshold and the status the firmware printed. */
  lemma {:induction false} DebugMessageReachesHandler(h: Communication.Handler, value: int, status: int,
                                                      maxEntries: int, timestamp: string)
    ensures var r := Communication.HandleRawUdpData(h, Firmware.DebugMessage(value, status), maxEntries, timestamp);
            && r.1
            && r.0.packetsReceived == h.packetsReceived + 1
            && r.0.current == Communication.TouchState(IntToString(status), IntToString(value),
                                                       IntToString(Firmware.ReportedThreshold))
  {
    DebugMessageIsDataLine(value, status);
    NumeralField(value);
    NumeralField(Firmware.ReportedThreshold);
    NumeralField(status);
    Communication.ParseDataLineRoundTrip(h.current, IntToString(value), IntToString(Firmware.ReportedThreshold),
                                         IntToString(status));
  }

  /** A packet starting with 'X' matches none of the firmware's command prefixes and holds
      no leading number, so it parses to nothing. */
  lemma {:induction false} NoCommandStartsWithX(p: string, configMode: bool)
    requires |p| > 0 && p[0] == 'X'
    ensures Firmware.ParseCommand(p, configMode) == Firmware.Ignore
  {
    NotStartingWith(p, "CONFIG:");
    NotStartingWith(p, "LEDCTRL:");
    NotStartingWith(p, "LED:");
    NotStartingWith(p, "DIR:");
    NotStartingWith(p, "THRESHOLD:");
    assert p != "RAINBOW:START" && p != "UP" && p != "DOWN";
    assert !IsSpace(C, p[0]) && !IsDigit(p[0]);
    assert LeadingSpaces(C, p) == 0;
    assert p[0..] == p;
  }

  lemma NotStartingWith(p: string, q: string)
    requires |p| > 0 && |q| > 0 && p[0] != q[0]
    ensures !StartsWith(p, q)
  {
    if |q| <= |p| {
      assert p[..|q|][0] == p[0];
    }
  }

  /** The cylinder's command texts pass the firmware's packet buffer unchanged and parse
      to nothing. */
  lemma CylinderTextIsNoCommand(target: int, configMode: bool)
    requires target == Xilanh.Stopped || target == Xilanh.MovingDown || target == Xilanh.MovingUp
    ensures Firmware.PacketText(Xilanh.CommandFor(target)) == Xilanh.CommandFor(target)
    ensures Firmware.ParseCommand(Xilanh.CommandFor(target), configMode) == Firmware.Ignore
  {
    var p := Xilanh.CommandFor(target);
    assert '\0' !in p;
    NoCommandStartsWithX(p, configMode);
  }

  /** A cylinder command delivered to the LED firmware changes nothing and sends nothing. */
  lemma CylinderCommandIgnoredByFirmware(s: Firmware.State, target: int, now: int)
    requires Firmware.Inv(s) && LedStrip.IsU32(now)
    requires target == Xilanh.Stopped || target == Xilanh.MovingDown || target == Xilanh.MovingUp
    ensures Firmware.HandlePacket(s, Xilanh.CommandFor(target), now) == (s, [])
  {
    CylinderTextIsNoCommand(target, s.configMode);
  }
}
