/** The ESP32 firmware's control logic (esp32.cpp) apart from the strip itself: the UDP
    commands loop() dispatches, the touch processing that reports sensor readings and
    classifies touch releases, the main-effect sequence, and the serial (UART) line protocol
    of the touch controller.

    Global variables form one record; every step is a function from record to record that
    also returns what the firmware sends. millis() readings are passed in as `now`. OSC
    bursts to Resolume and debug datagrams to the laptop appear as outputs. */
module Firmware {
  import opened Wrappers
  import opened Text
  import opened Numerals
  import opened LedStrip

  /** A touch at least this long (ms) triggers the main effect. */
  const OperationTime: int := 2000
  /** Period (ms) of the unconditional sensor report. */
  const OscInterval: int := 100
  /** The threshold the sensor report always names. */
  const ReportedThreshold: int := 5147
  /** udp.read reads at most this many bytes into the 255-byte buffer. */
  const PacketCapacity: int := 254

  /** What the firmware sends: a debug datagram to the laptop, an OSC burst to Resolume
      (enable clips, back, main effect, init clips), or a threshold line to the touch
      controller. */
  datatype Output =
    | DebugUdp(text: string)
    | EnableOsc
    | BackOsc
    | MainOsc
    | InitOsc
    | PicThreshold(value: int)

  /** The touch globals: whether a touch is in progress, whether its EnableOsc went out,
      when it began, how long the last one lasted, and the pending effects. */
  datatype Touch = Touch(
    isTouched: bool,
    sentOscOnce: bool,
    start: int,
    lastDuration: int,
    waitingMainEffect: bool,
    mainEffectStarted: bool,
    waitInitAfterBack: bool,
    mainEffectStart: int,
    countdownInit: int)

  /** The sensor globals: the latest status and value from the touch controller, and the
      time and contents of the last report. */
  datatype Reading = Reading(status: int, value: int, lastReport: int, sentStatus: int, sentValue: int)

  /** Which of the touch controller's labels the next serial data line belongs to. */
  datatype Label = NoLabel | ValueLabel | StatusLabel

  datatype Uart = Uart(pending: Label, buffer: string)

  datatype State = State(
    configMode: bool,
    touchDisabled: bool,
    leds: Leds,
    rainbow: Rainbow,
    touch: Touch,
    reading: Reading,
    uart: Uart)

  /** The globals as declared. */
  const Initial: State := State(
    false, false, InitialLeds, InitialRainbow,
    Touch(false, false, 0, 0, false, false, false, 0, 0),
    Reading(-1, -1, 0, -2, -2),
    Uart(NoLabel, ""))

  /** What every step keeps: the strip's invariant and 32-bit clock readings. */
  predicate Inv(s: State) {
    && LedsInv(s.leds)
    && RainbowInv(s.rainbow)
    && IsU32(s.touch.start) && IsU32(s.touch.lastDuration) && IsU32(s.touch.countdownInit)
    && IsU32(s.reading.lastReport)
  }

  lemma InitialInv()
    ensures Inv(Initial)
  {
  }

  // ----- UDP commands -----

  /** The C string udp.read leaves in incomingPacket: at most PacketCapacity bytes, cut at
      the first NUL. */
  function PacketText(data: string): (p: string)
    ensures |p| <= PacketCapacity && '\0' !in p
    ensures |p| <= |data| && p == data[..|p|]
    ensures |data| <= PacketCapacity && '\0' !in data ==> p == data
  {
    var d := if |data| > PacketCapacity then data[..PacketCapacity] else data;
    if '\0' in d then d[..IndexOfChar(d, '\0')] else d
  }

  /** Arduino's String::indexOf(c, from): the first index at or after `from` holding `c`,
      or -1. */
  function IndexFrom(s: string, c: char, from: nat): (i: int)
    ensures -1 <= i < |s|
    ensures i >= 0 ==> from <= i && s[i] == c && forall j :: from <= j < i ==> s[j] != c
    ensures i == -1 ==> forall j :: from <= j < |s| ==> s[j] != c
    decreases |s| - from
  {
    if from >= |s| then -1
    else if s[from] == c then from
    else IndexFrom(s, c, from + 1)
  }

  /** The commands loop() understands. */
  datatype Command =
    | SetConfig(value: int)
    | LedControl(paint: Option<(LedTarget, Color)>)
    | StartRainbowEffect
    | SetLed(value: int)
    | SetDirection(value: int)
    | SetThreshold(value: int)
    | Up
    | Down
    | SetColor(color: Color)
    | Ignore

  /** The four fields of `<index>,<r>,<g>,<b>` as String::indexOf and substring cut them:
      present when there are three commas with a non-empty index before the first (the
      last field runs to the end, commas and all). */
  function LedControlFields(t: string): Option<(string, string, string, string)> {
    var first := IndexFrom(t, ',', 0);
    var second := IndexFrom(t, ',', first + 1);
    var third := IndexFrom(t, ',', second + 1);
    if first > 0 && second > 0 && third > 0 then
      Some((t[..first], t[first + 1..second], t[second + 1..third], t[third + 1..]))
    else None
  }

  /** The target an index field names: `ALL`, or the number toInt reads. */
  function TargetOf(x: string): LedTarget {
    if x == "ALL" then AllLeds else Index(Atoi(x))
  }

  /** The text after `LEDCTRL:`: a target and the colour to paint it. */
  function ParseLedControl(t: string): (r: Option<(LedTarget, Color)>)
    ensures r.Some? <==> LedControlFields(t).Some?
  {
    match LedControlFields(t)
    case None => None
    case Some((x, a, b, c)) => Some((TargetOf(x), Color(Atoi(a), Atoi(b), Atoi(c))))
  }

  /** sscanf(packet, "%d %d %d", &r, &g, &b) == 3: three integers separated by optional
      white space; None when fewer than three convert. */
  function ScanColor(p: string): (r: Option<Color>)
    ensures r.Some? ==> ScanInt(p).Some? && r.value.r == ScanInt(p).value.0
  {
    match ScanInt(p)
    case None => None
    case Some((red, rest1)) =>
      match ScanInt(rest1)
      case None => None
      case Some((green, rest2)) =>
        match ScanInt(rest2)
        case None => None
        case Some((blue, _)) => Some(Color(red, green, blue))
  }

  /** The command loop() reads from a packet, first matching branch first: the LEDCTRL:
      and RAINBOW:START commands only in config mode, anything unrecognised as a colour,
      and what is not even that is ignored. */
  function ParseCommand(p: string, configMode: bool): (c: Command)
    ensures c.LedControl? || c.StartRainbowEffect? ==> configMode
    ensures c.SetConfig? <==> StartsWith(p, "CONFIG:")
    ensures c.SetColor? ==> ScanColor(p) == Some(c.color)
    ensures c.Up? ==> p == "UP"
    ensures c.Down? ==> p == "DOWN"
  {
    if StartsWith(p, "CONFIG:") then SetConfig(Atoi(p[7..]))
    else if StartsWith(p, "LEDCTRL:") && configMode then LedControl(ParseLedControl(p[8..]))
    else if p == "RAINBOW:START" && configMode then StartRainbowEffect
    else if StartsWith(p, "LED:") then SetLed(Atoi(p[4..]))
    else if StartsWith(p, "DIR:") then SetDirection(Atoi(p[4..]))
    else if StartsWith(p, "THRESHOLD:") then SetThreshold(Atoi(p[10..]))
    else if p == "UP" then Up
    else if p == "DOWN" then Down
    else
      match ScanColor(p)
      case None => Ignore
      case Some(c) => SetColor(c)
  }

  /** One command's effect on the globals and what it sends. Commands never touch the
      touch, sensor or serial state; only THRESHOLD: sends anything. */
  function Execute(s: State, cmd: Command, now: int): (r: (State, seq<Output>))
    requires Inv(s) && IsU32(now)
    ensures Inv(r.0)
    ensures r.0.touch == s.touch && r.0.reading == s.reading && r.0.uart == s.uart
    ensures r.1 != [] <==> cmd.SetThreshold?
    ensures cmd.SetThreshold? ==> r == (s, [PicThreshold(cmd.value)])
    ensures cmd.SetConfig? ==>
              && (r.0.configMode <==> cmd.value == 1)
              && r.0.touchDisabled == r.0.configMode
              && (r.0.configMode ==> r.0.leds.enabled)
              && (!r.0.configMode ==> r.0.leds == s.leds)
    ensures !cmd.SetConfig? ==> r.0.configMode == s.configMode && r.0.touchDisabled == s.touchDisabled
    ensures r.0.rainbow != s.rainbow ==> cmd.StartRainbowEffect?
    ensures IsLedCommand(cmd) ==> r == (s.(leds := LedCommand(s.leds, cmd)), [])
    ensures cmd.Ignore? || (cmd.LedControl? && cmd.paint.None?) ==> r == (s, [])
  {
    match cmd
    case SetConfig(v) =>
      if v == 1 then (s.(configMode := true, touchDisabled := true, leds := s.leds.(enabled := true)), [])
      else (s.(configMode := false, touchDisabled := false), [])
    case StartRainbowEffect => (s.(rainbow := StartRainbow(s.rainbow, now)), [])
    case SetThreshold(v) => (s, [PicThreshold(v)])
    case Ignore => (s, [])
    case _ => (s.(leds := LedCommand(s.leds, cmd)), [])
  }

  /** The commands that only act on the strip: LEDCTRL:, LED:, DIR:, UP, DOWN, colours. */
  predicate IsLedCommand(cmd: Command) {
    !cmd.SetConfig? && !cmd.StartRainbowEffect? && !cmd.SetThreshold? && !cmd.Ignore?
  }

  /** Each strip command changes its own setting of the strip and nothing else. */
  function LedCommand(l: Leds, cmd: Command): (l': Leds)
    requires LedsInv(l) && IsLedCommand(cmd)
    ensures LedsInv(l')
    ensures l'.lastUpdate == l.lastUpdate
    ensures cmd.SetLed? ==> l' == SetEffect(l, cmd.value == 1)
    ensures l'.enabled == l.enabled || cmd.SetLed?
    ensures l'.count == l.count || cmd.SetLed?
    ensures l'.direction != l.direction ==> cmd.SetDirection?
    ensures cmd.SetDirection? ==> l'.direction == if cmd.value == 1 then 1 else 0
    ensures l'.brightness != l.brightness ==> cmd.Up? || cmd.Down?
    ensures l'.color != l.color ==> cmd.SetColor? && l'.color == cmd.color
    ensures l'.pixels != l.pixels ==> cmd.LedControl? || cmd.SetLed?
    ensures cmd.Up? ==> l'.brightness == BrightnessUp(l.brightness)
    ensures cmd.Down? ==> l'.brightness == BrightnessDown(l.brightness)
    ensures cmd.LedControl? ==> l'.pixels == if cmd.paint.None? then l.pixels
                                             else Paint(l.pixels, cmd.paint.value.0, cmd.paint.value.1)
  {
    match cmd
    case LedControl(paint) =>
      if paint.None? then l else l.(pixels := Paint(l.pixels, paint.value.0, paint.value.1))
    case SetLed(v) => SetEffect(l, v == 1)
    case SetDirection(v) => l.(direction := if v == 1 then 1 else 0)
    case Up => l.(brightness := BrightnessUp(l.brightness))
    case Down => l.(brightness := BrightnessDown(l.brightness))
    case SetColor(c) => l.(color := c)
  }

  /** A received datagram: its C string parsed and executed. */
  function HandlePacket(s: State, data: string, now: int): (r: (State, seq<Output>))
    requires Inv(s) && IsU32(now)
    ensures Inv(r.0)
    ensures r.0.touch == s.touch && r.0.reading == s.reading && r.0.uart == s.uart
    ensures r.1 != [] ==> StartsWith(PacketText(data), "THRESHOLD:")
    ensures r.0.leds.brightness != s.leds.brightness ==> PacketText(data) == "UP" || PacketText(data) == "DOWN"
    ensures r.0.leds.color != s.leds.color ==> ScanColor(PacketText(data)) == Some(r.0.leds.color)
    ensures r.0.configMode != s.configMode ==> StartsWith(PacketText(data), "CONFIG:")
  {
    Execute(s, ParseCommand(PacketText(data), s.configMode), now)
  }

  // ----- the commands as the laptop writes them -----

  /** The index field of a LEDCTRL: command. */
  function TargetText(t: LedTarget): string {
    match t
    case AllLeds => "ALL"
    case Index(i) => IntToString(i)
  }

  /** `<index>,<r>,<g>,<b>`. */
  function LedControlText(t: LedTarget, c: Color): string {
    TargetText(t) + "," + IntToString(c.r) + "," + IntToString(c.g) + "," + IntToString(c.b)
  }

  /** A colour command: three decimal numbers separated by single spaces. */
  function ColorText(c: Color): string {
    IntToString(c.r) + " " + IntToString(c.g) + " " + IntToString(c.b)
  }

  /** The packet that carries a command. */
  function CommandText(cmd: Command): string {
    match cmd
    case SetConfig(v) => "CONFIG:" + IntToString(v)
    case LedControl(paint) =>
      "LEDCTRL:" + (if paint.None? then "" else LedControlText(paint.value.0, paint.value.1))
    case StartRainbowEffect => "RAINBOW:START"
    case SetLed(v) => "LED:" + IntToString(v)
    case SetDirection(v) => "DIR:" + IntToString(v)
    case SetThreshold(v) => "THRESHOLD:" + IntToString(v)
    case Up => "UP"
    case Down => "DOWN"
    case SetColor(c) => ColorText(c)
    case Ignore => ""
  }

  /** Commands the firmware takes in the current mode: LEDCTRL: and RAINBOW:START only in
      config mode. */
  predicate Accepted(cmd: Command, configMode: bool) {
    cmd.LedControl? || cmd.StartRainbowEffect? ==> configMode
  }

  /** A string differing from a prefix at position k does not start with it. */
  lemma NotPrefix(p: string, q: string, k: nat)
    requires k < |q| && k < |p| && p[k] != q[k]
    ensures !StartsWith(p, q)
  {
  }

  lemma HasPrefix(q: string, rest: string)
    ensures StartsWith(q + rest, q) && (q + rest)[|q|..] == rest
  {
    assert (q + rest)[..|q|] == q;
  }

  /** A printed number has no NUL, comma or space, and starts with a digit or minus. */
  lemma NumberChars(n: int)
    ensures '\0' !in IntToString(n) && ',' !in IntToString(n) && ' ' !in IntToString(n)
    ensures IsDigit(IntToString(n)[0]) || IntToString(n)[0] == '-'
  {
    IntToStringShape(n);
  }

  /** indexOf finds the separator right after a separator-free stretch. */
  lemma {:induction false} IndexFromConcat(a: string, c: char, b: string, from: nat)
    requires from <= |a|
    requires forall j :: from <= j < |a| ==> a[j] != c
    ensures IndexFrom(a + [c] + b, c, from) == |a|
    decreases |a| - from
  {
    var s := a + [c] + b;
    if from < |a| {
      assert s[from] == a[from];
      IndexFromConcat(a, c, b, from + 1);
    } else {
      assert s[from] == c;
    }
  }

  /** Splitting `<x>,<rest>` at its first comma, when `x` has none. */
  lemma {:induction false} SplitAtComma(x: string, rest: string, from: nat)
    requires from <= |x| && ',' !in x
    ensures var t := x + "," + rest;
            && IndexFrom(t, ',', from) == |x|
            && t[..|x|] == x && t[|x| + 1..] == rest
  {
    var t := x + "," + rest;
    assert t == x + [','] + rest;
    IndexFromConcat(x, ',', rest, from);
    assert t[..|x|] == x;
    assert t[|x| + 1..] == rest;
  }

  /** Shifting the start of a search by an offset into a suffix. */
  lemma {:induction false} IndexFromSuffix(t: string, c: char, k: nat, from: nat)
    requires k <= from
    requires k <= |t|
    ensures IndexFrom(t, c, from) == (var j := IndexFrom(t[k..], c, from - k); if j == -1 then -1 else j + k)
    decreases |t| - from
  {
    if from < |t| {
      assert t[k..][from - k] == t[from];
      IndexFromSuffix(t, c, k, from + 1);
    }
  }

  /** indexOf from `k` finds the comma at `e`, and `f` is the text between. */
  predicate FieldEndsAt(t: string, k: nat, e: nat, f: string) {
    k <= e <= |t| && IndexFrom(t, ',', k) == e && t[k..e] == f
  }

  /** A comma-free field at position k of `t`, followed by a comma. */
  lemma {:induction false} FieldAt(t: string, k: nat, f: string, rest: string, e: nat)
    requires k <= |t| && t[k..] == f + "," + rest && ',' !in f && e == k + |f|
    ensures FieldEndsAt(t, k, e, f) && t[e + 1..] == rest
  {
    SplitAtComma(f, rest, 0);
    IndexFromSuffix(t, ',', k, k);
    assert t[k..k + |f|] == t[k..][..|f|];
    assert t[k + |f| + 1..] == t[k..][|f| + 1..];
  }

  /** indexOf splits four comma-free fields joined by commas back into the four. */
  lemma {:induction false} FourFields(t: string, x: string, a: string, b: string, c: string)
    requires ',' !in x && ',' !in a && ',' !in b && ',' !in c
    requires t == x + "," + (a + "," + (b + "," + c))
    ensures FieldEndsAt(t, 0, |x|, x)
    ensures FieldEndsAt(t, |x| + 1, |x| + 1 + |a|, a)
    ensures FieldEndsAt(t, |x| + 1 + |a| + 1, |x| + 1 + |a| + 1 + |b|, b)
    ensures t[|x| + 1 + |a| + 1 + |b| + 1..] == c
  {
    assert t[0..] == t;
    FieldAt(t, 0, x, a + "," + (b + "," + c), |x|);
    ThreeFields(t, |x| + 1, a, b, c);
  }

  /** The last three fields, starting at offset k. */
  lemma {:induction false} ThreeFields(t: string, k: nat, a: string, b: string, c: string)
    requires k <= |t| && ',' !in a && ',' !in b
    requires t[k..] == a + "," + (b + "," + c)
    ensures FieldEndsAt(t, k, k + |a|, a)
    ensures FieldEndsAt(t, k + |a| + 1, k + |a| + 1 + |b|, b)
    ensures t[k + |a| + 1 + |b| + 1..] == c
  {
    FieldAt(t, k, a, b + "," + c, k + |a|);
    FieldAt(t, k + |a| + 1, b, c, k + |a| + 1 + |b|);
  }

  lemma FourLayout(x: string, a: string, b: string, c: string)
    ensures x + "," + a + "," + b + "," + c == x + "," + (a + "," + (b + "," + c))
  {
  }

  /** Four comma-free fields joined by commas are cut back into the four. */
  lemma {:induction false} FieldsRoundTrip(x: string, a: string, b: string, c: string)
    requires |x| > 0 && ',' !in x && ',' !in a && ',' !in b && ',' !in c
    ensures LedControlFields(x + "," + a + "," + b + "," + c) == Some((x, a, b, c))
  {
    var t := x + "," + a + "," + b + "," + c;
    FourLayout(x, a, b, c);
    FourFields(t, x, a, b, c);
    assert t[..|x|] == t[0..|x|];
  }

  /** The index field reads back as its target. */
  lemma {:induction false} TargetTextRoundTrip(target: LedTarget)
    ensures |TargetText(target)| > 0 && ',' !in TargetText(target)
    ensures TargetOf(TargetText(target)) == target
  {
    if target.Index? {
      var x := TargetText(target);
      NumberChars(target.i);
      AtoiOfPrinted(target.i);
      assert x != "ALL" by {
        assert x[0] != 'A';
      }
    }
  }

  lemma {:induction false} AtoiOfPrinted(n: int)
    ensures Atoi(IntToString(n)) == n
  {
    AtoiOfIntToString(n, "");
    assert IntToString(n) + "" == IntToString(n);
  }

  /** A LEDCTRL: tail written by LedControlText parses back to its target and colour. */
  lemma {:induction false} LedControlRoundTrip(target: LedTarget, c: Color)
    ensures ParseLedControl(LedControlText(target, c)) == Some((target, c))
  {
    TargetTextRoundTrip(target);
    NumberChars(c.r);
    NumberChars(c.g);
    NumberChars(c.b);
    FieldsRoundTrip(TargetText(target), IntToString(c.r), IntToString(c.g), IntToString(c.b));
    AtoiOfPrinted(c.r);
    AtoiOfPrinted(c.g);
    AtoiOfPrinted(c.b);
  }

  /** sscanf's %d skips the white space before a number. */
  lemma {:induction false} ScanIntAfterSpace(t: string)
    requires |t| > 0 && !IsSpace(C, t[0])
    ensures ScanInt(" " + t) == ScanInt(t)
  {
    var s := " " + t;
    assert s[0] == ' ';
    assert s[1..] == t;
    LeadingSpacesOfConcat(C, " ", t);
    assert s[1..][0..] == t;
  }

  /** `" " + n + rest` scans as n, leaving `rest`. */
  lemma {:induction false} ScanSpacedNumber(n: int, rest: string)
    requires |rest| == 0 || !IsDigit(rest[0])
    ensures ScanInt(" " + IntToString(n) + rest) == Some((n, rest))
  {
    NumberChars(n);
    var t := IntToString(n) + rest;
    assert " " + IntToString(n) + rest == " " + t;
    assert t[0] == IntToString(n)[0];
    ScanIntAfterSpace(t);
    ScanIntOfIntToString(n, rest);
  }

  /** Three successful conversions make a colour. */
  lemma ScanColorOfThree(p: string, red: int, green: int, blue: int, rest1: string, rest2: string, rest3: string)
    requires ScanInt(p) == Some((red, rest1))
    requires ScanInt(rest1) == Some((green, rest2))
    requires ScanInt(rest2) == Some((blue, rest3))
    ensures ScanColor(p) == Some(Color(red, green, blue))
  {
  }

  /** What is left of a colour command after its red and after its green number. */
  function AfterRed(c: Color): string {
    " " + IntToString(c.g) + AfterGreen(c)
  }

  function AfterGreen(c: Color): string {
    " " + IntToString(c.b)
  }

  lemma {:induction false} ScanRed(c: Color)
    ensures ScanInt(ColorText(c)) == Some((c.r, AfterRed(c)))
  {
    assert ColorText(c) == IntToString(c.r) + AfterRed(c);
    ScanIntOfIntToString(c.r, AfterRed(c));
  }

  lemma {:induction false} ScanGreen(c: Color)
    ensures ScanInt(AfterRed(c)) == Some((c.g, AfterGreen(c)))
  {
    ScanSpacedNumber(c.g, AfterGreen(c));
  }

  lemma {:induction false} ScanBlue(c: Color)
    ensures ScanInt(AfterGreen(c)) == Some((c.b, ""))
  {
    assert AfterGreen(c) == " " + IntToString(c.b) + "";
    ScanSpacedNumber(c.b, "");
  }

  /** A colour command reads back as its colour. */
  lemma {:induction false} ScanColorRoundTrip(c: Color)
    ensures ScanColor(ColorText(c)) == Some(c)
  {
    ScanRed(c);
    ScanGreen(c);
    ScanBlue(c);
    ScanColorOfThree(ColorText(c), c.r, c.g, c.b, AfterRed(c), AfterGreen(c), "");
  }

  /** A command's packet is short and NUL-free enough to arrive whole. */
  predicate Fits(cmd: Command) {
    |CommandText(cmd)| <= PacketCapacity
  }

  lemma {:induction false} NoNulAfter(prefix: string, n: int)
    requires '\0' !in prefix
    ensures '\0' !in prefix + IntToString(n)
  {
    NumberChars(n);
  }

  lemma {:induction false} NoNulInColor(c: Color)
    ensures '\0' !in ColorText(c)
  {
    NoNulAfter("", c.r);
    assert "" + IntToString(c.r) == IntToString(c.r);
    NoNulAfter(IntToString(c.r) + " ", c.g);
    NoNulAfter(IntToString(c.r) + " " + IntToString(c.g) + " ", c.b);
  }

  lemma {:induction false} NoNulInLedControl(t: LedTarget, c: Color)
    ensures '\0' !in LedControlText(t, c)
  {
    var x := TargetText(t);
    assert '\0' !in x by {
      if t.Index? {
        NumberChars(t.i);
      }
    }
    NoNulAfter(x + ",", c.r);
    NoNulAfter(x + "," + IntToString(c.r) + ",", c.g);
    NoNulAfter(x + "," + IntToString(c.r) + "," + IntToString(c.g) + ",", c.b);
  }

  lemma {:induction false} NoNulInCommand(cmd: Command)
    ensures '\0' !in CommandText(cmd)
  {
    match cmd {
      case SetConfig(v) => NoNulAfter("CONFIG:", v);
      case LedControl(paint) =>
        if paint.Some? {
          NoNulInLedControl(paint.value.0, paint.value.1);
        }
      case SetLed(v) => NoNulAfter("LED:", v);
      case SetDirection(v) => NoNulAfter("DIR:", v);
      case SetThreshold(v) => NoNulAfter("THRESHOLD:", v);
      case SetColor(c) => NoNulInColor(c);
      case _ =>
    }
  }

  /** Each numeric command reads back as itself. */
  lemma {:induction false} NumericCommandRoundTrip(cmd: Command, configMode: bool)
    requires cmd.SetConfig? || cmd.SetLed? || cmd.SetDirection? || cmd.SetThreshold?
    ensures ParseCommand(CommandText(cmd), configMode) == cmd
  {
    AtoiOfPrinted(cmd.value);
    match cmd {
      case SetConfig(v) => ParsesAsConfig(IntToString(v), configMode);
      case SetLed(v) => ParsesAsLed(IntToString(v), configMode);
      case SetDirection(v) => ParsesAsDirection(IntToString(v), configMode);
      case SetThreshold(v) => ParsesAsThreshold(IntToString(v), configMode);
    }
  }

  lemma ParsesAsConfig(x: string, configMode: bool)
    ensures ParseCommand("CONFIG:" + x, configMode) == SetConfig(Atoi(x))
  {
    HasPrefix("CONFIG:", x);
  }

  lemma ParsesAsLed(x: string, configMode: bool)
    ensures ParseCommand("LED:" + x, configMode) == SetLed(Atoi(x))
  {
    var p := "LED:" + x;
    NotPrefix(p, "CONFIG:", 0);
    NotPrefix(p, "LEDCTRL:", 3);
    assert p != "RAINBOW:START" by { assert p[0] != "RAINBOW:START"[0]; }
    HasPrefix("LED:", x);
  }

  lemma ParsesAsDirection(x: string, configMode: bool)
    ensures ParseCommand("DIR:" + x, configMode) == SetDirection(Atoi(x))
  {
    var p := "DIR:" + x;
    NotPrefix(p, "CONFIG:", 0);
    NotPrefix(p, "LEDCTRL:", 0);
    assert p != "RAINBOW:START" by { assert p[0] != "RAINBOW:START"[0]; }
    NotPrefix(p, "LED:", 0);
    HasPrefix("DIR:", x);
  }

  lemma ParsesAsThreshold(x: string, configMode: bool)
    ensures ParseCommand("THRESHOLD:" + x, configMode) == SetThreshold(Atoi(x))
  {
    var p := "THRESHOLD:" + x;
    NotPrefix(p, "CONFIG:", 0);
    NotPrefix(p, "LEDCTRL:", 0);
    assert p != "RAINBOW:START" by { assert p[0] != "RAINBOW:START"[0]; }
    NotPrefix(p, "LED:", 0);
    NotPrefix(p, "DIR:", 0);
    HasPrefix("THRESHOLD:", x);
  }

  /** A packet that starts like a number is no keyword command: it is read as a colour. */
  lemma ParsesAsColor(p: string, configMode: bool)
    requires |p| > 0 && (IsDigit(p[0]) || p[0] == '-')
    ensures ParseCommand(p, configMode) == match ScanColor(p) case None => Ignore case Some(c) => SetColor(c)
  {
    assert p[0] != 'C' && p[0] != 'L' && p[0] != 'R' && p[0] != 'D' && p[0] != 'T' && p[0] != 'U';
    NotPrefix(p, "CONFIG:", 0);
    NotPrefix(p, "LEDCTRL:", 0);
    NotPrefix(p, "LED:", 0);
    NotPrefix(p, "DIR:", 0);
    NotPrefix(p, "THRESHOLD:", 0);
    assert p != "RAINBOW:START" by { assert p[0] != "RAINBOW:START"[0]; }
    assert p != "UP" by { assert p[0] != "UP"[0]; }
    assert p != "DOWN" by { assert p[0] != "DOWN"[0]; }
  }

  /** A colour command reads back as itself whatever the mode. */
  lemma {:induction false} ColorCommandRoundTrip(c: Color, configMode: bool)
    ensures ParseCommand(ColorText(c), configMode) == SetColor(c)
  {
    NumberChars(c.r);
    assert ColorText(c)[0] == IntToString(c.r)[0];
    ParsesAsColor(ColorText(c), configMode);
    ScanColorRoundTrip(c);
  }

  /** A LEDCTRL: command reads back as itself in config mode. */
  lemma {:induction false} LedControlCommandRoundTrip(paint: Option<(LedTarget, Color)>)
    ensures ParseCommand(CommandText(LedControl(paint)), true) == LedControl(paint)
  {
    var tail := if paint.None? then "" else LedControlText(paint.value.0, paint.value.1);
    var p := CommandText(LedControl(paint));
    NotPrefix(p, "CONFIG:", 0);
    HasPrefix("LEDCTRL:", tail);
    if paint.Some? {
      LedControlRoundTrip(paint.value.0, paint.value.1);
    }
  }

  /** Every command the firmware accepts in a mode reads back as itself from its packet
      text: CommandText and ParseCommand are inverse. */
  lemma {:induction false} CommandRoundTrip(cmd: Command, configMode: bool)
    requires Accepted(cmd, configMode)
    ensures ParseCommand(CommandText(cmd), configMode) == cmd
  {
    match cmd {
      case SetConfig(_) => NumericCommandRoundTrip(cmd, configMode);
      case LedControl(paint) => LedControlCommandRoundTrip(paint);
      case StartRainbowEffect =>
        NotPrefix("RAINBOW:START", "CONFIG:", 0);
        NotPrefix("RAINBOW:START", "LEDCTRL:", 0);
      case SetLed(_) => NumericCommandRoundTrip(cmd, configMode);
      case SetDirection(_) => NumericCommandRoundTrip(cmd, configMode);
      case SetThreshold(_) => NumericCommandRoundTrip(cmd, configMode);
      case Up =>
        NotPrefix("UP", "CONFIG:", 0);
      case Down =>
        NotPrefix("DOWN", "CONFIG:", 0);
        NotPrefix("DOWN", "LEDCTRL:", 0);
        NotPrefix("DOWN", "LED:", 0);
        NotPrefix("DOWN", "DIR:", 1);
      case SetColor(c) => ColorCommandRoundTrip(c, configMode);
      case Ignore =>
    }
  }

  /** Sending a command's packet executes exactly that command. */
  lemma {:induction false} PacketExecutesCommand(s: State, cmd: Command, now: int)
    requires Inv(s) && IsU32(now)
    requires Accepted(cmd, s.configMode) && Fits(cmd)
    ensures HandlePacket(s, CommandText(cmd), now) == Execute(s, cmd, now)
  {
    NoNulInCommand(cmd);
    CommandRoundTrip(cmd, s.configMode);
  }

  // ----- touch processing -----

  /** The sensor report processTouch sends to the laptop. */
  function DebugMessage(value: int, status: int): string {
    "Val: " + IntToString(value) + " Thr: " + IntToString(ReportedThreshold) + " Stt: " + IntToString(status)
  }

  /** Whether processTouch reports now: the reading changed since the last report, or the
      report interval has passed. */
  predicate ReportDue(rd: Reading, now: int)
    requires IsU32(now) && IsU32(rd.lastReport)
  {
    rd.status != rd.sentStatus || rd.value != rd.sentValue || Elapsed(now, rd.lastReport) >= OscInterval
  }

  /** The report step of processTouch: when due, sends the reading and remembers it. */
  function Report(rd: Reading, now: int): (r: (Reading, seq<Output>))
    requires IsU32(now) && IsU32(rd.lastReport)
    ensures IsU32(r.0.lastReport) && r.0.status == rd.status && r.0.value == rd.value
    ensures ReportDue(rd, now) ==>
              && r.1 == [DebugUdp(DebugMessage(rd.value, rd.status))]
              && r.0.sentStatus == rd.status && r.0.sentValue == rd.value && r.0.lastReport == now
    ensures !ReportDue(rd, now) ==> r == (rd, [])
    ensures !ReportDue(r.0, now) || r.0.lastReport == now
  {
    if ReportDue(rd, now) then
      (rd.(lastReport := now, sentStatus := rd.status, sentValue := rd.value), [DebugUdp(DebugMessage(rd.value, rd.status))])
    else (rd, [])
  }

  /** The touch step of processTouch for a fresh status: status 1 starts (or continues) a
      touch and sends EnableOsc once per touch; any other status ends a touch in progress,
      and its duration picks BackOsc (0 < d < OperationTime) or the main effect
      (d >= OperationTime). */
  function TouchStep(t: Touch, status: int, now: int): (r: (Touch, seq<Output>))
    requires IsU32(now) && IsU32(t.start) && IsU32(t.lastDuration) && IsU32(t.countdownInit)
    ensures IsU32(r.0.start) && IsU32(r.0.lastDuration) && IsU32(r.0.countdownInit)
    ensures status == 1 ==>
              && r.0.isTouched && r.0.sentOscOnce
              && r.0.start == (if t.isTouched then t.start else now)
              && (r.1 == [EnableOsc] <==> !t.isTouched || !t.sentOscOnce)
              && (r.1 == [] <==> t.isTouched && t.sentOscOnce)
    ensures status != 1 && !t.isTouched ==> r == (t, [])
    ensures status != 1 && t.isTouched ==>
              var d := Elapsed(now, t.start);
              && !r.0.isTouched && !r.0.sentOscOnce && r.0.lastDuration == d
              && (0 < d < OperationTime ==> r.1 == [BackOsc] && r.0.waitInitAfterBack && r.0.countdownInit == now)
              && (d >= OperationTime ==> r.1 == [MainOsc] && r.0.waitingMainEffect && r.0.mainEffectStart == now)
              && (d == 0 ==> r.1 == [])
  {
    if status == 1 then
      var t1 := if !t.isTouched then t.(isTouched := true, sentOscOnce := false, start := now) else t;
      if !t1.sentOscOnce then (t1.(sentOscOnce := true), [EnableOsc]) else (t1, [])
    else if t.isTouched then
      var d := Elapsed(now, t.start);
      var t1 := t.(isTouched := false, sentOscOnce := false, lastDuration := d);
      if d < OperationTime && d > 0 then (t1.(countdownInit := now, waitInitAfterBack := true), [BackOsc])
      else if d >= OperationTime then (t1.(waitingMainEffect := true, mainEffectStart := now), [MainOsc])
      else (t1, [])
    else (t, [])
  }

  /** processTouch: reports the reading when due; then, unless touch processing is off or
      there is no fresh status, runs the touch step and consumes the status (-1). The early
      return keeps the status as it was. */
  function ProcessTouch(s: State, now: int): (r: (State, seq<Output>))
    requires Inv(s) && IsU32(now)
    ensures Inv(r.0)
    ensures r.0.configMode == s.configMode && r.0.touchDisabled == s.touchDisabled
    ensures r.0.leds == s.leds && r.0.rainbow == s.rainbow && r.0.uart == s.uart
    ensures r.0.reading.value == s.reading.value
    ensures ReportDue(s.reading, now) <==> |r.1| > 0 && r.1[0] == DebugUdp(DebugMessage(s.reading.value, s.reading.status))
    ensures s.touchDisabled || s.reading.status == -1 ==>
              r.0.reading.status == s.reading.status && r.0.touch == s.touch
              && forall o :: o in r.1 ==> o.DebugUdp?
    ensures !s.touchDisabled && s.reading.status != -1 ==>
              && r.0.reading.status == -1
              && r.0.touch == TouchStep(s.touch, s.reading.status, now).0
              && r.1 == Report(s.reading, now).1 + TouchStep(s.touch, s.reading.status, now).1
  {
    var (rd, reported) := Report(s.reading, now);
    if s.touchDisabled || rd.status == -1 then (s.(reading := rd), reported)
    else
      var (t, touched) := TouchStep(s.touch, rd.status, now);
      (s.(reading := rd.(status := -1), touch := t), reported + touched)
  }

  /** A release after a touch that began at `start` ends in the main effect when it lasted
      at least OperationTime ms, in the back effect when shorter (but not zero). */
  lemma {:induction false} ReleaseClassification(s: State, start: int, now: int)
    requires Inv(s) && IsU32(start) && IsU32(now) && start <= now
    requires !s.touchDisabled && s.touch.isTouched && s.touch.start == start
    requires s.reading.status == 0
    ensures var r := ProcessTouch(s, now);
            && (now - start >= OperationTime ==> MainOsc in r.1 && BackOsc !in r.1 && r.0.touch.waitingMainEffect)
            && (0 < now - start < OperationTime ==> BackOsc in r.1 && MainOsc !in r.1 && r.0.touch.waitInitAfterBack)
            && !r.0.touch.isTouched && r.0.reading.status == -1
  {
    var rep := Report(s.reading, now).1;
    ReportsAreDebug(s.reading, now);
    if now - start >= OperationTime {
      TouchAfterReports(rep, MainOsc, BackOsc);
    } else if 0 < now - start {
      TouchAfterReports(rep, BackOsc, MainOsc);
    }
  }

  lemma ReportsAreDebug(rd: Reading, now: int)
    requires IsU32(now) && IsU32(rd.lastReport)
    ensures forall o :: o in Report(rd, now).1 ==> o.DebugUdp?
  {
  }

  /** A touch output sent after debug datagrams is among the outputs; another touch output
      is not. */
  lemma TouchAfterReports(rep: seq<Output>, o: Output, other: Output)
    requires forall x :: x in rep ==> x.DebugUdp?
    requires !o.DebugUdp? && !other.DebugUdp? && o != other
    ensures o in rep + [o] && other !in rep + [o]
  {
    assert (rep + [o])[|rep|] == o;
  }

  // ----- the effect part of loop() -----

  /** The main effect as loop() runs it: the Main burst, the rainbow that ends with the
      strip dark, the Init burst, and a reset of the touch and the reading; effects are on
      again afterwards. */
  function MainEffect(s: State): (r: (State, seq<Output>))
    requires Inv(s)
    ensures Inv(r.0)
    ensures r.1 == [MainOsc, InitOsc]
    ensures !r.0.touch.isTouched && !r.0.touch.sentOscOnce && !r.0.touch.waitingMainEffect
    ensures !r.0.touch.mainEffectStarted && r.0.touch.start == 0
    ensures r.0.reading.status == -1 && r.0.reading.value == -1
    ensures r.0.leds == s.leds.(enabled := true, pixels := Dark())
  {
    var t := s.touch.(start := 0, waitingMainEffect := false, mainEffectStarted := false,
                      isTouched := false, sentOscOnce := false);
    (s.(leds := s.leds.(enabled := true, pixels := Dark()), touch := t,
        reading := s.reading.(status := -1, value := -1)), [MainOsc, InitOsc])
  }

  /** Whether the touch has been held long enough for the main effect. */
  predicate LongHold(t: Touch, now: int)
    requires IsU32(now) && IsU32(t.start)
  {
    t.isTouched && !t.mainEffectStarted && Elapsed(now, t.start) >= OperationTime
  }

  /** Whether the Init burst after a back effect is due: millis() has reached the
      countdown start plus the last touch's duration, summed as unsigned long. */
  predicate InitDue(t: Touch, now: int) {
    t.waitInitAfterBack && now >= (t.countdownInit + t.lastDuration) % U32
  }

  /** The strip part of loop(): the rainbow timer, then, when no rainbow runs, one frame
      of the fill following the touch. */
  function StripTick(s: State, now: int, wheel: int -> Color): (s': State)
    requires Inv(s) && IsU32(now)
    ensures Inv(s')
    ensures s' == s.(leds := s'.leds, rainbow := s'.rainbow)
    ensures s'.leds.enabled == s.leds.enabled
  {
    var (rb, px) := RainbowTick(s.rainbow, s.leds.pixels, now, wheel);
    var l := s.leds.(pixels := px);
    s.(rainbow := rb, leds := if !rb.active then ApplyColorWithBrightness(l, s.touch.isTouched, now) else l)
  }

  /** A touch held for OperationTime ms arms the main effect, once per touch: the two
      flags rise exactly when the hold is long enough, and nothing else changes. */
  function ArmMainEffect(t: Touch, now: int): (t': Touch)
    requires IsU32(now) && IsU32(t.start)
    ensures t'.waitingMainEffect <==> t.waitingMainEffect || LongHold(t, now)
    ensures t'.mainEffectStarted <==> t.mainEffectStarted || LongHold(t, now)
    ensures t' == t.(waitingMainEffect := t'.waitingMainEffect, mainEffectStarted := t'.mainEffectStarted)
  {
    if LongHold(t, now) then t.(waitingMainEffect := true, mainEffectStarted := true) else t
  }

  /** Once armed, the same touch never arms the main effect again, whatever the clock
      reads later. */
  lemma ArmMainEffectOnce(t: Touch, now: int, later: int)
    requires IsU32(now) && IsU32(later) && IsU32(t.start)
    requires LongHold(t, now)
    ensures !LongHold(ArmMainEffect(t, now), later)
    ensures ArmMainEffect(ArmMainEffect(t, now), later) == ArmMainEffect(t, now)
  {
  }

  /** The Init burst once the back effect's wait is over: it is sent exactly when due, and
      it clears the wait and nothing else. */
  function InitStep(t: Touch, now: int): (r: (Touch, seq<Output>))
    ensures r.1 == [InitOsc] <==> InitDue(t, now)
    ensures r.1 == [] <==> !InitDue(t, now)
    ensures r.0.waitInitAfterBack <==> t.waitInitAfterBack && !InitDue(t, now)
    ensures r.0 == t.(waitInitAfterBack := r.0.waitInitAfterBack)
  {
    if InitDue(t, now) then (t.(waitInitAfterBack := false), [InitOsc]) else (t, [])
  }

  /** One back effect gets one Init burst: after it is sent, no later reading of the clock
      sends another until a new back effect sets the wait again. */
  lemma InitStepOnce(t: Touch, now: int, later: int)
    requires InitDue(t, now)
    ensures InitStep(InitStep(t, now).0, later) == (InitStep(t, now).0, [])
  {
  }

  /** The effect part of one loop() pass: the strip; a touch held for OperationTime ms
      arms the main effect, which then runs; and the Init burst once the back effect's
      wait is over. `now` is the clock for the strip and the hold test; `later` is the
      clock for the Init test, read after the main effect's blocking animation when it ran.
      `wheel` is the library's hue-to-colour conversion. */
  function EffectTick(s: State, now: int, later: int, wheel: int -> Color): (r: (State, seq<Output>))
    requires Inv(s) && IsU32(now) && IsU32(later)
    ensures Inv(r.0)
    ensures r.0.configMode == s.configMode && r.0.touchDisabled == s.touchDisabled && r.0.uart == s.uart
    ensures LongHold(s.touch, now) || s.touch.waitingMainEffect ==>
              && |r.1| >= 2 && r.1[0] == MainOsc && r.1[1] == InitOsc
              && !r.0.touch.isTouched && r.0.reading.status == -1 && r.0.leds.enabled
    ensures !LongHold(s.touch, now) && !s.touch.waitingMainEffect ==> MainOsc !in r.1
    ensures r.0.touch.waitInitAfterBack <==> s.touch.waitInitAfterBack && !InitDue(s.touch, later)
    ensures InitDue(s.touch, later) ==> |r.1| > 0 && r.1[|r.1| - 1] == InitOsc
    ensures !LongHold(s.touch, now) && !s.touch.waitingMainEffect ==> (InitOsc in r.1 <==> InitDue(s.touch, later))
  {
    var s1 := StripTick(s, now, wheel);
    var s2 := s1.(touch := ArmMainEffect(s1.touch, now));
    var (s3, out) := if s2.touch.waitingMainEffect then MainEffect(s2) else (s2, []);
    var (t4, init) := InitStep(s3.touch, later);
    (s3.(touch := t4), out + init)
  }

  /** A touch held for OperationTime ms fires the main effect on the next pass even before
      it is released, and leaves the firmware ready for the next touch. */
  lemma {:induction false} LongHoldFiresMainEffect(s: State, now: int, wheel: int -> Color)
    requires Inv(s) && IsU32(now) && s.touch.start <= now
    requires s.touch.isTouched && !s.touch.mainEffectStarted && now - s.touch.start >= OperationTime
    ensures var r := EffectTick(s, now, now, wheel);
            MainOsc in r.1 && !r.0.touch.isTouched && !r.0.touch.waitingMainEffect
  {
    assert LongHold(s.touch, now);
    var r := EffectTick(s, now, now, wheel);
    assert r.1[0] == MainOsc;
  }

  // ----- serial line protocol -----

  /** The reading after a data line: the labelled field takes the line's number. */
  function Absorb(rd: Reading, tag: Label, v: int): (r: (Reading, bool))
    ensures r.1 <==> (tag == ValueLabel && v != rd.value) || (tag == StatusLabel && v != rd.status)
    ensures tag == ValueLabel ==> r.0 == rd.(value := v)
    ensures tag == StatusLabel ==> r.0 == rd.(status := v)
    ensures tag == NoLabel ==> r.0 == rd
  {
    if tag == ValueLabel && v != rd.value then (rd.(value := v), true)
    else if tag == StatusLabel && v != rd.status then (rd.(status := v), true)
    else (rd, false)
  }

  /** One complete, trimmed serial line from the touch controller: `value` or `status`
      announces what the next line holds; any other line is data for the announced label
      (ignored without one), clears the label, and runs processTouch when it changed the
      reading and touch processing is on. */
  function UartLine(s: State, line: string, now: int): (r: (State, seq<Output>))
    requires Inv(s) && IsU32(now)
    ensures Inv(r.0)
    ensures line == "value" ==> r == (s.(uart := s.uart.(pending := ValueLabel)), [])
    ensures line == "status" ==> r == (s.(uart := s.uart.(pending := StatusLabel)), [])
    ensures line != "value" && line != "status" ==>
              && r.0.uart.pending == NoLabel
              && (Absorb(s.reading, s.uart.pending, Atoi(line)).1 && !s.touchDisabled ==>
                    r == ProcessTouch(s.(reading := Absorb(s.reading, s.uart.pending, Atoi(line)).0,
                                         uart := s.uart.(pending := NoLabel)), now))
              && (!Absorb(s.reading, s.uart.pending, Atoi(line)).1 || s.touchDisabled ==>
                    r == (s.(reading := Absorb(s.reading, s.uart.pending, Atoi(line)).0,
                             uart := s.uart.(pending := NoLabel)), []))
  {
    if line == "value" then (s.(uart := s.uart.(pending := ValueLabel)), [])
    else if line == "status" then (s.(uart := s.uart.(pending := StatusLabel)), [])
    else
      var (rd, updated) := Absorb(s.reading, s.uart.pending, Atoi(line));
      var s1 := s.(reading := rd, uart := s.uart.(pending := NoLabel));
      if updated && !s.touchDisabled then ProcessTouch(s1, now) else (s1, [])
  }

  /** One character from the serial port: a newline completes the buffered line, which is
      trimmed of C white space, handled, and cleared; any other character is buffered. */
  function UartChar(s: State, c: char, now: int): (r: (State, seq<Output>))
    requires Inv(s) && IsU32(now)
    ensures Inv(r.0)
    ensures c != '\n' ==> r == (s.(uart := s.uart.(buffer := s.uart.buffer + [c])), [])
    ensures c == '\n' ==> r.0.uart.buffer == ""
    ensures c == '\n' ==> r == Handled(UartLine(s, Strip(C, s.uart.buffer), now))
  {
    if c == '\n' then Handled(UartLine(s, Strip(C, s.uart.buffer), now))
    else (s.(uart := s.uart.(buffer := s.uart.buffer + [c])), [])
  }

  /** The result of handling a line, with the buffer emptied. */
  function Handled(r: (State, seq<Output>)): (State, seq<Output>) {
    (r.0.(uart := r.0.uart.(buffer := "")), r.1)
  }

  /** A firmware state that keeps the invariant. */
  type Good = s: State | Inv(s) witness Initial

  /** Running a step over characters in order, collecting the outputs of every step. */
  function Fold(step: (Good, char) -> (Good, seq<Output>), s: Good, chars: string): (Good, seq<Output>)
    decreases |chars|
  {
    if |chars| == 0 then (s, [])
    else
      var first := step(s, chars[0]);
      var rest := Fold(step, first.0, chars[1..]);
      (rest.0, first.1 + rest.1)
  }

  /** Folding over two stretches of characters is folding over one after the other. */
  lemma {:induction false} FoldConcat(step: (Good, char) -> (Good, seq<Output>), s: Good, a: string, b: string)
    ensures var first := Fold(step, s, a);
            var second := Fold(step, first.0, b);
            Fold(step, s, a + b) == (second.0, first.1 + second.1)
    decreases |a|
  {
    if |a| == 0 {
      assert a + b == b;
      assert [] + Fold(step, s, b).1 == Fold(step, s, b).1;
    } else {
      var first := step(s, a[0]);
      assert (a + b)[0] == a[0];
      assert (a + b)[1..] == a[1..] + b;
      FoldConcat(step, first.0, a[1..], b);
      var mid := Fold(step, first.0, a[1..]);
      var rest := Fold(step, mid.0, b);
      assert first.1 + (mid.1 + rest.1) == (first.1 + mid.1) + rest.1;
    }
  }

  /** The serial reader's step at clock reading `now`. */
  function CharStep(now: int): (Good, char) -> (Good, seq<Output>)
    requires IsU32(now)
  {
    (t: Good, c: char) => UartChar(t, c, now)
  }

  /** The `while (SerialPIC.available())` loop over the characters that arrived. */
  function UartFeed(s: State, chars: string, now: int): (r: (State, seq<Output>))
    requires Inv(s) && IsU32(now)
    ensures Inv(r.0)
  {
    Fold(CharStep(now), s, chars)
  }

  /** Feeding characters is handling the first one and feeding the rest. */
  lemma UartFeedCons(s: State, chars: string, now: int)
    requires Inv(s) && IsU32(now) && |chars| > 0
    ensures var first := UartChar(s, chars[0], now);
            var rest := UartFeed(first.0, chars[1..], now);
            UartFeed(s, chars, now) == (rest.0, first.1 + rest.1)
  {
  }

  /** UartLine does not look at the buffer. */
  lemma UartLineIgnoresBuffer(s: State, s': State, line: string, now: int)
    requires Inv(s) && IsU32(now) && s' == s.(uart := s.uart.(buffer := s'.uart.buffer))
    ensures Handled(UartLine(s, line, now)) == Handled(UartLine(s', line, now))
  {
  }

  /** Feeding two stretches of characters is feeding one after the other. */
  lemma UartFeedConcat(s: State, a: string, b: string, now: int)
    requires Inv(s) && IsU32(now)
    ensures var first := UartFeed(s, a, now);
            var second := UartFeed(first.0, b, now);
            UartFeed(s, a + b, now) == (second.0, first.1 + second.1)
  {
    FoldConcat(CharStep(now), s, a, b);
  }

  /** Characters without a newline only accumulate in the buffer. */
  lemma {:induction false} UartFeedBuffers(s: State, w: string, now: int)
    requires Inv(s) && IsU32(now) && '\n' !in w
    ensures UartFeed(s, w, now) == (s.(uart := s.uart.(buffer := s.uart.buffer + w)), [])
    decreases |w|
  {
    if |w| == 0 {
      assert s.uart.buffer + w == s.uart.buffer;
    } else {
      var s1 := s.(uart := s.uart.(buffer := s.uart.buffer + [w[0]]));
      assert w[0] != '\n' by {
        assert w[0] in w;
      }
      assert '\n' !in w[1..] by {
        forall j | 0 <= j < |w[1..]|
          ensures w[1..][j] != '\n'
        {
          assert w[1..][j] == w[j + 1];
        }
      }
      UartFeedBuffers(s1, w[1..], now);
      assert s1.uart.buffer + w[1..] == s.uart.buffer + w;
      assert UartChar(s, w[0], now) == (s1, []);
      UartFeedCons(s, w, now);
      assert UartFeed(s, w, now) == (UartFeed(s1, w[1..], now).0, [] + UartFeed(s1, w[1..], now).1);
      assert UartFeed(s1, w[1..], now).0 == s.(uart := s.uart.(buffer := s.uart.buffer + w));
      assert UartFeed(s1, w[1..], now).1 == [];
      var empty: seq<Output> := [];
      assert empty + empty == empty;
      assert UartFeed(s, w, now).1 == empty;
      assert UartFeed(s, w, now).0 == s.(uart := s.uart.(buffer := s.uart.buffer + w));
    }
  }

  /** A newline hands the buffered line, trimmed, to UartLine and empties the buffer. */
  lemma UartFeedNewline(s: State, now: int)
    requires Inv(s) && IsU32(now)
    ensures UartFeed(s, "\n", now) == Handled(UartLine(s, Strip(C, s.uart.buffer), now))
  {
    assert "\n"[1..] == [];
    UartFeedCons(s, "\n", now);
    var h := Handled(UartLine(s, Strip(C, s.uart.buffer), now));
    assert h.1 + [] == h.1;
  }

  /** A line `w` sent with its newline is handled exactly as its trimmed text, with
      whatever the buffer already held in front of it, and leaves the buffer empty. */
  lemma {:induction false} UartFeedLine(s: State, w: string, now: int)
    requires Inv(s) && IsU32(now) && '\n' !in w
    ensures UartFeed(s, w + "\n", now) == Handled(UartLine(s, Strip(C, s.uart.buffer + w), now))
  {
    var s1 := s.(uart := s.uart.(buffer := s.uart.buffer + w));
    var line := Strip(C, s.uart.buffer + w);
    var h := Handled(UartLine(s1, line, now));
    calc {
      UartFeed(s, w + "\n", now);
    == { UartFeedConcat(s, w, "\n", now); }
      (UartFeed(UartFeed(s, w, now).0, "\n", now).0, UartFeed(s, w, now).1 + UartFeed(UartFeed(s, w, now).0, "\n", now).1);
    == { UartFeedBuffers(s, w, now); }
      (UartFeed(s1, "\n", now).0, [] + UartFeed(s1, "\n", now).1);
    == { UartFeedNewline(s1, now); assert [] + h.1 == h.1; }
      h;
    == { UartLineIgnoresBuffer(s, s1, line, now); }
      Handled(UartLine(s, line, now));
    }
  }

  /** A status report of 1, with touch processing on and no touch in progress, starts a
      touch at `now` and sends EnableOsc. */
  lemma {:induction false} StatusOneStartsTouch(s: State, line: string, now: int)
    requires Inv(s) && IsU32(now)
    requires s.uart.pending == StatusLabel && !s.touchDisabled && !s.touch.isTouched
    requires line != "value" && line != "status" && Atoi(line) == 1 && s.reading.status != 1
    ensures var r := UartLine(s, line, now);
            && r.0.touch.isTouched && r.0.touch.start == now && EnableOsc in r.1
            && r.0.reading.status == -1 && r.0.uart.pending == NoLabel
  {
    var r := UartLine(s, line, now);
    var rd := s.reading.(status := 1);
    var rep := Report(rd, now).1;
    assert TouchStep(s.touch, 1, now).1 == [EnableOsc];
    assert r.1 == rep + [EnableOsc];
    assert r.1[|rep|] == EnableOsc;
  }

  // ----- one pass of loop() -----

  /** One pass of loop(): the datagram that arrived, if any; the effects; then the serial
      characters that arrived. The datagram, the strip and the hold test see the clock at
      `now`; the Init test and the serial input see it at `later`, a reading taken after the
      main effect's blocking animation when that ran. */
  function LoopPass(s: State, packet: Option<string>, serial: string, now: int, later: int, wheel: int -> Color)
    : (r: (State, seq<Output>))
    requires Inv(s) && IsU32(now) && IsU32(later)
    ensures Inv(r.0)
  {
    var (s1, out1) := if packet.Some? then HandlePacket(s, packet.value, now) else (s, []);
    var (s2, out2) := EffectTick(s1, now, later, wheel);
    var (s3, out3) := UartFeed(s2, serial, later);
    (s3, out1 + out2 + out3)
  }

  /** In config mode the touch controller's reports never trigger an effect: the serial
      input leaves the touch state alone and sends nothing, not even a sensor report. */
  lemma {:induction false} ConfigModeSilencesTouch(s: State, chars: string, now: int)
    requires Inv(s) && IsU32(now) && s.touchDisabled
    ensures var r := UartFeed(s, chars, now);
            r.0.touch == s.touch && r.0.touchDisabled && r.1 == []
    decreases |chars|
  {
    if |chars| > 0 {
      var s1 := UartChar(s, chars[0], now).0;
      UartFeedCons(s, chars, now);
      SilentChar(s, chars[0], now);
      ConfigModeSilencesTouch(s1, chars[1..], now);
    }
  }

  /** One serial character in config mode. */
  lemma SilentChar(s: State, c: char, now: int)
    requires Inv(s) && IsU32(now) && s.touchDisabled
    ensures var r := UartChar(s, c, now);
            r.0.touch == s.touch && r.0.touchDisabled && r.1 == []
  {
  }
}
