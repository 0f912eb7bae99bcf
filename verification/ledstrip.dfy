/** The LED strip of the ESP32 firmware (esp32.cpp): 150 pixels filled from one end while
    the sensor is touched and emptied otherwise, one pixel per frame, in the last colour set
    and scaled by the brightness; direct pixel painting in config mode; and the timing of
    the rainbow effect.

    millis() readings are passed in as `now`; they are unsigned 32-bit, so elapsed times
    wrap around. The strip's pixel buffer is a sequence of colours. */
module LedStrip {
  const NumLeds: int := 150
  /** Milliseconds between two frames. */
  const UpdateInterval: int := 5
  /** Duration (ms) of the rainbow effect. */
  const MainEffectTime: int := 6000
  const MaxBrightness: int := 255
  const MinBrightness: int := 1
  const BrightnessStep: int := 16
  const U32: int := 0x1_0000_0000

  predicate IsU32(x: int) {
    0 <= x < U32
  }

  /** `now - since` on unsigned long: the milliseconds from `since` to `now`, across a
      wrap-around of the counter. */
  function Elapsed(now: int, since: int): (e: int)
    requires IsU32(now) && IsU32(since)
    ensures IsU32(e)
    ensures now >= since ==> e == now - since
    ensures now < since ==> e == now - since + U32
  {
    (now - since) % U32
  }

  /** A colour given as three int components. */
  datatype Color = Color(r: int, g: int, b: int)

  const Off: Color := Color(0, 0, 0)

  /** The conversion of an int argument to uint8_t: the value modulo 256. */
  function Byte(x: int): (b: int)
    ensures 0 <= b < 256
    ensures 0 <= x < 256 ==> b == x
    ensures (x - b) % 256 == 0
  {
    x % 256
  }

  /** strip.Color(r, g, b): each component truncated to eight bits. */
  function PackColor(c: Color): (p: Color)
    ensures 0 <= p.r < 256 && 0 <= p.g < 256 && 0 <= p.b < 256
    ensures 0 <= c.r < 256 && 0 <= c.g < 256 && 0 <= c.b < 256 ==> p == c
  {
    Color(Byte(c.r), Byte(c.g), Byte(c.b))
  }

  /** C's int division, which truncates toward zero: the quotient leaves a remainder
      smaller than the divisor and of the dividend's sign. */
  function TruncDiv(a: int, b: int): (q: int)
    requires b > 0
    ensures a >= 0 ==> q == a / b
    ensures var m := a - q * b;
            && -b < m < b
            && (a >= 0 ==> 0 <= m)
            && (a <= 0 ==> m <= 0)
  {
    if a >= 0 then a / b else -((-a) / b)
  }

  const Int32Min: int := -0x8000_0000
  const Int32Max: int := 0x7FFF_FFFF

  /** A product stored in a C `int`: signed overflow is undefined in C; the model takes the
      two's-complement wrap, the value modulo 2^32 brought into [-2^31, 2^31). */
  function Int32(x: int): (w: int)
    ensures Int32Min <= w <= Int32Max
    ensures (x - w) % U32 == 0
    ensures Int32Min <= x <= Int32Max ==> w == x
  {
    (x - Int32Min) % U32 + Int32Min
  }

  /** `x * brightness / 255` on C ints: a component scaled by the brightness. The product
      wraps around when it leaves the int range. */
  function Dim(x: int, brightness: int): (y: int)
    ensures 0 <= x && 0 <= brightness <= MaxBrightness && x * brightness <= Int32Max ==> 0 <= y <= x
    ensures brightness == MaxBrightness && 0 <= x * MaxBrightness <= Int32Max ==> y == x
  {
    var p := x * brightness;
    if 0 <= x && 0 <= brightness <= MaxBrightness && p <= Int32Max then
      ScaledDown(x, brightness);
      TruncDiv(Int32(p), 255)
    else
      TruncDiv(Int32(p), 255)
  }

  /** A non-negative component times a brightness of at most 255, divided by 255, lies
      between zero and the component, and equals it at full brightness. */
  lemma ScaledDown(x: int, brightness: int)
    requires 0 <= x && 0 <= brightness <= MaxBrightness
    ensures 0 <= (x * brightness) / 255 <= x
    ensures brightness == MaxBrightness ==> (x * brightness) / 255 == x
  {
    ProductBound(x, brightness);
    QuotientBound(x * brightness, x);
  }

  lemma ProductBound(x: int, brightness: int)
    requires 0 <= x && 0 <= brightness <= MaxBrightness
    ensures 0 <= x * brightness <= x * 255
    ensures brightness == MaxBrightness ==> x * brightness == x * 255
  {
    assert x * (255 - brightness) >= 0;
  }

  lemma QuotientBound(p: int, x: int)
    requires 0 <= p <= x * 255
    ensures 0 <= p / 255 <= x
    ensures p == x * 255 ==> p / 255 == x
  {
  }

  /** A component of ten million at full brightness overflows the product and comes out
      negative. */
  lemma DimOverflows()
    ensures Dim(10_000_000, MaxBrightness) == -6_843_009
  {
    assert Int32(10_000_000 * MaxBrightness) == -1_744_967_296;
  }

  /** A byte-valued component never overflows the product, so dimming it never brightens it. */
  lemma DimByte(x: int, brightness: int)
    requires 0 <= x < 256 && 0 <= brightness <= MaxBrightness
    ensures 0 <= Dim(x, brightness) <= x
  {
    assert x * brightness <= 255 * 255 by {
      assert x * brightness <= x * 255;
    }
  }

  /** The colour scaled by the brightness, as a pixel holds it. */
  function Dimmed(c: Color, brightness: int): (p: Color)
    ensures 0 <= p.r < 256 && 0 <= p.g < 256 && 0 <= p.b < 256
    ensures 0 <= c.r < 256 && 0 <= c.g < 256 && 0 <= c.b < 256 && 0 <= brightness <= MaxBrightness ==>
              p.r <= c.r && p.g <= c.g && p.b <= c.b
  {
    if 0 <= c.r < 256 && 0 <= c.g < 256 && 0 <= c.b < 256 && 0 <= brightness <= MaxBrightness then
      DimByte(c.r, brightness);
      DimByte(c.g, brightness);
      DimByte(c.b, brightness);
      PackColor(Color(Dim(c.r, brightness), Dim(c.g, brightness), Dim(c.b, brightness)))
    else
      PackColor(Color(Dim(c.r, brightness), Dim(c.g, brightness), Dim(c.b, brightness)))
  }

  /** The strip's share of the firmware's globals: brightness, the last colour set, the
      fill counter, the time of the last frame, whether effects run, the fill direction,
      and the pixel buffer. */
  datatype Leds = Leds(
    brightness: int,
    color: Color,
    count: int,
    lastUpdate: int,
    enabled: bool,
    direction: int,
    pixels: seq<Color>)

  /** The globals as declared, with the strip dark. */
  const InitialLeds: Leds := Leds(255, Color(43, 159, 2), 0, 0, true, 1, seq(NumLeds, i => Off))

  /** Brightness within [1, 255], the counter within the strip, a direction of 0 or 1, one
      colour per pixel, and a 32-bit frame time. */
  predicate LedsInv(l: Leds) {
    && MinBrightness <= l.brightness <= MaxBrightness
    && 0 <= l.count <= NumLeds
    && (l.direction == 0 || l.direction == 1)
    && |l.pixels| == NumLeds
    && IsU32(l.lastUpdate)
  }

  lemma InitialLedsInv()
    ensures LedsInv(InitialLeds)
  {
  }

  /** Whether pixel `i` is lit when `count` pixels are: the first ones in direction 1, the
      last ones otherwise. */
  predicate ShouldLight(direction: int, count: int, i: int) {
    if direction == 1 then i < count else i >= NumLeds - count
  }

  /** The frame applyColorWithBrightness draws: `lit` where ShouldLight holds, dark
      elsewhere. */
  function Frame(direction: int, count: int, lit: Color): (f: seq<Color>)
    ensures |f| == NumLeds
    ensures forall i :: 0 <= i < NumLeds ==> f[i] == (if ShouldLight(direction, count, i) then lit else Off)
  {
    seq(NumLeds, i => if ShouldLight(direction, count, i) then lit else Off)
  }

  /** The indices of the lit pixels of a frame. */
  function LitIndices(direction: int, count: int): set<int> {
    set i | 0 <= i < NumLeds && ShouldLight(direction, count, i)
  }

  predicate Between(lo: int, i: int, hi: int) {
    lo <= i < hi
  }

  /** The integers in [lo, hi). */
  function Range(lo: int, hi: int): set<int> {
    set i | lo <= i < hi && Between(lo, i, hi)
  }

  lemma {:induction false} RangeSize(lo: int, hi: int)
    requires lo <= hi
    ensures |Range(lo, hi)| == hi - lo
    decreases hi - lo
  {
    if lo < hi {
      RangeSize(lo + 1, hi);
      assert Range(lo, hi) == Range(lo + 1, hi) + {lo};
    }
  }

  /** Exactly `count` pixels are lit, in either direction: the first `count` ones or the
      last `count` ones. */
  lemma {:induction false} LitPixelCount(direction: int, count: int)
    requires 0 <= count <= NumLeds
    ensures |LitIndices(direction, count)| == count
    ensures direction == 1 ==> LitIndices(direction, count) == Range(0, count)
    ensures direction != 1 ==> LitIndices(direction, count) == Range(NumLeds - count, NumLeds)
  {
    if direction == 1 {
      assert LitIndices(direction, count) == Range(0, count);
      RangeSize(0, count);
    } else {
      assert LitIndices(direction, count) == Range(NumLeds - count, NumLeds);
      RangeSize(NumLeds - count, NumLeds);
    }
  }

  /** The fill counter after one frame: one more while touched, one less otherwise, within
      [0, NumLeds]. */
  function NextCount(count: int, turnOn: bool): (c: int)
    requires 0 <= count <= NumLeds
    ensures 0 <= c <= NumLeds
    ensures turnOn ==> c == (if count < NumLeds then count + 1 else NumLeds)
    ensures !turnOn ==> c == (if count > 0 then count - 1 else 0)
  {
    if turnOn && count < NumLeds then count + 1
    else if !turnOn && count > 0 then count - 1
    else count
  }

  /** applyColorWithBrightness with the last colour: when effects run and at least
      UpdateInterval ms have passed since the last frame, moves the counter one step and
      redraws the strip with the dimmed colour on the lit pixels; otherwise changes
      nothing. */
  function ApplyColorWithBrightness(l: Leds, turnOn: bool, now: int): (l': Leds)
    requires LedsInv(l) && IsU32(now)
    ensures LedsInv(l')
    ensures !l.enabled || Elapsed(now, l.lastUpdate) < UpdateInterval ==> l' == l
    ensures l.enabled && Elapsed(now, l.lastUpdate) >= UpdateInterval ==>
              && l'.lastUpdate == now
              && l'.count == NextCount(l.count, turnOn)
              && l'.pixels == Frame(l.direction, l'.count, Dimmed(l.color, l.brightness))
              && l' == l.(lastUpdate := now, count := l'.count, pixels := l'.pixels)
  {
    if !l.enabled then l
    else if Elapsed(now, l.lastUpdate) >= UpdateInterval then
      var count := NextCount(l.count, turnOn);
      l.(lastUpdate := now, count := count, pixels := Frame(l.direction, count, Dimmed(l.color, l.brightness)))
    else l
  }

  /** Frames drawn with the sensor held fill the strip one pixel at a time: after a frame
      the lit pixels are exactly one more than before, until all are lit. */
  lemma {:induction false} FrameGrowsByOne(l: Leds, now: int)
    requires LedsInv(l) && IsU32(now) && l.enabled && Elapsed(now, l.lastUpdate) >= UpdateInterval
    requires l.count < NumLeds
    ensures var l' := ApplyColorWithBrightness(l, true, now);
            |LitIndices(l'.direction, l'.count)| == |LitIndices(l.direction, l.count)| + 1
  {
    var l' := ApplyColorWithBrightness(l, true, now);
    LitPixelCount(l.direction, l.count);
    LitPixelCount(l'.direction, l'.count);
  }

  /** A dark strip. */
  function Dark(): (p: seq<Color>)
    ensures |p| == NumLeds && forall i :: 0 <= i < NumLeds ==> p[i] == Off
  {
    seq(NumLeds, i => Off)
  }

  /** The effect switch of the LED: command: value 1 turns effects on; anything else turns
      them off, darkens the strip and empties the counter. */
  function SetEffect(l: Leds, on: bool): (l': Leds)
    requires LedsInv(l)
    ensures LedsInv(l')
    ensures l'.enabled == on
    ensures on ==> l' == l.(enabled := true)
    ensures !on ==> l' == l.(enabled := false, count := 0, pixels := Dark())
  {
    if on then l.(enabled := true) else l.(enabled := false, count := 0, pixels := Dark())
  }

  /** Which pixels a LEDCTRL: command paints: all of them, or the one at an index. */
  datatype LedTarget = AllLeds | Index(i: int)

  predicate Targets(t: LedTarget, i: int) {
    t.AllLeds? || t.i == i
  }

  /** Direct pixel control: the targeted pixels take the colour, every other pixel keeps
      its own; an index outside the strip paints nothing. */
  function Paint(pixels: seq<Color>, t: LedTarget, c: Color): (p: seq<Color>)
    requires |pixels| == NumLeds
    ensures |p| == NumLeds
    ensures forall i :: 0 <= i < NumLeds ==> p[i] == (if Targets(t, i) then PackColor(c) else pixels[i])
  {
    match t
    case AllLeds => seq(NumLeds, i => PackColor(c))
    case Index(k) => if 0 <= k < NumLeds then pixels[k := PackColor(c)] else pixels
  }

  /** Brightness UP: 16 more, at most 255. */
  function BrightnessUp(b: int): (b': int)
    requires MinBrightness <= b <= MaxBrightness
    ensures MinBrightness <= b' <= MaxBrightness && b <= b'
    ensures b' == MaxBrightness || b' == b + BrightnessStep
    ensures b' < b + BrightnessStep ==> b' == MaxBrightness
  {
    if b + BrightnessStep > MaxBrightness then MaxBrightness else b + BrightnessStep
  }

  /** Brightness DOWN: 16 less, at least 1. */
  function BrightnessDown(b: int): (b': int)
    requires MinBrightness <= b <= MaxBrightness
    ensures MinBrightness <= b' <= MaxBrightness && b' <= b
    ensures b' == MinBrightness || b' == b - BrightnessStep
    ensures b' > b - BrightnessStep ==> b' == MinBrightness
  {
    if b - BrightnessStep < MinBrightness then MinBrightness else b - BrightnessStep
  }

  /** Away from the limits, DOWN undoes UP and UP undoes DOWN. */
  lemma BrightnessStepsInverse(b: int)
    requires MinBrightness <= b <= MaxBrightness
    ensures b + BrightnessStep <= MaxBrightness ==> BrightnessDown(BrightnessUp(b)) == b
    ensures b - BrightnessStep >= MinBrightness ==> BrightnessUp(BrightnessDown(b)) == b
  {
  }

  /** Sixteen UP commands reach full brightness from any level. */
  lemma {:induction false} UpsReachFull(b: int, n: nat)
    requires MinBrightness <= b <= MaxBrightness
    ensures UpTimes(b, n) >= b
    ensures n >= 16 ==> UpTimes(b, n) == MaxBrightness
    decreases n
  {
    if n > 0 {
      UpsReachFull(BrightnessUp(b), n - 1);
      if n >= 16 {
        UpTimesBound(b, n);
      }
    }
  }

  /** `n` UP commands in a row. */
  function UpTimes(b: int, n: nat): (b': int)
    requires MinBrightness <= b <= MaxBrightness
    ensures MinBrightness <= b' <= MaxBrightness
    decreases n
  {
    if n == 0 then b else UpTimes(BrightnessUp(b), n - 1)
  }

  /** Each UP command brings the brightness at least 16 closer to full, or to full. */
  lemma {:induction false} UpTimesBound(b: int, n: nat)
    requires MinBrightness <= b <= MaxBrightness
    ensures UpTimes(b, n) == MaxBrightness || UpTimes(b, n) >= b + BrightnessStep * n
    decreases n
  {
    if n > 0 {
      UpTimesBound(BrightnessUp(b), n - 1);
    }
  }

  /** The rainbow effect's globals: whether it runs, when it started, its hue offset, and
      the time of its last frame. */
  datatype Rainbow = Rainbow(active: bool, start: int, offset: int, lastUpdate: int)

  const InitialRainbow: Rainbow := Rainbow(false, 0, 0, 0)

  predicate RainbowInv(rb: Rainbow) {
    IsU32(rb.start) && IsU32(rb.lastUpdate) && 0 <= rb.offset < 255
  }

  /** startRainbowEffect. */
  function StartRainbow(rb: Rainbow, now: int): (rb': Rainbow)
    requires RainbowInv(rb) && IsU32(now)
    ensures RainbowInv(rb') && rb'.active && rb'.start == now && rb'.offset == 0
    ensures rb'.lastUpdate == rb.lastUpdate
  {
    rb.(active := true, start := now, offset := 0)
  }

  /** The hue index of pixel `i` in a rainbow frame: (offset + i * (255 / 7)) % 255, kept in
      a uint8_t. */
  function HueAt(offset: int, i: int): (h: int)
    ensures 0 <= h < 255
  {
    (offset + i * (255 / 7)) % 255
  }

  /** updateRainbowEffect. A running rainbow stops once MainEffectTime ms have passed since
      it started and darkens the strip; before that, every UpdateInterval ms it draws a
      frame whose pixel `i` has the colour `wheel` gives for HueAt(offset, i), and advances
      the offset by 4 modulo 255. `wheel` stands for the NeoPixel library's gamma-corrected
      HSV conversion. */
  function RainbowTick(rb: Rainbow, pixels: seq<Color>, now: int, wheel: int -> Color): (r: (Rainbow, seq<Color>))
    requires RainbowInv(rb) && IsU32(now) && |pixels| == NumLeds
    ensures RainbowInv(r.0) && |r.1| == NumLeds
    ensures !rb.active ==> r == (rb, pixels)
    ensures rb.active && Elapsed(now, rb.start) >= MainEffectTime ==> r == (rb.(active := false), Dark())
    ensures rb.active && Elapsed(now, rb.start) < MainEffectTime ==>
              && r.0.active
              && (Elapsed(now, rb.lastUpdate) < UpdateInterval ==> r == (rb, pixels))
              && (Elapsed(now, rb.lastUpdate) >= UpdateInterval ==>
                    && r.0 == rb.(lastUpdate := now, offset := (rb.offset + 4) % 255)
                    && forall i :: 0 <= i < NumLeds ==> r.1[i] == wheel(HueAt(rb.offset, i)))
  {
    if !rb.active then (rb, pixels)
    else if Elapsed(now, rb.start) >= MainEffectTime then (rb.(active := false), Dark())
    else if Elapsed(now, rb.lastUpdate) >= UpdateInterval then
      (rb.(lastUpdate := now, offset := (rb.offset + 4) % 255), seq(NumLeds, i => wheel(HueAt(rb.offset, i))))
    else (rb, pixels)
  }

  /** A rainbow started at `start` is over at the first tick MainEffectTime ms later. */
  lemma RainbowEndsAfterEffectTime(rb: Rainbow, pixels: seq<Color>, start: int, now: int, wheel: int -> Color)
    requires RainbowInv(rb) && IsU32(start) && IsU32(now) && |pixels| == NumLeds
    requires rb.active && rb.start == start && start + MainEffectTime <= now
    ensures !RainbowTick(rb, pixels, now, wheel).0.active
    ensures RainbowTick(rb, pixels, now, wheel).1 == Dark()
  {
  }
}
