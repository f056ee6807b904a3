/** Hue, saturation and hexadecimal colours (frontend/src/app/color-convert.module.ts), over exact reals. */
module ColorConvert {
  import opened HexStrings
  import opened Wrappers

  // ---------- hue and saturation ----------

  // % of JavaScript: the remainder has the sign of the dividend
  function Remainder(a: real, m: real): real
    requires m > 0.0
  {
    if a >= 0.0 then a - m * (a / m).Floor as real else a + m * (-a / m).Floor as real
  }

  function Abs(a: real): real {
    if a < 0.0 then -a else a
  }

  // Saturation normalized to [0, 1]
  function Normalized(saturation: real): real {
    var s := if saturation / 254.0 < 1.0 then saturation / 254.0 else 1.0;
    if s > 0.0 then s else 0.0
  }

  function Times(a: real, b: real): real {
    a * b
  }

  function Over(a: real, b: real): real
    requires b != 0.0
  {
    a / b
  }

  // A channel between 0 and 255
  function Channel(part: real, m: real): int {
    ((part + m) * 255.0).Floor
  }

  // The three channels of hueSatToHex before formatting
  function ToRgb(hue: real, s: real): (int, int, int) {
    var c := s;
    var x := Times(c, 1.0 - Abs(Remainder(hue / 60.0, 2.0) - 1.0));
    var m := 1.0 - c;
    var (r1, g1, b1) :=
      if hue < 60.0 then (c, x, 0.0)
      else if hue < 120.0 then (x, c, 0.0)
      else if hue < 180.0 then (0.0, c, x)
      else if hue < 240.0 then (0.0, x, c)
      else if hue < 300.0 then (x, 0.0, c)
      else (c, 0.0, x);
    (Channel(r1, m), Channel(g1, m), Channel(b1, m))
  }

  function Max(a: real, b: real): real {
    if a < b then b else a
  }

  function Min(a: real, b: real): real {
    if a < b then a else b
  }

  // Hue, saturation and value from the channels hexToHueSat has parsed
  function FromRgb(red: int, green: int, blue: int): (real, int, real) {
    FromUnit(Unit(red), Unit(green), Unit(blue))
  }

  function Unit(n: int): real {
    n as real / 255.0
  }

  function FromUnit(r: real, g: real, b: real): (real, int, real) {
    var cmax := Max(r, Max(g, b));
    var cmin := Min(r, Min(g, b));
    var delta := cmax - cmin;
    var hue :=
      if delta == 0.0 then 0.0
      else if cmax == r then 60.0 * Remainder(Over(g - b, delta), 6.0)
      else if cmax == g then 60.0 * (Over(b - r, delta) + 2.0)
      else 60.0 * (Over(r - g, delta) + 4.0);
    (hue, if cmax == 0.0 then 0 else (Over(delta, cmax) * 255.0).Floor, cmax)
  }

  predicate IsByte(n: int) {
    0 <= n <= 255
  }

  function ByteToHex(n: int): (s: string)
    requires IsByte(n)
    ensures |s| == 2
  {
    PadStart(ToBase16(n), 2)
  }

  function RgbToHex(r: int, g: int, b: int): string
    requires IsByte(r) && IsByte(g) && IsByte(b)
  {
    "#" + ByteToHex(r) + ByteToHex(g) + ByteToHex(b)
  }

  function HexToHueSat(hex: string): Option<(real, int, real)> {
    var r, g, b := ParseInt16(Substr(hex, 1, 2)), ParseInt16(Substr(hex, 3, 2)), ParseInt16(Substr(hex, 5, 2));
    if r.None? || g.None? || b.None? then None else Some(FromRgb(r.value, g.value, b.value))
  }

  lemma ChannelsRoundTrip(r: int, g: int, b: int)
    requires IsByte(r) && IsByte(g) && IsByte(b)
    ensures HexToHueSat(RgbToHex(r, g, b)) == Some(FromRgb(r, g, b))
  {
    var hex := RgbToHex(r, g, b);
    assert Substr(hex, 1, 2) == ByteToHex(r);
    assert Substr(hex, 3, 2) == ByteToHex(g);
    assert Substr(hex, 5, 2) == ByteToHex(b);
    HexRoundTrip(r, 2);
    HexRoundTrip(g, 2);
    HexRoundTrip(b, 2);
  }

  // ---------- the error of one channel ----------

  // The least channel and the middle one, for normalized saturation `s` and position `f` within the sector
  function Low(s: real): int {
    Channel(0.0, 1.0 - s)
  }

  function Middle(s: real, f: real): int {
    Channel(Times(s, f), 1.0 - s)
  }

  // The position within the sector read back from the channels
  function Position(s: real, f: real): real
    requires 0.0 < s <= 1.0
  {
    Over((Middle(s, f) - Low(s)) as real, (255 - Low(s)) as real)
  }

  lemma ProductBounds(a: real, low: real, b: real, high: real)
    requires a >= 0.0 && low <= b <= high
    ensures a * low <= a * b <= a * high
  {
  }

  lemma Distribute(a: real, b: real, c: real)
    ensures a * (b + c) == a * b + a * c
    ensures a * (b - c) == a * b - a * c
  {
  }

  lemma Commute(a: real, b: real)
    ensures a * b == b * a
  {
  }

  lemma Expand(d: real, mu: real, g: real)
    ensures Times(d, mu + g) == Times(d, mu) + Times(d, g)
    ensures Times(d, mu + g - 1.0) == Times(d, mu) + Times(d, g) - d
    ensures Times(g, d + mu) == Times(d, g) + Times(g, mu)
  {
  }

  lemma TimesBounds(a: real, low: real, b: real, high: real)
    requires a >= 0.0 && low <= b <= high
    ensures Times(a, low) <= Times(a, b) <= Times(a, high)
  {
    ProductBounds(a, low, b, high);
  }

  lemma MiddleProducts(d: real, mu: real, g: real)
    requires 0.0 <= g <= d && 0.0 <= mu < 1.0
    ensures 0.0 <= Times(d, mu) - Times(g, mu) <= Times(d, mu) <= d
  {
    TimesBounds(mu, 0.0, g, d);
    TimesBounds(d, 0.0, mu, 1.0);
    assert Times(mu, 0.0) == 0.0 && Times(d, 1.0) == d;
    assert Times(mu, d) == Times(d, mu) && Times(mu, g) == Times(g, mu);
  }

  // The bounds of ScaledError with every product given a name
  lemma LinearError(d: real, mu: real, dk: real, dm: real, dg: real, gm: real)
    requires dm + dg - d <= dk <= dm + dg && 0.0 <= dm - gm <= dm <= d && 0.0 <= mu
    ensures -(d + mu) <= dk - (dg + gm) <= d + mu
  {
  }

  // The error of position k / n against g / d, times d * n, for n = d + mu
  lemma ScaledError(d: real, mu: real, g: real, k: real)
    requires 0.0 <= g <= d && 0.0 <= mu < 1.0 && mu + g - 1.0 <= k <= mu + g
    ensures -(d + mu) <= Times(d, k) - Times(g, d + mu) <= d + mu
  {
    Expand(d, mu, g);
    TimesBounds(d, mu + g - 1.0, k, mu + g);
    MiddleProducts(d, mu, g);
    LinearError(d, mu, Times(d, k), Times(d, mu), Times(d, g), Times(g, mu));
  }

  lemma ProductPositive(a: real, b: real)
    requires a > 0.0 && b > 0.0
    ensures a * b > 0.0
  {
  }

  // Cancelling a positive factor
  lemma Cancel(e: real, n: real, bound: real)
    requires n > 0.0
    ensures e * n <= bound * n ==> e <= bound
    ensures e * n >= bound * n ==> e >= bound
  {
  }

  // The two channels in terms of d = 255 * s and g = d * f
  lemma Channels(s: real, f: real, d: real, g: real)
    requires 0.0 < s <= 1.0 && 0.0 <= f <= 1.0 && d == 255.0 * s && g == 255.0 * (s * f)
    ensures 0.0 <= g <= d && Low(s) == (255.0 - d).Floor && Middle(s, f) == (255.0 - d + g).Floor
    ensures g == d * f
  {
    ProductBounds(s, 0.0, f, 1.0);
    assert (s * f + (1.0 - s)) * 255.0 == 255.0 - d + g;
  }

  /** Reading the position back is off by at most 1 / (255 * s). */
  lemma PositionError(s: real, f: real)
    requires 0.0 < s <= 1.0 && 0.0 <= f <= 1.0
    ensures Low(s) <= Middle(s, f) <= 255 && 0 <= Low(s) < 255
    ensures -Over(1.0, 255.0 * s) <= Position(s, f) - f <= Over(1.0, 255.0 * s)
    ensures Middle(s, f) == 255 ==> f == 1.0
  {
    var d, g := 255.0 * s, 255.0 * (s * f);
    Channels(s, f, d, g);
    ChannelError(d, g, f, Low(s), Middle(s, f));
  }

  lemma ChannelError(d: real, g: real, f: real, low: int, mid: int)
    requires 0.0 < d <= 255.0 && 0.0 <= g <= d && g == d * f && 0.0 <= f <= 1.0
    requires low == (255.0 - d).Floor && mid == (255.0 - d + g).Floor
    ensures low <= mid <= 255 && 0 <= low < 255
    ensures -1.0 / d <= (mid - low) as real / (255 - low) as real - f <= 1.0 / d
    ensures mid == 255 ==> f == 1.0
  {
    var mu := 255.0 - d - low as real;
    var k := (mid - low) as real;
    MiddleRange(low, mid, mu, g, d);
    ScaledError(d, mu, g, k);
    QuotientOfError(d, k, (255 - low) as real, f, g);
    if mid == 255 {
      Commute(d, f);
      Cancel(f, d, 1.0);
    }
  }

  // The middle channel lies between the low one and 255
  lemma MiddleRange(low: int, mid: int, mu: real, g: real, d: real)
    requires 0.0 <= g <= d && 0.0 <= mu < 1.0 && 255.0 - d == low as real + mu
    requires mu + g - 1.0 < (mid - low) as real <= mu + g
    ensures low <= mid <= 255
  {
  }

  lemma QuotientOfError(d: real, k: real, n: real, f: real, g: real)
    requires d > 0.0 && n > 0.0 && g == d * f && -n <= Times(d, k) - Times(g, n) <= n
    ensures -1.0 / d <= k / n - f <= 1.0 / d
  {
    var q := k / n;
    assert q * n == k;
    var e := d * (q - f);
    Distribute(d, q, f);
    assert e * n == d * k - g * n by {
      assert e == d * q - g;
      assert (d * q) * n == d * (q * n);
    }
    Cancel(e, n, 1.0);
    Cancel(e, n, -1.0);
    Commute(d, q - f);
    assert (1.0 / d) * d == 1.0 && (-1.0 / d) * d == -1.0;
    Cancel(q - f, d, 1.0 / d);
    Cancel(q - f, d, -1.0 / d);
  }

  // ---------- the six sectors ----------

  // Position of a hue within its sector of 60 degrees, counted from the end with two equal low channels
  function SectorPosition(hue: real): real {
    if hue < 60.0 then hue / 60.0
    else if hue < 120.0 then 2.0 - hue / 60.0
    else if hue < 180.0 then hue / 60.0 - 2.0
    else if hue < 240.0 then 4.0 - hue / 60.0
    else if hue < 300.0 then hue / 60.0 - 4.0
    else 6.0 - hue / 60.0
  }

  lemma SectorPositionIs(hue: real)
    requires 0.0 <= hue <= 360.0
    ensures 0.0 <= SectorPosition(hue) <= 1.0
    ensures 1.0 - Abs(Remainder(hue / 60.0, 2.0) - 1.0) == SectorPosition(hue)
  {
    var h := hue / 60.0;
    assert (h / 2.0).Floor == if h < 2.0 then 0 else if h < 4.0 then 1 else if h < 6.0 then 2 else 3;
  }

  // Red, green and blue, given the two channels below 255
  function Arranged(hue: real, low: int, mid: int): (int, int, int) {
    if hue < 60.0 then (255, mid, low)
    else if hue < 120.0 then (mid, 255, low)
    else if hue < 180.0 then (low, 255, mid)
    else if hue < 240.0 then (low, mid, 255)
    else if hue < 300.0 then (mid, low, 255)
    else (255, low, mid)
  }

  /** The channels of a hue: one is 255, one is low, one in between, arranged by sector. */
  lemma ChannelsBySector(hue: real, s: real)
    requires 0.0 <= hue <= 360.0 && 0.0 <= s <= 1.0
    ensures ToRgb(hue, s) == Arranged(hue, Low(s), Middle(s, SectorPosition(hue)))
  {
    SectorPositionIs(hue);
    assert Channel(s, 1.0 - s) == 255;
  }

  lemma Ratio(a: int, b: int, n: int)
    requires n > 0
    ensures Unit(n) > 0.0
    ensures Over(Unit(a) - Unit(b), Unit(n)) == Over((a - b) as real, n as real)
  {
  }

  lemma Undo(q: real, n: real, a: real)
    requires n > 0.0 && q * n == a
    ensures Over(a, n) == q
  {
    assert (a / n) * n == a;
    Cancel(a / n, n, q);
  }

  lemma RemainderOfPosition(q: real)
    requires -1.0 <= q <= 1.0
    ensures Remainder(q, 6.0) == q
  {
  }

  // hexToHueSat on whole channels of which the greatest is 255
  lemma ReadChannels(r: int, g: int, b: int, low: int)
    requires 0 <= low < 255 && low <= r <= 255 && low <= g <= 255 && low <= b <= 255
    requires 255 in {r, g, b} && low in {r, g, b}
    ensures var n := (255 - low) as real;
      FromRgb(r, g, b) ==
        (if r == 255 then 60.0 * Remainder(Over((g - b) as real, n), 6.0)
         else if g == 255 then 60.0 * (Over((b - r) as real, n) + 2.0)
         else 60.0 * (Over((r - g) as real, n) + 4.0), 255 - low, 1.0)
  {
    var n := 255 - low;
    Ratio(g, b, n);
    Ratio(b, r, n);
    Ratio(r, g, n);
    assert 1.0 - Unit(low) == Unit(n);
    UnitOrder(r, low);
    UnitOrder(g, low);
    UnitOrder(b, low);
    ReadUnits(Unit(r), Unit(g), Unit(b), Unit(low), n);
  }

  lemma UnitOrder(a: int, low: int)
    requires low <= a <= 255
    ensures Unit(low) <= Unit(a) <= 1.0 && (Unit(a) == 1.0 <==> a == 255) && (Unit(a) == Unit(low) <==> a == low)
  {
  }

  lemma ReadUnits(r: real, g: real, b: real, low: real, n: nat)
    requires low < 1.0 && low <= r <= 1.0 && low <= g <= 1.0 && low <= b <= 1.0
    requires (r == 1.0 || g == 1.0 || b == 1.0) && (r == low || g == low || b == low)
    requires 1.0 - low == Unit(n)
    ensures FromUnit(r, g, b) ==
      (if r == 1.0 then 60.0 * Remainder(Over(g - b, Unit(n)), 6.0)
       else if g == 1.0 then 60.0 * (Over(b - r, Unit(n)) + 2.0)
       else 60.0 * (Over(r - g, Unit(n)) + 4.0), n, 1.0)
  {
    assert Max(r, Max(g, b)) == 1.0 && Min(r, Min(g, b)) == low;
    assert Over(Unit(n), 1.0) == Unit(n);
    assert (Unit(n) * 255.0).Floor == n;
  }

  /** What hexToHueSat makes of the channels, arranged as in each sector; `q` is the position they show. */
  lemma ReadSectors(low: int, mid: int)
    requires 0 <= low <= mid <= 255 && low < 255
    ensures var q := Over((mid - low) as real, (255 - low) as real);
      && 0.0 <= q <= 1.0
      && FromRgb(255, mid, low) == (60.0 * q, 255 - low, 1.0)
      && FromRgb(mid, 255, low) == (if mid == 255 then 60.0 else 60.0 * (2.0 - q), 255 - low, 1.0)
      && FromRgb(low, 255, mid) == (60.0 * (q + 2.0), 255 - low, 1.0)
      && FromRgb(low, mid, 255) == (if mid == 255 then 180.0 else 60.0 * (4.0 - q), 255 - low, 1.0)
      && (mid < 255 ==> FromRgb(mid, low, 255) == (60.0 * (q + 4.0), 255 - low, 1.0))
      && FromRgb(255, low, mid) == (-60.0 * q, 255 - low, 1.0)
  {
    var n := (255 - low) as real;
    var q := Over((mid - low) as real, n);
    PositionRange((mid - low) as real, n);
    Undo(-q, n, (low - mid) as real);
    Undo(1.0, n, n);
    RemainderOfPosition(q);
    RemainderOfPosition(-q);
    RemainderOfPosition(1.0);
    assert Over((low - mid) as real, n) == -q && Over((255 - low) as real, n) == 1.0;
    ReadChannels(255, mid, low, low);
    ReadChannels(mid, 255, low, low);
    ReadChannels(low, 255, mid, low);
    ReadChannels(low, mid, 255, low);
    ReadChannels(mid, low, 255, low);
    ReadChannels(255, low, mid, low);
  }

  lemma PositionRange(a: real, n: real)
    requires n > 0.0 && 0.0 <= a <= n
    ensures 0.0 <= Over(a, n) <= 1.0 && Over(a, n) * n == a
  {
    Cancel(a / n, n, 0.0);
    Cancel(a / n, n, 1.0);
  }

  function HueSatToHex(hue: real, saturation: real): string
    requires 0.0 <= hue <= 360.0
  {
    var s := Normalized(saturation);
    var (r, g, b) := ToRgb(hue, s);
    ChannelsAreBytes(hue, s);
    RgbToHex(r, g, b)
  }

  lemma ChannelsAreBytes(hue: real, s: real)
    requires 0.0 <= hue <= 360.0 && 0.0 <= s <= 1.0
    ensures var (r, g, b) := ToRgb(hue, s); IsByte(r) && IsByte(g) && IsByte(b)
  {
    ChannelsBySector(hue, s);
    SectorPositionIs(hue);
    if s > 0.0 {
      PositionError(s, SectorPosition(hue));
    } else {
      assert Middle(s, SectorPosition(hue)) == 255;
    }
  }

  // Two hues are within `tolerance` degrees of each other on the circle
  ghost predicate NearOnCircle(a: real, b: real, tolerance: real) {
    || -tolerance <= a - b <= tolerance
    || -tolerance <= a - b - 360.0 <= tolerance
    || -tolerance <= a - b + 360.0 <= tolerance
  }

  // The triple read back for `hue` and normalized saturation `s`
  ghost predicate CloseTo(read: (real, int, real), hue: real, s: real, tolerance: real) {
    && NearOnCircle(read.0, hue, tolerance)
    && 255.0 * s <= read.1 as real < 255.0 * s + 1.0
    && read.2 == 1.0
  }

  /** From hue and saturation to a colour string and back: the hue comes back within 60 / (255 * s) degrees, the
      value is 1, and the saturation comes back as the least whole number not below 255 * s. */
  lemma HueRoundTrip(hue: real, saturation: real)
    requires 0.0 <= hue <= 360.0 && saturation > 0.0
    ensures var s := Normalized(saturation);
      && 0.0 < s <= 1.0
      && HexToHueSat(HueSatToHex(hue, saturation)).Some?
      && CloseTo(HexToHueSat(HueSatToHex(hue, saturation)).value, hue, s, 60.0 / (255.0 * s))
  {
    var s := Normalized(saturation);
    assert 0.0 < s <= 1.0;
    Tolerance(s);
    HueReadBack(hue, saturation, s, 60.0 / (255.0 * s));
  }

  lemma HueReadBack(hue: real, saturation: real, s: real, tolerance: real)
    requires 0.0 <= hue <= 360.0 && s == Normalized(saturation) && 0.0 < s <= 1.0
    requires tolerance == 60.0 * Over(1.0, 255.0 * s)
    ensures HexToHueSat(HueSatToHex(hue, saturation)).Some?
    ensures CloseTo(HexToHueSat(HueSatToHex(hue, saturation)).value, hue, s, tolerance)
  {
    HexOfHue(hue, saturation);
    HueOfChannels(hue, s);
  }

  // The string carries the three channels over unchanged
  lemma HexOfHue(hue: real, saturation: real)
    requires 0.0 <= hue <= 360.0
    ensures HexToHueSat(HueSatToHex(hue, saturation)) == Some(ReadRgb(ToRgb(hue, Normalized(saturation))))
  {
    var rgb := ToRgb(hue, Normalized(saturation));
    ChannelsAreBytes(hue, Normalized(saturation));
    ChannelsRoundTrip(rgb.0, rgb.1, rgb.2);
  }

  lemma Tolerance(s: real)
    requires s > 0.0
    ensures 60.0 * Over(1.0, 255.0 * s) == 60.0 / (255.0 * s)
  {
  }

  lemma HueOfChannels(hue: real, s: real)
    requires 0.0 <= hue <= 360.0 && 0.0 < s <= 1.0
    ensures CloseTo(ReadRgb(ToRgb(hue, s)), hue, s, 60.0 * Over(1.0, 255.0 * s))
  {
    var f := SectorPosition(hue);
    var low, mid, error := Low(s), Middle(s, f), Over(1.0, 255.0 * s);
    assert ToRgb(hue, s) == Arranged(hue, low, mid) by {
      ChannelsBySector(hue, s);
    }
    assert CloseTo(ReadRgb(Arranged(hue, low, mid)), hue, s, 60.0 * error) by {
      SectorPositionIs(hue);
      PositionError(s, f);
      HueOfArranged(hue, s, mid, error);
    }
  }

  function ReadRgb(rgb: (int, int, int)): (real, int, real) {
    FromRgb(rgb.0, rgb.1, rgb.2)
  }

  lemma HueOfArranged(hue: real, s: real, mid: int, error: real)
    requires 0.0 <= hue <= 360.0 && 0 <= Low(s) <= mid <= 255 && Low(s) < 255
    requires -error <= Over((mid - Low(s)) as real, (255 - Low(s)) as real) - SectorPosition(hue) <= error
    requires mid == 255 ==> SectorPosition(hue) == 1.0
    ensures CloseTo(ReadRgb(Arranged(hue, Low(s), mid)), hue, s, 60.0 * error)
  {
    var low := Low(s);
    LowRange(s);
    ReadSectors(low, mid);
    HueError(hue, Over((mid - low) as real, (255 - low) as real), error, mid == 255,
             ReadRgb(Arranged(hue, low, mid)).0);
  }

  lemma LowRange(s: real)
    ensures 255.0 * s <= (255 - Low(s)) as real < 255.0 * s + 1.0
  {
  }

  // From the error of the position to the error of the hue
  lemma HueError(hue: real, q: real, error: real, full: bool, read: real)
    requires 0.0 <= hue <= 360.0 && 0.0 <= q <= 1.0
    requires -error <= q - SectorPosition(hue) <= error
    requires full ==> SectorPosition(hue) == 1.0
    requires read ==
      if hue < 60.0 then 60.0 * q
      else if hue < 120.0 then (if full then 60.0 else 60.0 * (2.0 - q))
      else if hue < 180.0 then 60.0 * (q + 2.0)
      else if hue < 240.0 then (if full then 180.0 else 60.0 * (4.0 - q))
      else if hue < 300.0 then 60.0 * (q + 4.0)
      else -60.0 * q
    ensures NearOnCircle(read, hue, 60.0 * error)
  {
  }

  /** The saturation is out of 254, cut off at both ends. */
  lemma NormalizedIs(saturation: real)
    ensures Normalized(saturation) * 254.0 ==
      if saturation <= 0.0 then 0.0 else if saturation < 254.0 then saturation else 254.0
  {
  }

  /** Without saturation the colour is white, read back with hue and saturation 0. */
  lemma WhiteRoundTrip(hue: real, saturation: real)
    requires 0.0 <= hue <= 360.0 && saturation <= 0.0
    ensures HueSatToHex(hue, saturation) == RgbToHex(255, 255, 255)
    ensures HexToHueSat(HueSatToHex(hue, saturation)) == Some((0.0, 0, 1.0))
  {
    assert Normalized(saturation) == 0.0;
    ChannelsBySector(hue, 0.0);
    assert Middle(0.0, SectorPosition(hue)) == 255 && Low(0.0) == 255;
    ChannelsRoundTrip(255, 255, 255);
    assert 255 as real / 255.0 == 1.0;
  }

  /** The string of three channels is the one of the colour number they make up. */
  lemma SameString(r: int, g: int, b: int)
    requires IsByte(r) && IsByte(g) && IsByte(b)
    ensures RgbToHex(r, g, b) == ColorToHex(65536 * r + 256 * g + b)
  {
    ThreeBytes(r, g, b);
  }

  // ---------- reading any colour ----------

  function Greatest(r: int, g: int, b: int): int {
    if r >= g && r >= b then r else if g >= b then g else b
  }

  function Least(r: int, g: int, b: int): int {
    if r <= g && r <= b then r else if g <= b then g else b
  }

  // Where the hue stands: degrees from red, green or blue, times the spread of the channels
  ghost predicate HueOf(r: int, g: int, b: int, hue: real) {
    var spread := (Greatest(r, g, b) - Least(r, g, b)) as real;
    if r == Greatest(r, g, b) then Times(hue, spread) == 60.0 * (g - b) as real
    else if g == Greatest(r, g, b) then Times(hue - 120.0, spread) == 60.0 * (b - r) as real
    else Times(hue - 240.0, spread) == 60.0 * (r - g) as real
  }

  // What hexToHueSat reads from a colour is right
  ghost predicate ReadsRight(r: int, g: int, b: int, read: (real, int, real)) {
    var (hue, saturation, value) := read;
    var max, min := Greatest(r, g, b), Least(r, g, b);
    && value * 255.0 == max as real
    && (max > 0 ==> saturation * max <= 255 * (max - min) < (saturation + 1) * max)
    && (max == 0 ==> saturation == 0)
    && (max == min ==> hue == 0.0)
    && (max > min ==> HueOf(r, g, b, hue))
  }

  /** What hexToHueSat reads from any colour: the value is the greatest channel out of 255, the saturation the spread of
      the channels out of the greatest, times 255 and rounded down, and the hue is decided by the greatest channel and
      the difference of the other two. Black has saturation 0, every grey hue 0. */
  lemma AnyColour(r: int, g: int, b: int)
    requires IsByte(r) && IsByte(g) && IsByte(b)
    ensures HexToHueSat(RgbToHex(r, g, b)).Some?
    ensures ReadsRight(r, g, b, HexToHueSat(RgbToHex(r, g, b)).value)
  {
    ChannelsRoundTrip(r, g, b);
    AnyChannels(r, g, b, Greatest(r, g, b), Least(r, g, b));
  }

  lemma AnyChannels(r: int, g: int, b: int, max: int, min: int)
    requires IsByte(r) && IsByte(g) && IsByte(b) && max == Greatest(r, g, b) && min == Least(r, g, b)
    ensures ReadsRight(r, g, b, FromRgb(r, g, b))
  {
    UnitExtremes(r, g, b, max, min);
    ReadAnyUnits(Unit(r), Unit(g), Unit(b), Unit(max), Unit(min));
    UnitsCompare(max, min);
    UnitsCompare(max, 0);
    if max > 0 {
      SaturationOf(max, max - min);
    }
    if max > min {
      HueOfSpread(r, g, b, max - min, FromRgb(r, g, b).0);
    }
  }

  // The greatest and the least channel, and which one it is, before and after the division
  lemma UnitExtremes(r: int, g: int, b: int, max: int, min: int)
    requires max == Greatest(r, g, b) && min == Least(r, g, b)
    ensures Max(Unit(r), Max(Unit(g), Unit(b))) == Unit(max) && Min(Unit(r), Min(Unit(g), Unit(b))) == Unit(min)
    ensures (Unit(max) == Unit(r) <==> max == r) && (Unit(max) == Unit(g) <==> max == g)
  {
    UnitsCompare(r, g);
    UnitsCompare(r, b);
    UnitsCompare(g, b);
  }

  lemma UnitsCompare(a: int, b: int)
    ensures Unit(a) < Unit(b) <==> a < b
    ensures Unit(a) == Unit(b) <==> a == b
    ensures Unit(a) - Unit(b) == Unit(a - b) && Unit(0) == 0.0
  {
  }

  lemma ReadAnyUnits(r: real, g: real, b: real, max: real, min: real)
    requires max == Max(r, Max(g, b)) && min == Min(r, Min(g, b))
    ensures FromUnit(r, g, b).0 ==
      if max == min then 0.0
      else if max == r then 60.0 * Remainder(Over(g - b, max - min), 6.0)
      else if max == g then 60.0 * (Over(b - r, max - min) + 2.0)
      else 60.0 * (Over(r - g, max - min) + 4.0)
    ensures FromUnit(r, g, b).1 == if max == 0.0 then 0 else (Over(max - min, max) * 255.0).Floor
    ensures FromUnit(r, g, b).2 == max
  {
  }

  lemma SaturationOf(max: int, spread: int)
    requires max > 0
    ensures Unit(max) > 0.0
    ensures var s := (Over(Unit(spread), Unit(max)) * 255.0).Floor; s * max <= 255 * spread < (s + 1) * max
  {
    Ratio(spread, 0, max);
    var q := Over(spread as real, max as real);
    assert q * max as real == spread as real;
    var x := q * 255.0;
    Triple(q, max as real, spread as real);
    FloorTimes(x.Floor, x, max, 255 * spread);
  }

  lemma Triple(q: real, m: real, y: real)
    requires q * m == y
    ensures Times(m, q * 255.0) == 255.0 * y
  {
    assert m * (q * 255.0) == (q * m) * 255.0;
  }

  lemma FloorTimes(s: int, x: real, max: int, y: int)
    requires max > 0 && s as real <= x < s as real + 1.0 && Times(max as real, x) == y as real
    ensures s * max <= y < (s + 1) * max
  {
    TimesBounds(max as real, s as real, x, s as real + 1.0);
    StrictTimes(max as real, x, (s + 1) as real);
    IntTimes(max, s);
    IntTimes(max, s + 1);
  }

  lemma StrictTimes(a: real, x: real, y: real)
    requires a > 0.0 && x < y
    ensures Times(a, x) < Times(a, y)
  {
    ProductPositive(a, y - x);
    Distribute(a, y, x);
  }

  lemma IntTimes(a: int, b: int)
    ensures Times(a as real, b as real) == (b * a) as real
  {
  }

  lemma HueOfSpread(r: int, g: int, b: int, spread: int, hue: real)
    requires spread == Greatest(r, g, b) - Least(r, g, b) && spread > 0
    requires Unit(spread) > 0.0
    requires hue ==
      if r == Greatest(r, g, b) then 60.0 * Remainder(Over(Unit(g) - Unit(b), Unit(spread)), 6.0)
      else if g == Greatest(r, g, b) then 60.0 * (Over(Unit(b) - Unit(r), Unit(spread)) + 2.0)
      else 60.0 * (Over(Unit(r) - Unit(g), Unit(spread)) + 4.0)
    ensures HueOf(r, g, b, hue)
  {
    if r == Greatest(r, g, b) {
      HueDegrees(g, b, spread);
    } else if g == Greatest(r, g, b) {
      HueDegrees(b, r, spread);
    } else {
      HueDegrees(r, g, spread);
    }
  }

  // The hue within 60 degrees of a pure colour, times the spread
  lemma HueDegrees(a: int, b: int, spread: int)
    requires spread > 0 && -spread <= a - b <= spread
    ensures Unit(spread) > 0.0
    ensures var q := Over(Unit(a) - Unit(b), Unit(spread));
      Remainder(q, 6.0) == q && Times(60.0 * q, spread as real) == 60.0 * (a - b) as real
  {
    Ratio(a, b, spread);
    var q, n, y := Over((a - b) as real, spread as real), spread as real, (a - b) as real;
    assert q * n == y;
    AtMostOne(q, n, y);
    RemainderOfPosition(q);
    assert (60.0 * q) * n == 60.0 * (q * n);
  }

  lemma AtMostOne(q: real, n: real, y: real)
    requires n > 0.0 && q * n == y && -n <= y <= n
    ensures -1.0 <= q <= 1.0
  {
    Cancel(q, n, 1.0);
    Cancel(q, n, -1.0);
  }
}
