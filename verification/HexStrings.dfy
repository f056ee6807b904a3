/** Numbers as hexadecimal strings (frontend/src/app/color-convert.module.ts). */
module HexStrings {
  import opened Wrappers

  const DIGITS := "0123456789abcdef"

  // Number.prototype.toString(16)
  function ToBase16(n: nat): (s: string)
    ensures |s| > 0 && (n < 16 ==> |s| == 1) && (n < 256 ==> |s| <= 2)
    ensures forall i :: 0 <= i < |s| ==> s[i] in DIGITS
  {
    if n < 16 then [DIGITS[n]] else ToBase16(n / 16) + [DIGITS[n % 16]]
  }

  function PadStart(s: string, length: nat): (r: string)
    ensures |r| == if |s| < length then length else |s|
    decreases length - |s|
  {
    if |s| < length then PadStart(['0'] + s, length) else s
  }

  function DigitValue(c: char): Option<nat> {
    if '0' <= c <= '9' then Some(c as int - '0' as int)
    else if 'a' <= c <= 'f' then Some(c as int - 'a' as int + 10)
    else if 'A' <= c <= 'F' then Some(c as int - 'A' as int + 10)
    else None
  }

  // Number.parseInt(s, 16): the longest prefix of digits; None stands for NaN
  function ParseInt16(s: string): Option<nat> {
    if s == [] || DigitValue(s[0]).None? then None else Some(ParseDigits(s, 0))
  }

  function ParseDigits(s: string, value: nat): nat {
    if s == [] || DigitValue(s[0]).None? then value
    else ParseDigits(s[1..], value * 16 + DigitValue(s[0]).value)
  }

  lemma DigitRoundTrip(d: nat)
    requires d < 16
    ensures DigitValue(DIGITS[d]) == Some(d)
  {
  }

  lemma {:induction false} ParseAppend(s: string, c: char, value: nat)
    requires forall i :: 0 <= i < |s| ==> DigitValue(s[i]).Some?
    requires DigitValue(c).Some?
    ensures ParseDigits(s + [c], value) == ParseDigits(s, value) * 16 + DigitValue(c).value
    decreases |s|
  {
    if s == [] {
      assert (s + [c])[1..] == [];
    } else {
      assert (s + [c])[1..] == s[1..] + [c];
      ParseAppend(s[1..], c, value * 16 + DigitValue(s[0]).value);
    }
  }

  lemma DigitsHaveValues(s: string)
    requires forall i :: 0 <= i < |s| ==> s[i] in DIGITS
    ensures forall i :: 0 <= i < |s| ==> DigitValue(s[i]).Some?
  {
  }

  lemma {:induction false} ParseBase16(n: nat)
    ensures ParseDigits(ToBase16(n), 0) == n
  {
    if n < 16 {
      DigitRoundTrip(n);
      assert [DIGITS[n]][1..] == [];
    } else {
      ParseBase16(n / 16);
      DigitRoundTrip(n % 16);
      DigitsHaveValues(ToBase16(n / 16));
      ParseAppend(ToBase16(n / 16), DIGITS[n % 16], 0);
    }
  }

  lemma {:induction false} ParsePadded(s: string, length: nat)
    ensures ParseDigits(PadStart(s, length), 0) == ParseDigits(s, 0)
    decreases length - |s|
  {
    if |s| < length {
      ParsePadded(['0'] + s, length);
      assert (['0'] + s)[1..] == s;
    }
  }

  lemma {:induction false} PaddedStartsWithDigit(s: string, length: nat)
    requires s != [] && DigitValue(s[0]).Some?
    ensures PadStart(s, length) != [] && DigitValue(PadStart(s, length)[0]).Some?
    decreases length - |s|
  {
    if |s| < length {
      PaddedStartsWithDigit(['0'] + s, length);
    }
  }

  /** A padded hexadecimal number is read back as itself, whatever the padding. */
  lemma HexRoundTrip(n: nat, length: nat)
    ensures ParseInt16(PadStart(ToBase16(n), length)) == Some(n)
  {
    ParseBase16(n);
    ParsePadded(ToBase16(n), length);
    DigitsHaveValues(ToBase16(n));
    PaddedStartsWithDigit(ToBase16(n), length);
  }

  function ColorToHex(color: nat): string {
    "#" + PadStart(ToBase16(color), 6)
  }

  // String.prototype.substr
  function Substr(s: string, from: nat, length: nat): string {
    if from >= |s| then "" else if from + length >= |s| then s[from..] else s[from..from + length]
  }

  function HexToColor(hex: string): Option<nat> {
    ParseInt16(if |hex| < 1 then "" else hex[1..])
  }

  // ---------- the strings themselves ----------

  /** Lower case digits, without a leading zero. */
  lemma {:induction false} LowerCase(n: nat)
    ensures forall i :: 0 <= i < |ToBase16(n)| ==> '0' <= ToBase16(n)[i] <= '9' || 'a' <= ToBase16(n)[i] <= 'f'
    ensures n > 0 ==> ToBase16(n)[0] != '0'
  {
    if n < 16 {
    } else {
      LowerCase(n / 16);
    }
  }

  // The last `k` digits of a number
  ghost function LastDigits(n: nat, k: nat): string {
    if k == 0 then "" else LastDigits(n / 16, k - 1) + [DIGITS[n % 16]]
  }

  lemma {:induction false} PadAppend(s: string, c: char, k: nat)
    requires k >= 1
    ensures PadStart(s + [c], k) == PadStart(s, k - 1) + [c]
    decreases k - |s|
  {
    if |s| + 1 < k {
      PadAppend(['0'] + s, c, k);
      assert ['0'] + (s + [c]) == (['0'] + s) + [c];
    }
  }

  lemma {:induction false} PadNothing(k: nat)
    ensures PadStart("", k) == LastDigits(0, k)
  {
    if k == 0 {
    } else {
      PadNothing(k - 1);
      PadAppend("", '0', k);
      assert ['0'] + "" == "" + ['0'];
    }
  }

  /** Padded to as many digits as it has at most, a number is written with exactly its last digits. */
  lemma {:induction false} PaddedIsLastDigits(n: nat, k: nat)
    requires k >= 1 && |ToBase16(n)| <= k
    ensures PadStart(ToBase16(n), k) == LastDigits(n, k)
  {
    if n < 16 {
      PadNothing(k - 1);
      PadAppend("", DIGITS[n], k);
      assert "" + [DIGITS[n]] == [DIGITS[n]];
    } else {
      LongerThanOne(n);
      PaddedIsLastDigits(n / 16, k - 1);
      PadAppend(ToBase16(n / 16), DIGITS[n % 16], k);
    }
  }

  lemma LongerThanOne(n: nat)
    requires n >= 16
    ensures |ToBase16(n)| == |ToBase16(n / 16)| + 1 >= 2
  {
  }

  // A number `m` made of `n` and another digit, ...
  lemma LastDigit(m: nat, n: nat, d: nat, k: nat)
    requires d < 16 && m == 16 * n + d
    ensures LastDigits(m, k + 1) == LastDigits(n, k) + [DIGITS[d]]
    ensures |ToBase16(m)| <= |ToBase16(n)| + 1
  {
    assert m / 16 == n && m % 16 == d;
  }

  // ... and of another two, `m` being the number in between
  lemma LastTwoDigits(x: nat, m: nat, n: nat, hi: nat, lo: nat, k: nat)
    requires hi < 16 && lo < 16 && m == 16 * n + hi && x == 16 * m + lo
    ensures LastDigits(x, k + 2) == LastDigits(n, k) + [DIGITS[hi]] + [DIGITS[lo]]
    ensures |ToBase16(x)| <= |ToBase16(n)| + 2
  {
    LastDigit(m, n, hi, k);
    LastDigit(x, m, lo, k + 1);
  }

  lemma TwoDigits(b: nat, hi: nat, lo: nat)
    requires hi < 16 && lo < 16 && b == 16 * hi + lo
    ensures PadStart(ToBase16(b), 2) == [DIGITS[hi]] + [DIGITS[lo]]
    ensures |ToBase16(b)| <= 2
  {
    LastDigit(hi, 0, hi, 0);
    LastDigit(b, hi, lo, 1);
    PaddedIsLastDigits(b, 2);
    assert "" + [DIGITS[hi]] == [DIGITS[hi]];
  }

  lemma SixDigits(n: nat, r: nat, g: nat, b: nat, ds: seq<nat>)
    requires |ds| == 6 && forall i :: 0 <= i < 6 ==> ds[i] < 16
    requires r == 16 * ds[0] + ds[1] && g == 16 * ds[2] + ds[3] && b == 16 * ds[4] + ds[5]
    requires n == 65536 * r + 256 * g + b
    ensures PadStart(ToBase16(n), 6) == PadStart(ToBase16(r), 2) + PadStart(ToBase16(g), 2) + PadStart(ToBase16(b), 2)
  {
    TwoDigits(r, ds[0], ds[1]);
    TwoDigits(g, ds[2], ds[3]);
    TwoDigits(b, ds[4], ds[5]);
    var rg := 256 * r + g;
    LastDigit(ds[0], 0, ds[0], 0);
    LastDigit(r, ds[0], ds[1], 1);
    LastTwoDigits(rg, 16 * r + ds[2], r, ds[2], ds[3], 2);
    LastTwoDigits(n, 16 * rg + ds[4], rg, ds[4], ds[5], 4);
    PaddedIsLastDigits(n, 6);
    ThreePairs([DIGITS[ds[0]]], [DIGITS[ds[1]]], [DIGITS[ds[2]]], [DIGITS[ds[3]]], [DIGITS[ds[4]]], [DIGITS[ds[5]]]);
  }

  lemma Nibbles(b: nat) returns (hi: nat, lo: nat)
    requires b < 256
    ensures hi < 16 && lo < 16 && b == 16 * hi + lo
  {
    hi, lo := b / 16, b % 16;
  }

  /** Three bytes, written with two digits each, are the number they make up, written with six. */
  lemma ThreeBytes(r: nat, g: nat, b: nat)
    requires r < 256 && g < 256 && b < 256
    ensures PadStart(ToBase16(65536 * r + 256 * g + b), 6)
         == PadStart(ToBase16(r), 2) + PadStart(ToBase16(g), 2) + PadStart(ToBase16(b), 2)
  {
    var r1, r0 := Nibbles(r);
    var g1, g0 := Nibbles(g);
    var b1, b0 := Nibbles(b);
    SixDigits(65536 * r + 256 * g + b, r, g, b, [r1, r0, g1, g0, b1, b0]);
  }

  lemma ThreePairs(a: string, b: string, c: string, d: string, e: string, f: string)
    ensures "" + a + b + c + d + e + f == (a + b) + (c + d) + (e + f)
  {
  }

  /** parseInt reads the digits a string starts with, upper or lower case, and ignores what follows; without one it
      gives no number. */
  lemma {:induction false} ParseStops(digits: string, rest: string)
    requires forall i :: 0 <= i < |digits| ==> DigitValue(digits[i]).Some?
    requires rest == "" || DigitValue(rest[0]).None?
    ensures ParseInt16(digits + rest) == if digits == "" then None else Some(ParseDigits(digits, 0))
  {
    if digits == "" {
      assert digits + rest == rest;
    } else {
      ParseDigitsStops(digits, rest, 0);
    }
  }

  lemma {:induction false} ParseDigitsStops(digits: string, rest: string, value: nat)
    requires forall i :: 0 <= i < |digits| ==> DigitValue(digits[i]).Some?
    requires rest == "" || DigitValue(rest[0]).None?
    ensures ParseDigits(digits + rest, value) == ParseDigits(digits, value)
    decreases digits
  {
    if digits == "" {
      assert digits + rest == rest;
    } else {
      assert (digits + rest)[1..] == digits[1..] + rest;
      ParseDigitsStops(digits[1..], rest, value * 16 + DigitValue(digits[0]).value);
    }
  }

  lemma ColorRoundTrip(color: nat)
    ensures HexToColor(ColorToHex(color)) == Some(color)
  {
    HexRoundTrip(color, 6);
  }

  lemma Bytes(color: nat) returns (r: nat, g: nat, b: nat)
    requires color < 0x100_0000
    ensures r < 256 && g < 256 && b < 256 && color == 65536 * r + 256 * g + b
  {
    var rg := color / 256;
    r, g, b := rg / 256, rg % 256, color % 256;
  }

  /** A colour number of 24 bits is written as a # and six digits. */
  lemma ColorString(color: nat)
    requires color < 0x100_0000
    ensures |ColorToHex(color)| == 7 && ColorToHex(color)[0] == '#'
  {
    var r, g, b := Bytes(color);
    ThreeBytes(r, g, b);
  }
}
