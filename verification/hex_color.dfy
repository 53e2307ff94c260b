/**
 * `hexToVec3` (src/util/hexToVec3.ts): a `#RRGGBB` colour becomes three
 * numbers read with `parseInt(…, 16)`.  `parseInt` is modelled exactly as
 * ECMAScript defines it for radix 16; `None` stands for `NaN`.
 */
module HexColor {
  import opened Ast

  datatype Vec3 = Vec3(r: Option<int>, g: Option<int>, b: Option<int>)

  predicate IsHexDigit(c: char)
  {
    ('0' <= c <= '9') || ('a' <= c <= 'f') || ('A' <= c <= 'F')
  }

  /** The value of a hex digit (0 for any other character, which is never read as a digit). */
  function DigitValue(c: char): (v: nat)
    ensures v < 16
  {
    if '0' <= c <= '9' then (c - '0') as nat
    else if 'a' <= c <= 'f' then (c - 'a') as nat + 10
    else if 'A' <= c <= 'F' then (c - 'A') as nat + 10
    else 0
  }

  /** The value of a run of hex digits, most significant first. */
  function HexValue(s: string): (v: nat)
    decreases |s|
  {
    if |s| == 0 then 0 else 16 * HexValue(s[..|s| - 1]) + DigitValue(s[|s| - 1])
  }

  /** `s` without its leading white space. */
  function TrimStart(s: string): string
    decreases |s|
  {
    if |s| > 0 && IsJsSpace(s[0]) then TrimStart(s[1..]) else s
  }

  /** What is left after trimming is a suffix that does not start with white space. */
  lemma {:induction false} TrimStartSuffix(s: string)
    ensures var r := TrimStart(s);
      |r| <= |s| && r == s[|s| - |r|..] && (|r| > 0 ==> !IsJsSpace(r[0]))
    decreases |s|
  {
    if |s| > 0 && IsJsSpace(s[0]) {
      var t := s[1..];
      TrimStartSuffix(t);
      var r := TrimStart(t);
      assert TrimStart(s) == r;
      assert t[|t| - |r|..] == s[|s| - |r|..];
    }
  }

  /** Length of the longest prefix of hex digits. */
  function DigitRun(s: string): (n: nat)
    ensures n <= |s|
    decreases |s|
  {
    if |s| > 0 && IsHexDigit(s[0]) then 1 + DigitRun(s[1..]) else 0
  }

  /** The run is made of hex digits and stops at the first character that is not one. */
  lemma {:induction false} DigitRunLongest(s: string)
    ensures forall i :: 0 <= i < DigitRun(s) ==> IsHexDigit(s[i])
    ensures DigitRun(s) < |s| ==> !IsHexDigit(s[DigitRun(s)])
    decreases |s|
  {
    if |s| > 0 && IsHexDigit(s[0]) {
      DigitRunLongest(s[1..]);
      assert forall i :: 1 <= i < DigitRun(s) ==> s[i] == s[1..][i - 1];
    }
  }

  /** `parseInt(s, 16)`: white space, a sign and a `0x` prefix may precede the digits. */
  function ParseHex(s: string): (r: Option<int>)
    ensures r.Some? <==> |Digits(s)| > 0
  {
    var d := Digits(s);
    if |d| == 0 then None
    else if IsNegative(s) then Some(0 - HexValue(d) as int)
    else Some(HexValue(d) as int)
  }

  predicate IsNegative(s: string)
  {
    var t := TrimStart(s);
    |t| > 0 && t[0] == '-'
  }

  /** The digits `parseInt` reads: the longest run of hex digits after the prefix. */
  function Digits(s: string): string
  {
    var v := Unprefixed(s);
    v[..DigitRun(v)]
  }

  /** What `parseInt` reads its digits from: `s` without leading space, sign and `0x`. */
  function Unprefixed(s: string): string
  {
    var t := TrimStart(s);
    var u := if |t| > 0 && (t[0] == '-' || t[0] == '+') then t[1..] else t;
    if |u| >= 2 && u[0] == '0' && (u[1] == 'x' || u[1] == 'X') then u[2..] else u
  }

  lemma {:induction false} DigitRunAll(s: string)
    requires forall i :: 0 <= i < |s| ==> IsHexDigit(s[i])
    ensures DigitRun(s) == |s|
    decreases |s|
  {
    if |s| > 0 {
      DigitRunAll(s[1..]);
    }
  }

  /** A non-empty run of hex digits is read as its value. */
  lemma ParseHexOfDigits(s: string)
    requires |s| > 0 && forall i :: 0 <= i < |s| ==> IsHexDigit(s[i])
    ensures ParseHex(s).Some? && ParseHex(s).value == HexValue(s)
  {
    DigitsOfDigits(s);
    TrimPlain(s);
    assert !IsNegative(s);
  }

  lemma TrimPlain(s: string)
    requires |s| > 0 && IsHexDigit(s[0])
    ensures TrimStart(s) == s
  {
    HexDigitIsPlain(s[0]);
  }

  /** A string of digits has no sign, prefix or run end: `parseInt` reads all of it. */
  lemma DigitsOfDigits(s: string)
    requires |s| > 0 && forall i :: 0 <= i < |s| ==> IsHexDigit(s[i])
    ensures Digits(s) == s
  {
    TrimPlain(s);
    HexDigitIsPlain(s[0]);
    if |s| >= 2 {
      HexDigitIsPlain(s[1]);
    }
    assert Unprefixed(s) == s;
    DigitRunAll(s);
    assert s[..|s|] == s;
  }

  /** A hex digit is neither white space, nor a sign, nor the `x` of a `0x` prefix. */
  lemma HexDigitIsPlain(c: char)
    requires IsHexDigit(c)
    ensures !IsJsSpace(c) && c != '-' && c != '+' && c != 'x' && c != 'X'
  {
  }

  /** `hex.slice(a, b)` for non-negative bounds. */
  function StrSlice(s: string, a: nat, b: nat): (r: string)
    ensures a <= b <= |s| ==> r == s[a..b]
  {
    var lo := if a < |s| then a else |s|;
    var hi := if b < |s| then b else |s|;
    if lo < hi then s[lo..hi] else []
  }

  /** The string after the optional leading `#`. */
  function StripHash(hex: string): (r: string)
    ensures |hex| > 0 && hex[0] == '#' ==> r == hex[1..]
    ensures !(|hex| > 0 && hex[0] == '#') ==> r == hex
  {
    if |hex| > 0 && hex[0] == '#' then hex[1..] else hex
  }

  /** `hexToVec3`. */
  function HexToVec3(hex: string): Vec3
  {
    var s := StripHash(hex);
    Vec3(ParseHex(StrSlice(s, 0, 2)), ParseHex(StrSlice(s, 2, 4)), ParseHex(StrSlice(s, 4, 6)))
  }

  /** One leading `#` is optional: `#RRGGBB` and `RRGGBB` give the same triple. */
  lemma HashIsOptional(s: string)
    requires !(|s| > 0 && s[0] == '#')
    ensures HexToVec3(['#'] + s) == HexToVec3(s)
  {
    assert (['#'] + s)[1..] == s;
  }

  /** Only the first six characters after the `#` are read. */
  lemma {:induction false} TrailingTextIgnored(s: string, tail: string)
    requires |s| == 6 && s[0] != '#'
    ensures HexToVec3(s + tail) == HexToVec3(s)
  {
    var st := s + tail;
    assert StripHash(st) == st;
    assert StrSlice(st, 0, 2) == StrSlice(s, 0, 2);
    assert StrSlice(st, 2, 4) == StrSlice(s, 2, 4);
    assert StrSlice(st, 4, 6) == StrSlice(s, 4, 6);
  }

  /** The lower-case hexadecimal digit for a value below 16. */
  function HexDigit(v: nat): (c: char)
    requires v < 16
    ensures IsHexDigit(c) && DigitValue(c) == v
  {
    if v < 10 then ('0' as int + v) as char else ('a' as int + v - 10) as char
  }

  /** Two hex digits, as a colour picker writes a component in `[0, 255]`. */
  function Byte(v: nat): (s: string)
    requires v < 256
    ensures |s| == 2 && IsHexDigit(s[0]) && IsHexDigit(s[1])
    ensures DigitValue(s[0]) == v / 16 && DigitValue(s[1]) == v % 16
  {
    [HexDigit(v / 16), HexDigit(v % 16)]
  }

  /** A pair of hex digits is parsed as `16 * hi + lo`, which lies in `[0, 255]`. */
  lemma PairValue(p: string)
    requires |p| == 2 && IsHexDigit(p[0]) && IsHexDigit(p[1])
    ensures ParseHex(p).Some? && ParseHex(p).value == 16 * DigitValue(p[0]) + DigitValue(p[1])
    ensures 0 <= 16 * DigitValue(p[0]) + DigitValue(p[1]) <= 255
  {
    ParseHexOfDigits(p);
    assert p[..|p| - 1] == [p[0]];
    assert HexValue([p[0]]) == DigitValue(p[0]) by {
      assert [p[0]][..0] == [];
    }
  }

  /** For six valid hex digits each component is `16 * hi + lo` of its pair. */
  lemma SixDigits(s: string)
    requires |s| == 6 && forall i :: 0 <= i < 6 ==> IsHexDigit(s[i])
    ensures var c := HexToVec3(s);
      c.r.Some? && c.g.Some? && c.b.Some?
      && c.r.value == 16 * DigitValue(s[0]) + DigitValue(s[1])
      && c.g.value == 16 * DigitValue(s[2]) + DigitValue(s[3])
      && c.b.value == 16 * DigitValue(s[4]) + DigitValue(s[5])
  {
    var p0, p1, p2 := s[0..2], s[2..4], s[4..6];
    assert p0[0] == s[0] && p0[1] == s[1];
    assert p1[0] == s[2] && p1[1] == s[3];
    assert p2[0] == s[4] && p2[1] == s[5];
    PairValue(p0);
    PairValue(p1);
    PairValue(p2);
    assert HexToVec3(s) == Vec3(ParseHex(p0), ParseHex(p1), ParseHex(p2)) by {
      assert StripHash(s) == s;
      assert StrSlice(s, 0, 2) == p0 && StrSlice(s, 2, 4) == p1 && StrSlice(s, 4, 6) == p2;
    }
  }

  /** The six digits of `#rrggbb` without the `#`. */
  function SixHex(r: nat, g: nat, b: nat): (s: string)
    requires r < 256 && g < 256 && b < 256
    ensures |s| == 6 && forall i :: 0 <= i < 6 ==> IsHexDigit(s[i])
    ensures 16 * DigitValue(s[0]) + DigitValue(s[1]) == r
    ensures 16 * DigitValue(s[2]) + DigitValue(s[3]) == g
    ensures 16 * DigitValue(s[4]) + DigitValue(s[5]) == b
  {
    Byte(r) + Byte(g) + Byte(b)
  }

  /** Writing a colour as `#rrggbb` and reading it back gives the same three numbers. */
  lemma RoundTrip(r: nat, g: nat, b: nat)
    requires r < 256 && g < 256 && b < 256
    ensures var c := HexToVec3(['#'] + Byte(r) + Byte(g) + Byte(b));
      c.r.Some? && c.g.Some? && c.b.Some? && c.r.value == r && c.g.value == g && c.b.value == b
  {
    var s := SixHex(r, g, b);
    var c := HexToVec3(s);
    assert HexToVec3(['#'] + Byte(r) + Byte(g) + Byte(b)) == c by {
      assert ['#'] + Byte(r) + Byte(g) + Byte(b) == ['#'] + s;
      HashIsOptional(s);
    }
    SixDigits(s);
  }
}
