/**
 Color hex parsing and formatting (`Color.setHex`, `Color.toString`) and the
 packed 32-bit form `Color.rgbaInt`. Channels are reals nominally in [0, 1].
 */
module Colors {
  import opened Scalar
  import opened Wrappers

  datatype Color = Color(r: real, g: real, b: real, a: real)

  datatype HexError = MissingHash | BadLength | BadDigit

  /** The value of one hexadecimal digit, either case. */
  function HexValue(c: char): (v: Option<int>)
    ensures v.Some? ==> 0 <= v.value < 16
  {
    if '0' <= c <= '9' then Some(c as int - '0' as int)
    else if 'a' <= c <= 'f' then Some(c as int - 'a' as int + 10)
    else if 'A' <= c <= 'F' then Some(c as int - 'A' as int + 10)
    else None
  }

  /** The lower-case digit `toString(16)` writes for a value below 16. */
  function HexDigit(v: int): (c: char)
    requires 0 <= v < 16
    ensures HexValue(c) == Some(v)
    ensures '0' <= c <= '9' || 'a' <= c <= 'f'
  {
    if v < 10 then ('0' as int + v) as char else ('a' as int + v - 10) as char
  }

  predicate IsHexDigit(c: char) { HexValue(c).Some? }

  /** Folds an upper-case hexadecimal letter to lower case. */
  function LowerHex(c: char): char {
    if 'A' <= c <= 'F' then (c as int - 'A' as int + 'a' as int) as char else c
  }

  /** `setHex`: `#rgb`, `#rgba`, `#rrggbb` or `#rrggbbaa`. The engine only
      asserts the shape in its debug build; here a malformed string is an
      error instead. Alpha defaults to 1. */
  function SetHex(hex: string): (res: Result<Color, HexError>)
    ensures res.Success? <==> WellFormedHex(hex)
    ensures res.Success? ==> InUnitRange(res.value)
  {
    if |hex| == 0 || hex[0] != '#' then Failure(MissingHash)
    else if !(|hex| == 4 || |hex| == 5 || |hex| == 7 || |hex| == 9) then Failure(BadLength)
    else if exists i | 1 <= i < |hex| :: !IsHexDigit(hex[i]) then Failure(BadDigit)
    else if |hex| < 6 then
      Success(Color(Short(hex, 1), Short(hex, 2), Short(hex, 3),
                    if |hex| == 5 then Short(hex, 4) else 1.0))
    else
      Success(Color(Long(hex, 1), Long(hex, 3), Long(hex, 5),
                    if |hex| == 9 then Long(hex, 7) else 1.0))
  }

  ghost predicate WellFormedHex(hex: string) {
    && |hex| in {4, 5, 7, 9}
    && hex[0] == '#'
    && forall i | 1 <= i < |hex| :: IsHexDigit(hex[i])
  }

  ghost predicate InUnitRange(c: Color) {
    0.0 <= c.r <= 1.0 && 0.0 <= c.g <= 1.0 && 0.0 <= c.b <= 1.0 && 0.0 <= c.a <= 1.0
  }

  /** One shorthand digit scaled to [0, 1]. */
  function Short(hex: string, i: nat): (v: real)
    requires i < |hex| && IsHexDigit(hex[i])
    ensures 0.0 <= v <= 1.0
  {
    DivBounds(HexValue(hex[i]).value as real, 15.0);
    Clamp01(HexValue(hex[i]).value as real / 15.0)
  }

  /** One two-digit byte scaled to [0, 1]. */
  function Long(hex: string, i: nat): (v: real)
    requires i + 1 < |hex| && IsHexDigit(hex[i]) && IsHexDigit(hex[i + 1])
    ensures 0.0 <= v <= 1.0
  {
    DivBounds(ByteAt(hex, i) as real, 255.0);
    Clamp01(ByteAt(hex, i) as real / 255.0)
  }

  function ByteAt(hex: string, i: nat): (v: int)
    requires i + 1 < |hex| && IsHexDigit(hex[i]) && IsHexDigit(hex[i + 1])
    ensures 0 <= v < 256
  {
    HexValue(hex[i]).value * 16 + HexValue(hex[i + 1]).value
  }

  /** A channel as the whole number 0..255 the engine writes out
      (`clamp(c)*255|0`). */
  function ChannelByte(c: real): (n: int)
    ensures 0 <= n <= 255
    ensures 0.0 <= c <= 1.0 ==> n as real <= c * 255.0 < n as real + 1.0
  {
    var x := Clamp01(c);
    FractionOfSpan(x, 255.0);
    Trunc(x * 255.0)
  }

  /** `toHex`: a byte as exactly two lower-case digits, padded with 0. */
  function ByteHex(n: int): (s: string)
    requires 0 <= n <= 255
    ensures |s| == 2
  {
    (if n < 16 then "0" else "") + Base16(n)
  }

  /** `Number.prototype.toString(16)` for 0..255. */
  function Base16(n: int): (s: string)
    requires 0 <= n <= 255
    ensures |s| == (if n < 16 then 1 else 2)
  {
    if n < 16 then [HexDigit(n)] else [HexDigit(n / 16), HexDigit(n % 16)]
  }

  /** `toString(useAlpha)`: `#rrggbb`, followed by `aa` when asked. */
  function ToString(c: Color, useAlpha: bool): (s: string)
    ensures |s| == if useAlpha then 9 else 7
    ensures s[0] == '#'
  {
    Format(ChannelByte(c.r), ChannelByte(c.g), ChannelByte(c.b),
           if useAlpha then ChannelByte(c.a) else -1)
  }

  /** The text `toString` builds from the channel bytes; `a` is -1 when
      alpha is left out. */
  function Format(r: int, g: int, b: int, a: int): (s: string)
    requires 0 <= r <= 255 && 0 <= g <= 255 && 0 <= b <= 255 && -1 <= a <= 255
    ensures |s| == if a < 0 then 7 else 9
    ensures s[0] == '#'
  {
    "#" + ByteHex(r) + ByteHex(g) + ByteHex(b) + (if a < 0 then "" else ByteHex(a))
  }

  /** The color `toString` followed by `setHex` lands on: each channel
      rounded down to a multiple of 1/255, alpha 1 when it was left out. */
  function Quantized(c: Color, useAlpha: bool): Color {
    Color(ChannelByte(c.r) as real / 255.0, ChannelByte(c.g) as real / 255.0,
          ChannelByte(c.b) as real / 255.0,
          if useAlpha then ChannelByte(c.a) as real / 255.0 else 1.0)
  }

  /** `rgbaInt`: the four bytes packed little-end first. Shifting alpha
      left by 24 happens in 32-bit signed arithmetic, so the result is
      negative whenever the alpha byte is 128 or more. */
  function RgbaInt(c: Color): (v: int)
    ensures -0x8000_0000 <= v < 0x8000_0000
    ensures v < 0 <==> ChannelByte(c.a) >= 128
  {
    ChannelByte(c.r) + ChannelByte(c.g) * 0x100 + ChannelByte(c.b) * 0x1_0000
      + ToInt32(ChannelByte(c.a) * 0x100_0000)
  }

  /** Reinterprets a value in [0, 2^32) as a signed 32-bit integer. */
  function ToInt32(x: int): (v: int)
    requires 0 <= x < 0x1_0000_0000
    ensures v % 0x1_0000_0000 == x
    ensures -0x8000_0000 <= v < 0x8000_0000
  {
    if x >= 0x8000_0000 then x - 0x1_0000_0000 else x
  }

  // ---------------------------------------------------------------------
  // Round trips

  /** The two digits written for a byte parse back to that byte. */
  lemma ByteHexParses(n: int)
    requires 0 <= n <= 255
    ensures var s := ByteHex(n); IsHexDigit(s[0]) && IsHexDigit(s[1]) && ByteAt(s, 0) == n
  {
    var s := ByteHex(n);
    if n < 16 {
      assert s == ['0', HexDigit(n)];
    } else {
      assert s == [HexDigit(n / 16), HexDigit(n % 16)];
    }
  }

  /** A byte scaled to [0, 1] and written out again gives the same byte. */
  lemma ChannelByteOfByte(n: int)
    requires 0 <= n <= 255
    ensures ChannelByte(n as real / 255.0) == n
  {
    var x := n as real / 255.0;
    DivBounds(n as real, 255.0);
    assert x * 255.0 == n as real;
    assert Clamp01(x) == x;
  }

  /** Formatting then parsing yields the quantized color. */
  lemma SetHexOfToString(c: Color, useAlpha: bool)
    ensures SetHex(ToString(c, useAlpha)) == Success(Quantized(c, useAlpha))
  {
    var r, g, b := ChannelByte(c.r), ChannelByte(c.g), ChannelByte(c.b);
    var a := if useAlpha then ChannelByte(c.a) else -1;
    assert ToString(c, useAlpha) == Format(r, g, b, a);
    SetHexOfFormat(r, g, b, a);
    assert Quantized(c, useAlpha) == Color(r as real / 255.0, g as real / 255.0, b as real / 255.0,
                                           if a >= 0 then a as real / 255.0 else 1.0);
  }

  /** The text of four bytes parses back to those bytes over 255. */
  lemma SetHexOfFormat(r: int, g: int, b: int, a: int)
    requires 0 <= r <= 255 && 0 <= g <= 255 && 0 <= b <= 255 && -1 <= a <= 255
    ensures SetHex(Format(r, g, b, a)) == Success(Color(r as real / 255.0, g as real / 255.0, b as real / 255.0,
                                                        if a >= 0 then a as real / 255.0 else 1.0))
  {
    var s := Format(r, g, b, a);
    FormatLayout(r, g, b, a);
    SetHexLong(s);
    LongOfByte(s, 1, r);
    LongOfByte(s, 3, g);
    LongOfByte(s, 5, b);
    if a >= 0 {
      LongOfByte(s, 7, a);
    }
  }

  lemma LongOfByte(s: string, i: nat, n: int)
    requires i + 1 < |s| && IsHexDigit(s[i]) && IsHexDigit(s[i + 1])
    requires ByteAt(s, i) == n
    ensures Long(s, i) == n as real / 255.0
  {
    DivBounds(n as real, 255.0);
  }

  /** Where each byte's digits sit in the formatted string. */
  lemma FormatLayout(r: int, g: int, b: int, a: int)
    requires 0 <= r <= 255 && 0 <= g <= 255 && 0 <= b <= 255 && -1 <= a <= 255
    ensures var s := Format(r, g, b, a);
      && WellFormedHex(s)
      && ByteAt(s, 1) == r && ByteAt(s, 3) == g && ByteAt(s, 5) == b
      && (a >= 0 ==> ByteAt(s, 7) == a)
  {
    var s := Format(r, g, b, a);
    ByteHexParses(r);
    ByteHexParses(g);
    ByteHexParses(b);
    var hr, hg, hb := ByteHex(r), ByteHex(g), ByteHex(b);
    var tail := if a < 0 then "" else ByteHex(a);
    if a >= 0 {
      ByteHexParses(a);
    }
    assert s == "#" + hr + hg + hb + tail;
    assert s[1] == hr[0] && s[2] == hr[1];
    assert s[3] == hg[0] && s[4] == hg[1];
    assert s[5] == hb[0] && s[6] == hb[1];
    assert a >= 0 ==> s[7] == tail[0] && s[8] == tail[1];
    assert forall i | 1 <= i < |s| :: IsHexDigit(s[i]) by {
      forall i | 1 <= i < |s| ensures IsHexDigit(s[i]) {
        if i == 1 || i == 2 {
        } else if i == 3 || i == 4 {
        } else if i == 5 || i == 6 {
        } else {
          assert i == 7 || i == 8;
        }
      }
    }
  }

  /** Parsing a full-length code then formatting it gives the code back,
      in lower case. */
  lemma ToStringOfSetHex(hex: string)
    requires |hex| == 7 || |hex| == 9
    requires WellFormedHex(hex)
    ensures SetHex(hex).Success?
    ensures var s := ToString(SetHex(hex).value, |hex| == 9);
      |s| == |hex| && s[0] == '#' && forall i | 1 <= i < |hex| :: s[i] == LowerHex(hex[i])
  {
    SetHexLong(hex);
    ToStringOfLong(hex, SetHex(hex).value);
  }

  lemma ToStringOfLong(hex: string, c: Color)
    requires |hex| == 7 || |hex| == 9
    requires WellFormedHex(hex)
    requires c == Color(Long(hex, 1), Long(hex, 3), Long(hex, 5),
                        if |hex| == 9 then Long(hex, 7) else 1.0)
    ensures var s := ToString(c, |hex| == 9);
      |s| == |hex| && s[0] == '#' && forall i | 1 <= i < |hex| :: s[i] == LowerHex(hex[i])
  {
    var useAlpha := |hex| == 9;
    ByteRoundTrip(hex, 1);
    ByteRoundTrip(hex, 3);
    ByteRoundTrip(hex, 5);
    var hr, hg, hb := ByteHex(ChannelByte(c.r)), ByteHex(ChannelByte(c.g)), ByteHex(ChannelByte(c.b));
    var tail := if useAlpha then ByteHex(ChannelByte(c.a)) else "";
    if useAlpha {
      ByteRoundTrip(hex, 7);
    }
    assert ToString(c, useAlpha) == "#" + hr + hg + hb + tail;
    DigitsInPlace(hex, hr, hg, hb, tail);
  }

  /** Four two-digit groups that each lower-case their place in `hex`,
      joined after the '#', match `hex` digit by digit. */
  lemma DigitsInPlace(hex: string, hr: string, hg: string, hb: string, tail: string)
    requires |hex| == 7 + |tail| && hex[0] == '#'
    requires hr == [LowerHex(hex[1]), LowerHex(hex[2])]
    requires hg == [LowerHex(hex[3]), LowerHex(hex[4])]
    requires hb == [LowerHex(hex[5]), LowerHex(hex[6])]
    requires tail == [] || (|hex| == 9 && tail == [LowerHex(hex[7]), LowerHex(hex[8])])
    ensures var s := "#" + hr + hg + hb + tail;
      |s| == |hex| && s[0] == '#' && forall i | 1 <= i < |hex| :: s[i] == LowerHex(hex[i])
  {
    var s := "#" + hr + hg + hb + tail;
    forall i | 1 <= i < |hex| ensures s[i] == LowerHex(hex[i]) {
      if i < 3 {
        assert s[i] == hr[i - 1];
      } else if i < 5 {
        assert s[i] == hg[i - 3];
      } else if i < 7 {
        assert s[i] == hb[i - 5];
      } else {
        assert s[i] == tail[i - 7];
      }
    }
  }

  lemma SetHexLong(hex: string)
    requires |hex| == 7 || |hex| == 9
    requires WellFormedHex(hex)
    ensures SetHex(hex) == Success(Color(Long(hex, 1), Long(hex, 3), Long(hex, 5),
                                         if |hex| == 9 then Long(hex, 7) else 1.0))
  {
  }

  /** The byte at `i` comes back out of `Long` as the same two digits,
      lower-cased. */
  lemma ByteRoundTrip(hex: string, i: nat)
    requires i + 1 < |hex| && IsHexDigit(hex[i]) && IsHexDigit(hex[i + 1])
    ensures ByteHex(ChannelByte(Long(hex, i))) == [LowerHex(hex[i]), LowerHex(hex[i + 1])]
  {
    var n := ByteAt(hex, i);
    DivBounds(n as real, 255.0);
    assert Long(hex, i) == n as real / 255.0;
    ChannelByteOfByte(n);
    var hi, lo := HexValue(hex[i]).value, HexValue(hex[i + 1]).value;
    assert n / 16 == hi && n % 16 == lo;
    DigitOfValue(hex[i]);
    DigitOfValue(hex[i + 1]);
    var h := ByteHex(n);
    if n < 16 {
      assert h == ['0', HexDigit(n)];
    } else {
      assert h == [HexDigit(n / 16), HexDigit(n % 16)];
    }
  }

  lemma DigitOfValue(c: char)
    requires IsHexDigit(c)
    ensures HexDigit(HexValue(c).value) == LowerHex(c)
  {
  }

  /** The packed value, read as unsigned, holds each byte in its own lane:
      peeling off 8 bits at a time yields red, green, blue, then alpha. */
  lemma RgbaIntLanes(c: Color)
    ensures var u := RgbaInt(c) % 0x1_0000_0000;
      && u % 0x100 == ChannelByte(c.r)
      && u / 0x100 % 0x100 == ChannelByte(c.g)
      && u / 0x100 / 0x100 % 0x100 == ChannelByte(c.b)
      && u / 0x100 / 0x100 / 0x100 == ChannelByte(c.a)
  {
    var R, G, B, A := ChannelByte(c.r), ChannelByte(c.g), ChannelByte(c.b), ChannelByte(c.a);
    var top := B + A * 0x100;
    var mid := G + top * 0x100;
    var u := R + mid * 0x100;
    assert u == R + G * 0x100 + B * 0x1_0000 + A * 0x100_0000;
    assert 0 <= u < 0x1_0000_0000;
    if A >= 128 {
      assert RgbaInt(c) == u - 0x1_0000_0000;
      Wrap(u);
    } else {
      assert RgbaInt(c) == u;
    }
    Lane(R, mid);
    Lane(G, top);
    Lane(B, A);
  }

  lemma Wrap(u: int)
    requires 0 <= u < 0x1_0000_0000
    ensures (u - 0x1_0000_0000) % 0x1_0000_0000 == u
  {
  }

  lemma Lane(lo: int, hi: int)
    requires 0 <= lo < 0x100
    ensures (lo + hi * 0x100) % 0x100 == lo
    ensures (lo + hi * 0x100) / 0x100 == hi
  {
  }
}
