/** The colour string format used for settings that hold a System.Drawing.Color:
    "#" then the alpha byte (left out when it is 255), red, green and blue, each as two
    lower-case hexadecimal digits. */
module ColorCodec {
  import opened Common
  import opened Text

  /** A System.Drawing.Color made by Color.FromArgb: its four channel bytes. */
  datatype Color = Color(a: byte, r: byte, g: byte, b: byte)

  // ---------------------------------------------------------------------------
  // Hexadecimal digits
  // ---------------------------------------------------------------------------

  /** The lower-case digit of d, as ToString("x2") writes it. */
  function HexDigit(d: nat): (ch: char)
    requires d < 16
    ensures ('0' <= ch <= '9') || ('a' <= ch <= 'f')
  {
    if d < 10 then ('0' as int + d) as char else ('a' as int + d - 10) as char
  }

  /** The value of a digit NumberStyles.AllowHexSpecifier accepts: 0-9, a-f and A-F. */
  function HexValue(ch: char): (r: Option<nat>)
    ensures r.Some? ==> r.value < 16
  {
    if '0' <= ch <= '9' then Some(ch as int - '0' as int)
    else if 'a' <= ch <= 'f' then Some(ch as int - 'a' as int + 10)
    else if 'A' <= ch <= 'F' then Some(ch as int - 'A' as int + 10)
    else None
  }

  /** Reading a written digit gives its value back. */
  lemma HexValueOfDigit(d: nat)
    requires d < 16
    ensures HexValue(HexDigit(d)) == Some(d)
  {
  }

  /** Writing the value of an accepted digit gives the digit in lower case. */
  lemma HexDigitOfValue(ch: char)
    requires HexValue(ch).Some?
    ensures HexDigit(HexValue(ch).value) == LowerChar(ch)
  {
  }

  predicate IsHex(s: string)
  {
    forall i :: 0 <= i < |s| ==> HexValue(s[i]).Some?
  }

  /** The number a string of hexadecimal digits denotes, most significant digit first. */
  function HexNumber(s: string): (v: nat)
    requires IsHex(s)
    decreases |s|
  {
    if s == [] then 0
    else
      var init := s[..|s| - 1];
      assert IsHex(init) by {
        forall i | 0 <= i < |init| ensures HexValue(init[i]).Some? {
          assert init[i] == s[i];
        }
      }
      HexNumber(s[..|s| - 1]) * 16 + HexValue(s[|s| - 1]).value
  }

  /** x.ToString("x2") for a byte. */
  function Hex2(x: byte): (s: string)
    ensures |s| == 2
  {
    [HexDigit(x / 16), HexDigit(x % 16)]
  }

  /** Two more digits multiply the number by 256 and add the byte they denote. */
  lemma HexNumberPair(s: string, p: string)
    requires IsHex(s) && IsHex(p) && |p| == 2
    ensures IsHex(s + p)
    ensures HexNumber(p) < 256
    ensures HexNumber(s + p) == HexNumber(s) * 256 + HexNumber(p)
  {
    var sp := s + p;
    assert IsHex(sp) by {
      forall i | 0 <= i < |sp| ensures HexValue(sp[i]).Some? {
        if i < |s| { assert sp[i] == s[i]; } else { assert sp[i] == p[i - |s|]; }
      }
    }
    var s1 := s + [p[0]];
    assert sp[..|sp| - 1] == s1 && sp[|sp| - 1] == p[1];
    assert s1[..|s1| - 1] == s && s1[|s1| - 1] == p[0];
    assert p[..1] == [p[0]] && [p[0]][..0] == [];
    var d0, d1 := HexValue(p[0]).value, HexValue(p[1]).value;
    assert HexNumber(p) == HexNumber([p[0]]) * 16 + d1;
    assert HexNumber([p[0]]) == d0;
    assert HexNumber(sp) == HexNumber(s1) * 16 + d1;
    assert HexNumber(s1) == HexNumber(s) * 16 + d0;
  }

  /** Hex2 writes accepted digits, and reading them gives the byte back. */
  lemma Hex2RoundTrip(x: byte)
    ensures IsHex(Hex2(x)) && HexNumber(Hex2(x)) == x
  {
    var h := Hex2(x);
    HexValueOfDigit(x / 16);
    HexValueOfDigit(x % 16);
    assert IsHex(h);
    assert h[..1] == [h[0]] && [h[0]][..0] == [];
    assert HexNumber([h[0]]) == x / 16;
  }

  /** Writing the byte two accepted digits denote gives those digits in lower case. */
  lemma Hex2OfPair(p: string)
    requires IsHex(p) && |p| == 2
    ensures HexNumber(p) < 256 && Hex2(HexNumber(p)) == ToLower(p)
  {
    HexNumberPair([], p);
    assert [] + p == p;
    assert p[..1] == [p[0]] && [p[0]][..0] == [];
    var d0, d1 := HexValue(p[0]).value, HexValue(p[1]).value;
    assert HexNumber([p[0]]) == d0;
    var x := HexNumber(p);
    assert x == d0 * 16 + d1;
    assert x / 16 == d0 && x % 16 == d1;
    HexDigitOfValue(p[0]);
    HexDigitOfValue(p[1]);
  }

  // ---------------------------------------------------------------------------
  // Channel fields of a 32-bit ARGB value
  // ---------------------------------------------------------------------------

  /** The 32-bit ARGB value of four channel bytes, alpha in the top byte. */
  function Argb(a: byte, r: byte, g: byte, b: byte): nat
  {
    a * 0x100_0000 + r * 0x1_0000 + g * 0x100 + b
  }

  /** The bytes (v >> 24) & 0xff, (v >> 16) & 0xff, (v >> 8) & 0xff and v & 0xff that
      StringToColor passes to Color.FromArgb; for a non-negative v each shift and mask is
      the quotient and remainder written here. */
  function Channels(v: nat): Color
  {
    Color(v / 0x100_0000 % 0x100, v / 0x1_0000 % 0x100, v / 0x100 % 0x100, v % 0x100)
  }

  /** Unpacking the ARGB value of four bytes gives the same four bytes. */
  lemma ChannelsOfArgb(a: byte, r: byte, g: byte, b: byte)
    ensures Channels(Argb(a, r, g, b)) == Color(a, r, g, b)
  {
    var v := Argb(a, r, g, b);
    assert v / 0x100_0000 == a;
    assert v / 0x1_0000 == a * 0x100 + r;
    assert v / 0x100 == a * 0x1_0000 + r * 0x100 + g;
  }

  // ---------------------------------------------------------------------------
  // The two conversions
  // ---------------------------------------------------------------------------

  /** ColorToString: "#", the alpha byte unless it is 255, then red, green and blue. */
  function ColorToString(c: Color): string
  {
    "#" + ColorDigits(c)
  }

  /** The digits of ColorToString after its "#". */
  function ColorDigits(c: Color): string
  {
    (if c.a != 255 then Hex2(c.a) else "") + Hex2(c.r) + Hex2(c.g) + Hex2(c.b)
  }

  /** The string without one leading "#". */
  function StripHash(str: string): (s: string)
    ensures s == str || "#" + s == str
  {
    if |str| > 0 && str[0] == '#' then str[1..] else str
  }

  /** StringToColor: drops one leading "#"; anything but 6 or 8 hexadecimal digits is a
      FormatException; 6 digits get alpha 255 (value |= 0xff000000, which adds
      0xff000000 to a value below 2^24). The bytes are then read from the top down. */
  function StringToColor(str: string): (r: Result<Color>)
    ensures r.Ok? <==> (|StripHash(str)| == 6 || |StripHash(str)| == 8) && IsHex(StripHash(str))
    ensures r.Err? ==> r.error == Format
  {
    var s := StripHash(str);
    if |s| != 6 && |s| != 8 then Err(Format)
    else if !IsHex(s) then Err(Format)
    else
      Ok(Channels(HexNumber(s) + if |s| == 6 then 0xff00_0000 else 0))
  }

  /** The digits ColorToString writes after the "#" denote the colour's ARGB value, once
      the implied alpha 255 of a six-digit string is added. */
  lemma DigitsOfColor(c: Color)
    ensures var body := ColorDigits(c);
            IsHex(body) && |body| == (if c.a != 255 then 8 else 6)
            && HexNumber(body) + (if c.a != 255 then 0 else 0xff00_0000) == Argb(c.a, c.r, c.g, c.b)
  {
    var alpha := if c.a != 255 then Hex2(c.a) else "";
    Hex2RoundTrip(c.r);
    Hex2RoundTrip(c.g);
    Hex2RoundTrip(c.b);
    if c.a != 255 {
      Hex2RoundTrip(c.a);
      HexNumberPair(Hex2(c.a), Hex2(c.r));
    } else {
      assert alpha + Hex2(c.r) == Hex2(c.r);
    }
    HexNumberPair(alpha + Hex2(c.r), Hex2(c.g));
    HexNumberPair(alpha + Hex2(c.r) + Hex2(c.g), Hex2(c.b));
  }

  /** Every colour is read back from the string it is written as. */
  lemma ColorRoundTrip(c: Color)
    ensures StringToColor(ColorToString(c)) == Ok(c)
  {
    var body := ColorDigits(c);
    assert ("#" + body)[1..] == body;
    DigitsOfColor(c);
    ChannelsOfArgb(c.a, c.r, c.g, c.b);
  }

  /** The string ColorToString writes for what str denotes: the digits in lower case after
      one "#", without an "ff" alpha. */
  function Canonical(str: string): string
  {
    var lower := ToLower(StripHash(str));
    if |lower| == 8 && lower[..2] == "ff" then "#" + lower[2..] else "#" + lower
  }

  lemma ToLowerConcat(x: string, y: string)
    ensures ToLower(x + y) == ToLower(x) + ToLower(y)
  {
    assert forall i :: 0 <= i < |x + y| ==> ToLower(x + y)[i] == (ToLower(x) + ToLower(y))[i];
  }

  /** Splits a digit string that ends in two more digits. */
  lemma SplitLastPair(s: string) returns (init: string, p: string)
    requires IsHex(s) && |s| >= 2
    ensures s == init + p && |p| == 2 && IsHex(init) && IsHex(p)
    ensures HexNumber(p) < 256 && HexNumber(s) == HexNumber(init) * 256 + HexNumber(p)
    ensures ToLower(s) == ToLower(init) + Hex2(HexNumber(p))
  {
    init, p := s[..|s| - 2], s[|s| - 2..];
    assert s == init + p;
    assert IsHex(init) by { forall i | 0 <= i < |init| ensures HexValue(init[i]).Some? { assert init[i] == s[i]; } }
    assert IsHex(p) by { forall i | 0 <= i < |p| ensures HexValue(p[i]).Some? { assert p[i] == s[|s| - 2 + i]; } }
    HexNumberPair(init, p);
    Hex2OfPair(p);
    ToLowerConcat(init, p);
  }

  /** Six digits: red, green and blue, below an implied alpha of 255. */
  lemma SixDigits(s: string) returns (r: byte, g: byte, b: byte)
    requires IsHex(s) && |s| == 6
    ensures HexNumber(s) + 0xff00_0000 == Argb(255, r, g, b)
    ensures ToLower(s) == Hex2(r) + Hex2(g) + Hex2(b)
  {
    var s2, pb := SplitLastPair(s);
    var s1, pg := SplitLastPair(s2);
    var s0, pr := SplitLastPair(s1);
    r, g, b := HexNumber(pr), HexNumber(pg), HexNumber(pb);
    assert s0 == [];
    assert ToLower(s0) == [];
  }

  /** Eight digits: alpha, red, green and blue. */
  lemma EightDigits(s: string) returns (a: byte, r: byte, g: byte, b: byte)
    requires IsHex(s) && |s| == 8
    ensures HexNumber(s) == Argb(a, r, g, b)
    ensures ToLower(s) == Hex2(a) + Hex2(r) + Hex2(g) + Hex2(b)
  {
    var s3, pb := SplitLastPair(s);
    var s2, pg := SplitLastPair(s3);
    var s1, pr := SplitLastPair(s2);
    Hex2OfPair(s1);
    a, r, g, b := HexNumber(s1), HexNumber(pr), HexNumber(pg), HexNumber(pb);
  }

  lemma Hex2IsFF(a: byte)
    ensures Hex2(a) == "ff" <==> a == 255
  {
    Hex2RoundTrip(a);
    Hex2RoundTrip(255);
  }

  /** The colour of six digits is written back as "#" and the digits in lower case. */
  lemma WrittenSix(s: string)
    requires IsHex(s) && |s| == 6
    ensures ColorToString(Channels(HexNumber(s) + 0xff00_0000)) == "#" + ToLower(s)
  {
    var r, g, b := SixDigits(s);
    ChannelsOfArgb(255, r, g, b);
    WrittenOpaque(r, g, b);
  }

  /** An opaque colour is written as its red, green and blue bytes. */
  lemma WrittenOpaque(r: byte, g: byte, b: byte)
    ensures ColorToString(Color(255, r, g, b)) == "#" + (Hex2(r) + Hex2(g) + Hex2(b))
  {
    assert "" + Hex2(r) == Hex2(r);
  }

  /** A colour is written as its four bytes, without the first when it is "ff". */
  lemma WrittenBytes(a: byte, r: byte, g: byte, b: byte)
    ensures var digits := Hex2(a) + Hex2(r) + Hex2(g) + Hex2(b);
            ColorToString(Color(a, r, g, b))
            == if digits[..2] == "ff" then "#" + digits[2..] else "#" + digits
  {
    var rgb := Hex2(r) + Hex2(g) + Hex2(b);
    var digits := Hex2(a) + Hex2(r) + Hex2(g) + Hex2(b);
    assert digits == Hex2(a) + rgb;
    assert digits[..2] == Hex2(a) && digits[2..] == rgb;
    Hex2IsFF(a);
    if a == 255 {
      assert ColorDigits(Color(a, r, g, b)) == rgb;
    } else {
      assert ColorDigits(Color(a, r, g, b)) == digits;
    }
  }

  /** The colour of eight digits is written back as "#" and the digits in lower case,
      without the first two when they are "ff". */
  lemma WrittenEight(s: string)
    requires IsHex(s) && |s| == 8
    ensures var lower := ToLower(s);
            ColorToString(Channels(HexNumber(s)))
            == if lower[..2] == "ff" then "#" + lower[2..] else "#" + lower
  {
    var a, r, g, b := EightDigits(s);
    ChannelsOfArgb(a, r, g, b);
    WrittenBytes(a, r, g, b);
  }

  /** Every string StringToColor accepts is written back by ColorToString in its canonical
      form. */
  lemma StringToColorCanonical(str: string)
    requires StringToColor(str).Ok?
    ensures ColorToString(StringToColor(str).value) == Canonical(str)
  {
    var s := StripHash(str);
    if |s| == 6 {
      WrittenSix(s);
    } else {
      WrittenEight(s);
    }
  }

  /** Reading a colour string again after writing it changes nothing: the canonical form
      denotes the same colour. */
  lemma CanonicalSameColor(str: string)
    requires StringToColor(str).Ok?
    ensures StringToColor(Canonical(str)) == StringToColor(str)
  {
    StringToColorCanonical(str);
    ColorRoundTrip(StringToColor(str).value);
  }
}
