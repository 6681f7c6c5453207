/** The background-colour decoder of a manifest's VisualElements entry
    (VisualElement.ToColor): a string of hexadecimal digits, with any number of
    `#` characters anywhere in it, becomes four 8-bit channels. */
module HexColor {
  import opened Wrappers

  /** An unsigned 8-bit channel value. */
  type byte = x: int | 0 <= x < 256

  /** The four channels of a colour, in the order the platform's FromArgb takes them. */
  datatype Color = Color(a: byte, r: byte, g: byte, b: byte)

  /** The two ways decoding fails: the length check (an ArgumentException with
      a fixed message) and a pair that is not hexadecimal (byte.Parse's FormatException). */
  datatype ColorError =
    | ArgumentError(message: string)
    | FormatError

  const NotAHexColorMessage: string := "This does not appear to be a proper hex color number"

  /** The channel value every local starts with (opaque white). */
  const DefaultChannel: byte := 255

  // ---------------------------------------------------------------------------
  // Removing `#`

  /** `s.Replace("#", "")`: every `#` is deleted, wherever it stands, and
      every other character is kept, in order. */
  function RemoveHashes(s: string): (r: string)
    ensures '#' !in r
    ensures '#' !in s ==> r == s
  {
    if s == [] then []
    else
      assert s == [s[0]] + s[1..];
      if s[0] == '#' then RemoveHashes(s[1..]) else [s[0]] + RemoveHashes(s[1..])
  }

  /** Deleting `#` distributes over concatenation, so the order of the kept
      characters is the order they had. */
  lemma {:induction false} RemoveHashesAppend(s: string, t: string)
    ensures RemoveHashes(s + t) == RemoveHashes(s) + RemoveHashes(t)
  {
    if s == [] {
      assert s + t == t;
    } else {
      assert (s + t)[0] == s[0];
      assert (s + t)[1..] == s[1..] + t;
      RemoveHashesAppend(s[1..], t);
    }
  }

  /** A leading `#` is removed. */
  lemma RemoveLeadingHash(t: string)
    requires '#' !in t
    ensures RemoveHashes("#" + t) == t
  {
    assert ("#" + t)[1..] == t;
  }

  /** Only `#` is lost: every other character keeps its number of occurrences. */
  lemma {:induction false} RemoveHashesCounts(s: string)
    ensures |RemoveHashes(s)| == |s| - multiset(s)['#']
    ensures forall c :: c != '#' ==> multiset(RemoveHashes(s))[c] == multiset(s)[c]
  {
    if s != [] {
      assert s == [s[0]] + s[1..];
      RemoveHashesCounts(s[1..]);
    }
  }

  // ---------------------------------------------------------------------------
  // Hexadecimal digits and pairs

  predicate IsHexDigit(c: char) {
    '0' <= c <= '9' || 'a' <= c <= 'f' || 'A' <= c <= 'F'
  }

  /** The value of one hexadecimal digit; upper- and lower-case letters agree. */
  function HexDigitValue(c: char): (d: nat)
    requires IsHexDigit(c)
    ensures d < 16
  {
    if '0' <= c <= '9' then c as int - '0' as int
    else if 'a' <= c <= 'f' then c as int - 'a' as int + 10
    else c as int - 'A' as int + 10
  }

  /** `byte.Parse(pair, NumberStyles.HexNumber)` on a two-character substring:
      the byte whose two hexadecimal digits (high, then low) the pair spells,
      or None when either character is not a hexadecimal digit. */
  function ParseHexByte(pair: string): (r: Option<byte>)
    requires |pair| == 2
    ensures r.Some? <==> IsHexDigit(pair[0]) && IsHexDigit(pair[1])
  {
    if IsHexDigit(pair[0]) && IsHexDigit(pair[1]) then
      Some(16 * HexDigitValue(pair[0]) + HexDigitValue(pair[1]))
    else
      None
  }

  /** The first character of a parsed pair is the high digit of its byte,
      the second the low digit. */
  lemma ParseHexByteNibbles(pair: string)
    requires |pair| == 2 && ParseHexByte(pair).Some?
    ensures ParseHexByte(pair).value / 16 == HexDigitValue(pair[0])
    ensures ParseHexByte(pair).value % 16 == HexDigitValue(pair[1])
  {
  }

  /** The value of the hexadecimal pair at positions i and i + 1 of s, as an
      independent reference for the channel values. */
  function PairValue(s: string, i: nat): int
    requires i + 2 <= |s| && IsHexDigit(s[i]) && IsHexDigit(s[i + 1])
  {
    16 * HexDigitValue(s[i]) + HexDigitValue(s[i + 1])
  }

  /** All characters of s in [lo, hi) are hexadecimal digits. */
  predicate AllHex(s: string, lo: nat, hi: nat)
    requires lo <= hi <= |s|
  {
    forall i :: lo <= i < hi ==> IsHexDigit(s[i])
  }

  // ---------------------------------------------------------------------------
  // Decoding

  /** What ToColor computes: the channels are read from the input with every
      `#` removed. */
  function Decode(hexValue: string): Result<Color, ColorError>
  {
    DecodeDigits(RemoveHashes(hexValue))
  }

  /** Decoding of the `#`-free digits: fewer than six characters is the
      length error; exactly eight give alpha, red, green, blue; any other
      length of at least six gives opaque alpha and red, green, blue from the
      first six characters, the rest being ignored. */
  function DecodeDigits(hex: string): Result<Color, ColorError>
  {
    if |hex| < 6 then
      Failure(ArgumentError(NotAHexColorMessage))
    else if |hex| == 8 then
      match (ParseHexByte(hex[0..2]), ParseHexByte(hex[2..4]), ParseHexByte(hex[4..6]), ParseHexByte(hex[6..8]))
      case (Some(a), Some(r), Some(g), Some(b)) => Success(Color(a, r, g, b))
      case _ => Failure(FormatError)
    else
      match (ParseHexByte(hex[0..2]), ParseHexByte(hex[2..4]), ParseHexByte(hex[4..6]))
      case (Some(r), Some(g), Some(b)) => Success(Color(DefaultChannel, r, g, b))
      case _ => Failure(FormatError)
  }

  /** VisualElement.ToColor as written: the parameter is overwritten with its
      `#`-free form, the channels start at 255, and the start position moves
      past an alpha pair when there are exactly eight digits. */
  method ToColor(hexValue: string) returns (res: Result<Color, ColorError>)
    ensures res == Decode(hexValue)
  {
    var hex := RemoveHashes(hexValue);
    if |hex| < 6 {
      return Failure(ArgumentError(NotAHexColorMessage));
    }
    var a, r, g, b := DefaultChannel, DefaultChannel, DefaultChannel, DefaultChannel;
    var startPosition := 0;
    if |hex| == 8 {
      var parsed := ParseHexByte(hex[0..2]);
      if parsed.None? {
        return Failure(FormatError);
      }
      a := parsed.value;
      startPosition := 2;
    }
    var parsed := ParseHexByte(hex[startPosition..startPosition + 2]);
    if parsed.None? {
      return Failure(FormatError);
    }
    r := parsed.value;
    parsed := ParseHexByte(hex[startPosition + 2..startPosition + 4]);
    if parsed.None? {
      return Failure(FormatError);
    }
    g := parsed.value;
    parsed := ParseHexByte(hex[startPosition + 4..startPosition + 6]);
    if parsed.None? {
      return Failure(FormatError);
    }
    b := parsed.value;
    res := Success(Color(a, r, g, b));
  }

  // ---------------------------------------------------------------------------
  // Properties of decoding

  /** A `#` anywhere in the input is invisible to decoding. */
  lemma DecodeIgnoresHashes(s: string, t: string)
    ensures Decode(s + "#" + t) == Decode(s + t)
  {
    RemoveHashesAppend(s + "#", t);
    RemoveHashesAppend(s, "#");
    RemoveHashesAppend(s, t);
    assert RemoveHashes("#") == [];
    assert RemoveHashes(s + "#" + t) == RemoveHashes(s + t);
  }

  /** With no other `#`, a leading `#` is skipped and the rest is decoded. */
  lemma DecodeLeadingHash(t: string)
    requires '#' !in t
    ensures Decode("#" + t) == DecodeDigits(t)
  {
    RemoveLeadingHash(t);
  }

  /** The length error happens exactly when fewer than six characters remain
      once `#` is removed, and it is the only error that carries a message. */
  lemma DecodeLengthError(s: string)
    ensures Decode(s).Failure? && Decode(s).error.ArgumentError? <==> |RemoveHashes(s)| < 6
    ensures |RemoveHashes(s)| < 6 ==> Decode(s) == Failure(ArgumentError(NotAHexColorMessage))
  {
  }

  /** Exactly eight digits: success exactly when all eight are hexadecimal,
      and then the pairs give alpha, red, green and blue in that order. */
  lemma DecodeDigitsWithAlpha(h: string)
    requires |h| == 8
    ensures DecodeDigits(h).Success? <==> AllHex(h, 0, 8)
    ensures DecodeDigits(h).Failure? ==> DecodeDigits(h) == Failure(FormatError)
    ensures DecodeDigits(h).Success? ==>
      DecodeDigits(h).value == Color(PairValue(h, 0), PairValue(h, 2), PairValue(h, 4), PairValue(h, 6))
  {
    assert h[0..2][0] == h[0] && h[0..2][1] == h[1];
    assert h[2..4][0] == h[2] && h[2..4][1] == h[3];
    assert h[4..6][0] == h[4] && h[4..6][1] == h[5];
    assert h[6..8][0] == h[6] && h[6..8][1] == h[7];
  }

  /** Any other length of at least six: success exactly when the first six
      characters are hexadecimal; alpha is then 255 and the three pairs give
      red, green and blue. */
  lemma DecodeDigitsWithoutAlpha(h: string)
    requires |h| >= 6 && |h| != 8
    ensures DecodeDigits(h).Success? <==> AllHex(h, 0, 6)
    ensures DecodeDigits(h).Failure? ==> DecodeDigits(h) == Failure(FormatError)
    ensures DecodeDigits(h).Success? ==>
      DecodeDigits(h).value == Color(255, PairValue(h, 0), PairValue(h, 2), PairValue(h, 4))
  {
    assert h[0..2][0] == h[0] && h[0..2][1] == h[1];
    assert h[2..4][0] == h[2] && h[2..4][1] == h[3];
    assert h[4..6][0] == h[4] && h[4..6][1] == h[5];
  }

  /** Without an alpha pair, characters after the sixth are never read: two
      inputs that agree on their first six `#`-free characters decode alike. */
  lemma DecodeIgnoresTail(s: string, t: string)
    requires |RemoveHashes(s)| >= 6 && |RemoveHashes(s)| != 8
    requires |RemoveHashes(t)| >= 6 && |RemoveHashes(t)| != 8
    requires RemoveHashes(s)[..6] == RemoveHashes(t)[..6]
    ensures Decode(s) == Decode(t)
  {
    var hs, ht := RemoveHashes(s), RemoveHashes(t);
    assert hs[0..2] == ht[0..2] && hs[2..4] == ht[2..4] && hs[4..6] == ht[4..6] by {
      assert hs[0..2] == hs[..6][0..2] && ht[0..2] == ht[..6][0..2];
      assert hs[2..4] == hs[..6][2..4] && ht[2..4] == ht[..6][2..4];
      assert hs[4..6] == hs[..6][4..6] && ht[4..6] == ht[..6][4..6];
    }
  }

  // ---------------------------------------------------------------------------
  // Case

  /** Upper-casing of ASCII letters; every other character is left alone. */
  function ToUpper(c: char): char {
    if 'a' <= c <= 'z' then (c as int - 32) as char else c
  }

  function UpperCase(s: string): string {
    seq(|s|, i requires 0 <= i < |s| => ToUpper(s[i]))
  }

  /** Upper-casing a pair does not change the byte it spells. */
  lemma ParseHexByteUpper(pair: string)
    requires |pair| == 2
    ensures ParseHexByte(UpperCase(pair)) == ParseHexByte(pair)
  {
    var u := UpperCase(pair);
    assert IsHexDigit(u[0]) <==> IsHexDigit(pair[0]);
    assert IsHexDigit(u[1]) <==> IsHexDigit(pair[1]);
  }

  /** Upper-casing and `#` removal commute (`#` is not a letter). */
  lemma {:induction false} RemoveHashesUpper(s: string)
    ensures RemoveHashes(UpperCase(s)) == UpperCase(RemoveHashes(s))
  {
    if s != [] {
      assert UpperCase(s)[1..] == UpperCase(s[1..]);
      RemoveHashesUpper(s[1..]);
      if s[0] != '#' {
        assert UpperCase([s[0]] + RemoveHashes(s[1..])) == [ToUpper(s[0])] + UpperCase(RemoveHashes(s[1..]));
      }
    }
  }

  /** Decoding does not distinguish upper- from lower-case digits. */
  lemma DecodeCaseInsensitive(s: string)
    ensures Decode(UpperCase(s)) == Decode(s)
  {
    RemoveHashesUpper(s);
    DecodeDigitsUpper(RemoveHashes(s));
  }

  lemma DecodeDigitsUpper(h: string)
    ensures DecodeDigits(UpperCase(h)) == DecodeDigits(h)
  {
    if |h| >= 6 {
      PairUpper(h, 0);
      PairUpper(h, 2);
      PairUpper(h, 4);
      if |h| == 8 {
        PairUpper(h, 6);
      }
      DecodeDigitsByPairs(UpperCase(h), h);
    }
  }

  /** Decoding depends only on the length and on what each consumed pair parses to. */
  lemma DecodeDigitsByPairs(h: string, k: string)
    requires |h| == |k| >= 6
    requires ParseHexByte(h[0..2]) == ParseHexByte(k[0..2])
    requires ParseHexByte(h[2..4]) == ParseHexByte(k[2..4])
    requires ParseHexByte(h[4..6]) == ParseHexByte(k[4..6])
    requires |h| == 8 ==> ParseHexByte(h[6..8]) == ParseHexByte(k[6..8])
    ensures DecodeDigits(h) == DecodeDigits(k)
  {
  }

  /** The pair at position i decodes alike before and after upper-casing. */
  lemma PairUpper(h: string, i: nat)
    requires i + 2 <= |h|
    ensures ParseHexByte(UpperCase(h)[i..i + 2]) == ParseHexByte(h[i..i + 2])
  {
    assert UpperCase(h)[i..i + 2] == UpperCase(h[i..i + 2]);
    ParseHexByteUpper(h[i..i + 2]);
  }

  // ---------------------------------------------------------------------------
  // Formatting, the inverse of decoding

  /** The hexadecimal digit for d, in upper or lower case. */
  function HexDigitChar(d: nat, upper: bool): (c: char)
    requires d < 16
    ensures IsHexDigit(c) && HexDigitValue(c) == d
  {
    if d < 10 then ('0' as int + d) as char
    else if upper then ('A' as int + d - 10) as char
    else ('a' as int + d - 10) as char
  }

  /** The two hexadecimal digits of x, high digit first. */
  function FormatHexByte(x: byte, upper: bool): (pair: string)
    ensures |pair| == 2
    ensures ParseHexByte(pair) == Some(x)
  {
    [HexDigitChar(x / 16, upper), HexDigitChar(x % 16, upper)]
  }

  /** A byte's two digits are recovered, up to case, from any pair that parses to it. */
  lemma FormatParseHexByte(pair: string)
    requires |pair| == 2 && ParseHexByte(pair).Some?
    ensures FormatHexByte(ParseHexByte(pair).value, true) == UpperCase(pair)
  {
    var x := ParseHexByte(pair).value;
    var f := FormatHexByte(x, true);
    var u := UpperCase(pair);
    ParseHexByteNibbles(pair);
    assert f[0] == u[0] by { HexDigitInjective(x / 16, pair[0]); }
    assert f[1] == u[1] by { HexDigitInjective(x % 16, pair[1]); }
  }

  /** A hexadecimal digit is determined, up to case, by its value. */
  lemma HexDigitInjective(d: nat, c: char)
    requires d < 16 && IsHexDigit(c) && HexDigitValue(c) == d
    ensures HexDigitChar(d, true) == ToUpper(c)
  {
  }

  function Prefix(hash: bool): string {
    if hash then "#" else ""
  }

  /** `RRGGBB`, optionally preceded by `#`. */
  function Format6(r: byte, g: byte, b: byte, hash: bool, upper: bool): (s: string)
    ensures |s| == 6 + |Prefix(hash)|
  {
    Prefix(hash) + FormatHexByte(r, upper) + FormatHexByte(g, upper) + FormatHexByte(b, upper)
  }

  /** `AARRGGBB`, optionally preceded by `#`. */
  function Format8(c: Color, hash: bool, upper: bool): (s: string)
    ensures |s| == 8 + |Prefix(hash)|
  {
    Prefix(hash) + FormatHexByte(c.a, upper) + FormatHexByte(c.r, upper)
      + FormatHexByte(c.g, upper) + FormatHexByte(c.b, upper)
  }

  /** An optional `#` in front of `#`-free digits is skipped. */
  lemma DecodePrefixed(hash: bool, digits: string)
    requires '#' !in digits
    ensures Decode(Prefix(hash) + digits) == DecodeDigits(digits)
  {
    if hash {
      RemoveLeadingHash(digits);
    } else {
      assert Prefix(hash) + digits == digits;
    }
  }

  /** Formatted bytes contain no `#`. */
  lemma FormattedHasNoHash(x: byte, upper: bool)
    ensures '#' !in FormatHexByte(x, upper)
  {
    var p := FormatHexByte(x, upper);
    assert IsHexDigit(p[0]) && IsHexDigit(p[1]);
  }

  /** Six formatted digits decode to the opaque colour they came from. */
  lemma DecodeFormat6(r: byte, g: byte, b: byte, hash: bool, upper: bool)
    ensures Decode(Format6(r, g, b, hash, upper)) == Success(Color(255, r, g, b))
  {
    var pr, pg, pb := FormatHexByte(r, upper), FormatHexByte(g, upper), FormatHexByte(b, upper);
    var digits := pr + pg + pb;
    FormattedHasNoHash(r, upper);
    FormattedHasNoHash(g, upper);
    FormattedHasNoHash(b, upper);
    assert '#' !in digits;
    assert Format6(r, g, b, hash, upper) == Prefix(hash) + digits;
    DecodePrefixed(hash, digits);
    assert digits[0..2] == pr && digits[2..4] == pg && digits[4..6] == pb;
  }

  /** Eight formatted digits decode to the colour they came from, alpha included. */
  lemma DecodeFormat8(c: Color, hash: bool, upper: bool)
    ensures Decode(Format8(c, hash, upper)) == Success(c)
  {
    var pa, pr := FormatHexByte(c.a, upper), FormatHexByte(c.r, upper);
    var pg, pb := FormatHexByte(c.g, upper), FormatHexByte(c.b, upper);
    var digits := pa + pr + pg + pb;
    FormattedHasNoHash(c.a, upper);
    FormattedHasNoHash(c.r, upper);
    FormattedHasNoHash(c.g, upper);
    FormattedHasNoHash(c.b, upper);
    assert '#' !in digits;
    assert Format8(c, hash, upper) == Prefix(hash) + digits;
    DecodePrefixed(hash, digits);
    assert digits[0..2] == pa && digits[2..4] == pr && digits[4..6] == pg && digits[6..8] == pb;
  }

  /** Upper-casing commutes with slicing. */
  lemma UpperCaseSlice(s: string, i: nat, j: nat)
    requires i <= j <= |s|
    ensures UpperCase(s)[i..j] == UpperCase(s[i..j])
  {
  }

  /** A string of six or eight characters is upper-cased pair by pair. */
  lemma UpperCaseInPairs(s: string)
    requires |s| == 6 || |s| == 8
    ensures |s| == 6 ==> UpperCase(s) == UpperCase(s[0..2]) + UpperCase(s[2..4]) + UpperCase(s[4..6])
    ensures |s| == 8 ==>
      UpperCase(s) == UpperCase(s[0..2]) + UpperCase(s[2..4]) + UpperCase(s[4..6]) + UpperCase(s[6..8])
  {
    var u := UpperCase(s);
    UpperCaseSlice(s, 0, 2);
    UpperCaseSlice(s, 2, 4);
    UpperCaseSlice(s, 4, 6);
    if |s| == 6 {
      assert u == u[0..2] + u[2..4] + u[4..6];
    } else {
      UpperCaseSlice(s, 6, 8);
      assert u == u[0..2] + u[2..4] + u[4..6] + u[6..8];
    }
  }

  /** Any six hexadecimal digits decode, and formatting the decoded channels
      gives back the same digits up to case. */
  lemma FormatDecode6(s: string)
    requires |s| == 6 && AllHex(s, 0, 6)
    ensures Decode(s).Success? && Decode(s).value.a == 255
    ensures var c := Decode(s).value; Format6(c.r, c.g, c.b, false, true) == UpperCase(s)
  {
    assert RemoveHashes(s) == s;
    assert s[0..2][0] == s[0] && s[0..2][1] == s[1];
    assert s[2..4][0] == s[2] && s[2..4][1] == s[3];
    assert s[4..6][0] == s[4] && s[4..6][1] == s[5];
    var r, g, b := ParseHexByte(s[0..2]).value, ParseHexByte(s[2..4]).value, ParseHexByte(s[4..6]).value;
    assert Decode(s) == Success(Color(255, r, g, b));
    FormatParseHexByte(s[0..2]);
    FormatParseHexByte(s[2..4]);
    FormatParseHexByte(s[4..6]);
    UpperCaseInPairs(s);
  }

  /** Any eight hexadecimal digits decode, and formatting the decoded colour
      gives back the same digits up to case. */
  lemma FormatDecode8(s: string)
    requires |s| == 8 && AllHex(s, 0, 8)
    ensures Decode(s).Success?
    ensures Format8(Decode(s).value, false, true) == UpperCase(s)
  {
    assert RemoveHashes(s) == s;
    assert s[0..2][0] == s[0] && s[0..2][1] == s[1];
    assert s[2..4][0] == s[2] && s[2..4][1] == s[3];
    assert s[4..6][0] == s[4] && s[4..6][1] == s[5];
    assert s[6..8][0] == s[6] && s[6..8][1] == s[7];
    var a, r := ParseHexByte(s[0..2]).value, ParseHexByte(s[2..4]).value;
    var g, b := ParseHexByte(s[4..6]).value, ParseHexByte(s[6..8]).value;
    assert Decode(s) == Success(Color(a, r, g, b));
    FormatParseHexByte(s[0..2]);
    FormatParseHexByte(s[2..4]);
    FormatParseHexByte(s[4..6]);
    FormatParseHexByte(s[6..8]);
    UpperCaseInPairs(s);
  }

  // ---------------------------------------------------------------------------
  // Worked inputs

  /** Six digits decode to an opaque colour. */
  lemma DecodeExampleOpaque()
    ensures Decode("FF8040") == Success(Color(255, 255, 128, 64))
  {
    DecodeFormat6(255, 128, 64, false, true);
    assert FormatHexByte(255, true) == "FF";
    assert FormatHexByte(128, true) == "80";
    assert FormatHexByte(64, true) == "40";
    assert Format6(255, 128, 64, false, true) == "FF8040";
  }

  /** Eight digits after a `#` carry alpha first. */
  lemma DecodeExampleAlpha()
    ensures Decode("#80FF8040") == Success(Color(128, 255, 128, 64))
  {
    var c := Color(128, 255, 128, 64);
    DecodeFormat8(c, true, true);
    assert FormatHexByte(255, true) == "FF";
    assert FormatHexByte(128, true) == "80";
    assert FormatHexByte(64, true) == "40";
    assert Format8(c, true, true) == "#80FF8040";
  }

  /** Three digits are too short. */
  lemma DecodeExampleTooShort()
    ensures Decode("#123") == Failure(ArgumentError(NotAHexColorMessage))
  {
    DecodeLeadingHash("123");
    assert "#" + "123" == "#123";
  }

  /** A non-hexadecimal pair is a format error. */
  lemma DecodeExampleNotHex()
    ensures Decode("ZZFFFF") == Failure(FormatError)
  {
    assert RemoveHashes("ZZFFFF") == "ZZFFFF";
    assert "ZZFFFF"[0..2] == "ZZ";
  }

  /** The length check is loose: seven digits are accepted and the seventh is
      never read. */
  lemma DecodeExampleSevenDigits()
    ensures Decode("#1234567") == Success(Color(255, 0x12, 0x34, 0x56))
  {
    DecodeFormat6(0x12, 0x34, 0x56, true, true);
    assert FormatHexByte(0x12, true) == "12";
    assert FormatHexByte(0x34, true) == "34";
    assert FormatHexByte(0x56, true) == "56";
    assert Format6(0x12, 0x34, 0x56, true, true) == "#123456";
    RemoveLeadingHash("123456");
    RemoveLeadingHash("1234567");
    assert "#" + "123456" == "#123456" && "#" + "1234567" == "#1234567";
    assert "1234567"[..6] == "123456"[..6];
    DecodeIgnoresTail("#1234567", "#123456");
  }

  /** A `#` between the pairs is removed like a leading one. */
  lemma DecodeExampleInnerHashes()
    ensures Decode("12#34#56") == Decode("123456")
  {
    assert "12" + "#" + "34#56" == "12#34#56";
    assert "12" + "34#56" == "1234#56";
    DecodeIgnoresHashes("12", "34#56");
    assert "1234" + "#" + "56" == "1234#56";
    assert "1234" + "56" == "123456";
    DecodeIgnoresHashes("1234", "56");
  }
}
