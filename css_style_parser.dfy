/**
 * `CSSStyleParser`: the tokenizer and recursive-descent parser for the declarations of a CSS
 * `style` attribute (`name: value [, value]* [!important] ; ...`).
 *
 * The source matches its tokens with `java.util.regex` patterns; each pattern is written here as a
 * recognizer function over the buffer and a start index (the regex engine is library code).  Every
 * pattern used is deterministic in the sense that its one match is found by a greedy left-to-right
 * scan, which the recognizers perform.  Numbers are kept as the text they were written with, since
 * `float` arithmetic is not modelled; `rgb()` channels are computed exactly (see README).
 *
 * The callbacks a subclass overrides are recorded as a trace of `Event`s; the default formatting
 * of the string, identifier, colour and URL callbacks is given by `DefaultValue`.
 */
module CSSStyleParser {
  import opened Wrappers
  import opened JStrings
  import CSSUtils

  // ---------------------------------------------------------------- tokens

  datatype Token =
    | Eof
    | Ident(name: JString)
    | Colon
    | Minus
    | Plus
    | Color(rgb: int)
    | Url(url: JString)
    | Str(text: JString)
    | Number(numeral: JString, units: Option<JString>)
    | Slash
    | Comma
    | Semicolon
    | Important

  /** The two exceptions that leave the parser: `java.text.ParseException` and the
    * `NumberFormatException` of `Integer.parseInt` on a long `#` colour. */
  datatype CssError =
    | ParseException(message: JString, errorOffset: nat)
    | NumberFormatError

  /** A token and the buffer position just after it. */
  datatype Lexed = Lexed(token: Token, end: nat)

  const SPACE: JChar := 32
  const QUOTE: JChar := 34
  const APOS: JChar := 39
  const BACKSLASH: JChar := 92

  // ---------------------------------------------------------------- character classes

  /** `isSpace`: the blanks skipped between tokens. */
  predicate IsSpace(c: JChar) { c == 32 || c == 10 || c == 9 || c == 13 }

  /** `\s` of a Java regex: space, tab, newline, vertical tab, form feed, carriage return. */
  predicate IsRegexSpace(c: JChar) { c == 32 || 9 <= c <= 13 }

  predicate IsIdentStart(c: JChar) { IsAsciiLetter(c) || 0xA1 <= c <= 0xFF }
  predicate IsIdentPart(c: JChar) { c == '-' as JChar || IsAsciiAlnum(c) || 0xA1 <= c <= 0xFF }

  /** What a backslash may escape inside a quoted string: tab, CR, LF, `' '`..`'~'`, `\200`..`\377`. */
  predicate IsStringEscapable(c: JChar) { CSSUtils.IsPlain(c) || c == 10 || c == 13 }

  /** An unescaped char of an unquoted URL: `'!'`..`'~'` except quotes, parentheses and backslash. */
  predicate IsUrlPlain(c: JChar) {
    '!' as JChar <= c <= '~' as JChar && c != APOS && c != QUOTE &&
    c != '(' as JChar && c != ')' as JChar && c != BACKSLASH
  }

  /** A char a backslash escapes literally in an unquoted URL: printable or `\200`..`\377`, not hex. */
  predicate IsUrlEscapable(c: JChar) {
    (SPACE <= c <= '~' as JChar || 0x80 <= c <= 0xFF) && !IsHexDigit(c)
  }

  /** The optional blank after a hex escape in an unquoted URL. */
  predicate IsUrlHexEnd(c: JChar) { c == 32 || c == 9 || c == 13 || c == 10 }

  /** `fromHex`: the value of an ASCII hex digit, -1 for any other char. */
  function FromHex(c: JChar): (v: int)
    ensures IsHexDigit(c) ==> v == HexValue(c)
    ensures !IsHexDigit(c) <==> v == -1
  {
    if '0' as JChar <= c <= '9' as JChar then (c - '0' as JChar) as int
    else if 'a' as JChar <= c <= 'f' as JChar then (c - 'a' as JChar) as int + 10
    else if 'A' as JChar <= c <= 'F' as JChar then (c - 'A' as JChar) as int + 10
    else -1
  }

  /** ASCII case-insensitive comparison of one char with a lower-case letter. */
  predicate IsLetterCI(c: JChar, lower: char)
    requires 'a' <= lower <= 'z'
  {
    c == lower as JChar || c == (lower as int - 32) as JChar
  }

  // ---------------------------------------------------------------- runs

  /** The end of the run of chars satisfying `p` that starts at `i`. */
  function Span(b: JString, i: nat, p: JChar -> bool): (e: nat)
    requires i <= |b|
    ensures i <= e <= |b|
    ensures forall k :: i <= k < e ==> p(b[k])
    ensures e < |b| ==> !p(b[e])
    decreases |b| - i
  {
    if i == |b| || !p(b[i]) then i else Span(b, i + 1, p)
  }

  /** The end of the run of hex digits that starts at `i` and stops at `lim` at the latest. */
  function HexRunEnd(b: JString, i: nat, lim: nat): (e: nat)
    requires i <= lim <= |b|
    ensures i <= e <= lim
    ensures forall k :: i <= k < e ==> IsHexDigit(b[k])
    ensures e < lim ==> !IsHexDigit(b[e])
    decreases lim - i
  {
    if i == lim || !IsHexDigit(b[i]) then i else HexRunEnd(b, i + 1, lim)
  }

  function Min(a: int, b: int): int { if a < b then a else b }

  /** At most four hex digits are below 0x10000, so `(char) value` keeps them all. */
  lemma {:induction false} HexNumberBelow(d: JString)
    requires forall i :: 0 <= i < |d| ==> IsHexDigit(d[i])
    ensures HexNumber(d) < Pow16(|d|)
  {
    if |d| > 0 {
      HexNumberBelow(d[..|d| - 1]);
    }
  }

  lemma HexQuadBelow(d: JString)
    requires |d| <= 4 && forall i :: 0 <= i < |d| ==> IsHexDigit(d[i])
    ensures HexNumber(d) < 0x1_0000
  {
    HexNumberBelow(d);
    assert Pow16(4) == 0x1_0000;
    if |d| < 4 {
      assert Pow16(|d|) <= 0x1000;
    }
  }

  // ---------------------------------------------------------------- unescape

  /**
   * `unescape(str, i, str.length())`: a backslash followed by a non-hex char stands for that char;
   * a backslash followed by one to four hex digits stands for the char with that code, and one
   * space after the digits is swallowed; a backslash at the very end is dropped.
   */
  function UnescapeFrom(s: JString, i: nat): JString
    requires i <= |s|
    decreases |s| - i
  {
    if i == |s| then []
    else if s[i] != BACKSLASH then [s[i]] + UnescapeFrom(s, i + 1)
    else if i + 1 == |s| then []
    else if !IsHexDigit(s[i + 1]) then [s[i + 1]] + UnescapeFrom(s, i + 2)
    else
      var e := HexRunEnd(s, i + 2, Min(i + 5, |s|));
      var next := if e < |s| && s[e] == SPACE then e + 1 else e;
      HexQuadBelow(s[i + 1..e]);
      [HexNumber(s[i + 1..e]) as JChar] + UnescapeFrom(s, next)
  }

  function Unescaped(s: JString): JString { UnescapeFrom(s, 0) }

  /** `unescape(str, 0, str.length())`, the loop of the source over a local buffer. */
  method Unescape(s: JString) returns (r: JString)
    ensures r == Unescaped(s)
  {
    r := [];
    var i := 0;
    while i < |s|
      invariant 0 <= i <= |s|
      invariant r + UnescapeFrom(s, i) == Unescaped(s)
      decreases |s| - i
    {
      var ch := s[i];
      if ch != BACKSLASH {
        AppendAssoc(r, [ch], UnescapeFrom(s, i + 1));
        r := r + [ch];
        i := i + 1;
      } else if i + 1 < |s| {
        var piece, next := UnescapeEscape(s, i);
        AppendAssoc(r, piece, UnescapeFrom(s, next));
        r := r + piece;
        i := next;
      } else {
        i := i + 1;
      }
    }
  }

  lemma AppendAssoc(a: JString, b: JString, c: JString)
    ensures a + (b + c) == (a + b) + c
  {
  }

  /** One escape of `unescape`: the backslash at `i` and what follows it. */
  method UnescapeEscape(s: JString, i: nat) returns (piece: JString, next: nat)
    requires i + 1 < |s| && s[i] == BACKSLASH
    ensures i < next <= |s|
    ensures UnescapeFrom(s, i) == piece + UnescapeFrom(s, next)
  {
    var ch := s[i + 1];
    if FromHex(ch) == -1 {
      UnescapeBackslash(s, i);
      return [ch], i + 2;
    }
    var j, value := HexDigits(s, i + 1, Min(i + 5, |s|));
    next := if j + 1 < |s| && s[j + 1] == SPACE then j + 2 else j + 1;
    HexEscapePiece(s, i, j + 1, value, next);
    piece := [value as JChar];
  }

  /** The escape at `i` with hex digits up to `e` is the char `value`, and reading goes on at `next`. */
  lemma HexEscapePiece(s: JString, i: nat, e: nat, value: nat, next: nat)
    requires i + 1 < e <= |s| && e <= i + 5 && s[i] == BACKSLASH && IsHexDigit(s[i + 1])
    requires HexRunEnd(s, i + 2, Min(i + 5, |s|)) == e && value == HexNumber(s[i + 1..e])
    requires next == if e < |s| && s[e] == SPACE then e + 1 else e
    ensures value < 0x1_0000
    ensures UnescapeFrom(s, i) == [value as JChar] + UnescapeFrom(s, next)
  {
    HexEscapeAt(s, i, e);
  }

  /** The inner loop of `unescape`: the hex digits from `first` (a digit) to `lim` at the latest. */
  method HexDigits(s: JString, first: nat, lim: nat) returns (j: nat, value: nat)
    requires first < lim <= |s| && IsHexDigit(s[first])
    ensures first <= j < lim
    ensures forall k :: first <= k <= j ==> IsHexDigit(s[k])
    ensures HexRunEnd(s, first + 1, lim) == j + 1
    ensures value == HexNumber(s[first..j + 1])
  {
    j := first;
    value := FromHex(s[j]);
    assert s[first..j + 1] == [s[j]];
    while j + 1 < lim && FromHex(s[j + 1]) != -1
      invariant first <= j < lim
      invariant forall k :: first <= k <= j ==> IsHexDigit(s[k])
      invariant value == HexNumber(s[first..j + 1])
      decreases lim - j
    {
      HexNumberSnoc(s, first, j + 1);
      value := value * 16 + FromHex(s[j + 1]);
      j := j + 1;
    }
    HexRunEndAt(s, first + 1, lim, j + 1);
  }

  lemma HexNumberSnoc(s: JString, lo: nat, hi: nat)
    requires lo <= hi < |s| && forall k :: lo <= k <= hi ==> IsHexDigit(s[k])
    ensures HexNumber(s[lo..hi + 1]) == HexNumber(s[lo..hi]) * 16 + HexValue(s[hi])
  {
    assert s[lo..hi + 1][..hi - lo] == s[lo..hi];
  }

  /** A hex run that stops at `e` ends at `e`. */
  lemma HexRunEndAt(s: JString, i: nat, lim: nat, e: nat)
    requires i <= e <= lim <= |s|
    requires forall k :: i <= k < e ==> IsHexDigit(s[k])
    requires e == lim || !IsHexDigit(s[e])
    ensures HexRunEnd(s, i, lim) == e
  {
  }

  /** The escape at `i` has the hex digits `s[i + 1..e]`. */
  lemma HexEscapeAt(s: JString, i: nat, e: nat)
    requires i + 1 < e <= |s| && e <= i + 5 && s[i] == BACKSLASH && IsHexDigit(s[i + 1])
    requires HexRunEnd(s, i + 2, Min(i + 5, |s|)) == e
    ensures HexNumber(s[i + 1..e]) < 0x1_0000
    ensures UnescapeFrom(s, i) ==
      [HexNumber(s[i + 1..e]) as JChar] + UnescapeFrom(s, if e < |s| && s[e] == SPACE then e + 1 else e)
  {
    HexQuadBelow(s[i + 1..e]);
  }

  /** The rules of `unescape` for a backslash: dropped at the end, kept before a non-hex char. */
  lemma UnescapeBackslash(s: JString, i: nat)
    requires i < |s| && s[i] == BACKSLASH
    ensures i + 1 == |s| ==> UnescapeFrom(s, i) == []
    ensures i + 1 < |s| && !IsHexDigit(s[i + 1]) ==>
      UnescapeFrom(s, i) == [s[i + 1]] + UnescapeFrom(s, i + 2)
  {
  }

  /**
   * The hex rule of `unescape`: a backslash, one to four hex digits and a space (at `m`) stand for
   * the one char with that code.
   */
  lemma UnescapeHexSpace(s: JString, i: nat, m: nat)
    requires i + 2 <= m <= i + 5 && m < |s| && s[i] == BACKSLASH && s[m] == SPACE
    requires forall k :: i + 1 <= k < m ==> IsHexDigit(s[k])
    ensures HexNumber(s[i + 1..m]) < 0x1_0000
    ensures UnescapeFrom(s, i) == [HexNumber(s[i + 1..m]) as JChar] + UnescapeFrom(s, m + 1)
  {
    HexRunEndAt(s, i + 2, Min(i + 5, |s|), m);
    HexEscapeAt(s, i, m);
  }

  // ---------------------------------------------------------------- recognizers, one per pattern

  /** The end of the blanks (`isSpace`) from `p`. */
  function SkipSpaces(b: JString, p: nat): (q: nat)
    requires p <= |b|
    ensures p <= q <= |b|
  {
    Span(b, p, IsSpace)
  }

  /** The end of `\s*` from `i`. */
  function RegexSpaces(b: JString, i: nat): (j: nat)
    requires i <= |b|
    ensures i <= j <= |b|
  {
    Span(b, i, IsRegexSpace)
  }

  function DigitEnd(b: JString, i: nat): (j: nat)
    requires i <= |b|
    ensures i <= j <= |b|
  {
    Span(b, i, IsAsciiDigit)
  }

  predicate AllAsciiDigits(d: JString) { forall k :: 0 <= k < |d| ==> IsAsciiDigit(d[k]) }

  /** An unsigned numeral: its digits before and after the point, and where it ends. */
  datatype Numeral = Numeral(whole: JString, fraction: JString, end: nat)

  /** `[0-9]+(?:\.[0-9]+)?|\.[0-9]+` at `s`. */
  function NumeralAt(b: JString, s: nat): (r: Option<Numeral>)
    requires s <= |b|
    ensures r.Some? ==> s < r.value.end <= |b|
    ensures r.Some? ==> AllAsciiDigits(r.value.whole) && AllAsciiDigits(r.value.fraction)
  {
    var d := DigitEnd(b, s);
    if d > s then
      if d + 1 < |b| && b[d] == '.' as JChar && IsAsciiDigit(b[d + 1]) then
        var f := DigitEnd(b, d + 1);
        Some(Numeral(b[s..d], b[d + 1..f], f))
      else Some(Numeral(b[s..d], [], d))
    else if s + 1 < |b| && b[s] == '.' as JChar && IsAsciiDigit(b[s + 1]) then
      var f := DigitEnd(b, s + 1);
      Some(Numeral([], b[s + 1..f], f))
    else None
  }

  /** The two-letter units of the number pattern, compared ignoring ASCII case. */
  predicate IsUnitPair(c1: JChar, c2: JChar) {
    var a, z := ToLowerAscii(c1), ToLowerAscii(c2);
    (a == 'p' as JChar && z == 't' as JChar) || (a == 'm' as JChar && z == 'm' as JChar) ||
    (a == 'c' as JChar && z == 'm' as JChar) || (a == 'p' as JChar && z == 'c' as JChar) ||
    (a == 'i' as JChar && z == 'n' as JChar) || (a == 'p' as JChar && z == 'x' as JChar) ||
    (a == 'e' as JChar && z == 'm' as JChar) || (a == 'e' as JChar && z == 'x' as JChar)
  }

  /** The length of the unit that follows a number at `e`: 1 for `%`, 2 for a named unit, else 0. */
  function UnitLength(b: JString, e: nat): (n: nat)
    requires e <= |b|
    ensures e + n <= |b|
  {
    if e < |b| && b[e] == '%' as JChar then 1
    else if e + 1 < |b| && IsUnitPair(b[e], b[e + 1]) then 2
    else 0
  }

  /** `consumeNumber`: `([+-]?\d+(?:\.\d+)?|\.\d+)(%|pt|mm|cm|pc|in|px|em|ex)?`, ignoring case. */
  function NumberAt(b: JString, q: nat): (r: Option<Lexed>)
    requires q < |b|
    ensures r.Some? ==> q < r.value.end <= |b| && r.value.token.Number?
  {
    var n :=
      if b[q] == '+' as JChar || b[q] == '-' as JChar then
        if q + 1 < |b| && IsAsciiDigit(b[q + 1]) then NumeralAt(b, q + 1) else None
      else NumeralAt(b, q);
    match n
    case None => None
    case Some(num) =>
      var u := UnitLength(b, num.end);
      Some(Lexed(Number(b[q..num.end], if u == 0 then None else Some(b[num.end..num.end + u])),
                 num.end + u))
  }

  /** `consumeIdent`: `[a-zA-Z\u00a1-\u00ff][-a-zA-Z0-9\u00a1-\u00ff]*`. */
  function IdentAt(b: JString, q: nat): (r: Option<Lexed>)
    requires q < |b|
    ensures r.Some? ==> q < r.value.end <= |b| && r.value.token.Ident?
  {
    if IsIdentStart(b[q]) then
      var e := Span(b, q + 1, IsIdentPart);
      Some(Lexed(Ident(b[q..e]), e))
    else None
  }

  /** `consumeImportant`: `!\s*important`, case-sensitive; the end of the match. */
  function ImportantAt(b: JString, q: nat): (r: Option<nat>)
    requires q < |b|
    ensures r.Some? ==> q < r.value <= |b|
  {
    var j := RegexSpaces(b, q + 1);
    if b[q] == '!' as JChar && j + 9 <= |b| && b[j..j + 9] == Lit("important") then Some(j + 9)
    else None
  }

  /** The colour of a three-digit `#rgb`: each nibble doubled. */
  function Expand3(v: int): (rgb: int)
    requires 0 <= v < 0x1000
    ensures 0 <= rgb <= 0xFF_FFFF
  {
    (v / 0x100 % 0x10) * 0x11_0000 + (v / 0x10 % 0x10) * 0x1100 + (v % 0x10) * 0x11
  }

  /**
   * `consumeHexColor` and the `#` case of `nextToken`: the run of hex digits after `#` is read by
   * `Integer.parseInt(.., 16)` first (too large a value throws `NumberFormatException`); then six
   * digits are the colour, three are doubled, and any other length is "invalid #RGB color".
   */
  function HexColorAt(b: JString, q: nat): (r: Result<Lexed, CssError>)
    requires q < |b|
    ensures r.Ok? ==> q < r.value.end <= |b| && r.value.token.Color?
    ensures r.Err? && r.error.ParseException? ==> r.error.errorOffset == q
  {
    var e := Span(b, q + 1, IsHexDigit);
    var invalid := ParseException(Lit("invalid #RGB color"), q);
    if e == q + 1 then Err(invalid)
    else
      var v := HexNumber(b[q + 1..e]);
      if v > INT_MAX then Err(NumberFormatError)
      else if e - q == 7 then Ok(Lexed(Color(v), e))
      else if e - q == 4 then
        HexNumberBelow(b[q + 1..e]);
        assert Pow16(3) == 0x1000;
        Ok(Lexed(Color(Expand3(v)), e))
      else Err(invalid)
  }

  function Pow10(k: nat): (r: nat)
    ensures r >= 1
  {
    if k == 0 then 1 else 10 * Pow10(k - 1)
  }

  /**
   * One channel of `rgb()`: `min(value, 255)` of the integer part, or of `value * 2.55` after a
   * `%`, both truncated.
   */
  function ChannelValue(n: Numeral, percent: bool): (v: int)
    requires AllAsciiDigits(n.whole) && AllAsciiDigits(n.fraction)
    ensures 0 <= v <= 255
  {
    if percent then
      var digits := n.whole + n.fraction;
      assert AllAsciiDigits(digits);
      Min(Scaled(DecimalValue(digits), 100 * Pow10(|n.fraction|)), 255)
    else Min(DecimalValue(n.whole), 255)
  }

  /** `x * 2.55` truncated, where `x * 100 == digits * 100 / scale` (exact decimal arithmetic). */
  function Scaled(digits: nat, scale: nat): (v: nat)
    requires scale >= 1
  {
    (digits * 255) / scale
  }

  /** A channel and the position after its delimiter. */
  datatype Channel = Channel(value: int, end: nat)

  /** `\s*(numeral)(%?)\s*` followed by `delim`. */
  function ChannelAt(b: JString, i: nat, delim: JChar): (r: Option<Channel>)
    requires i <= |b|
    ensures r.Some? ==> i < r.value.end <= |b| && 0 <= r.value.value <= 255
  {
    var s := RegexSpaces(b, i);
    match NumeralAt(b, s)
    case None => None
    case Some(n) =>
      var percent := n.end < |b| && b[n.end] == '%' as JChar;
      var t := RegexSpaces(b, if percent then n.end + 1 else n.end);
      if t < |b| && b[t] == delim then Some(Channel(ChannelValue(n, percent), t + 1)) else None
  }

  /** `consumeRGB`: `rgb(r, g, b)`, the name ignoring case; the colour packs the three channels. */
  function RgbAt(b: JString, q: nat): (r: Option<Lexed>)
    requires q < |b|
    ensures r.Some? ==> q < r.value.end <= |b| && r.value.token.Color?
    ensures r.Some? ==> 0 <= r.value.token.rgb <= 0xFF_FFFF
  {
    if q + 4 <= |b| && IsLetterCI(b[q], 'r') && IsLetterCI(b[q + 1], 'g') &&
       IsLetterCI(b[q + 2], 'b') && b[q + 3] == '(' as JChar then
      match ChannelAt(b, q + 4, ',' as JChar)
      case None => None
      case Some(red) =>
        match ChannelAt(b, red.end, ',' as JChar)
        case None => None
        case Some(green) =>
          match ChannelAt(b, green.end, ')' as JChar)
          case None => None
          case Some(blue) =>
            Some(Lexed(Color(red.value * 0x1_0000 + green.value * 0x100 + blue.value), blue.end))
    else None
  }

  /**
   * The closing quote of a quoted string whose body starts at `i`: the body holds plain chars
   * (tab, `' '`..`'~'`, `\200`..`\377`, neither the quote nor a backslash) and backslash escapes.
   */
  function StringClose(b: JString, i: nat, quote: JChar): (r: Option<nat>)
    requires i <= |b|
    ensures r.Some? ==> i <= r.value < |b| && b[r.value] == quote
    decreases |b| - i
  {
    if i == |b| then None
    else if b[i] == quote then Some(i)
    else if b[i] == BACKSLASH then
      if i + 1 < |b| && IsStringEscapable(b[i + 1]) then StringClose(b, i + 2, quote) else None
    else if CSSUtils.IsPlain(b[i]) then StringClose(b, i + 1, quote)
    else None
  }

  /** `consumeString`: a quoted string; the token holds the unescaped body. */
  function StringAt(b: JString, q: nat): (r: Option<Lexed>)
    requires q < |b|
    ensures r.Some? ==> q < r.value.end <= |b| && r.value.token.Str?
  {
    if b[q] != QUOTE && b[q] != APOS then None
    else
      match StringClose(b, q + 1, b[q])
      case None => None
      case Some(c) => Some(Lexed(Str(Unescaped(b[q + 1..c])), c + 1))
  }

  /**
   * The end of an unquoted URL, matched possessively from `i`: plain URL chars, a backslash and a
   * non-hex printable char, or a backslash, one to four hex digits and an optional blank.
   */
  function UrlRunEnd(b: JString, i: nat): (e: nat)
    requires i <= |b|
    ensures i <= e <= |b|
    decreases |b| - i
  {
    if i == |b| then i
    else if b[i] == BACKSLASH then
      if i + 1 < |b| && IsUrlEscapable(b[i + 1]) then UrlRunEnd(b, i + 2)
      else if i + 1 < |b| && IsHexDigit(b[i + 1]) then
        var h := HexRunEnd(b, i + 2, Min(i + 5, |b|));
        UrlRunEnd(b, if h < |b| && IsUrlHexEnd(b[h]) then h + 1 else h)
      else i
    else if IsUrlPlain(b[i]) then UrlRunEnd(b, i + 1)
    else i
  }

  /** `consumeURL`: `url(`, ignoring case, a quoted string or an unquoted URL, then `)`. */
  function UrlAt(b: JString, q: nat): (r: Option<Lexed>)
    requires q < |b|
    ensures r.Some? ==> q < r.value.end <= |b| && r.value.token.Url?
  {
    if q + 4 <= |b| && IsLetterCI(b[q], 'u') && IsLetterCI(b[q + 1], 'r') &&
       IsLetterCI(b[q + 2], 'l') && b[q + 3] == '(' as JChar then
      var i := RegexSpaces(b, q + 4);
      if i < |b| && (b[i] == QUOTE || b[i] == APOS) then
        match StringClose(b, i + 1, b[i])
        case None => None
        case Some(c) =>
          var j := RegexSpaces(b, c + 1);
          if j < |b| && b[j] == ')' as JChar then Some(Lexed(Url(Unescaped(b[i + 1..c])), j + 1))
          else None
      else
        var e := UrlRunEnd(b, i);
        var j := RegexSpaces(b, e);
        if j < |b| && b[j] == ')' as JChar then Some(Lexed(Url(Unescaped(b[i..e])), j + 1))
        else None
    else None
  }

  // ---------------------------------------------------------------- nextToken

  /** The token that starts at `q`, a non-blank char: the `switch` of `nextToken`. */
  function LexAt(b: JString, q: nat): (r: Result<Lexed, CssError>)
    requires q < |b|
    ensures r.Ok? ==> q < r.value.end <= |b| && !r.value.token.Eof?
    ensures r.Err? && r.error.ParseException? ==> r.error.errorOffset == q
  {
    var c := b[q];
    if c == ':' as JChar then Ok(Lexed(Colon, q + 1))
    else if c == '-' as JChar then
      match NumberAt(b, q)
      case Some(n) => Ok(n)
      case None => Ok(Lexed(Minus, q + 1))
    else if c == '+' as JChar then Ok(Lexed(Plus, q + 1))
    else if c == '/' as JChar then Ok(Lexed(Slash, q + 1))
    else if c == ',' as JChar then Ok(Lexed(Comma, q + 1))
    else if c == ';' as JChar then Ok(Lexed(Semicolon, q + 1))
    else if c == '!' as JChar then
      match ImportantAt(b, q)
      case Some(e) => Ok(Lexed(Important, e))
      case None => Err(ParseException(Lit("unexpected character sequence"), q))
    else if c == '#' as JChar then HexColorAt(b, q)
    else if c == QUOTE || c == APOS then
      match StringAt(b, q)
      case Some(t) => Ok(t)
      case None => Err(ParseException(Lit("invalid quoted string"), q))
    else
      var special :=
        if c == 'r' as JChar || c == 'R' as JChar then RgbAt(b, q)
        else if c == 'u' as JChar || c == 'U' as JChar then UrlAt(b, q)
        else None;
      if special.Some? then Ok(special.value)
      else
        match IdentAt(b, q)
        case Some(t) => Ok(t)
        case None =>
          match NumberAt(b, q)
          case Some(t) => Ok(t)
          case None => Err(ParseException(Lit("unrecognized character sequence"), q))
  }

  /** `nextToken` from position `p`: skip blanks, then the token there, or `Eof` at the end. */
  function Lex(b: JString, p: nat): (r: Result<Lexed, CssError>)
    requires p <= |b|
    ensures r.Ok? ==> p <= r.value.end <= |b|
    ensures r.Ok? && !r.value.token.Eof? ==> p < r.value.end
    ensures r.Ok? && r.value.token.Eof? ==> r.value.end == |b|
  {
    var q := SkipSpaces(b, p);
    if q == |b| then Ok(Lexed(Eof, q)) else LexAt(b, q)
  }

  // ---------------------------------------------------------------- the grammar

  /** The callbacks the parser makes, in order. */
  datatype Event =
    | Declaration(name: JString)
    | NumberValue(numeral: JString)
    | PercentValue(numeral: JString)
    | LengthValue(numeral: JString, units: JString)
    | StringValue(text: JString)
    | IdentValue(ident: JString)
    | ColorValue(rgb: int)
    | UrlValue(url: JString)
    | CommaSeen
    | ImportantSeen

  /** The parser's state: buffer position, current token, callbacks made so far. */
  datatype PState = PState(pos: nat, token: Token, trace: seq<Event>)

  /** How a parsing routine ends: normally, or by an exception after the callbacks in `trace`. */
  datatype Outcome =
    | Done(st: PState)
    | Failed(trace: seq<Event>, error: CssError)
  {
    function Trace(): seq<Event> {
      if Done? then st.trace else trace
    }
  }

  /** A state the parser can be in: within the buffer, and at its end once the token is `Eof`. */
  predicate Fits(b: JString, st: PState) {
    st.pos <= |b| && (st.token.Eof? ==> st.pos == |b|)
  }

  /** What is left to read: each token read from a non-`Eof` token lowers it. */
  function Measure(b: JString, st: PState): int {
    2 * (|b| - st.pos) + if st.token.Eof? then 0 else 1
  }

  /** A routine that ends normally leaves a state within the buffer and keeps the callbacks made. */
  predicate Extends(b: JString, st: PState, o: Outcome) {
    st.trace <= o.Trace() && (o.Done? ==> Fits(b, o.st))
  }

  /** `_tokenKind = nextToken()`. */
  function NextF(b: JString, st: PState): (o: Outcome)
    requires st.pos <= |b|
    ensures Extends(b, st, o) && o.Trace() == st.trace
    ensures o.Done? ==> Measure(b, o.st) <= 2 * (|b| - st.pos)
  {
    match Lex(b, st.pos)
    case Ok(l) => Done(PState(l.end, l.token, st.trace))
    case Err(e) => Failed(st.trace, e)
  }

  /** The callback a term token makes, or `None` when the token is not a term. */
  function ValueEvent(t: Token): Option<Event> {
    match t
    case Number(n, u) =>
      Some(if u.None? then NumberValue(n) else if u.value == Lit("%") then PercentValue(n)
           else LengthValue(n, u.value))
    case Str(s) => Some(StringValue(s))
    case Ident(s) => Some(IdentValue(s))
    case Color(rgb) => Some(ColorValue(rgb))
    case Url(u) => Some(UrlValue(u))
    case _ => None
  }

  /** `parseTerm`: an optional sign (read and dropped), then one term and its callback. */
  function TermF(b: JString, st: PState): (o: Outcome)
    requires Fits(b, st)
    ensures Extends(b, st, o)
    ensures o.Done? ==> Measure(b, o.st) < Measure(b, st)
  {
    var o1 := if st.token.Plus? || st.token.Minus? then NextF(b, st) else Done(st);
    if o1.Failed? then o1
    else
      var s := o1.st;
      match ValueEvent(s.token)
      case None => Failed(s.trace, ParseException(Lit("expected style value"), s.pos))
      case Some(ev) => NextF(b, s.(trace := s.trace + [ev]))
  }

  /** `parseExpr`: a term, then more terms, each optionally after `/` or `,`. */
  function ExprF(b: JString, st: PState): (o: Outcome)
    requires Fits(b, st)
    ensures Extends(b, st, o)
    ensures o.Done? ==> Measure(b, o.st) < Measure(b, st)
  {
    var o1 := TermF(b, st);
    if o1.Failed? then o1 else ExprLoop(b, o1.st)
  }

  /** The loop of `parseExpr`, until `Eof`, `;` or `!important`. */
  function ExprLoop(b: JString, st: PState): (o: Outcome)
    requires Fits(b, st)
    ensures Extends(b, st, o)
    ensures o.Done? ==> Measure(b, o.st) <= Measure(b, st)
    ensures o.Done? ==> o.st.token.Eof? || o.st.token.Semicolon? || o.st.token.Important?
    decreases Measure(b, st)
  {
    if st.token.Eof? || st.token.Semicolon? || st.token.Important? then Done(st)
    else
      var o1 :=
        if st.token.Comma? then NextF(b, st.(trace := st.trace + [CommaSeen]))
        else if st.token.Slash? then NextF(b, st)
        else Done(st);
      if o1.Failed? then o1
      else
        var o2 := TermF(b, o1.st);
        if o2.Failed? then o2 else ExprLoop(b, o2.st)
  }

  /** `parseDeclaration`: `IDENT ':' expr prio?`; the name is reported before the `:` is checked. */
  function DeclF(b: JString, st: PState): (o: Outcome)
    requires Fits(b, st)
    ensures Extends(b, st, o)
    ensures o.Done? ==> Measure(b, o.st) < Measure(b, st)
    ensures st.token.Ident? ==> st.trace + [Declaration(st.token.name)] <= o.Trace()
    ensures !st.token.Ident? ==> o == Failed(st.trace, ParseException(Lit("expected style name"), st.pos))
  {
    if !st.token.Ident? then Failed(st.trace, ParseException(Lit("expected style name"), st.pos))
    else
      var named := st.(trace := st.trace + [Declaration(st.token.name)]);
      var o1 := NextF(b, named);
      if o1.Failed? then o1
      else if !o1.st.token.Colon? then
        Failed(named.trace, ParseException(Lit("expected ':' after style name"), o1.st.pos))
      else
        var o2 := NextF(b, o1.st);
        if o2.Failed? then o2
        else
          var o3 := ExprF(b, o2.st);
          if o3.Failed? then o3
          else if o3.st.token.Important? then
            NextF(b, o3.st.(trace := o3.st.trace + [ImportantSeen]))
          else o3
  }

  /** `parseDeclarations`: a declaration if the first token is a name, then the loop. */
  function DeclsF(b: JString, st: PState): (o: Outcome)
    requires Fits(b, st)
    ensures Extends(b, st, o)
    ensures o.Done? ==> o.st.token.Eof?
  {
    var o1 := if st.token.Ident? then DeclF(b, st) else Done(st);
    if o1.Failed? then o1 else DeclsLoop(b, o1.st)
  }

  /** The loop of `parseDeclarations`: skip one `;`, stop at `Eof`, else one more declaration. */
  function DeclsLoop(b: JString, st: PState): (o: Outcome)
    requires Fits(b, st)
    ensures Extends(b, st, o)
    ensures o.Done? ==> o.st.token.Eof?
    decreases Measure(b, st)
  {
    var o1 := if st.token.Semicolon? then NextF(b, st) else Done(st);
    if o1.Failed? then o1
    else if o1.st.token.Eof? then o1
    else
      var o2 := DeclF(b, o1.st);
      if o2.Failed? then o2 else DeclsLoop(b, o2.st)
  }

  /** `parse`: the first token, then nothing more at `Eof`, else the declarations. */
  function ParseF(b: JString, st: PState): (o: Outcome)
    requires st.pos <= |b|
    ensures Extends(b, st, o)
    ensures o.Done? ==> o.st.token.Eof? && o.st.pos == |b|
  {
    var o1 := NextF(b, st);
    if o1.Failed? || o1.st.token.Eof? then o1 else DeclsF(b, o1.st)
  }

  /** `new CSSStyleParser(style).parse()`: the callbacks made and the exception, if any. */
  function ParseStyle(style: JString): (o: Outcome)
    ensures o.Done? ==> o.st.token.Eof? && o.st.pos == |style|
  {
    ParseF(style, PState(0, Eof, []))
  }

  // ---------------------------------------------------------------- the parser object

  /**
   * The parser: the buffer and its position, the current token (`_tokenKind` together with the
   * `_tokenString`, `_tokenColor`, `_tokenNumber` and `_tokenUnits` fields that describe it) and
   * the callbacks made so far.  Each method is tied to the function above that it carries out.
   */
  class StyleParser {
    const buffer: JString
    var pos: nat
    var token: Token
    var trace: seq<Event>

    ghost predicate Valid()
      reads this
    {
      pos <= |buffer|
    }

    function State(): PState
      reads this
    {
      PState(pos, token, trace)
    }

    /** The object agrees with how a routine ends: its state, or the callbacks and the error. */
    ghost predicate Settled(o: Outcome, err: Option<CssError>)
      reads this
    {
      match o
      case Done(st) => err.None? && State() == st
      case Failed(tr, e) => err == Some(e) && trace == tr
    }

    /** `new CSSStyleParser(style)`: position 0, no callbacks yet (the token is read by `parse`). */
    constructor (style: JString)
      ensures buffer == style && pos == 0 && token == Eof && trace == []
      ensures Valid()
    {
      buffer := style;
      pos := 0;
      token := Eof;
      trace := [];
    }

    /** `nextToken`: skips blanks, then reads the token there; the position moves past it. */
    method NextToken() returns (r: Result<Token, CssError>)
      requires Valid()
      modifies this`pos
      ensures Valid()
      ensures match Lex(buffer, old(pos))
        case Ok(l) => r == Ok(l.token) && pos == l.end
        case Err(e) => r == Err(e) && pos == SkipSpaces(buffer, old(pos))
    {
      ghost var start := pos;
      while pos < |buffer| && IsSpace(buffer[pos])
        invariant start <= pos <= |buffer|
        invariant Span(buffer, start, IsSpace) == Span(buffer, pos, IsSpace)
        decreases |buffer| - pos
      {
        pos := pos + 1;
      }
      if pos == |buffer| {
        return Ok(Eof);
      }
      var l := TokenAt(pos);
      match l {
        case Ok(x) =>
          pos := x.end;
          r := Ok(x.token);
        case Err(e) =>
          r := Err(e);
      }
    }

    /** The `switch` of `nextToken` on the char at `q`. */
    method TokenAt(q: nat) returns (r: Result<Lexed, CssError>)
      requires q < |buffer|
      ensures r == LexAt(buffer, q)
    {
      var c := buffer[q];
      if c == ':' as JChar {
        return Ok(Lexed(Colon, q + 1));
      } else if c == '-' as JChar {
        var n := NumberAt(buffer, q);
        if n.Some? {
          return Ok(n.value);
        }
        return Ok(Lexed(Minus, q + 1));
      } else if c == '+' as JChar {
        return Ok(Lexed(Plus, q + 1));
      } else if c == '/' as JChar {
        return Ok(Lexed(Slash, q + 1));
      } else if c == ',' as JChar {
        return Ok(Lexed(Comma, q + 1));
      } else if c == ';' as JChar {
        return Ok(Lexed(Semicolon, q + 1));
      } else if c == '!' as JChar {
        var e := ImportantAt(buffer, q);
        if e.Some? {
          return Ok(Lexed(Important, e.value));
        }
        return Err(ParseException(Lit("unexpected character sequence"), q));
      } else if c == '#' as JChar {
        return HexColorAt(buffer, q);
      } else if c == QUOTE || c == APOS {
        var t := ConsumeString(q);
        if t.Some? {
          return Ok(t.value);
        }
        return Err(ParseException(Lit("invalid quoted string"), q));
      }
      var special: Option<Lexed> := None;
      if c == 'r' as JChar || c == 'R' as JChar {
        special := RgbAt(buffer, q);
      } else if c == 'u' as JChar || c == 'U' as JChar {
        special := ConsumeURL(q);
      }
      if special.Some? {
        return Ok(special.value);
      }
      var t := IdentAt(buffer, q);
      if t.Some? {
        return Ok(t.value);
      }
      t := NumberAt(buffer, q);
      if t.Some? {
        return Ok(t.value);
      }
      return Err(ParseException(Lit("unrecognized character sequence"), q));
    }

    /** `consumeString`: the quoted string at `q`, unescaped. */
    method ConsumeString(q: nat) returns (r: Option<Lexed>)
      requires q < |buffer|
      ensures r == StringAt(buffer, q)
    {
      if buffer[q] != QUOTE && buffer[q] != APOS {
        return None;
      }
      var close := StringClose(buffer, q + 1, buffer[q]);
      if close.None? {
        return None;
      }
      var text := Unescape(buffer[q + 1..close.value]);
      return Some(Lexed(Str(text), close.value + 1));
    }

    /** `consumeURL`: `url(...)` at `q`, quoted or not, unescaped. */
    method ConsumeURL(q: nat) returns (r: Option<Lexed>)
      requires q < |buffer|
      ensures r == UrlAt(buffer, q)
    {
      var b := buffer;
      if !(q + 4 <= |b| && IsLetterCI(b[q], 'u') && IsLetterCI(b[q + 1], 'r') &&
           IsLetterCI(b[q + 2], 'l') && b[q + 3] == '(' as JChar) {
        return None;
      }
      var i := RegexSpaces(b, q + 4);
      var lo, hi;
      if i < |b| && (b[i] == QUOTE || b[i] == APOS) {
        var close := StringClose(b, i + 1, b[i]);
        if close.None? {
          return None;
        }
        lo, hi := i + 1, close.value;
        i := close.value + 1;
      } else {
        lo, hi := i, UrlRunEnd(b, i);
        i := hi;
      }
      var j := RegexSpaces(b, i);
      if !(j < |b| && b[j] == ')' as JChar) {
        return None;
      }
      var text := Unescape(b[lo..hi]);
      return Some(Lexed(Url(text), j + 1));
    }

    /** `parseTerm`. */
    method ParseTerm() returns (err: Option<CssError>)
      requires Fits(buffer, State())
      modifies this
      ensures Settled(TermF(buffer, old(State())), err)
    {
      if token.Plus? || token.Minus? {
        var t := NextToken();
        if t.Err? {
          return Some(t.error);
        }
        token := t.value;
      }
      var ev := TermEvent(token);
      if ev.None? {
        return Some(ParseException(Lit("expected style value"), pos));
      }
      trace := trace + [ev.value];
      var t := NextToken();
      if t.Err? {
        return Some(t.error);
      }
      token := t.value;
      return None;
    }

    /** The `switch` of `parseTerm`: the callback for a term token, `None` for any other token. */
    static method TermEvent(t: Token) returns (ev: Option<Event>)
      ensures ev == ValueEvent(t)
      ensures ev.Some? <==> t.Number? || t.Str? || t.Ident? || t.Color? || t.Url?
    {
      match t {
        case Number(n, u) =>
          if u.None? {
            ev := Some(NumberValue(n));
          } else if u.value == Lit("%") {
            ev := Some(PercentValue(n));
          } else {
            ev := Some(LengthValue(n, u.value));
          }
        case Str(str) => ev := Some(StringValue(str));
        case Ident(name) => ev := Some(IdentValue(name));
        case Color(rgb) => ev := Some(ColorValue(rgb));
        case Url(url) => ev := Some(UrlValue(url));
        case _ => ev := None;
      }
    }

    /** `parseExpr`. */
    method ParseExpr() returns (err: Option<CssError>)
      requires Fits(buffer, State())
      modifies this
      ensures Settled(ExprF(buffer, old(State())), err)
    {
      ghost var goal := ExprF(buffer, State());
      err := ParseTerm();
      if err.Some? {
        return;
      }
      while true
        invariant Fits(buffer, State())
        invariant ExprLoop(buffer, State()) == goal
        decreases Measure(buffer, State())
      {
        if token.Eof? || token.Semicolon? || token.Important? {
          return None;
        }
        if token.Comma? {
          trace := trace + [CommaSeen];
        }
        if token.Comma? || token.Slash? {
          var t := NextToken();
          if t.Err? {
            return Some(t.error);
          }
          token := t.value;
        }
        err := ParseTerm();
        if err.Some? {
          return;
        }
      }
    }

    /** `parseDeclaration`. */
    method ParseDeclaration() returns (err: Option<CssError>)
      requires Fits(buffer, State())
      modifies this
      ensures Settled(DeclF(buffer, old(State())), err)
    {
      if !token.Ident? {
        return Some(ParseException(Lit("expected style name"), pos));
      }
      trace := trace + [Declaration(token.name)];
      var t := NextToken();
      if t.Err? {
        return Some(t.error);
      }
      if !t.value.Colon? {
        return Some(ParseException(Lit("expected ':' after style name"), pos));
      }
      t := NextToken();
      if t.Err? {
        return Some(t.error);
      }
      token := t.value;
      err := ParseExpr();
      if err.Some? {
        return;
      }
      if token.Important? {
        trace := trace + [ImportantSeen];
        t := NextToken();
        if t.Err? {
          return Some(t.error);
        }
        token := t.value;
      }
    }

    /** `parseDeclarations`. */
    method ParseDeclarations() returns (err: Option<CssError>)
      requires Fits(buffer, State())
      modifies this
      ensures Settled(DeclsF(buffer, old(State())), err)
    {
      ghost var goal := DeclsF(buffer, State());
      if token.Ident? {
        err := ParseDeclaration();
        if err.Some? {
          return;
        }
      }
      while true
        invariant Fits(buffer, State())
        invariant DeclsLoop(buffer, State()) == goal
        decreases Measure(buffer, State())
      {
        if token.Semicolon? {
          var t := NextToken();
          if t.Err? {
            return Some(t.error);
          }
          token := t.value;
        }
        if token.Eof? {
          return None;
        }
        err := ParseDeclaration();
        if err.Some? {
          return;
        }
      }
    }

    /** `parse`. */
    method Parse() returns (err: Option<CssError>)
      requires Valid()
      modifies this
      ensures Settled(ParseF(buffer, old(State())), err)
    {
      var t := NextToken();
      if t.Err? {
        return Some(t.error);
      }
      token := t.value;
      if token.Eof? {
        return None;
      }
      err := ParseDeclarations();
    }
  }

  // ---------------------------------------------------------------- escapeString and unescape

  /** `unescape` reads what `escapeString` wrote for one char (`e`) back as that char. */
  lemma UnescapeEscapedChar(x: JString, p: nat, c: JChar, e: JString)
    requires e == CSSUtils.EscapedChar(c)
    requires p + |e| <= |x| && x[p..p + |e|] == e
    ensures UnescapeFrom(x, p) == [c] + UnescapeFrom(x, p + |e|)
  {
    if c == QUOTE || c == APOS || c == BACKSLASH {
      assert x[p] == e[0] && x[p + 1] == e[1];
    } else if CSSUtils.IsPlain(c) {
      assert x[p] == e[0];
    } else {
      CSSUtils.EscapedHexRules(c, e);
      UnescapeHexEscape(x, p, c, e);
    }
  }

  /** The hexadecimal form `\h+ ` of a char that is not plain reads back as that char. */
  lemma UnescapeHexEscape(x: JString, p: nat, c: JChar, e: JString)
    requires 3 <= |e| <= 6 && e[0] == BACKSLASH && e[|e| - 1] == SPACE
    requires forall k :: 1 <= k < |e| - 1 ==> IsHexDigit(e[k])
    requires HexNumber(e[1..|e| - 1]) == c as int
    requires p + |e| <= |x| && x[p..p + |e|] == e
    ensures UnescapeFrom(x, p) == [c] + UnescapeFrom(x, p + |e|)
  {
    var m := p + |e| - 1;
    SliceAt(x, p, e);
    forall k | p + 1 <= k < m
      ensures IsHexDigit(x[k])
    {
      assert x[k] == e[k - p];
    }
    UnescapeHexSpace(x, p, m);
  }

  /** A text found at `p`: its chars, and the part between its first and last char. */
  lemma SliceAt(x: JString, p: nat, e: JString)
    requires 2 <= |e| && p + |e| <= |x| && x[p..p + |e|] == e
    ensures forall k :: p <= k < p + |e| ==> x[k] == e[k - p]
    ensures x[p + 1..p + |e| - 1] == e[1..|e| - 1]
  {
    forall k | p <= k < p + |e|
      ensures x[k] == e[k - p]
    {
      assert x[p..p + |e|][k - p] == x[k];
    }
  }

  lemma {:induction false} UnescapeEscapedFrom(x: JString, p: nat, s: JString)
    requires p <= |x| && x[p..] == CSSUtils.Escaped(s)
    ensures UnescapeFrom(x, p) == s
    decreases |s|, 1
  {
    if |s| > 0 {
      UnescapeEscapedCons(x, p, s);
    } else {
      assert |x[p..]| == 0;
    }
  }

  /** `UnescapeEscapedFrom` for a text with a first char. */
  lemma {:induction false} UnescapeEscapedCons(x: JString, p: nat, s: JString)
    requires p <= |x| && x[p..] == CSSUtils.Escaped(s) && |s| > 0
    ensures UnescapeFrom(x, p) == s
    decreases |s|, 0
  {
    var e := CSSUtils.EscapedChar(s[0]);
    EscapedSplit(x, p, s);
    UnescapeEscapedFrom(x, p + |e|, s[1..]);
    UnescapeEscapedCharThen(x, p, s[0], e, s[1..]);
    assert s == [s[0]] + s[1..];
  }

  /** Escaped text starts with its first char escaped. */
  lemma EscapedSplit(x: JString, p: nat, s: JString)
    requires p <= |x| && x[p..] == CSSUtils.Escaped(s) && |s| > 0
    ensures p + |CSSUtils.EscapedChar(s[0])| <= |x|
    ensures x[p..p + |CSSUtils.EscapedChar(s[0])|] == CSSUtils.EscapedChar(s[0])
    ensures x[p + |CSSUtils.EscapedChar(s[0])|..] == CSSUtils.Escaped(s[1..])
  {
    var e := CSSUtils.EscapedChar(s[0]);
    assert CSSUtils.Escaped(s) == e + CSSUtils.Escaped(s[1..]);
    assert x[p..p + |e|] == e;
  }

  /** `UnescapeEscapedChar`, followed by what the rest reads back as. */
  lemma UnescapeEscapedCharThen(x: JString, p: nat, c: JChar, e: JString, rest: JString)
    requires e == CSSUtils.EscapedChar(c) && p + |e| <= |x| && x[p..p + |e|] == e
    requires UnescapeFrom(x, p + |e|) == rest
    ensures UnescapeFrom(x, p) == [c] + rest
  {
    UnescapeEscapedChar(x, p, c, e);
  }

  /** Round trip: `unescape(escapeString(s)) == s` for every string `s`. */
  lemma UnescapeEscaped(s: JString)
    ensures Unescaped(CSSUtils.Escaped(s)) == s
  {
    var x := CSSUtils.Escaped(s);
    assert x[0..] == x;
    UnescapeEscapedFrom(x, 0, s);
  }

  // ---------------------------------------------------------------- the default callbacks

  /** `string(s)`: the string quoted with apostrophes, escaped by `escapeString`. */
  function FormatString(s: JString): (r: JString)
    ensures |r| == |CSSUtils.Escaped(s)| + 2
  {
    [APOS] + CSSUtils.Escaped(s) + [APOS]
  }

  /** `url(u)`: `url('...')` around the escaped text. */
  function FormatUrl(u: JString): (r: JString)
    ensures |r| == |CSSUtils.Escaped(u)| + 7
  {
    Lit("url('") + CSSUtils.Escaped(u) + Lit("')")
  }

  /** `Integer.toHexString(rgb | 0x1000000)` reads the int as unsigned 32 bits with bit 24 set. */
  function WithBit24(rgb: int): (u: nat)
    ensures 0x100_0000 <= u < 0x1_0000_0000
    ensures u % 0x100_0000 == rgb % 0x100_0000
  {
    var w := rgb % 0x1_0000_0000;
    if w / 0x100_0000 % 2 == 1 then w else w + 0x100_0000
  }

  /** `color(rgb)`: `#` and the last six digits of `toHexString(rgb | 0x1000000)`. */
  function FormatColor(rgb: int): (r: JString)
    ensures |r| == 7 && r[0] == '#' as JChar
    ensures forall i :: 1 <= i < 7 ==> IsHexDigit(r[i]) && !IsAsciiUpper(r[i])
    ensures HexNumber(r[1..]) == rgb % 0x100_0000
  {
    var h := HexString(WithBit24(rgb));
    HexStringLong(WithBit24(rgb));
    var tail := h[|h| - 6..];
    HexNumberSplit(h, 6);
    var r := [('#' as JChar)] + tail;
    assert r[1..] == tail;
    r
  }

  /** What the default callbacks pass to `value`; `None` for the float-formatting ones (not
    * modelled) and for the callbacks that make no `value` call. */
  function DefaultValue(ev: Event): Option<JString> {
    match ev
    case StringValue(s) => Some(FormatString(s))
    case IdentValue(s) => Some(s)
    case ColorValue(rgb) => Some(FormatColor(rgb))
    case UrlValue(u) => Some(FormatUrl(u))
    case _ => None
  }

  lemma {:induction false} Pow16Grows(j: nat, k: nat)
    requires j <= k
    ensures Pow16(j) <= Pow16(k)
    decreases k
  {
    if j < k {
      Pow16Grows(j, k - 1);
    }
  }

  /** A number of at least 16^6 has at least seven hex digits. */
  lemma HexStringLong(u: nat)
    requires u >= 0x100_0000
    ensures |HexString(u)| >= 7
  {
    var h := HexString(u);
    HexNumberBelow(h);
    if |h| <= 6 {
      Pow16Grows(|h|, 6);
    }
  }

  /** The value of two hex numerals written one after the other. */
  lemma {:induction false} HexNumberConcat(u: JString, v: JString)
    requires forall i :: 0 <= i < |u| ==> IsHexDigit(u[i])
    requires forall i :: 0 <= i < |v| ==> IsHexDigit(v[i])
    ensures HexNumber(u + v) == HexNumber(u) * Pow16(|v|) + HexNumber(v)
    decreases |v|
  {
    if |v| == 0 {
      assert u + v == u;
    } else {
      var init := v[..|v| - 1];
      HexNumberConcat(u, init);
      assert (u + v)[..|u + v| - 1] == u + init;
      assert (u + v)[|u + v| - 1] == v[|v| - 1];
      ShiftDigit(HexNumber(u), HexNumber(init), HexValue(v[|v| - 1]), Pow16(|init|));
    }
  }

  lemma ShiftDigit(x: int, y: int, last: int, p: int)
    ensures (x * p + y) * 16 + last == x * (16 * p) + (y * 16 + last)
  {
  }

  /** The last `k` digits of a hex numeral give its value modulo 16^k. */
  lemma HexNumberSplit(d: JString, k: nat)
    requires k <= |d| && forall i :: 0 <= i < |d| ==> IsHexDigit(d[i])
    ensures HexNumber(d) % Pow16(k) == HexNumber(d[|d| - k..])
  {
    var head, tail := d[..|d| - k], d[|d| - k..];
    assert d == head + tail;
    HexNumberConcat(head, tail);
    HexNumberBelow(tail);
    DivParts(HexNumber(d), HexNumber(head), HexNumber(tail), Pow16(k));
  }

  // ---------------------------------------------------------------- lemmas: formatted text reads back

  /** The quoted-string scan passes over plain chars other than the quote and backslash. */
  lemma {:induction false} StringClosePlain(x: JString, i: nat, j: nat, quote: JChar)
    requires i <= j <= |x|
    requires forall k :: i <= k < j ==> CSSUtils.IsPlain(x[k]) && x[k] != quote && x[k] != BACKSLASH
    ensures StringClose(x, i, quote) == StringClose(x, j, quote)
    decreases j - i
  {
    if i < j {
      StringClosePlain(x, i + 1, j, quote);
    }
  }

  /** The quoted-string scan passes over what `escapeString` wrote for one char (`e`). */
  lemma StringCloseEscapedChar(x: JString, p: nat, c: JChar, e: JString, quote: JChar)
    requires quote == QUOTE || quote == APOS
    requires e == CSSUtils.EscapedChar(c)
    requires p + |e| <= |x| && x[p..p + |e|] == e
    ensures StringClose(x, p, quote) == StringClose(x, p + |e|, quote)
  {
    assert x[p] == e[0];
    if c == QUOTE || c == APOS || c == BACKSLASH {
      assert x[p + 1] == e[1];
    } else if !CSSUtils.IsPlain(c) {
      CSSUtils.EscapedHexRules(c, e);
      StringCloseHex(x, p, e, quote);
    }
  }

  /** The quoted-string scan passes over a hexadecimal escape `\h+ `. */
  lemma StringCloseHex(x: JString, p: nat, e: JString, quote: JChar)
    requires quote == QUOTE || quote == APOS
    requires 3 <= |e| && e[0] == BACKSLASH && e[|e| - 1] == SPACE
    requires forall k :: 1 <= k < |e| - 1 ==> IsHexDigit(e[k]) && !IsAsciiUpper(e[k])
    requires p + |e| <= |x| && x[p..p + |e|] == e
    ensures StringClose(x, p, quote) == StringClose(x, p + |e|, quote)
  {
    SliceAt(x, p, e);
    forall k | p + 2 <= k < p + |e|
      ensures CSSUtils.IsPlain(x[k]) && x[k] != quote && x[k] != BACKSLASH
    {
      assert x[k] == e[k - p];
    }
    StringClosePlain(x, p + 2, p + |e|, quote);
  }

  /** The two parts of a slice `x[p..end]` that holds a concatenation. */
  lemma SliceParts(x: JString, p: nat, u: JString, v: JString, end: nat)
    requires end == p + |u + v| && end <= |x| && x[p..end] == u + v
    ensures x[p..p + |u|] == u && x[p + |u|..end] == v && end == p + |u| + |v|
  {
    assert x[p..p + |u|] == x[p..end][..|u|];
    assert x[p + |u|..end] == x[p..end][|u|..];
  }

  /** The scan over `escapeString(s)` (`w`, ending at `end`) stops at the quote that follows it. */
  lemma {:induction false} StringCloseEscaped(x: JString, p: nat, s: JString, w: JString, end: nat, quote: JChar)
    requires quote == QUOTE || quote == APOS
    requires w == CSSUtils.Escaped(s) && end == p + |w|
    requires end < |x| && x[p..end] == w && x[end] == quote
    ensures StringClose(x, p, quote) == Some(end)
    decreases |s|, 1
  {
    if |s| == 0 {
      assert p == end;
    } else {
      StringCloseEscapedCons(x, p, s, w, end, quote);
    }
  }

  /** `StringCloseEscaped` for a non-empty `s`: its first char, then the rest. */
  lemma {:induction false} StringCloseEscapedCons(x: JString, p: nat, s: JString, w: JString, end: nat, quote: JChar)
    requires quote == QUOTE || quote == APOS
    requires |s| > 0 && w == CSSUtils.Escaped(s) && end == p + |w|
    requires end < |x| && x[p..end] == w && x[end] == quote
    ensures StringClose(x, p, quote) == Some(end)
    decreases |s|, 0
  {
    var e := CSSUtils.EscapedChar(s[0]);
    var rest := CSSUtils.Escaped(s[1..]);
    assert w == e + rest;
    SliceParts(x, p, e, rest, end);
    StringCloseEscaped(x, p + |e|, s[1..], rest, end, quote);
    StringCloseEscapedChar(x, p, s[0], e, quote);
  }

  /** A string written by the default `string` callback is read back as the same string. */
  lemma FormatStringLexes(s: JString, rest: JString)
    ensures Lex(FormatString(s) + rest, 0) == Ok(Lexed(Str(s), |FormatString(s)|))
  {
    var b := FormatString(s) + rest;
    var w := CSSUtils.Escaped(s);
    assert b[0] == APOS && b[1..1 + |w|] == w && b[1 + |w|] == APOS;
    StringCloseEscaped(b, 1, s, w, 1 + |w|, APOS);
    UnescapeEscaped(s);
    LexQuoted(b, 1 + |w|);
  }

  /** A quoted string at the start of the text, closed at `c`, is its first token. */
  lemma LexQuoted(b: JString, c: nat)
    requires 0 < |b| && (b[0] == QUOTE || b[0] == APOS) && StringClose(b, 1, b[0]) == Some(c)
    ensures Lex(b, 0) == Ok(Lexed(Str(Unescaped(b[1..c])), c + 1))
  {
    assert SkipSpaces(b, 0) == 0;
  }

  /** A URL written by the default `url` callback is read back as the same URL. */
  lemma FormatUrlLexes(u: JString, rest: JString)
    ensures Lex(FormatUrl(u) + rest, 0) == Ok(Lexed(Url(u), |FormatUrl(u)|))
  {
    var b := FormatUrl(u) + rest;
    var w := CSSUtils.Escaped(u);
    var end := 5 + |w|;
    assert b[..5] == Lit("url('") && b[5..end] == w && b[end] == APOS;
    assert b[end + 1] == ')' as JChar;
    StringCloseEscaped(b, 5, u, w, end, APOS);
    UnescapeEscaped(u);
    UrlAtQuoted(b, end);
    LexUrl(b);
  }

  /** `url('`, a quoted string closed at `c` and `)`: a `url(...)` token of the string's text. */
  lemma UrlAtQuoted(b: JString, c: nat)
    requires 5 <= c && c + 2 <= |b| && b[..5] == Lit("url('")
    requires StringClose(b, 5, APOS) == Some(c) && b[c + 1] == ')' as JChar
    ensures UrlAt(b, 0) == Some(Lexed(Url(Unescaped(b[5..c])), c + 2))
  {
    assert b[0] == 'u' as JChar && b[3] == '(' as JChar && b[4] == APOS;
    assert RegexSpaces(b, 4) == 4;
    assert RegexSpaces(b, c + 1) == c + 1;
  }

  /** A `url(...)` token at the start of the text is its first token. */
  lemma LexUrl(b: JString)
    requires 0 < |b| && b[0] == 'u' as JChar && UrlAt(b, 0).Some?
    ensures Lex(b, 0) == Ok(UrlAt(b, 0).value)
  {
    assert SkipSpaces(b, 0) == 0;
  }

  /** A colour written by the default `color` callback is read back as its low 24 bits. */
  lemma FormatColorLexes(rgb: int, rest: JString)
    requires |rest| == 0 || !IsHexDigit(rest[0])
    ensures Lex(FormatColor(rgb) + rest, 0) == Ok(Lexed(Color(rgb % 0x100_0000), 7))
  {
    var b := FormatColor(rgb) + rest;
    assert b[1..7] == FormatColor(rgb)[1..];
    assert Span(b, 1, IsHexDigit) == 7;
  }

  // ---------------------------------------------------------------- lemmas: the tokenizer

  /** `-` right before a digit starts a signed NUMBER token, whose text keeps the sign. */
  lemma MinusDigitIsNumber(b: JString, q: nat)
    requires q + 1 < |b| && b[q] == '-' as JChar && IsAsciiDigit(b[q + 1])
    ensures LexAt(b, q).Ok? && LexAt(b, q).value.token.Number?
    ensures LexAt(b, q).value.token.numeral[0] == '-' as JChar
  {
    assert DigitEnd(b, q + 1) > q + 1;
  }

  /** `#` and six hex digits: the colour they spell. */
  lemma HexColorSix(b: JString, q: nat)
    requires q + 7 <= |b| && b[q] == '#' as JChar
    requires forall k :: q + 1 <= k < q + 7 ==> IsHexDigit(b[k])
    requires q + 7 == |b| || !IsHexDigit(b[q + 7])
    ensures LexAt(b, q) == Ok(Lexed(Color(HexNumber(b[q + 1..q + 7])), q + 7))
  {
    assert Span(b, q + 1, IsHexDigit) == q + 7;
    HexNumberBelow(b[q + 1..q + 7]);
    assert Pow16(6) == 0x100_0000;
  }

  /** `#` and three hex digits: each digit doubled, so `#abc` is the colour of `#aabbcc`. */
  lemma HexColorThree(b: JString, q: nat)
    requires q + 4 <= |b| && b[q] == '#' as JChar
    requires forall k :: q + 1 <= k < q + 4 ==> IsHexDigit(b[k])
    requires q + 4 == |b| || !IsHexDigit(b[q + 4])
    ensures LexAt(b, q) ==
      Ok(Lexed(Color(HexNumber([b[q + 1], b[q + 1], b[q + 2], b[q + 2], b[q + 3], b[q + 3]])), q + 4))
  {
    assert Span(b, q + 1, IsHexDigit) == q + 4;
    var d := b[q + 1..q + 4];
    assert d == [b[q + 1], b[q + 2], b[q + 3]];
    Expand3Doubles(b[q + 1], b[q + 2], b[q + 3]);
  }

  lemma HexNumberPush(d: JString, c: JChar)
    requires IsHexDigit(c) && forall i :: 0 <= i < |d| ==> IsHexDigit(d[i])
    ensures HexNumber(d + [c]) == HexNumber(d) * 16 + HexValue(c)
  {
    assert (d + [c])[..|d|] == d;
  }

  lemma Expand3Doubles(r: JChar, g: JChar, bl: JChar)
    requires IsHexDigit(r) && IsHexDigit(g) && IsHexDigit(bl)
    ensures HexNumber([r, g, bl]) < 0x1000
    ensures Expand3(HexNumber([r, g, bl])) == HexNumber([r, r, g, g, bl, bl])
  {
    var x, y, z := HexValue(r), HexValue(g), HexValue(bl);
    HexNumberPush([], r);
    assert [] + [r] == [r];
    HexNumberPush([r], g);
    HexNumberPush([r, g], bl);
    assert [r] + [g] == [r, g] && [r, g] + [bl] == [r, g, bl];
    var v := HexNumber([r, g, bl]);
    assert v == (x * 16 + y) * 16 + z;
    DivParts(v, x, y * 16 + z, 0x100);
    DivParts(x, 0, x, 0x10);
    DivParts(v, x * 16 + y, z, 0x10);
    DivParts(v / 0x10, x, y, 0x10);
    HexNumberPush([r], r);
    HexNumberPush([r, r], g);
    HexNumberPush([r, r, g], g);
    HexNumberPush([r, r, g, g], bl);
    HexNumberPush([r, r, g, g, bl], bl);
    assert [r] + [r] == [r, r] && [r, r] + [g] == [r, r, g] && [r, r, g] + [g] == [r, r, g, g];
    assert [r, r, g, g] + [bl] == [r, r, g, g, bl] && [r, r, g, g, bl] + [bl] == [r, r, g, g, bl, bl];
  }

  /** Any other number of hex digits after `#`: NumberFormatException when the digits exceed
    * `Integer.MAX_VALUE`, otherwise "invalid #RGB color" at the `#`. */
  lemma HexColorOtherLength(b: JString, q: nat, n: nat)
    requires q + 1 + n <= |b| && b[q] == '#' as JChar && n != 3 && n != 6
    requires forall k :: q + 1 <= k < q + 1 + n ==> IsHexDigit(b[k])
    requires q + 1 + n == |b| || !IsHexDigit(b[q + 1 + n])
    ensures n > 0 && HexNumber(b[q + 1..q + 1 + n]) > INT_MAX ==> LexAt(b, q) == Err(NumberFormatError)
    ensures n == 0 || HexNumber(b[q + 1..q + 1 + n]) <= INT_MAX ==>
      LexAt(b, q) == Err(ParseException(Lit("invalid #RGB color"), q))
  {
    assert Span(b, q + 1, IsHexDigit) == q + 1 + n;
  }

  // ---------------------------------------------------------------- lemmas: the grammar

  /** A blank style makes no callback and throws nothing. */
  lemma BlankStyle(b: JString)
    requires forall i :: 0 <= i < |b| ==> IsSpace(b[i])
    ensures ParseStyle(b) == Done(PState(|b|, Eof, []))
  {
  }

  /** A `;` right after a `;` is "expected style name", at the position after the second one. */
  lemma DoubleSemicolon(b: JString, st: PState)
    requires Fits(b, st) && st.token.Semicolon?
    requires NextF(b, st).Done? && NextF(b, st).st.token.Semicolon?
    ensures DeclsLoop(b, st) ==
      Failed(st.trace, ParseException(Lit("expected style name"), NextF(b, st).st.pos))
  {
  }

  /** One `;` before the end is accepted. */
  lemma TrailingSemicolon(b: JString, st: PState)
    requires Fits(b, st) && st.token.Semicolon?
    requires NextF(b, st).Done? && NextF(b, st).st.token.Eof?
    ensures DeclsLoop(b, st) == Done(PState(|b|, Eof, st.trace))
  {
  }

  /** Example: `;` alone is accepted. */
  lemma LoneSemicolon()
    ensures ParseStyle(Lit(";")) == Done(PState(1, Eof, []))
  {
  }

  /** Example: `;;` is "expected style name" at offset 2. */
  lemma TwoSemicolons()
    ensures ParseStyle(Lit(";;")) == Failed([], ParseException(Lit("expected style name"), 2))
  {
  }

  /** The name is reported before the `:` is checked, and stays reported when it is missing. */
  lemma NameBeforeColon(b: JString, st: PState)
    requires Fits(b, st) && st.token.Ident?
    requires NextF(b, st).Done? && !NextF(b, st).st.token.Colon?
    ensures DeclF(b, st) == Failed(st.trace + [Declaration(st.token.name)],
                                   ParseException(Lit("expected ':' after style name"), NextF(b, st).st.pos))
  {
  }

  /** A missing term is "expected style value", with no callback for it. */
  lemma MissingTerm(b: JString, st: PState)
    requires Fits(b, st) && !st.token.Plus? && !st.token.Minus? && ValueEvent(st.token).None?
    ensures TermF(b, st) == Failed(st.trace, ParseException(Lit("expected style value"), st.pos))
  {
  }

  /** A sign before a term is read and dropped: the term makes the callback it makes unsigned. */
  lemma SignDropped(b: JString, st: PState)
    requires Fits(b, st) && (st.token.Plus? || st.token.Minus?) && NextF(b, st).Done?
    requires !NextF(b, st).st.token.Plus? && !NextF(b, st).st.token.Minus?
    ensures TermF(b, st) == TermF(b, NextF(b, st).st)
  {
  }
}
