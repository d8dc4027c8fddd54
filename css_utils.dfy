/**
 * `CSSUtils`: the table of CSS colour names, and the escaping of text for a quoted CSS string or
 * `url('...')`.  Colours are packed RGB ints (`java.awt.Color` is not modelled); a null string is
 * `None`.  `extractBackgroundColorFromStyle`, which drives the declaration parser, is in module
 * `CSSBackground` (css_background.dfy), since the parser itself uses the escaping defined here.
 */
module CSSUtils {
  import opened Wrappers
  import opened JStrings

  // ---------------------------------------------------------------- the colour table

  // The 140 names of the source's table, in six parts by initial letter (each part a map display
  // small enough for the verifier to look into).  Every name is lower case.

  /** The names from `a` to `c`. */
  const COLORS_A_C: map<string, int> := map[
    "aliceblue" := 0xF0F8FF,
    "antiquewhite" := 0xFAEBD7,
    "aqua" := 0x00FFFF,
    "aquamarine" := 0x7FFFD4,
    "azure" := 0xF0FFFF,
    "beige" := 0xF5F5DC,
    "bisque" := 0xFFE4C4,
    "black" := 0x000000,
    "blanchedalmond" := 0xFFEBCD,
    "blue" := 0x0000FF,
    "blueviolet" := 0x8A2BE2,
    "brown" := 0xA52A2A,
    "burlywood" := 0xDEB887,
    "cadetblue" := 0x5F9EA0,
    "chartreuse" := 0x7FFF00,
    "chocolate" := 0xD2691E,
    "coral" := 0xFF7F50,
    "cornflowerblue" := 0x6495ED,
    "cornsilk" := 0xFFF8DC,
    "crimson" := 0xDC143C,
    "cyan" := 0x00FFFF
  ]

  /** The names from `d` to `g`. */
  const COLORS_D_G: map<string, int> := map[
    "darkblue" := 0x00008B,
    "darkcyan" := 0x008B8B,
    "darkgoldenrod" := 0xB8860B,
    "darkgray" := 0xA9A9A9,
    "darkgreen" := 0x006400,
    "darkkhaki" := 0xBDB76B,
    "darkmagenta" := 0x8B008B,
    "darkolivegreen" := 0x556B2F,
    "darkorange" := 0xFF8C00,
    "darkorchid" := 0x9932CC,
    "darkred" := 0x8B0000,
    "darksalmon" := 0xE9967A,
    "darkseagreen" := 0x8FBC8B,
    "darkslateblue" := 0x483D8B,
    "darkslategray" := 0x2F4F4F,
    "darkturquoise" := 0x00CED1,
    "darkviolet" := 0x9400D3,
    "deeppink" := 0xFF1493,
    "deepskyblue" := 0x00BFFF,
    "dimgray" := 0x696969,
    "dodgerblue" := 0x1E90FF,
    "firebrick" := 0xB22222,
    "floralwhite" := 0xFFFAF0,
    "forestgreen" := 0x228B22,
    "fuchsia" := 0xFF00FF,
    "gainsboro" := 0xDCDCDC,
    "ghostwhite" := 0xF8F8FF,
    "gold" := 0xFFD700,
    "goldenrod" := 0xDAA520,
    "gray" := 0x808080,
    "green" := 0x008000,
    "greenyellow" := 0xADFF2F
  ]

  /** The names from `h` to `k`. */
  const COLORS_H_K: map<string, int> := map[
    "honeydew" := 0xF0FFF0,
    "hotpink" := 0xFF69B4,
    "indianred" := 0xCD5C5C,
    "indigo" := 0x4B0082,
    "ivory" := 0xFFFFF0,
    "khaki" := 0xF0E68C
  ]

  /** The names starting with `l`. */
  const COLORS_L: map<string, int> := map[
    "lavender" := 0xE6E6FA,
    "lavenderblush" := 0xFFF0F5,
    "lawngreen" := 0x7CFC00,
    "lemonchiffon" := 0xFFFACD,
    "lightblue" := 0xADD8E6,
    "lightcoral" := 0xF08080,
    "lightcyan" := 0xE0FFFF,
    "lightgoldenrodyellow" := 0xFAFAD2,
    "lightgreen" := 0x90EE90,
    "lightgrey" := 0xD3D3D3,
    "lightpink" := 0xFFB6C1,
    "lightsalmon" := 0xFFA07A,
    "lightseagreen" := 0x20B2AA,
    "lightskyblue" := 0x87CEFA,
    "lightslategray" := 0x778899,
    "lightsteelblue" := 0xB0C4DE,
    "lightyellow" := 0xFFFFE0,
    "lime" := 0x00FF00,
    "limegreen" := 0x32CD32,
    "linen" := 0xFAF0E6
  ]

  /** The names from `m` to `o`. */
  const COLORS_M_O: map<string, int> := map[
    "magenta" := 0xFF00FF,
    "maroon" := 0x800000,
    "mediumaquamarine" := 0x66CDAA,
    "mediumblue" := 0x0000CD,
    "mediumorchid" := 0xBA55D3,
    "mediumpurple" := 0x9370DB,
    "mediumseagreen" := 0x3CB371,
    "mediumslateblue" := 0x7B68EE,
    "mediumspringgreen" := 0x00FA9A,
    "mediumturquoise" := 0x48D1CC,
    "mediumvioletred" := 0xC71585,
    "midnightblue" := 0x191970,
    "mintcream" := 0xF5FFFA,
    "mistyrose" := 0xFFE4E1,
    "moccasin" := 0xFFE4B5,
    "navajowhite" := 0xFFDEAD,
    "navy" := 0x000080,
    "oldlace" := 0xFDF5E6,
    "olive" := 0x808000,
    "olivedrab" := 0x6B8E23,
    "orange" := 0xFFA500,
    "orangered" := 0xFF4500,
    "orchid" := 0xDA70D6
  ]

  /** The names from `p` to `z`. */
  const COLORS_P_Z: map<string, int> := map[
    "palegoldenrod" := 0xEEE8AA,
    "palegreen" := 0x98FB98,
    "paleturquoise" := 0xAFEEEE,
    "palevioletred" := 0xDB7093,
    "papayawhip" := 0xFFEFD5,
    "peachpuff" := 0xFFDAB9,
    "peru" := 0xCD853F,
    "pink" := 0xFFC0CB,
    "plum" := 0xDDA0DD,
    "powderblue" := 0xB0E0E6,
    "purple" := 0x800080,
    "red" := 0xFF0000,
    "rosybrown" := 0xBC8F8F,
    "royalblue" := 0x4169E1,
    "saddlebrown" := 0x8B4513,
    "salmon" := 0xFA8072,
    "sandybrown" := 0xF4A460,
    "seagreen" := 0x2E8B57,
    "seashell" := 0xFFF5EE,
    "sienna" := 0xA0522D,
    "silver" := 0xC0C0C0,
    "skyblue" := 0x87CEEB,
    "slateblue" := 0x6A5ACD,
    "slategray" := 0x708090,
    "snow" := 0xFFFAFA,
    "springgreen" := 0x00FF7F,
    "steelblue" := 0x4682B4,
    "tan" := 0xD2B48C,
    "teal" := 0x008080,
    "thistle" := 0xD8BFD8,
    "tomato" := 0xFF6347,
    "turquoise" := 0x40E0D0,
    "violet" := 0xEE82EE,
    "wheat" := 0xF5DEB3,
    "white" := 0xFFFFFF,
    "whitesmoke" := 0xF5F5F5,
    "yellow" := 0xFFFF00,
    "yellowgreen" := 0x9ACD32
  ]

  /** The part of the table that holds the names starting with `c`. */
  function ColorPart(c: char): map<string, int> {
    if 'a' <= c <= 'c' then COLORS_A_C
    else if 'd' <= c <= 'g' then COLORS_D_G
    else if 'h' <= c <= 'k' then COLORS_H_K
    else if c == 'l' then COLORS_L
    else if 'm' <= c <= 'o' then COLORS_M_O
    else if 'p' <= c <= 'z' then COLORS_P_Z
    else map[]
  }

  /**
   * `cssNamedColor(name)`: the colour a name stands for, or `None` (null), also for a null name.  The lookup is exact
   * and case-sensitive; a name holding a non-ASCII char is in no part of the table.
   */
  function CssNamedColor(name: Option<JString>): (r: Option<int>)
    ensures name.None? ==> r.None?
    ensures r.Some? ==> name.Some? && |name.value| > 0 && IsAscii(name.value)
    ensures r.Some? ==> AsciiText(name.value) in ColorPart(AsciiText(name.value)[0])
  {
    match name
    case None => None
    case Some(n) =>
      if |n| == 0 || !IsAscii(n) then None
      else
        var key := AsciiText(n);
        var part := ColorPart(key[0]);
        if key in part then Some(part[key]) else None
  }

  /** One entry of the table, read through `cssNamedColor`. */
  lemma NamedColorEntry(name: string, rgb: int)
    requires |name| > 0 && forall i :: 0 <= i < |name| ==> name[i] as int < 0x80
    requires name in ColorPart(name[0]) && ColorPart(name[0])[name] == rgb
    ensures CssNamedColor(Some(Lit(name))) == Some(rgb)
  {
    AsciiOfLit(name);
  }

  /** A name that no part of the table holds. */
  lemma NamedColorMissing(name: string)
    requires |name| > 0 && forall i :: 0 <= i < |name| ==> name[i] as int < 0x80
    requires name !in ColorPart(name[0])
    ensures CssNamedColor(Some(Lit(name))) == None
  {
    AsciiOfLit(name);
  }

  lemma AquaEntry() ensures CssNamedColor(Some(Lit("aqua"))) == Some(0x00FFFF) {
    assert "aqua" in COLORS_A_C && COLORS_A_C["aqua"] == 0x00FFFF;
    NamedColorEntry("aqua", 0x00FFFF);
  }
  lemma CyanEntry() ensures CssNamedColor(Some(Lit("cyan"))) == Some(0x00FFFF) {
    assert "cyan" in COLORS_A_C && COLORS_A_C["cyan"] == 0x00FFFF;
    NamedColorEntry("cyan", 0x00FFFF);
  }
  lemma FuchsiaEntry() ensures CssNamedColor(Some(Lit("fuchsia"))) == Some(0xFF00FF) {
    assert "fuchsia" in COLORS_D_G && COLORS_D_G["fuchsia"] == 0xFF00FF;
    NamedColorEntry("fuchsia", 0xFF00FF);
  }
  lemma MagentaEntry() ensures CssNamedColor(Some(Lit("magenta"))) == Some(0xFF00FF) {
    assert "magenta" in COLORS_M_O && COLORS_M_O["magenta"] == 0xFF00FF;
    NamedColorEntry("magenta", 0xFF00FF);
  }

  /** The aliases of the table: `aqua` and `cyan` are 0x00FFFF, `fuchsia` and `magenta` 0xFF00FF. */
  lemma NamedColorAliases()
    ensures CssNamedColor(Some(Lit("aqua"))) == CssNamedColor(Some(Lit("cyan"))) == Some(0x00FFFF)
    ensures CssNamedColor(Some(Lit("fuchsia"))) == CssNamedColor(Some(Lit("magenta"))) == Some(0xFF00FF)
  {
    AquaEntry();
    CyanEntry();
    FuchsiaEntry();
    MagentaEntry();
  }

  lemma RedMissing() ensures CssNamedColor(Some(Lit("Red"))) == None {
    assert ColorPart('R') == map[];
    NamedColorMissing("Red");
  }
  lemma RedEntry() ensures CssNamedColor(Some(Lit("red"))) == Some(0xFF0000) {
    assert "red" in COLORS_P_Z && COLORS_P_Z["red"] == 0xFF0000;
    NamedColorEntry("red", 0xFF0000);
  }
  lemma LightgrayNotListed() ensures "lightgray" !in COLORS_L {
  }
  lemma LightgrayMissing() ensures CssNamedColor(Some(Lit("lightgray"))) == None {
    LightgrayNotListed();
    NamedColorMissing("lightgray");
  }
  lemma LightgreyEntry() ensures CssNamedColor(Some(Lit("lightgrey"))) == Some(0xD3D3D3) {
    assert "lightgrey" in COLORS_L && COLORS_L["lightgrey"] == 0xD3D3D3;
    NamedColorEntry("lightgrey", 0xD3D3D3);
  }

  /** The lookup is case-sensitive and knows only the table's spellings: `Red` and `lightgray` are absent, `red` and `lightgrey` present. */
  lemma NamedColorExact()
    ensures CssNamedColor(Some(Lit("Red"))) == None && CssNamedColor(Some(Lit("red"))) == Some(0xFF0000)
    ensures CssNamedColor(Some(Lit("lightgray"))) == None && CssNamedColor(Some(Lit("lightgrey"))) == Some(0xD3D3D3)
  {
    RedMissing();
    RedEntry();
    LightgrayMissing();
    LightgreyEntry();
  }

  // ---------------------------------------------------------------- escapeString

  const TAB: JChar := 9
  const SPACE: JChar := 32
  const QUOTE: JChar := 34
  const APOS: JChar := 39
  const BACKSLASH: JChar := 92
  const TILDE: JChar := 126

  /** The chars `escapeString` copies as they are: tab, `' '`..`'~'` and `\200`..`\377`. */
  predicate IsPlain(c: JChar) {
    (SPACE <= c <= TILDE) || (0x80 <= c <= 0xFF) || c == TAB
  }

  /** What `escapeString` writes for one char. */
  function EscapedChar(c: JChar): JString {
    if c == QUOTE || c == APOS || c == BACKSLASH then [BACKSLASH, c]
    else if IsPlain(c) then [c]
    else [BACKSLASH] + HexString(c as nat) + [SPACE]
  }

  /** The text `escapeString` writes for `s`. */
  function Escaped(s: JString): JString
    decreases |s|
  {
    if |s| == 0 then [] else EscapedChar(s[0]) + Escaped(s[1..])
  }

  /**
   * The third rule of `escapeString`: a char other than tab, printable ASCII and `\200`..`\377`
   * becomes a backslash, its code in at most four lower-case hex digits without padding, and one
   * space.
   */
  lemma EscapedHexRules(c: JChar, e: JString)
    requires !IsPlain(c) && e == EscapedChar(c)
    ensures 3 <= |e| <= 6 && e[0] == BACKSLASH && e[|e| - 1] == SPACE
    ensures forall i :: 1 <= i < |e| - 1 ==> IsHexDigit(e[i]) && !IsAsciiUpper(e[i])
    ensures HexNumber(e[1..|e| - 1]) == c as int && (e[1] != '0' as JChar || c == 0)
  {
    var h := HexString(c as nat);
    HexStringLength(c as nat, 4);
    assert e[1..|e| - 1] == h;
  }

  /** Every char `escapeString` writes is tab, printable ASCII or `\200`..`\377`. */
  lemma {:induction false} EscapedIsPlain(s: JString)
    ensures forall i :: 0 <= i < |Escaped(s)| ==> IsPlain(Escaped(s)[i])
    decreases |s|
  {
    if |s| > 0 {
      EscapedIsPlain(s[1..]);
      var e := EscapedChar(s[0]);
      if !IsPlain(s[0]) {
        EscapedHexRules(s[0], e);
      }
      assert forall i :: 0 <= i < |e| ==> IsPlain(e[i]);
    }
  }

  /** `escapeString(buf, str)`: appends the escaped text of `str` (nothing for null) and returns `buf`. */
  method EscapeInto(buf: StringBuffer, str: Option<JString>) returns (r: StringBuffer)
    modifies buf
    ensures r == buf
    ensures buf.text == old(buf.text) + (if str.None? then [] else Escaped(str.value))
  {
    r := buf;
    if str.None? {
      assert buf.text + [] == buf.text;
      return;
    }
    var s := str.value;
    var n := |s|;
    var i := 0;
    ghost var goal := buf.text + Escaped(s);
    assert s[0..] == s;
    while i < n
      invariant 0 <= i <= n
      invariant buf.text + Escaped(s[i..]) == goal
    {
      var ch := s[i];
      var piece;
      if ch == QUOTE || ch == APOS || ch == BACKSLASH {
        piece := [BACKSLASH, ch];
      } else if (SPACE <= ch && ch <= TILDE) || (0x80 <= ch && ch <= 0xFF) || ch == TAB {
        piece := [ch];
      } else {
        piece := [BACKSLASH] + HexString(ch as nat) + [SPACE];
      }
      EscapedFrom(s, i, buf.text);
      buf.Append(piece);
      i := i + 1;
    }
    assert s[n..] == [];
    assert buf.text + [] == buf.text;
  }

  lemma EscapedFrom(s: JString, i: nat, text: JString)
    requires i < |s|
    ensures text + Escaped(s[i..]) == (text + EscapedChar(s[i])) + Escaped(s[i + 1..])
  {
    assert s[i..][1..] == s[i + 1..];
  }

  /** `escapeString(str)`: the escaped text, `""` for null; every char of it is plain. */
  method EscapeString(str: Option<JString>) returns (r: JString)
    ensures str.None? ==> r == []
    ensures str.Some? ==> r == Escaped(str.value)
    ensures forall i :: 0 <= i < |r| ==> IsPlain(r[i])
  {
    if str.None? {
      return [];
    }
    var buf := new StringBuffer([]);
    var b := EscapeInto(buf, str);
    r := b.text;
    EscapedIsPlain(str.value);
  }
}
