/**
 * The constant tables and character classes of `HtmlParser`: the set of tags whose end tag is
 * required (the tags of the loose DTD of HTML 4.01 that need one, plus `TR` and `TD`), and the
 * named character entities of section 24 of HTML 4.01 (sections 24.2.1, 24.3.1 and 24.4.1).
 */
module HtmlTables {
  import opened Wrappers
  import opened JStrings

  // ---------------------------------------------------------------- character classes

  /** `isSpace`: the SGML blanks. */
  predicate IsSpace(c: JChar) {
    c == ' ' as JChar || c == '\n' as JChar || c == '\r' as JChar || c == '\t' as JChar
  }

  /** `isAlpha`: an ASCII letter. */
  predicate IsAlpha(c: JChar) {
    IsAsciiLetter(c)
  }

  /** `isAlphaNumeric`: an ASCII letter or digit. */
  predicate IsAlphaNumeric(c: JChar) {
    IsAsciiAlnum(c)
  }

  /**
   * `isAttrNamePart`, which is also the test the tag-name loops of `parseStartTag` and
   * `parseEndTag` write out: a letter, a digit, `:` or `-`.
   */
  predicate IsNamePart(c: JChar) {
    IsAlphaNumeric(c) || c == ':' as JChar || c == '-' as JChar
  }

  // ---------------------------------------------------------------- tags whose end tag is required

  // The 69 names of `_closeTagRequired`, in three parts by initial letter.

  /** The names starting with `A` to `D`. */
  const REQUIRED_A_D: set<string> := {
    "A", "ABBR", "ACRONYM", "ADDRESS", "APPLET", "B", "BDO", "BIG",
    "BLOCKQUOTE", "BUTTON", "CAPTION", "CENTER", "CITE", "CODE", "DD", "DEL",
    "DFN", "DIR", "DIV", "DL", "DT"
  }

  /** The names starting with `E` to `O`. */
  const REQUIRED_E_O: set<string> := {
    "EM", "FIELDSET", "FONT", "FORM", "FRAMESET", "H1", "H2", "H3",
    "H4", "H5", "H6", "I", "IFRAME", "INS", "KBD", "LABEL",
    "LEGEND", "MAP", "MENU", "NOFRAMES", "NOSCRIPT", "OBJECT", "OL", "OPTGROUP",
    "OPTION"
  }

  /** The names starting with `P` to `Z`. */
  const REQUIRED_P_Z: set<string> := {
    "PRE", "Q", "S", "SAMP", "SCRIPT", "SELECT", "SMALL", "SPAN",
    "STRIKE", "STRONG", "STYLE", "SUB", "SUP", "TABLE", "TD", "TEXTAREA",
    "TH", "TITLE", "TR", "TT", "U", "UL", "VAR"
  }

  /** The part of the set that holds the names starting with `c`. */
  function RequiredPart(c: char): set<string> {
    if 'A' <= c <= 'D' then REQUIRED_A_D
    else if 'E' <= c <= 'O' then REQUIRED_E_O
    else if 'P' <= c <= 'Z' then REQUIRED_P_Z
    else {}
  }

  /** `_closeTagRequired.contains(name.toUpperCase())`. */
  predicate CloseTagRequired(name: JString) {
    var u := UpperAscii(name);
    |u| > 0 && IsAscii(u) && AsciiText(u) in RequiredPart(AsciiText(u)[0])
  }

  // ---------------------------------------------------------------- named entities

  // The 252 entries of `_nameToEntityMap`, in nine parts by initial letter.  Names are
  // case-sensitive: `Agrave` and `agrave` are two entries.

  /** The names starting with `a` to `c`. */
  const ENTITIES_LOWER_A_C: map<string, JChar> := map[
    "aacute" := 0x00E1,
    "acirc" := 0x00E2,
    "acute" := 0x00B4,
    "aelig" := 0x00E6,
    "agrave" := 0x00E0,
    "alefsym" := 0x2135,
    "alpha" := 0x03B1,
    "amp" := 0x0026,
    "and" := 0x2227,
    "ang" := 0x2220,
    "aring" := 0x00E5,
    "asymp" := 0x2248,
    "atilde" := 0x00E3,
    "auml" := 0x00E4,
    "bdquo" := 0x201E,
    "beta" := 0x03B2,
    "brvbar" := 0x00A6,
    "bull" := 0x2022,
    "cap" := 0x2229,
    "ccedil" := 0x00E7,
    "cedil" := 0x00B8,
    "cent" := 0x00A2,
    "chi" := 0x03C7,
    "circ" := 0x02C6,
    "clubs" := 0x2663,
    "cong" := 0x2245,
    "copy" := 0x00A9,
    "crarr" := 0x21B5,
    "cup" := 0x222A,
    "curren" := 0x00A4
  ]

  /** The names starting with `d` to `h`. */
  const ENTITIES_LOWER_D_H: map<string, JChar> := map[
    "dArr" := 0x21D3,
    "dagger" := 0x2020,
    "darr" := 0x2193,
    "deg" := 0x00B0,
    "delta" := 0x03B4,
    "diams" := 0x2666,
    "divide" := 0x00F7,
    "eacute" := 0x00E9,
    "ecirc" := 0x00EA,
    "egrave" := 0x00E8,
    "empty" := 0x2205,
    "emsp" := 0x2003,
    "ensp" := 0x2002,
    "epsilon" := 0x03B5,
    "equiv" := 0x2261,
    "eta" := 0x03B7,
    "eth" := 0x00F0,
    "euml" := 0x00EB,
    "euro" := 0x20AC,
    "exist" := 0x2203,
    "fnof" := 0x0192,
    "forall" := 0x2200,
    "frac12" := 0x00BD,
    "frac14" := 0x00BC,
    "frac34" := 0x00BE,
    "frasl" := 0x2044,
    "gamma" := 0x03B3,
    "ge" := 0x2265,
    "gt" := 0x003E,
    "hArr" := 0x21D4,
    "harr" := 0x2194,
    "hearts" := 0x2665,
    "hellip" := 0x2026
  ]

  /** The names starting with `i` to `l`. */
  const ENTITIES_LOWER_I_L: map<string, JChar> := map[
    "iacute" := 0x00ED,
    "icirc" := 0x00EE,
    "iexcl" := 0x00A1,
    "igrave" := 0x00EC,
    "image" := 0x2111,
    "infin" := 0x221E,
    "int" := 0x222B,
    "iota" := 0x03B9,
    "iquest" := 0x00BF,
    "isin" := 0x2208,
    "iuml" := 0x00EF,
    "kappa" := 0x03BA,
    "lArr" := 0x21D0,
    "lambda" := 0x03BB,
    "lang" := 0x2329,
    "laquo" := 0x00AB,
    "larr" := 0x2190,
    "lceil" := 0x2308,
    "ldquo" := 0x201C,
    "le" := 0x2264,
    "lfloor" := 0x230A,
    "lowast" := 0x2217,
    "loz" := 0x25CA,
    "lrm" := 0x200E,
    "lsaquo" := 0x2039,
    "lsquo" := 0x2018,
    "lt" := 0x003C
  ]

  /** The names starting with `m` to `o`. */
  const ENTITIES_LOWER_M_O: map<string, JChar> := map[
    "macr" := 0x00AF,
    "mdash" := 0x2014,
    "micro" := 0x00B5,
    "middot" := 0x00B7,
    "minus" := 0x2212,
    "mu" := 0x03BC,
    "nabla" := 0x2207,
    "nbsp" := 0x00A0,
    "ndash" := 0x2013,
    "ne" := 0x2260,
    "ni" := 0x220B,
    "not" := 0x00AC,
    "notin" := 0x2209,
    "nsub" := 0x2284,
    "ntilde" := 0x00F1,
    "nu" := 0x03BD,
    "oacute" := 0x00F3,
    "ocirc" := 0x00F4,
    "oelig" := 0x0153,
    "ograve" := 0x00F2,
    "oline" := 0x203E,
    "omega" := 0x03C9,
    "omicron" := 0x03BF,
    "oplus" := 0x2295,
    "or" := 0x2228,
    "ordf" := 0x00AA,
    "ordm" := 0x00BA,
    "oslash" := 0x00F8,
    "otilde" := 0x00F5,
    "otimes" := 0x2297,
    "ouml" := 0x00F6
  ]

  /** The names starting with `p` to `r`. */
  const ENTITIES_LOWER_P_R: map<string, JChar> := map[
    "para" := 0x00B6,
    "part" := 0x2202,
    "permil" := 0x2030,
    "perp" := 0x22A5,
    "phi" := 0x03C6,
    "pi" := 0x03C0,
    "piv" := 0x03D6,
    "plusmn" := 0x00B1,
    "pound" := 0x00A3,
    "prime" := 0x2032,
    "prod" := 0x220F,
    "prop" := 0x221D,
    "psi" := 0x03C8,
    "quot" := 0x0022,
    "rArr" := 0x21D2,
    "radic" := 0x221A,
    "rang" := 0x232A,
    "raquo" := 0x00BB,
    "rarr" := 0x2192,
    "rceil" := 0x2309,
    "rdquo" := 0x201D,
    "real" := 0x211C,
    "reg" := 0x00AE,
    "rfloor" := 0x230B,
    "rho" := 0x03C1,
    "rlm" := 0x200F,
    "rsaquo" := 0x203A,
    "rsquo" := 0x2019
  ]

  /** The names starting with `s` to `t`. */
  const ENTITIES_LOWER_S_T: map<string, JChar> := map[
    "sbquo" := 0x201A,
    "scaron" := 0x0161,
    "sdot" := 0x22C5,
    "sect" := 0x00A7,
    "shy" := 0x00AD,
    "sigma" := 0x03C3,
    "sigmaf" := 0x03C2,
    "sim" := 0x223C,
    "spades" := 0x2660,
    "sub" := 0x2282,
    "sube" := 0x2286,
    "sum" := 0x2211,
    "sup" := 0x2283,
    "sup1" := 0x00B9,
    "sup2" := 0x00B2,
    "sup3" := 0x00B3,
    "supe" := 0x2287,
    "szlig" := 0x00DF,
    "tau" := 0x03C4,
    "there4" := 0x2234,
    "theta" := 0x03B8,
    "thetasym" := 0x03D1,
    "thinsp" := 0x2009,
    "thorn" := 0x00FE,
    "tilde" := 0x02DC,
    "times" := 0x00D7,
    "trade" := 0x2122
  ]

  /** The names starting with `u` to `z`. */
  const ENTITIES_LOWER_U_Z: map<string, JChar> := map[
    "uArr" := 0x21D1,
    "uacute" := 0x00FA,
    "uarr" := 0x2191,
    "ucirc" := 0x00FB,
    "ugrave" := 0x00F9,
    "uml" := 0x00A8,
    "upsih" := 0x03D2,
    "upsilon" := 0x03C5,
    "uuml" := 0x00FC,
    "weierp" := 0x2118,
    "xi" := 0x03BE,
    "yacute" := 0x00FD,
    "yen" := 0x00A5,
    "yuml" := 0x00FF,
    "zeta" := 0x03B6,
    "zwj" := 0x200D,
    "zwnj" := 0x200C
  ]

  /** The names starting with `A` to `I`. */
  const ENTITIES_UPPER_A_I: map<string, JChar> := map[
    "AElig" := 0x00C6,
    "Aacute" := 0x00C1,
    "Acirc" := 0x00C2,
    "Agrave" := 0x00C0,
    "Alpha" := 0x0391,
    "Aring" := 0x00C5,
    "Atilde" := 0x00C3,
    "Auml" := 0x00C4,
    "Beta" := 0x0392,
    "Ccedil" := 0x00C7,
    "Chi" := 0x03A7,
    "Dagger" := 0x2021,
    "Delta" := 0x0394,
    "ETH" := 0x00D0,
    "Eacute" := 0x00C9,
    "Ecirc" := 0x00CA,
    "Egrave" := 0x00C8,
    "Epsilon" := 0x0395,
    "Eta" := 0x0397,
    "Euml" := 0x00CB,
    "Gamma" := 0x0393,
    "Iacute" := 0x00CD,
    "Icirc" := 0x00CE,
    "Igrave" := 0x00CC,
    "Iota" := 0x0399,
    "Iuml" := 0x00CF
  ]

  /** The names starting with `J` to `Z`. */
  const ENTITIES_UPPER_J_Z: map<string, JChar> := map[
    "Kappa" := 0x039A,
    "Lambda" := 0x039B,
    "Mu" := 0x039C,
    "Ntilde" := 0x00D1,
    "Nu" := 0x039D,
    "OElig" := 0x0152,
    "Oacute" := 0x00D3,
    "Ocirc" := 0x00D4,
    "Ograve" := 0x00D2,
    "Omega" := 0x03A9,
    "Omicron" := 0x039F,
    "Oslash" := 0x00D8,
    "Otilde" := 0x00D5,
    "Ouml" := 0x00D6,
    "Phi" := 0x03A6,
    "Pi" := 0x03A0,
    "Prime" := 0x2033,
    "Psi" := 0x03A8,
    "Rho" := 0x03A1,
    "Scaron" := 0x0160,
    "Sigma" := 0x03A3,
    "THORN" := 0x00DE,
    "Tau" := 0x03A4,
    "Theta" := 0x0398,
    "Uacute" := 0x00DA,
    "Ucirc" := 0x00DB,
    "Ugrave" := 0x00D9,
    "Upsilon" := 0x03A5,
    "Uuml" := 0x00DC,
    "Xi" := 0x039E,
    "Yacute" := 0x00DD,
    "Yuml" := 0x0178,
    "Zeta" := 0x0396
  ]

  /** The part of the entity table that holds the names starting with `c`. */
  function EntityPart(c: char): map<string, JChar> {
    if 'a' <= c <= 'c' then ENTITIES_LOWER_A_C
    else if 'd' <= c <= 'h' then ENTITIES_LOWER_D_H
    else if 'i' <= c <= 'l' then ENTITIES_LOWER_I_L
    else if 'm' <= c <= 'o' then ENTITIES_LOWER_M_O
    else if 'p' <= c <= 'r' then ENTITIES_LOWER_P_R
    else if 's' <= c <= 't' then ENTITIES_LOWER_S_T
    else if 'u' <= c <= 'z' then ENTITIES_LOWER_U_Z
    else if 'A' <= c <= 'I' then ENTITIES_UPPER_A_I
    else if 'J' <= c <= 'Z' then ENTITIES_UPPER_J_Z
    else map[]
  }

  /** `decodeNamedEntity(name)`: the char a name stands for, or `None` (null). */
  function DecodeNamedEntity(name: JString): (r: Option<JChar>)
    ensures r.Some? ==> |name| > 0 && IsAscii(name) && AsciiText(name) in EntityPart(AsciiText(name)[0])
    ensures r.Some? ==> r.value == EntityPart(AsciiText(name)[0])[AsciiText(name)]
  {
    if |name| == 0 || !IsAscii(name) then None
    else
      var key := AsciiText(name);
      var part := EntityPart(key[0]);
      if key in part then Some(part[key]) else None
  }

  // ---------------------------------------------------------------- reading the tables

  /** A lower- or upper-case ASCII literal and its upper-case form. */
  predicate UpperOf(name: string, upper: string) {
    |name| == |upper| &&
    forall i :: 0 <= i < |name| ==>
      name[i] as int < 0x80 && upper[i] as int < 0x80 &&
      ToUpperAscii(name[i] as int as JChar) == upper[i] as int as JChar
  }

  /** Membership is decided by the upper-case form, in the part for its initial. */
  lemma CloseTagRequiredLit(name: string, upper: string)
    requires |name| > 0 && UpperOf(name, upper)
    ensures CloseTagRequired(Lit(name)) <==> upper in RequiredPart(upper[0])
  {
    assert UpperAscii(Lit(name)) == Lit(upper);
    AsciiOfLit(upper);
  }

  /** `P`, in either case, does not need an end tag. */
  lemma POptional()
    ensures !CloseTagRequired(Lit("p")) && !CloseTagRequired(Lit("P"))
  {
    CloseTagRequiredLit("p", "P");
    CloseTagRequiredLit("P", "P");
  }

  /** `LI`, in either case, does not need an end tag. */
  lemma LiOptional()
    ensures !CloseTagRequired(Lit("li")) && !CloseTagRequired(Lit("LI"))
  {
    CloseTagRequiredLit("li", "LI");
    CloseTagRequiredLit("LI", "LI");
  }

  /** `IMG`, in either case, does not need an end tag. */
  lemma ImgOptional()
    ensures !CloseTagRequired(Lit("img")) && !CloseTagRequired(Lit("IMG"))
  {
    CloseTagRequiredLit("img", "IMG");
    CloseTagRequiredLit("IMG", "IMG");
  }

  /** `BR`, in either case, does not need an end tag. */
  lemma BrOptional()
    ensures !CloseTagRequired(Lit("br")) && !CloseTagRequired(Lit("BR"))
  {
    CloseTagRequiredLit("br", "BR");
    CloseTagRequiredLit("BR", "BR");
  }

  /** `DIV`, `TD` and `TR` need an end tag, whatever the case of the name. */
  lemma RequiredEndTags()
    ensures CloseTagRequired(Lit("div")) && CloseTagRequired(Lit("Div")) && CloseTagRequired(Lit("DIV"))
    ensures CloseTagRequired(Lit("td")) && CloseTagRequired(Lit("tr"))
  {
    CloseTagRequiredLit("div", "DIV");
    CloseTagRequiredLit("Div", "DIV");
    CloseTagRequiredLit("DIV", "DIV");
    CloseTagRequiredLit("td", "TD");
    CloseTagRequiredLit("tr", "TR");
  }

  /** One entry of the entity table, read through `decodeNamedEntity`. */
  lemma EntityEntry(name: string, c: JChar)
    requires |name| > 0 && forall i :: 0 <= i < |name| ==> name[i] as int < 0x80
    requires name in EntityPart(name[0]) && EntityPart(name[0])[name] == c
    ensures DecodeNamedEntity(Lit(name)) == Some(c)
  {
    AsciiOfLit(name);
  }

  /** A name that no part of the entity table holds. */
  lemma EntityMissing(name: string)
    requires |name| > 0 && forall i :: 0 <= i < |name| ==> name[i] as int < 0x80
    requires name !in EntityPart(name[0])
    ensures DecodeNamedEntity(Lit(name)) == None
  {
    AsciiOfLit(name);
  }

  /** `&amp;` is `&`. */
  lemma AmpEntry()
    ensures DecodeNamedEntity(Lit("amp")) == Some('&' as JChar)
  {
    assert EntityPart("amp"[0]) == ENTITIES_LOWER_A_C && "amp" in ENTITIES_LOWER_A_C && ENTITIES_LOWER_A_C["amp"] == '&' as JChar;
    EntityEntry("amp", '&' as JChar);
  }

  /** `&lt;` is `<`. */
  lemma LtEntry()
    ensures DecodeNamedEntity(Lit("lt")) == Some('<' as JChar)
  {
    assert EntityPart("lt"[0]) == ENTITIES_LOWER_I_L && "lt" in ENTITIES_LOWER_I_L && ENTITIES_LOWER_I_L["lt"] == '<' as JChar;
    EntityEntry("lt", '<' as JChar);
  }

  /** `&gt;` is `>`. */
  lemma GtEntry()
    ensures DecodeNamedEntity(Lit("gt")) == Some('>' as JChar)
  {
    assert EntityPart("gt"[0]) == ENTITIES_LOWER_D_H && "gt" in ENTITIES_LOWER_D_H && ENTITIES_LOWER_D_H["gt"] == '>' as JChar;
    EntityEntry("gt", '>' as JChar);
  }

  /** `&quot;` is `"`. */
  lemma QuotEntry()
    ensures DecodeNamedEntity(Lit("quot")) == Some('"' as JChar)
  {
    assert EntityPart("quot"[0]) == ENTITIES_LOWER_P_R && "quot" in ENTITIES_LOWER_P_R && ENTITIES_LOWER_P_R["quot"] == '"' as JChar;
    EntityEntry("quot", '"' as JChar);
  }

  /** `&nbsp;` is the no-break space U+00A0. */
  lemma NbspEntry()
    ensures DecodeNamedEntity(Lit("nbsp")) == Some(0xA0)
  {
    assert EntityPart("nbsp"[0]) == ENTITIES_LOWER_M_O && "nbsp" in ENTITIES_LOWER_M_O && ENTITIES_LOWER_M_O["nbsp"] == 0xA0;
    EntityEntry("nbsp", 0xA0);
  }

  /** `&Agrave;` is U+00C0 ... */
  lemma AgraveUpperEntry()
    ensures DecodeNamedEntity(Lit("Agrave")) == Some(0xC0)
  {
    assert EntityPart("Agrave"[0]) == ENTITIES_UPPER_A_I && "Agrave" in ENTITIES_UPPER_A_I && ENTITIES_UPPER_A_I["Agrave"] == 0xC0;
    EntityEntry("Agrave", 0xC0);
  }

  /** ... and `&agrave;` is U+00E0: names are case-sensitive. */
  lemma AgraveLowerEntry()
    ensures DecodeNamedEntity(Lit("agrave")) == Some(0xE0)
  {
    assert EntityPart("agrave"[0]) == ENTITIES_LOWER_A_C && "agrave" in ENTITIES_LOWER_A_C && ENTITIES_LOWER_A_C["agrave"] == 0xE0;
    EntityEntry("agrave", 0xE0);
  }

  /** `AMP` is not an entity: the lookup does not fold case. */
  lemma AmpUpperMissing()
    ensures DecodeNamedEntity(Lit("AMP")) == None
  {
    EntityMissing("AMP");
  }

  /** `apos` (an XML entity) is not in the table. */
  lemma AposMissing()
    ensures DecodeNamedEntity(Lit("apos")) == None
  {
    EntityMissing("apos");
  }

  /** The last entry of the table. */
  lemma EuroEntry()
    ensures DecodeNamedEntity(Lit("euro")) == Some(0x20AC)
  {
    assert EntityPart("euro"[0]) == ENTITIES_LOWER_D_H && "euro" in ENTITIES_LOWER_D_H && ENTITIES_LOWER_D_H["euro"] == 0x20AC;
    EntityEntry("euro", 0x20AC);
  }
}
