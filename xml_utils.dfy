/**
 * `XMLUtils`: escaping text for XML attribute values, element content and CDATA sections, the
 * unescaping of content, simple element output, and the detection of the encoding of an XML byte
 * stream from its byte-order mark or its XML declaration (Appendix F.1 of the XML 1.0
 * recommendation).  A null string is `None`.
 */
module XMLUtils {
  import opened Wrappers
  import opened JStrings
  import StringUtils

  // ---------------------------------------------------------------- chars

  const TAB: JChar := 9
  const LF: JChar := 10
  const CR: JChar := 13
  const SPACE: JChar := 32
  const QUOT: JChar := 34
  const AMP: JChar := 38
  const APOS: JChar := 39
  const LT: JChar := 60
  const GT: JChar := 62
  const RBRACKET: JChar := 93

  const MIN_HIGH_SURROGATE: JChar := 0xD800
  const MAX_HIGH_SURROGATE: JChar := 0xDBFF
  const MIN_LOW_SURROGATE: JChar := 0xDC00
  const MAX_LOW_SURROGATE: JChar := 0xDFFF
  const MAX_VALID_UTF16: JChar := 0xFFFD

  predicate IsLowSurrogate(c: JChar) {
    MIN_LOW_SURROGATE <= c <= MAX_LOW_SURROGATE
  }

  /** `&amp;` */
  const AMP_REF: JString := [38, 97, 109, 112, 59]
  /** `&lt;` */
  const LT_REF: JString := [38, 108, 116, 59]
  /** `&gt;` */
  const GT_REF: JString := [38, 103, 116, 59]
  /** `&quot;` */
  const QUOT_REF: JString := [38, 113, 117, 111, 116, 59]
  /** `&apos;` */
  const APOS_REF: JString := [38, 97, 112, 111, 115, 59]
  /** `&#34;` */
  const NUM_QUOT_REF: JString := [38, 35, 51, 52, 59]
  /** `&#39;` */
  const NUM_APOS_REF: JString := [38, 35, 51, 57, 59]
  /** `<![CDATA[` */
  const CDATA_START: JString := [60, 33, 91, 67, 68, 65, 84, 65, 91]
  /** `]]>` */
  const CDATA_END: JString := [93, 93, 62]
  /** `]]>]]<![CDATA[>`: closes the section after `]]` and opens a new one for the `>`. */
  const CDATA_END_ESCAPE: JString := [93, 93, 62, 93, 93, 60, 33, 91, 67, 68, 65, 84, 65, 91, 62]

  /**
   * The text is a sequence of XML `Char`s (production [2] of XML 1.0) in UTF-16: tab, LF, CR,
   * U+0020..U+D7FF, U+E000..U+FFFD, and a supplementary char as a high surrogate followed by a
   * low one.
   */
  predicate IsXmlText(s: JString)
    decreases |s|
  {
    if |s| == 0 then true
    else
      var c := s[0];
      if c < MIN_HIGH_SURROGATE then (c >= SPACE || c == TAB || c == LF || c == CR) && IsXmlText(s[1..])
      else if MAX_LOW_SURROGATE < c <= MAX_VALID_UTF16 then IsXmlText(s[1..])
      else c <= MAX_HIGH_SURROGATE && |s| >= 2 && IsLowSurrogate(s[1]) && IsXmlText(s[2..])
  }

  /** The char filter the three escapers share, on its own: it keeps XML chars and drops all others. */
  function Filtered(s: JString): JString
    decreases |s|
  {
    if |s| == 0 then []
    else
      var c := s[0];
      if c < MIN_HIGH_SURROGATE then (if c >= SPACE || c == TAB || c == LF || c == CR then [c] else []) + Filtered(s[1..])
      else if MAX_LOW_SURROGATE < c <= MAX_VALID_UTF16 then [c] + Filtered(s[1..])
      else if c <= MAX_HIGH_SURROGATE && |s| >= 2 && IsLowSurrogate(s[1]) then [c, s[1]] + Filtered(s[2..])
      else Filtered(s[1..])
  }

  // ---------------------------------------------------------------- escaping

  /** The three escaping loops of the source: `escapeAttribute`, `escapeContent` and `escapeCDATA`. */
  datatype Escaper = Attribute | Content(escapeQuotes: bool) | CData

  predicate StartsCDataEnd(s: JString) {
    |s| >= 3 && s[0] == RBRACKET && s[1] == RBRACKET && s[2] == GT
  }

  /** The chars one round of an escaping loop consumes: `]]>` in CDATA, a surrogate pair, or one char. */
  function Step(e: Escaper, s: JString): (n: nat)
    requires |s| > 0
    ensures 1 <= n <= |s|
  {
    var c := s[0];
    if c < MIN_HIGH_SURROGATE then (if e.CData? && StartsCDataEnd(s) then 3 else 1)
    else if MAX_LOW_SURROGATE < c <= MAX_VALID_UTF16 then 1
    else if c <= MAX_HIGH_SURROGATE && |s| >= 2 && IsLowSurrogate(s[1]) then 2
    else 1
  }

  /** What the escapers write for a char below the surrogates (the `switch` of each loop). */
  function Replacement(e: Escaper, c: JChar): JString {
    if c == TAB || c == CR || c == LF then [c]
    else
      match e
      case Attribute =>
        if c == QUOT then NUM_QUOT_REF
        else if c == AMP then AMP_REF
        else if c == APOS then NUM_APOS_REF
        else if c == LT then LT_REF
        else if c >= SPACE then [c]
        else []
      case Content(escapeQuotes) =>
        if c == AMP then AMP_REF
        else if c == LT then LT_REF
        else if c == GT then GT_REF
        else if c == QUOT then (if escapeQuotes then QUOT_REF else [c])
        else if c >= SPACE then [c]
        else []
      case CData => if c >= SPACE then [c] else []
  }

  /** What one round of an escaping loop appends for the `Step(e, s)` chars at the start of `s`. */
  function Piece(e: Escaper, s: JString): JString
    requires |s| > 0
  {
    var c := s[0];
    if c < MIN_HIGH_SURROGATE then (if e.CData? && StartsCDataEnd(s) then CDATA_END_ESCAPE else Replacement(e, c))
    else if MAX_LOW_SURROGATE < c <= MAX_VALID_UTF16 then [c]
    else if c <= MAX_HIGH_SURROGATE && |s| >= 2 && IsLowSurrogate(s[1]) then [c, s[1]]
    else []
  }

  /** The text an escaping loop appends for `s`. */
  function Escaped(e: Escaper, s: JString): JString
    decreases |s|, 1
  {
    if |s| == 0 then [] else EscapedRound(e, s)
  }

  /** The text an escaping loop appends for a non-empty `s`: one round, then the rest. */
  function EscapedRound(e: Escaper, s: JString): JString
    requires |s| > 0
    decreases |s|, 0
  {
    Piece(e, s) + Escaped(e, s[Step(e, s)..])
  }

  /** One round of an escaping loop at index `i` of `s`: the text it appends and the chars it consumes. */
  method NextPiece(e: Escaper, s: JString, i: nat) returns (piece: JString, used: nat)
    requires i < |s|
    ensures piece == Piece(e, s[i..]) && used == Step(e, s[i..])
  {
    ghost var rest := s[i..];
    var n := |s|;
    var c := s[i];
    assert rest[0] == c && (i + 1 < n ==> rest[1] == s[i + 1]) && (i + 2 < n ==> rest[2] == s[i + 2]);
    piece, used := [], 1;
    if c < MIN_HIGH_SURROGATE {
      if e.CData? && c == RBRACKET && i + 2 < n && s[i + 1] == RBRACKET && s[i + 2] == GT {
        piece, used := CDATA_END_ESCAPE, 3;
      } else {
        piece := Replacement(e, c);
      }
    } else if MAX_LOW_SURROGATE < c <= MAX_VALID_UTF16 {
      piece := [c];
    } else if c <= MAX_HIGH_SURROGATE && i + 1 < n {
      var c2 := s[i + 1];
      if MIN_LOW_SURROGATE <= c2 <= MAX_LOW_SURROGATE {
        piece, used := [c, c2], 2;
      }
    }
  }

  /** The loop shared by `escapeAttribute`, `escapeContent` and `escapeCDATA`: a null source appends nothing. */
  method AppendEscaped(e: Escaper, buf: StringBuffer, src: Option<JString>)
    modifies buf
    ensures buf.text == old(buf.text) + (if src.None? then [] else Escaped(e, src.value))
  {
    if src.None? {
      assert old(buf.text) + [] == buf.text;
      return;
    }
    EscapedFromStart(e, src.value);
    AppendEscapedText(e, buf, src.value, buf.text + Escaped(e, src.value));
  }

  /**
   * The loop itself, over a non-null source; `goal` is the text before the loop followed by what
   * the loop appends for all of `s`.
   */
  method AppendEscapedText(e: Escaper, buf: StringBuffer, s: JString, ghost goal: JString)
    requires buf.text + Escaped(e, s[0..]) == goal
    modifies buf
    ensures buf.text == goal
  {
    var i: nat := 0;
    while i < |s|
      invariant i <= |s|
      invariant buf.text + Escaped(e, s[i..]) == goal
    {
      var used := AppendNextPiece(e, buf, s, i, goal);
      i := i + used;
    }
    EscapedAtEnd(e, s, i, buf.text, goal);
  }

  /** Before the loop, all of `s` is left to escape. */
  lemma EscapedFromStart(e: Escaper, s: JString)
    ensures Escaped(e, s[0..]) == Escaped(e, s)
  {
    assert s[0..] == s;
  }

  /** Once the loop has consumed `s`, nothing is left to append. */
  lemma EscapedAtEnd(e: Escaper, s: JString, i: nat, text: JString, goal: JString)
    requires i == |s| && text + Escaped(e, s[i..]) == goal
    ensures text == goal
  {
    assert s[i..] == [];
    assert text + [] == text;
  }

  /** One round of the loop: appends the piece for `s[i..]` and says how many chars it consumed. */
  method AppendNextPiece(e: Escaper, buf: StringBuffer, s: JString, i: nat, ghost goal: JString) returns (used: nat)
    requires i < |s| && buf.text + Escaped(e, s[i..]) == goal
    modifies buf
    ensures 1 <= used && i + used <= |s|
    ensures buf.text + Escaped(e, s[i + used..]) == goal
  {
    var piece;
    piece, used := NextPiece(e, s, i);
    EscapedAt(e, s, i);
    StringUtils.AppendAssoc(buf.text, piece, Escaped(e, s[i + used..]));
    buf.Append(piece);
  }

  /** The escaped text from index `i` on: the piece for `s[i..]`, then the escaped text after it. */
  lemma EscapedAt(e: Escaper, s: JString, i: nat)
    requires i < |s|
    ensures i + Step(e, s[i..]) <= |s|
    ensures Escaped(e, s[i..]) == Piece(e, s[i..]) + Escaped(e, s[i + Step(e, s[i..])..])
  {
    assert s[i..][Step(e, s[i..])..] == s[i + Step(e, s[i..])..];
  }

  /** `escapeAttribute(buf, src)`. */
  method EscapeAttribute(buf: StringBuffer, src: Option<JString>)
    modifies buf
    ensures buf.text == old(buf.text) + (if src.None? then [] else Escaped(Attribute, src.value))
  {
    AppendEscaped(Attribute, buf, src);
  }

  /** `escapeContent(buf, src, escapeQuotes)`; `escapeContent(buf, src)` is this with `true`. */
  method EscapeContent(buf: StringBuffer, src: Option<JString>, escapeQuotes: bool)
    modifies buf
    ensures buf.text == old(buf.text) + (if src.None? then [] else Escaped(Content(escapeQuotes), src.value))
  {
    AppendEscaped(Content(escapeQuotes), buf, src);
  }

  /** `escapeCDATA(buf, src)`. */
  method EscapeCDATA(buf: StringBuffer, src: Option<JString>)
    modifies buf
    ensures buf.text == old(buf.text) + (if src.None? then [] else Escaped(CData, src.value))
  {
    AppendEscaped(CData, buf, src);
  }

  /** The one-argument forms `escapeAttribute(src)`, `escapeContent(src)` (quotes escaped) and `escapeCDATA(src)`. */
  method EscapeString(e: Escaper, src: Option<JString>) returns (r: JString)
    ensures src.None? ==> r == []
    ensures src.Some? ==> r == Escaped(e, src.value)
  {
    var buf := new StringBuffer([]);
    AppendEscaped(e, buf, src);
    r := buf.text;
  }

  /** `toCDATA(buf, src)`: the escaped text between `<![CDATA[` and `]]>`. */
  method ToCDATA(buf: StringBuffer, src: Option<JString>)
    modifies buf
    ensures buf.text == old(buf.text) + CDATA_START + (if src.None? then [] else Escaped(CData, src.value)) + CDATA_END
  {
    buf.Append(CDATA_START);
    AppendEscaped(CData, buf, src);
    buf.Append(CDATA_END);
  }

  /** `toCDATA(src)`. */
  method ToCDATAString(src: Option<JString>) returns (r: JString)
    ensures r == CDATA_START + (if src.None? then [] else Escaped(CData, src.value)) + CDATA_END
    ensures |r| >= |CDATA_START| + |CDATA_END| && r[..9] == CDATA_START && r[|r| - 3..] == CDATA_END
  {
    var buf := new StringBuffer([]);
    ToCDATA(buf, src);
    r := buf.text;
  }

  // ---------------------------------------------------------------- what the escapers write

  // Sequence facts proved apart from the entity literals, whose presence makes them costly.

  lemma TakeOne(t: JString, p: JString)
    requires |t| > 0 && p == [t[0]]
    ensures p == t[..1]
  {
  }

  lemma TakeTwo(t: JString, p: JString)
    requires |t| > 1 && p == [t[0], t[1]]
    ensures p == t[..2]
  {
  }

  lemma ConsThree(a: JChar, b: JChar, c: JChar, t: JString)
    ensures [a] + ([b] + ([c] + t)) == [a, b, c] + t
  {
  }

  lemma ConsFour(a: JChar, b: JChar, c: JChar, d: JChar, t: JString)
    ensures [a, b, c, d] + t == [a] + ([b] + ([c] + ([d] + t)))
  {
  }

  lemma SplitAt(t: JString, n: nat)
    requires n <= |t|
    ensures t[..n] + t[n..] == t
  {
  }

  lemma {:induction false} XmlTextAppend(a: JString, b: JString)
    requires IsXmlText(a) && IsXmlText(b)
    ensures IsXmlText(a + b)
    decreases |a|
  {
    if |a| == 0 {
      assert a + b == b;
    } else {
      var c := a[0];
      if c <= MAX_HIGH_SURROGATE && MIN_HIGH_SURROGATE <= c {
        assert (a + b)[2..] == a[2..] + b;
        XmlTextAppend(a[2..], b);
      } else {
        assert (a + b)[1..] == a[1..] + b;
        XmlTextAppend(a[1..], b);
      }
    }
  }

  lemma {:induction false} PrintableIsXmlText(t: JString)
    requires forall i :: 0 <= i < |t| ==> SPACE <= t[i] < 0x7F
    ensures IsXmlText(t)
    decreases |t|
  {
    if |t| > 0 {
      PrintableIsXmlText(t[1..]);
    }
  }

  lemma PieceIsXmlText(e: Escaper, s: JString)
    requires |s| > 0
    ensures IsXmlText(Piece(e, s))
  {
    var p := Piece(e, s);
    if s[0] < MIN_HIGH_SURROGATE && ((e.CData? && StartsCDataEnd(s)) || |p| > 1) {
      PrintableIsXmlText(p);
    } else if |p| == 2 {
      assert p[2..] == [];
    } else if |p| == 1 {
      assert p[1..] == [];
    }
  }

  /** Whatever the input, all three escapers write only XML chars. */
  lemma {:induction false} EscapedIsXmlText(e: Escaper, s: JString)
    ensures IsXmlText(Escaped(e, s))
    decreases |s|
  {
    if |s| > 0 {
      PieceIsXmlText(e, s);
      EscapedIsXmlText(e, s[Step(e, s)..]);
      XmlTextAppend(Piece(e, s), Escaped(e, s[Step(e, s)..]));
    }
  }

  lemma {:induction false} FilteredIsXmlText(s: JString)
    ensures IsXmlText(Filtered(s))
    decreases |s|
  {
    if |s| > 0 {
      var c := s[0];
      if c < MIN_HIGH_SURROGATE {
        FilteredIsXmlText(s[1..]);
        var head: JString := if c >= SPACE || c == TAB || c == LF || c == CR then [c] else [];
        assert |head| == 1 ==> head[1..] == [];
        XmlTextAppend(head, Filtered(s[1..]));
      } else if MAX_LOW_SURROGATE < c <= MAX_VALID_UTF16 {
        FilteredIsXmlText(s[1..]);
        assert [c][1..] == [];
        XmlTextAppend([c], Filtered(s[1..]));
      } else if c <= MAX_HIGH_SURROGATE && |s| >= 2 && IsLowSurrogate(s[1]) {
        FilteredIsXmlText(s[2..]);
        assert [c, s[1]][2..] == [];
        XmlTextAppend([c, s[1]], Filtered(s[2..]));
      } else {
        FilteredIsXmlText(s[1..]);
      }
    }
  }

  /** The filter keeps exactly the XML texts: it changes a text if and only if that text is not XML. */
  lemma {:induction false} FilteredKeepsXmlText(s: JString)
    ensures Filtered(s) == s <==> IsXmlText(s)
    decreases |s|
  {
    FilteredIsXmlText(s);
    if |s| > 0 && IsXmlText(s) {
      if MIN_HIGH_SURROGATE <= s[0] <= MAX_HIGH_SURROGATE {
        FilteredKeepsXmlText(s[2..]);
        assert s == [s[0], s[1]] + s[2..];
      } else {
        FilteredKeepsXmlText(s[1..]);
        assert s == [s[0]] + s[1..];
      }
    }
  }

  /** The chars any escaper rewrites: `&`, `<`, `>`, `"`, `'` and the `]` of `]]>`. */
  predicate IsMarkupChar(c: JChar) {
    c == AMP || c == LT || c == GT || c == QUOT || c == APOS || c == RBRACKET
  }

  /** Without markup chars, one round of an escaper writes what the filter keeps of the chars it consumes. */
  lemma PlainPiece(e: Escaper, s: JString)
    requires |s| > 0 && !IsMarkupChar(s[0])
    ensures MIN_HIGH_SURROGATE <= s[0] <= MAX_HIGH_SURROGATE && |s| >= 2 && IsLowSurrogate(s[1]) ==>
      Step(e, s) == 2 && Piece(e, s) == [s[0], s[1]]
    ensures !(MIN_HIGH_SURROGATE <= s[0] <= MAX_HIGH_SURROGATE && |s| >= 2 && IsLowSurrogate(s[1])) ==>
      Step(e, s) == 1 && Filtered(s) == Piece(e, s) + Filtered(s[1..])
  {
    var c := s[0];
    if c < MIN_HIGH_SURROGATE {
      assert !StartsCDataEnd(s);
      assert Piece(e, s) == Replacement(e, c);
    }
  }

  /** On text without markup chars every escaper only filters. */
  lemma {:induction false} EscapedPlainText(e: Escaper, s: JString)
    requires forall i :: 0 <= i < |s| ==> !IsMarkupChar(s[i])
    ensures Escaped(e, s) == Filtered(s)
    decreases |s|
  {
    if |s| > 0 {
      PlainPiece(e, s);
      EscapedPlainText(e, s[Step(e, s)..]);
    }
  }

  /** A char below the surrogates (other than the `]` of CDATA) is escaped on its own. */
  lemma EscapedCons(e: Escaper, c: JChar, t: JString)
    requires c < MIN_HIGH_SURROGATE && !(e.CData? && c == RBRACKET)
    ensures Escaped(e, [c] + t) == Replacement(e, c) + Escaped(e, t)
  {
    assert ([c] + t)[1..] == t;
  }

  /** `escapeAttribute` writes `&#34;`, `&amp;`, `&#39;` and `&lt;`, and leaves `>` alone. */
  lemma AttributeTable(c: JChar, t: JString)
    requires c == QUOT || c == AMP || c == APOS || c == LT || c == GT
    ensures Escaped(Attribute, [c] + t) ==
      (if c == QUOT then NUM_QUOT_REF else if c == AMP then AMP_REF else if c == APOS then NUM_APOS_REF
       else if c == LT then LT_REF else [GT]) + Escaped(Attribute, t)
  {
    EscapedCons(Attribute, c, t);
  }

  /** `escapeContent` writes `&amp;`, `&lt;`, `&gt;`, and `&quot;` only when asked to; `'` stays. */
  lemma ContentTable(q: bool, c: JChar, t: JString)
    requires c == AMP || c == LT || c == GT || c == APOS || c == QUOT
    ensures Escaped(Content(q), [c] + t) ==
      (if c == AMP then AMP_REF else if c == LT then LT_REF else if c == GT then GT_REF else if c == APOS then [APOS]
       else if q then QUOT_REF else [QUOT]) + Escaped(Content(q), t)
  {
    EscapedCons(Content(q), c, t);
  }

  /** Tab, CR and LF are kept by every escaper. */
  lemma LineCharsKept(e: Escaper, c: JChar, t: JString)
    requires c == TAB || c == CR || c == LF
    ensures Escaped(e, [c] + t) == [c] + Escaped(e, t)
  {
    EscapedCons(e, c, t);
  }

  /**
   * What every escaper drops: controls other than tab, CR and LF, U+FFFE and U+FFFF, a lone low
   * surrogate, and a high surrogate without a low one after it (the next char is then read as usual);
   * a surrogate pair is copied whole.
   */
  lemma DropRules(e: Escaper, c: JChar, t: JString)
    ensures (c < SPACE && c != TAB && c != CR && c != LF) || c == 0xFFFE || c == 0xFFFF || IsLowSurrogate(c) ==>
      Escaped(e, [c] + t) == Escaped(e, t)
    ensures MIN_HIGH_SURROGATE <= c <= MAX_HIGH_SURROGATE && (|t| == 0 || !IsLowSurrogate(t[0])) ==>
      Escaped(e, [c] + t) == Escaped(e, t)
    ensures MIN_HIGH_SURROGATE <= c <= MAX_HIGH_SURROGATE && |t| > 0 && IsLowSurrogate(t[0]) ==>
      Escaped(e, [c] + t) == [c, t[0]] + Escaped(e, t[1..])
  {
    var s := [c] + t;
    assert s[1..] == t;
    if |t| > 0 {
      assert s[2..] == t[1..];
    }
  }

  /** The chars escaper `e` never lets through: `<`, `"` and `'` in attributes; `<`, `>` and, when asked, `"` in content. */
  predicate NoRawMarkup(e: Escaper, r: JString) {
    (e.Attribute? ==> LT !in r && QUOT !in r && APOS !in r) &&
    (e.Content? ==> LT !in r && GT !in r && (e.escapeQuotes ==> QUOT !in r))
  }

  lemma PieceHasNoRawMarkup(e: Escaper, s: JString)
    requires |s| > 0
    ensures NoRawMarkup(e, Piece(e, s))
  {
  }

  lemma NoRawMarkupAppend(e: Escaper, a: JString, b: JString)
    requires NoRawMarkup(e, a) && NoRawMarkup(e, b)
    ensures NoRawMarkup(e, a + b)
  {
  }

  /** Attribute values never hold a raw `<`, `"` or `'`; content never a raw `<` or `>`, nor `"` when quotes are escaped. */
  lemma {:induction false} EscapedHasNoMarkup(e: Escaper, s: JString)
    ensures NoRawMarkup(e, Escaped(e, s))
    decreases |s|
  {
    if |s| > 0 {
      PieceHasNoRawMarkup(e, s);
      EscapedHasNoMarkup(e, s[Step(e, s)..]);
      NoRawMarkupAppend(e, Piece(e, s), Escaped(e, s[Step(e, s)..]));
    }
  }

  // ---------------------------------------------------------------- unescaping content

  /**
   * `unescapeContent(src)`: `&lt;`, `&gt;`, `&apos;` and `&amp;`, in that order, each replaced
   * everywhere by its char; `&quot;` is left as it is, and a null source throws.
   */
  function UnescapeContent(src: Option<JString>): (r: Result<JString, Exception>)
    ensures src.None? <==> r == Err(NullPointerException)
    ensures r.Ok? ==> |r.value| <= |src.value|
  {
    match src
    case None => Err(NullPointerException)
    case Some(t) =>
      var t1 := StringUtils.ReplaceAll(t, LT_REF, [LT]);
      var t2 := StringUtils.ReplaceAll(t1, GT_REF, [GT]);
      var t3 := StringUtils.ReplaceAll(t2, APOS_REF, [APOS]);
      var t4 := StringUtils.ReplaceAll(t3, AMP_REF, [AMP]);
      ShorterScan(t, LT_REF, [LT]);
      ShorterScan(t1, GT_REF, [GT]);
      ShorterScan(t2, APOS_REF, [APOS]);
      ShorterScan(t3, AMP_REF, [AMP]);
      Ok(t4)
  }

  lemma ShorterScan(t: JString, target: JString, with: JString)
    requires |with| <= |target| && |target| > 0
    ensures |StringUtils.ReplaceAll(t, target, with)| <= |t|
  {
    StringUtils.ReplaceAllIsScan(t, target, with);
    ScanLength(t, target, with);
  }

  lemma {:induction false} ScanLength(t: JString, target: JString, with: JString)
    requires |with| <= |target| && |target| > 0
    ensures |StringUtils.ReplaceScan(t, target, with)| <= |t|
    decreases |t|
  {
    if |t| > 0 {
      if StartsWith(t, target) {
        ScanLength(t[|target|..], target, with);
      } else {
        ScanLength(t[1..], target, with);
      }
    }
  }

  /** Text without `&` comes back unchanged. */
  lemma UnescapePlainText(t: JString)
    requires AMP !in t
    ensures UnescapeContent(Some(t)) == Ok(t)
  {
    StringUtils.NoCharNoOccurrence(t, LT_REF, AMP);
    StringUtils.ReplaceAllAbsent(t, LT_REF, [LT]);
    StringUtils.NoCharNoOccurrence(t, GT_REF, AMP);
    StringUtils.ReplaceAllAbsent(t, GT_REF, [GT]);
    StringUtils.NoCharNoOccurrence(t, APOS_REF, AMP);
    StringUtils.ReplaceAllAbsent(t, APOS_REF, [APOS]);
    StringUtils.NoCharNoOccurrence(t, AMP_REF, AMP);
    StringUtils.ReplaceAllAbsent(t, AMP_REF, [AMP]);
  }

  /** The pieces the escaping loop appends, one per round. */
  function Pieces(e: Escaper, s: JString): seq<JString>
    decreases |s|
  {
    if |s| == 0 then [] else [Piece(e, s)] + Pieces(e, s[Step(e, s)..])
  }

  lemma {:induction false} EscapedIsConcat(e: Escaper, s: JString)
    ensures Escaped(e, s) == Concat(Pieces(e, s))
    decreases |s|
  {
    if |s| > 0 {
      EscapedIsConcat(e, s[Step(e, s)..]);
      ConcatCons(Piece(e, s), Pieces(e, s[Step(e, s)..]));
    }
  }

  predicate IsEntity(p: JString) {
    p == AMP_REF || p == LT_REF || p == GT_REF || p == QUOT_REF || p == APOS_REF
  }

  /** A piece an unescaping pass can treat on its own: free of `&`, or one whole entity reference. */
  predicate GoodPiece(p: JString) {
    AMP !in p || IsEntity(p)
  }

  /** Each piece with every occurrence of `target` replaced by `with`. */
  function MapPieces(ps: seq<JString>, target: JString, with: JString): (r: seq<JString>)
    ensures |r| == |ps|
    ensures forall k :: 0 <= k < |ps| ==> r[k] == if ps[k] == target then with else ps[k]
  {
    if |ps| == 0 then [] else [if ps[0] == target then with else ps[0]] + MapPieces(ps[1..], target, with)
  }

  lemma {:induction false} ScanSkipsPlain(u: JString, x: JString, target: JString, with: JString)
    requires |target| > 0 && target[0] == AMP && AMP !in u
    ensures StringUtils.ReplaceScan(u + x, target, with) == u + StringUtils.ReplaceScan(x, target, with)
    decreases |u|
  {
    if |u| == 0 {
      assert u + x == x;
    } else {
      assert (u + x)[0] == u[0];
      assert !StartsWith(u + x, target) by {
        if |target| <= |u + x| {
          assert (u + x)[..|target|][0] == u[0];
        }
      }
      assert (u + x)[1..] == u[1..] + x;
      ScanSkipsPlain(u[1..], x, target, with);
      assert u == [u[0]] + u[1..];
    }
  }

  /** Two different entity references differ in their second or third char. */
  lemma EntitiesDisagree(p: JString, target: JString, x: JString)
    requires IsEntity(p) && IsEntity(target) && p != target
    ensures !StartsWith(p + x, target)
  {
    assert p[1] != target[1] || p[2] != target[2];
    if |target| <= |p + x| {
      assert (p + x)[..|target|][1] == p[1];
      assert (p + x)[..|target|][2] == p[2];
    }
  }

  /** A piece that is the target itself is replaced, and the pass goes on after it. */
  lemma ScanAtTarget(target: JString, with: JString, x: JString)
    requires |target| > 0
    ensures StringUtils.ReplaceScan(target + x, target, with) == with + StringUtils.ReplaceScan(x, target, with)
  {
    assert (target + x)[..|target|] == target;
    assert (target + x)[|target|..] == x;
  }

  /** A piece that is another entity is copied, since its `&` starts no occurrence of the target. */
  lemma ScanPastEntity(p: JString, target: JString, with: JString, x: JString)
    requires IsEntity(p) && IsEntity(target) && p != target
    ensures StringUtils.ReplaceScan(p + x, target, with) == p + StringUtils.ReplaceScan(x, target, with)
  {
    EntitiesDisagree(p, target, x);
    assert (p + x)[0] == AMP;
    assert (p + x)[1..] == p[1..] + x;
    assert AMP !in p[1..];
    ScanSkipsPlain(p[1..], x, target, with);
    assert p == [AMP] + p[1..];
    StringUtils.AppendAssoc([AMP], p[1..], StringUtils.ReplaceScan(x, target, with));
  }

  /** One good piece goes through an unescaping pass on its own. */
  lemma ScanPiece(p: JString, target: JString, with: JString, x: JString)
    requires IsEntity(target) && GoodPiece(p)
    ensures StringUtils.ReplaceScan(p + x, target, with) == (if p == target then with else p) + StringUtils.ReplaceScan(x, target, with)
  {
    if p == target {
      ScanAtTarget(target, with, x);
    } else if AMP !in p {
      ScanSkipsPlain(p, x, target, with);
    } else {
      ScanPastEntity(p, target, with, x);
    }
  }

  /** An unescaping pass works piece by piece when every piece is good. */
  lemma {:induction false} ScanPieces(ps: seq<JString>, target: JString, with: JString)
    requires IsEntity(target)
    requires forall k :: 0 <= k < |ps| ==> GoodPiece(ps[k])
    ensures StringUtils.ReplaceScan(Concat(ps), target, with) == Concat(MapPieces(ps, target, with))
    decreases |ps|
  {
    if |ps| > 0 {
      var p := ps[0];
      var rest := ps[1..];
      assert ps == [p] + rest;
      ConcatCons(p, rest);
      ScanPieces(rest, target, with);
      ScanPiece(p, target, with, Concat(rest));
      var mapped := MapPieces(ps, target, with);
      assert mapped == [mapped[0]] + MapPieces(rest, target, with);
      ConcatCons(mapped[0], MapPieces(rest, target, with));
    }
  }

  lemma ContentPiecesGood(q: bool, s: JString)
    ensures forall k :: 0 <= k < |Pieces(Content(q), s)| ==> GoodPiece(Pieces(Content(q), s)[k])
    decreases |s|
  {
    if |s| > 0 {
      ContentPiecesGood(q, s[Step(Content(q), s)..]);
    }
  }

  lemma MapPiecesGood(ps: seq<JString>, target: JString, with: JString)
    requires AMP !in with
    requires forall k :: 0 <= k < |ps| ==> GoodPiece(ps[k])
    ensures forall k :: 0 <= k < |ps| ==> GoodPiece(MapPieces(ps, target, with)[k])
  {
  }

  /** The four passes of `unescapeContent` on the pieces. */
  function Unescaped(ps: seq<JString>): seq<JString> {
    MapPieces(MapPieces(MapPieces(MapPieces(ps, LT_REF, [LT]), GT_REF, [GT]), APOS_REF, [APOS]), AMP_REF, [AMP])
  }

  lemma UnescapedCons(p: JString, ps: seq<JString>)
    ensures Unescaped([p] + ps) == Unescaped([p]) + Unescaped(ps)
  {
    assert ([p] + ps)[1..] == ps;
  }

  lemma MapOne(p: JString, target: JString, with: JString)
    ensures MapPieces([p], target, with) == [if p == target then with else p]
  {
  }

  /** A piece of one or two chars is no entity and passes all four passes unchanged. */
  lemma ShortPieceUnescaped(p: JString)
    requires 1 <= |p| <= 2
    ensures Unescaped([p]) == [p]
  {
    MapOne(p, LT_REF, [LT]);
    MapOne(p, GT_REF, [GT]);
    MapOne(p, APOS_REF, [APOS]);
    MapOne(p, AMP_REF, [AMP]);
  }

  /** The entity written for `&`, `<` or `>` comes back as that char. */
  lemma EntityUnescaped(c: JChar)
    requires c == AMP || c == LT || c == GT
    ensures Unescaped([Replacement(Content(true), c)]) == [[c]]
  {
    var p := Replacement(Content(true), c);
    MapOne(p, LT_REF, [LT]);
    var p1 := if p == LT_REF then [LT] else p;
    MapOne(p1, GT_REF, [GT]);
    var p2 := if p1 == GT_REF then [GT] else p1;
    MapOne(p2, APOS_REF, [APOS]);
    var p3 := if p2 == APOS_REF then [APOS] else p2;
    MapOne(p3, AMP_REF, [AMP]);
  }

  /** The first char of `s` may start XML text: an XML char, or a high surrogate with a low one after it. */
  predicate ValidHead(s: JString)
    requires |s| > 0
  {
    var c := s[0];
    (c < MIN_HIGH_SURROGATE ==> c >= SPACE || c == TAB || c == LF || c == CR) &&
    !IsLowSurrogate(c) && c <= MAX_VALID_UTF16 &&
    (MIN_HIGH_SURROGATE <= c <= MAX_HIGH_SURROGATE ==> |s| >= 2 && IsLowSurrogate(s[1]))
  }

  lemma XmlTextHead(s: JString)
    requires IsXmlText(s) && |s| > 0
    ensures ValidHead(s)
  {
  }

  /** After one char or one surrogate pair, XML text is XML text again. */
  lemma XmlTextTail(s: JString)
    requires IsXmlText(s) && |s| > 0
    ensures MIN_HIGH_SURROGATE <= s[0] <= MAX_HIGH_SURROGATE ==> IsXmlText(s[2..])
    ensures !(MIN_HIGH_SURROGATE <= s[0] <= MAX_HIGH_SURROGATE) ==> IsXmlText(s[1..])
  {
  }

  /** After one round of any escaper the rest of XML text is XML text. */
  lemma StepKeepsXmlText(e: Escaper, s: JString)
    requires IsXmlText(s) && |s| > 0
    ensures IsXmlText(s[Step(e, s)..])
  {
    XmlTextTail(s);
    if e.CData? && StartsCDataEnd(s) {
      XmlTextTail(s[1..]);
      XmlTextTail(s[1..][1..]);
      assert s[1..][1..][1..] == s[3..];
    }
  }

  /** A round that writes its chars unchanged writes exactly the chars it consumes. */
  lemma CopiedPiece(e: Escaper, s: JString)
    requires |s| > 0 && ValidHead(s) && !(e.CData? && StartsCDataEnd(s))
    requires s[0] < MIN_HIGH_SURROGATE ==> Replacement(e, s[0]) == [s[0]]
    ensures Piece(e, s) == s[..Step(e, s)]
  {
    if MIN_HIGH_SURROGATE <= s[0] <= MAX_HIGH_SURROGATE {
      assert Piece(e, s) == [s[0], s[1]] && Step(e, s) == 2;
      TakeTwo(s, Piece(e, s));
    } else {
      assert Piece(e, s) == [s[0]] && Step(e, s) == 1;
      TakeOne(s, Piece(e, s));
    }
  }

  /** The piece written for the first chars of XML content unescapes to those chars. */
  lemma PieceUnescaped(q: bool, s: JString)
    requires |s| > 0 && ValidHead(s) && (q ==> s[0] != QUOT)
    ensures Unescaped([Piece(Content(q), s)]) == [s[..Step(Content(q), s)]]
  {
    var c := s[0];
    if c == AMP || c == LT || c == GT {
      assert Piece(Content(q), s) == Replacement(Content(true), c) && Step(Content(q), s) == 1;
      EntityUnescaped(c);
      TakeOne(s, [c]);
    } else {
      CopiedPiece(Content(q), s);
      ShortPieceUnescaped(Piece(Content(q), s));
    }
  }

  /** Each piece of escaped content unescapes to the chars it came from. */
  lemma {:induction false} UnescapedPieces(q: bool, s: JString)
    requires IsXmlText(s) && (q ==> QUOT !in s)
    ensures Concat(Unescaped(Pieces(Content(q), s))) == s
    decreases |s|
  {
    if |s| > 0 {
      var n := Step(Content(q), s);
      var p := Piece(Content(q), s);
      XmlTextHead(s);
      PieceUnescaped(q, s);
      StepKeepsXmlText(Content(q), s);
      assert q ==> QUOT !in s[n..];
      UnescapedPieces(q, s[n..]);
      UnescapedCons(p, Pieces(Content(q), s[n..]));
      ConcatCons(s[..n], Unescaped(Pieces(Content(q), s[n..])));
      SplitAt(s, n);
    }
  }

  /**
   * For XML text, `unescapeContent` undoes `escapeContent`: always when quotes are left alone, and
   * when quotes are escaped, for text without `"`.
   */
  lemma UnescapeRoundTrip(q: bool, s: JString)
    requires IsXmlText(s) && (q ==> QUOT !in s)
    ensures UnescapeContent(Some(Escaped(Content(q), s))) == Ok(s)
  {
    var ps := Pieces(Content(q), s);
    EscapedIsConcat(Content(q), s);
    ContentPiecesGood(q, s);
    var m1 := MapPieces(ps, LT_REF, [LT]);
    var m2 := MapPieces(m1, GT_REF, [GT]);
    var m3 := MapPieces(m2, APOS_REF, [APOS]);
    var t0 := Concat(ps);
    StringUtils.ReplaceAllIsScan(t0, LT_REF, [LT]);
    ScanPieces(ps, LT_REF, [LT]);
    MapPiecesGood(ps, LT_REF, [LT]);
    StringUtils.ReplaceAllIsScan(Concat(m1), GT_REF, [GT]);
    ScanPieces(m1, GT_REF, [GT]);
    MapPiecesGood(m1, GT_REF, [GT]);
    StringUtils.ReplaceAllIsScan(Concat(m2), APOS_REF, [APOS]);
    ScanPieces(m2, APOS_REF, [APOS]);
    MapPiecesGood(m2, APOS_REF, [APOS]);
    StringUtils.ReplaceAllIsScan(Concat(m3), AMP_REF, [AMP]);
    ScanPieces(m3, AMP_REF, [AMP]);
    UnescapedPieces(q, s);
  }

  /** `unescapeContent` of text whose four passes are known. */
  lemma UnescapePasses(t: JString, t1: JString, t2: JString, t3: JString, t4: JString)
    requires t1 == StringUtils.ReplaceAll(t, LT_REF, [LT])
    requires t2 == StringUtils.ReplaceAll(t1, GT_REF, [GT])
    requires t3 == StringUtils.ReplaceAll(t2, APOS_REF, [APOS])
    requires t4 == StringUtils.ReplaceAll(t3, AMP_REF, [AMP])
    ensures UnescapeContent(Some(t)) == Ok(t4)
  {
  }

  /** A pass leaves text alone that lacks a char of the target. */
  lemma PassAbsent(t: JString, target: JString, with: JString, c: JChar)
    requires c !in t && c in target
    ensures StringUtils.ReplaceAll(t, target, with) == t
  {
    StringUtils.NoCharNoOccurrence(t, target, c);
    StringUtils.ReplaceAllAbsent(t, target, with);
  }

  /** `escapeContent` writes `"` as `&quot;`. */
  lemma QuoteEscaped()
    ensures Escaped(Content(true), [QUOT]) == QUOT_REF
  {
    assert [QUOT][1..] == [];
    assert EscapedRound(Content(true), [QUOT]) == QUOT_REF + Escaped(Content(true), []);
  }

  /** `"` does not survive the round trip: `unescapeContent` keeps the `&quot;` that `escapeContent` writes. */
  lemma QuoteNotUnescaped()
    ensures UnescapeContent(Some(QUOT_REF)) == Ok(QUOT_REF)
  {
    var t := QUOT_REF;
    PassAbsent(t, LT_REF, [LT], 108);
    PassAbsent(t, GT_REF, [GT], 103);
    PassAbsent(t, APOS_REF, [APOS], 112);
    PassAbsent(t, AMP_REF, [AMP], 109);
    UnescapePasses(t, t, t, t, t);
  }

  /** `&apos;` is decoded, although no escaper writes it. */
  lemma AposUnescaped()
    ensures UnescapeContent(Some(APOS_REF)) == Ok([APOS])
  {
    var a := APOS_REF;
    PassAbsent(a, LT_REF, [LT], 108);
    PassAbsent(a, GT_REF, [GT], 103);
    StringUtils.ReplaceAllIsScan(a, APOS_REF, [APOS]);
    ScanAtTarget(APOS_REF, [APOS], []);
    assert APOS_REF + [] == a;
    PassAbsent([APOS], AMP_REF, [AMP], AMP);
    UnescapePasses(a, a, a, [APOS], [APOS]);
  }

  // ---------------------------------------------------------------- CDATA sections

  /** Each `]]>` is replaced by `]]>]]<![CDATA[>`. */
  lemma CDataEndReplaced(t: JString)
    ensures Escaped(CData, CDATA_END + t) == CDATA_END_ESCAPE + Escaped(CData, t)
  {
    assert (CDATA_END + t)[3..] == t;
  }

  /** Without `]` in the text, `escapeCDATA` only filters. */
  lemma {:induction false} CDataOnlyFilters(s: JString)
    requires RBRACKET !in s
    ensures Escaped(CData, s) == Filtered(s)
    decreases |s|
  {
    if |s| > 0 {
      if MIN_HIGH_SURROGATE <= s[0] <= MAX_HIGH_SURROGATE && |s| >= 2 && IsLowSurrogate(s[1]) {
        CDataOnlyFilters(s[2..]);
      } else {
        CDataOnlyFilters(s[1..]);
      }
    }
  }

  /**
   * As written, the `]]>` test looks at the raw chars before the filter drops any: `]]`, a control
   * char such as U+0001, then `>` passes the test, the control char is dropped, and a raw `]]>` is
   * written, which ends the CDATA section early.
   */
  lemma CDataEndSurvivesFilter(c: JChar, t: JString)
    requires c < SPACE && c != TAB && c != CR && c != LF
    ensures Escaped(CData, [RBRACKET, RBRACKET, c, GT] + t) == CDATA_END + Escaped(CData, t)
    ensures !EndsOnlyEscaped(Escaped(CData, [RBRACKET, RBRACKET, c, GT]))
  {
    RawEndAfterDrop(c, t);
    RawEndAfterDrop(c, []);
    assert [RBRACKET, RBRACKET, c, GT] + [] == [RBRACKET, RBRACKET, c, GT];
    assert CDATA_END + [] == CDATA_END;
    assert OccursAt(CDATA_END, CDATA_END, 0) by {
      assert CDATA_END[0..3] == CDATA_END;
    }
  }

  lemma RawEndAfterDrop(c: JChar, t: JString)
    requires c < SPACE && c != TAB && c != CR && c != LF
    ensures Escaped(CData, [RBRACKET, RBRACKET, c, GT] + t) == CDATA_END + Escaped(CData, t)
  {
    ConsFour(RBRACKET, RBRACKET, c, GT, t);
    CDataBracket([RBRACKET] + ([c] + ([GT] + t)));
    CDataBracket([c] + ([GT] + t));
    DropRules(CData, c, [GT] + t);
    EscapedCons(CData, GT, t);
    ConsThree(RBRACKET, RBRACKET, GT, Escaped(CData, t));
  }

  /** A `]` that does not start `]]>` is copied. */
  lemma CDataBracket(t: JString)
    requires !StartsCDataEnd([RBRACKET] + t)
    ensures Escaped(CData, [RBRACKET] + t) == [RBRACKET] + Escaped(CData, t)
  {
    assert ([RBRACKET] + t)[1..] == t;
  }

  /** `escapeCDATA` with the evident intent: the chars are filtered first, and `]]>` is looked for in what remains. */
  function EscapeCDATAFixed(s: JString): JString {
    Escaped(CData, Filtered(s))
  }

  /** Outside a `]]>`, one round of CDATA escaping of XML text copies the chars it consumes. */
  lemma CDataPieceShape(t: JString)
    requires |t| > 0 && ValidHead(t)
    ensures Piece(CData, t) == if StartsCDataEnd(t) then CDATA_END_ESCAPE else t[..Step(CData, t)]
  {
    if !StartsCDataEnd(t) {
      CopiedPiece(CData, t);
    }
  }

  /** On XML text the escaped CDATA starts with the same two chars as the text, and one char gives one char. */
  lemma {:induction false} CDataPrefix(t: JString)
    requires IsXmlText(t) && |t| > 0
    ensures var r := Escaped(CData, t);
      |r| >= 1 && r[0] == t[0] &&
      (|t| >= 2 ==> |r| >= 2 && r[1] == t[1]) &&
      (|t| == 1 ==> |r| == 1)
    decreases |t|
  {
    XmlTextHead(t);
    XmlTextTail(t);
    CDataPieceShape(t);
    if |t| == 1 {
      assert Step(CData, t) == 1 && Piece(CData, t) == t[..1];
      assert Escaped(CData, t) == Piece(CData, t) + Escaped(CData, t[1..]);
      assert Escaped(CData, t[1..]) == [];
    } else if Step(CData, t) == 1 {
      CDataPrefix(t[1..]);
    }
  }

  /** An occurrence in `p + rest` past `p` is one in `rest`. */
  lemma OccursShift(p: JString, rest: JString, w: JString, j: nat)
    ensures OccursAt(p + rest, w, |p| + j) <==> OccursAt(rest, w, j)
  {
    if j + |w| <= |rest| {
      assert (p + rest)[|p| + j..|p| + j + |w|] == rest[j..j + |w|];
    }
  }

  /** Inside a piece that copies chars, escaped XML text has no `]]>`: the text had none there. */
  lemma NoEndInPiece(t: JString, i: nat)
    requires IsXmlText(t) && |t| > 0 && !StartsCDataEnd(t)
    requires i < |Piece(CData, t)|
    ensures !OccursAt(Escaped(CData, t), CDATA_END, i)
  {
    XmlTextHead(t);
    XmlTextTail(t);
    CDataPieceShape(t);
    var r := Escaped(CData, t);
    var p := Piece(CData, t);
    var rest := Escaped(CData, t[Step(CData, t)..]);
    assert r == EscapedRound(CData, t) == p + rest;
    if i + 3 <= |r| {
      var w := r[i..i + 3];
      if p[i] != RBRACKET {
        assert w[0] == p[i];
      } else {
        assert i == 0 && t[0] == RBRACKET && p == [RBRACKET];
        CDataPrefix(t[1..]);
        if t[1] != RBRACKET {
          assert w[1] == rest[0] == t[1];
        } else {
          assert |t| != 2;
          assert t[2] != GT;
          assert w[2] == rest[1] == t[2];
        }
      }
    }
  }

  lemma EscapeHasNoInnerEnd(x: JString, i: int)
    requires 1 <= i < 15
    ensures !OccursAt(CDATA_END_ESCAPE + x, CDATA_END, i)
  {
    var y := CDATA_END_ESCAPE + x;
    if i + 3 <= |y| {
      var w := y[i..i + 3];
      assert CDATA_END_ESCAPE[5..] == [60, 33, 91, 67, 68, 65, 84, 65, 91, 62];
      if i == 1 || i == 4 {
        assert w[1] == CDATA_END_ESCAPE[i + 1];
      } else if i == 3 {
        assert w[2] == CDATA_END_ESCAPE[5];
      } else if i == 2 {
        assert w[0] == CDATA_END_ESCAPE[2];
      } else {
        assert w[0] == CDATA_END_ESCAPE[5..][i - 5];
      }
    }
  }

  /** Every `]]>` in `r` starts a `]]>]]<![CDATA[>` escape. */
  ghost predicate EndsOnlyEscaped(r: JString) {
    forall i :: OccursAt(r, CDATA_END, i) ==> OccursAt(r, CDATA_END_ESCAPE, i)
  }

  /** An `]]>` that starts inside the first piece is an escape. */
  lemma OnePieceEnd(t: JString, i: nat)
    requires IsXmlText(t) && |t| > 0
    requires i < |Piece(CData, t)|
    ensures OccursAt(Escaped(CData, t), CDATA_END, i) ==> OccursAt(Escaped(CData, t), CDATA_END_ESCAPE, i)
  {
    if StartsCDataEnd(t) {
      var rest := Escaped(CData, t[3..]);
      assert Escaped(CData, t) == CDATA_END_ESCAPE + rest;
      if i == 0 {
        assert (CDATA_END_ESCAPE + rest)[0..15] == CDATA_END_ESCAPE;
      } else {
        EscapeHasNoInnerEnd(rest, i);
      }
    } else {
      NoEndInPiece(t, i);
    }
  }

  /** In the escaped CDATA of XML text, every `]]>` is the start of a `]]>]]<![CDATA[>` escape. */
  lemma {:induction false} CDataEndsOnlyEscaped(t: JString)
    requires IsXmlText(t)
    ensures EndsOnlyEscaped(Escaped(CData, t))
    decreases |t|
  {
    if |t| > 0 {
      var n := Step(CData, t);
      var p := Piece(CData, t);
      var rest := Escaped(CData, t[n..]);
      StepKeepsXmlText(CData, t);
      CDataEndsOnlyEscaped(t[n..]);
      assert Escaped(CData, t) == p + rest;
      forall i | OccursAt(p + rest, CDATA_END, i) ensures OccursAt(p + rest, CDATA_END_ESCAPE, i) {
        if i >= |p| {
          OccursShift(p, rest, CDATA_END, i - |p|);
          OccursShift(p, rest, CDATA_END_ESCAPE, i - |p|);
        } else {
          OnePieceEnd(t, i);
        }
      }
    }
  }

  /** With the filter first, a CDATA section built from any text is never closed early. */
  lemma CDataFixedEndsOnlyEscaped(s: JString)
    ensures IsXmlText(EscapeCDATAFixed(s)) && EndsOnlyEscaped(EscapeCDATAFixed(s))
  {
    FilteredIsXmlText(s);
    CDataEndsOnlyEscaped(Filtered(s));
    EscapedIsXmlText(CData, Filtered(s));
  }

  /** The fix changes nothing on XML text. */
  lemma CDataFixedAgrees(s: JString)
    requires IsXmlText(s)
    ensures EscapeCDATAFixed(s) == Escaped(CData, s)
  {
    FilteredKeepsXmlText(s);
  }

  // ---------------------------------------------------------------- simple elements

  /** `n` spaces. */
  function Blanks(n: nat): (r: JString)
    ensures |r| == n && forall i :: 0 <= i < n ==> r[i] == SPACE
  {
    seq(n, i => SPACE)
  }

  /** `indent(buf, indentLevel)`: `indentLevel` spaces, none for a level below 1. */
  method Indent(buf: StringBuffer, indentLevel: int)
    modifies buf
    ensures buf.text == old(buf.text) + (if indentLevel > 0 then Blanks(indentLevel) else [])
  {
    if indentLevel > 0 {
      buf.Append(Blanks(indentLevel));
    } else {
      assert buf.text + [] == buf.text;
    }
  }

  /** How `StringBuffer.append` writes a possibly null string. */
  function Shown(s: Option<JString>): JString {
    if s.None? then Lit("null") else s.value
  }

  /** What `appendSimpleElement` writes for a non-null value. */
  function SimpleElement(indentLevel: int, name: Option<JString>, value: JString): JString {
    (if indentLevel > 0 then Blanks(indentLevel) else []) + [LT] + Shown(name) +
    (if |value| == 0 then [47] else [GT] + Escaped(Content(true), value) + [LT, 47] + Shown(name)) + [GT]
  }

  /**
   * `appendSimpleElement(out, indentLevel, name, value)`: nothing for a null value, else the indent,
   * then `<name/>` for an empty value and `<name>` escaped value `</name>` for any other.
   */
  method AppendSimpleElement(out: StringBuffer, indentLevel: int, name: Option<JString>, value: Option<JString>)
    modifies out
    ensures out.text == old(out.text) + (if value.None? then [] else SimpleElement(indentLevel, name, value.value))
  {
    if value.None? {
      assert out.text + [] == out.text;
      return;
    }
    var v := value.value;
    ghost var start := out.text;
    if indentLevel > 0 {
      Indent(out, indentLevel);
    }
    ghost var head := if indentLevel > 0 then Blanks(indentLevel) else [];
    assert out.text == start + head;
    out.Append([LT]);
    out.Append(Shown(name));
    StringUtils.AppendAssoc(start, head, [LT]);
    StringUtils.AppendAssoc(start, head + [LT], Shown(name));
    ghost var open := head + [LT] + Shown(name);
    assert out.text == start + open;
    ghost var body: JString;
    if |v| == 0 {
      out.Append([47]);
      body := [47];
    } else {
      out.Append([GT]);
      EscapeContent(out, value, true);
      out.Append([LT]);
      out.Append([47]);
      out.Append(Shown(name));
      body := [GT] + Escaped(Content(true), v) + [LT, 47] + Shown(name);
      BodyAppends(start + open, Escaped(Content(true), v), Shown(name));
    }
    assert out.text == start + open + body;
    out.Append([GT]);
    StringUtils.AppendAssoc(start, open, body);
    StringUtils.AppendAssoc(start, open + body, [GT]);
  }

  lemma BodyAppends(a: JString, e: JString, n: JString)
    ensures a + [GT] + e + [LT] + [47] + n == a + ([GT] + e + [LT, 47] + n)
  {
    assert [LT] + [47] == [LT, 47];
  }

  lemma ElementParts(h: JString, n: JString, b: JString)
    ensures h + [LT] + n + ([GT] + b + [LT, 47] + n) + [GT] == (h + [LT] + n + [GT]) + b + ([LT, 47] + n + [GT])
  {
  }

  lemma MiddleSlice(x: JString, b: JString, y: JString)
    ensures (x + b + y)[|x|..|x| + |b|] == b
  {
  }

  /**
   * The text between the start and end tags of a simple element unescapes to the value, for XML text
   * without `"` (`escapeContent` writes `&quot;`, which `unescapeContent` keeps).
   */
  lemma SimpleElementRoundTrip(indentLevel: int, name: Option<JString>, v: JString)
    requires |v| > 0 && IsXmlText(v) && QUOT !in v
    ensures var r := SimpleElement(indentLevel, name, v);
      var k := (if indentLevel > 0 then indentLevel else 0) + |Shown(name)| + 2;
      var end := |r| - |Shown(name)| - 3;
      0 < k <= end < |r| && r[k - 1] == GT && r[|r| - 1] == GT &&
      UnescapeContent(Some(r[k..end])) == Ok(v)
  {
    var h: JString := if indentLevel > 0 then Blanks(indentLevel) else [];
    var n := Shown(name);
    var b := Escaped(Content(true), v);
    var x := h + [LT] + n + [GT];
    var y := [LT, 47] + n + [GT];
    var r := SimpleElement(indentLevel, name, v);
    assert r == x + b + y by {
      ElementParts(h, n, b);
    }
    assert |h| == if indentLevel > 0 then indentLevel else 0;
    assert |x| == |h| + |n| + 2 && |y| == |n| + 3;
    assert r[|x| - 1] == x[|x| - 1] == GT;
    assert r[|r| - 1] == y[|y| - 1] == GT;
    MiddleSlice(x, b, y);
    assert r[|x|..|x| + |b|] == b;
    UnescapeRoundTrip(true, v);
  }

  /** Between the tags of a simple element there is no `<` and no `>`, so the escaped value cannot end the element. */
  lemma ElementBodyHasNoMarkup(value: JString)
    ensures LT !in Escaped(Content(true), value) && GT !in Escaped(Content(true), value)
    ensures QUOT !in Escaped(Content(true), value) && IsXmlText(Escaped(Content(true), value))
  {
    EscapedHasNoMarkup(Content(true), value);
    EscapedIsXmlText(Content(true), value);
  }
}
