/**
 * What one call of `HtmlParser.next()` does, as functions of the input text and of the parser's
 * fields.  The class in module `HtmlParser` (html_parser.dfy) is proved to step exactly as `Step`
 * says; the properties of the tokenizer are lemmas about `Step` in module `HtmlSteps`
 * (html_steps.dfy).
 *
 * Positions are indices into the input `d` (`_data[0.._limit)`); `d[i]` is a UTF-16 unit.
 */
module HtmlScan {
  import opened Wrappers
  import opened JStrings
  import opened HtmlTables

  /** The values `next()` returns: `TEXT`, `START_TAG`, `END_TAG`, `COMMENT`, `EOF`, `DOCTYPE`. */
  datatype Kind = Text | StartTag | EndTag | Comment | Eof | Doctype

  /** `_state`: `STATE_NORMAL`, `STATE_OPENCLOSE` (after `<name/>`) or `STATE_POPPING`. */
  datatype Mode = Normal | OpenClose | Popping

  /** One parsed attribute; a name without `=` has a null value. */
  datatype Attribute = Attribute(name: JString, value: Option<JString>)

  /**
   * The fields of the parser other than the input: `_offset`, `_state`, `_popIndex`,
   * `_elementStack`, `_text`, `_tagName` and the first `_attrCount` attribute names and values.
   */
  datatype Parser = Parser(offset: nat, mode: Mode, popIndex: int, stack: seq<JString>,
                           text: JString, tagName: JString, attrs: seq<Attribute>)

  /** What a call returns and the fields after it. */
  datatype Emit = Emit(kind: Kind, after: Parser)

  /** Text produced by a scan and the position after it. */
  datatype Piece = Piece(text: JString, next: nat)

  /**
   * What holds between calls: the offset is in the input; while popping, the pop index is an
   * entry of the stack; after `<name/>`, the name is on top of the stack.
   */
  predicate Valid(d: JString, p: Parser) {
    p.offset <= |d| &&
    (p.mode.Popping? ==> 0 <= p.popIndex < |p.stack|) &&
    (p.mode.OpenClose? ==> |p.stack| > 0 && p.stack[|p.stack| - 1] == p.tagName)
  }

  /** The fields set by the constructor (`_text` and `_tagName`, null there, are empty here). */
  function Initial(): (p: Parser)
    ensures forall d :: Valid(d, p)
  {
    Parser(0, Normal, -1, [], [], [], [])
  }

  // ---------------------------------------------------------------- runs of chars

  /** `skipSpaces`: the first position at or after `i` that is not a blank. */
  function SkipSpaces(d: JString, i: nat): (j: nat)
    requires i <= |d|
    ensures i <= j <= |d| && (j < |d| ==> !IsSpace(d[j]))
    ensures forall k :: i <= k < j ==> IsSpace(d[k])
    decreases |d| - i
  {
    if i < |d| && IsSpace(d[i]) then SkipSpaces(d, i + 1) else i
  }

  /** The end of a run of name chars (letters, digits, `:`, `-`) starting at `i`. */
  function NameEnd(d: JString, i: nat): (j: nat)
    requires i <= |d|
    ensures i <= j <= |d| && (j < |d| ==> !IsNamePart(d[j]))
    ensures forall k :: i <= k < j ==> IsNamePart(d[k])
    decreases |d| - i
  {
    if i < |d| && IsNamePart(d[i]) then NameEnd(d, i + 1) else i
  }

  // ---------------------------------------------------------------- entity references

  /**
   * The hexadecimal loop of `parseAmp`: `&#x` starts at `start`, `k` is the next char to read and
   * `value` the number read so far.  The `(char)` cast keeps the low 16 bits.
   */
  function HexRef(d: JString, start: nat, k: nat, value: nat): (r: Piece)
    requires start + 3 <= k <= |d|
    ensures k <= r.next <= |d|
    decreases |d| - k
  {
    if k == |d| then Piece(d[start..], |d|)
    else if d[k] == ';' as JChar then
      if k == start + 3 then Piece(d[start..k], k + 1)
      else Piece([(value % 0x1_0000) as JChar], k + 1)
    else if IsHexDigit(d[k]) then HexRef(d, start, k + 1, value * 16 + HexValue(d[k]))
    else Piece(d[start..k], k)
  }

  /** The decimal loop of `parseAmp`: `&#` and a digit start at `start`. */
  function DecRef(d: JString, start: nat, k: nat, value: nat): (r: Piece)
    requires start + 3 <= k <= |d|
    ensures k <= r.next <= |d|
    decreases |d| - k
  {
    if k == |d| then Piece(d[start..], |d|)
    else if d[k] == ';' as JChar then Piece([(value % 0x1_0000) as JChar], k + 1)
    else if IsAsciiDigit(d[k]) then DecRef(d, start, k + 1, value * 10 + (d[k] as int - '0' as int))
    else Piece(d[start..k], k)
  }

  /** The named loop of `parseAmp`: `&` and a letter start at `start`. */
  function NamedRef(d: JString, start: nat, k: nat): (r: Piece)
    requires start + 2 <= k <= |d|
    ensures k <= r.next <= |d|
    decreases |d| - k
  {
    if k == |d| then Piece(d[start..], |d|)
    else if d[k] == ';' as JChar then
      match DecodeNamedEntity(d[start + 1..k])
      case None => Piece(d[start..k], k + 1)
      case Some(c) => Piece([c], k + 1)
    else if IsAlphaNumeric(d[k]) then NamedRef(d, start, k + 1)
    else Piece(d[start..k], k)
  }

  /** `parseAmp` at the `&` at `i`: the text it appends and the position after what it consumed. */
  function AmpAt(d: JString, i: nat): (r: Piece)
    requires i < |d| && d[i] == '&' as JChar
    ensures i < r.next <= |d|
  {
    if i + 1 == |d| then Piece(Lit("&"), |d|)
    else if d[i + 1] == '#' as JChar then
      if i + 2 == |d| then Piece(d[i..i + 2], |d|)
      else if d[i + 2] == 'x' as JChar || d[i + 2] == 'X' as JChar then HexRef(d, i, i + 3, 0)
      else if IsAsciiDigit(d[i + 2]) then DecRef(d, i, i + 3, d[i + 2] as int - '0' as int)
      else Piece([], i + 2)
    else if IsAlpha(d[i + 1]) then NamedRef(d, i, i + 2)
    else Piece(Lit("&"), i + 1)
  }

  /** `parseText` from `i`: the text up to the next `<` or the end, entities replaced. */
  function TextRun(d: JString, i: nat): (r: Piece)
    requires i <= |d|
    ensures i <= r.next <= |d| && (r.next < |d| ==> d[r.next] == '<' as JChar)
    decreases |d| - i
  {
    if i == |d| || d[i] == '<' as JChar then Piece([], i)
    else if d[i] == '&' as JChar then
      var a := AmpAt(d, i);
      var t := TextRun(d, a.next);
      Piece(a.text + t.text, t.next)
    else
      var t := TextRun(d, i + 1);
      Piece([d[i]] + t.text, t.next)
  }

  /**
   * One round of the text loop at `i`: the text it appends (`piece`, up to `next`), then the run
   * after it, make the run from `i`.
   */
  lemma TextRunStep(d: JString, i: nat, piece: JString, next: nat, t: JString, goal: JString)
    requires i < |d| && d[i] != '<' as JChar
    requires if d[i] == '&' as JChar then Piece(piece, next) == AmpAt(d, i) else piece == [d[i]] && next == i + 1
    requires t + TextRun(d, i).text == goal
    ensures i < next <= |d| && TextRun(d, next).next == TextRun(d, i).next
    ensures (t + piece) + TextRun(d, next).text == goal
  {
    assert TextRun(d, i).text == piece + TextRun(d, next).text;
    assert (t + piece) + TextRun(d, next).text == t + (piece + TextRun(d, next).text);
  }

  // ---------------------------------------------------------------- comments and declarations

  /**
   * The loop of `parseComment` after `<!--`: `start` is the `<` and `k` the last char looked at.
   * It looks for `--` and then needs `>`.
   */
  function CommentBody(d: JString, p: Parser, start: nat, k: nat): (r: Emit)
    requires start < k < |d|
    ensures r.after == p.(offset := r.after.offset, text := r.after.text)
    ensures k < r.after.offset <= |d| && (r.kind.Comment? || r.kind.Text?)
    decreases |d| - k
  {
    if k + 1 == |d| then Emit(Text, p.(offset := |d|, text := d[start..]))
    else if d[k + 1] != '-' as JChar then CommentBody(d, p, start, k + 1)
    else if k + 2 == |d| then Emit(Text, p.(offset := |d|, text := d[start..]))
    else if d[k + 2] != '-' as JChar then CommentBody(d, p, start, k + 2)
    else if k + 3 == |d| then Emit(Text, p.(offset := |d|, text := d[start..]))
    else if d[k + 3] == '>' as JChar then Emit(Comment, p.(offset := k + 4, text := d[start..k + 4]))
    else
      var t := TextRun(d, k + 3);
      Emit(Text, p.(offset := t.next, text := d[start..k + 3] + t.text))
  }

  /** `parseComment` at the `!` at `i` (after a `<`): a comment, a `DOCTYPE`, or text. */
  function CommentStep(d: JString, p: Parser, i: nat): (r: Emit)
    requires 0 < i < |d|
    ensures r.after == p.(offset := r.after.offset, text := r.after.text, tagName := r.after.tagName)
    ensures i < r.after.offset <= |d| && (r.kind.Comment? || r.kind.Text? || r.kind.Doctype?)
  {
    if i + 1 == |d| then Emit(Text, p.(offset := |d|, text := Lit("<!")))
    else if d[i + 1] == 'D' as JChar || d[i + 1] == 'd' as JChar then
      var t := TextRun(d, i + 1);
      Emit(Doctype, p.(offset := t.next, tagName := Lit("!DOCTYPE"), text := Lit("<!") + t.text))
    else if d[i + 1] != '-' as JChar then
      var t := TextRun(d, i + 1);
      Emit(Text, p.(offset := t.next, text := Lit("<!") + t.text))
    else if i + 2 == |d| || d[i + 2] != '-' as JChar then
      var t := TextRun(d, i + 2);
      Emit(Text, p.(offset := t.next, text := Lit("<!-") + t.text))
    else CommentBody(d, p, i - 1, i + 2)
  }

  /** `stripProcessingInstruction`: from `k`, the position after the next `>`, or the end. */
  function InstructionEnd(d: JString, k: nat): (j: nat)
    requires k <= |d|
    ensures k <= j <= |d|
    decreases |d| - k
  {
    if k == |d| then |d|
    else if d[k] == '>' as JChar then k + 1
    else InstructionEnd(d, k + 1)
  }

  // ---------------------------------------------------------------- attributes

  /** The quoted branch of `parseAttrValue`: `k` is the next char, `q` the quote, `acc` the value so far. */
  function QuotedValue(d: JString, k: nat, q: JChar, acc: JString): (r: Piece)
    requires k <= |d|
    ensures k <= r.next <= |d|
    decreases |d| - k
  {
    if k == |d| then Piece(acc, k)
    else if d[k] == q then Piece(acc, k + 1)
    else if d[k] == '&' as JChar then
      var a := AmpAt(d, k);
      QuotedValue(d, a.next, q, acc + a.text)
    else if k + 1 == |d| then Piece([], |d|)
    else QuotedValue(d, k + 1, q, acc + [d[k]])
  }

  /**
   * The unquoted branch of `parseAttrValue` as written: after an entity reference the loop reads
   * `_data[_offset]` without a bound check, which fails when the reference ends the input.
   */
  function UnquotedValueAsWritten(d: JString, k: nat, acc: JString): (r: Result<Piece, Exception>)
    requires k < |d|
    ensures r.Ok? ==> k <= r.value.next <= |d|
    decreases |d| - k
  {
    if IsSpace(d[k]) || d[k] == '>' as JChar then Ok(Piece(acc, k))
    else if d[k] == '&' as JChar then
      var a := AmpAt(d, k);
      if a.next == |d| then Err(IndexOutOfBoundsException)
      else UnquotedValueAsWritten(d, a.next, acc + a.text)
    else if k + 1 == |d| then Ok(Piece([], |d|))
    else UnquotedValueAsWritten(d, k + 1, acc + [d[k]])
  }

  /**
   * The unquoted branch of `parseAttrValue`, corrected: an entity reference that ends the input
   * ends the value the way a plain char at the end does (the value is empty).
   */
  function UnquotedValue(d: JString, k: nat, acc: JString): (r: Piece)
    requires k < |d|
    ensures k <= r.next <= |d|
    decreases |d| - k
  {
    if IsSpace(d[k]) || d[k] == '>' as JChar then Piece(acc, k)
    else if d[k] == '&' as JChar then
      var a := AmpAt(d, k);
      if a.next == |d| then Piece([], |d|)
      else UnquotedValue(d, a.next, acc + a.text)
    else if k + 1 == |d| then Piece([], |d|)
    else UnquotedValue(d, k + 1, acc + [d[k]])
  }

  /** `parseAttrValue` at `k` (after `=` and blanks). */
  function AttrValueAt(d: JString, k: nat): (r: Piece)
    requires k <= |d|
    ensures k <= r.next <= |d|
  {
    if k == |d| then Piece([], k)
    else if d[k] == '\'' as JChar || d[k] == '"' as JChar then
      if k + 1 == |d| then Piece([], |d|) else QuotedValue(d, k + 1, d[k], [])
    else UnquotedValue(d, k, [])
  }

  /** One attribute, the position after it and the blanks that follow, and whether there were blanks. */
  datatype AttrRead = AttrRead(attr: Attribute, next: nat, spaced: bool)

  /**
   * One round of the attribute loop of `parseStartTag`, at a letter at `k`: the name
   * (`parseAttrName`), then, after blanks, optionally `=`, blanks and a value, then blanks.
   */
  function AttrAt(d: JString, k: nat): (r: AttrRead)
    requires k < |d| && IsAlpha(d[k])
    ensures k < r.next <= |d|
  {
    var e := NameEnd(d, k + 1);
    var s := SkipSpaces(d, e);
    if s < |d| && d[s] == '=' as JChar then
      var v := AttrValueAt(d, SkipSpaces(d, s + 1));
      var t := SkipSpaces(d, v.next);
      AttrRead(Attribute(d[k..e], Some(v.text)), t, t > v.next)
    else AttrRead(Attribute(d[k..e], None), s, s > e)
  }

  /** An attribute `name = value`: the name up to `e`, the `=` at `s`, the value from `v0`, blanks up to `t`. */
  lemma AttrAtValue(d: JString, k: nat, e: nat, s: nat, v0: nat, v: Piece, t: nat)
    requires k < |d| && IsAlpha(d[k]) && e == NameEnd(d, k + 1) && s == SkipSpaces(d, e)
    requires s < |d| && d[s] == '=' as JChar && v0 == SkipSpaces(d, s + 1)
    requires v == AttrValueAt(d, v0) && t == SkipSpaces(d, v.next)
    ensures AttrAt(d, k) == AttrRead(Attribute(d[k..e], Some(v.text)), t, t > v.next)
  {
  }

  /** An attribute without a value: the name up to `e`, then blanks up to `s`, and no `=`. */
  lemma AttrAtBare(d: JString, k: nat, e: nat, s: nat)
    requires k < |d| && IsAlpha(d[k]) && e == NameEnd(d, k + 1) && s == SkipSpaces(d, e)
    requires !(s < |d| && d[s] == '=' as JChar)
    ensures AttrAt(d, k) == AttrRead(Attribute(d[k..e], None), s, s > e)
  {
  }

  /** The attributes read by a start tag, and where reading stopped. */
  datatype AttrScan = AttrScan(attrs: seq<Attribute>, next: nat)

  /** The attribute loop of `parseStartTag`, at `k` after blanks: it goes on while blanks follow an attribute. */
  function AttrsFrom(d: JString, k: nat, attrs: seq<Attribute>): (r: AttrScan)
    requires k <= |d|
    ensures k <= r.next <= |d|
    decreases |d| - k
  {
    if k == |d| || !IsAlpha(d[k]) then AttrScan(attrs, k)
    else
      var a := AttrAt(d, k);
      if a.spaced then AttrsFrom(d, a.next, attrs + [a.attr]) else AttrScan(attrs + [a.attr], a.next)
  }

  // ---------------------------------------------------------------- start and end tags

  /**
   * The end of `parseStartTag`, at `k` after the name and attributes of the tag whose letter is at
   * `i`; `p` holds that name and those attributes.  `>` pushes the tag (`startTag`), whether or not
   * its end tag is required; `/>` pushes it too and enters the open-close mode; anything else is
   * text that begins with the chars consumed.
   */
  function TagClose(d: JString, p: Parser, i: nat, k: nat): (r: Emit)
    requires 0 < i < k <= |d|
    ensures k <= r.after.offset <= |d|
    ensures r.after == p.(offset := r.after.offset, mode := r.after.mode, stack := r.after.stack, text := r.after.text)
    ensures r.kind.StartTag? || r.kind.Text?
    ensures r.kind.StartTag? ==> r.after.stack == p.stack + [p.tagName]
    ensures r.after.mode == p.mode || (r.kind.StartTag? && r.after.mode.OpenClose?)
    ensures r.kind.Text? ==> r.after.stack == p.stack && r.after.mode == p.mode
  {
    if k == |d| then Emit(Text, p.(offset := |d|, text := d[i - 1..]))
    else if d[k] == '>' as JChar then Emit(StartTag, p.(offset := k + 1, stack := p.stack + [p.tagName]))
    else if d[k] == '/' as JChar then
      if k + 1 == |d| then Emit(Text, p.(offset := |d|, text := d[i - 1..]))
      else if d[k + 1] == '>' as JChar then
        Emit(StartTag, p.(offset := k + 2, mode := OpenClose, stack := p.stack + [p.tagName]))
      else
        var t := TextRun(d, k + 1);
        Emit(Text, p.(offset := t.next, text := d[i - 1..k + 1] + t.text))
    else
      var t := TextRun(d, k);
      Emit(Text, p.(offset := t.next, text := d[i - 1..k] + t.text))
  }

  /**
   * `parseStartTag` with the letter after `<` at `i`: the name, then, after blanks, the attributes;
   * a tag cut off by the end of input is text.
   */
  function StartTagStep(d: JString, p: Parser, i: nat): (r: Emit)
    requires 0 < i < |d|
    ensures i < r.after.offset <= |d|
    ensures r.after == p.(offset := r.after.offset, mode := r.after.mode, stack := r.after.stack,
                          text := r.after.text, tagName := r.after.tagName, attrs := r.after.attrs)
    ensures r.kind.StartTag? || r.kind.Text?
    ensures r.kind.StartTag? ==> r.after.stack == p.stack + [r.after.tagName]
    ensures r.after.mode == p.mode || (r.kind.StartTag? && r.after.mode.OpenClose?)
    ensures r.kind.Text? ==> r.after.stack == p.stack && r.after.mode == p.mode
  {
    var e := NameEnd(d, i + 1);
    if e == |d| then Emit(Text, p.(offset := |d|, attrs := [], text := d[i - 1..]))
    else
      var s := SkipSpaces(d, e);
      var a := if s > e then AttrsFrom(d, s, []) else AttrScan([], e);
      TagClose(d, p.(tagName := d[i..e], attrs := a.attrs), i, a.next)
  }

  /** `lastIndexOfIgnoreCase`: the last entry equal to `name` ignoring case, or -1. */
  function LastIndexIgnoreCase(s: seq<JString>, name: JString): (r: int)
    ensures -1 <= r < |s|
    ensures r >= 0 ==> EqualsIgnoreCase(name, s[r])
    ensures forall j :: r < j < |s| ==> !EqualsIgnoreCase(name, s[j])
    decreases |s|
  {
    if |s| == 0 then -1
    else if EqualsIgnoreCase(name, s[|s| - 1]) then |s| - 1
    else LastIndexIgnoreCase(s[..|s| - 1], name)
  }

  /**
   * Below `n`, down to `low`: the number of entries left when entries whose end tag is not
   * required are taken off the top, stopping at `low` (the loops of `popTags` and of `next` at the
   * end of input).
   */
  function InnermostRequired(s: seq<JString>, low: nat, n: nat): (m: nat)
    requires low <= n <= |s|
    ensures low <= m <= n
    decreases n
  {
    if n > low && !CloseTagRequired(s[n - 1]) then InnermostRequired(s, low, n - 1) else n
  }

  /** The innermost required entry is required. */
  lemma {:induction false} InnermostIsRequired(s: seq<JString>, low: nat, n: nat)
    requires low <= n <= |s| && InnermostRequired(s, low, n) > low
    ensures CloseTagRequired(s[InnermostRequired(s, low, n) - 1])
    decreases n
  {
    if n > low && !CloseTagRequired(s[n - 1]) {
      InnermostIsRequired(s, low, n - 1);
    }
  }

  /** No entry above the innermost required one (and below `n`) is required. */
  lemma {:induction false} NoneRequiredAbove(s: seq<JString>, low: nat, n: nat)
    requires low <= n <= |s|
    ensures forall j :: InnermostRequired(s, low, n) <= j < n ==> !CloseTagRequired(s[j])
    decreases n
  {
    if n > low && !CloseTagRequired(s[n - 1]) {
      NoneRequiredAbove(s, low, n - 1);
    }
  }

  /**
   * `popTags`: entries above the pop index whose end tag is not required are dropped; the next
   * entry is taken off and returned; the parser keeps popping until the pop index is reached.
   */
  function PopTags(p: Parser): (r: Emit)
    requires 0 <= p.popIndex < |p.stack|
    ensures r.kind.EndTag? && p.popIndex <= |r.after.stack| < |p.stack|
    ensures r.after.mode.Popping? ==> 0 <= r.after.popIndex < |r.after.stack|
    ensures r.after == p.(stack := r.after.stack, tagName := r.after.tagName, mode := r.after.mode)
  {
    var top := InnermostRequired(p.stack, p.popIndex + 1, |p.stack|) - 1;
    Emit(EndTag, p.(stack := p.stack[..top], tagName := p.stack[top],
                    mode := if top == p.popIndex then Normal else Popping))
  }

  /**
   * A complete end tag `</name>`, read up to `next`: the innermost open element of that name
   * (case-insensitively) takes the name as written and the elements above it are popped; with no
   * such element the tag becomes empty text.
   */
  function EndTagMatch(p: Parser, name: JString, next: nat): (r: Emit)
    requires p.mode.Normal?
    ensures r.kind.EndTag? <==> LastIndexIgnoreCase(p.stack, name) >= 0
    ensures r.kind.Text? ==> r.after == p.(offset := next, popIndex := -1, text := [])
    ensures r.kind.EndTag? ==> r.after.offset == next && |r.after.stack| < |p.stack|
  {
    var k := LastIndexIgnoreCase(p.stack, name);
    if k < 0 then Emit(Text, p.(offset := next, popIndex := -1, text := []))
    else PopTags(p.(offset := next, popIndex := k, stack := p.stack[k := name]))
  }

  /**
   * `parseEndTag` with the `/` of `</` at `i`: `</name>` with `name` on the stack (ignoring case)
   * renames that entry as written and starts popping; `</name>` with `name` not on the stack is
   * empty text; anything else is text that begins with the chars consumed.
   */
  function EndTagStep(d: JString, p: Parser, i: nat): (r: Emit)
    requires 0 < i < |d| && p.mode.Normal?
    ensures i < r.after.offset <= |d|
    ensures r.kind.EndTag? || r.kind.Text?
    ensures r.kind.Text? ==> r.after == p.(offset := r.after.offset, text := r.after.text, popIndex := r.after.popIndex)
    ensures r.after.mode.Popping? ==> 0 <= r.after.popIndex < |r.after.stack|
    ensures !r.after.mode.OpenClose?
    ensures r.kind.EndTag? ==> |r.after.stack| < |p.stack|
  {
    if i + 1 == |d| then Emit(Text, p.(offset := |d|, text := Lit("</")))
    else if !IsAlpha(d[i + 1]) then
      var t := TextRun(d, i + 1);
      Emit(Text, p.(offset := t.next, text := Lit("</") + t.text))
    else
      var e := NameEnd(d, i + 2);
      if e == |d| then Emit(Text, p.(offset := |d|, text := d[i - 1..]))
      else if d[e] == '>' as JChar then EndTagMatch(p, d[i + 1..e], e + 1)
      else
        var t := TextRun(d, e);
        Emit(Text, p.(offset := t.next, text := d[i - 1..e] + t.text))
  }

  // ---------------------------------------------------------------- next()

  /**
   * At the end of input: entries whose end tag is not required are dropped from the top; the
   * innermost remaining entry is returned as an end tag, or `EOF` when none remains.
   */
  function Closing(p: Parser): (r: Emit)
    ensures r.kind.EndTag? || r.kind.Eof?
    ensures r.after == p.(stack := r.after.stack, tagName := r.after.tagName)
    ensures r.kind.EndTag? ==> |r.after.stack| < |p.stack|
    ensures r.kind.Eof? ==> r.after == p.(stack := [])
  {
    var n := InnermostRequired(p.stack, 0, |p.stack|);
    if n == 0 then Emit(Eof, p.(stack := []))
    else Emit(EndTag, p.(stack := p.stack[..n - 1], tagName := p.stack[n - 1]))
  }

  /** The `for(;;)` loop of `next()`, from the parser's offset, in normal mode. */
  function Scan(d: JString, p: Parser): (r: Emit)
    requires p.offset <= |d| && p.mode.Normal?
    ensures Valid(d, r.after)
    decreases |d| - p.offset
  {
    var i := p.offset;
    if i == |d| then Closing(p)
    else if d[i] == '<' as JChar then
      if i + 1 == |d| then Emit(Text, p.(offset := |d|, text := Lit("<")))
      else if d[i + 1] == '!' as JChar then CommentStep(d, p, i + 1)
      else if d[i + 1] == '/' as JChar then EndTagStep(d, p, i + 1)
      else if d[i + 1] == '?' as JChar then Scan(d, p.(offset := InstructionEnd(d, i + 2)))
      else if IsAlpha(d[i + 1]) then StartTagStep(d, p, i + 1)
      else
        var t := TextRun(d, i + 1);
        Emit(Text, p.(offset := t.next, text := Lit("<") + t.text))
    else
      var t := TextRun(d, i);
      Emit(Text, p.(offset := t.next, text := t.text))
  }

  /** `stripProcessingInstruction`: a `<?` instruction is skipped and the loop of `next()` goes on after it. */
  lemma ScanSkipsInstruction(d: JString, p: Parser)
    requires p.offset + 1 < |d| && p.mode.Normal? && d[p.offset] == '<' as JChar && d[p.offset + 1] == '?' as JChar
    ensures Scan(d, p) == Scan(d, p.(offset := InstructionEnd(d, p.offset + 2)))
  {
  }

  /** `next()`. */
  function Step(d: JString, p: Parser): (r: Emit)
    requires Valid(d, p)
    ensures Valid(d, r.after)
  {
    match p.mode
    case OpenClose =>
      if CloseTagRequired(p.tagName) then Emit(EndTag, p.(mode := Normal, stack := p.stack[..|p.stack| - 1]))
      else Scan(d, p.(mode := Normal))
    case Popping => PopTags(p)
    case Normal => Scan(d, p)
  }
}
