/**
 * `HtmlParser`: a forgiving pull parser over a string.  Each call of `next()` moves the offset
 * through the input and returns one token; the open elements are kept on a stack so that missing
 * end tags are supplied.  Every method here is proved to do what the corresponding function of
 * module `HtmlScan` says, and `Next` to do exactly one `HtmlScan.Step`.
 *
 * The Java `int` accumulator of a numeric character reference is an unbounded `nat` here: it
 * wraps at 32 bits in Java, but the `(char)` cast that follows keeps only its low 16 bits, and
 * those are the same either way.
 */
module HtmlParser {
  import opened Wrappers
  import opened JStrings
  import opened HtmlTables
  import opened HtmlScan

  class HtmlParser {
    /** `_data[0.._limit)`. */
    const data: JString
    var offset: nat
    var mode: Mode
    var popIndex: int
    var stack: seq<JString>
    var text: JString
    var tagName: JString
    var attrs: seq<Attribute>

    function Fields(): Parser
      reads this
    {
      Parser(offset, mode, popIndex, stack, text, tagName, attrs)
    }

    ghost predicate Valid()
      reads this
    {
      HtmlScan.Valid(data, Fields())
    }

    /** `new HtmlParser(str)`. */
    constructor (str: JString)
      ensures data == str && Fields() == Initial() && Valid()
    {
      data := str;
      offset := 0;
      mode := Normal;
      popIndex := -1;
      stack := [];
      text := [];
      tagName := [];
      attrs := [];
    }

    // ------------------------------------------------------------ accessors

    /** `getText()`. */
    function GetText(): (r: JString)
      reads this
      ensures r == Fields().text
    {
      text
    }

    /** `getName()`. */
    function GetName(): (r: JString)
      reads this
      ensures r == Fields().tagName
    {
      tagName
    }

    /** `getAttributeCount()`. */
    function GetAttributeCount(): (r: nat)
      reads this
      ensures r == |Fields().attrs|
    {
      |attrs|
    }

    /** `getAttributeName(index)`: an index outside the attributes of the last tag throws. */
    function GetAttributeName(index: int): (r: Result<JString, Exception>)
      reads this
      ensures r.Ok? <==> 0 <= index < |attrs|
      ensures r.Ok? ==> r.value == attrs[index].name
      ensures r.Err? ==> r.error == IndexOutOfBoundsException
    {
      if 0 <= index < |attrs| then Ok(attrs[index].name) else Err(IndexOutOfBoundsException)
    }

    /** `getAttributeValue(index)`: `None` for an attribute written without `=`. */
    function GetAttributeValue(index: int): (r: Result<Option<JString>, Exception>)
      reads this
      ensures r.Ok? <==> 0 <= index < |attrs|
      ensures r.Ok? ==> r.value == attrs[index].value
      ensures r.Err? ==> r.error == IndexOutOfBoundsException
    {
      if 0 <= index < |attrs| then Ok(attrs[index].value) else Err(IndexOutOfBoundsException)
    }

    // ------------------------------------------------------------ runs of chars

    /** `skipSpaces`: whether at least one blank was skipped. */
    method SkipBlanks() returns (skipped: bool)
      requires offset <= |data|
      modifies this`offset
      ensures offset == SkipSpaces(data, old(offset)) && skipped == (offset > old(offset))
    {
      var i := offset;
      while i < |data| && IsSpace(data[i])
        invariant offset <= i <= |data| && SkipSpaces(data, i) == SkipSpaces(data, offset)
        decreases |data| - i
      {
        i := i + 1;
      }
      skipped := i > offset;
      offset := i;
    }

    /** The loop over the name chars of a tag or an attribute, from `i`. */
    static method ScanName(d: JString, i: nat) returns (j: nat)
      requires i <= |d|
      ensures j == NameEnd(d, i)
    {
      j := i;
      while j < |d| && IsNamePart(d[j])
        invariant i <= j <= |d| && NameEnd(d, j) == NameEnd(d, i)
        decreases |d| - j
      {
        j := j + 1;
      }
    }

    // ------------------------------------------------------------ entity references

    /** The hexadecimal loop of `parseAmp`, for `&#x` at `start`. */
    static method ParseHexRef(d: JString, start: nat) returns (piece: JString, next: nat)
      requires start + 3 <= |d|
      ensures Piece(piece, next) == HexRef(d, start, start + 3, 0)
    {
      var k := start + 3;
      var value: nat := 0;
      while k < |d| && d[k] != ';' as JChar && IsHexDigit(d[k])
        invariant start + 3 <= k <= |d|
        invariant HexRef(d, start, k, value) == HexRef(d, start, start + 3, 0)
        decreases |d| - k
      {
        value := value * 16;
        var ch := d[k];
        if '0' as JChar <= ch <= '9' as JChar {
          value := value + (ch as int - '0' as int);
        } else if 'a' as JChar <= ch <= 'f' as JChar {
          value := value + (ch as int - 'a' as int + 10);
        } else {
          value := value + (ch as int - 'A' as int + 10);
        }
        k := k + 1;
      }
      if k == |d| {
        return d[start..], k;
      }
      if d[k] != ';' as JChar {
        return d[start..k], k;
      }
      if k == start + 3 {
        return d[start..k], k + 1;
      }
      return [(value % 0x1_0000) as JChar], k + 1;
    }

    /** The decimal loop of `parseAmp`, for `&#` and a digit at `start`. */
    static method ParseDecRef(d: JString, start: nat) returns (piece: JString, next: nat)
      requires start + 3 <= |d| && IsAsciiDigit(d[start + 2])
      ensures Piece(piece, next) == DecRef(d, start, start + 3, d[start + 2] as int - '0' as int)
    {
      var k := start + 3;
      var value: nat := d[start + 2] as int - '0' as int;
      while k < |d| && d[k] != ';' as JChar && IsAsciiDigit(d[k])
        invariant start + 3 <= k <= |d|
        invariant DecRef(d, start, k, value) == DecRef(d, start, start + 3, d[start + 2] as int - '0' as int)
        decreases |d| - k
      {
        value := value * 10 + (d[k] as int - '0' as int);
        k := k + 1;
      }
      if k == |d| {
        return d[start..], k;
      }
      if d[k] != ';' as JChar {
        return d[start..k], k;
      }
      return [(value % 0x1_0000) as JChar], k + 1;
    }

    /** The named loop of `parseAmp`, for `&` and a letter at `start`. */
    static method ParseNamedRef(d: JString, start: nat) returns (piece: JString, next: nat)
      requires start + 2 <= |d|
      ensures Piece(piece, next) == NamedRef(d, start, start + 2)
    {
      var k := start + 2;
      while k < |d| && d[k] != ';' as JChar && IsAlphaNumeric(d[k])
        invariant start + 2 <= k <= |d|
        invariant NamedRef(d, start, k) == NamedRef(d, start, start + 2)
        decreases |d| - k
      {
        k := k + 1;
      }
      if k == |d| {
        return d[start..], k;
      }
      if d[k] != ';' as JChar {
        return d[start..k], k;
      }
      var entity := DecodeNamedEntity(d[start + 1..k]);
      if entity.None? {
        return d[start..k], k + 1;
      }
      return [entity.value], k + 1;
    }

    /** `parseAmp` at the `&` at `i`: the text to append and the position after the reference. */
    static method ParseAmp(d: JString, i: nat) returns (piece: JString, next: nat)
      requires i < |d| && d[i] == '&' as JChar
      ensures Piece(piece, next) == AmpAt(d, i)
    {
      if i + 1 >= |d| {
        return Lit("&"), i + 1;
      }
      var ch := d[i + 1];
      if ch == '#' as JChar {
        if i + 2 >= |d| {
          return d[i..i + 2], i + 2;
        }
        ch := d[i + 2];
        if ch == 'x' as JChar || ch == 'X' as JChar {
          piece, next := ParseHexRef(d, i);
        } else if IsAsciiDigit(ch) {
          piece, next := ParseDecRef(d, i);
        } else {
          piece, next := [], i + 2;
        }
      } else if IsAlpha(ch) {
        piece, next := ParseNamedRef(d, i);
      } else {
        piece, next := Lit("&"), i + 1;
      }
    }

    /** `parseText`: appends the text up to the next `<` or the end. */
    method ParseText()
      requires offset <= |data|
      modifies this`offset, this`text
      ensures offset == TextRun(data, old(offset)).next
      ensures text == old(text) + TextRun(data, old(offset)).text
    {
      var i, t := offset, text;
      ghost var run := TextRun(data, offset);
      while i < |data| && data[i] != '<' as JChar
        invariant i <= |data|
        invariant TextRun(data, i).next == run.next
        invariant t + TextRun(data, i).text == old(text) + run.text
        decreases |data| - i
      {
        var piece, next;
        if data[i] == '&' as JChar {
          piece, next := ParseAmp(data, i);
        } else {
          piece, next := [data[i]], i + 1;
        }
        TextRunStep(data, i, piece, next, t, old(text) + run.text);
        t, i := t + piece, next;
      }
      assert TextRun(data, i).text == [];
      offset, text := i, t;
    }

    // ------------------------------------------------------------ comments and instructions

    /** The loop of `parseComment` after `<!--`, with the `<` at `start`; `p` is the parser it started from. */
    method ParseCommentBody(start: nat, ghost p: Parser) returns (kind: Kind)
      requires start < offset < |data| && Fields() == p.(offset := offset, text := text)
      modifies this`offset, this`text
      ensures Emit(kind, Fields()) == CommentBody(data, p, start, old(offset))
    {
      var k := offset;
      while true
        invariant start < k < |data|
        invariant CommentBody(data, p, start, k) == CommentBody(data, p, start, old(offset))
        decreases |data| - k
      {
        k := k + 1;
        if k >= |data| {
          offset, text := k, data[start..];
          return Text;
        }
        if data[k] != '-' as JChar {
          continue;
        }
        k := k + 1;
        if k >= |data| {
          offset, text := k, data[start..];
          return Text;
        }
        if data[k] != '-' as JChar {
          continue;
        }
        k := k + 1;
        if k >= |data| {
          offset, text := k, data[start..];
          return Text;
        }
        if data[k] == '>' as JChar {
          offset, text := k + 1, data[start..k + 1];
          return Comment;
        }
        offset, text := k, data[start..k];
        ParseText();
        return Text;
      }
    }

    /** `parseComment`, with the offset on the `!` of `<!`; `p` is the parser before the `<`. */
    method ParseComment(ghost p: Parser) returns (kind: Kind)
      requires 0 < offset < |data| && Fields() == p.(offset := offset)
      modifies this`offset, this`text, this`tagName
      ensures Emit(kind, Fields()) == CommentStep(data, p, old(offset))
    {
      var start := offset - 1;
      text := [];
      if offset + 1 >= |data| {
        offset, text := offset + 1, Lit("<!");
        return Text;
      }
      offset := offset + 1;
      if data[offset] == 'D' as JChar || data[offset] == 'd' as JChar {
        tagName := Lit("!DOCTYPE");
        text := Lit("<!");
        ParseText();
        return Doctype;
      }
      if data[offset] != '-' as JChar {
        text := Lit("<!");
        ParseText();
        return Text;
      }
      if offset + 1 >= |data| || data[offset + 1] != '-' as JChar {
        offset, text := offset + 1, Lit("<!-");
        ParseText();
        return Text;
      }
      offset := offset + 1;
      kind := ParseCommentBody(start, p);
    }

    /** `stripProcessingInstruction`, with the offset on the `?` of `<?`. */
    method StripProcessingInstruction()
      requires offset < |data|
      modifies this`offset
      ensures offset == InstructionEnd(data, old(offset) + 1)
    {
      var k := offset + 1;
      while k < |data| && data[k] != '>' as JChar
        invariant offset < k <= |data| && InstructionEnd(data, k) == InstructionEnd(data, offset + 1)
        decreases |data| - k
      {
        k := k + 1;
      }
      offset := if k < |data| then k + 1 else k;
    }

    // ------------------------------------------------------------ attributes

    /** `parseAttrName`: a letter and the name chars after it, or `None` (null). */
    method ParseAttrName() returns (name: Option<JString>)
      requires offset <= |data|
      modifies this`offset
      ensures old(offset) == |data| || !IsAlpha(data[old(offset)]) ==> name.None? && offset == old(offset)
      ensures old(offset) < |data| && IsAlpha(data[old(offset)]) ==>
        offset == NameEnd(data, old(offset) + 1) && name == Some(data[old(offset)..offset])
    {
      if offset >= |data| || !IsAlpha(data[offset]) {
        return None;
      }
      var start := offset;
      offset := ScanName(data, offset + 1);
      return Some(data[start..offset]);
    }

    /** The quoted branch of `parseAttrValue`, from `k` after the opening quote `q`. */
    static method ParseQuotedValue(d: JString, k: nat, q: JChar) returns (value: JString, next: nat)
      requires k < |d|
      ensures Piece(value, next) == QuotedValue(d, k, q, [])
    {
      value, next := [], k;
      while next < |d|
        invariant k <= next <= |d|
        invariant QuotedValue(d, next, q, value) == QuotedValue(d, k, q, [])
        decreases |d| - next
      {
        var ch := d[next];
        if ch == q {
          return value, next + 1;
        }
        if ch == '&' as JChar {
          var piece;
          piece, next := ParseAmp(d, next);
          value := value + piece;
        } else {
          value := value + [ch];
          next := next + 1;
          if next >= |d| {
            return [], next;
          }
        }
      }
    }

    /**
     * The unquoted branch of `parseAttrValue`, from `k`.  The source reads the next char after an
     * entity reference without checking for the end of input; here the value ends there, as it
     * does after a plain char (see `HtmlScan.UnquotedValueAsWritten`).
     */
    static method ParseUnquotedValue(d: JString, k: nat) returns (value: JString, next: nat)
      requires k < |d|
      ensures Piece(value, next) == UnquotedValue(d, k, [])
    {
      value, next := [], k;
      var ch := d[k];
      while !IsSpace(ch) && ch != '>' as JChar
        invariant k <= next < |d| && ch == d[next]
        invariant UnquotedValue(d, next, value) == UnquotedValue(d, k, [])
        decreases |d| - next
      {
        if ch == '&' as JChar {
          var piece;
          piece, next := ParseAmp(d, next);
          if next >= |d| {
            return [], next;
          }
          value := value + piece;
        } else {
          value := value + [ch];
          next := next + 1;
          if next >= |d| {
            return [], next;
          }
        }
        ch := d[next];
      }
    }

    /** `parseAttrValue`, at the first char after `=` and blanks. */
    method ParseAttrValue() returns (value: JString)
      requires offset <= |data|
      modifies this`offset
      ensures Piece(value, offset) == AttrValueAt(data, old(offset))
    {
      if offset >= |data| {
        return [];
      }
      var quote := data[offset];
      if quote == '\'' as JChar || quote == '"' as JChar {
        if offset + 1 >= |data| {
          offset := offset + 1;
          return [];
        }
        value, offset := ParseQuotedValue(data, offset + 1, quote);
      } else {
        value, offset := ParseUnquotedValue(data, offset);
      }
    }

    /** `addAttribute` (the arrays that hold the attributes grow as needed). */
    method AddAttribute(name: JString, value: Option<JString>)
      modifies this`attrs
      ensures attrs == old(attrs) + [Attribute(name, value)]
    {
      attrs := attrs + [Attribute(name, value)];
    }

    /**
     * One round of the attribute loop of `parseStartTag`: a name (or none, and the loop stops),
     * blanks, optionally `=`, blanks and a value, then blanks; the loop goes on after blanks.
     */
    method ParseAttribute() returns (more: bool)
      requires offset <= |data|
      modifies this`offset, this`attrs
      ensures old(offset) == |data| || !IsAlpha(data[old(offset)]) ==>
        offset == old(offset) && attrs == old(attrs) && !more
      ensures old(offset) < |data| && IsAlpha(data[old(offset)]) ==>
        offset == AttrAt(data, old(offset)).next && more == AttrAt(data, old(offset)).spaced &&
        attrs == old(attrs) + [AttrAt(data, old(offset)).attr]
    {
      ghost var k := offset;
      var name := ParseAttrName();
      if name.None? {
        return false;
      }
      ghost var e := offset;
      more := SkipBlanks();
      ghost var s := offset;
      var value: Option<JString> := None;
      if offset < |data| && data[offset] == '=' as JChar {
        offset := offset + 1;
        var _ := SkipBlanks();
        ghost var v0 := offset;
        var v := ParseAttrValue();
        ghost var v1 := offset;
        value := Some(v);
        more := SkipBlanks();
        AttrAtValue(data, k, e, s, v0, Piece(v, v1), offset);
      } else {
        AttrAtBare(data, k, e, s);
      }
      AddAttribute(name.value, value);
    }

    /** The attribute loop of `parseStartTag`, entered after blanks. */
    method ParseAttributes()
      requires offset <= |data|
      modifies this`offset, this`attrs
      ensures AttrScan(attrs, offset) == AttrsFrom(data, old(offset), old(attrs))
    {
      var more := true;
      while more
        invariant offset <= |data|
        invariant more ==> AttrsFrom(data, offset, attrs) == AttrsFrom(data, old(offset), old(attrs))
        invariant !more ==> AttrScan(attrs, offset) == AttrsFrom(data, old(offset), old(attrs))
        decreases |data| - offset, more
      {
        more := ParseAttribute();
      }
    }

    // ------------------------------------------------------------ start and end tags

    /** `startTag`: the tag is pushed, whether or not its end tag is required. */
    method PushTag()
      modifies this`stack
      ensures stack == old(stack) + [tagName]
    {
      stack := stack + [tagName];
    }

    /**
     * The end of `parseStartTag`, at the offset after the name and attributes of the tag whose
     * letter is at `i`; `p` is the parser with that name and those attributes.
     */
    method FinishStartTag(i: nat, ghost p: Parser) returns (kind: Kind)
      requires 0 < i < offset <= |data| && Fields() == p.(offset := offset)
      modifies this`offset, this`text, this`stack, this`mode
      ensures Emit(kind, Fields()) == TagClose(data, p, i, old(offset))
    {
      var k := offset;
      if k == |data| {
        text := data[i - 1..];
        return Text;
      }
      if data[k] == '>' as JChar {
        offset := k + 1;
        PushTag();
        return StartTag;
      }
      if data[k] == '/' as JChar {
        if k + 1 == |data| {
          offset, text := k + 1, data[i - 1..];
          return Text;
        }
        if data[k + 1] == '>' as JChar {
          mode := OpenClose;
          offset := k + 2;
          PushTag();
          return StartTag;
        }
        offset, text := k + 1, data[i - 1..k + 1];
        ParseText();
        return Text;
      }
      text := data[i - 1..k];
      ParseText();
      return Text;
    }

    /** `parseStartTag`, with the offset on the letter after `<`; `p` is the parser before the `<`. */
    method ParseStartTag(ghost p: Parser) returns (kind: Kind)
      requires 0 < offset < |data| && Fields() == p.(offset := offset)
      modifies this`offset, this`text, this`tagName, this`attrs, this`stack, this`mode
      ensures Emit(kind, Fields()) == StartTagStep(data, p, old(offset))
    {
      var i := offset;
      attrs := [];
      var e := ScanName(data, i + 1);
      if e == |data| {
        offset, text := e, data[i - 1..];
        return Text;
      }
      offset, tagName := e, data[i..e];
      var spaced := SkipBlanks();
      if spaced {
        ParseAttributes();
      }
      kind := FinishStartTag(i, p.(tagName := data[i..e], attrs := attrs));
    }

    /** `lastIndexOfIgnoreCase`. */
    static method LastIndexOfIgnoreCase(list: seq<JString>, str: JString) returns (r: int)
      ensures r == LastIndexIgnoreCase(list, str)
    {
      var i := |list|;
      while i > 0
        invariant 0 <= i <= |list|
        invariant LastIndexIgnoreCase(list[..i], str) == LastIndexIgnoreCase(list, str)
        decreases i
      {
        i := i - 1;
        assert list[..i + 1][..i] == list[..i];
        if EqualsIgnoreCase(str, list[i]) {
          return i;
        }
      }
      return -1;
    }

    /**
     * The loops of `popTags` and of `next()` at the end of input: entries whose end tag is not
     * required are removed from the top, down to `low`.
     */
    static method DropOptional(elements: seq<JString>, low: nat) returns (rest: seq<JString>)
      requires low <= |elements|
      ensures rest == elements[..InnermostRequired(elements, low, |elements|)]
    {
      rest := elements;
      while |rest| > low && !CloseTagRequired(rest[|rest| - 1])
        invariant low <= |rest| <= |elements| && rest == elements[..|rest|]
        invariant InnermostRequired(elements, low, |rest|) == InnermostRequired(elements, low, |elements|)
        decreases |rest|
      {
        rest := rest[..|rest| - 1];
      }
    }

    /** `popTags`. */
    method PopTags()
      requires 0 <= popIndex < |stack|
      modifies this`stack, this`tagName, this`mode
      ensures Fields() == HtmlScan.PopTags(old(Fields())).after
    {
      var elements := DropOptional(stack, popIndex + 1);
      var top := |elements| - 1;
      tagName, stack := elements[top], elements[..top];
      mode := if popIndex == top then Normal else Popping;
    }

    /** `parseEndTag`, with the offset on the `/` of `</`; `p` is the parser before the `<`. */
    method ParseEndTag(ghost p: Parser) returns (kind: Kind)
      requires 0 < offset < |data| && mode.Normal? && Fields() == p.(offset := offset)
      modifies this`offset, this`text, this`popIndex, this`stack, this`tagName, this`mode
      ensures Emit(kind, Fields()) == EndTagStep(data, p, old(offset))
    {
      var i := offset;
      if i + 1 == |data| {
        offset, text := i + 1, Lit("</");
        return Text;
      }
      if !IsAlpha(data[i + 1]) {
        offset, text := i + 1, Lit("</");
        ParseText();
        return Text;
      }
      var e := ScanName(data, i + 2);
      if e == |data| {
        offset, text := e, data[i - 1..];
        return Text;
      }
      if data[e] != '>' as JChar {
        offset, text := e, data[i - 1..e];
        ParseText();
        return Text;
      }
      kind := MatchEndTag(data[i + 1..e], e + 1);
    }

    /** The `>` of `</name>` read, with the offset at `next`: pop to the element the tag ends. */
    method MatchEndTag(ended: JString, next: nat) returns (kind: Kind)
      requires mode.Normal?
      modifies this`offset, this`text, this`popIndex, this`stack, this`tagName, this`mode
      ensures Emit(kind, Fields()) == EndTagMatch(old(Fields()), ended, next)
    {
      offset := next;
      popIndex := LastIndexOfIgnoreCase(stack, ended);
      if popIndex == -1 {
        text := [];
        return Text;
      }
      stack := stack[popIndex := ended];
      PopTags();
      return EndTag;
    }

    // ------------------------------------------------------------ next()

    /** The end-of-input branch of `next()`. */
    method CloseAtEnd() returns (kind: Kind)
      modifies this`stack, this`tagName
      ensures Emit(kind, Fields()) == Closing(old(Fields()))
    {
      var elements := DropOptional(stack, 0);
      var n := |elements|;
      if n != 0 {
        tagName, stack := elements[n - 1], elements[..n - 1];
        return EndTag;
      }
      stack := [];
      return Eof;
    }

    /** The `for(;;)` loop of `next()`, in normal mode. */
    method ScanNext() returns (kind: Kind)
      requires offset <= |data| && mode.Normal?
      modifies this`offset, this`text, this`tagName, this`attrs, this`stack, this`mode, this`popIndex
      ensures Emit(kind, Fields()) == Scan(data, old(Fields()))
    {
      while offset < |data| && data[offset] == '<' as JChar && offset + 1 < |data| && data[offset + 1] == '?' as JChar
        invariant offset <= |data| && mode.Normal?
        invariant Fields() == old(Fields()).(offset := offset)
        invariant Scan(data, Fields()) == Scan(data, old(Fields()))
        decreases |data| - offset
      {
        ScanSkipsInstruction(data, Fields());
        offset := offset + 1;
        StripProcessingInstruction();
      }
      kind := ScanToken();
    }

    /** One pass of the loop of `next()` that returns: anything but `<?` at the offset. */
    method ScanToken() returns (kind: Kind)
      requires offset <= |data| && mode.Normal?
      requires !(offset + 1 < |data| && data[offset] == '<' as JChar && data[offset + 1] == '?' as JChar)
      modifies this`offset, this`text, this`tagName, this`attrs, this`stack, this`mode, this`popIndex
      ensures Emit(kind, Fields()) == Scan(data, old(Fields()))
    {
      if offset == |data| {
        kind := CloseAtEnd();
        return;
      }
      if data[offset] != '<' as JChar {
        text := [];
        ParseText();
        return Text;
      }
      if offset + 1 == |data| {
        offset, text := offset + 1, Lit("<");
        return Text;
      }
      offset := offset + 1;
      var ch := data[offset];
      if ch == '!' as JChar {
        kind := ParseComment(old(Fields()));
      } else if ch == '/' as JChar {
        kind := ParseEndTag(old(Fields()));
      } else if IsAlpha(ch) {
        kind := ParseStartTag(old(Fields()));
      } else {
        text := Lit("<");
        ParseText();
        return Text;
      }
    }

    /** `next()`: one token, exactly as `HtmlScan.Step` says. */
    method Next() returns (kind: Kind)
      requires Valid()
      modifies this
      ensures Emit(kind, Fields()) == Step(data, old(Fields()))
      ensures Valid()
    {
      if mode == OpenClose {
        mode := Normal;
        if CloseTagRequired(tagName) {
          stack := stack[..|stack| - 1];
          return EndTag;
        }
      } else if mode == Popping {
        PopTags();
        return EndTag;
      }
      kind := ScanNext();
    }
  }
}
