/**
 * The encoding detection of `XMLUtils`: appendix F.1 of the XML 1.0 recommendation ("Detection
 * Without External Encoding Information"), with the XML declaration read through productions [23]
 * to [26] and [80] of that recommendation.  The `Reader` the source builds is modelled by the
 * encoding it names and the window of the data it reads.  Bytes are unsigned here; Java's signed
 * bytes appear where their sign matters.  An `ArrayIndexOutOfBoundsException` is
 * `Err(IndexOutOfBoundsException)`.
 */
module XMLEncoding {
  import opened Wrappers
  import opened JStrings

  /** `encodingReader(data, offset, length, encoding)`: the encoding and the window the reader decodes. */
  datatype EncodingReader = EncodingReader(encoding: JString, offset: int, length: int)

  const UCS_4_1234: JString := Lit("UCS-4-1234")
  const UCS_4_4321: JString := Lit("UCS-4-4321")
  const UCS_4_2143: JString := Lit("UCS-4-2143")
  const UCS_4_3412: JString := Lit("UCS-4-3412")
  const UTF_16BE: JString := Lit("UTF-16BE")
  const UTF_16LE: JString := Lit("UTF-16LE")
  const UTF_8: JString := Lit("UTF-8")
  const EBCDIC: JString := Lit("EBCDIC")

  /** `<?xml`, `version` and `encoding` in US-ASCII. */
  const XMLDECL: seq<Byte> := [60, 63, 120, 109, 108]
  const VERSION: seq<Byte> := [118, 101, 114, 115, 105, 111, 110]
  const ENCODING: seq<Byte> := [101, 110, 99, 111, 100, 105, 110, 103]

  const EQUALS: Byte := 61
  const QUESTION: Byte := 63
  const CLOSE: Byte := 62
  const APOSTROPHE: Byte := 39
  const QUOTATION: Byte := 34
  const ONE: Byte := 49
  const DOT: Byte := 46
  const ZERO: Byte := 48

  // ---------------------------------------------------------------- reading bytes

  /** `data[pos]`, or the exception an index out of range throws. */
  function At(data: seq<Byte>, pos: int): (r: Result<Byte, Exception>)
    ensures r.Ok? <==> 0 <= pos < |data|
    ensures r.Ok? ==> r.value == data[pos]
    ensures r.Err? ==> r.error == IndexOutOfBoundsException
  {
    if 0 <= pos < |data| then Ok(data[pos]) else Err(IndexOutOfBoundsException)
  }

  /** The position `k` steps of `inc` after `off`. */
  function Stride(off: int, inc: int, k: nat): int
    decreases k
  {
    if k == 0 then off else Stride(off, inc, k - 1) + inc
  }

  lemma {:induction false} StrideShift(off: int, inc: int, k: nat)
    ensures Stride(off + inc, inc, k) == Stride(off, inc, k + 1)
    decreases k
  {
    if k > 0 {
      StrideShift(off, inc, k - 1);
    }
  }

  lemma {:induction false} StrideUnit(off: int, k: nat)
    ensures Stride(off, 1, k) == off + k
    decreases k
  {
    if k > 0 {
      StrideUnit(off, k - 1);
    }
  }

  /** The bits of `S` (production [3]): space, tab, CR and LF. */
  const SPACE_MASK: bv64 := (1 << 0x20) | (1 << 0x9) | (1 << 0xD) | (1 << 0xA)

  /** White space in the sense of production [3]. */
  predicate IsSpace(b: Byte) {
    b == 0x20 || b == 0x9 || b == 0xD || b == 0xA
  }

  /** `isSpace(b)`: `b` is at most 0x20 and its bit is set in the mask, which holds exactly the four white-space bytes. */
  function IsSpaceMask(b: Byte): (r: bool)
    ensures r == IsSpace(b)
  {
    if b <= 0x20 then
      var x := b as bv8;
      assert x <= 0x20;
      SPACE_MASK & (1 << x) != 0
    else false
  }

  /** `matches(data, off, inc, test)`. */
  function MatchesFrom(data: seq<Byte>, off: int, inc: int, test: seq<Byte>): (r: Result<bool, Exception>)
    ensures r.Err? ==> r.error == IndexOutOfBoundsException
    ensures r.Ok? && |test| > 0 ==> 0 <= off < |data|
  {
    MatchesRest(data, off, inc, test, 0)
  }

  /** The `for` loop of `matches` from index `i`: compare up to the first difference. */
  function MatchesRest(data: seq<Byte>, off: int, inc: int, test: seq<Byte>, i: nat): (r: Result<bool, Exception>)
    ensures r.Err? ==> r.error == IndexOutOfBoundsException
    ensures r.Ok? && i < |test| ==> 0 <= Stride(off, inc, i) < |data|
    decreases |test| - i
  {
    if i >= |test| then Ok(true)
    else
      var b :- At(data, Stride(off, inc, i));
      if b != test[i] then Ok(false) else MatchesRest(data, off, inc, test, i + 1)
  }

  /** The strided bytes from `off` equal `test` from index `i` on. */
  predicate StridedEqual(data: seq<Byte>, off: int, inc: int, test: seq<Byte>, i: nat) {
    forall k :: i <= k < |test| ==> 0 <= Stride(off, inc, k) < |data| && data[Stride(off, inc, k)] == test[k]
  }

  lemma {:induction false} MatchesRestMeaning(data: seq<Byte>, off: int, inc: int, test: seq<Byte>, i: nat)
    ensures MatchesRest(data, off, inc, test, i) == Ok(true) <==> StridedEqual(data, off, inc, test, i)
    decreases |test| - i
  {
    if i < |test| {
      MatchesRestMeaning(data, off, inc, test, i + 1);
    }
  }

  /** `matches` answers true exactly when every strided byte is in range and equal to `test`. */
  lemma MatchesMeaning(data: seq<Byte>, off: int, inc: int, test: seq<Byte>)
    ensures MatchesFrom(data, off, inc, test) == Ok(true) <==> StridedEqual(data, off, inc, test, 0)
  {
    MatchesRestMeaning(data, off, inc, test, 0);
  }

  /** The `for` loop of `matches`. */
  method Matches(data: seq<Byte>, off: int, inc: int, test: seq<Byte>) returns (r: Result<bool, Exception>)
    ensures r == MatchesFrom(data, off, inc, test)
  {
    var i := 0;
    var n := |test|;
    var pos := off;
    while i < n
      invariant 0 <= i <= n && pos == Stride(off, inc, i)
      invariant MatchesFrom(data, off, inc, test) == MatchesRest(data, off, inc, test, i)
    {
      var b :- At(data, pos);
      if b != test[i] {
        return Ok(false);
      }
      i := i + 1;
      pos := pos + inc;
    }
    return Ok(true);
  }

  /** `skipSpaces(data, off, inc)`: the first position of `off`, `off + inc`, … that holds no space. */
  function SpacesEnd(data: seq<Byte>, off: int, inc: int): (r: Result<int, Exception>)
    requires inc > 0
    ensures r.Err? ==> r.error == IndexOutOfBoundsException
    ensures r.Ok? ==> 0 <= off <= r.value < |data| && !IsSpace(data[r.value])
    decreases |data| - off
  {
    var b :- At(data, off);
    if IsSpace(b) then SpacesEnd(data, off + inc, inc) else Ok(off)
  }

  /** The first `n` strided positions from `off` hold spaces. */
  predicate SpacesUpTo(data: seq<Byte>, off: int, inc: int, n: nat) {
    forall j :: 0 <= j < n ==> 0 <= Stride(off, inc, j) < |data| && IsSpace(data[Stride(off, inc, j)])
  }

  lemma SpacesUpToShift(data: seq<Byte>, off: int, inc: int, n: nat)
    requires 0 <= off < |data| && IsSpace(data[off]) && SpacesUpTo(data, off + inc, inc, n)
    ensures SpacesUpTo(data, off, inc, n + 1)
  {
    forall j | 0 < j < n + 1
      ensures Stride(off, inc, j) == Stride(off + inc, inc, j - 1)
    {
      StrideShift(off, inc, j - 1);
    }
  }

  /** Every position the skip passes over holds a space. */
  lemma {:induction false} SpacesEndMeaning(data: seq<Byte>, off: int, inc: int)
    requires inc > 0 && SpacesEnd(data, off, inc).Ok?
    ensures exists n: nat :: SpacesEnd(data, off, inc).value == Stride(off, inc, n) && SpacesUpTo(data, off, inc, n)
    decreases |data| - off
  {
    if IsSpace(data[off]) {
      SpacesEndMeaning(data, off + inc, inc);
      var n: nat :| SpacesEnd(data, off + inc, inc).value == Stride(off + inc, inc, n) && SpacesUpTo(data, off + inc, inc, n);
      StrideShift(off, inc, n);
      SpacesUpToShift(data, off, inc, n);
    } else {
      assert SpacesEnd(data, off, inc).value == Stride(off, inc, 0) && SpacesUpTo(data, off, inc, 0);
    }
  }

  /** The `while` loop of `skipSpaces`. */
  method SkipSpaces(data: seq<Byte>, off: int, inc: int) returns (r: Result<int, Exception>)
    requires inc > 0
    ensures r == SpacesEnd(data, off, inc)
  {
    var pos := off;
    while true
      invariant SpacesEnd(data, off, inc) == SpacesEnd(data, pos, inc)
      decreases |data| - pos
    {
      var b :- At(data, pos);
      if !IsSpaceMask(b) {
        return Ok(pos);
      }
      pos := pos + inc;
    }
  }

  /** `(char) data[off]`: the signed byte widened to 16 bits, so bytes from 0x80 on become U+FF80..U+FFFF. */
  function ByteChar(b: Byte): (c: JChar)
    ensures b < 0x80 ==> c as int == b as int
    ensures b >= 0x80 ==> c as int == b as int + 0xFF00
  {
    if b < 0x80 then b as int as JChar else (b as int + 0xFF00) as JChar
  }

  /** The chars the source builds from bytes. */
  function Widened(bytes: seq<Byte>): (r: JString)
    ensures |r| == |bytes| && forall i :: 0 <= i < |bytes| ==> r[i] == ByteChar(bytes[i])
  {
    seq(|bytes|, i requires 0 <= i < |bytes| => ByteChar(bytes[i]))
  }

  /**
   * The loop `while (data[off += inc] != quoteChar) buf.append((char) data[off])` from its first
   * step, at `pos`: the name read and the position of the closing quote.
   */
  function QuotedText(data: seq<Byte>, pos: int, inc: int, q: Byte): (r: Result<(JString, int), Exception>)
    requires inc > 0
    ensures r.Err? ==> r.error == IndexOutOfBoundsException
    ensures r.Ok? ==> 0 <= pos <= r.value.1 < |data| && data[r.value.1] == q
    decreases |data| - pos
  {
    var b :- At(data, pos);
    if b == q then Ok(([], pos))
    else
      var rest :- QuotedText(data, pos + inc, inc, q);
      Ok(([ByteChar(b)] + rest.0, rest.1))
  }

  /** The name holds the widened bytes up to the first quote, and the quote ends it. */
  lemma {:induction false} QuotedTextMeaning(data: seq<Byte>, pos: int, inc: int, q: Byte)
    requires inc > 0 && QuotedText(data, pos, inc, q).Ok?
    ensures var (name, end) := QuotedText(data, pos, inc, q).value;
      end == Stride(pos, inc, |name|) &&
      forall k :: 0 <= k < |name| ==>
        0 <= Stride(pos, inc, k) < |data| && data[Stride(pos, inc, k)] != q && name[k] == ByteChar(data[Stride(pos, inc, k)])
    decreases |data| - pos
  {
    if data[pos] != q {
      QuotedTextMeaning(data, pos + inc, inc, q);
      var rest := QuotedText(data, pos + inc, inc, q).value;
      StrideShift(pos, inc, |rest.0|);
      forall k | 1 <= k <= |rest.0| ensures Stride(pos + inc, inc, k - 1) == Stride(pos, inc, k) {
        StrideShift(pos, inc, k - 1);
      }
    }
  }

  /** At stride 1, a run of bytes free of the quote and closed by it is read back, widened. */
  lemma {:induction false} QuotedTextReads(data: seq<Byte>, pos: int, q: Byte, name: seq<Byte>)
    requires 0 <= pos && pos + |name| < |data| && data[pos..pos + |name|] == name && data[pos + |name|] == q
    requires q !in name
    ensures QuotedText(data, pos, 1, q) == Ok((Widened(name), pos + |name|))
    decreases |name|
  {
    if |name| > 0 {
      assert data[pos + 1..pos + 1 + |name[1..]|] == name[1..];
      assert data[pos] == name[0];
      QuotedTextReads(data, pos + 1, q, name[1..]);
      assert [ByteChar(name[0])] + Widened(name[1..]) == Widened(name);
    }
  }

  /** A `StringBuffer` holding `pre`, followed by what the rest of the loop reads. */
  function Prefixed(pre: JString, r: Result<(JString, int), Exception>): Result<(JString, int), Exception> {
    match r
    case Ok((name, end)) => Ok((pre + name, end))
    case Err(e) => Err(e)
  }

  lemma PrefixedNothing(r: Result<(JString, int), Exception>)
    ensures Prefixed([], r) == r
  {
    if r.Ok? {
      assert [] + r.value.0 == r.value.0;
    }
  }

  lemma PrefixedAppend(a: JString, b: JString, r: Result<(JString, int), Exception>)
    ensures Prefixed(a, Prefixed(b, r)) == Prefixed(a + b, r)
  {
    if r.Ok? {
      assert a + (b + r.value.0) == (a + b) + r.value.0;
    }
  }

  // ---------------------------------------------------------------- the XML declaration

  /** What the declaration scan found: no declaration of the recognised form, or the encoding and its closing quote. */
  datatype Declaration = NoDeclaration | Declaration(encoding: JString, closingQuote: int)

  predicate IsQuote(b: Byte) {
    b == APOSTROPHE || b == QUOTATION
  }

  /** `<?xml` and S from `start`, then the version. */
  function ScanDeclaration(data: seq<Byte>, start: int, inc: int): (r: Result<Declaration, Exception>)
    requires inc > 0
    ensures r.Err? ==> r.error == IndexOutOfBoundsException
    ensures r.Ok? && r.value.Declaration? ==>
      start + 6 * inc < r.value.closingQuote < |data| && 0 <= r.value.closingQuote && IsQuote(data[r.value.closingQuote])
  {
    var isDecl :- MatchesFrom(data, start, inc, XMLDECL);
    if !isDecl then Ok(NoDeclaration)
    else
      var b :- At(data, start + 5 * inc);
      if !IsSpace(b) then Ok(NoDeclaration)
      else
        var p :- SpacesEnd(data, start + 6 * inc, inc);
        ScanVersion(data, p, inc)
  }

  /** `version` Eq and the opening quote of the version number. */
  function ScanVersion(data: seq<Byte>, start: int, inc: int): (r: Result<Declaration, Exception>)
    requires inc > 0
    ensures r.Err? ==> r.error == IndexOutOfBoundsException
    ensures r.Ok? && r.value.Declaration? ==>
      start < r.value.closingQuote < |data| && 0 <= r.value.closingQuote && IsQuote(data[r.value.closingQuote])
  {
    var isVersion :- MatchesFrom(data, start, inc, VERSION);
    if !isVersion then Ok(NoDeclaration)
    else
      var eq :- SpacesEnd(data, start + 7 * inc, inc);
      ScanVersionValue(data, eq, inc)
  }

  /** `=` at `eq`, S? and the opening quote of the version number. */
  function ScanVersionValue(data: seq<Byte>, eq: int, inc: int): (r: Result<Declaration, Exception>)
    requires inc > 0 && 0 <= eq < |data|
    ensures r.Err? ==> r.error == IndexOutOfBoundsException
    ensures r.Ok? && r.value.Declaration? ==>
      eq < r.value.closingQuote < |data| && IsQuote(data[r.value.closingQuote])
  {
    if data[eq] != EQUALS then Ok(NoDeclaration)
    else
      var p :- SpacesEnd(data, eq + inc, inc);
      var q := data[p];
      if !IsQuote(q) then Ok(NoDeclaration) else ScanVersionNum(data, p, inc, q)
  }

  /** `1.0` after the quote at `p`, the same quote again and S, then the encoding declaration. */
  function ScanVersionNum(data: seq<Byte>, p: int, inc: int, q: Byte): (r: Result<Declaration, Exception>)
    requires inc > 0
    ensures r.Err? ==> r.error == IndexOutOfBoundsException
    ensures r.Ok? && r.value.Declaration? ==>
      p < r.value.closingQuote < |data| && 0 <= r.value.closingQuote && IsQuote(data[r.value.closingQuote])
  {
    var one :- At(data, p + inc);
    if one != ONE then Ok(NoDeclaration)
    else
      var dot :- At(data, p + 2 * inc);
      if dot != DOT then Ok(NoDeclaration)
      else
        var zero :- At(data, p + 3 * inc);
        if zero != ZERO then Ok(NoDeclaration)
        else
          var close :- At(data, p + 4 * inc);
          if close != q then Ok(NoDeclaration)
          else
            var s :- At(data, p + 5 * inc);
            if !IsSpace(s) then Ok(NoDeclaration)
            else
              var e :- SpacesEnd(data, p + 6 * inc, inc);
              ScanEncoding(data, e, inc)
  }

  /** `encoding` Eq and the quoted name. */
  function ScanEncoding(data: seq<Byte>, start: int, inc: int): (r: Result<Declaration, Exception>)
    requires inc > 0
    ensures r.Err? ==> r.error == IndexOutOfBoundsException
    ensures r.Ok? && r.value.Declaration? ==>
      start < r.value.closingQuote < |data| && 0 <= r.value.closingQuote && IsQuote(data[r.value.closingQuote])
  {
    var isEncoding :- MatchesFrom(data, start, inc, ENCODING);
    if !isEncoding then Ok(NoDeclaration)
    else
      var eq :- SpacesEnd(data, start + 8 * inc, inc);
      ScanEncodingValue(data, eq, inc)
  }

  /** `=` at `eq`, S? and the quoted name. */
  function ScanEncodingValue(data: seq<Byte>, eq: int, inc: int): (r: Result<Declaration, Exception>)
    requires inc > 0 && 0 <= eq < |data|
    ensures r.Err? ==> r.error == IndexOutOfBoundsException
    ensures r.Ok? && r.value.Declaration? ==>
      eq < r.value.closingQuote < |data| && IsQuote(data[r.value.closingQuote])
  {
    if data[eq] != EQUALS then Ok(NoDeclaration)
    else
      var p :- SpacesEnd(data, eq + inc, inc);
      var q := data[p];
      if !IsQuote(q) then Ok(NoDeclaration)
      else
        var name :- QuotedText(data, p + inc, inc, q);
        Ok(Declaration(name.0, name.1))
  }

  /**
   * After the name: skip S from `from`; a `?>` there moves the reader just past it, anything else
   * keeps the whole window.  Either way the window still ends where it ended.
   */
  function Resume(data: seq<Byte>, offset: int, length: int, asciiOffset: int, inc: int, encoding: JString, from: int): (r: Result<EncodingReader, Exception>)
    requires inc > 0
    ensures r.Err? ==> r.error == IndexOutOfBoundsException
    ensures r.Ok? ==> r.value.encoding == encoding && r.value.offset + r.value.length == offset + length
    ensures r.Ok? ==> r.value.offset == offset || r.value.offset >= from + 2 * inc - asciiOffset
  {
    var p :- SpacesEnd(data, from, inc);
    if data[p] != QUESTION then Ok(EncodingReader(encoding, offset, length))
    else
      var b2 :- At(data, p + inc);
      if b2 != CLOSE then Ok(EncodingReader(encoding, offset, length))
      else
        var off := p + 2 * inc - asciiOffset;
        Ok(EncodingReader(encoding, off, length - (off - offset)))
  }

  /**
   * Where the reader is placed once the declaration scan is done: no declaration keeps the default
   * encoding on the whole window; a declaration resumes `past` bytes beyond its closing quote.
   */
  function Placed(scan: Result<Declaration, Exception>, data: seq<Byte>, offset: int, length: int, asciiOffset: int, inc: int, defaultEncoding: JString, past: int): (r: Result<EncodingReader, Exception>)
    requires inc > 0
    ensures scan.Err? ==> r == Err(scan.error)
    ensures scan.Ok? && r.Err? ==> r.error == IndexOutOfBoundsException
    ensures r.Ok? ==> r.value.offset + r.value.length == offset + length
    ensures scan.Ok? && scan.value.Declaration? && r.Ok? ==>
      r.value.offset == offset || r.value.offset >= scan.value.closingQuote + past + 2 * inc - asciiOffset
  {
    match scan
    case Err(e) => Err(e)
    case Ok(NoDeclaration) => Ok(EncodingReader(defaultEncoding, offset, length))
    case Ok(Declaration(encoding, q)) => Resume(data, offset, length, asciiOffset, inc, encoding, q + past)
  }

  /**
   * `readEncodingHeader(data, offset, length, asciiOffset, inc, defaultEncoding)` as written: the
   * spaces after the name are skipped from the closing quote itself.
   */
  function HeaderReader(data: seq<Byte>, offset: int, length: int, asciiOffset: int, inc: int, defaultEncoding: JString): (r: Result<EncodingReader, Exception>)
    requires inc > 0
    ensures r.Err? ==> r.error == IndexOutOfBoundsException
    ensures r.Ok? ==> r.value.offset + r.value.length == offset + length
  {
    Placed(ScanDeclaration(data, offset + asciiOffset, inc), data, offset, length, asciiOffset, inc, defaultEncoding, 0)
  }

  /**
   * `readEncodingHeader` as evidently intended: the spaces after the name are skipped from past the
   * closing quote, so a reader moved on starts beyond the whole declaration.
   */
  function HeaderReaderFixed(data: seq<Byte>, offset: int, length: int, asciiOffset: int, inc: int, defaultEncoding: JString): (r: Result<EncodingReader, Exception>)
    requires inc > 0
    ensures r.Err? ==> r.error == IndexOutOfBoundsException
    ensures r.Ok? ==> r.value.offset + r.value.length == offset + length
    ensures r.Ok? ==> r.value.offset == offset || r.value.offset > offset + 9 * inc
  {
    Placed(ScanDeclaration(data, offset + asciiOffset, inc), data, offset, length, asciiOffset, inc, defaultEncoding, inc)
  }

  /**
   * As written the `?>` branch is dead: the skip starts on the closing quote, which is neither a
   * space nor `?`, so every declaration leaves the reader on the whole window.
   */
  lemma DeclarationBranchDead(data: seq<Byte>, offset: int, length: int, asciiOffset: int, inc: int, defaultEncoding: JString)
    requires inc > 0
    ensures var r := HeaderReader(data, offset, length, asciiOffset, inc, defaultEncoding);
      r.Ok? ==> r.value.offset == offset && r.value.length == length
  {
    var d := ScanDeclaration(data, offset + asciiOffset, inc);
    if d.Ok? && d.value.Declaration? {
      var q := d.value.closingQuote;
      assert SpacesEnd(data, q, inc) == Ok(q);
    }
  }

  /** The fix changes only the window: whether a declaration is read, and the encoding found, stay the same. */
  lemma HeaderReaderFixedSameEncoding(data: seq<Byte>, offset: int, length: int, asciiOffset: int, inc: int, defaultEncoding: JString)
    requires inc > 0
    requires HeaderReaderFixed(data, offset, length, asciiOffset, inc, defaultEncoding).Ok?
    requires HeaderReader(data, offset, length, asciiOffset, inc, defaultEncoding).Ok?
    ensures HeaderReaderFixed(data, offset, length, asciiOffset, inc, defaultEncoding).value.encoding ==
      HeaderReader(data, offset, length, asciiOffset, inc, defaultEncoding).value.encoding
  {
  }

  // ---------------------------------------------------------------- the methods of the source

  /** The `do { … } while (false)` block of `readEncodingHeader`, each `break` an early return. */
  method ReadEncodingHeader(data: seq<Byte>, offset: int, length: int, asciiOffset: int, inc: int, defaultEncoding: JString)
    returns (r: Result<EncodingReader, Exception>)
    requires inc > 0
    ensures r == HeaderReader(data, offset, length, asciiOffset, inc, defaultEncoding)
  {
    HeaderReaderPlaced(data, offset, length, asciiOffset, inc, defaultEncoding);
    var d := ReadDeclaration(data, offset + asciiOffset, inc);
    r := PlaceReader(d, data, offset, length, asciiOffset, inc, defaultEncoding);
  }

  lemma HeaderReaderPlaced(data: seq<Byte>, offset: int, length: int, asciiOffset: int, inc: int, defaultEncoding: JString)
    requires inc > 0
    ensures HeaderReader(data, offset, length, asciiOffset, inc, defaultEncoding) ==
      Placed(ScanDeclaration(data, offset + asciiOffset, inc), data, offset, length, asciiOffset, inc, defaultEncoding, 0)
  {
  }

  /** The `break`s of the `readEncodingHeader` block once the version is read, and the tail after the name. */
  method PlaceReader(d: Result<Declaration, Exception>, data: seq<Byte>, offset: int, length: int, asciiOffset: int, inc: int, defaultEncoding: JString)
    returns (r: Result<EncodingReader, Exception>)
    requires inc > 0
    ensures r == Placed(d, data, offset, length, asciiOffset, inc, defaultEncoding, 0)
  {
    if d.Err? {
      return Err(d.error);
    }
    if d.value.NoDeclaration? {
      return Ok(EncodingReader(defaultEncoding, offset, length));
    }
    r := ReadDeclarationEnd(data, offset, length, asciiOffset, inc, d.value.encoding, d.value.closingQuote);
  }

  /** The `<?xml` S and version part of the `readEncodingHeader` block, from `off = offset + asciiOffset`. */
  method ReadDeclaration(data: seq<Byte>, start: int, inc: int) returns (r: Result<Declaration, Exception>)
    requires inc > 0
    ensures r == ScanDeclaration(data, start, inc)
  {
    var off := start;
    var isDecl :- Matches(data, off, inc, XMLDECL);
    if !isDecl {
      return Ok(NoDeclaration);
    }
    off := off + 5 * inc;
    var b :- At(data, off);
    if !IsSpaceMask(b) {
      return Ok(NoDeclaration);
    }
    off :- SkipSpaces(data, off + inc, inc);
    r := ReadVersion(data, off, inc);
  }

  /** The tail of `readEncodingHeader`: `off = skipSpaces(data, off, inc)` and the test for `?>`. */
  method ReadDeclarationEnd(data: seq<Byte>, offset: int, length: int, asciiOffset: int, inc: int, encoding: JString, from: int)
    returns (r: Result<EncodingReader, Exception>)
    requires inc > 0
    ensures r == Resume(data, offset, length, asciiOffset, inc, encoding, from)
  {
    var off :- SkipSpaces(data, from, inc);
    if data[off] == QUESTION {
      var b2 :- At(data, off + inc);
      if b2 == CLOSE {
        off := off + inc * 2 - asciiOffset;
        return Ok(EncodingReader(encoding, off, length - (off - offset)));
      }
    }
    return Ok(EncodingReader(encoding, offset, length));
  }

  /** `version` Eq and the quote, as the source advances `off`. */
  method ReadVersion(data: seq<Byte>, start: int, inc: int) returns (r: Result<Declaration, Exception>)
    requires inc > 0
    ensures r == ScanVersion(data, start, inc)
  {
    var off := start;
    var isVersion :- Matches(data, off, inc, VERSION);
    if !isVersion {
      return Ok(NoDeclaration);
    }
    off :- SkipSpaces(data, off + 7 * inc, inc);
    r := ReadVersionValue(data, off, inc);
  }

  /** `=`, S? and the opening quote of the version number. */
  method ReadVersionValue(data: seq<Byte>, eq: int, inc: int) returns (r: Result<Declaration, Exception>)
    requires inc > 0 && 0 <= eq < |data|
    ensures r == ScanVersionValue(data, eq, inc)
  {
    if data[eq] != EQUALS {
      return Ok(NoDeclaration);
    }
    var off :- SkipSpaces(data, eq + inc, inc);
    var quoteChar := data[off];
    if !IsQuote(quoteChar) {
      return Ok(NoDeclaration);
    }
    r := ReadVersionNum(data, off, inc, quoteChar);
  }

  /** `1.0`, the closing quote and S, one `data[off += inc]` at a time. */
  method ReadVersionNum(data: seq<Byte>, p: int, inc: int, quoteChar: Byte) returns (r: Result<Declaration, Exception>)
    requires inc > 0
    ensures r == ScanVersionNum(data, p, inc, quoteChar)
  {
    var off := p + inc;
    var b :- At(data, off);
    if b != ONE {
      return Ok(NoDeclaration);
    }
    off := off + inc;
    b :- At(data, off);
    if b != DOT {
      return Ok(NoDeclaration);
    }
    off := off + inc;
    b :- At(data, off);
    if b != ZERO {
      return Ok(NoDeclaration);
    }
    off := off + inc;
    b :- At(data, off);
    if b != quoteChar {
      return Ok(NoDeclaration);
    }
    off := off + inc;
    b :- At(data, off);
    if !IsSpaceMask(b) {
      return Ok(NoDeclaration);
    }
    off :- SkipSpaces(data, off + inc, inc);
    r := ReadEncoding(data, off, inc);
  }

  /** `encoding` Eq, the quote, and the name up to the closing quote. */
  method ReadEncoding(data: seq<Byte>, start: int, inc: int) returns (r: Result<Declaration, Exception>)
    requires inc > 0
    ensures r == ScanEncoding(data, start, inc)
  {
    var off := start;
    var isEncoding :- Matches(data, off, inc, ENCODING);
    if !isEncoding {
      return Ok(NoDeclaration);
    }
    off :- SkipSpaces(data, off + 8 * inc, inc);
    r := ReadEncodingValue(data, off, inc);
  }

  /** `=`, S?, the quote and the name up to the closing quote. */
  method ReadEncodingValue(data: seq<Byte>, eq: int, inc: int) returns (r: Result<Declaration, Exception>)
    requires inc > 0 && 0 <= eq < |data|
    ensures r == ScanEncodingValue(data, eq, inc)
  {
    if data[eq] != EQUALS {
      return Ok(NoDeclaration);
    }
    var off :- SkipSpaces(data, eq + inc, inc);
    var quoteChar := data[off];
    if !IsQuote(quoteChar) {
      return Ok(NoDeclaration);
    }
    var name :- ReadQuoted(data, off + inc, inc, quoteChar);
    r := Ok(Declaration(name.0, name.1));
  }

  /** The name loop, appending to a `StringBuffer`. */
  method ReadQuoted(data: seq<Byte>, pos: int, inc: int, quoteChar: Byte) returns (r: Result<(JString, int), Exception>)
    requires inc > 0
    ensures r == QuotedText(data, pos, inc, quoteChar)
  {
    var buf := new StringBuffer([]);
    var off := pos;
    PrefixedNothing(QuotedText(data, pos, inc, quoteChar));
    while true
      invariant QuotedText(data, pos, inc, quoteChar) == Prefixed(buf.text, QuotedText(data, off, inc, quoteChar))
      decreases |data| - off
    {
      var b :- At(data, off);
      if b == quoteChar {
        assert buf.text + [] == buf.text;
        return Ok((buf.text, off));
      }
      assert QuotedText(data, off, inc, quoteChar) == Prefixed([ByteChar(b)], QuotedText(data, off + inc, inc, quoteChar));
      PrefixedAppend(buf.text, [ByteChar(b)], QuotedText(data, off + inc, inc, quoteChar));
      buf.Append([ByteChar(b)]);
      off := off + inc;
    }
  }

  // ---------------------------------------------------------------- detection

  /** The first four bytes read big-endian, as the bits of the Java `int` mark (unsigned here). */
  function Mark(data: seq<Byte>): (m: int)
    requires |data| >= 4
    ensures 0 <= m < 0x1_0000_0000
  {
    ((data[0] as int * 0x100 + data[1] as int) * 0x100 + data[2] as int) * 0x100 + data[3] as int
  }

  /** `mark >>> 16`: the first two bytes. */
  lemma MarkHigh(data: seq<Byte>)
    requires |data| >= 4
    ensures Mark(data) / 0x1_0000 == data[0] as int * 0x100 + data[1] as int
  {
    var hi := data[0] as int * 0x100 + data[1] as int;
    var lo := data[2] as int * 0x100 + data[3] as int;
    assert Mark(data) == hi * 0x1_0000 + lo && 0 <= lo < 0x1_0000;
  }

  /** The mark names the four bytes: equal marks, equal bytes. */
  lemma MarkBytes(data: seq<Byte>, b0: Byte, b1: Byte, b2: Byte, b3: Byte)
    requires |data| >= 4
    ensures Mark(data) == ((b0 as int * 0x100 + b1 as int) * 0x100 + b2 as int) * 0x100 + b3 as int <==>
      data[0] == b0 && data[1] == b1 && data[2] == b2 && data[3] == b3
  {
  }

  /** `readEncodingHeader` as the `try` block meets it: an index out of range gives the outer default on the whole window. */
  function Header(data: seq<Byte>, offset: int, length: int, asciiOffset: int, inc: int, encoding: JString, defaultEncoding: JString, fixed: bool): (r: EncodingReader)
    requires inc > 0
    ensures r.offset + r.length == offset + length
    ensures !fixed ==> r.offset == offset
    ensures fixed ==> r.offset == offset || r.offset > offset + 9 * inc
  {
    var h := if fixed then HeaderReaderFixed(data, offset, length, asciiOffset, inc, encoding)
      else HeaderReader(data, offset, length, asciiOffset, inc, encoding);
    DeclarationBranchDead(data, offset, length, asciiOffset, inc, encoding);
    if h.Ok? then h.value else EncodingReader(defaultEncoding, offset, length)
  }

  /**
   * `detectEncoding(data, offset, length, defaultEncoding)` on a non-null array, with the
   * UTF-8 fallback reading byte 3 (as written, `fixed` false) or byte 2 (as intended), and the
   * declaration read by `HeaderReader` or `HeaderReaderFixed`.  The mark reads `data[0..4]`
   * whatever `offset` is; an array shorter than four bytes throws there and gets the default.
   */
  function Detect(data: seq<Byte>, offset: int, length: int, defaultEncoding: JString, fixed: bool): (r: EncodingReader)
    ensures r.offset + r.length == offset + length
  {
    if |data| < 4 then EncodingReader(defaultEncoding, offset, length)
    else
      var mark := Mark(data);
      if mark == 0x0000FEFF then EncodingReader(UCS_4_1234, offset + 4, length - 4)
      else if mark == 0xFFFE0000 then EncodingReader(UCS_4_4321, offset + 4, length - 4)
      else if mark == 0x0000FFFE then EncodingReader(UCS_4_2143, offset + 4, length - 4)
      else if mark == 0xFEFF0000 then EncodingReader(UCS_4_3412, offset + 4, length - 4)
      else if mark == 0xFEFF003C then EncodingReader(UTF_16BE, offset + 2, length - 2)
      else if mark == 0xFFFE3C00 then EncodingReader(UTF_16LE, offset + 2, length - 2)
      else if mark == 0xEFBBBF3C then EncodingReader(UTF_8, offset + 3, length - 3)
      else if mark == 0x0000003C then Header(data, offset, length, 3, 4, UCS_4_1234, defaultEncoding, fixed)
      else if mark == 0x3C000000 then Header(data, offset, length, 0, 4, UCS_4_4321, defaultEncoding, fixed)
      else if mark == 0x00003C00 then Header(data, offset, length, 2, 4, UCS_4_2143, defaultEncoding, fixed)
      else if mark == 0x003C0000 then Header(data, offset, length, 1, 4, UCS_4_3412, defaultEncoding, fixed)
      else if mark == 0x003C003F then Header(data, offset, length, 1, 2, UTF_16BE, defaultEncoding, fixed)
      else if mark == 0x3C003F00 then Header(data, offset, length, 0, 2, UTF_16LE, defaultEncoding, fixed)
      else if mark == 0x3C3F786D then Header(data, offset, length, 0, 1, defaultEncoding, defaultEncoding, fixed)
      else if mark == 0x4C6FA794 then EncodingReader(EBCDIC, offset, length)
      else if mark / 0x1_0000 == 0xFEFF then EncodingReader(UTF_16BE, offset + 2, length - 2)
      else if mark / 0x1_0000 == 0xFFFE then EncodingReader(UTF_16LE, offset + 2, length - 2)
      else if mark / 0x1_0000 == 0xEFBB && data[if fixed then 2 else 3] == 0xBF then EncodingReader(UTF_8, offset + 3, length - 3)
      else EncodingReader(defaultEncoding, offset, length)
  }

  /** `detectEncoding(data, offset, length, defaultEncoding)`: a null array throws on `data[0]`. */
  function DetectEncodingIn(data: Option<seq<Byte>>, offset: int, length: int, defaultEncoding: JString): (r: Result<EncodingReader, Exception>)
    ensures data.None? <==> r == Err(NullPointerException)
    ensures r.Ok? ==> r.value.offset + r.value.length == offset + length
  {
    match data
    case None => Err(NullPointerException)
    case Some(d) => Ok(Detect(d, offset, length, defaultEncoding, false))
  }

  /** `detectEncoding(data, defaultEncoding)`: the whole array; a null one throws on `data.length`. */
  function DetectEncoding(data: Option<seq<Byte>>, defaultEncoding: JString): (r: Result<EncodingReader, Exception>)
    ensures data.None? <==> r == Err(NullPointerException)
    ensures r.Ok? ==> r.value.offset + r.value.length == |data.value|
  {
    match data
    case None => Err(NullPointerException)
    case Some(d) => DetectEncodingIn(data, 0, |d|, defaultEncoding)
  }

  /** Fewer than four bytes: the default encoding on the whole window. */
  lemma DetectShortData(data: seq<Byte>, offset: int, length: int, defaultEncoding: JString, fixed: bool)
    requires |data| < 4
    ensures Detect(data, offset, length, defaultEncoding, fixed) == EncodingReader(defaultEncoding, offset, length)
  {
  }

  /** The UCS-4 byte-order marks of appendix F.1 are recognised and skipped. */
  lemma DetectUcs4Marks(data: seq<Byte>, offset: int, length: int, defaultEncoding: JString, fixed: bool)
    requires |data| >= 4
    ensures data[..4] == [0x00, 0x00, 0xFE, 0xFF] ==> Detect(data, offset, length, defaultEncoding, fixed) == EncodingReader(UCS_4_1234, offset + 4, length - 4)
    ensures data[..4] == [0xFF, 0xFE, 0x00, 0x00] ==> Detect(data, offset, length, defaultEncoding, fixed) == EncodingReader(UCS_4_4321, offset + 4, length - 4)
    ensures data[..4] == [0x00, 0x00, 0xFF, 0xFE] ==> Detect(data, offset, length, defaultEncoding, fixed) == EncodingReader(UCS_4_2143, offset + 4, length - 4)
    ensures data[..4] == [0xFE, 0xFF, 0x00, 0x00] ==> Detect(data, offset, length, defaultEncoding, fixed) == EncodingReader(UCS_4_3412, offset + 4, length - 4)
  {
    assert data[..4][0] == data[0] && data[..4][1] == data[1] && data[..4][2] == data[2] && data[..4][3] == data[3];
  }

  /** A UTF-16 byte-order mark not followed by two zero bytes (which would make it UCS-4) is recognised and skipped. */
  lemma DetectUtf16Marks(data: seq<Byte>, offset: int, length: int, defaultEncoding: JString, fixed: bool)
    requires |data| >= 4 && !(data[2] == 0 && data[3] == 0)
    ensures data[0] == 0xFE && data[1] == 0xFF ==> Detect(data, offset, length, defaultEncoding, fixed) == EncodingReader(UTF_16BE, offset + 2, length - 2)
    ensures data[0] == 0xFF && data[1] == 0xFE ==> Detect(data, offset, length, defaultEncoding, fixed) == EncodingReader(UTF_16LE, offset + 2, length - 2)
  {
    MarkHigh(data);
  }

  /** With the fix, a UTF-8 byte-order mark is always recognised and skipped. */
  lemma DetectUtf8Mark(data: seq<Byte>, offset: int, length: int, defaultEncoding: JString)
    requires |data| >= 4 && data[0] == 0xEF && data[1] == 0xBB && data[2] == 0xBF
    ensures Detect(data, offset, length, defaultEncoding, true) == EncodingReader(UTF_8, offset + 3, length - 3)
  {
    MarkHigh(data);
  }

  /**
   * As written, the UTF-8 fallback tests the byte after the mark: `EF BB BF` before anything but
   * `<` keeps the mark and the default encoding, while `EF BB 00 BF` is taken for UTF-8.
   */
  lemma DetectUtf8FallbackAsWritten(defaultEncoding: JString)
    ensures Detect([0xEF, 0xBB, 0xBF, 0x20], 0, 4, defaultEncoding, false) == EncodingReader(defaultEncoding, 0, 4)
    ensures Detect([0xEF, 0xBB, 0xBF, 0x20], 0, 4, defaultEncoding, true) == EncodingReader(UTF_8, 3, 1)
    ensures Detect([0xEF, 0xBB, 0x00, 0xBF], 0, 4, defaultEncoding, false) == EncodingReader(UTF_8, 3, 1)
    ensures Detect([0xEF, 0xBB, 0x00, 0xBF], 0, 4, defaultEncoding, true) == EncodingReader(defaultEncoding, 0, 4)
  {
    MarkHigh([0xEF, 0xBB, 0xBF, 0x20]);
    MarkHigh([0xEF, 0xBB, 0x00, 0xBF]);
  }

  /** With the fix, a reader moved on by two bytes has skipped a UTF-16 byte-order mark and names its encoding. */
  lemma DetectSkipsTwoOnlyForUtf16(data: seq<Byte>, offset: int, length: int, defaultEncoding: JString)
    requires Detect(data, offset, length, defaultEncoding, true).offset == offset + 2
    ensures |data| >= 4
    ensures var r := Detect(data, offset, length, defaultEncoding, true);
      (data[0] == 0xFE && data[1] == 0xFF && r.encoding == UTF_16BE) || (data[0] == 0xFF && data[1] == 0xFE && r.encoding == UTF_16LE)
  {
    var m := Mark(data);
    if m == 0xFEFF003C {
      MarkBytes(data, 0xFE, 0xFF, 0x00, 0x3C);
    } else if m == 0xFFFE3C00 {
      MarkBytes(data, 0xFF, 0xFE, 0x3C, 0x00);
    } else {
      MarkHigh(data);
    }
  }

  /** With the fix, a reader moved on by three bytes has skipped a UTF-8 byte-order mark. */
  lemma DetectSkipsThreeOnlyForUtf8(data: seq<Byte>, offset: int, length: int, defaultEncoding: JString)
    requires Detect(data, offset, length, defaultEncoding, true).offset == offset + 3
    ensures |data| >= 4 && data[0] == 0xEF && data[1] == 0xBB && data[2] == 0xBF
    ensures Detect(data, offset, length, defaultEncoding, true).encoding == UTF_8
  {
    MarkHigh(data);
  }

  /** A reader moved on by four bytes has skipped a UCS-4 byte-order mark: bytes from `00`, `FE` and `FF` only. */
  lemma DetectSkipsFourOnlyForUcs4(data: seq<Byte>, offset: int, length: int, defaultEncoding: JString, fixed: bool)
    requires Detect(data, offset, length, defaultEncoding, fixed).offset == offset + 4
    ensures |data| >= 4 && forall i :: 0 <= i < 4 ==> data[i] == 0x00 || data[i] == 0xFE || data[i] == 0xFF
  {
    var m := Mark(data);
    if m == 0x0000FEFF {
      MarkBytes(data, 0x00, 0x00, 0xFE, 0xFF);
    } else if m == 0xFFFE0000 {
      MarkBytes(data, 0xFF, 0xFE, 0x00, 0x00);
    } else if m == 0x0000FFFE {
      MarkBytes(data, 0x00, 0x00, 0xFF, 0xFE);
    } else if m == 0xFEFF0000 {
      MarkBytes(data, 0xFE, 0xFF, 0x00, 0x00);
    } else {
      MarkHigh(data);
    }
  }

  /** As written, a reader moved on by three bytes need not have met a UTF-8 byte-order mark. */
  lemma DetectSkipsThreeAsWritten(defaultEncoding: JString)
    ensures Detect([0xEF, 0xBB, 0x00, 0xBF], 0, 4, defaultEncoding, false).offset == 3
  {
    DetectUtf8FallbackAsWritten(defaultEncoding);
  }

  // ---------------------------------------------------------------- a declaration read back

  /** At stride 1, `matches` finds a `test` that the data holds at `start`. */
  lemma MatchesUnit(data: seq<Byte>, start: int, test: seq<Byte>)
    requires 0 <= start && start + |test| <= |data| && data[start..start + |test|] == test
    ensures MatchesFrom(data, start, 1, test) == Ok(true)
  {
    forall k | 0 <= k < |test|
      ensures 0 <= Stride(start, 1, k) < |data| && data[Stride(start, 1, k)] == test[k]
    {
      StrideUnit(start, k);
      assert data[start..start + |test|][k] == data[start + k];
    }
    MatchesMeaning(data, start, 1, test);
  }

  /** No space where the skip starts: it stays put. */
  lemma NoSpaceToSkip(data: seq<Byte>, off: int, inc: int)
    requires inc > 0 && 0 <= off < |data| && data[off] !in {0x20, 0x09, 0x0D, 0x0A}
    ensures SpacesEnd(data, off, inc) == Ok(off)
  {
  }

  /** `encoding="name"` at `start`, at stride 1. */
  lemma EncodingRecognised(data: seq<Byte>, start: int, name: seq<Byte>)
    requires 0 <= start && start + 11 + |name| <= |data|
    requires data[start..start + 8] == ENCODING && data[start + 8] == EQUALS && data[start + 9] == QUOTATION
    requires data[start + 10..start + 10 + |name|] == name && QUOTATION !in name && data[start + 10 + |name|] == QUOTATION
    ensures ScanEncoding(data, start, 1) == Ok(Declaration(Widened(name), start + 10 + |name|))
  {
    MatchesUnit(data, start, ENCODING);
    NoSpaceToSkip(data, start + 8, 1);
    NoSpaceToSkip(data, start + 9, 1);
    QuotedTextReads(data, start + 10, QUOTATION, name);
  }

  /** `"1.0" ` before the encoding declaration at `p + 6`, at stride 1. */
  lemma VersionNumRecognised(data: seq<Byte>, p: int)
    requires 0 <= p && p + 7 <= |data|
    requires data[p + 1] == ONE && data[p + 2] == DOT && data[p + 3] == ZERO && data[p + 4] == QUOTATION && data[p + 5] == 0x20
    requires data[p + 6] == ENCODING[0]
    ensures ScanVersionNum(data, p, 1, QUOTATION) == ScanEncoding(data, p + 6, 1)
  {
    NoSpaceToSkip(data, p + 6, 1);
  }

  /** `version="` at `start`, at stride 1. */
  lemma VersionRecognised(data: seq<Byte>, start: int)
    requires 0 <= start && start + 9 <= |data|
    requires data[start..start + 7] == VERSION && data[start + 7] == EQUALS && data[start + 8] == QUOTATION
    ensures ScanVersion(data, start, 1) == ScanVersionNum(data, start + 8, 1, QUOTATION)
  {
    MatchesUnit(data, start, VERSION);
    NoSpaceToSkip(data, start + 7, 1);
    NoSpaceToSkip(data, start + 8, 1);
  }

  /** `<?xml ` at `start`, at stride 1. */
  lemma XmlDeclRecognised(data: seq<Byte>, start: int)
    requires 0 <= start && start + 7 <= |data|
    requires data[start..start + 5] == XMLDECL && data[start + 5] == 0x20 && data[start + 6] == VERSION[0]
    ensures ScanDeclaration(data, start, 1) == ScanVersion(data, start + 6, 1)
  {
    MatchesUnit(data, start, XMLDECL);
    NoSpaceToSkip(data, start + 6, 1);
  }

  /** The bytes `<?xml version="1.0" encoding="` of a declaration in one-byte characters. */
  predicate DeclarationHead(data: seq<Byte>, start: int)
    requires 0 <= start && start + 30 <= |data|
  {
    data[start..start + 5] == XMLDECL && data[start + 5] == 0x20 && data[start + 6..start + 13] == VERSION &&
    data[start + 13] == EQUALS && data[start + 14] == QUOTATION && data[start + 15] == ONE && data[start + 16] == DOT &&
    data[start + 17] == ZERO && data[start + 18] == QUOTATION && data[start + 19] == 0x20 &&
    data[start + 20..start + 28] == ENCODING && data[start + 28] == EQUALS && data[start + 29] == QUOTATION
  }

  /** `<?xml version="1.0" encoding="name"` at `start` is read as a declaration of `name`. */
  lemma DeclarationRecognised(data: seq<Byte>, start: int, name: seq<Byte>)
    requires 0 <= start && start + 31 + |name| <= |data| && DeclarationHead(data, start)
    requires data[start + 30..start + 30 + |name|] == name && QUOTATION !in name && data[start + 30 + |name|] == QUOTATION
    ensures ScanDeclaration(data, start, 1) == Ok(Declaration(Widened(name), start + 30 + |name|))
  {
    assert data[start + 6] == data[start + 6..start + 13][0];
    XmlDeclRecognised(data, start);
    assert data[start + 20] == data[start + 20..start + 28][0];
    VersionRecognised(data, start + 6);
    VersionNumRecognised(data, start + 14);
    EncodingRecognised(data, start + 20, name);
  }

  /** As written, a declaration read at stride 1 keeps the whole window, whatever follows it. */
  lemma HeaderReadsDeclaration(data: seq<Byte>, offset: int, length: int, encoding: JString, q: int, defaultEncoding: JString)
    requires ScanDeclaration(data, offset, 1) == Ok(Declaration(encoding, q))
    ensures HeaderReader(data, offset, length, 0, 1, defaultEncoding) == Ok(EncodingReader(encoding, offset, length))
  {
    NoSpaceToSkip(data, q, 1);
  }

  /** With the fix, a declaration ended by `?>` right after its closing quote moves the reader just past `?>`. */
  lemma HeaderFixedReadsDeclaration(data: seq<Byte>, offset: int, length: int, encoding: JString, q: int, defaultEncoding: JString)
    requires ScanDeclaration(data, offset, 1) == Ok(Declaration(encoding, q))
    requires q + 2 < |data| && data[q + 1] == QUESTION && data[q + 2] == CLOSE
    ensures HeaderReaderFixed(data, offset, length, 0, 1, defaultEncoding) ==
      Ok(EncodingReader(encoding, q + 3, length - (q + 3 - offset)))
  {
    var scan := ScanDeclaration(data, offset, 1);
    assert HeaderReaderFixed(data, offset, length, 0, 1, defaultEncoding) == Placed(scan, data, offset, length, 0, 1, defaultEncoding, 1);
    assert Placed(scan, data, offset, length, 0, 1, defaultEncoding, 1) == Resume(data, offset, length, 0, 1, encoding, q + 1);
    ResumePastQuote(data, offset, length, encoding, q);
  }

  lemma ResumePastQuote(data: seq<Byte>, offset: int, length: int, encoding: JString, q: int)
    requires 0 <= q && q + 2 < |data| && data[q + 1] == QUESTION && data[q + 2] == CLOSE
    ensures Resume(data, offset, length, 0, 1, encoding, q + 1) == Ok(EncodingReader(encoding, q + 3, length - (q + 3 - offset)))
  {
    NoSpaceToSkip(data, q + 1, 1);
  }

  /** A whole array opening with such a declaration: its encoding is detected. */
  lemma DetectReadsDeclaration(data: seq<Byte>, name: seq<Byte>, defaultEncoding: JString)
    requires 33 + |name| <= |data| && DeclarationHead(data, 0)
    requires data[30..30 + |name|] == name && QUOTATION !in name && data[30 + |name|] == QUOTATION
    requires data[31 + |name|] == QUESTION && data[32 + |name|] == CLOSE
    ensures DetectEncoding(Some(data), defaultEncoding) == Ok(EncodingReader(Widened(name), 0, |data|))
    ensures Detect(data, 0, |data|, defaultEncoding, true) == EncodingReader(Widened(name), 33 + |name|, |data| - (33 + |name|))
  {
    DeclarationRecognised(data, 0, name);
    HeaderReadsDeclaration(data, 0, |data|, Widened(name), 30 + |name|, defaultEncoding);
    HeaderFixedReadsDeclaration(data, 0, |data|, Widened(name), 30 + |name|, defaultEncoding);
    assert data[..5] == XMLDECL;
    assert data[0] == 0x3C && data[1] == 0x3F && data[2] == 0x78 && data[3] == 0x6D;
  }
}
