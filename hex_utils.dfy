/**
 * `HexUtils`: bytes to hexadecimal text (two digits per byte, high nibble first) and back.
 * Bytes are read unsigned here; `(data >>> 4) & 0x0F` of a sign-extended byte is its high nibble.
 */
module HexUtils {
  import opened Wrappers
  import opened JStrings

  /** `toHexChar(i)`: `'0' + i` for 0..9, otherwise `(char)('a' + (i - 10))`, cut to 16 bits. */
  function ToHexChar(i: int): JChar {
    if 0 <= i <= 9 then ('0' as int + i) as JChar else ((87 + i) % 0x1_0000) as JChar
  }

  /** On a nibble, `toHexChar` is the lower-case hex digit of that value. */
  lemma ToHexCharOfNibble(i: int)
    requires 0 <= i < 16
    ensures ToHexChar(i) == LowerHexDigit(i)
    ensures IsHexDigit(ToHexChar(i)) && HexValue(ToHexChar(i)) == i && !IsAsciiUpper(ToHexChar(i))
  {
  }

  /** `byteToHex(b)`: the two lower-case digits of `b`. */
  function ByteToHex(b: Byte): (r: JString)
    ensures |r| == 2
  {
    [ToHexChar(b as int / 16), ToHexChar(b as int % 16)]
  }

  /** The digits `bytesToHex` emits for one byte: `byteToHex(b).toUpperCase()`. */
  function UpperByteToHex(b: Byte): (r: JString)
    ensures |r| == 2
  {
    UpperAscii(ByteToHex(b))
  }

  /** The text of `bytesToHex(data)`. */
  function HexOf(data: seq<Byte>): (r: JString)
    ensures |r| == 2 * |data|
  {
    if |data| == 0 then [] else UpperByteToHex(data[0]) + HexOf(data[1..])
  }

  lemma {:induction false} HexOfSnoc(data: seq<Byte>, b: Byte)
    ensures HexOf(data + [b]) == HexOf(data) + UpperByteToHex(b)
  {
    if |data| > 0 {
      assert (data + [b])[1..] == data[1..] + [b];
      HexOfSnoc(data[1..], b);
    } else {
      assert data + [b] == [b];
    }
  }

  /** `bytesToHex(data)`: the loop appends the upper-cased pair of each byte; a null array throws. */
  method BytesToHex(data: Option<seq<Byte>>) returns (r: Result<JString, Exception>)
    ensures data.None? ==> r == Err(NullPointerException)
    ensures data.Some? ==> r == Ok(HexOf(data.value))
  {
    if data.None? {
      return Err(NullPointerException);
    }
    var bytes := data.value;
    var buf := new StringBuffer([]);
    var i := 0;
    while i < |bytes|
      invariant 0 <= i <= |bytes|
      invariant buf.text == HexOf(bytes[..i])
    {
      buf.Append(UpperAscii(ByteToHex(bytes[i])));
      HexOfSnoc(bytes[..i], bytes[i]);
      assert bytes[..i + 1] == bytes[..i] + [bytes[i]];
      i := i + 1;
    }
    assert bytes[..i] == bytes;
    r := Ok(buf.text);
  }

  /** Each byte gives two upper-case hex digits, high nibble first. */
  lemma {:induction false} HexOfDigits(data: seq<Byte>, i: nat)
    requires i < |data|
    ensures var r := HexOf(data);
      IsHexDigit(r[2 * i]) && IsHexDigit(r[2 * i + 1]) && !IsAsciiLower(r[2 * i]) && !IsAsciiLower(r[2 * i + 1]) &&
      HexValue(r[2 * i]) == data[i] as int / 16 && HexValue(r[2 * i + 1]) == data[i] as int % 16
  {
    ToHexCharOfNibble(data[i] as int / 16);
    ToHexCharOfNibble(data[i] as int % 16);
    if i > 0 {
      HexOfDigits(data[1..], i - 1);
      assert HexOf(data)[2..] == HexOf(data[1..]);
    }
  }

  /**
   * `parseByte(hex)`: null throws IllegalArgumentException, `""` is 0; otherwise
   * `Integer.decode("0x" + hex)` must read hex digits only (a sign is refused) and the value must be
   * at most 255, or NumberFormatException is thrown.
   */
  function ParseByte(hex: Option<JString>): (r: Result<Byte, Exception>)
    ensures hex.None? <==> r == Err(IllegalArgumentException)
    ensures r.Err? ==> r.error == IllegalArgumentException || r.error == NumberFormatException
  {
    match hex
    case None => Err(IllegalArgumentException)
    case Some(h) =>
      if |h| == 0 then Ok(0)
      else if !(forall i :: 0 <= i < |h| ==> IsHexDigit(h[i])) then Err(NumberFormatException)
      else if HexNumber(h) > 255 then Err(NumberFormatException)
      else Ok(HexNumber(h) as Byte)
  }

  /** The bytes of an even-length text, pair by pair. */
  function ParsePairs(s: JString): Result<seq<Byte>, Exception>
    requires |s| % 2 == 0
  {
    if |s| == 0 then Ok([])
    else
      match ParseByte(Some(s[..2]))
      case Err(e) => Err(e)
      case Ok(b) =>
        match ParsePairs(s[2..])
        case Err(e) => Err(e)
        case Ok(rest) => Ok([b] + rest)
  }

  /** What `parseSeq(hexStr)` returns: null for null or `""`, NumberFormatException for an odd length. */
  function ParseSeq(hexStr: Option<JString>): Result<Option<seq<Byte>>, Exception> {
    if hexStr.None? || |hexStr.value| == 0 then Ok(None)
    else if |hexStr.value| % 2 != 0 then Err(NumberFormatException)
    else
      match ParsePairs(hexStr.value)
      case Err(e) => Err(e)
      case Ok(bytes) => Ok(Some(bytes))
  }

  /** Parsing splits at any even position. */
  lemma {:induction false} ParsePairsAppend(p: JString, q: JString)
    requires |p| % 2 == 0 && |q| % 2 == 0 && ParsePairs(p).Ok?
    ensures ParsePairs(p + q) == if ParsePairs(q).Err? then ParsePairs(q) else Ok(ParsePairs(p).value + ParsePairs(q).value)
    decreases |p|
  {
    if |p| == 0 {
      assert p + q == q;
      if ParsePairs(q).Ok? {
        assert [] + ParsePairs(q).value == ParsePairs(q).value;
      }
    } else {
      assert (p + q)[..2] == p[..2];
      assert (p + q)[2..] == p[2..] + q;
      ParsePairsAppend(p[2..], q);
      if ParsePairs(q).Ok? {
        var b := ParseByte(Some(p[..2])).value;
        assert [b] + (ParsePairs(p[2..]).value + ParsePairs(q).value) == ([b] + ParsePairs(p[2..]).value) + ParsePairs(q).value;
      }
    }
  }

  /** `parseSeq`: the loop parses the pairs in order and stops at the first that fails. */
  method ParseSeqLoop(hexStr: Option<JString>) returns (r: Result<Option<seq<Byte>>, Exception>)
    ensures r == ParseSeq(hexStr)
  {
    if hexStr.None? || |hexStr.value| == 0 {
      return Ok(None);
    }
    var s := hexStr.value;
    if |s| % 2 != 0 {
      return Err(NumberFormatException);
    }
    var numOfOctets := |s| / 2;
    var bytes := new Byte[numOfOctets];
    var i := 0;
    while i < numOfOctets
      invariant 0 <= i <= numOfOctets
      invariant ParsePairs(s[..2 * i]) == Ok(bytes[..i])
    {
      var hex := s[2 * i..2 * i + 2];
      var b := ParseByte(Some(hex));
      assert hex[..2] == hex && hex[2..] == [];
      if b.Err? {
        var rest := s[2 * i..];
        assert s == s[..2 * i] + rest;
        assert rest[..2] == hex;
        assert ParsePairs(rest) == Err(b.error);
        ParsePairsAppend(s[..2 * i], rest);
        return Err(b.error);
      }
      assert ParsePairs(hex[2..]) == Ok([]);
      assert [b.value] + [] == [b.value];
      assert ParsePairs(hex) == Ok([b.value]);
      assert s[..2 * (i + 1)] == s[..2 * i] + hex;
      ParsePairsAppend(s[..2 * i], hex);
      ghost var done := bytes[..i];
      bytes[i] := b.value;
      assert bytes[..i + 1] == done + [b.value];
      i := i + 1;
    }
    assert s[..2 * i] == s && bytes[..i] == bytes[..];
    r := Ok(Some(bytes[..]));
  }

  /** Upper-casing keeps a hex digit's value. */
  lemma UpperHexDigit(c: JChar)
    requires IsHexDigit(c)
    ensures IsHexDigit(ToUpperAscii(c)) && HexValue(ToUpperAscii(c)) == HexValue(c)
  {
  }

  /** The two digits `bytesToHex` writes for a byte read back as that byte. */
  lemma ParseByteOfHex(b: Byte)
    ensures ParseByte(Some(UpperByteToHex(b))) == Ok(b)
  {
    var h := UpperByteToHex(b);
    ToHexCharOfNibble(b as int / 16);
    ToHexCharOfNibble(b as int % 16);
    UpperHexDigit(ToHexChar(b as int / 16));
    UpperHexDigit(ToHexChar(b as int % 16));
    assert h[..1][..0] == [];
    assert h[..|h| - 1] == h[..1];
    assert HexNumber(h[..1]) == HexValue(h[0]);
    assert HexNumber(h) == HexValue(h[0]) * 16 + HexValue(h[1]);
  }

  /** `parseSeq(bytesToHex(data))` gives `data` back for every non-empty array. */
  lemma {:induction false} HexRoundTrip(data: seq<Byte>)
    requires |data| > 0
    ensures ParseSeq(Some(HexOf(data))) == Ok(Some(data))
  {
    PairsRoundTrip(data);
  }

  lemma {:induction false} PairsRoundTrip(data: seq<Byte>)
    ensures ParsePairs(HexOf(data)) == Ok(data)
  {
    if |data| > 0 {
      var h := HexOf(data);
      assert h[..2] == UpperByteToHex(data[0]);
      assert h[2..] == HexOf(data[1..]);
      ParseByteOfHex(data[0]);
      PairsRoundTrip(data[1..]);
      assert [data[0]] + data[1..] == data;
    }
  }

  /** `parseSeq` of text that is not hex, such as a sign, or of odd length fails with NumberFormatException. */
  lemma SignIsRefused()
    ensures ParseSeq(Some(Lit("-1"))) == Err(NumberFormatException)
    ensures ParseSeq(Some(Lit("1"))) == Err(NumberFormatException)
  {
    var s := Lit("-1");
    assert s[..2] == s && !IsHexDigit(s[0]);
  }

  /** The documented `parseSeq("ff0A")` gives the bytes 255 and 10. */
  lemma ParseSeqExample()
    ensures ParseSeq(Some(Lit("ff0A"))) == Ok(Some([255, 10]))
  {
    var s := Lit("ff0A");
    assert s[..2] == Lit("ff") && s[2..] == Lit("0A");
    ParseByteFF();
    ParsePairs0A();
    assert [255 as Byte] + [10] == [255, 10];
  }

  lemma ParseByteFF()
    ensures ParseByte(Some(Lit("ff"))) == Ok(255)
  {
    assert Lit("ff")[..1] == Lit("f") && Lit("f")[..0] == [];
    assert HexNumber(Lit("ff")) == 255;
  }

  lemma ParsePairs0A()
    ensures ParsePairs(Lit("0A")) == Ok([10])
  {
    assert Lit("0A")[..1] == Lit("0") && Lit("0")[..0] == [];
    assert HexNumber(Lit("0A")) == 10;
    assert Lit("0A")[..2] == Lit("0A") && Lit("0A")[2..] == [];
    assert ParsePairs(Lit("0A")[2..]) == Ok([]);
    assert [10 as Byte] + [] == [10];
  }
}
