/**
 * `FileUtils`: byte-order-mark (BOM) tests on byte arrays, BOM removal, the XML sniff and
 * file-name normalisation.  A null array is `None`.  Bytes are read unsigned: `data[i] & M` of a
 * sign-extended Java byte has the same low eight bits, and `M` fits in eight bits.
 */
module FileUtils {
  import opened Wrappers
  import opened JStrings

  const UTF_8_BOM_LENGTH: nat := 3
  const UTF_8_BOM_BYTE_0: bv8 := 0xEF
  const UTF_8_BOM_BYTE_1: bv8 := 0xBB
  const UTF_8_BOM_BYTE_2: bv8 := 0xBF
  const UTF_16_BOM_LENGTH: nat := 2
  const UTF_16_BOM_BYTE_0: bv8 := 0xFE
  /** Documented as the second byte of a big-endian UTF-16 BOM, but set to `0xFE`, not `0xFF`. */
  const UTF_16_BOM_BYTE_1: bv8 := 0xFE

  /** The test the source writes for "byte `b` is `m`": every bit of `m` is set in `b`. */
  predicate HasBits(b: Byte, m: bv8) {
    (b as bv8) & m == m
  }

  predicate Utf8Mask(data: seq<Byte>)
    requires |data| >= 3
  {
    HasBits(data[0], UTF_8_BOM_BYTE_0) && HasBits(data[1], UTF_8_BOM_BYTE_1) && HasBits(data[2], UTF_8_BOM_BYTE_2)
  }

  /** Both UTF-16 branches of the source; with the two constants equal they test the same bits. */
  predicate Utf16Mask(data: seq<Byte>)
    requires |data| >= 2
  {
    (HasBits(data[0], UTF_16_BOM_BYTE_0) && HasBits(data[1], UTF_16_BOM_BYTE_1)) ||
    (HasBits(data[0], UTF_16_BOM_BYTE_1) && HasBits(data[1], UTF_16_BOM_BYTE_0))
  }

  /** `findFirstByte(data)` as written: 3 past a UTF-8 mask match, 2 past a UTF-16 one, else 0. */
  function FindFirstByte(data: Option<seq<Byte>>): (r: nat)
    ensures r == 0 || r == 2 || r == 3
    ensures r > 0 ==> data.Some? && |data.value| > UTF_8_BOM_LENGTH && r < |data.value|
  {
    if data.Some? && |data.value| > UTF_8_BOM_LENGTH then
      if Utf8Mask(data.value) then UTF_8_BOM_LENGTH
      else if Utf16Mask(data.value) then UTF_16_BOM_LENGTH
      else 0
    else 0
  }

  /** The documented -1 never happens (the result is a `nat`); null and short arrays give 0. */
  lemma FindFirstByteRange(data: Option<seq<Byte>>)
    ensures data.None? || |data.value| <= 3 ==> FindFirstByte(data) == 0
  {
  }

  /** The two UTF-16 branches of the source test the same thing: both bytes have the bits of `0xFE`. */
  lemma Utf16BranchesCoincide(data: seq<Byte>)
    requires |data| >= 2
    ensures Utf16Mask(data) <==> HasBits(data[0], 0xFE) && HasBits(data[1], 0xFE)
  {
  }

  /** The mask test also accepts bytes that are no BOM: `FF FF FF` passes as a UTF-8 BOM. */
  lemma MaskAcceptsNonBom()
    ensures FindFirstByte(Some([0xFF, 0xFF, 0xFF, 0x41])) == 3
    ensures FindFirstByte(Some([0xFF, 0xFE, 0x41, 0x42])) == 2
    ensures FindFirstByte(Some([0xFE, 0xFF, 0x41, 0x42])) == 2
  {
  }

  /** `findFirstByte` with the evident intent: equality with `EF BB BF`, `FE FF` or `FF FE`. */
  function FindFirstByteExact(data: Option<seq<Byte>>): (r: nat)
    ensures r == 0 || r == 2 || r == 3
    ensures r == 3 <==> data.Some? && |data.value| > 3 && data.value[..3] == [0xEF, 0xBB, 0xBF]
    ensures r == 2 <==> data.Some? && |data.value| > 3 && (data.value[..2] == [0xFE, 0xFF] || data.value[..2] == [0xFF, 0xFE])
  {
    if data.Some? && |data.value| > UTF_8_BOM_LENGTH then
      var d := data.value;
      if d[0] == 0xEF && d[1] == 0xBB && d[2] == 0xBF then UTF_8_BOM_LENGTH
      else if (d[0] == 0xFE && d[1] == 0xFF) || (d[0] == 0xFF && d[1] == 0xFE) then UTF_16_BOM_LENGTH
      else 0
    else 0
  }

  /** On a genuine BOM the mask test agrees with the intended one; it differs only on other bytes. */
  lemma MaskAgreesOnBoms(data: Option<seq<Byte>>)
    requires FindFirstByteExact(data) != 0
    ensures FindFirstByte(data) == FindFirstByteExact(data)
  {
  }

  /**
   * `removeByteOrderMark(data)`: a null or empty array comes back as it is; any other array is
   * copied from `findFirstByte(data)` on into a fresh array.
   */
  method RemoveByteOrderMark(data: array?<Byte>) returns (r: array?<Byte>)
    ensures data == null || data.Length == 0 ==> r == data
    ensures data != null && data.Length > 0 ==>
      fresh(r) && r[..] == data[FindFirstByte(Some(data[..]))..]
  {
    if data == null || data.Length <= 0 {
      return data;
    }
    var index := FindFirstByte(Some(data[..]));
    var rest := data[index..];
    r := new Byte[data.Length - index](i requires 0 <= i < |rest| => rest[i]);
    assert r[..] == rest;
  }

  /** The content `removeByteOrderMark` keeps: what follows the BOM the source detects. */
  function WithoutBom(data: seq<Byte>): (r: seq<Byte>)
    ensures |data| > 3 && Utf8Mask(data) ==> r == data[3..]
    ensures |data| > 3 && !Utf8Mask(data) && Utf16Mask(data) ==> r == data[2..]
    ensures |data| <= 3 || (!Utf8Mask(data) && !Utf16Mask(data)) ==> r == data
  {
    data[FindFirstByte(Some(data))..]
  }

  /** Removing the BOM keeps a suffix of the data. */
  lemma WithoutBomSuffix(data: seq<Byte>)
    ensures |WithoutBom(data)| <= |data| && WithoutBom(data) == data[|data| - |WithoutBom(data)|..]
  {
  }

  /** `isXML(data)`: the bytes after the BOM start `<?xml`; a null array throws in `data.length`. */
  function IsXML(data: Option<seq<Byte>>): (r: Result<bool, Exception>)
    ensures data.None? <==> r == Err(NullPointerException)
    ensures data.Some? ==> r.Ok? && (r.value <==>
      var i := FindFirstByte(data);
      |data.value| > i + 4 && data.value[i..i + 5] == [0x3C, 0x3F, 0x78, 0x6D, 0x6C])
  {
    if data.None? then Err(NullPointerException)
    else
      var d := data.value;
      var index := FindFirstByte(data);
      if index >= 0 && |d| > index + 4 then
        XmlPrefixBytes(d, index);
        Ok(d[index] == 0x3C && d[index + 1] == 0x3F && d[index + 2] == 0x78 && d[index + 3] == 0x6D && d[index + 4] == 0x6C)
      else Ok(false)
  }

  /** The five bytes at `i` spell `<?xml` exactly when each of them matches. */
  lemma XmlPrefixBytes(d: seq<Byte>, i: nat)
    requires i + 5 <= |d|
    ensures d[i..i + 5] == [0x3C, 0x3F, 0x78, 0x6D, 0x6C] <==>
      d[i] == 0x3C && d[i + 1] == 0x3F && d[i + 2] == 0x78 && d[i + 3] == 0x6D && d[i + 4] == 0x6C
  {
    assert d[i..i + 5] == [d[i], d[i + 1], d[i + 2], d[i + 3], d[i + 4]];
  }

  /** A UTF-8 BOM followed by `<?xml` is XML; so is `<?xml` at the very start. */
  lemma IsXMLExamples()
    ensures IsXML(Some([0xEF, 0xBB, 0xBF, 0x3C, 0x3F, 0x78, 0x6D, 0x6C])) == Ok(true)
    ensures IsXML(Some([0x3C, 0x3F, 0x78, 0x6D, 0x6C])) == Ok(true)
    ensures IsXML(Some([0x3C, 0x3F, 0x78, 0x6D])) == Ok(false)
  {
  }

  datatype Encoding = UTF8 | UTF16

  /** `getEncodingFromByteOrderMark(data)`: the UTF-16 branches also demand a non-zero third byte. */
  function EncodingFromByteOrderMark(data: Option<seq<Byte>>): (r: Option<Encoding>)
    ensures r.Some? ==> data.Some? && |data.value| > 3
    ensures r == Some(UTF8) <==> data.Some? && |data.value| > 3 && Utf8Mask(data.value)
    ensures r == Some(UTF16) <==> data.Some? && |data.value| > 3 && !Utf8Mask(data.value) && Utf16Mask(data.value) && data.value[2] != 0
  {
    if data.Some? && |data.value| > UTF_8_BOM_LENGTH then
      var d := data.value;
      if Utf8Mask(d) then Some(UTF8)
      else if HasBits(d[0], UTF_16_BOM_BYTE_0) && HasBits(d[1], UTF_16_BOM_BYTE_1) && d[2] != 0 then Some(UTF16)
      else if HasBits(d[0], UTF_16_BOM_BYTE_1) && HasBits(d[1], UTF_16_BOM_BYTE_0) && d[2] != 0 then Some(UTF16)
      else None
    else None
  }

  /** An encoding is reported only where `findFirstByte` skips a BOM; the converse fails on a zero third byte. */
  lemma EncodingImpliesBom(data: Option<seq<Byte>>)
    ensures EncodingFromByteOrderMark(data) == Some(UTF8) <==> FindFirstByte(data) == 3
    ensures EncodingFromByteOrderMark(data) == Some(UTF16) ==> FindFirstByte(data) == 2
    ensures EncodingFromByteOrderMark(Some([0xFE, 0xFF, 0x00, 0x41])) == None
    ensures FindFirstByte(Some([0xFE, 0xFF, 0x00, 0x41])) == 2
  {
  }

  /** The chars `normalizeFileName` replaces: `/:,;*?^%"{}<>|` and the `\s` whitespace chars. */
  predicate IsForbiddenInFileName(c: JChar) {
    c in Lit("/:,;*?^%\"{}<>|") || c == 0x20 || c == 0x09 || c == 0x0A || c == 0x0B || c == 0x0C || c == 0x0D
  }

  const UNDERSCORE: JChar := '_' as JChar

  /** `normalizeFileName(fileName)`: each forbidden char becomes `_`; a null name throws. */
  function NormalizeFileName(fileName: Option<JString>): (r: Result<JString, Exception>)
    ensures fileName.None? <==> r == Err(NullPointerException)
    ensures fileName.Some? ==> r.Ok? && |r.value| == |fileName.value|
  {
    match fileName
    case None => Err(NullPointerException)
    case Some(s) => Ok(seq(|s|, i requires 0 <= i < |s| => if IsForbiddenInFileName(s[i]) then UNDERSCORE else s[i]))
  }

  /** Forbidden chars become `_`, all others (the backslash included) stay, and the result is free of forbidden chars. */
  lemma NormalizeFileNameMeaning(s: JString)
    ensures var r := NormalizeFileName(Some(s)).value;
      (forall i :: 0 <= i < |s| ==> (r[i] == if IsForbiddenInFileName(s[i]) then UNDERSCORE else s[i])) &&
      (forall i :: 0 <= i < |r| ==> !IsForbiddenInFileName(r[i]))
    ensures !IsForbiddenInFileName('\\' as JChar)
  {
  }

  /** Normalising twice changes nothing more. */
  lemma NormalizeFileNameIdempotent(s: JString)
    ensures NormalizeFileName(Some(NormalizeFileName(Some(s)).value)) == NormalizeFileName(Some(s))
  {
    var r := NormalizeFileName(Some(s)).value;
    NormalizeFileNameMeaning(s);
    NormalizeFileNameMeaning(r);
    assert NormalizeFileName(Some(r)).value == r;
  }
}
