# commons-tools, modelled in Dafny

This project models the deterministic core of a Java utility library used to sanitise rich text.
Its parts are:

- the forgiving HTML pull parser `HtmlParser` (tokens, the open-element stack, character
  references and the HTML 4.01 entity table);
- the CSS declaration parser `CSSStyleParser` and its helpers in `CSSUtils` (the colour table,
  string escaping and background-colour extraction);
- the codecs:
  - the streaming Base64 encoder and decoder (`Base64OutputStream`, `Base64InputStream`) and the
    one-shot `BASE64Encoder`, all following section 4 of RFC 4648;
  - the XML escapers, the unescaper and encoding detection in `XMLUtils`, following section 2.2 and
    appendix F.1 of XML 1.0;
  - `HexUtils`;
  - the byte-order-mark tests of `FileUtils`;
- the small utilities:
  - `StringUtils`;
  - the null-safe, array and composite comparators;
  - wildcard-to-regex conversion, pagination, query-parameter appending and signed-int parsing;
  - static-server selection;
  - the annotation index;
  - short class names;
  - the XML-configuration path stack;
  - the mutable request wrapper;
  - the Ant-style resource scanner.

A Java `char` is a UTF-16 code unit (`JStrings.JChar`) and a `String` is a sequence of them.
`null` is `Option.None`. An exception the source throws is `Result.Err`, with the exception's
kind as the error. Where the source mutates an object, the model is a class whose methods are
proved against a function on its state. Properties that relate several calls are stated as
lemmas about those functions.

The file system, jar files, the streams wrapped by the Base64 filters and the visitor of the
resource scanner become parameters or values: a tree of nodes, a list of jar entries, a byte
sequence for the source, a byte sequence for the sink, and `isDone`/`convertObject` functions.
Java's `String.matches` is a parameter. The caller's element comparators and `equals` are
parameters too.

## Model

| member | source | states |
|---|---|---|
| MathUtil.ParseSignedIntString | src/main/java/com/development/commons/tools/util/math/MathUtil.java:99-117 | a null input throws, and every parsed value lies in the 32-bit `int` range |
| MathUtil.BlankGivesZero | src/main/java/com/development/commons/tools/util/math/MathUtil.java:100-104 | empty or blank text gives 0 |
| MathUtil.ReadsBackDecimal | src/main/java/com/development/commons/tools/util/math/MathUtil.java:99-117 | any integer written in decimal, with an optional `+` and blanks around it, is read back when it fits in an `int` and gives 0 when it does not |
| MathUtil.TrimOfPadded | src/main/java/com/development/commons/tools/util/math/MathUtil.java:100 | `trim` removes exactly the blanks around a core that neither starts nor ends with a blank |
| MathUtil.PlusMinus | src/main/java/com/development/commons/tools/util/math/MathUtil.java:105-111 | `+-5` gives -5, because `parseInt` accepts the `-` left after the `+` is dropped |
| MathUtil.Unparsable | src/main/java/com/development/commons/tools/util/math/MathUtil.java:106-116 | text that is not a number, or a `+` alone, gives 0 |
| UrlUtils.AppendQueryParam | src/main/java/com/development/commons/tools/UrlUtils.java:100-110 | a non-null builder gets the separator, the name, `=` and the value appended (`null` for a null part); a null builder is left alone |
| UrlUtils.AppendQueryParamToUrl | src/main/java/com/development/commons/tools/UrlUtils.java:62-70 | the result is the URL (empty when null) followed by the same appended parameter |
| UrlUtils.SeparatorMeaning | src/main/java/com/development/commons/tools/UrlUtils.java:103-107 | the separator is `&` exactly when the URL holds a `?` and does not start with one, and `?` otherwise |
| UrlUtils.LeadingQuestionMark | src/main/java/com/development/commons/tools/UrlUtils.java:103 | a URL starting with `?` gets a second `?` |
| UrlUtils.ExistingQuery | src/main/java/com/development/commons/tools/UrlUtils.java:103-104 | a URL with an existing query gets `&` |
| CommonUtils.Clamp | src/main/java/com/development/commons/utility/CommonUtils.java:27-37 | a count is clamped to `[0, hi]`, the number of items a loop that stops at the end actually reaches |
| CommonUtils.Pagination | src/main/java/com/development/commons/utility/CommonUtils.java:24-39 | a null list throws a null-pointer exception; otherwise the first `skip` items are removed from the list itself and the result is the next `top` items, in order |
| CommonUtils.NonPositiveCounts | src/main/java/com/development/commons/utility/CommonUtils.java:27-37 | `skip <= 0` removes nothing and `top <= 0` gives an empty page |
| CommonUtils.PageContents | src/main/java/com/development/commons/utility/CommonUtils.java:34-37 | the page holds min(top, remaining) items, each the item `skip` places further on |
| CommonUtils.ConsecutivePages | src/main/java/com/development/commons/utility/CommonUtils.java:24-39 | two consecutive pages together are the page of their combined size |
| RegexUtils.Compile | src/main/java/com/development/commons/utility/RegularExpressionUtils.java:15-35 | the pattern is read char by char, one regex atom per char |
| RegexUtils.WildcardToRegexp | src/main/java/com/development/commons/utility/RegularExpressionUtils.java:12-38 | a null pattern throws a null-pointer exception; otherwise the result is `^`, the rendered atoms of the pattern, then `$` |
| RegexUtils.TranslateChar | src/main/java/com/development/commons/utility/RegularExpressionUtils.java:16-34 | one pattern char adds the text of its atom |
| RegexUtils.IsEscapeChar | src/main/java/com/development/commons/utility/RegularExpressionUtils.java:18-24 | the inner loop finds the char exactly when it is in `ESCAPES` |
| RegexUtils.RenderCompileSnoc | src/main/java/com/development/commons/utility/RegularExpressionUtils.java:15-35 | each round of the outer loop extends the regex by the next char's atom |
| RegexUtils.ReadRender | src/main/java/com/development/commons/utility/RegularExpressionUtils.java:12-38 | the generated regex is unambiguous: reading it back gives the atoms it was made from |
| RegexUtils.RegexReadsBack | src/main/java/com/development/commons/utility/RegularExpressionUtils.java:12-38 | the regex of any wildcard reads back as that wildcard's atoms |
| RegexUtils.EscapedChars | src/main/java/com/development/commons/utility/RegularExpressionUtils.java:13-33 | each escape char gets one backslash, `}` gets none, and `*`/`?` become `.*`/`.?` |
| RegexUtils.AnyRunSkips | src/main/java/com/development/commons/utility/RegularExpressionUtils.java:27-28 | `.*` matches any text without line terminators in front of a match of the rest |
| RegexUtils.QuestionIsZeroOrOne | src/main/java/com/development/commons/utility/RegularExpressionUtils.java:29-30 | `?` matches zero or one char: `ab` and `b` match `?b`, `aab` does not |
| RegexUtils.JobInformation | src/main/java/com/development/commons/utility/RegularExpressionUtils.java:6-7 | `job information` matches the regex of `*job*` |
| ClassUtils.GetShortClassName | src/main/java/com/development/commons/tools/xi/util/ClassUtils.java:83-92 | a null name throws a null-pointer exception from `matcher`; otherwise the result is a suffix of the name, the third group of `((.*)\.)?([^.]+)` when it matches, and the whole name when it does not |
| ClassUtils.LastDot | src/main/java/com/development/commons/tools/xi/util/ClassUtils.java:85 | the index of the last `.`, or -1 when there is none |
| ClassUtils.ShortNameIsSuffix | src/main/java/com/development/commons/tools/xi/util/ClassUtils.java:83-92 | the short name is always a suffix of the input |
| ClassUtils.ShortNameWithoutDot | src/main/java/com/development/commons/tools/xi/util/ClassUtils.java:83-92 | a name with no `.`, the empty name included, is returned whole |
| ClassUtils.ShortNameTrailingDot | src/main/java/com/development/commons/tools/xi/util/ClassUtils.java:86-88 | a name ending in `.` does not match, so it is returned unchanged |
| ClassUtils.ShortNameIsRegexGroup | src/main/java/com/development/commons/tools/xi/util/ClassUtils.java:85-91 | when `((.*)\.)?([^.]+)` matches, the result is its third group |
| ClassUtils.NoMatchGivesInput | src/main/java/com/development/commons/tools/xi/util/ClassUtils.java:86-88 | when the pattern does not match, the input comes back |
| ClassUtils.ShortNameAfterLastDot | src/main/java/com/development/commons/tools/xi/util/ClassUtils.java:83-92 | a shortened name is the non-empty text after the last `.` |
| ClassUtils.Example | src/main/java/com/development/commons/tools/xi/util/ClassUtils.java:77 | `com.foo.FooClass` gives `FooClass` |
| StaticContent.ConfiguredServers | src/main/java/com/development/commons/tools/StaticContent.java:39-62 | no server list for a missing property or an empty split; otherwise a non-empty list |
| StaticContent.NormaliseServers | src/main/java/com/development/commons/tools/StaticContent.java:51-59 | each entry of the split array is replaced in place by its trimmed form minus one trailing `/` |
| StaticContent.LoadServers | src/main/java/com/development/commons/tools/StaticContent.java:39-62 | the static initialiser yields the server list of the property's value |
| StaticContent.HashCode | src/main/java/com/development/commons/tools/StaticContent.java:91 | `String.hashCode` stays in the 32-bit `int` range |
| StaticContent.HashIsWrappedPolynomial | src/main/java/com/development/commons/tools/StaticContent.java:91 | the hash is the 31-polynomial of the chars wrapped once to 32 bits |
| StaticContent.Mask31 | src/main/java/com/development/commons/tools/StaticContent.java:89-91 | `h & 0x7fffffff` is a non-negative value below 2^31 |
| StaticContent.ServerForCases | src/main/java/com/development/commons/tools/StaticContent.java:77-92 | `""` without servers or for a url that is not a `/` path; otherwise one of the configured servers, chosen by the url alone |
| StaticContent.UrlForIsConcatenation | src/main/java/com/development/commons/tools/StaticContent.java:109-116 | `urlFor(url)` is `serverFor(url) + url`, and null for a null url |
| StaticContent.EntryEndsWithSlash | src/main/java/com/development/commons/tools/StaticContent.java:54-56 | a normalised entry ends with `/` exactly when the trimmed entry ended with `//` |
| StaticContent.DoubleSlashEntry | src/main/java/com/development/commons/tools/StaticContent.java:54-56 | `http://a//` is configured as `http://a/` |
| StaticContent.SplitCases | src/main/java/com/development/commons/tools/StaticContent.java:44-47 | a property of commas only configures no server; text without a comma is one server |
| StaticContent.RootGoesToSecond | src/main/java/com/development/commons/tools/StaticContent.java:89-91 | the url `/` hashes to 47, so with two servers it goes to the second |
| NullSafeComparator.Sign | src/main/java/com/development/commons/tools/comparator/AbstractNullSafeComparator.java:54-94 | the sign of a comparison result |
| NullSafeComparator.NullOrdering | src/main/java/com/development/commons/tools/comparator/AbstractNullSafeComparator.java:54-94 | two non-null arguments go to `compareNonNull`; nulls sort first, last or throw as the mode says; two nulls are equal under the sorting modes |
| NullSafeComparator.Antisymmetric | src/main/java/com/development/commons/tools/comparator/AbstractNullSafeComparator.java:54-94 | an antisymmetric `compareNonNull` gives an antisymmetric `compare` under either sorting mode |
| NullSafeComparator.SortingModesNeverThrow | src/main/java/com/development/commons/tools/comparator/AbstractNullSafeComparator.java:54-94 | a total `compareNonNull` makes `compare` total under either sorting mode |
| ArrayComparator.CompareNonNull | src/main/java/com/development/commons/tools/comparator/ArrayComparator.java:33-57 | the loop skips equal elements, then the lengths or the element comparator decide |
| ArrayComparator.Compare | src/main/java/com/development/commons/tools/comparator/AbstractNullSafeComparator.java:54-94 | null arrays sort first, non-null arrays go to `compareNonNull` |
| ArrayComparator.SkipEqual | src/main/java/com/development/commons/tools/comparator/ArrayComparator.java:34-38 | skipping an equal stretch does not change the outcome |
| ArrayComparator.FirstDifference | src/main/java/com/development/commons/tools/comparator/ArrayComparator.java:55-56 | at the first index where the arrays differ the element comparator decides |
| ArrayComparator.PrefixOrder | src/main/java/com/development/commons/tools/comparator/ArrayComparator.java:40-53 | a proper prefix sorts first, a longer array after, equal arrays compare equal |
| ArrayComparator.NullElementThrows | src/main/java/com/development/commons/tools/comparator/ArrayComparator.java:36 | a null element of the first array reached by the loop throws from `equals` |
| ArrayComparator.Reflexive | src/main/java/com/development/commons/tools/comparator/ArrayComparator.java:33-57 | an array of non-null elements compares equal to itself when `equals` is reflexive |
| ArrayComparator.Antisymmetric | src/main/java/com/development/commons/tools/comparator/ArrayComparator.java:33-57 | for null-free arrays, symmetric `equals` and an antisymmetric element comparator give an antisymmetric array order |
| ComparableArrayComparator.CompareNonNull | src/main/java/com/development/commons/tools/comparator/ComparableArrayComparator.java:23-47 | the same lexicographic order with the null-first natural-order element comparator |
| ComparableArrayComparator.NaturalOrderCases | src/main/java/com/development/commons/tools/comparator/ComparableArrayComparator.java:18-20 | the element order puts nulls first, two nulls equal, and two values by `compareTo` |
| ComparableArrayComparator.NullInSecondSortsFirst | src/main/java/com/development/commons/tools/comparator/ComparableArrayComparator.java:26-46 | a null in the second array at the first difference gives 1 |
| ComparableArrayComparator.NaturalOrderAntisymmetric | src/main/java/com/development/commons/tools/comparator/ComparableArrayComparator.java:18-20 | an antisymmetric `compareTo` gives an antisymmetric element order |
| CompositeComparator.Composite.FromArray | src/main/java/com/development/commons/utility/comparator/CompositeComparator.java:13-20 | a null array gives no delegates, otherwise a copy of the array |
| CompositeComparator.Composite.FromIterable | src/main/java/com/development/commons/utility/comparator/CompositeComparator.java:22-35 | a null iterable gives no delegates, otherwise its items in order |
| CompositeComparator.Composite.Compare | src/main/java/com/development/commons/utility/comparator/CompositeComparator.java:37-50 | the result is the first non-zero delegate result, and no delegate after the deciding one is called |
| CompositeComparator.FirstNonZeroMeaning | src/main/java/com/development/commons/utility/comparator/CompositeComparator.java:37-50 | the result is 0 exactly when every delegate returns 0; otherwise it is the first non-zero delegate result |
| CompositeComparator.DecidedPrefix | src/main/java/com/development/commons/utility/comparator/CompositeComparator.java:42-48 | delegates after a deciding one change nothing |
| AnnotationIndex.MergeStep | src/main/java/com/development/commons/tools/xi/util/resource/AnnotationIndex.java:87-94 | one round of the merge loop unites one more annotation's class set into the index |
| AnnotationIndex.MergeDone | src/main/java/com/development/commons/tools/xi/util/resource/AnnotationIndex.java:87-94 | once every annotation of the other index is handled, the result is the merge |
| AnnotationIndex.MergedExtensional | src/main/java/com/development/commons/tools/xi/util/resource/AnnotationIndex.java:83-95 | the merge is determined by its keys and per-key unions |
| AnnotationIndex.MergeEntries | src/main/java/com/development/commons/tools/xi/util/resource/AnnotationIndex.java:87-94 | the loop yields every key of both indexes, with the union of both class sets under the keys of the other index |
| AnnotationIndex.AnnotationIndex.constructor | src/main/java/com/development/commons/tools/xi/util/resource/AnnotationIndex.java:54-56 | a new index is an empty map |
| AnnotationIndex.AnnotationIndex.Merge | src/main/java/com/development/commons/tools/xi/util/resource/AnnotationIndex.java:83-95 | a null argument or a null map changes nothing; otherwise the other index is merged in, and a null own map throws when there is something to merge |
| AnnotationIndex.AnnotationIndex.PutNewSeekedClass | src/main/java/com/development/commons/tools/xi/util/resource/AnnotationIndex.java:115-125 | the class is added to the set of the annotation; a null own map throws |
| AnnotationIndex.WithClassMeaning | src/main/java/com/development/commons/tools/xi/util/resource/AnnotationIndex.java:115-125 | after the call the class is recorded under the annotation, other keys are unchanged and a repeat changes nothing |
| AnnotationIndex.MergedMeaning | src/main/java/com/development/commons/tools/xi/util/resource/AnnotationIndex.java:83-95 | the merge holds every key of either index with the union of both sets |
| AnnotationIndex.MergeIdempotent | src/main/java/com/development/commons/tools/xi/util/resource/AnnotationIndex.java:83-95 | merging the same index twice, or the empty index, changes nothing more |
| AnnotationIndex.GetJarNameMeaning | src/main/java/com/development/commons/tools/xi/util/resource/AnnotationIndex.java:227-234 | without `.jar` the call throws; otherwise the name is the prefix of the path (after `file:`) up to and including its last `.jar` |
| AnnotationIndex.IsJarMeaning | src/main/java/com/development/commons/tools/xi/util/resource/AnnotationIndex.java:252-254 | a path is a jar when `.jar` occurs past index 0 and not at index 0 |
| XMLConfigurationParser.DotTerminatedIsJoin | src/main/java/com/development/commons/tools/jndi/XMLConfigurationParser.java:93-100 | the loop's text is the names joined by `.` with one `.` more, the one `deleteCharAt` removes |
| XMLConfigurationParser.Parser.constructor | src/main/java/com/development/commons/tools/jndi/XMLConfigurationParser.java:24-25 | a new parser has no properties and an empty stack |
| XMLConfigurationParser.Parser.StartElement | src/main/java/com/development/commons/tools/jndi/XMLConfigurationParser.java:69-71 | the element's qualified name is pushed |
| XMLConfigurationParser.Parser.EndElement | src/main/java/com/development/commons/tools/jndi/XMLConfigurationParser.java:81-91 | the top name is popped; an empty stack throws and is left alone |
| XMLConfigurationParser.Parser.CurrentXMLPath | src/main/java/com/development/commons/tools/jndi/XMLConfigurationParser.java:93-100 | the path is the open names joined by `.`, and an empty stack throws |
| XMLConfigurationParser.Parser.Characters | src/main/java/com/development/commons/tools/jndi/XMLConfigurationParser.java:52-58 | trimmed non-empty text is stored under the current path, replacing earlier text; blank text changes nothing; text outside any element throws |
| XMLConfigurationParser.PathOfChild | src/main/java/com/development/commons/tools/jndi/XMLConfigurationParser.java:69-100 | opening a child element extends the path by `.` and the child's name |
| XMLConfigurationParser.PathNamesTheStack | src/main/java/com/development/commons/tools/jndi/XMLConfigurationParser.java:93-100 | for names without `.`, splitting the path at `.` gives the stack back |
| XMLConfigurationParser.StartThenEnd | src/main/java/com/development/commons/tools/jndi/XMLConfigurationParser.java:69-91 | starting and then ending an element leaves the parser as it was |
| MutableRequest.AppendedValues | src/main/java/com/development/commons/tools/xi/ui/util/MutableRequestWrapper.java:155-166 | the intended array: the existing values followed by the new ones |
| MutableRequest.VarargsFirstCopy | src/main/java/com/development/commons/tools/xi/ui/util/MutableRequestWrapper.java:158-159 | the first copy as written succeeds only when no values are added |
| MutableRequest.VarargsOverrun | src/main/java/com/development/commons/tools/xi/ui/util/MutableRequestWrapper.java:155-166 | adding any value to a parameter that already has one makes the varargs call throw |
| MutableRequest.Request.constructor | src/main/java/com/development/commons/tools/xi/ui/util/MutableRequestWrapper.java:41-46 | the wrapper starts with the wrapped request's parameter map and no path overrides |
| MutableRequest.Request.GetPathInfo | src/main/java/com/development/commons/tools/xi/ui/util/MutableRequestWrapper.java:52-57 | the override when set, else the wrapped request's value |
| MutableRequest.Request.GetServletPath | src/main/java/com/development/commons/tools/xi/ui/util/MutableRequestWrapper.java:75-80 | the override when set, else the wrapped request's value |
| MutableRequest.Request.SetPathInfo | src/main/java/com/development/commons/tools/xi/ui/util/MutableRequestWrapper.java:65-67 | only the path-info override changes |
| MutableRequest.Request.SetServletPath | src/main/java/com/development/commons/tools/xi/ui/util/MutableRequestWrapper.java:88-90 | only the servlet-path override changes |
| MutableRequest.Request.GetParameter | src/main/java/com/development/commons/tools/xi/ui/util/MutableRequestWrapper.java:104-111 | the first value, or null for an absent name or an empty array |
| MutableRequest.Request.GetParameterValues | src/main/java/com/development/commons/tools/xi/ui/util/MutableRequestWrapper.java:183-186 | the stored array itself, null when absent |
| MutableRequest.Request.RemoveParameter | src/main/java/com/development/commons/tools/xi/ui/util/MutableRequestWrapper.java:119-124 | the entry is removed only when it holds at least one value |
| MutableRequest.Request.SetParameter | src/main/java/com/development/commons/tools/xi/ui/util/MutableRequestWrapper.java:134-145 | a fresh array holding the existing values and then the new one; other entries are unchanged |
| MutableRequest.Request.SetParameterValues | src/main/java/com/development/commons/tools/xi/ui/util/MutableRequestWrapper.java:155-166 | an absent or empty entry becomes the caller's array; an entry with values throws as soon as values are added |
| MutableRequest.Request.AppendParameterValues | src/main/java/com/development/commons/tools/xi/ui/util/MutableRequestWrapper.java:155-166 | the evident intent: the new values follow the existing ones |
| HexUtils.ToHexCharOfNibble | src/main/java/com/development/commons/tools/util/HexUtils.java:52-58 | on a nibble, `toHexChar` is the lower-case hex digit of that value |
| HexUtils.ByteToHex | src/main/java/com/development/commons/tools/util/HexUtils.java:38-43 | a byte gives two digits |
| HexUtils.UpperByteToHex | src/main/java/com/development/commons/tools/util/HexUtils.java:26 | each byte of `bytesToHex` gives two digits |
| HexUtils.HexOf | src/main/java/com/development/commons/tools/util/HexUtils.java:23-29 | the hex text is twice as long as the data |
| HexUtils.HexOfSnoc | src/main/java/com/development/commons/tools/util/HexUtils.java:25-27 | each loop round appends the upper-cased pair of the next byte |
| HexUtils.BytesToHex | src/main/java/com/development/commons/tools/util/HexUtils.java:23-29 | a null array throws; otherwise the text is the upper-cased pairs of the bytes in order |
| HexUtils.HexOfDigits | src/main/java/com/development/commons/tools/util/HexUtils.java:23-43 | each byte gives two upper-case hex digits, high nibble first |
| HexUtils.ParseByte | src/main/java/com/development/commons/tools/util/HexUtils.java:98-112 | a null string throws IllegalArgumentException; every other failure is NumberFormatException |
| HexUtils.ParsePairsAppend | src/main/java/com/development/commons/tools/util/HexUtils.java:81-85 | parsing splits at any even position |
| HexUtils.ParseSeqLoop | src/main/java/com/development/commons/tools/util/HexUtils.java:69-87 | null or `""` gives null, an odd length throws, otherwise the pairs are parsed in order and the first bad pair throws |
| HexUtils.UpperHexDigit | src/main/java/com/development/commons/tools/util/HexUtils.java:26 | upper-casing keeps a hex digit's value |
| HexUtils.ParseByteOfHex | src/main/java/com/development/commons/tools/util/HexUtils.java:26-112 | the two digits written for a byte read back as that byte |
| HexUtils.HexRoundTrip | src/main/java/com/development/commons/tools/util/HexUtils.java:23-87 | `parseSeq(bytesToHex(data))` is `data` for every non-empty array |
| HexUtils.PairsRoundTrip | src/main/java/com/development/commons/tools/util/HexUtils.java:23-87 | the pairs of the hex text parse back to the data |
| HexUtils.SignIsRefused | src/main/java/com/development/commons/tools/util/HexUtils.java:75-76 | a sign is not a hex digit and an odd length throws |
| HexUtils.ParseSeqExample | src/main/java/com/development/commons/tools/util/HexUtils.java:60-68 | `ff0A` gives the bytes 255 and 10 |
| HexUtils.ParseByteFF | src/main/java/com/development/commons/tools/util/HexUtils.java:98-112 | `ff` gives 255 |
| HexUtils.ParsePairs0A | src/main/java/com/development/commons/tools/util/HexUtils.java:98-112 | `0A` gives 10 |
| FileUtils.FindFirstByte | src/main/java/com/development/commons/tools/FileUtils.java:402-413 | the result is 0, 2 or 3, and non-zero only for an array longer than 3 |
| FileUtils.FindFirstByteRange | src/main/java/com/development/commons/tools/FileUtils.java:395-413 | the documented -1 never comes; null and short arrays give 0 |
| FileUtils.Utf16BranchesCoincide | src/main/java/com/development/commons/tools/FileUtils.java:406-409 | with both UTF-16 constants equal to `0xFE` the two UTF-16 branches test the same bits |
| FileUtils.MaskAcceptsNonBom | src/main/java/com/development/commons/tools/FileUtils.java:404-409 | the mask tests accept bytes that are no BOM: `FF FF FF 41` (four or more bytes, as the length guard demands) counts as a UTF-8 BOM |
| FileUtils.FindFirstByteExact | src/main/java/com/development/commons/tools/FileUtils.java:395-413 | the evident intent: 3 exactly after `EF BB BF`, 2 exactly after `FE FF` or `FF FE` |
| FileUtils.MaskAgreesOnBoms | src/main/java/com/development/commons/tools/FileUtils.java:402-413 | on a genuine BOM the mask test and the intended test agree |
| FileUtils.RemoveByteOrderMark | src/main/java/com/development/commons/tools/FileUtils.java:423-435 | a null or empty array comes back as it is; otherwise a fresh array holds the bytes from `findFirstByte` on |
| FileUtils.WithoutBom | src/main/java/com/development/commons/tools/FileUtils.java:423-435 | the kept bytes follow the UTF-8 or UTF-16 mark the mask tests detect |
| FileUtils.WithoutBomSuffix | src/main/java/com/development/commons/tools/FileUtils.java:423-435 | the kept bytes are a suffix of the data |
| FileUtils.IsXML | src/main/java/com/development/commons/tools/FileUtils.java:261-270 | a null array throws; otherwise true exactly when `<?xml` follows the detected BOM |
| FileUtils.IsXMLExamples | src/main/java/com/development/commons/tools/FileUtils.java:261-270 | a UTF-8 BOM followed by `<?xml` is XML, so is `<?xml` alone, and `<?xm` is not |
| FileUtils.EncodingFromByteOrderMark | src/main/java/com/development/commons/tools/FileUtils.java:334-349 | UTF-8 on the UTF-8 mask, UTF-16 on a UTF-16 mask with a non-zero third byte, and only for arrays longer than 3 |
| FileUtils.EncodingImpliesBom | src/main/java/com/development/commons/tools/FileUtils.java:334-413 | an encoding is reported only where `findFirstByte` skips a BOM; the converse fails on a zero third byte |
| FileUtils.NormalizeFileName | src/main/java/com/development/commons/tools/FileUtils.java:532-536 | a null name throws; otherwise the name keeps its length |
| FileUtils.NormalizeFileNameMeaning | src/main/java/com/development/commons/tools/FileUtils.java:532-536 | each forbidden char becomes `_`, all others (the backslash included) stay, and no forbidden char is left |
| FileUtils.NormalizeFileNameIdempotent | src/main/java/com/development/commons/tools/FileUtils.java:532-536 | normalising twice changes nothing more |
| Base64.Sextet | src/main/java/com/development/commons/tools/Base64OutputStream.java:32-33 | each 6-bit value maps to an ASCII char that is neither `=`, LF nor CR |
| Base64.SextetValue | src/main/java/com/development/commons/tools/Base64InputStream.java:43-63 | the inverse table: -1 for a byte outside the alphabet, otherwise the value whose char it is |
| Base64.SextetValueOfSextet | src/main/java/com/development/commons/tools/Base64InputStream.java:43-63 | looking a char of the alphabet up in the inverse table gives back its value |
| Base64.DefaultAlphabetIsRfc4648 | src/main/java/com/development/commons/tools/Base64OutputStream.java:32-33 | `DEFAULT_ALPHABET` has 64 entries and is the value table of section 4 of RFC 4648 |
| Base64.DefaultAlphabetDistinct | src/main/java/com/development/commons/tools/Base64OutputStream.java:32-33 | no char appears twice in `DEFAULT_ALPHABET`, so the inverse table is well defined |
| Base64.EncodeGroup | src/main/java/com/development/commons/tools/Base64OutputStream.java:220-236 | a group is four chars; one or two input bytes give two or one `=` at the end and never earlier |
| Base64.EncodeLength | src/main/java/com/development/commons/tools/BASE64Encoder.java:36-40 | the text of n bytes has 4 * ceil(n / 3) chars, the size `encode` preallocates |
| Base64.EncodeHasNoBreak | src/main/java/com/development/commons/tools/BASE64Encoder.java:62-67 | the unwrapped text holds no LF |
| Base64.EncodeAppend | src/main/java/com/development/commons/tools/BASE64Encoder.java:44-55 | encoding a whole number of groups and then more is encoding the two in turn |
| Base64.PackedDigits | src/main/java/com/development/commons/tools/Base64OutputStream.java:122-129 | cutting the 24-bit accumulator at bits 18, 12 and 6 gives the bit fields of section 4 of RFC 4648 |
| Base64.TripleDigits | src/main/java/com/development/commons/tools/Base64OutputStream.java:122-129 | the four digits of a completed accumulator are the group of its three bytes |
| Base64.SingleDigits | src/main/java/com/development/commons/tools/Base64OutputStream.java:222-226 | one held byte: two digits of the accumulator then `==` is its padded group |
| Base64.PairDigits | src/main/java/com/development/commons/tools/Base64OutputStream.java:228-232 | two held bytes: three digits of the accumulator then `=` is their padded group |
| Base64.Unwrap | src/main/java/com/development/commons/tools/Base64InputStream.java:204-265 | removing line feeds leaves text without line feeds |
| Base64.UnwrapAppend | src/main/java/com/development/commons/tools/Base64InputStream.java:204-265 | removing line feeds distributes over concatenation |
| Base64.UnwrapNoBreak | src/main/java/com/development/commons/tools/Base64InputStream.java:204-265 | text without line feeds is left as it is |
| Base64.ColumnAfter | src/main/java/com/development/commons/tools/Base64OutputStream.java:131-136 | starting at a column that is a multiple of 4 below 76, the column after any text is one too |
| Base64.ColumnAfterSnoc | src/main/java/com/development/commons/tools/Base64OutputStream.java:131-136 | one more group moves the column on by four, or back to 0 once the line reaches 76 |
| Base64.StreamTextStep | src/main/java/com/development/commons/tools/Base64OutputStream.java:118-142 | the stream layout of three or more bytes starts with the first group and, at a full line, a LF |
| Base64.StreamTextSnoc | src/main/java/com/development/commons/tools/Base64OutputStream.java:118-142 | one more group appends its four chars and, at a full line, a LF |
| Base64.WrapCons | src/main/java/com/development/commons/tools/Base64OutputStream.java:131-134 | wrapping a group in front of text lays out the group, a LF at a full line, then the rest |
| Base64.StreamTextIsWrapped | src/main/java/com/development/commons/tools/Base64OutputStream.java:118-142 | the stream layout is the RFC 4648 text with a LF each time a line reaches 76 chars |
| Base64.UnwrapWrap | src/main/java/com/development/commons/tools/Base64OutputStream.java:131-134 | wrapping only inserts line feeds |
| Base64.StreamTextUnwrapped | src/main/java/com/development/commons/tools/Base64OutputStream.java:118-142 | with its line feeds removed the stream output is standard padded base64 |
| Base64.LinesMeaning | src/main/java/com/development/commons/tools/BASE64Encoder.java:44-49 | the one-shot layout only inserts line feeds and never ends with one |
| Base64.WrapEndsWithBreak | src/main/java/com/development/commons/tools/BASE64Encoder.java:44-49 | on a whole number of 76-char lines the two layouts differ exactly by the stream's final LF |
| Base64Output.ByteOf | src/main/java/com/development/commons/tools/Base64OutputStream.java:110-117 | `b & 0xff` keeps the low eight bits of an `int` and leaves a byte value unchanged |
| Base64Output.Sink.constructor | src/main/java/com/development/commons/tools/Base64OutputStream.java:92-99 | the underlying stream starts empty, unflushed and open |
| Base64Output.Sink.Write | src/main/java/com/development/commons/tools/Base64OutputStream.java:138-141 | `out.write(buffer, 0, n)` appends exactly those bytes and touches nothing else |
| Base64Output.Sink.Flush | src/main/java/com/development/commons/tools/Base64OutputStream.java:260-267 | `out.flush()` counts a flush and changes no bytes |
| Base64Output.Sink.Close | src/main/java/com/development/commons/tools/Base64OutputStream.java:277-281 | `out.close()` closes without changing the bytes |
| Base64Output.Emit | src/main/java/com/development/commons/tools/Base64OutputStream.java:124-141 | a quad goes out with a LF at a full line; the buffer keeps room for a quad and a LF |
| Base64Output.StepByte | src/main/java/com/development/commons/tools/Base64OutputStream.java:110-144 | `write(int)` holds a first or second byte and emits the group on the third |
| Base64Output.Terminated | src/main/java/com/development/commons/tools/Base64OutputStream.java:220-252 | `terminate` with nothing held changes nothing, and otherwise leaves nothing held |
| Base64Output.LaidEmit | src/main/java/com/development/commons/tools/Base64OutputStream.java:118-142 | emitting a group after a whole number of groups lays out the longer input |
| Base64Output.LaidRestart | src/main/java/com/development/commons/tools/Base64OutputStream.java:220-252 | what is laid out can count as earlier output, with a new text starting at the column reached |
| Base64Output.StepByteConsistent | src/main/java/com/development/commons/tools/Base64OutputStream.java:110-144 | every `write(int)` keeps the invariant: the last `n % 3` bytes are held, the rest is laid out |
| Base64Output.WriteBytesConsistent | src/main/java/com/development/commons/tools/Base64OutputStream.java:159-212 | any run of byte writes keeps the invariant |
| Base64Output.TerminatedText | src/main/java/com/development/commons/tools/Base64OutputStream.java:220-252 | `terminate` adds the padded group of the held bytes and a LF at a full line, or nothing |
| Base64Output.TerminateConsistent | src/main/java/com/development/commons/tools/Base64OutputStream.java:220-252 | after `terminate` the whole input is laid out and a new text starts at the column reached |
| Base64Output.FlushedConsistent | src/main/java/com/development/commons/tools/Base64OutputStream.java:260-267 | `flush` empties the buffer into the sink and keeps the invariant |
| Base64Output.ClosedText | src/main/java/com/development/commons/tools/Base64OutputStream.java:277-281 | terminating and flushing leaves in the sink the earlier output then the layout of the input |
| Base64Output.StreamSession | src/main/java/com/development/commons/tools/Base64OutputStream.java:92-281 | a fresh stream that is written `d` and closed leaves the earlier output then the layout of `d` |
| Base64Output.WriteBytesSnoc | src/main/java/com/development/commons/tools/Base64OutputStream.java:159-212 | writing a prefix one byte longer is one more `write(int)` |
| Base64Output.TripleStep | src/main/java/com/development/commons/tools/Base64OutputStream.java:184-204 | with nothing held, three byte writes emit the quad of their accumulator, as the inlined loop does |
| Base64Output.Span | src/main/java/com/development/commons/tools/Base64OutputStream.java:159-163 | `b[off..off+len)`, empty when `len <= 0` |
| Base64Output.FreshConsistent | src/main/java/com/development/commons/tools/Base64OutputStream.java:92-99 | a new stream has laid out nothing, at column 0 |
| Base64Output.Base64OutputStream.constructor | src/main/java/com/development/commons/tools/Base64OutputStream.java:92-99 | a new stream holds nothing, is at column 0, has an empty buffer and writes to `out` |
| Base64Output.Base64OutputStream.EmitAt | src/main/java/com/development/commons/tools/Base64OutputStream.java:124-141 | writing a quad into the buffer, a LF and a flush is the value-level `Emit` |
| Base64Output.Base64OutputStream.Write | src/main/java/com/development/commons/tools/Base64OutputStream.java:110-144 | `write(int)` changes the stream exactly as `StepByte` of the low eight bits |
| Base64Output.Base64OutputStream.Hold | src/main/java/com/development/commons/tools/Base64OutputStream.java:112-119 | cases 0 and 1 hold the byte in the accumulator |
| Base64Output.Base64OutputStream.Complete | src/main/java/com/development/commons/tools/Base64OutputStream.java:120-142 | case 2 completes the accumulator and emits its quad |
| Base64Output.Base64OutputStream.WriteArray | src/main/java/com/development/commons/tools/Base64OutputStream.java:159-212 | `write(b, off, len)` (realignment, inlined triple loop, single writes) equals writing each byte of the span in turn |
| Base64Output.Base64OutputStream.WriteTail | src/main/java/com/development/commons/tools/Base64OutputStream.java:209-211 | the closing single writes finish the span |
| Base64Output.Base64OutputStream.TripleLoop | src/main/java/com/development/commons/tools/Base64OutputStream.java:184-204 | the inlined loop leaves the buffer and column of byte-by-byte writes up to two bytes before the end |
| Base64Output.Base64OutputStream.TripleRound | src/main/java/com/development/commons/tools/Base64OutputStream.java:185-203 | one round of the inlined loop is three byte writes |
| Base64Output.Base64OutputStream.EncodeTriples | src/main/java/com/development/commons/tools/Base64OutputStream.java:178-207 | the loop and its write-back of `_bufferOffset` and `_colNo` agree with byte-by-byte writes |
| Base64Output.Base64OutputStream.Terminate | src/main/java/com/development/commons/tools/Base64OutputStream.java:220-252 | `terminate` changes the stream exactly as `Terminated`; a second call emits nothing |
| Base64Output.Base64OutputStream.Flush | src/main/java/com/development/commons/tools/Base64OutputStream.java:260-267 | `flush` moves the buffered text to the sink and flushes it once |
| Base64Output.Base64OutputStream.Close | src/main/java/com/development/commons/tools/Base64OutputStream.java:277-281 | `close` terminates, flushes and closes; the sink then holds everything laid out |
| Base64Output.EncodeThroughStream | src/main/java/com/development/commons/tools/Base64OutputStream.java:92-281 | a byte string written to a new stream and closed comes out as RFC 4648 text with a LF after every full line of 76 chars and none after a shorter last line |
| Base64Encoder.Signed | src/main/java/com/development/commons/tools/BASE64Encoder.java:73-88 | a Java `byte` is the signed value in -128..127 congruent to the byte |
| Base64Encoder.SignedBits | src/main/java/com/development/commons/tools/BASE64Encoder.java:78-86 | the shifts and masks on the sign-extended byte pick out the bits of the unsigned byte |
| Base64Encoder.EncodeAtom | src/main/java/com/development/commons/tools/BASE64Encoder.java:62-67 | `encodeAtom(out, data, offset)` appends the group of the three bytes at `offset` |
| Base64Encoder.EncodeAtomPartial | src/main/java/com/development/commons/tools/BASE64Encoder.java:69-95 | `encodeAtom(.., len)` appends nothing for 0, the padded group for 1 to 3, and throws for any other length |
| Base64Encoder.EncodeSnoc | src/main/java/com/development/commons/tools/BASE64Encoder.java:51-57 | one more group after a whole number of groups appends that group |
| Base64Encoder.LineStep | src/main/java/com/development/commons/tools/BASE64Encoder.java:44-49 | more than 57 bytes: the first line is the text of 57 bytes, then a LF, then the rest laid out |
| Base64Encoder.FullLineLength | src/main/java/com/development/commons/tools/BASE64Encoder.java:21 | 57 bytes make exactly one 76-char line |
| Base64Encoder.LinesSplit | src/main/java/com/development/commons/tools/BASE64Encoder.java:44-49 | a full line followed by more text is the line, a LF, then the rest laid out |
| Base64Encoder.LastLine | src/main/java/com/development/commons/tools/BASE64Encoder.java:51-57 | at most 57 bytes are laid out on a single line without a LF |
| Base64Encoder.RunRound | src/main/java/com/development/commons/tools/BASE64Encoder.java:45-47 | one round of the atom loop appends the next group |
| Base64Encoder.EncodeRun | src/main/java/com/development/commons/tools/BASE64Encoder.java:45-47 | the atom loop appends the text of the groups from `offset` to `max` |
| Base64Encoder.LineRound | src/main/java/com/development/commons/tools/BASE64Encoder.java:44-49 | one round of the line loop appends a full line and a LF and keeps the layout |
| Base64Encoder.LinesDone | src/main/java/com/development/commons/tools/BASE64Encoder.java:44-49 | once at most 57 bytes are left, their text completes the layout |
| Base64Encoder.EncodeTail | src/main/java/com/development/commons/tools/BASE64Encoder.java:51-57 | the last whole groups and then the partial group append the text of all remaining bytes |
| Base64Encoder.TailJoin | src/main/java/com/development/commons/tools/BASE64Encoder.java:55-57 | the text of the whole groups then the partial group is the text of the tail |
| Base64Encoder.EncodeBytes | src/main/java/com/development/commons/tools/BASE64Encoder.java:36-60 | `encode` throws on null and otherwise returns RFC 4648 text in 76-char lines with a LF between lines |
| Base64Encoder.OneShotIsRfc4648 | src/main/java/com/development/commons/tools/BASE64Encoder.java:36-60 | without its line feeds the result is standard padded base64, and it never ends with a LF |
| Base64Encoder.FirstLineFull | src/main/java/com/development/commons/tools/BASE64Encoder.java:44-49 | every line but the last holds exactly 76 chars: the first LF is at index 76 |
| Base64Input.Position | src/main/java/com/development/commons/tools/Base64InputStream.java:54-61 | the last index below `n` holding `c`, or -1 |
| Base64Input.PositionMissing | src/main/java/com/development/commons/tools/Base64InputStream.java:54-61 | -1 exactly when no entry below `n` holds `c` |
| Base64Input.PositionOfDistinct | src/main/java/com/development/commons/tools/Base64InputStream.java:54-61 | in an alphabet without repeats each char is found at its own index |
| Base64Input.InverseMeaning | src/main/java/com/development/commons/tools/Base64InputStream.java:43-66 | a valid alphabet maps each of its chars to its index, the terminal to 0 and every other byte to -1 |
| Base64Input.InvertAlphabet | src/main/java/com/development/commons/tools/Base64InputStream.java:43-66 | `invertAlphabet` throws IllegalArgumentException exactly for a short alphabet or a repeated char, and otherwise fills the 256-entry table |
| Base64Input.DefaultInverse | src/main/java/com/development/commons/tools/Base64InputStream.java:24-25 | `DEFAULT_INVERSE_ALPHABET` gives the value of an alphabet char, 0 for `=` and -1 for anything else |
| Base64Input.ShiftOr | src/main/java/com/development/commons/tools/Base64InputStream.java:223-224 | or-ing the shifted table entries is negative exactly when one entry is -1, and below 2^24 |
| Base64Input.CorruptQuad | src/main/java/com/development/commons/tools/Base64InputStream.java:223-228 | a quad is corrupt exactly when one of its chars is neither in the alphabet nor `=` |
| Base64Input.PackedBytes | src/main/java/com/development/commons/tools/Base64InputStream.java:234-247 | the three bytes of a packed accumulator come back out in order |
| Base64Input.LookupSextet | src/main/java/com/development/commons/tools/Base64InputStream.java:223-224 | each char of an encoded group looks up to the sextet it came from |
| Base64Input.GroupAccum | src/main/java/com/development/commons/tools/Base64InputStream.java:223-224 | decoding an RFC 4648 group gives the accumulator of its bytes, zero-filled |
| Base64Input.Fill | src/main/java/com/development/commons/tools/Base64InputStream.java:174-192 | `fillBuffer` keeps the text to read, fails only when fewer than four chars are left, and otherwise buffers at least four |
| Base64Input.Seek | src/main/java/com/development/commons/tools/Base64InputStream.java:208-216 | the seek loop of `read()` yields a quad of four chars or none, within the buffer size |
| Base64Input.NextQuad | src/main/java/com/development/commons/tools/Base64InputStream.java:208-220 | the next quad of a text is four chars after the line breaks in front of it |
| Base64Input.NextQuadFound | src/main/java/com/development/commons/tools/Base64InputStream.java:208-220 | line breaks are skipped only in front of a quad: the text is breaks, the quad, then the rest |
| Base64Input.NextQuadMissing | src/main/java/com/development/commons/tools/Base64InputStream.java:209-212 | when no quad is found fewer than four chars follow the line breaks |
| Base64Input.SeekRest | src/main/java/com/development/commons/tools/Base64InputStream.java:208-216 | refilling never changes what is found: the seek is `NextQuad` of the rest of the text |
| Base64Input.NextQuadPast | src/main/java/com/development/commons/tools/Base64InputStream.java:208-216 | line breaks in front of a quad are passed over |
| Base64Input.NextQuadOfBreaks | src/main/java/com/development/commons/tools/Base64InputStream.java:208-212 | text made only of line breaks holds no quad |
| Base64Input.StartQuad | src/main/java/com/development/commons/tools/Base64InputStream.java:205-234 | the first `read()` of a quad gives -1 without one, "stream corrupted" for a bad one, and otherwise its first byte; a byte from 0x80 on counts as bad (the corrected reading: see Left out) |
| Base64Input.InQuad | src/main/java/com/development/commons/tools/Base64InputStream.java:235-247 | a `read()` inside a quad gives the next byte, or -1 at a `=` and stays put |
| Base64Input.ReadOne | src/main/java/com/development/commons/tools/Base64InputStream.java:204-249 | one `read()` keeps the reader state sound and throws only "stream corrupted" (the corrected reading: see Left out) |
| Base64Input.ReadOneDecodes | src/main/java/com/development/commons/tools/Base64InputStream.java:204-249 | buffering is invisible: a `read()` gives what the rest of the text decodes to |
| Base64Input.SignExtended | src/main/java/com/development/commons/tools/Base64InputStream.java:215-220 | Java widens a `byte` with its sign, so chars from 0x80 on become negative |
| Base64Input.ReadOneAsWritten | src/main/java/com/development/commons/tools/Base64InputStream.java:204-249 | `read()` as written, indexing the table with sign-extended chars |
| Base64Input.HighByteIndexesOutOfBounds | src/main/java/com/development/commons/tools/Base64InputStream.java:215-224 | a quad starting with byte 0x80 indexes the table with -128 and raises ArrayIndexOutOfBoundsException instead of "stream corrupted" |
| Base64Input.AsWrittenDiffersOnlyInException | src/main/java/com/development/commons/tools/Base64InputStream.java:215-228 | the code as written and the corrected reading differ only in which exception a byte from 0x80 on raises |
| Base64Input.Outputs | src/main/java/com/development/commons/tools/Base64InputStream.java:204-249 | the outcomes of `k` successive `read()`s |
| Base64Input.Run | src/main/java/com/development/commons/tools/Base64InputStream.java:204-249 | the state after `k` successive `read()`s stays sound |
| Base64Input.OutputsDecoded | src/main/java/com/development/commons/tools/Base64InputStream.java:204-249 | successive `read()`s give what successive decoding of the text gives |
| Base64Input.PaddedEnds | src/main/java/com/development/commons/tools/Base64InputStream.java:236-245 | once at a `=` every further `read()` gives -1 |
| Base64Input.BreaksEnd | src/main/java/com/development/commons/tools/Base64InputStream.java:208-212 | with only line breaks left every `read()` gives -1 |
| Base64Input.CorruptRead | src/main/java/com/development/commons/tools/Base64InputStream.java:222-228 | a quad with a char outside the alphabet and `=` raises "stream corrupted" and is passed over; a byte from 0x80 on does too (the corrected reading: see Left out) |
| Base64Input.BreakInQuad | src/main/java/com/development/commons/tools/Base64InputStream.java:216-224 | a line break inside a quad is not skipped: it makes the quad corrupt |
| Base64Input.TerminalQuad | src/main/java/com/development/commons/tools/Base64InputStream.java:236-245 | `=` third gives one byte, `=` fourth two bytes, then -1 for ever |
| Base64Input.ThreeReads | src/main/java/com/development/commons/tools/Base64InputStream.java:204-249 | a full group decodes to its three bytes, then decoding goes on after it |
| Base64Input.LastGroupReads | src/main/java/com/development/commons/tools/Base64InputStream.java:204-249 | a final group of one or two bytes decodes to them, then -1 for ever |
| Base64Input.ReadsBack | src/main/java/com/development/commons/tools/Base64InputStream.java:204-249 | text laid out as `Base64OutputStream` lays it out, behind any line breaks, decodes to the bytes and then -1 for ever |
| Base64Input.FirstGroup | src/main/java/com/development/commons/tools/Base64OutputStream.java:118-142 | the first quad of the stream text of non-empty bytes is the first group's, then its line break |
| Base64Input.DecodesStreamText | src/main/java/com/development/commons/tools/Base64InputStream.java:204-249 | a decoder over the stream text, however much is buffered, reads back the bytes and then -1 |
| Base64Input.DecodesClosedStream | src/main/java/com/development/commons/tools/Base64OutputStream.java:277-281 | what a fresh `Base64OutputStream` wrote, once closed, decodes to the bytes written to it and then -1 |
| Base64Input.ReadCalls | src/main/java/com/development/commons/tools/Base64InputStream.java:272-278 | the loops that call `read()` store at most `len` bytes and throw only "stream corrupted" (the corrected reading: see Left out) |
| Base64Input.Blocks | src/main/java/com/development/commons/tools/Base64InputStream.java:285-329 | the block loop stores at most `len` bytes, pauses only after storing one, and stops with at most three bytes of room |
| Base64Input.ReadBlockWith | src/main/java/com/development/commons/tools/Base64InputStream.java:267-346 | `read(b, off, len)`: draining loop, block loop, then the slow loop when nothing was stored |
| Base64Input.ReadBlock | src/main/java/com/development/commons/tools/Base64InputStream.java:267-346 | `read(b, off, len)` with a bad quad in the block loop passed over as `read()` does (the corrected reading: see Left out) |
| Base64Input.ReadBlockAsWritten | src/main/java/com/development/commons/tools/Base64InputStream.java:267-346 | `read(b, off, len)` leaving `_offset` behind at a bad quad, as the code does; its quads are still looked up unsigned, so a byte from 0x80 on gives "stream corrupted" here (see Left out) |
| Base64Input.ReplaysJoin | src/main/java/com/development/commons/tools/Base64InputStream.java:267-346 | a stretch that went on, followed by one that replays from where it stopped, replays together |
| Base64Input.ReadCallsReplays | src/main/java/com/development/commons/tools/Base64InputStream.java:272-278 | the loops that call `read()` replay it |
| Base64Input.SeekSync | src/main/java/com/development/commons/tools/Base64InputStream.java:286-296 | where `_offset` was left does not change what the seek finds |
| Base64Input.FirstStep | src/main/java/com/development/commons/tools/Base64InputStream.java:218-234 | the first `read()` of a valid quad gives its first byte |
| Base64Input.LaterSteps | src/main/java/com/development/commons/tools/Base64InputStream.java:235-247 | the next two `read()`s of a quad without `=` give its second and third bytes |
| Base64Input.QuadStops | src/main/java/com/development/commons/tools/Base64InputStream.java:286-308 | a block round that finds no quad ends the stream; a bad quad throws |
| Base64Input.QuadPauses | src/main/java/com/development/commons/tools/Base64InputStream.java:310-328 | a block round at a quad with `=` stores its bytes and leaves the reader inside it |
| Base64Input.QuadThenRest | src/main/java/com/development/commons/tools/Base64InputStream.java:310-329 | a quad without `=` is three `read()`s and the block loop goes on behind it |
| Base64Input.BlocksReplays | src/main/java/com/development/commons/tools/Base64InputStream.java:285-329 | the block loop replays `read()` when a bad quad is passed over |
| Base64Input.ReadBlockReads | src/main/java/com/development/commons/tools/Base64InputStream.java:267-346 | `read(b, off, len)` stores what as many `read()`s give, returns their count or -1 at the very end, never 0 for `len > 0`, and throws only as `read()` would (the corrected reading: see Left out) |
| Base64Input.StaleOffsetRereads | src/main/java/com/development/commons/tools/Base64InputStream.java:286-308 | on `QUJD!!!!` the code as written throws with `_offset` at the front, so the next `read()` gives `A` again |
| Base64Input.StoredMeaning | src/main/java/com/development/commons/tools/Base64InputStream.java:277 | the stored bytes land at `off` and nothing else in the array changes |
| Base64Input.BlocksSoFarQuad | src/main/java/com/development/commons/tools/Base64InputStream.java:310-329 | a block round that decodes a quad stores one, two or three bytes, pausing at a `=` |
| Base64Input.Estimate | src/main/java/com/development/commons/tools/Base64InputStream.java:125-133 | `(k / 5) * 3` is a multiple of 3 that allows for a line break after every four chars |
| Base64Input.Source.constructor | src/main/java/com/development/commons/tools/Base64InputStream.java:110-115 | the wrapped stream holds the given text |
| Base64Input.Source.Read | src/main/java/com/development/commons/tools/Base64InputStream.java:184-188 | `in.read` delivers as much as asked of what is left, or -1 at the end, and changes no other array element |
| Base64Input.Source.Available | src/main/java/com/development/commons/tools/Base64InputStream.java:132 | `in.available()` is what the wrapped stream still holds |
| Base64Input.Base64InputStream.constructor | src/main/java/com/development/commons/tools/Base64InputStream.java:110-115 | a new stream uses the default table, holds nothing and is between quads |
| Base64Input.Base64InputStream.FillBuffer | src/main/java/com/development/commons/tools/Base64InputStream.java:174-192 | `fillBuffer` behaves as `Fill` and leaves `_offset` at 0 |
| Base64Input.Base64InputStream.ReadMore | src/main/java/com/development/commons/tools/Base64InputStream.java:183-189 | one `in.read` appends what it delivers, or reports the end |
| Base64Input.Base64InputStream.SeekFrom | src/main/java/com/development/commons/tools/Base64InputStream.java:208-216 | the seek loop behaves as `Seek` |
| Base64Input.Base64InputStream.SeekRound | src/main/java/com/development/commons/tools/Base64InputStream.java:208-216 | one round of the seek loop: refill, then a break goes on and anything else ends the seek |
| Base64Input.Base64InputStream.Refill | src/main/java/com/development/commons/tools/Base64InputStream.java:209-213 | the refill at the head of a round behaves as `Fill` |
| Base64Input.Base64InputStream.TakeChar | src/main/java/com/development/commons/tools/Base64InputStream.java:215-222 | a line break is passed over; any other char starts the quad of four |
| Base64Input.Base64InputStream.AccumulateAt | src/main/java/com/development/commons/tools/Base64InputStream.java:223-224 | the table entries of the four chars, shifted and or-ed, are `Accumulate` of them; the chars index the table unsigned (the corrected reading: see Left out) |
| Base64Input.Base64InputStream.Read | src/main/java/com/development/commons/tools/Base64InputStream.java:204-249 | `read()` changes the stream exactly as `ReadOne` (the corrected reading: see Left out) |
| Base64Input.Base64InputStream.StartRead | src/main/java/com/development/commons/tools/Base64InputStream.java:205-234 | the first `read()` of a quad behaves as `StartQuad` of what the seek finds (the corrected reading: see Left out) |
| Base64Input.Base64InputStream.ReadArray | src/main/java/com/development/commons/tools/Base64InputStream.java:267-346 | `read(b, off, len)` changes the stream and `b` exactly as `ReadBlock` (the corrected reading: see Left out) |
| Base64Input.Base64InputStream.ReadLoop | src/main/java/com/development/commons/tools/Base64InputStream.java:272-278 | the loops that call `read()` behave as `ReadCalls` (the corrected reading: see Left out) |
| Base64Input.Base64InputStream.BlockLoop | src/main/java/com/development/commons/tools/Base64InputStream.java:285-331 | the block loop behaves as `BlocksAfter`, which passes a bad quad over (the corrected reading: see Left out) |
| Base64Input.Base64InputStream.BlockRound | src/main/java/com/development/commons/tools/Base64InputStream.java:286-329 | one round of the block loop keeps `BlocksSoFar` or ends the loop as it says; a bad quad is passed over (the corrected reading: see Left out) |
| Base64Input.Base64InputStream.StoreQuad | src/main/java/com/development/commons/tools/Base64InputStream.java:310-328 | a decoded quad stores its first byte, then the second unless the third char is `=`, then the third unless the fourth is `=` |
| Base64Input.Base64InputStream.StoreByte | src/main/java/com/development/commons/tools/Base64InputStream.java:277 | `b[off + n++] = v` appends `v` to what is stored |
| Base64Input.Base64InputStream.Available | src/main/java/com/development/commons/tools/Base64InputStream.java:125-133 | `available()` is `(unread / 5) * 3`, a multiple of 3 |
| Base64Input.Base64InputStream.MarkSupported | src/main/java/com/development/commons/tools/Base64InputStream.java:141-143 | mark and reset are not supported |
| Base64Input.Base64InputStream.Mark | src/main/java/com/development/commons/tools/Base64InputStream.java:153-155 | `mark` always throws UnsupportedOperationException |
| Base64Input.Base64InputStream.Reset | src/main/java/com/development/commons/tools/Base64InputStream.java:164-166 | `reset` always throws an IOException |
| Base64Input.Base64InputStream.Skip | src/main/java/com/development/commons/tools/Base64InputStream.java:358-360 | `skip` always throws UnsupportedOperationException |
| Base64Input.Base64InputStream.Compact | src/main/java/com/development/commons/tools/Base64InputStream.java:175-178 | the unread bytes move to the front of the buffer |
| CSSUtils.CssNamedColor | src/main/java/com/development/commons/tools/util/html/CSSUtils.java:171-173 | a null name gives null; otherwise `cssNamedColor` finds a colour only for a non-empty ASCII name that the table holds, spelt exactly |
| CSSUtils.NamedColorEntry | src/main/java/com/development/commons/tools/util/html/CSSUtils.java:22-169 | every entry of the table is found by `cssNamedColor` with its value |
| CSSUtils.NamedColorMissing | src/main/java/com/development/commons/tools/util/html/CSSUtils.java:171-173 | a name the table does not hold gives null |
| CSSUtils.NamedColorAliases | src/main/java/com/development/commons/tools/util/html/CSSUtils.java:31-108 | `aqua` and `cyan` are both 0x00FFFF, `fuchsia` and `magenta` both 0xFF00FF |
| CSSUtils.NamedColorExact | src/main/java/com/development/commons/tools/util/html/CSSUtils.java:97-173 | the lookup is case-sensitive and knows only the table's spellings: `Red` and `lightgray` give null, `red` and `lightgrey` a colour |
| CSSUtils.EscapedHexRules | src/main/java/com/development/commons/tools/util/html/CSSUtils.java:226-227 | any other char becomes a backslash, its code in one to four lower-case hex digits without padding, and a space |
| CSSUtils.EscapedIsPlain | src/main/java/com/development/commons/tools/util/html/CSSUtils.java:216-231 | every char `escapeString` writes is tab, printable ASCII or `\200`..`\377` |
| CSSUtils.EscapeInto | src/main/java/com/development/commons/tools/util/html/CSSUtils.java:216-231 | `escapeString(buf, str)` appends the escaped text of `str`, nothing for null, and returns `buf` |
| CSSUtils.EscapedFrom | src/main/java/com/development/commons/tools/util/html/CSSUtils.java:217-229 | one round of the loop appends the escape of the next char |
| CSSUtils.EscapeString | src/main/java/com/development/commons/tools/util/html/CSSUtils.java:233-239 | `escapeString(str)` is `""` for null and otherwise the escaped text, all of it plain chars |
| CSSBackground.ColorOf | src/main/java/com/development/commons/tools/util/html/CSSUtils.java:190-194 | `new Color(rgb)` keeps the low 24 bits, so a colour in range is itself |
| CSSBackground.BackgroundCapture.constructor | src/main/java/com/development/commons/tools/util/html/CSSUtils.java:181-183 | the anonymous subclass starts with the flag off and no colour |
| CSSBackground.BackgroundCapture.OnDeclaration | src/main/java/com/development/commons/tools/util/html/CSSUtils.java:185-188 | `declaration` sets the flag exactly for `background` or `background-color`, in any case |
| CSSBackground.BackgroundCapture.OnColor | src/main/java/com/development/commons/tools/util/html/CSSUtils.java:190-194 | `color` takes the colour only while the flag is set |
| CSSBackground.BackgroundCapture.OnIdent | src/main/java/com/development/commons/tools/util/html/CSSUtils.java:196-203 | `ident` takes the named colour only while the flag is set and the name is known |
| CSSBackground.BackgroundCapture.On | src/main/java/com/development/commons/tools/util/html/CSSUtils.java:183-203 | a callback changes the fields as `Step` says |
| CSSBackground.BackgroundCapture.Replay | src/main/java/com/development/commons/tools/util/html/CSSUtils.java:183-208 | the callbacks of a parse, in order, leave the fields `Captured` says |
| CSSBackground.ExtractBackgroundColorFromStyle | src/main/java/com/development/commons/tools/util/html/CSSUtils.java:179-214 | the result of `extractBackgroundColorFromStyle`: the captured colour after a complete parse, null after a ParseException |
| CSSBackground.LastDeclarationPrefix | src/main/java/com/development/commons/tools/util/html/CSSUtils.java:185-188 | looking at a prefix does not change which declaration precedes an event |
| CSSBackground.CapturedFlag | src/main/java/com/development/commons/tools/util/html/CSSUtils.java:185-188 | the flag is set exactly when the last declaration so far names the background |
| CSSBackground.CapturedNone | src/main/java/com/development/commons/tools/util/html/CSSUtils.java:190-203 | no colour is captured exactly when no event offered one under a background declaration |
| CSSBackground.CapturedLast | src/main/java/com/development/commons/tools/util/html/CSSUtils.java:190-203 | a captured colour is the one offered by the last such event |
| CSSBackground.ExtractLastColor | src/main/java/com/development/commons/tools/util/html/CSSUtils.java:179-214 | after a complete parse the result is null or the colour of the last captured event |
| CSSBackground.ParseErrorDropsColor | src/main/java/com/development/commons/tools/util/html/CSSUtils.java:209-212 | a ParseException gives null even when a background colour was already captured |
| CSSBackground.ExtractErrors | src/main/java/com/development/commons/tools/util/html/CSSUtils.java:179-214 | only a null style or a hex colour too large for an `int` escapes as an exception |
| CSSStyleParser.FromHex | src/main/java/com/development/commons/tools/util/html/CSSStyleParser.java:377-387 | `fromHex` gives the value of a hex digit and -1 for any other char |
| CSSStyleParser.Span | src/main/java/com/development/commons/tools/util/html/CSSStyleParser.java:437-446 | the longest run of chars with a property, from `i` on |
| CSSStyleParser.HexRunEnd | src/main/java/com/development/commons/tools/util/html/CSSStyleParser.java:404-411 | the end of the run of hex digits before `lim` |
| CSSStyleParser.HexQuadBelow | src/main/java/com/development/commons/tools/util/html/CSSStyleParser.java:404-411 | at most four hex digits make a value below 0x10000, a valid `char` |
| CSSStyleParser.Unescape | src/main/java/com/development/commons/tools/util/html/CSSStyleParser.java:389-423 | the `unescape` loop computes `Unescaped` |
| CSSStyleParser.UnescapeEscape | src/main/java/com/development/commons/tools/util/html/CSSStyleParser.java:396-418 | one backslash sequence yields its char and the loop goes on behind it |
| CSSStyleParser.HexDigits | src/main/java/com/development/commons/tools/util/html/CSSStyleParser.java:404-411 | the inner loop reads the hex digits of an escape, at most four in all |
| CSSStyleParser.HexEscapeAt | src/main/java/com/development/commons/tools/util/html/CSSStyleParser.java:399-415 | a hex escape gives the char of its value and swallows one following space |
| CSSStyleParser.UnescapeBackslash | src/main/java/com/development/commons/tools/util/html/CSSStyleParser.java:394-403 | a final backslash is dropped, and a backslash before a non-hex char yields that char |
| CSSStyleParser.UnescapeHexSpace | src/main/java/com/development/commons/tools/util/html/CSSStyleParser.java:404-415 | a hex escape ended by a space yields its char and drops the space |
| CSSStyleParser.SkipSpaces | src/main/java/com/development/commons/tools/util/html/CSSStyleParser.java:470-480 | skipping blanks stays within the buffer |
| CSSStyleParser.NumeralAt | src/main/java/com/development/commons/tools/util/html/CSSStyleParser.java:287-289 | a numeral is digits with an optional fraction, or a fraction alone |
| CSSStyleParser.UnitLength | src/main/java/com/development/commons/tools/util/html/CSSStyleParser.java:287-289 | a unit suffix is `%` or one of the eight two-letter units, in any case |
| CSSStyleParser.NumberAt | src/main/java/com/development/commons/tools/util/html/CSSStyleParser.java:448-458 | `consumeNumber` reads an optional sign, a numeral and a unit |
| CSSStyleParser.IdentAt | src/main/java/com/development/commons/tools/util/html/CSSStyleParser.java:437-446 | `consumeIdent` reads a letter or Latin-1 char, then letters, digits, `-` and Latin-1 chars |
| CSSStyleParser.ImportantAt | src/main/java/com/development/commons/tools/util/html/CSSStyleParser.java:460-468 | `consumeImportant` reads `!`, blanks and `important` |
| CSSStyleParser.Expand3 | src/main/java/com/development/commons/tools/util/html/CSSStyleParser.java:365-372 | `#rgb` doubles each digit into a 24-bit colour |
| CSSStyleParser.HexColorAt | src/main/java/com/development/commons/tools/util/html/CSSStyleParser.java:350-375 | `consumeHexColor` reads a 6- or 3-digit colour, and otherwise fails at the `#` |
| CSSStyleParser.ChannelValue | src/main/java/com/development/commons/tools/util/html/CSSStyleParser.java:306-318 | a channel value, scaled by 2.55 for `%`, is capped at 255; it is the integer part of the exact decimal, not of the nearest `float` (see Left out) |
| CSSStyleParser.ChannelAt | src/main/java/com/development/commons/tools/util/html/CSSStyleParser.java:265-270 | one channel of `rgb(...)` is blanks, a numeral, an optional `%`, blanks and the delimiter |
| CSSStyleParser.RgbAt | src/main/java/com/development/commons/tools/util/html/CSSStyleParser.java:302-323 | `consumeRGB` reads `rgb(r, g, b)` in any case into a 24-bit colour, with channels taken from the exact decimals (see Left out) |
| CSSStyleParser.StringClose | src/main/java/com/development/commons/tools/util/html/CSSStyleParser.java:272-274 | the closing quote of a string whose chars and escapes are allowed |
| CSSStyleParser.StringAt | src/main/java/com/development/commons/tools/util/html/CSSStyleParser.java:425-435 | `consumeString` reads a quoted string and unescapes what is inside the quotes |
| CSSStyleParser.UrlRunEnd | src/main/java/com/development/commons/tools/util/html/CSSStyleParser.java:278-279 | the end of an unquoted url |
| CSSStyleParser.UrlAt | src/main/java/com/development/commons/tools/util/html/CSSStyleParser.java:325-348 | `consumeURL` reads `url(...)` in any case, quoted or not, and unescapes it |
| CSSStyleParser.LexAt | src/main/java/com/development/commons/tools/util/html/CSSStyleParser.java:483-548 | the token at a non-blank char, chosen by that char as the switch does; a failure reports that position |
| CSSStyleParser.Lex | src/main/java/com/development/commons/tools/util/html/CSSStyleParser.java:470-549 | `nextToken`: end of input after trailing blanks, otherwise a token that moves forward |
| CSSStyleParser.NextF | src/main/java/com/development/commons/tools/util/html/CSSStyleParser.java:470-549 | reading the next token adds no event |
| CSSStyleParser.TermF | src/main/java/com/development/commons/tools/util/html/CSSStyleParser.java:202-255 | `parseTerm` only adds events and consumes input |
| CSSStyleParser.ExprF | src/main/java/com/development/commons/tools/util/html/CSSStyleParser.java:174-200 | `parseExpr` only adds events and consumes input |
| CSSStyleParser.ExprLoop | src/main/java/com/development/commons/tools/util/html/CSSStyleParser.java:178-199 | the term loop stops at the end, a `;` or `!important` |
| CSSStyleParser.DeclF | src/main/java/com/development/commons/tools/util/html/CSSStyleParser.java:144-172 | `parseDeclaration` reports the name first, and fails with "expected style name" without one |
| CSSStyleParser.DeclsF | src/main/java/com/development/commons/tools/util/html/CSSStyleParser.java:123-142 | `parseDeclarations` ends only at the end of input |
| CSSStyleParser.DeclsLoop | src/main/java/com/development/commons/tools/util/html/CSSStyleParser.java:125-141 | the declaration loop ends only at the end of input |
| CSSStyleParser.ParseF | src/main/java/com/development/commons/tools/util/html/CSSStyleParser.java:109-117 | `parse` ends, when it completes, at the end of input |
| CSSStyleParser.ParseStyle | src/main/java/com/development/commons/tools/util/html/CSSStyleParser.java:32-117 | a complete parse of a style ends at its end |
| CSSStyleParser.StyleParser.constructor | src/main/java/com/development/commons/tools/util/html/CSSStyleParser.java:32-35 | the parser starts at position 0 with no event |
| CSSStyleParser.StyleParser.NextToken | src/main/java/com/development/commons/tools/util/html/CSSStyleParser.java:470-549 | `nextToken` moves to the end of the token `Lex` gives, or past the blanks when it throws |
| CSSStyleParser.StyleParser.TokenAt | src/main/java/com/development/commons/tools/util/html/CSSStyleParser.java:483-548 | the switch on the first char gives `LexAt` |
| CSSStyleParser.StyleParser.ConsumeString | src/main/java/com/development/commons/tools/util/html/CSSStyleParser.java:425-435 | `consumeString` is `StringAt` |
| CSSStyleParser.StyleParser.ConsumeURL | src/main/java/com/development/commons/tools/util/html/CSSStyleParser.java:325-348 | `consumeURL` is `UrlAt` |
| CSSStyleParser.StyleParser.ParseTerm | src/main/java/com/development/commons/tools/util/html/CSSStyleParser.java:202-255 | `parseTerm` leaves the state or the exception `TermF` says |
| CSSStyleParser.StyleParser.TermEvent | src/main/java/com/development/commons/tools/util/html/CSSStyleParser.java:213-254 | the callback a term makes: number, percent, length, string, ident, colour or url |
| CSSStyleParser.StyleParser.ParseExpr | src/main/java/com/development/commons/tools/util/html/CSSStyleParser.java:174-200 | `parseExpr` leaves the state or the exception `ExprF` says |
| CSSStyleParser.StyleParser.ParseDeclaration | src/main/java/com/development/commons/tools/util/html/CSSStyleParser.java:144-172 | `parseDeclaration` leaves the state or the exception `DeclF` says |
| CSSStyleParser.StyleParser.ParseDeclarations | src/main/java/com/development/commons/tools/util/html/CSSStyleParser.java:123-142 | `parseDeclarations` leaves the state or the exception `DeclsF` says |
| CSSStyleParser.StyleParser.Parse | src/main/java/com/development/commons/tools/util/html/CSSStyleParser.java:109-117 | `parse` leaves the state or the exception `ParseF` says |
| CSSStyleParser.UnescapeEscapedChar | src/main/java/com/development/commons/tools/util/html/CSSStyleParser.java:389-423 | `unescape` reads back the escape `escapeString` writes for a char |
| CSSStyleParser.UnescapeEscapedFrom | src/main/java/com/development/commons/tools/util/html/CSSStyleParser.java:389-423 | `unescape` reads back the whole escaped text from any position |
| CSSStyleParser.UnescapeEscaped | src/main/java/com/development/commons/tools/util/html/CSSStyleParser.java:389-423 | `unescape` undoes `CSSUtils.escapeString` for every string |
| CSSStyleParser.FormatString | src/main/java/com/development/commons/tools/util/html/CSSStyleParser.java:67-69 | the `string` callback's value is the escaped text between quotes |
| CSSStyleParser.FormatUrl | src/main/java/com/development/commons/tools/util/html/CSSStyleParser.java:80-82 | the `url` callback's value is the escaped url inside `url('...')` |
| CSSStyleParser.WithBit24 | src/main/java/com/development/commons/tools/util/html/CSSStyleParser.java:76 | `rgb \| 0x1000000` sets bit 24 and keeps the low 24 bits |
| CSSStyleParser.FormatColor | src/main/java/com/development/commons/tools/util/html/CSSStyleParser.java:75-78 | the `color` callback's value is `#` and six lower-case hex digits of the low 24 bits |
| CSSStyleParser.HexNumberSplit | src/main/java/com/development/commons/tools/util/html/CSSStyleParser.java:76-77 | the last `k` hex digits are the value modulo 16^k |
| CSSStyleParser.StringCloseEscaped | src/main/java/com/development/commons/tools/util/html/CSSStyleParser.java:272-274 | the string pattern accepts the escaped text of any string up to the closing quote |
| CSSStyleParser.FormatStringLexes | src/main/java/com/development/commons/tools/util/html/CSSStyleParser.java:67-69 | the `string` callback's value reads back as the same string token |
| CSSStyleParser.LexQuoted | src/main/java/com/development/commons/tools/util/html/CSSStyleParser.java:530-537 | a quote starts a string token ending at its closing quote |
| CSSStyleParser.FormatUrlLexes | src/main/java/com/development/commons/tools/util/html/CSSStyleParser.java:80-82 | the `url` callback's value reads back as the same url token |
| CSSStyleParser.UrlAtQuoted | src/main/java/com/development/commons/tools/util/html/CSSStyleParser.java:325-348 | a quoted url is unescaped between its quotes |
| CSSStyleParser.LexUrl | src/main/java/com/development/commons/tools/util/html/CSSStyleParser.java:524-529 | a `u` that starts a url gives the url token |
| CSSStyleParser.FormatColorLexes | src/main/java/com/development/commons/tools/util/html/CSSStyleParser.java:75-78 | the `color` callback's value reads back as the same colour |
| CSSStyleParser.MinusDigitIsNumber | src/main/java/com/development/commons/tools/util/html/CSSStyleParser.java:487-492 | `-` before a digit starts a negative number, not a MINUS token |
| CSSStyleParser.HexColorSix | src/main/java/com/development/commons/tools/util/html/CSSStyleParser.java:359-363 | `#rrggbb` gives that colour |
| CSSStyleParser.HexColorThree | src/main/java/com/development/commons/tools/util/html/CSSStyleParser.java:365-372 | `#rgb` gives the colour with each digit doubled |
| CSSStyleParser.Expand3Doubles | src/main/java/com/development/commons/tools/util/html/CSSStyleParser.java:365-372 | the shifts and masks on a 3-digit value double each digit |
| CSSStyleParser.HexColorOtherLength | src/main/java/com/development/commons/tools/util/html/CSSStyleParser.java:350-375 | any other number of digits throws "invalid #RGB color", or NumberFormatException when too large for an `int` |
| CSSStyleParser.BlankStyle | src/main/java/com/development/commons/tools/util/html/CSSStyleParser.java:109-117 | a blank style makes no callback and completes |
| CSSStyleParser.DoubleSemicolon | src/main/java/com/development/commons/tools/util/html/CSSStyleParser.java:130-139 | `;` followed by `;` fails with "expected style name" |
| CSSStyleParser.TrailingSemicolon | src/main/java/com/development/commons/tools/util/html/CSSStyleParser.java:130-139 | a final `;` ends the declarations |
| CSSStyleParser.LoneSemicolon | src/main/java/com/development/commons/tools/util/html/CSSStyleParser.java:123-142 | the style `;` completes without a callback |
| CSSStyleParser.TwoSemicolons | src/main/java/com/development/commons/tools/util/html/CSSStyleParser.java:123-142 | the style `;;` fails at position 2 with "expected style name" |
| CSSStyleParser.NameBeforeColon | src/main/java/com/development/commons/tools/util/html/CSSStyleParser.java:159-163 | a name without a following `:` is reported, then fails with "expected ':' after style name" |
| CSSStyleParser.MissingTerm | src/main/java/com/development/commons/tools/util/html/CSSStyleParser.java:248-253 | a term of any other token fails with "expected style value" |
| CSSStyleParser.SignDropped | src/main/java/com/development/commons/tools/util/html/CSSStyleParser.java:209-211 | a leading sign is skipped and the term is read after it |
| HtmlScan.Initial | src/main/java/com/development/commons/tools/util/html/HtmlParser.java:471-484 | a fresh parser (offset 0, normal state, empty element stack and attributes) is a valid parser state for every input text |
| HtmlScan.SkipSpaces | src/main/java/com/development/commons/tools/util/html/HtmlParser.java:544-560 | `skipSpaces` stops at the first non-space character at or after the offset, or at the end; everything it passes over is a space (blank, newline, carriage return or tab) |
| HtmlScan.NameEnd | src/main/java/com/development/commons/tools/util/html/HtmlParser.java:983-994 | a tag or attribute name extends over letters, digits, `:` and `-` and ends at the first other character or at the end of the text |
| HtmlScan.HexRef | src/main/java/com/development/commons/tools/util/html/HtmlParser.java:761-803 | the hexadecimal reference reader consumes at least the `&#x` prefix and never runs past the text |
| HtmlScan.DecRef | src/main/java/com/development/commons/tools/util/html/HtmlParser.java:805-834 | the decimal reference reader consumes at least the `&#` and the first digit and never runs past the text |
| HtmlScan.NamedRef | src/main/java/com/development/commons/tools/util/html/HtmlParser.java:838-873 | the named reference reader consumes at least `&` and the first letter and never runs past the text |
| HtmlScan.AmpAt | src/main/java/com/development/commons/tools/util/html/HtmlParser.java:738-878 | `parseAmp` always consumes the `&` it starts on and stays within the text, so the text loop that calls it makes progress |
| HtmlScan.TextRun | src/main/java/com/development/commons/tools/util/html/HtmlParser.java:716-730 | `parseText` stops at the next `<` or at the end of the text, never before its starting offset |
| HtmlScan.TextRunStep | src/main/java/com/development/commons/tools/util/html/HtmlParser.java:716-730 | one round of the text loop (a plain character appended as itself, an `&` through `parseAmp`) advances the offset, keeps the end of the run and keeps the text read so far a prefix of the whole run's text |
| HtmlScan.CommentBody | src/main/java/com/development/commons/tools/util/html/HtmlParser.java:927-960 | reading a comment body changes only the offset and the text, advances past its start and yields COMMENT or, when the text ends first, TEXT |
| HtmlScan.CommentStep | src/main/java/com/development/commons/tools/util/html/HtmlParser.java:887-961 | `parseComment` changes only the offset, the text and the tag name, always advances, and yields COMMENT, DOCTYPE or TEXT |
| HtmlScan.InstructionEnd | src/main/java/com/development/commons/tools/util/html/HtmlParser.java:1270-1285 | skipping a processing instruction never moves backwards nor past the end of the text |
| HtmlScan.QuotedValue | src/main/java/com/development/commons/tools/util/html/HtmlParser.java:1136-1158 | reading a quoted attribute value never moves backwards nor past the end of the text |
| HtmlScan.UnquotedValueAsWritten | src/main/java/com/development/commons/tools/util/html/HtmlParser.java:1160-1172 | the unquoted value loop as written: when it does not fail, it stays within the text; the failing case is the one shown under Findings |
| HtmlScan.UnquotedValue | src/main/java/com/development/commons/tools/util/html/HtmlParser.java:1160-1172 | the unquoted value loop with the end of text checked after an entity reference: it stays within the text |
| HtmlScan.AttrValueAt | src/main/java/com/development/commons/tools/util/html/HtmlParser.java:1128-1176 | `parseAttrValue`, with the corrected unquoted-value reader (see Findings), never moves backwards nor past the end of the text |
| HtmlScan.AttrAt | src/main/java/com/development/commons/tools/util/html/HtmlParser.java:1001-1019 | one attribute (a name, then optionally `=` and a value) always consumes at least the name's first letter |
| HtmlScan.AttrAtValue | src/main/java/com/development/commons/tools/util/html/HtmlParser.java:1008-1014 | an attribute followed by `=` gets the value `parseAttrValue` reads after the spaces, and the loop goes on exactly when spaces follow that value |
| HtmlScan.AttrAtBare | src/main/java/com/development/commons/tools/util/html/HtmlParser.java:1008-1016 | an attribute without `=` gets a null value, and the loop goes on exactly when spaces followed the name |
| HtmlScan.AttrsFrom | src/main/java/com/development/commons/tools/util/html/HtmlParser.java:998-1021 | the attribute loop never moves backwards nor past the end of the text |
| HtmlScan.TagClose | src/main/java/com/development/commons/tools/util/html/HtmlParser.java:1023-1056 | the end of a start tag yields START_TAG (pushing the tag name; `/>` also enters the open-close state) or TEXT (stack and state unchanged), and touches nothing but offset, state, stack and text |
| HtmlScan.StartTagStep | src/main/java/com/development/commons/tools/util/html/HtmlParser.java:970-1057 | `parseStartTag` always advances; START_TAG pushes exactly the tag name read, TEXT leaves stack and state as they were |
| HtmlScan.LastIndexIgnoreCase | src/main/java/com/development/commons/tools/util/html/HtmlParser.java:1293-1309 | the result is -1 or the index of an entry equal to the name ignoring case, and no later entry is equal to it |
| HtmlScan.InnermostRequired | src/main/java/com/development/commons/tools/util/html/HtmlParser.java:1251-1257 | the count of entries left after dropping the optional tags from the top lies between the lower bound and the stack size |
| HtmlScan.InnermostIsRequired | src/main/java/com/development/commons/tools/util/html/HtmlParser.java:1253-1259 | when dropping optional tags stops above the lower bound, the entry it stops at needs an end tag |
| HtmlScan.NoneRequiredAbove | src/main/java/com/development/commons/tools/util/html/HtmlParser.java:1253-1256 | every entry dropped from the top of the stack is a tag whose end tag is optional |
| HtmlScan.PopTags | src/main/java/com/development/commons/tools/util/html/HtmlParser.java:1251-1263 | `popTags` yields END_TAG, shrinks the stack but never below the pop index, keeps a valid pop index when it stays in the popping state, and changes only stack, tag name and state |
| HtmlScan.EndTagMatch | src/main/java/com/development/commons/tools/util/html/HtmlParser.java:1215-1234 | a well-formed end tag yields END_TAG exactly when an open element matches it ignoring case, and shrinks the stack; otherwise it yields empty TEXT and changes only offset, text and pop index |
| HtmlScan.EndTagStep | src/main/java/com/development/commons/tools/util/html/HtmlParser.java:1185-1242 | `parseEndTag` always advances and yields END_TAG (stack shrinks) or TEXT (only offset, text and pop index change) and never enters the open-close state |
| HtmlScan.Closing | src/main/java/com/development/commons/tools/util/html/HtmlParser.java:662-676 | at the end of the text an END_TAG is reported for the innermost open element needing one (stack shrinks); when none is left, EOF with an empty stack |
| HtmlScan.Scan | src/main/java/com/development/commons/tools/util/html/HtmlParser.java:661-709 | every token read in the normal state leaves a valid parser state |
| HtmlScan.ScanSkipsInstruction | src/main/java/com/development/commons/tools/util/html/HtmlParser.java:691-693 | a processing instruction `<?...?>` produces no token of its own: reading resumes after it |
| HtmlScan.Step | src/main/java/com/development/commons/tools/util/html/HtmlParser.java:633-710 | `next()`, with the corrected unquoted-value reader (see Findings), takes a valid parser state to a valid parser state |
| HtmlTables.DecodeNamedEntity | src/main/java/com/development/commons/tools/util/html/HtmlParser.java:496-498 | `decodeNamedEntity` finds a character only for a non-empty ASCII name that the entity table holds, spelt exactly, and gives that entry's character |
| HtmlTables.EntityEntry | src/main/java/com/development/commons/tools/util/html/HtmlParser.java:146-402 | every entry of the entity table is found under its name with its character |
| HtmlTables.EntityMissing | src/main/java/com/development/commons/tools/util/html/HtmlParser.java:496-498 | a name the entity table does not hold gives null |
| HtmlTables.AmpEntry | src/main/java/com/development/commons/tools/util/html/HtmlParser.java:368 | `amp` decodes to `&` |
| HtmlTables.LtEntry | src/main/java/com/development/commons/tools/util/html/HtmlParser.java:369 | `lt` decodes to `<` |
| HtmlTables.GtEntry | src/main/java/com/development/commons/tools/util/html/HtmlParser.java:370 | `gt` decodes to `>` |
| HtmlTables.QuotEntry | src/main/java/com/development/commons/tools/util/html/HtmlParser.java:367 | `quot` decodes to `"` |
| HtmlTables.NbspEntry | src/main/java/com/development/commons/tools/util/html/HtmlParser.java:147 | `nbsp` decodes to U+00A0 |
| HtmlTables.AgraveUpperEntry | src/main/java/com/development/commons/tools/util/html/HtmlParser.java:179 | `Agrave` decodes to U+00C0 |
| HtmlTables.AgraveLowerEntry | src/main/java/com/development/commons/tools/util/html/HtmlParser.java:211 | `agrave` decodes to U+00E0: entity names are case-sensitive |
| HtmlTables.EuroEntry | src/main/java/com/development/commons/tools/util/html/HtmlParser.java:398 | `euro` decodes to U+20AC |
| HtmlTables.AmpUpperMissing | src/main/java/com/development/commons/tools/util/html/HtmlParser.java:496-498 | `AMP` is not an entity: the lookup does not fold case |
| HtmlTables.AposMissing | src/main/java/com/development/commons/tools/util/html/HtmlParser.java:146-402 | `apos` is not in the HTML 4.01 table, so it is not decoded |
| HtmlTables.CloseTagRequiredLit | src/main/java/com/development/commons/tools/util/html/HtmlParser.java:105-113 | a tag needs an end tag exactly when its upper-cased name is in the required set, whatever the case it is written in |
| HtmlTables.RequiredEndTags | src/main/java/com/development/commons/tools/util/html/HtmlParser.java:105-113 | `div` (in any case), `td` and `tr` need end tags |
| HtmlTables.POptional | src/main/java/com/development/commons/tools/util/html/HtmlParser.java:105-113 | `p` does not need an end tag |
| HtmlTables.LiOptional | src/main/java/com/development/commons/tools/util/html/HtmlParser.java:105-113 | `li` does not need an end tag |
| HtmlTables.ImgOptional | src/main/java/com/development/commons/tools/util/html/HtmlParser.java:105-113 | `img` does not need an end tag |
| HtmlTables.BrOptional | src/main/java/com/development/commons/tools/util/html/HtmlParser.java:105-113 | `br` does not need an end tag |
| HtmlSteps.ScanStartTag | src/main/java/com/development/commons/tools/util/html/HtmlParser.java:1084-1098 | whenever reading in the normal state yields START_TAG, the tag name is a well-formed name and is pushed on top of the element stack, nothing else is pushed |
| HtmlSteps.StartTagPushed | src/main/java/com/development/commons/tools/util/html/HtmlParser.java:1084-1098 | whenever `next()` yields START_TAG, the element stack grows by exactly that well-formed tag name |
| HtmlSteps.StepAtStartTag | src/main/java/com/development/commons/tools/util/html/HtmlParser.java:694-697 | `<` followed by a letter is read as a start tag |
| HtmlSteps.StartTagNoAttributes | src/main/java/com/development/commons/tools/util/html/HtmlParser.java:996-998 | a name not followed by a space reads no attributes |
| HtmlSteps.PlainStartTag | src/main/java/com/development/commons/tools/util/html/HtmlParser.java:970-1034 | `<name>` yields START_TAG with that name, no attributes, the offset just past `>` and the name pushed on the stack |
| HtmlSteps.SelfClosing | src/main/java/com/development/commons/tools/util/html/HtmlParser.java:638-654 | after `<name/>` the next call yields END_TAG and pops the name when the tag needs an end tag, and otherwise just goes on reading |
| HtmlSteps.AttributeNames | src/main/java/com/development/commons/tools/util/html/HtmlParser.java:1059-1123 | the attribute loop only appends, and every attribute name it reads is a well-formed name |
| HtmlSteps.ScanProgress | src/main/java/com/development/commons/tools/util/html/HtmlParser.java:661-709 | reading in the normal state either reaches EOF (at the end of the text, empty stack, normal state) or makes progress: the offset grows, or it stays and the stack shrinks |
| HtmlSteps.StepProgress | src/main/java/com/development/commons/tools/util/html/HtmlParser.java:633-710 | with the corrected unquoted-value reader (see Findings), every `next()` either yields EOF (end of text, empty stack) or makes progress, so repeated calls always reach EOF |
| HtmlSteps.EofRepeats | src/main/java/com/development/commons/tools/util/html/HtmlParser.java:662-675 | once EOF is returned, every further `next()` returns EOF again |
| HtmlSteps.Tokens | src/main/java/com/development/commons/tools/util/html/HtmlParser.java:633-710 | with the corrected unquoted-value reader (see Findings), the tokens of a document: successive `next()` results from a state, all before the last not EOF, the last one EOF |
| HtmlSteps.StepAtEnd | src/main/java/com/development/commons/tools/util/html/HtmlParser.java:662 | at the end of the text in the normal state, `next()` closes open elements |
| HtmlSteps.ClosingNone | src/main/java/com/development/commons/tools/util/html/HtmlParser.java:664-675 | when no open element needs an end tag, EOF is returned and the stack is emptied |
| HtmlSteps.ClosingTop | src/main/java/com/development/commons/tools/util/html/HtmlParser.java:664-672 | otherwise END_TAG is returned for the innermost open element that needs one, and the elements above it are dropped |
| HtmlSteps.EndOfInput | src/main/java/com/development/commons/tools/util/html/HtmlParser.java:662-676 | at the end of the text the remaining tokens are END_TAGs for exactly the open elements that need an end tag, innermost first, then EOF |
| HtmlSteps.EndOfInputTop | src/main/java/com/development/commons/tools/util/html/HtmlParser.java:662-676 | the same, in the case where some open element needs an end tag |
| HtmlSteps.StepPopping | src/main/java/com/development/commons/tools/util/html/HtmlParser.java:656-658 | in the popping state `next()` is `popTags` |
| HtmlSteps.PopRun | src/main/java/com/development/commons/tools/util/html/HtmlParser.java:656-658 | the calls made while popping all yield END_TAG |
| HtmlSteps.PopsDown | src/main/java/com/development/commons/tools/util/html/HtmlParser.java:1251-1263 | the tags reported while popping down to the pop index are the required-end-tag elements above it, innermost first, then the element at the pop index |
| HtmlSteps.PopsDownFinal | src/main/java/com/development/commons/tools/util/html/HtmlParser.java:1251-1263 | popping ends in the normal state with the stack cut at the pop index and the tag name of the element at the pop index |
| HtmlSteps.PopTop | src/main/java/com/development/commons/tools/util/html/HtmlParser.java:1251-1263 | one `popTags` drops the optional tags from the top, reports the innermost required one (or the pop index entry) and stays popping exactly when it has not reached the pop index |
| HtmlSteps.StepAtEndTag | src/main/java/com/development/commons/tools/util/html/HtmlParser.java:689-690 | `</` is read as an end tag |
| HtmlSteps.EndTagUnmatched | src/main/java/com/development/commons/tools/util/html/HtmlParser.java:1218-1229 | an end tag matching no open element yields empty TEXT, consumes the tag and leaves the stack alone |
| HtmlSteps.EndTagPops | src/main/java/com/development/commons/tools/util/html/HtmlParser.java:1215-1234 | an end tag matching an open element (the innermost match, ignoring case) writes its own spelling into that entry and starts popping there |
| HtmlSteps.EndTagMatched | src/main/java/com/development/commons/tools/util/html/HtmlParser.java:1215-1234 | the END_TAGs an end tag brings are the required-end-tag elements above the match, innermost first, then the tag as spelt in the end tag; afterwards the stack is cut below the match |
| HtmlSteps.DecimalRun | src/main/java/com/development/commons/tools/util/html/HtmlParser.java:810-834 | the decimal loop accumulates the digits up to `;` and yields that number as a 16-bit char |
| HtmlSteps.DecimalReference | src/main/java/com/development/commons/tools/util/html/HtmlParser.java:805-834 | `&#digits;` becomes the one character whose code is the number modulo 65536, and reading resumes after `;` |
| HtmlSteps.HexRun | src/main/java/com/development/commons/tools/util/html/HtmlParser.java:766-803 | the hexadecimal loop accumulates the digits up to `;` and yields that number as a 16-bit char |
| HtmlSteps.HexReference | src/main/java/com/development/commons/tools/util/html/HtmlParser.java:761-803 | `&#xhex;` (or `&#X`) with at least one digit becomes the character whose code is the number modulo 65536 |
| HtmlSteps.EmptyHexReference | src/main/java/com/development/commons/tools/util/html/HtmlParser.java:775-779 | `&#x;` is not a reference: `&#x` is kept as text and the `;` is dropped |
| HtmlSteps.NamedRun | src/main/java/com/development/commons/tools/util/html/HtmlParser.java:841-873 | the name loop reads letters and digits up to `;` and yields the entity's character, or the raw `&name` text when the table lacks it |
| HtmlSteps.NamedReference | src/main/java/com/development/commons/tools/util/html/HtmlParser.java:838-873 | `&name;` becomes the entity's character when the table holds the name, and `&name` as text (the `;` dropped) otherwise |
| HtmlSteps.UnquotedAmpAtEnd | src/main/java/com/development/commons/tools/util/html/HtmlParser.java:1160-1172 | an unquoted attribute value whose `&` is the text's last character makes the loop as written read past the end, while the corrected loop ends the value there |
| HtmlSteps.UnquotedAmpExample | src/main/java/com/development/commons/tools/util/html/HtmlParser.java:1160-1172 | `<a b=&` is such an input: the loop as written throws an index-out-of-bounds exception |
| HtmlSteps.UnquotedAgrees | src/main/java/com/development/commons/tools/util/html/HtmlParser.java:1160-1172 | the corrected loop gives the same value and offset as the loop as written wherever the latter does not fail, and where it fails ends the value at the end of the text |
| HtmlParser.HtmlParser.constructor | src/main/java/com/development/commons/tools/util/html/HtmlParser.java:471-484 | a new parser holds the text, starts at offset 0 in the normal state with no attributes and an empty element stack, and is valid |
| HtmlParser.HtmlParser.GetText | src/main/java/com/development/commons/tools/util/html/HtmlParser.java:565-567 | gives the text of the last token |
| HtmlParser.HtmlParser.GetName | src/main/java/com/development/commons/tools/util/html/HtmlParser.java:573-575 | gives the tag name of the last token |
| HtmlParser.HtmlParser.GetAttributeCount | src/main/java/com/development/commons/tools/util/html/HtmlParser.java:582-584 | gives the number of attributes of the last start tag |
| HtmlParser.HtmlParser.GetAttributeName | src/main/java/com/development/commons/tools/util/html/HtmlParser.java:592-597 | gives the name of attribute `index` exactly when the index is within the count, and an index-out-of-bounds exception otherwise |
| HtmlParser.HtmlParser.GetAttributeValue | src/main/java/com/development/commons/tools/util/html/HtmlParser.java:607-612 | gives the value (null for a bare attribute) of attribute `index` exactly when the index is within the count, and an index-out-of-bounds exception otherwise |
| HtmlParser.HtmlParser.SkipBlanks | src/main/java/com/development/commons/tools/util/html/HtmlParser.java:544-560 | `skipSpaces` moves the offset to the end of the run of spaces and reports whether it moved |
| HtmlParser.HtmlParser.ScanName | src/main/java/com/development/commons/tools/util/html/HtmlParser.java:983-994 | the name loop stops where the name ends |
| HtmlParser.HtmlParser.ParseHexRef | src/main/java/com/development/commons/tools/util/html/HtmlParser.java:761-803 | the hexadecimal reference loop computes the piece of text and the resume offset of the reference reader |
| HtmlParser.HtmlParser.ParseDecRef | src/main/java/com/development/commons/tools/util/html/HtmlParser.java:805-834 | the decimal reference loop computes the piece of text and the resume offset of the reference reader |
| HtmlParser.HtmlParser.ParseNamedRef | src/main/java/com/development/commons/tools/util/html/HtmlParser.java:838-873 | the named reference loop computes the piece of text and the resume offset of the reference reader |
| HtmlParser.HtmlParser.ParseAmp | src/main/java/com/development/commons/tools/util/html/HtmlParser.java:738-878 | `parseAmp` appends what the reference stands for and moves to where reading resumes |
| HtmlParser.HtmlParser.ParseText | src/main/java/com/development/commons/tools/util/html/HtmlParser.java:716-730 | `parseText` appends the text up to the next `<` with references replaced, and stops at that `<` or at the end |
| HtmlParser.HtmlParser.ParseCommentBody | src/main/java/com/development/commons/tools/util/html/HtmlParser.java:927-960 | the comment body loop sets offset, text and token kind as the comment reader prescribes |
| HtmlParser.HtmlParser.ParseComment | src/main/java/com/development/commons/tools/util/html/HtmlParser.java:887-961 | `parseComment` sets offset, text, tag name and token kind (COMMENT, DOCTYPE or TEXT) as the comment reader prescribes |
| HtmlParser.HtmlParser.StripProcessingInstruction | src/main/java/com/development/commons/tools/util/html/HtmlParser.java:1270-1285 | the offset moves just past the next `>`, or to the end of the text |
| HtmlParser.HtmlParser.ParseAttrName | src/main/java/com/development/commons/tools/util/html/HtmlParser.java:1105-1123 | null with the offset unchanged unless a letter is next; otherwise the whole name, with the offset at its end |
| HtmlParser.HtmlParser.ParseQuotedValue | src/main/java/com/development/commons/tools/util/html/HtmlParser.java:1136-1158 | the quoted value loop computes the value and resume offset the value reader prescribes |
| HtmlParser.HtmlParser.ParseUnquotedValue | src/main/java/com/development/commons/tools/util/html/HtmlParser.java:1160-1172 | the unquoted value loop computes the value and resume offset the corrected reader prescribes: it checks for the end of the text after a reference, where the source does not (see Left out) |
| HtmlParser.HtmlParser.ParseAttrValue | src/main/java/com/development/commons/tools/util/html/HtmlParser.java:1128-1176 | `parseAttrValue`, with the corrected unquoted-value reader (see Findings), returns the value and leaves the offset where the value reader says |
| HtmlParser.HtmlParser.AddAttribute | src/main/java/com/development/commons/tools/util/html/HtmlParser.java:1059-1070 | the attribute is appended after the existing ones; the count grows by one |
| HtmlParser.HtmlParser.ParseAttribute | src/main/java/com/development/commons/tools/util/html/HtmlParser.java:1001-1019 | with no letter next, nothing is read and the loop stops; otherwise one attribute is appended and the loop goes on exactly when spaces followed it |
| HtmlParser.HtmlParser.ParseAttributes | src/main/java/com/development/commons/tools/util/html/HtmlParser.java:998-1021 | the attribute loop leaves the attributes and the offset the attribute reader prescribes |
| HtmlParser.HtmlParser.PushTag | src/main/java/com/development/commons/tools/util/html/HtmlParser.java:1084-1098 | `startTag` pushes the tag name on the element stack, whether or not its end tag is required |
| HtmlParser.HtmlParser.FinishStartTag | src/main/java/com/development/commons/tools/util/html/HtmlParser.java:1023-1056 | the end of a start tag leaves the state and token kind the tag-close reader prescribes |
| HtmlParser.HtmlParser.ParseStartTag | src/main/java/com/development/commons/tools/util/html/HtmlParser.java:970-1057 | `parseStartTag` leaves the state and token kind the start tag reader prescribes |
| HtmlParser.HtmlParser.LastIndexOfIgnoreCase | src/main/java/com/development/commons/tools/util/html/HtmlParser.java:1293-1309 | the backwards search finds the last entry equal to the name ignoring case, or -1 |
| HtmlParser.HtmlParser.DropOptional | src/main/java/com/development/commons/tools/util/html/HtmlParser.java:1253-1257 | dropping optional tags from the top of the stack down to a bound leaves the stack cut where the innermost required entry is |
| HtmlParser.HtmlParser.PopTags | src/main/java/com/development/commons/tools/util/html/HtmlParser.java:1251-1263 | `popTags` leaves the parser in the state the popping step prescribes |
| HtmlParser.HtmlParser.ParseEndTag | src/main/java/com/development/commons/tools/util/html/HtmlParser.java:1185-1242 | `parseEndTag` leaves the state and token kind the end tag reader prescribes |
| HtmlParser.HtmlParser.MatchEndTag | src/main/java/com/development/commons/tools/util/html/HtmlParser.java:1215-1234 | a well-formed end tag is matched against the stack as the end tag matcher prescribes |
| HtmlParser.HtmlParser.CloseAtEnd | src/main/java/com/development/commons/tools/util/html/HtmlParser.java:662-676 | at the end of the text the stack and token kind are those the closing step prescribes |
| HtmlParser.HtmlParser.ScanNext | src/main/java/com/development/commons/tools/util/html/HtmlParser.java:661-709 | the reading loop of `next()` yields the token and state the normal-state reader prescribes |
| HtmlParser.HtmlParser.ScanToken | src/main/java/com/development/commons/tools/util/html/HtmlParser.java:677-708 | one pass of that loop, at anything but a processing instruction |
| HtmlParser.HtmlParser.Next | src/main/java/com/development/commons/tools/util/html/HtmlParser.java:633-710 | `next()`, with the corrected unquoted-value reader (see Findings), yields the token and state the step function prescribes and keeps the parser valid; with the lemmas on the step function this gives progress, EOF repetition and the end-of-text closing order |
| ResourceScanner.ExtPattern | src/main/java/com/development/commons/tools/xi/util/resource/ResourceScanner.java:140-141 | escaping a file extension into a regular expression never shortens it |
| ResourceScanner.ExtPatternRoundTrip | src/main/java/com/development/commons/tools/xi/util/resource/ResourceScanner.java:140-141 | the escaping loses nothing: for an extension without a backslash, the extension can be read back from its pattern |
| ResourceScanner.ExtPatternChars | src/main/java/com/development/commons/tools/xi/util/resource/ResourceScanner.java:140-141 | a pattern holds only the extension's own characters plus backslash, dot and star |
| ResourceScanner.ExtPatterns | src/main/java/com/development/commons/tools/xi/util/resource/ResourceScanner.java:138-148 | each extension is escaped on its own, in order |
| ResourceScanner.InitFilePattern | src/main/java/com/development/commons/tools/xi/util/resource/ResourceScanner.java:130-153 | no extension list, or one whose first entry is `*`, gives `.+`; an empty list fails with an index-out-of-bounds exception; otherwise the escaped extensions joined by `\|` |
| ResourceScanner.JoinedPatterns | src/main/java/com/development/commons/tools/xi/util/resource/ResourceScanner.java:138-148 | the loop builds the escaped extensions joined by `\|` |
| ResourceScanner.FilePatternAlternatives | src/main/java/com/development/commons/tools/xi/util/resource/ResourceScanner.java:134-148 | splitting the file pattern at `\|` gives back each extension's pattern, in order, when no extension holds `\|` |
| ResourceScanner.JarPatternLiteral | src/main/java/com/development/commons/tools/xi/util/resource/ResourceScanner.java:253-264 | a path pattern without `*` or `#` becomes the joined path followed by `/.*` |
| ResourceScanner.Visited | src/main/java/com/development/commons/tools/xi/util/resource/ResourceScanner.java:293-305 | a resource the visitor converts is visited once, appended after the earlier ones; one it does not convert leaves the visits unchanged |
| ResourceScanner.WalkWhenDone | src/main/java/com/development/commons/tools/xi/util/resource/ResourceScanner.java:170-221 | once the visitor is done, the directory walk visits nothing more |
| ResourceScanner.WalkDirectoryPastPatterns | src/main/java/com/development/commons/tools/xi/util/resource/ResourceScanner.java:175-186 | a sub-directory met after all pattern segments are used makes the walk index past the segment array: an index-out-of-bounds exception |
| ResourceScanner.WalkVisits | src/main/java/com/development/commons/tools/xi/util/resource/ResourceScanner.java:167-224 | a directory walk only appends to the visits, and every value it appends is the conversion of a resource whose name matches the file pattern and whose path ends in `/` and that name |
| ResourceScanner.WalkVisitsFile | src/main/java/com/development/commons/tools/xi/util/resource/ResourceScanner.java:175-197 | the same for a file child visited at the end of the segments or under a final `**` |
| ResourceScanner.WalkVisitsDir | src/main/java/com/development/commons/tools/xi/util/resource/ResourceScanner.java:185-213 | the same for a directory child entered by a matching segment, `*` or `**` |
| ResourceScanner.WalkVisitsSkip | src/main/java/com/development/commons/tools/xi/util/resource/ResourceScanner.java:170-222 | the same for a child the walk passes over |
| ResourceScanner.WalkFinds | src/main/java/com/development/commons/tools/xi/util/resource/ResourceScanner.java:175-197 | conversely, for a visitor that is never done, a walk that succeeds visits every file child whose name matches the file pattern once the segments are used up or under a final `**`, whenever its conversion gives a value |
| ResourceScanner.WalkFindsAfterDir | src/main/java/com/development/commons/tools/xi/util/resource/ResourceScanner.java:185-213 | the same, past a directory child the walk enters |
| ResourceScanner.EntryResource | src/main/java/com/development/commons/tools/xi/util/resource/ResourceScanner.java:344-355 | an archive entry's resource keeps the entry name as its path, and its name is a suffix of that path |
| ResourceScanner.EntryResourceName | src/main/java/com/development/commons/tools/xi/util/resource/ResourceScanner.java:347-351 | the resource name is the part after the last `/`: it holds no `/`, and an entry without `/` is its own name |
| ResourceScanner.JarVisitedSnoc | src/main/java/com/development/commons/tools/xi/util/resource/ResourceScanner.java:268-280 | one round of the archive loop visits the entry exactly when it is no directory, its name matches the path pattern and its last part matches the file pattern |
| ResourceScanner.Scanner.constructor | src/main/java/com/development/commons/tools/xi/util/resource/ResourceScanner.java:62-66 | the scanner keeps its root location, resource pattern and visitor, with nothing visited yet |
| ResourceScanner.Scanner.VisitItem | src/main/java/com/development/commons/tools/xi/util/resource/ResourceScanner.java:293-305 | `visitItem` records the visitor's conversion of the resource when there is one, and nothing else changes |
| ResourceScanner.Scanner.FindDirResources | src/main/java/com/development/commons/tools/xi/util/resource/ResourceScanner.java:167-224 | `findDirResources` leaves exactly the visits the directory walk prescribes, or reports the exception that walk raises |
| ResourceScanner.Scanner.FindDirChild | src/main/java/com/development/commons/tools/xi/util/resource/ResourceScanner.java:171-218 | one round of the child loop does what the walk prescribes for that child |
| ResourceScanner.Scanner.FindJarResources | src/main/java/com/development/commons/tools/xi/util/resource/ResourceScanner.java:247-285 | `findJarResources` visits, in order, the archive entries the path pattern and the file pattern select |
| ResourceScanner.Scanner.Scan | src/main/java/com/development/commons/tools/xi/util/resource/ResourceScanner.java:74-123 | a missing root fails with `Root location was null`; a failing file pattern fails with its exception; otherwise an archive root visits the selected entries and a directory root the files the walk selects, with the resource pattern split at `/` |
| StringUtils.BlankMeaning | src/main/java/com/development/commons/tools/StringUtils.java:890-903 | `isBlank` holds exactly for null or a string of characters all at most `' '`; every empty string is blank, `" \t"` is blank and `" "` is not empty |
| StringUtils.NotNull | src/main/java/com/development/commons/tools/StringUtils.java:252-254 | a string comes back unchanged and null becomes `""` |
| StringUtils.Length | src/main/java/com/development/commons/tools/StringUtils.java:285-287 | the length is 0 exactly for a null or empty string |
| StringUtils.EqualsMeaning | src/main/java/com/development/commons/tools/StringUtils.java:1304-1309 | `equals` is true exactly when both are null or both hold the same characters, and it is symmetric |
| StringUtils.SpaceIsBlank | src/main/java/com/development/commons/tools/StringUtils.java:913-920 | every character `isSpace` accepts is blank, but not conversely: the vertical tab is blank and no space |
| StringUtils.TrimToNull | src/main/java/com/development/commons/tools/StringUtils.java:930-947 | a string gives null exactly when it is blank, and otherwise its trimmed form |
| StringUtils.WordCodes | src/main/java/com/development/commons/tools/StringUtils.java:53-66 | the true words are true, yes, y, t, on, 1 and the false words false, no, n, f, off, 0 |
| StringUtils.WordSetsDisjoint | src/main/java/com/development/commons/tools/StringUtils.java:53-66 | no word is both true and false |
| StringUtils.GetBooleanDecided | src/main/java/com/development/commons/tools/StringUtils.java:124-136 | the default matters exactly when the trimmed, lower-cased value is neither a true nor a false word; a blank value gives the default |
| StringUtils.GetBooleanOrFalse | src/main/java/com/development/commons/tools/StringUtils.java:110-112 | `getBoolean(str)` is true only for a non-blank value |
| StringUtils.GetBooleanIgnoresCase | src/main/java/com/development/commons/tools/StringUtils.java:124-136 | values equal ignoring case give the same answer |
| StringUtils.GetBooleanTrimsAndLowers | src/main/java/com/development/commons/tools/StringUtils.java:124-136 | `" Yes "` is true: the value is trimmed and lower-cased first |
| StringUtils.GetBooleanOff | src/main/java/com/development/commons/tools/StringUtils.java:124-136 | `OFF` is false whatever the default |
| StringUtils.GetBooleanOtherWord | src/main/java/com/development/commons/tools/StringUtils.java:124-136 | `maybe` gives the default |
| StringUtils.GetInteger | src/main/java/com/development/commons/tools/StringUtils.java:180-189 | a non-blank value that parses as a 32-bit int gives that int; a blank or unparsable one gives the default |
| StringUtils.GetLong | src/main/java/com/development/commons/tools/StringUtils.java:147-156 | the same for a 64-bit long |
| StringUtils.GetIntegerReadsBack | src/main/java/com/development/commons/tools/StringUtils.java:147-189 | the decimal text of a number reads back as that number when it is within range and as the default otherwise; `" 12"` gives the default because the value is not trimmed |
| StringUtils.RemoveCRLF | src/main/java/com/development/commons/tools/StringUtils.java:1373-1380 | null fails; the result is a prefix of the url with no line feed, the whole url when it has none, and otherwise the part before its first line feed |
| StringUtils.RemoveCRLFIdempotent | src/main/java/com/development/commons/tools/StringUtils.java:1373-1380 | removing twice is removing once, and a carriage return before the line feed is kept |
| StringUtils.Replace | src/main/java/com/development/commons/tools/StringUtils.java:356-392 | the replacement loop yields the text the replacement function describes |
| StringUtils.ReplaceBySelf | src/main/java/com/development/commons/tools/StringUtils.java:356-392 | replacing a string by itself leaves the text unchanged |
| StringUtils.ReplaceAbsent | src/main/java/com/development/commons/tools/StringUtils.java:356-392 | a text without an occurrence comes back unchanged |
| StringUtils.ReplaceFirst | src/main/java/com/development/commons/tools/StringUtils.java:356-392 | with `max` 1 only the first occurrence is replaced |
| StringUtils.ReplaceUnlimited | src/main/java/com/development/commons/tools/StringUtils.java:356-392 | any negative `max`, or one larger than the remaining text, means no limit: they all give the same result |
| StringUtils.ReplaceNoOpExamples | src/main/java/com/development/commons/tools/StringUtils.java:332-337 | a null `with`, `max` 0, a null text or an empty search string leave the text as it is |
| StringUtils.ReplaceCountExamples | src/main/java/com/development/commons/tools/StringUtils.java:341-342 | `replace("abaa", "a", "z", 1)` is `zbaa` and with 2 it is `zbza`: occurrences are replaced left to right up to `max` |
| StringUtils.ReplaceAllAbaa | src/main/java/com/development/commons/tools/StringUtils.java:339-343 | with no limit every `a` of `abaa` is replaced, for any replacement string |
| StringUtils.ReplaceAllExamples | src/main/java/com/development/commons/tools/StringUtils.java:339-343 | `replace("abaa", "a", "z", -1)` is `zbzz` and with `""` it is `b` |
| StringUtils.ReplaceChar | src/main/java/com/development/commons/tools/StringUtils.java:421-426 | null stays null; otherwise every occurrence of the search character becomes the replacement and every other character stays, the length unchanged |
| StringUtils.ReplaceCharBack | src/main/java/com/development/commons/tools/StringUtils.java:421-426 | replacing `c` by a `d` not in the text removes every `c`, and replacing back restores the text |
| StringUtils.MapChar | src/main/java/com/development/commons/tools/StringUtils.java:505-516 | a character not searched for is kept; one at first index `i` of the search characters becomes the `i`-th replacement, or is deleted when there is none |
| StringUtils.ReplaceChars | src/main/java/com/development/commons/tools/StringUtils.java:494-520 | the loop yields the text the per-character mapping describes; an empty text or empty search characters give the input back |
| StringUtils.CharsReplacedUntouched | src/main/java/com/development/commons/tools/StringUtils.java:494-520 | a text with no searched character comes back unchanged |
| StringUtils.CharsReplacedBack | src/main/java/com/development/commons/tools/StringUtils.java:494-520 | mapping with two equal-length tables of distinct characters and then with the tables swapped restores the text |
| StringUtils.ReplaceCharsJelly | src/main/java/com/development/commons/tools/StringUtils.java:460 | `replaceChars("hello", "ho", "jy")` is `jelly` |
| StringUtils.ReplaceCharsDeletes | src/main/java/com/development/commons/tools/StringUtils.java:481 | `replaceChars("abcba", "bc", "y")` is `ayya`: a search character without a replacement is deleted |
| StringUtils.Join | src/main/java/com/development/commons/tools/StringUtils.java:220-229 | null fails; otherwise the elements (null written as `null`) with the separator between them and only there |
| StringUtils.JoinMeaning | src/main/java/com/development/commons/tools/StringUtils.java:220-229 | joining nothing gives `""`, one element gives it alone, and splitting a join at a separator character absent from the elements gives the elements back |
| StringUtils.Hex4 | src/main/java/com/development/commons/tools/StringUtils.java:444-448 | each character becomes exactly four lower-case hex digits |
| StringUtils.Hex4Value | src/main/java/com/development/commons/tools/StringUtils.java:444-448 | the four digits read back as the character's code |
| StringUtils.HexCodes | src/main/java/com/development/commons/tools/StringUtils.java:435-451 | the hex text is four times as long as the input |
| StringUtils.HexCodesAt | src/main/java/com/development/commons/tools/StringUtils.java:435-451 | the `i`-th group of four digits encodes the `i`-th character |
| StringUtils.HexCodesAreHex | src/main/java/com/development/commons/tools/StringUtils.java:435-451 | the output holds only hex digits |
| StringUtils.ToHexString | src/main/java/com/development/commons/tools/StringUtils.java:435-451 | null stays null; otherwise the loop yields the hex text |
| StringUtils.Native | src/main/java/com/development/commons/tools/StringUtils.java:1350-1360 | a character at most `~` is kept as it is |
| StringUtils.NativeEscape | src/main/java/com/development/commons/tools/StringUtils.java:1354-1359 | any other character becomes two backslashes, `u` and four lower-case hex digits that read back as its code |
| StringUtils.NativeIsAscii | src/main/java/com/development/commons/tools/StringUtils.java:1350-1360 | each character's output holds only characters at most `~` |
| StringUtils.NativeToAsciiIsAscii | src/main/java/com/development/commons/tools/StringUtils.java:1340-1363 | the whole output holds only characters at most `~` |
| StringUtils.NativeToAsciiOfAscii | src/main/java/com/development/commons/tools/StringUtils.java:1340-1363 | a text of characters at most `~` comes back unchanged |
| StringUtils.NativeChar | src/main/java/com/development/commons/tools/StringUtils.java:1350-1360 | one round of the loop appends the character's output |
| StringUtils.Native2Ascii | src/main/java/com/development/commons/tools/StringUtils.java:1340-1363 | null stays null; otherwise the loop yields the escaped text |
| StringUtils.IsNumeric | src/main/java/com/development/commons/tools/StringUtils.java:1205-1216 | true exactly for a non-null string of digits only (the empty string included) |
| StringUtils.IsHex | src/main/java/com/development/commons/tools/StringUtils.java:858-865 | null fails; otherwise true exactly when every character is a hex digit |
| StringUtils.ContainsNonBasicLatinChars | src/main/java/com/development/commons/tools/StringUtils.java:1318-1331 | true exactly for a non-null string with a character above U+00FF |
| StringUtils.Kept | src/main/java/com/development/commons/tools/StringUtils.java:741-750 | the kept characters are all good, and no more than the input |
| StringUtils.KeptAllGood | src/main/java/com/development/commons/tools/StringUtils.java:741-750 | stripping leaves a text unchanged exactly when all its characters are good |
| StringUtils.KeptIsSubsequence | src/main/java/com/development/commons/tools/StringUtils.java:741-750 | every kept character comes from the input |
| StringUtils.Strip | src/main/java/com/development/commons/tools/StringUtils.java:741-750 | a null text, or null good characters with a non-empty text, fail; otherwise the text with only the good characters kept, in order |
| StringUtils.GoodCharsMeaning | src/main/java/com/development/commons/tools/StringUtils.java:727-730 | the default good characters are space, hyphen, ASCII letters and digits |
| StringUtils.StripDefault | src/main/java/com/development/commons/tools/StringUtils.java:727-730 | null fails; otherwise only the default good characters are kept |
| StringUtils.Normalize | src/main/java/com/development/commons/tools/StringUtils.java:759-771 | the text is lower-cased, stripped to the default good characters and trimmed; null gives `""` |
| StringUtils.NormalizedMeaning | src/main/java/com/development/commons/tools/StringUtils.java:759-771 | a normalised text holds only spaces, hyphens, lower-case letters and digits, and neither starts nor ends with a space |
| StringUtils.NormalizedIdempotent | src/main/java/com/development/commons/tools/StringUtils.java:759-771 | normalising twice is normalising once |
| StringUtils.Indent | src/main/java/com/development/commons/tools/StringUtils.java:239-243 | two spaces are appended per level, none for a level of 0 or less |
| StringUtils.Tokens | src/main/java/com/development/commons/tools/StringUtils.java:1286-1293 | the tokens of a text are non-empty and hold no delimiter |
| StringUtils.Tokenize | src/main/java/com/development/commons/tools/StringUtils.java:1286-1293 | a null text or delimiter set fails; otherwise the loop yields the tokens in order |
| StringUtils.Split | src/main/java/com/development/commons/tools/StringUtils.java:202-209 | the same for `split` |
| StringUtils.TrimAll | src/main/java/com/development/commons/tools/StringUtils.java:1253-1255 | each token is trimmed in place |
| StringUtils.GetListFromString | src/main/java/com/development/commons/tools/StringUtils.java:1247-1258 | null gives null; a null delimiter set fails; otherwise the trimmed tokens |
| StringUtils.TokensOfPlainText | src/main/java/com/development/commons/tools/StringUtils.java:1286-1293 | a text without delimiters is one token, or none when empty |
| StringUtils.TokensOfDelimiters | src/main/java/com/development/commons/tools/StringUtils.java:1286-1293 | a text of delimiters only has no tokens |
| StringUtils.TokensOfJoin | src/main/java/com/development/commons/tools/StringUtils.java:202-229 | splitting a join of non-empty, delimiter-free parts at a delimiter gives the parts back |
| XMLEncoding.At | src/main/java/com/development/commons/tools/util/xml/XMLUtils.java:1029-1106 | reading a byte of the header succeeds exactly within the array and otherwise raises the index-out-of-bounds exception that `detectEncoding` catches |
| XMLEncoding.StrideShift | src/main/java/com/development/commons/tools/util/xml/XMLUtils.java:1136 | starting one step later is the same as taking one step more: positions `off + k * inc` written without multiplication |
| XMLEncoding.StrideUnit | src/main/java/com/development/commons/tools/util/xml/XMLUtils.java:1136 | with a step of 1 the `k`-th position is `off + k` |
| XMLEncoding.IsSpaceMask | src/main/java/com/development/commons/tools/util/xml/XMLUtils.java:1144-1148 | the bit-mask test accepts exactly blank, tab, carriage return and line feed |
| XMLEncoding.MatchesRestMeaning | src/main/java/com/development/commons/tools/util/xml/XMLUtils.java:1134-1142 | the comparison loop from the `i`-th byte answers true exactly when every remaining test byte equals the data byte at its strided position |
| XMLEncoding.MatchesMeaning | src/main/java/com/development/commons/tools/util/xml/XMLUtils.java:1134-1142 | `matches` answers true exactly when every test byte equals the data byte at its strided position |
| XMLEncoding.MatchesUnit | src/main/java/com/development/commons/tools/util/xml/XMLUtils.java:1134-1142 | with a step of 1, a test found in place matches |
| XMLEncoding.Matches | src/main/java/com/development/commons/tools/util/xml/XMLUtils.java:1134-1142 | the loop computes the strided comparison, failing with an index-out-of-bounds exception when it runs off the array |
| XMLEncoding.SpacesEnd | src/main/java/com/development/commons/tools/util/xml/XMLUtils.java:1150-1155 | skipping spaces stops at a non-space byte at or after the start, or runs off the array |
| XMLEncoding.SpacesEndMeaning | src/main/java/com/development/commons/tools/util/xml/XMLUtils.java:1150-1155 | the stop is some `n` steps on, and every byte passed over is a space |
| XMLEncoding.NoSpaceToSkip | src/main/java/com/development/commons/tools/util/xml/XMLUtils.java:1150-1155 | at a non-space byte nothing is skipped |
| XMLEncoding.SkipSpaces | src/main/java/com/development/commons/tools/util/xml/XMLUtils.java:1150-1155 | the loop computes the skipped-to position |
| XMLEncoding.ByteChar | src/main/java/com/development/commons/tools/util/xml/XMLUtils.java:1107 | the `(char)` cast of a signed byte keeps ASCII bytes and sign-extends the others into U+FF80..U+FFFF |
| XMLEncoding.Widened | src/main/java/com/development/commons/tools/util/xml/XMLUtils.java:1105-1109 | each byte of the encoding name becomes its widened char |
| XMLEncoding.QuotedText | src/main/java/com/development/commons/tools/util/xml/XMLUtils.java:1105-1108 | the name loop stops at the closing quote (or runs off the array) |
| XMLEncoding.QuotedTextMeaning | src/main/java/com/development/commons/tools/util/xml/XMLUtils.java:1105-1108 | the name is the widened bytes at the strided positions before the quote, none of them the quote |
| XMLEncoding.QuotedTextReads | src/main/java/com/development/commons/tools/util/xml/XMLUtils.java:1105-1108 | with a step of 1, a quote-free name followed by the quote reads back as that name |
| XMLEncoding.ScanDeclaration | src/main/java/com/development/commons/tools/util/xml/XMLUtils.java:1020-1103 | a recognised declaration ends at a quote character lying after `<?xml` |
| XMLEncoding.ScanVersion | src/main/java/com/development/commons/tools/util/xml/XMLUtils.java:1037-1071 | after `version`, a recognised declaration ends at a later quote |
| XMLEncoding.ScanVersionValue | src/main/java/com/development/commons/tools/util/xml/XMLUtils.java:1046-1071 | the same after the `=` of the version |
| XMLEncoding.ScanVersionNum | src/main/java/com/development/commons/tools/util/xml/XMLUtils.java:1060-1079 | the same after the version's opening quote |
| XMLEncoding.ScanEncoding | src/main/java/com/development/commons/tools/util/xml/XMLUtils.java:1081-1108 | the same after `encoding` |
| XMLEncoding.ScanEncodingValue | src/main/java/com/development/commons/tools/util/xml/XMLUtils.java:1090-1108 | the same after the `=` of the encoding |
| XMLEncoding.XmlDeclRecognised | src/main/java/com/development/commons/tools/util/xml/XMLUtils.java:1022-1032 | `<?xml` and one blank lead on to the version |
| XMLEncoding.VersionRecognised | src/main/java/com/development/commons/tools/util/xml/XMLUtils.java:1037-1056 | `version="` leads on to the version number |
| XMLEncoding.VersionNumRecognised | src/main/java/com/development/commons/tools/util/xml/XMLUtils.java:1060-1081 | `1.0"` and one blank lead on to the encoding |
| XMLEncoding.EncodingRecognised | src/main/java/com/development/commons/tools/util/xml/XMLUtils.java:1081-1108 | `encoding="name"` yields the widened name and the position of the closing quote |
| XMLEncoding.DeclarationRecognised | src/main/java/com/development/commons/tools/util/xml/XMLUtils.java:1020-1108 | a standard `<?xml version="1.0" encoding="name"` head yields that name |
| XMLEncoding.Resume | src/main/java/com/development/commons/tools/util/xml/XMLUtils.java:1114-1125 | the reader keeps the encoding and ends where the data ends; it starts at the offset or after the position handed in |
| XMLEncoding.ResumePastQuote | src/main/java/com/development/commons/tools/util/xml/XMLUtils.java:1116-1120 | when `?>` follows right after the position handed in, reading starts after the `?>` |
| XMLEncoding.Placed | src/main/java/com/development/commons/tools/util/xml/XMLUtils.java:1114-1131 | a failed scan fails the same way; the reader ends where the data ends |
| XMLEncoding.HeaderReader | src/main/java/com/development/commons/tools/util/xml/XMLUtils.java:1005-1132 | `readEncodingHeader` as written: the reader ends where the data ends, or an index-out-of-bounds exception |
| XMLEncoding.HeaderReaderPlaced | src/main/java/com/development/commons/tools/util/xml/XMLUtils.java:1005-1132 | `readEncodingHeader` is the declaration scan followed by the placement of the reader |
| XMLEncoding.DeclarationBranchDead | src/main/java/com/development/commons/tools/util/xml/XMLUtils.java:1114-1124 | as written the reader always starts at the offset: skipping spaces starts on the closing quote, so the `?>` test never succeeds (see Findings) |
| XMLEncoding.HeaderReaderFixed | src/main/java/com/development/commons/tools/util/xml/XMLUtils.java:1114-1120 | with the space skip starting after the quote, the reader starts either at the offset or after the whole declaration |
| XMLEncoding.HeaderReaderFixedSameEncoding | src/main/java/com/development/commons/tools/util/xml/XMLUtils.java:1005-1132 | the fix changes where reading starts, never the encoding chosen |
| XMLEncoding.HeaderReadsDeclaration | src/main/java/com/development/commons/tools/util/xml/XMLUtils.java:1005-1124 | as written, a recognised declaration gives its encoding, read from the offset |
| XMLEncoding.HeaderFixedReadsDeclaration | src/main/java/com/development/commons/tools/util/xml/XMLUtils.java:1114-1120 | corrected, a declaration followed by `?>` gives its encoding, read from after the `?>` |
| XMLEncoding.ReadEncodingHeader | src/main/java/com/development/commons/tools/util/xml/XMLUtils.java:1005-1132 | the method computes `readEncodingHeader` as written |
| XMLEncoding.PlaceReader | src/main/java/com/development/commons/tools/util/xml/XMLUtils.java:1114-1131 | the method places the reader after a scan |
| XMLEncoding.ReadDeclaration | src/main/java/com/development/commons/tools/util/xml/XMLUtils.java:1020-1103 | the method computes the declaration scan |
| XMLEncoding.ReadDeclarationEnd | src/main/java/com/development/commons/tools/util/xml/XMLUtils.java:1114-1125 | the method places the reader after the encoding's closing quote |
| XMLEncoding.ReadVersion | src/main/java/com/development/commons/tools/util/xml/XMLUtils.java:1037-1056 | the method computes the version scan |
| XMLEncoding.ReadVersionValue | src/main/java/com/development/commons/tools/util/xml/XMLUtils.java:1046-1071 | the method computes the scan after `=` |
| XMLEncoding.ReadVersionNum | src/main/java/com/development/commons/tools/util/xml/XMLUtils.java:1060-1079 | the method computes the version number scan |
| XMLEncoding.ReadEncoding | src/main/java/com/development/commons/tools/util/xml/XMLUtils.java:1081-1103 | the method computes the encoding scan |
| XMLEncoding.ReadEncodingValue | src/main/java/com/development/commons/tools/util/xml/XMLUtils.java:1090-1108 | the method computes the scan after the encoding's `=` |
| XMLEncoding.ReadQuoted | src/main/java/com/development/commons/tools/util/xml/XMLUtils.java:1105-1108 | the loop reads the encoding name up to the quote |
| XMLEncoding.Mark | src/main/java/com/development/commons/tools/util/xml/XMLUtils.java:884-885 | the first four bytes form one 32-bit mark |
| XMLEncoding.MarkHigh | src/main/java/com/development/commons/tools/util/xml/XMLUtils.java:943 | the mark's top half is the first two bytes |
| XMLEncoding.MarkBytes | src/main/java/com/development/commons/tools/util/xml/XMLUtils.java:884-894 | the mark equals a four-byte constant exactly when the first four bytes are those bytes |
| XMLEncoding.Header | src/main/java/com/development/commons/tools/util/xml/XMLUtils.java:916-933 | the header reader picked by the mark ends where the data ends; as written it starts at the offset |
| XMLEncoding.Detect | src/main/java/com/development/commons/tools/util/xml/XMLUtils.java:883-962 | the detected reader always ends where the data ends |
| XMLEncoding.DetectEncodingIn | src/main/java/com/development/commons/tools/util/xml/XMLUtils.java:880-963 | null data fails with a null-pointer exception; otherwise the reader ends where the data ends |
| XMLEncoding.DetectEncoding | src/main/java/com/development/commons/tools/util/xml/XMLUtils.java:856-859 | the whole-array form: null fails, otherwise the reader ends at the end of the array |
| XMLEncoding.DetectShortData | src/main/java/com/development/commons/tools/util/xml/XMLUtils.java:956-961 | fewer than four bytes give the default encoding over the whole range |
| XMLEncoding.DetectUcs4Marks | src/main/java/com/development/commons/tools/util/xml/XMLUtils.java:896-903 | each of the four UCS-4 byte-order marks selects its encoding and skips four bytes |
| XMLEncoding.DetectUtf16Marks | src/main/java/com/development/commons/tools/util/xml/XMLUtils.java:908-911 | a UTF-16 byte-order mark selects big or little endian and skips two bytes |
| XMLEncoding.DetectUtf8Mark | src/main/java/com/development/commons/tools/util/xml/XMLUtils.java:912-913 | corrected: `EF BB BF` selects UTF-8 and skips three bytes whatever follows |
| XMLEncoding.DetectUtf8FallbackAsWritten | src/main/java/com/development/commons/tools/util/xml/XMLUtils.java:948-951 | as written, `EF BB BF 20` falls back to the default while `EF BB 00 BF` is taken for UTF-8: the fallback tests the fourth byte instead of the third (see Findings) |
| XMLEncoding.DetectSkipsTwoOnlyForUtf16 | src/main/java/com/development/commons/tools/util/xml/XMLUtils.java:908-947 | corrected, two bytes are skipped only after a UTF-16 byte-order mark, with the matching encoding |
| XMLEncoding.DetectSkipsThreeOnlyForUtf8 | src/main/java/com/development/commons/tools/util/xml/XMLUtils.java:912-951 | corrected, three bytes are skipped only after the UTF-8 byte-order mark |
| XMLEncoding.DetectSkipsFourOnlyForUcs4 | src/main/java/com/development/commons/tools/util/xml/XMLUtils.java:896-903 | four bytes are skipped only after a mark made of 00, FE and FF bytes |
| XMLEncoding.DetectSkipsThreeAsWritten | src/main/java/com/development/commons/tools/util/xml/XMLUtils.java:948-951 | as written, `EF BB 00 BF` has three bytes skipped although it holds no UTF-8 mark |
| XMLEncoding.DetectReadsDeclaration | src/main/java/com/development/commons/tools/util/xml/XMLUtils.java:930-933 | a document starting with a standard declaration and `?>` gets the declared encoding: as written read from the start, corrected from after the `?>` |
| XMLUtils.Step | src/main/java/com/development/commons/tools/util/xml/XMLUtils.java:208-262 | each round of an escaping loop consumes one character, or two for a surrogate pair or an escaped `]]>`, never more than is left |
| XMLUtils.NextPiece | src/main/java/com/development/commons/tools/util/xml/XMLUtils.java:208-262 | one round of the loop produces the piece and the character count the escaper prescribes |
| XMLUtils.AppendNextPiece | src/main/java/com/development/commons/tools/util/xml/XMLUtils.java:208-262 | one round appends its piece and advances, keeping the buffer on its way to the fully escaped text |
| XMLUtils.AppendEscapedText | src/main/java/com/development/commons/tools/util/xml/XMLUtils.java:208-262 | the loop appends exactly the escaped text |
| XMLUtils.AppendEscaped | src/main/java/com/development/commons/tools/util/xml/XMLUtils.java:205-266 | null appends nothing; otherwise the escaped text is appended to what the buffer held |
| XMLUtils.EscapedAt | src/main/java/com/development/commons/tools/util/xml/XMLUtils.java:208-262 | the escaped text from position `i` is that round's piece followed by the escaped rest |
| XMLUtils.EscapeAttribute | src/main/java/com/development/commons/tools/util/xml/XMLUtils.java:205-266 | `escapeAttribute` appends the attribute-escaped text (nothing for null) |
| XMLUtils.EscapeContent | src/main/java/com/development/commons/tools/util/xml/XMLUtils.java:295-354 | `escapeContent` appends the content-escaped text, quotes escaped only when asked (nothing for null) |
| XMLUtils.EscapeCDATA | src/main/java/com/development/commons/tools/util/xml/XMLUtils.java:446-491 | `escapeCDATA` appends the CDATA-escaped text (nothing for null) |
| XMLUtils.EscapeString | src/main/java/com/development/commons/tools/util/xml/XMLUtils.java:279-534 | the string forms give the escaped text, `""` for null |
| XMLUtils.ToCDATA | src/main/java/com/development/commons/tools/util/xml/XMLUtils.java:517-519 | `toCDATA` appends `<![CDATA[`, the CDATA-escaped text and `]]>` |
| XMLUtils.ToCDATAString | src/main/java/com/development/commons/tools/util/xml/XMLUtils.java:532-534 | the string form starts with `<![CDATA[` and ends with `]]>` around the escaped text |
| XMLUtils.EscapedIsXmlText | src/main/java/com/development/commons/tools/util/xml/XMLUtils.java:205-491 | every escaper yields characters legal in XML, with surrogates only in well-formed pairs |
| XMLUtils.FilteredIsXmlText | src/main/java/com/development/commons/tools/util/xml/XMLUtils.java:205-491 | dropping the illegal characters yields legal XML text |
| XMLUtils.FilteredKeepsXmlText | src/main/java/com/development/commons/tools/util/xml/XMLUtils.java:205-491 | the filter leaves a text unchanged exactly when it is already legal XML text |
| XMLUtils.PieceIsXmlText | src/main/java/com/development/commons/tools/util/xml/XMLUtils.java:208-262 | every piece an escaper emits is legal XML text |
| XMLUtils.PlainPiece | src/main/java/com/development/commons/tools/util/xml/XMLUtils.java:246-260 | a character that is not markup is copied, a high surrogate with its low surrogate as a pair, anything illegal dropped |
| XMLUtils.EscapedPlainText | src/main/java/com/development/commons/tools/util/xml/XMLUtils.java:205-491 | a text without markup characters is only filtered by every escaper |
| XMLUtils.EscapedCons | src/main/java/com/development/commons/tools/util/xml/XMLUtils.java:213-245 | a character below the surrogate range is replaced by its table entry, then the rest is escaped |
| XMLUtils.AttributeTable | src/main/java/com/development/commons/tools/util/xml/XMLUtils.java:215-235 | in attributes `"` becomes `&#34;`, `&` `&amp;`, `'` `&#39;`, `<` `&lt;` and `>` stays |
| XMLUtils.ContentTable | src/main/java/com/development/commons/tools/util/xml/XMLUtils.java:305-322 | in content `&` becomes `&amp;`, `<` `&lt;`, `>` `&gt;`, `'` stays and `"` becomes `&quot;` only when quotes are escaped |
| XMLUtils.LineCharsKept | src/main/java/com/development/commons/tools/util/xml/XMLUtils.java:215-220 | tab, carriage return and line feed are kept by every escaper |
| XMLUtils.DropRules | src/main/java/com/development/commons/tools/util/xml/XMLUtils.java:237-260 | other control characters, U+FFFE, U+FFFF, lone low surrogates and unpaired high surrogates are dropped; a paired high surrogate is kept with its pair |
| XMLUtils.PieceHasNoRawMarkup | src/main/java/com/development/commons/tools/util/xml/XMLUtils.java:208-350 | no piece brings a raw `<` (or `"`, `'` in attributes; `>` and, when asked, `"` in content) |
| XMLUtils.EscapedHasNoMarkup | src/main/java/com/development/commons/tools/util/xml/XMLUtils.java:205-354 | the attribute-escaped text holds no raw `<`, `"` or `'`; the content-escaped text no raw `<` or `>`, and no `"` when quotes are escaped |
| XMLUtils.UnescapeContent | src/main/java/com/development/commons/tools/util/xml/XMLUtils.java:364-371 | null fails with a null-pointer exception; unescaping never lengthens the text |
| XMLUtils.ShorterScan | src/main/java/com/development/commons/tools/util/xml/XMLUtils.java:365-368 | replacing an entity by a shorter text never lengthens the text |
| XMLUtils.UnescapePlainText | src/main/java/com/development/commons/tools/util/xml/XMLUtils.java:364-371 | a text without `&` comes back unchanged |
| XMLUtils.UnescapePasses | src/main/java/com/development/commons/tools/util/xml/XMLUtils.java:365-368 | unescaping is the four replace-all passes `&lt;`, `&gt;`, `&apos;` and `&amp;`, in that order |
| XMLUtils.UnescapeRoundTrip | src/main/java/com/development/commons/tools/util/xml/XMLUtils.java:295-371 | unescaping the content-escaped form of legal XML text gives the text back, when quotes are not escaped or the text has none |
| XMLUtils.QuoteEscaped | src/main/java/com/development/commons/tools/util/xml/XMLUtils.java:321 | `"` escapes to `&quot;` when quotes are escaped |
| XMLUtils.QuoteNotUnescaped | src/main/java/com/development/commons/tools/util/xml/XMLUtils.java:364-371 | `&quot;` is left as it is by unescaping: the round trip needs texts without `"` when quotes are escaped |
| XMLUtils.AposUnescaped | src/main/java/com/development/commons/tools/util/xml/XMLUtils.java:367 | `&apos;` unescapes to `'` |
| XMLUtils.EscapedIsConcat | src/main/java/com/development/commons/tools/util/xml/XMLUtils.java:208-262 | the escaped text is the concatenation of the per-round pieces |
| XMLUtils.ScanPieces | src/main/java/com/development/commons/tools/util/xml/XMLUtils.java:365-368 | a replace-all pass over well-formed pieces replaces exactly the pieces equal to the entity |
| XMLUtils.UnescapedPieces | src/main/java/com/development/commons/tools/util/xml/XMLUtils.java:364-371 | the four passes turn every content piece back into the characters it came from |
| XMLUtils.CDataEndReplaced | src/main/java/com/development/commons/tools/util/xml/XMLUtils.java:456-461 | `]]>` in the source becomes `]]>]]<![CDATA[>`: the section is closed and reopened |
| XMLUtils.CDataOnlyFilters | src/main/java/com/development/commons/tools/util/xml/XMLUtils.java:446-491 | without `]`, CDATA escaping only filters illegal characters |
| XMLUtils.CDataBracket | src/main/java/com/development/commons/tools/util/xml/XMLUtils.java:456-463 | a `]` that does not start `]]>` is copied |
| XMLUtils.CDataEndSurvivesFilter | src/main/java/com/development/commons/tools/util/xml/XMLUtils.java:456-469 | as written, `]]\u0001>` escapes to a raw `]]>`: the control character is dropped after the `]]>` test (see Findings) |
| XMLUtils.RawEndAfterDrop | src/main/java/com/development/commons/tools/util/xml/XMLUtils.java:456-469 | the same input, any control character other than tab, carriage return and line feed |
| XMLUtils.CDataEndsOnlyEscaped | src/main/java/com/development/commons/tools/util/xml/XMLUtils.java:446-491 | for legal XML text, every `]]>` in the CDATA-escaped output is the start of the `]]>]]<![CDATA[>` escape |
| XMLUtils.CDataFixedEndsOnlyEscaped | src/main/java/com/development/commons/tools/util/xml/XMLUtils.java:446-491 | corrected (filter first, then escape): the output is legal XML text and every `]]>` in it is escaped, for any input |
| XMLUtils.CDataFixedAgrees | src/main/java/com/development/commons/tools/util/xml/XMLUtils.java:446-491 | the correction changes nothing for input that is already legal XML text |
| XMLUtils.Blanks | src/main/java/com/development/commons/tools/util/xml/XMLUtils.java:691-698 | `n` blanks |
| XMLUtils.Indent | src/main/java/com/development/commons/tools/util/xml/XMLUtils.java:691-698 | `indent` appends `indentLevel` blanks, none for 0 or less |
| XMLUtils.AppendSimpleElement | src/main/java/com/development/commons/tools/util/xml/XMLUtils.java:742-762 | null appends nothing; an empty value gives `<name/>`, any other `<name>`, the content-escaped value and `</name>`, after the indentation |
| XMLUtils.SimpleElementRoundTrip | src/main/java/com/development/commons/tools/util/xml/XMLUtils.java:742-762 | the body between `>` and `</name>` unescapes back to the value, for legal XML text without `"` |
| XMLUtils.ElementBodyHasNoMarkup | src/main/java/com/development/commons/tools/util/xml/XMLUtils.java:754-755 | the body holds no raw `<`, `>` or `"` and is legal XML text |

## Left out

- I/O edges:
  - reading and writing the streams wrapped by the Base64 filters (they are byte sequences here);
  - `File`, `ZipFile` and `URL` access and URL decoding in `ResourceScanner`;
  - the `Reader` built by encoding detection (it is modelled by the encoding and the byte window);
  - `FileUtils` stream and file copying and `getEncodingFromXML`;
  - the SAX driver `XMLConfigurationParser.parse`.
- `XMLUtils` parser factories, date formats and the thread-local `LocalPool` indent: factories and thread-locals are platform state. `indent` is modelled as plain blanks.
- `XMLUtils` `printSimpleElement` and `indent(PrintWriter)`: they write the same text as the `StringBuffer` forms to a `PrintWriter`, which is I/O.
- `CSSStyleParser` `float` values:
  - numbers and percentages are kept as the text they were written with, so `Float.parseFloat`, `Float.toString`, the percent rounding and the default `length`/number formatting are not modelled;
  - `rgb()` channels are computed with exact decimal arithmetic (see the next line).
- CSSStyleParser.ChannelValue, CSSStyleParser.RgbAt: a channel is the integer part of its exact decimal value, or of that value times 2.55 after a `%`. The source truncates `Float.parseFloat` of the numeral (times `2.55f` for a percentage), and `parseFloat` first rounds to the nearest `float`. So any channel with a fraction can differ by one unit, with or without `%`. For example, `rgb(254.99999999,0,0)` is 0xFF0000 in the source and 0xFE0000 here, and `rgb(0.99999999,0,0)` is 0x010000 there and 0x000000 here. Channels written as whole numbers agree.
- `CSSStyleParser`: the `StackOverflowError` catch of the URL regex (a JVM resource limit) and the regex engine itself. Each pattern is a hand-written recogniser.
- `java.awt.Color`: colours are packed 24-bit RGB ints.
- `StringUtils.IsNumeric`, `StringUtils.IsHex`: only ASCII digits and hex letters are recognised, whereas `Character.isDigit`/`Character.digit` also accept the other Unicode decimal digits.
- `StringUtils`: case mapping is ASCII only.
- `StringUtils` `notNull(Object)`/`valueOf(Object)` for arbitrary objects: they call an object's own `toString`. Only strings are modelled.
- `StringUtils.trim(Object)` for a non-`String` object, which returns null: only strings are modelled.
- `StringUtils` leftovers, for the reasons given:
  - `replaceStrings` and `highlightMatch` (regex and `Reader`/`Writer` streaming);
  - `toBytes`, `fromBytes`, `truncateToEncodedLength` and `dumpStackTrace` (charset encoders);
  - `toString(Reader)` and `readFully` (I/O);
  - `getDouble` and `isDouble` (floating point);
  - `normalizeUnicodeWord`, `isRecognizableCharacter` and `unicode2String` (Unicode tables);
  - `isValidEmailFormat` (regex).
- `StringUtils` tokenizing: the surrogate-aware mode of the tokenizer, in which delimiters are whole code points. Tokens are split per UTF-16 unit.
- MathUtil.ParseSignedIntString, StringUtils.GetInteger, StringUtils.GetLong, HexUtils.ParseByte: digits are read as ASCII only (`JStrings.ParseDecimal` and the ASCII hex digits). `Integer.parseInt`, `Long.parseLong` and `Integer.decode` read digits through `Character.digit`, which also accepts the other Unicode decimal digits and the fullwidth hex letters. Such text gives the default or a NumberFormatException here, where the source reads a number.
- Base64Output.Base64OutputStream.WriteArray: requires `off` and `len` to lie within `b`. On an out-of-range call the source encodes the in-range prefix and then throws ArrayIndexOutOfBoundsException; that partial effect is not modelled.
- Base64Input.StartQuad, Base64Input.ReadOne, Base64Input.CorruptRead, Base64Input.ReadCalls, Base64Input.ReadBlock, Base64Input.ReadBlockReads, Base64Input.BlocksAfter, Base64Input.Base64InputStream.AccumulateAt, Base64Input.Base64InputStream.Read, Base64Input.Base64InputStream.StartRead, Base64Input.Base64InputStream.ReadArray, Base64Input.Base64InputStream.ReadLoop, Base64Input.Base64InputStream.BlockLoop, Base64Input.Base64InputStream.BlockRound: these model the corrected reading behind the two `Base64InputStream` rows under Findings, and the stream class is proved against them. First, a quad byte from 0x80 on is looked up unsigned and gives IOException "stream corrupted". The source sign-extends it and indexes the 256-entry table with a negative value, so it throws ArrayIndexOutOfBoundsException (the code as written is `Base64Input.ReadOneAsWritten`, see `Base64Input.HighByteIndexesOutOfBounds`). Second, a bad quad met by the block loop of `read(b, off, len)` leaves `_offset` past it. The source throws with `_offset` still before the quads that loop already decoded, so they are read again (see `Base64Input.StaleOffsetRereads` on `QUJD!!!!`).
- Base64Input.ReadBlockAsWritten: keeps the stale `_offset` of the code as written, but looks its quads up unsigned like the corrected reading, so a byte from 0x80 on gives "stream corrupted" where the source throws ArrayIndexOutOfBoundsException. The two gaps are shown separately, by `Base64Input.StaleOffsetRereads` and `Base64Input.HighByteIndexesOutOfBounds`.
- Base64Input.Base64InputStream.ReadArray: requires `off` and `len` to lie within `b`. On an out-of-range call the source stores the bytes already read, moves `_offset`, and then throws ArrayIndexOutOfBoundsException; that partial effect is not modelled.
- HtmlParser.HtmlParser.ParseUnquotedValue, HtmlScan.AttrValueAt, HtmlScan.Step, HtmlSteps.StepProgress, HtmlSteps.Tokens, HtmlParser.HtmlParser.ParseAttrValue, HtmlParser.HtmlParser.Next, HtmlScan.AttrAt, HtmlScan.AttrsFrom, HtmlScan.StartTagStep, HtmlScan.Scan, HtmlSteps.ScanProgress, HtmlParser.HtmlParser.ParseAttribute, HtmlParser.HtmlParser.ParseAttributes, HtmlParser.HtmlParser.ParseStartTag, HtmlParser.HtmlParser.ScanToken, HtmlParser.HtmlParser.ScanNext: built on the corrected unquoted-value reader. On an unquoted value whose `&` run reaches the end of the text (`<a b=&`) the source throws ArrayIndexOutOfBoundsException; these members end the value at the end of the text instead. The code as written is `HtmlScan.UnquotedValueAsWritten` (see Findings).
- MutableRequest.Request.SetParameterValues, MutableRequest.Request.AppendParameterValues: the values array is never null here. The source stores a null array for an absent or empty entry, and otherwise throws a NullPointerException on `values.length`.
- CompositeComparator.Composite.Compare: the delegates are never null here. A null element of the delegate array or list throws a NullPointerException when `compare` reaches it.
- RegexUtils.AtomsMatch: matches `.` against one UTF-16 unit. `java.util.regex` matches it against a code point, so a surrogate pair is one char for `.?` there and two here.
- `HtmlParser.HtmlParser.GetText`, `HtmlParser.HtmlParser.GetName`: before the first `next()` the Java fields `_text`/`_tagName` are null; the model gives the empty text there.
- `MathUtil` `round`/`roundV2` (double and `BigDecimal` arithmetic), `UrlUtils` `crypt`/`absoluteURL`/`getJarName`/`isInsideJar` (SHA-1, `java.net.URI`, `URLDecoder`, `File`): floating point, library code and the file system.
- `AnnotationIndex.findClassesWithAnnotation*` and its static initialisation: reflection, class loading and XStream deserialisation.
- `FastResourceScanner`: its point is fork-join concurrency; the sequential scan is modelled.
- `MutableRequestWrapper.getParameterNames` (an `Enumeration` adapter over the key set) and `printStackTrace` calls (console output).
- Reflection, JNDI, JDBC, mail, servlet plumbing, system properties, thread-locals and wall-clock timing elsewhere in the repository are not part of this model.

## Findings

| source | as written | input that shows it | evidently intended | confidence | as-written member | corrected member |
|---|---|---|---|---|---|---|
| src/main/java/com/development/commons/tools/util/html/HtmlParser.java:1160-1172 | the unquoted attribute-value loop reads `_data[_offset]` after `parseAmp` has consumed an `&` run up to the end of the text | `<a b=&` | the value ends at the end of the text | high, not executed | HtmlSteps.UnquotedAmpExample | HtmlSteps.UnquotedAgrees |
| src/main/java/com/development/commons/tools/Base64InputStream.java:215-224 | a byte from 0x80 on is sign-extended and used as a negative index into the 256-entry decode table, whose lowest index is 0 | a quad whose first byte is 0x80 | "stream corrupted", as for every other byte outside the alphabet | high, not executed | Base64Input.HighByteIndexesOutOfBounds | Base64Input.AsWrittenDiffersOnlyInException |
| src/main/java/com/development/commons/tools/Base64InputStream.java:286-308 | `read(b, off, len)` throws on a bad quad without moving `_offset` past the quads it has already decoded | `QUJD!!!!` | the next `read()` continues after the decoded quad | low, not executed | Base64Input.StaleOffsetRereads | Base64Input.ReadBlockReads |
| src/main/java/com/development/commons/tools/xi/ui/util/MutableRequestWrapper.java:155-166 | the varargs `setParameter` copies `newItems.length` elements out of the shorter existing array | a parameter with one value, then one more value added | the new values follow the existing ones | high, not executed | MutableRequest.VarargsOverrun | MutableRequest.Request.AppendParameterValues |
| src/main/java/com/development/commons/tools/FileUtils.java:404-409 | the BOM tests mask the bytes (`(b & M) == M`) instead of comparing them | `FF FF FF 41` (four or more bytes, since the length guard needs more than three) is taken for a UTF-8 BOM | equality with the BOM bytes | high, not executed | FileUtils.MaskAcceptsNonBom | FileUtils.FindFirstByteExact |
| src/main/java/com/development/commons/tools/util/xml/XMLUtils.java:948-951 | the UTF-8 fallback tests `data[3]` for the third BOM byte | `EF BB BF 20` falls back to the default encoding; `EF BB 00 BF` is taken for UTF-8 | test `data[2]` | high, not executed | XMLEncoding.DetectUtf8FallbackAsWritten | XMLEncoding.DetectUtf8Mark |
| src/main/java/com/development/commons/tools/util/xml/XMLUtils.java:1114-1124 | `skipSpaces` starts on the closing quote of the encoding value, so the `?>` test never succeeds | `<?xml version="1.0" encoding="UTF-8"?>` | reading starts after the declaration | medium, not executed | XMLEncoding.DeclarationBranchDead | XMLEncoding.HeaderFixedReadsDeclaration |
| src/main/java/com/development/commons/tools/util/xml/XMLUtils.java:456-469 | `]]>` is looked for before illegal characters are dropped, so dropping a control character can join `]]` and `>` | `]]\u0001>` gives a raw `]]>` inside the CDATA section | no raw `]]>` in the escaped text | high, not executed | XMLUtils.CDataEndSurvivesFilter | XMLUtils.CDataFixedEndsOnlyEscaped |
