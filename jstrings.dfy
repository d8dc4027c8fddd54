/**
 * Java text as the source sees it: a `char` is a UTF-16 code unit (surrogates included), a `String`
 * is a sequence of them, and `int` arithmetic wraps at 32 bits.  The helpers here are the pieces of
 * `java.lang.String`, `Character` and `Integer` that the modelled code calls.
 */
module JStrings {
  import opened Wrappers

  /** A Java `char`: one UTF-16 code unit. */
  newtype JChar = c: int | 0 <= c < 0x1_0000

  /** A Java `String`. */
  type JString = seq<JChar>

  /** A byte, read unsigned (`b & 0xff`). */
  newtype Byte = b: int | 0 <= b < 0x100

  /** One code unit of a Dafny literal; every literal in this model is ASCII or Latin-1. */
  function Unit(c: char): JChar {
    if c as int < 0x1_0000 then c as int as JChar else 0xFFFD
  }

  /** A Java string literal written as a Dafny string literal. */
  function Lit(s: string): (r: JString)
    ensures |r| == |s|
  {
    seq(|s|, i requires 0 <= i < |s| => Unit(s[i]))
  }

  // ---------------------------------------------------------------- character classes (ASCII)

  predicate IsAsciiDigit(c: JChar) { '0' as JChar <= c <= '9' as JChar }
  predicate IsAsciiUpper(c: JChar) { 'A' as JChar <= c <= 'Z' as JChar }
  predicate IsAsciiLower(c: JChar) { 'a' as JChar <= c <= 'z' as JChar }
  predicate IsAsciiLetter(c: JChar) { IsAsciiUpper(c) || IsAsciiLower(c) }
  predicate IsAsciiAlnum(c: JChar) { IsAsciiLetter(c) || IsAsciiDigit(c) }
  predicate IsHexDigit(c: JChar) {
    IsAsciiDigit(c) || 'a' as JChar <= c <= 'f' as JChar || 'A' as JChar <= c <= 'F' as JChar
  }

  /** The chars that `.` in a Java regex does not match (no DOTALL, no UNIX_LINES flag). */
  predicate IsLineTerminator(c: JChar) {
    c == 0x0A || c == 0x0D || c == 0x85 || c == 0x2028 || c == 0x2029
  }

  /** `Character.digit(c, 16)` restricted to ASCII hex digits. */
  function HexValue(c: JChar): (v: int)
    requires IsHexDigit(c)
    ensures 0 <= v < 16
  {
    if IsAsciiDigit(c) then (c - '0' as JChar) as int
    else if 'a' as JChar <= c <= 'f' as JChar then (c - 'a' as JChar) as int + 10
    else (c - 'A' as JChar) as int + 10
  }

  /** `Character.forDigit(d, 16)`: lower-case digits. */
  function LowerHexDigit(d: int): (c: JChar)
    requires 0 <= d < 16
    ensures IsHexDigit(c) && HexValue(c) == d
    ensures !IsAsciiUpper(c)
  {
    if d < 10 then ('0' as int + d) as JChar else ('a' as int + d - 10) as JChar
  }

  function ToUpperAscii(c: JChar): JChar {
    if IsAsciiLower(c) then c - 32 else c
  }

  function ToLowerAscii(c: JChar): JChar {
    if IsAsciiUpper(c) then c + 32 else c
  }

  /** `toUpperCase()` on ASCII text. */
  function UpperAscii(s: JString): (r: JString)
    ensures |r| == |s| && forall i :: 0 <= i < |s| ==> r[i] == ToUpperAscii(s[i])
  {
    seq(|s|, i requires 0 <= i < |s| => ToUpperAscii(s[i]))
  }

  /** `toLowerCase()` on ASCII text. */
  function LowerAscii(s: JString): (r: JString)
    ensures |r| == |s| && forall i :: 0 <= i < |s| ==> r[i] == ToLowerAscii(s[i])
  {
    seq(|s|, i requires 0 <= i < |s| => ToLowerAscii(s[i]))
  }

  /** Every char of `s` is ASCII. */
  predicate IsAscii(s: JString) {
    forall i :: 0 <= i < |s| ==> s[i] < 0x80
  }

  /** ASCII text as a Dafny string, char for char. */
  function AsciiText(s: JString): (t: string)
    requires IsAscii(s)
    ensures |t| == |s| && forall i :: 0 <= i < |s| ==> t[i] as int == s[i] as int
  {
    seq(|s|, i requires 0 <= i < |s| => s[i] as int as char)
  }

  /** A Dafny ASCII literal, read as Java text and back. */
  lemma AsciiOfLit(s: string)
    requires forall i :: 0 <= i < |s| ==> s[i] as int < 0x80
    ensures IsAscii(Lit(s)) && AsciiText(Lit(s)) == s
  {
    assert forall i :: 0 <= i < |s| ==> Lit(s)[i] as int == s[i] as int;
  }

  /** `a.equalsIgnoreCase(b)` for ASCII letters. */
  predicate EqualsIgnoreCase(a: JString, b: JString) {
    UpperAscii(a) == UpperAscii(b)
  }

  // ---------------------------------------------------------------- searching

  /** `t` occurs in `s` at index `i`. */
  predicate OccursAt(s: JString, t: JString, i: int) {
    0 <= i && i + |t| <= |s| && s[i..i + |t|] == t
  }

  /** `s.indexOf(t, from)`: the first occurrence of `t` at or after `from`, or -1. */
  function IndexOfFrom(s: JString, t: JString, from: nat): (r: int)
    ensures r == -1 || (from <= r && OccursAt(s, t, r))
    decreases |s| - from
  {
    if from + |t| > |s| then -1
    else if s[from..from + |t|] == t then from
    else IndexOfFrom(s, t, from + 1)
  }

  /** `indexOf` finds the first occurrence: none lies between `from` and the result. */
  lemma {:induction false} IndexOfFromIsFirst(s: JString, t: JString, from: nat)
    ensures var r := IndexOfFrom(s, t, from);
      (r == -1 ==> forall i :: from <= i ==> !OccursAt(s, t, i)) &&
      (r != -1 ==> forall i :: from <= i < r ==> !OccursAt(s, t, i))
    decreases |s| - from
  {
    if from + |t| <= |s| && s[from..from + |t|] != t {
      IndexOfFromIsFirst(s, t, from + 1);
    }
  }

  /** `s.indexOf(t)`. */
  function IndexOf(s: JString, t: JString): int {
    IndexOfFrom(s, t, 0)
  }

  /** `s.indexOf(c)`: the first index holding `c`, or -1. */
  function IndexOfChar(s: JString, c: JChar): (r: int)
    ensures -1 <= r < |s|
    ensures r == -1 <==> c !in s
    ensures r != -1 ==> s[r] == c && c !in s[..r]
  {
    if |s| == 0 then -1
    else if s[0] == c then 0
    else
      var k := IndexOfChar(s[1..], c);
      assert k != -1 ==> s[..k + 1] == [s[0]] + s[1..][..k];
      if k == -1 then -1 else k + 1
  }

  /** `s.lastIndexOf(t)`: the last occurrence of `t`, or -1. */
  function LastIndexOf(s: JString, t: JString): (r: int)
    ensures r == -1 || OccursAt(s, t, r)
    ensures r == -1 ==> forall i :: !OccursAt(s, t, i)
    ensures forall i :: r < i ==> !OccursAt(s, t, i)
  {
    LastIndexBelow(s, t, |s| - |t|)
  }

  function LastIndexBelow(s: JString, t: JString, k: int): (r: int)
    requires k <= |s| - |t|
    ensures r == -1 || (r <= k && OccursAt(s, t, r))
    ensures forall i :: r < i <= k ==> !OccursAt(s, t, i)
    ensures r == -1 ==> forall i :: i <= k ==> !OccursAt(s, t, i)
    decreases k + 1
  {
    if k < 0 then -1
    else if s[k..k + |t|] == t then k
    else LastIndexBelow(s, t, k - 1)
  }

  predicate StartsWith(s: JString, p: JString) {
    |p| <= |s| && s[..|p|] == p
  }

  predicate EndsWith(s: JString, p: JString) {
    |p| <= |s| && s[|s| - |p|..] == p
  }

  // ---------------------------------------------------------------- trim

  /** `String.trim()`'s first loop: the index of the first char > ' ' from `i` on, or `|s|`. */
  function BlanksFrom(s: JString, i: nat): (n: nat)
    requires i <= |s|
    ensures i <= n <= |s|
    ensures n < |s| ==> s[n] > 32
    decreases |s| - i
  {
    if i < |s| && s[i] <= 32 then BlanksFrom(s, i + 1) else i
  }

  /** The number of leading chars <= ' '. */
  function LeadingBlanks(s: JString): (n: nat)
    ensures n <= |s|
  {
    BlanksFrom(s, 0)
  }

  /** `String.trim()`'s second loop: `m` moves down past chars <= ' ' but not below `lo`. */
  function TrimEnd(s: JString, lo: nat, m: nat): (e: nat)
    requires lo <= m <= |s|
    ensures lo <= e <= m
    ensures e > lo ==> s[e - 1] > 32
    decreases m
  {
    if m > lo && s[m - 1] <= 32 then TrimEnd(s, lo, m - 1) else m
  }

  /** `String.trim()`: every char <= ' ' is removed from both ends. */
  function Trim(s: JString): (r: JString)
  {
    s[LeadingBlanks(s)..TrimEnd(s, LeadingBlanks(s), |s|)]
  }

  lemma {:induction false} BlanksFromAreBlank(s: JString, i: nat)
    requires i <= |s|
    ensures forall k :: i <= k < BlanksFrom(s, i) ==> s[k] <= 32
    decreases |s| - i
  {
    if i < |s| && s[i] <= 32 {
      BlanksFromAreBlank(s, i + 1);
    }
  }

  lemma {:induction false} TrimEndAreBlank(s: JString, lo: nat, m: nat)
    requires lo <= m <= |s|
    ensures forall k :: TrimEnd(s, lo, m) <= k < m ==> s[k] <= 32
    decreases m
  {
    if m > lo && s[m - 1] <= 32 {
      TrimEndAreBlank(s, lo, m - 1);
    }
  }

  /** The first loop stops at the first char > ' '. */
  lemma {:induction false} BlanksFromStops(s: JString, i: nat, e: nat)
    requires i <= e < |s| && s[e] > 32
    requires forall k :: i <= k < e ==> s[k] <= 32
    ensures BlanksFrom(s, i) == e
    decreases e - i
  {
    if i < e {
      BlanksFromStops(s, i + 1, e);
    }
  }

  /** The second loop stops after the last char > ' '. */
  lemma {:induction false} TrimEndStops(s: JString, lo: nat, m: nat, e: nat)
    requires lo < e <= m <= |s| && s[e - 1] > 32
    requires forall k :: e <= k < m ==> s[k] <= 32
    ensures TrimEnd(s, lo, m) == e
    decreases m
  {
    if e < m {
      TrimEndStops(s, lo, m - 1, e);
    }
  }

  /** What `trim` keeps: a slice of the input whose ends are not blank, and only blanks are dropped. */
  lemma TrimIsSlice(s: JString)
    ensures LeadingBlanks(s) + |Trim(s)| <= |s|
    ensures Trim(s) == s[LeadingBlanks(s)..LeadingBlanks(s) + |Trim(s)|]
    ensures forall k :: 0 <= k < LeadingBlanks(s) ==> s[k] <= 32
    ensures forall k :: LeadingBlanks(s) + |Trim(s)| <= k < |s| ==> s[k] <= 32
    ensures Trim(s) != [] ==> Trim(s)[0] > 32 && Trim(s)[|Trim(s)| - 1] > 32
  {
    var i := LeadingBlanks(s);
    var e := TrimEnd(s, i, |s|);
    BlanksFromAreBlank(s, 0);
    TrimEndAreBlank(s, i, |s|);
    assert Trim(s) == s[i..e];
    if e > i {
      assert Trim(s)[0] == s[i];
      assert Trim(s)[e - i - 1] == s[e - 1];
    }
  }

  /** Char `j` of `s.trim()` is char `LeadingBlanks(s) + j` of `s`. */
  lemma TrimCharAt(s: JString, j: nat)
    requires j < |Trim(s)|
    ensures LeadingBlanks(s) + j < |s| && Trim(s)[j] == s[LeadingBlanks(s) + j]
  {
  }

  /** `s.trim()` is empty exactly when every char of `s` is <= ' '. */
  lemma TrimEmpty(s: JString)
    ensures Trim(s) == [] <==> forall k :: 0 <= k < |s| ==> s[k] <= 32
  {
    TrimIsSlice(s);
    if Trim(s) != [] {
      assert s[LeadingBlanks(s)] == Trim(s)[0];
    }
  }

  // ---------------------------------------------------------------- Java integers

  const INT_MIN: int := -0x8000_0000
  const INT_MAX: int := 0x7FFF_FFFF
  const LONG_MIN: int := -0x8000_0000_0000_0000
  const LONG_MAX: int := 0x7FFF_FFFF_FFFF_FFFF

  /** Two's-complement wrap of an unbounded integer into Java's `int` range. */
  function WrapInt(x: int): (r: int)
    ensures INT_MIN <= r <= INT_MAX
    ensures (r - x) % 0x1_0000_0000 == 0
  {
    var u := x % 0x1_0000_0000;
    if u > INT_MAX then u - 0x1_0000_0000 else u
  }

  /** The value of a non-empty run of ASCII decimal digits. */
  function DecimalValue(d: JString): (v: nat)
    requires forall i :: 0 <= i < |d| ==> IsAsciiDigit(d[i])
  {
    if |d| == 0 then 0
    else
      assert IsAsciiDigit(d[|d| - 1]);
      DecimalValue(d[..|d| - 1]) * 10 + (d[|d| - 1] as int - '0' as int)
  }

  predicate AllDigits(d: JString) {
    |d| > 0 && forall i :: 0 <= i < |d| ==> IsAsciiDigit(d[i])
  }

  /**
   * `Integer.parseInt(s)` / `Long.parseLong(s)` over the range `[lo, hi]`: an optional sign, then
   * at least one decimal digit, and the value must fit; `None` is the NumberFormatException.
   */
  function ParseDecimal(s: JString, lo: int, hi: int): (r: Option<int>)
    ensures r.Some? ==> lo <= r.value <= hi
    ensures r.Some? ==> |s| > 0
  {
    if |s| == 0 then None
    else
      var neg := s[0] == '-' as JChar;
      var digits := if s[0] == '-' as JChar || s[0] == '+' as JChar then s[1..] else s;
      if !AllDigits(digits) then None
      else
        var v: int := if neg then 0 - DecimalValue(digits) as int else DecimalValue(digits);
        if lo <= v <= hi then Some(v) else None
  }

  function ParseInt(s: JString): Option<int> { ParseDecimal(s, INT_MIN, INT_MAX) }
  function ParseLong(s: JString): Option<int> { ParseDecimal(s, LONG_MIN, LONG_MAX) }

  /** `Integer.toString(n)` for a non-negative `n`: decimal digits, no leading zero. */
  function DecimalString(n: nat): (r: JString)
    ensures AllDigits(r)
    ensures DecimalValue(r) == n
    ensures r[0] != '0' as JChar || n == 0
  {
    if n < 10 then [('0' as int + n) as JChar]
    else
      var p := DecimalString(n / 10);
      var r := p + [('0' as int + n % 10) as JChar];
      assert r[..|r| - 1] == p;
      r
  }

  /** `Integer.toString(n)` / `Long.toString(n)`. */
  function SignedDecimalString(n: int): JString {
    if n < 0 then [('-' as JChar)] + DecimalString(-n) else DecimalString(n)
  }

  /** Text printed by `toString`, read back by `parseInt`/`parseLong`: the value, when it fits. */
  lemma {:induction false} ParseOfSignedDecimalString(n: int, lo: int, hi: int)
    ensures ParseDecimal(SignedDecimalString(n), lo, hi) == if lo <= n <= hi then Some(n) else None
  {
    var s := SignedDecimalString(n);
    if n < 0 {
      assert s[1..] == DecimalString(-n);
    } else {
      assert s[0] != '-' as JChar && s[0] != '+' as JChar;
    }
  }

  // ---------------------------------------------------------------- hexadecimal text

  /** `Integer.toHexString(n)` for a non-negative `n`: lower-case digits, no leading zero. */
  function HexString(n: nat): (r: JString)
    ensures |r| > 0
    ensures forall i :: 0 <= i < |r| ==> IsHexDigit(r[i]) && !IsAsciiUpper(r[i])
    ensures HexNumber(r) == n
    ensures r[0] != '0' as JChar || n == 0
  {
    if n < 16 then [LowerHexDigit(n)]
    else
      var p := HexString(n / 16);
      var r := p + [LowerHexDigit(n % 16)];
      assert r[..|r| - 1] == p;
      r
  }

  /** The value of a run of hex digits, most significant first. */
  function HexNumber(d: JString): nat
    requires forall i :: 0 <= i < |d| ==> IsHexDigit(d[i])
  {
    if |d| == 0 then 0 else HexNumber(d[..|d| - 1]) * 16 + HexValue(d[|d| - 1])
  }

  lemma {:induction false} HexStringLength(n: nat, k: nat)
    requires n < Pow16(k)
    ensures |HexString(n)| <= if k == 0 then 1 else k
  {
    if n >= 16 {
      assert k >= 2;
      assert n / 16 < Pow16(k - 1);
      HexStringLength(n / 16, k - 1);
    }
  }

  function Pow16(k: nat): (r: nat)
    ensures r >= 1
  {
    if k == 0 then 1 else 16 * Pow16(k - 1)
  }

  // ---------------------------------------------------------------- arithmetic

  /** `x / d` and `x % d` read off a quotient and a remainder in range. */
  lemma DivParts(x: int, q: int, r: int, d: int)
    requires d > 0 && 0 <= r < d && x == q * d + r
    ensures x / d == q && x % d == r
  {
    var q', r' := x / d, x % d;
    assert x == q' * d + r';
    if q > q' {
      assert (q - q') * d == q * d - q' * d;
      MulAtLeast(q - q', d);
    } else if q < q' {
      assert (q' - q) * d == q' * d - q * d;
      MulAtLeast(q' - q, d);
    }
  }

  lemma MulAtLeast(t: int, d: int)
    requires t >= 1 && d > 0
    ensures t * d >= d
  {
  }

  // ---------------------------------------------------------------- misc

  /** Concatenation of a sequence of strings. */
  function Concat(parts: seq<JString>): JString {
    if |parts| == 0 then [] else Concat(parts[..|parts| - 1]) + parts[|parts| - 1]
  }

  /** Concatenation read from the front. */
  lemma {:induction false} ConcatCons(first: JString, rest: seq<JString>)
    ensures Concat([first] + rest) == first + Concat(rest)
    decreases |rest|
  {
    if |rest| > 0 {
      var all := [first] + rest;
      assert all[..|all| - 1] == [first] + rest[..|rest| - 1];
      ConcatCons(first, rest[..|rest| - 1]);
    } else {
      assert [first] + rest == [first];
      assert [first][..0] == [];
    }
  }

  /** The strings of `parts` with `sep` between neighbours. */
  function JoinWith(parts: seq<JString>, sep: JString): JString {
    if |parts| == 0 then []
    else if |parts| == 1 then parts[0]
    else JoinWith(parts[..|parts| - 1], sep) + sep + parts[|parts| - 1]
  }

  /** The pieces of `s` between the occurrences of `c` (empty pieces included). */
  function Fields(s: JString, c: JChar): (r: seq<JString>)
    ensures |r| > 0
    ensures forall i :: 0 <= i < |r| ==> c !in r[i]
    decreases |s|
  {
    var k := IndexOfChar(s, c);
    if k == -1 then [s] else [s[..k]] + Fields(s[k + 1..], c)
  }

  /** `Fields` loses nothing: joining the pieces with `c` gives the input back. */
  lemma {:induction false} FieldsJoin(s: JString, c: JChar)
    ensures JoinWith(Fields(s, c), [c]) == s
    decreases |s|
  {
    var k := IndexOfChar(s, c);
    if k != -1 {
      var rest := Fields(s[k + 1..], c);
      calc {
        JoinWith(Fields(s, c), [c]);
        JoinWith([s[..k]] + rest, [c]);
        { JoinConsFirst(s[..k], rest, [c]); }
        s[..k] + [c] + JoinWith(rest, [c]);
        { FieldsJoin(s[k + 1..], c); }
        s[..k] + [c] + s[k + 1..];
        { SplitAround(s, k); }
        s;
      }
    }
  }

  lemma SplitAround(s: JString, k: nat)
    requires k < |s|
    ensures s[..k] + [s[k]] + s[k + 1..] == s
  {
  }

  /** The tail of `s` from `from` is the stretch up to an occurrence of `t` at `k`, `t`, and what follows. */
  lemma SplitAtOccurrence(s: JString, t: JString, from: nat, k: int)
    requires from <= k && OccursAt(s, t, k)
    ensures s[from..] == s[from..k] + t + s[k + |t|..]
  {
  }

  lemma {:induction false} JoinConsFirst(first: JString, rest: seq<JString>, sep: JString)
    requires |rest| > 0
    ensures JoinWith([first] + rest, sep) == first + sep + JoinWith(rest, sep)
    decreases |rest|
  {
    if |rest| == 1 {
      assert [first] + rest == [first, rest[0]];
    } else {
      var whole := [first] + rest;
      var init := rest[..|rest| - 1];
      var last := rest[|rest| - 1];
      JoinConsFirst(first, init, sep);
      assert whole[..|whole| - 1] == [first] + init;
      assert whole[|whole| - 1] == last;
      assert JoinWith(whole, sep) == JoinWith([first] + init, sep) + sep + last;
      assert JoinWith(rest, sep) == JoinWith(init, sep) + sep + last;
    }
  }

  /** Pieces free of `c`, joined with `c`, split back into the same pieces. */
  lemma {:induction false} FieldsOfJoin(parts: seq<JString>, c: JChar)
    requires |parts| > 0
    requires forall i :: 0 <= i < |parts| ==> c !in parts[i]
    ensures Fields(JoinWith(parts, [c]), c) == parts
    decreases |parts|
  {
    if |parts| > 1 {
      var first := parts[0];
      var rest := parts[1..];
      assert parts == [first] + rest;
      JoinConsFirst(first, rest, [c]);
      var s := JoinWith(parts, [c]);
      assert s == first + [c] + JoinWith(rest, [c]);
      assert s[..|first|] == first && s[|first|] == c;
      assert IndexOfChar(s, c) == |first| by {
        assert c !in s[..|first|];
      }
      assert s[|first| + 1..] == JoinWith(rest, [c]);
      FieldsOfJoin(rest, c);
    } else {
      assert JoinWith(parts, [c]) == parts[0];
    }
  }

  /** `parts` without its trailing empty strings. */
  function DropTrailingEmpty(parts: seq<JString>): (r: seq<JString>)
    ensures |r| <= |parts| && r == parts[..|r|]
    ensures |r| > 0 ==> r[|r| - 1] != []
    ensures forall i :: |r| <= i < |parts| ==> parts[i] == []
  {
    if |parts| > 0 && parts[|parts| - 1] == [] then DropTrailingEmpty(parts[..|parts| - 1]) else parts
  }

  /**
   * `s.split(c)` for a single literal char: the pieces between the `c`s with trailing empty pieces
   * removed; text without any `c` comes back whole (so `""` gives `[""]`).
   */
  function SplitOn(s: JString, c: JChar): (r: seq<JString>)
    ensures forall i :: 0 <= i < |r| ==> c !in r[i]
    ensures c !in s ==> r == [s]
  {
    if c !in s then [s] else DropTrailingEmpty(Fields(s, c))
  }

  // ---------------------------------------------------------------- exceptions and buffers

  /** The Java exceptions the modelled code can raise. */
  datatype Exception =
    | NullPointerException
    | IndexOutOfBoundsException
    | NumberFormatException
    | IllegalArgumentException
    | UnsupportedOperationException
    | EmptyStackException
    | AssertionError
    | IOException(message: JString)

  /** A `StringBuffer`/`StringBuilder` that callers pass in and the code appends to. */
  class StringBuffer {
    var text: JString

    constructor (initial: JString)
      ensures text == initial
    {
      text := initial;
    }

    method Append(s: JString)
      modifies this
      ensures text == old(text) + s
    {
      text := text + s;
    }
  }
}
