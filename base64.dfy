/**
 * Base64 as the encoders and the decoder of the library produce and read it: the alphabet and
 * padding of section 4 of RFC 4648, and the two line layouts the library uses (a LF after every
 * 76 characters in the stream encoder, a LF between 76-character lines in the one-shot encoder).
 */
module Base64 {
  import opened JStrings

  const PAD: Byte := 61
  const LF: Byte := 10
  const CR: Byte := 13
  const LINE_SIZE: nat := 76

  // ---------------------------------------------------------------- the alphabet

  /** The value table of section 4 of RFC 4648: `A`-`Z`, `a`-`z`, `0`-`9`, `+`, `/`. */
  function Sextet(v: int): (c: Byte)
    requires 0 <= v < 64
    ensures c != PAD && c != LF && c != CR && c < 0x80
  {
    if v < 26 then (65 + v) as Byte
    else if v < 52 then (97 + v - 26) as Byte
    else if v < 62 then (48 + v - 52) as Byte
    else if v == 62 then 43
    else 47
  }

  /** The value of an alphabet char, -1 for any other byte. */
  function SextetValue(c: Byte): (v: int)
    ensures -1 <= v < 64
    ensures v >= 0 ==> Sextet(v) == c
  {
    if 65 <= c <= 90 then c as int - 65
    else if 97 <= c <= 122 then c as int - 97 + 26
    else if 48 <= c <= 57 then c as int - 48 + 52
    else if c == 43 then 62
    else if c == 47 then 63
    else -1
  }

  lemma SextetValueOfSextet(v: int)
    requires 0 <= v < 64
    ensures SextetValue(Sextet(v)) == v
  {
  }

  /** The `n` consecutive bytes from `lo` on. */
  function ByteRun(lo: nat, n: nat): (r: seq<Byte>)
    requires lo + n <= 0x100
    ensures |r| == n && forall i :: 0 <= i < n ==> r[i] == (lo + i) as Byte
  {
    seq(n, i requires 0 <= i < n => (lo + i) as Byte)
  }

  /** `DEFAULT_ALPHABET`, the string `A..Za..z0..9+/` as bytes. */
  const DEFAULT_ALPHABET: seq<Byte> := ByteRun(65, 26) + ByteRun(97, 26) + ByteRun(48, 10) + [43, 47]

  /** The default alphabet is the table of section 4 of RFC 4648. */
  lemma DefaultAlphabetIsRfc4648()
    ensures |DEFAULT_ALPHABET| == 64
    ensures forall v :: 0 <= v < 64 ==> DEFAULT_ALPHABET[v] == Sextet(v)
  {
    var a := DEFAULT_ALPHABET;
    forall v | 0 <= v < 64
      ensures a[v] == Sextet(v)
    {
      if v < 26 {
        assert a[v] == ByteRun(65, 26)[v];
      } else if v < 52 {
        assert a[v] == ByteRun(97, 26)[v - 26];
      } else if v < 62 {
        assert a[v] == ByteRun(48, 10)[v - 52];
      }
    }
  }

  /** No char appears twice in the default alphabet. */
  lemma DefaultAlphabetDistinct()
    ensures forall i, j :: 0 <= i < j < |DEFAULT_ALPHABET| ==> DEFAULT_ALPHABET[i] != DEFAULT_ALPHABET[j]
  {
    DefaultAlphabetIsRfc4648();
    forall i, j | 0 <= i < j < 64
      ensures DEFAULT_ALPHABET[i] != DEFAULT_ALPHABET[j]
    {
      SextetValueOfSextet(i);
      SextetValueOfSextet(j);
    }
  }

  // ---------------------------------------------------------------- RFC 4648 encoding

  /**
   * One group of section 4 of RFC 4648: three bytes give four chars, a final one or two bytes give
   * two or three chars and `=` padding, the missing bits being zero.
   */
  function EncodeGroup(g: seq<Byte>): (q: seq<Byte>)
    requires 1 <= |g| <= 3
    ensures |q| == 4 && q[0] != PAD && q[1] != PAD
    ensures |g| == 1 <==> q[2] == PAD
    ensures |g| <= 2 <==> q[3] == PAD
    ensures forall i :: 0 <= i < 4 ==> q[i] != LF && q[i] != CR && q[i] < 0x80
  {
    var b0 := g[0] as int;
    if |g| == 1 then
      [Sextet(b0 / 4), Sextet((b0 % 4) * 16), PAD, PAD]
    else
      var b1 := g[1] as int;
      if |g| == 2 then
        [Sextet(b0 / 4), Sextet((b0 % 4) * 16 + b1 / 16), Sextet((b1 % 16) * 4), PAD]
      else
        var b2 := g[2] as int;
        [Sextet(b0 / 4), Sextet((b0 % 4) * 16 + b1 / 16), Sextet((b1 % 16) * 4 + b2 / 64), Sextet(b2 % 64)]
  }

  /** The size of the first group of `d`. */
  function GroupSize(d: seq<Byte>): (n: nat)
    requires |d| > 0
    ensures 1 <= n <= 3 && n <= |d|
  {
    if |d| < 3 then |d| else 3
  }

  /** Standard padded base64 of `d`, without line breaks. */
  function Encode(d: seq<Byte>): seq<Byte>
    decreases |d|
  {
    if |d| == 0 then []
    else EncodeGroup(d[..GroupSize(d)]) + Encode(d[GroupSize(d)..])
  }

  /** The encoding has `4 * ceil(n / 3)` chars. */
  lemma {:induction false} EncodeLength(d: seq<Byte>)
    ensures |Encode(d)| == 4 * ((|d| + 2) / 3)
    decreases |d|
  {
    if |d| > 0 {
      var g := GroupSize(d);
      var rest := d[g..];
      EncodeLength(rest);
      assert |Encode(d)| == 4 + |Encode(rest)|;
      if g == 3 {
        GroupCount(|d|);
      }
    }
  }

  /** A full group less is one group less. */
  lemma GroupCount(n: nat)
    requires n >= 3
    ensures (n + 2) / 3 == (n - 1) / 3 + 1
  {
    DivParts(n + 2, (n - 1) / 3 + 1, (n - 1) % 3, 3);
  }

  /** The encoding holds no line break. */
  lemma {:induction false} EncodeHasNoBreak(d: seq<Byte>)
    ensures NoBreak(Encode(d))
    decreases |d|
  {
    if |d| > 0 {
      EncodeHasNoBreak(d[GroupSize(d)..]);
      var q := EncodeGroup(d[..GroupSize(d)]);
      assert Encode(d) == q + Encode(d[GroupSize(d)..]);
    }
  }

  /** Encoding a whole number of groups and then more is encoding the two in turn. */
  lemma {:induction false} EncodeAppend(d: seq<Byte>, e: seq<Byte>)
    requires |d| % 3 == 0
    ensures Encode(d + e) == Encode(d) + Encode(e)
    decreases |d|
  {
    if |d| == 0 {
      assert d + e == e;
    } else {
      assert GroupSize(d + e) == 3 && GroupSize(d) == 3;
      assert (d + e)[..3] == d[..3];
      assert (d + e)[3..] == d[3..] + e;
      EncodeAppend(d[3..], e);
    }
  }

  /** `Packed(b0, b1, b2)`: the 24-bit accumulator `b0 << 16 | b1 << 8 | b2`. */
  function Packed(b0: Byte, b1: Byte, b2: Byte): (a: int)
    ensures 0 <= a < 0x100_0000
  {
    b0 as int * 0x1_0000 + b1 as int * 0x100 + b2 as int
  }

  /** The four 6-bit digits `(a >>> 18) & 0x3f`, ..., `a & 0x3f` of an accumulator, looked up in the alphabet. */
  function Digits(a: int): (q: seq<Byte>)
    requires 0 <= a < 0x100_0000
    ensures |q| == 4
  {
    DefaultAlphabetIsRfc4648();
    [DEFAULT_ALPHABET[(a / 0x4_0000) % 64], DEFAULT_ALPHABET[(a / 0x1000) % 64],
     DEFAULT_ALPHABET[(a / 0x40) % 64], DEFAULT_ALPHABET[a % 64]]
  }

  /** Splitting the accumulator at bit 18, 12 and 6 cuts the bytes where section 4 of RFC 4648 does. */
  lemma PackedDigits(b0: Byte, b1: Byte, b2: Byte)
    ensures var a := Packed(b0, b1, b2);
      a / 0x4_0000 % 64 == b0 as int / 4 &&
      a / 0x1000 % 64 == (b0 as int % 4) * 16 + b1 as int / 16 &&
      a / 0x40 % 64 == (b1 as int % 16) * 4 + b2 as int / 64 &&
      a % 64 == b2 as int % 64
  {
    var a := Packed(b0, b1, b2);
    var h0, l0 := b0 as int / 4, b0 as int % 4;
    var h1, l1 := b1 as int / 16, b1 as int % 16;
    var h2, l2 := b2 as int / 64, b2 as int % 64;
    var a6 := h0 * 0x1000 + l0 * 0x400 + h1 * 64 + l1 * 4 + h2;
    var a12 := h0 * 64 + l0 * 16 + h1;
    DivParts(a, a6, l2, 64);
    DivParts(a6, a12, l1 * 4 + h2, 64);
    DivParts(a, a12, l1 * 0x100 + h2 * 0x40 + l2, 0x1000);
    DivParts(a12, h0, l0 * 16 + h1, 64);
    DivParts(a, h0, l0 * 0x1_0000 + h1 * 0x1000 + l1 * 0x100 + h2 * 0x40 + l2, 0x4_0000);
    DivParts(h0, 0, h0, 64);
  }

  /** A completed triple: the digits of its accumulator are its RFC 4648 group. */
  lemma TripleDigits(b0: Byte, b1: Byte, b2: Byte)
    ensures Digits(Packed(b0, b1, b2)) == EncodeGroup([b0, b1, b2])
  {
    PackedDigits(b0, b1, b2);
    DefaultAlphabetIsRfc4648();
  }

  /** One held byte: two digits of its accumulator and `==` are its padded group. */
  lemma SingleDigits(b0: Byte)
    ensures Digits(Packed(b0, 0, 0))[..2] + [PAD, PAD] == EncodeGroup([b0])
  {
    PackedDigits(b0, 0, 0);
    DefaultAlphabetIsRfc4648();
  }

  /** Two held bytes: three digits of their accumulator and `=` are their padded group. */
  lemma PairDigits(b0: Byte, b1: Byte)
    ensures Digits(Packed(b0, b1, 0))[..3] + [PAD] == EncodeGroup([b0, b1])
  {
    PackedDigits(b0, b1, 0);
    DefaultAlphabetIsRfc4648();
  }

  // ---------------------------------------------------------------- line layouts

  predicate NoBreak(t: seq<Byte>) {
    forall i :: 0 <= i < |t| ==> t[i] != LF
  }

  /** `t` without its line feeds. */
  function Unwrap(t: seq<Byte>): (r: seq<Byte>)
    ensures NoBreak(r)
  {
    if |t| == 0 then []
    else (if t[0] == LF then [] else [t[0]]) + Unwrap(t[1..])
  }

  lemma {:induction false} UnwrapAppend(s: seq<Byte>, t: seq<Byte>)
    ensures Unwrap(s + t) == Unwrap(s) + Unwrap(t)
    decreases |s|
  {
    if |s| == 0 {
      assert s + t == t;
    } else {
      assert (s + t)[1..] == s[1..] + t;
      UnwrapAppend(s[1..], t);
    }
  }

  lemma {:induction false} UnwrapNoBreak(t: seq<Byte>)
    requires NoBreak(t)
    ensures Unwrap(t) == t
    decreases |t|
  {
    if |t| > 0 {
      UnwrapNoBreak(t[1..]);
    }
  }

  /**
   * The stream layout of base64 text `t` whose line already holds `col` chars: a LF each time a line
   * reaches 76 chars, a full last line included; none after a shorter last line.
   */
  function Wrap(t: seq<Byte>, col: nat): seq<Byte>
    requires col < LINE_SIZE
    decreases |t|
  {
    if |t| < LINE_SIZE - col then t
    else t[..LINE_SIZE - col] + [LF] + Wrap(t[LINE_SIZE - col..], 0)
  }

  /** The column after one more group at column `col`: four more, or 0 once the line is full. */
  function NextColumn(col: nat): nat {
    if col + 4 >= LINE_SIZE then 0 else col + 4
  }

  /** The LF that follows a group written at column `col` when it fills the line. */
  function Break(col: nat): seq<Byte> {
    if col + 4 >= LINE_SIZE then [LF] else []
  }

  /** The layout of `Base64OutputStream`: each group, followed by a LF when the column reaches 76. */
  function StreamText(d: seq<Byte>, col: nat): seq<Byte>
    decreases |d|
  {
    if |d| == 0 then []
    else EncodeGroup(d[..GroupSize(d)]) + Break(col) + StreamText(d[GroupSize(d)..], NextColumn(col))
  }

  /** The column after `StreamText(d, col)`. */
  function ColumnAfter(d: seq<Byte>, col: nat): (c: nat)
    ensures col % 4 == 0 && col < LINE_SIZE ==> c % 4 == 0 && c < LINE_SIZE
    decreases |d|
  {
    if |d| == 0 then col
    else ColumnAfter(d[GroupSize(d)..], NextColumn(col))
  }

  /** Appending one group to a whole number of groups moves the column on by four, or back to 0 at 76. */
  lemma {:induction false} ColumnAfterSnoc(d: seq<Byte>, g: seq<Byte>, col: nat)
    requires |d| % 3 == 0 && 1 <= |g| <= 3
    ensures ColumnAfter(d + g, col) == NextColumn(ColumnAfter(d, col))
    decreases |d|
  {
    if |d| == 0 {
      assert d + g == g;
      assert GroupSize(g) == |g| && g[|g|..] == [];
    } else {
      assert GroupSize(d + g) == 3 && GroupSize(d) == 3;
      assert (d + g)[3..] == d[3..] + g;
      ColumnAfterSnoc(d[3..], g, NextColumn(col));
    }
  }

  /** A text of three or more bytes starts with its first group. */
  lemma StreamTextStep(d: seq<Byte>, col: nat)
    requires |d| >= 3
    ensures StreamText(d, col) == EncodeGroup(d[..3]) + Break(col) + StreamText(d[3..], NextColumn(col))
  {
  }

  /** A text of one group. */
  lemma StreamTextGroup(g: seq<Byte>, col: nat)
    requires 1 <= |g| <= 3
    ensures StreamText(g, col) == EncodeGroup(g) + Break(col)
  {
    assert GroupSize(g) == |g| && g[..|g|] == g && g[|g|..] == [];
  }

  /** The inductive step of `StreamTextSnoc`: the first group of `d` is also the first of `d + g`. */
  lemma StreamTextSnocStep(d: seq<Byte>, g: seq<Byte>, col: nat, tail: seq<Byte>)
    requires |d| >= 3
    requires StreamText(d[3..] + g, NextColumn(col)) == StreamText(d[3..], NextColumn(col)) + tail
    ensures StreamText(d + g, col) == StreamText(d, col) + tail
  {
    var next := NextColumn(col);
    var head := EncodeGroup(d[..3]) + Break(col);
    SlicesOfAppend(d, g, 3);
    calc {
      StreamText(d + g, col);
      { StreamTextStep(d + g, col); }
      head + StreamText(d[3..] + g, next);
      head + (StreamText(d[3..], next) + tail);
      (head + StreamText(d[3..], next)) + tail;
      { StreamTextStep(d, col); }
      StreamText(d, col) + tail;
    }
  }

  lemma SlicesOfAppend(d: seq<Byte>, g: seq<Byte>, k: nat)
    requires k <= |d|
    ensures (d + g)[..k] == d[..k] && (d + g)[k..] == d[k..] + g
  {
  }

  /** Appending one group to a whole number of groups appends its chars and, at column 76, a LF. */
  lemma {:induction false} StreamTextSnoc(d: seq<Byte>, g: seq<Byte>, col: nat)
    requires |d| % 3 == 0 && 1 <= |g| <= 3
    ensures StreamText(d + g, col) == StreamText(d, col) + (EncodeGroup(g) + Break(ColumnAfter(d, col)))
    decreases |d|
  {
    if |d| == 0 {
      assert d + g == g;
      StreamTextGroup(g, col);
    } else {
      var next := NextColumn(col);
      assert |d| >= 3 && GroupSize(d) == 3;
      assert ColumnAfter(d, col) == ColumnAfter(d[3..], next);
      StreamTextSnoc(d[3..], g, next);
      StreamTextSnocStep(d, g, col, EncodeGroup(g) + Break(ColumnAfter(d, col)));
    }
  }

  /** Adding one group in front of text already laid out at column `col`. */
  lemma WrapCons(q: seq<Byte>, t: seq<Byte>, col: nat)
    requires |q| == 4 && col % 4 == 0 && col < LINE_SIZE
    ensures Wrap(q + t, col) == q + Break(col) + Wrap(t, NextColumn(col))
  {
    var c := col + 4;
    if c >= LINE_SIZE {
      assert LINE_SIZE - col == 4;
      assert (q + t)[..4] == q && (q + t)[4..] == t;
      assert Wrap(q + t, col) == q + [LF] + Wrap(t, 0);
    } else if |q + t| < LINE_SIZE - col {
    } else {
      var k := LINE_SIZE - col;
      assert (q + t)[..k] == q + t[..k - 4];
      assert (q + t)[k..] == t[k - 4..];
      var w := Wrap(t[k - 4..], 0);
      assert Wrap(t, c) == t[..k - 4] + [LF] + w;
      assert Wrap(q + t, col) == q + t[..k - 4] + [LF] + w;
      assert q + [] + (t[..k - 4] + [LF] + w) == q + t[..k - 4] + [LF] + w;
    }
  }

  /** The stream layout is the RFC 4648 text with a LF after every 76 chars. */
  lemma {:induction false} StreamTextIsWrapped(d: seq<Byte>, col: nat)
    requires col % 4 == 0 && col < LINE_SIZE
    ensures StreamText(d, col) == Wrap(Encode(d), col)
    decreases |d|
  {
    if |d| > 0 {
      var q := EncodeGroup(d[..GroupSize(d)]);
      StreamTextIsWrapped(d[GroupSize(d)..], NextColumn(col));
      WrapCons(q, Encode(d[GroupSize(d)..]), col);
    }
  }

  /** Wrapping only inserts line feeds. */
  lemma {:induction false} UnwrapWrap(t: seq<Byte>, col: nat)
    requires col < LINE_SIZE && NoBreak(t)
    ensures Unwrap(Wrap(t, col)) == t
    decreases |t|
  {
    if |t| < LINE_SIZE - col {
      UnwrapNoBreak(t);
    } else {
      var k := LINE_SIZE - col;
      var w := Wrap(t[k..], 0);
      assert Wrap(t, col) == t[..k] + [LF] + w;
      assert NoBreak(t[..k]) && NoBreak(t[k..]);
      UnwrapWrap(t[k..], 0);
      UnwrapAppend(t[..k] + [LF], w);
      UnwrapAppend(t[..k], [LF]);
      UnwrapNoBreak(t[..k]);
      assert Unwrap([LF]) == [] by {
        assert [LF][1..] == [];
      }
      UnwrapRejoin(t, k, Unwrap(Wrap(t, col)), Unwrap(t[..k] + [LF]), Unwrap(w));
    }
  }

  /** The pieces of an unwrapped line, put back together. */
  lemma UnwrapRejoin(t: seq<Byte>, k: nat, x: seq<Byte>, a: seq<Byte>, u: seq<Byte>)
    requires k <= |t| && x == a + u && a == t[..k] + [] && u == t[k..]
    ensures x == t
  {
    assert t[..k] + t[k..] == t;
  }

  /** With its line feeds removed the stream output is standard padded base64. */
  lemma StreamTextUnwrapped(d: seq<Byte>)
    ensures Unwrap(StreamText(d, 0)) == Encode(d)
  {
    StreamTextIsWrapped(d, 0);
    EncodeHasNoBreak(d);
    UnwrapWrap(Encode(d), 0);
  }

  /** The layout of `BASE64Encoder`: 76-char lines with a LF only between lines. */
  function Lines(t: seq<Byte>): seq<Byte>
    decreases |t|
  {
    if |t| <= LINE_SIZE then t
    else t[..LINE_SIZE] + [LF] + Lines(t[LINE_SIZE..])
  }

  /** The one-shot layout only inserts line feeds, and never ends with one. */
  lemma {:induction false} LinesMeaning(t: seq<Byte>)
    requires NoBreak(t)
    ensures Unwrap(Lines(t)) == t
    ensures |Lines(t)| > 0 ==> Lines(t)[|Lines(t)| - 1] != LF
    decreases |t|
  {
    if |t| <= LINE_SIZE {
      UnwrapNoBreak(t);
    } else {
      var k := LINE_SIZE;
      assert NoBreak(t[..k]) && NoBreak(t[k..]);
      LinesMeaning(t[k..]);
      UnwrapAppend(t[..k] + [LF], Lines(t[k..]));
      UnwrapAppend(t[..k], [LF]);
      UnwrapNoBreak(t[..k]);
      assert t[..k] + t[k..] == t;
    }
  }

  /** The two layouts differ exactly by the final LF on a whole number of lines. */
  lemma WrapEndsWithBreak(t: seq<Byte>)
    requires |t| > 0 && |t| % LINE_SIZE == 0
    ensures Wrap(t, 0) == Lines(t) + [LF]
    decreases |t|
  {
    if |t| == LINE_SIZE {
      assert t[..LINE_SIZE] == t;
      assert t[LINE_SIZE..] == [];
    } else {
      WrapEndsWithBreak(t[LINE_SIZE..]);
    }
  }
}
