/**
 * The one-shot encoder `BASE64Encoder`: the whole input is encoded at once, 57 bytes (76 chars)
 * per line, with a LF between lines and none at the end.  The chars of the result are written as
 * their ASCII byte values.
 */
module Base64Encoder {
  import opened JStrings
  import opened Wrappers
  import opened Base64

  const BYTES_PER_ATOM: nat := 3
  const BYTES_PER_LINE: nat := 57

  // ---------------------------------------------------------------- Java int arithmetic

  /** `data[offset]` read as Java's signed `byte` and widened to `int`. */
  function Signed(b: Byte): (x: int)
    ensures -128 <= x < 128 && x % 256 == b as int
  {
    if b < 128 then b as int else b as int - 256
  }

  /** `x >>> n` on a 32-bit `int`, for the divisor `d == 2^n`. */
  function UShr(x: int, d: nat): nat
    requires d > 0
  {
    (x % 0x1_0000_0000) / d
  }

  /** `x << n` on a 32-bit `int`, for the factor `m == 2^n`, read back as bits. */
  function Shl(x: int, m: nat): nat {
    (x * m) % 0x1_0000_0000
  }

  /** The widened sign bits do not reach the six low bits the partial atoms keep. */
  lemma SignedBits(b: Byte)
    ensures UShr(Signed(b), 4) % 64 == b as int / 4
    ensures UShr(Signed(b), 16) % 16 == b as int / 16
    ensures Shl(Signed(b), 16) % 64 / 16 * 16 == (b as int % 4) * 16
    ensures Shl(Signed(b), 4) % 64 / 4 * 4 == (b as int % 16) * 4
  {
    var u := Signed(b) % 0x1_0000_0000;
    var k: int := if b < 128 then 0 else 0xFF_FFFF;
    DivParts(Signed(b), if b < 128 then 0 else -1, b as int + k * 256, 0x1_0000_0000);
    assert u == b as int + k * 256;
    DivParts(u, b as int / 4 + k * 64, b as int % 4, 4);
    DivParts(u / 4, k, b as int / 4, 64);
    DivParts(u, b as int / 16 + k * 16, b as int % 16, 16);
    DivParts(u / 16, k, b as int / 16, 16);
    var c16: int := if b < 128 then 0 else 0xFFFF_F000;
    var s16 := Shl(Signed(b), 16);
    DivParts(Signed(b) * 16, if b < 128 then 0 else -1, b as int * 16 + c16, 0x1_0000_0000);
    DivParts(s16, b as int / 4 + c16 / 64, (b as int % 4) * 16, 64);
    DivParts((b as int % 4) * 16, b as int % 4, 0, 16);
    var c4: int := if b < 128 then 0 else 0xFFFF_FC00;
    var s4 := Shl(Signed(b), 4);
    DivParts(Signed(b) * 4, if b < 128 then 0 else -1, b as int * 4 + c4, 0x1_0000_0000);
    DivParts(s4, b as int / 16 + c4 / 64, (b as int % 16) * 4, 64);
    DivParts((b as int % 16) * 4, b as int % 16, 0, 4);
  }

  // ---------------------------------------------------------------- atoms

  /** `encodeAtom(out, data, offset)`: the three bytes at `offset` packed and cut into four chars. */
  method EncodeAtom(out: seq<Byte>, data: seq<Byte>, offset: nat) returns (r: seq<Byte>)
    requires offset + 3 <= |data|
    ensures r == out + EncodeGroup(data[offset..offset + 3])
  {
    var v := Packed(data[offset], data[offset + 1], data[offset + 2]);
    DefaultAlphabetIsRfc4648();
    r := out + [DEFAULT_ALPHABET[(v / 0x4_0000) % 64], DEFAULT_ALPHABET[(v / 0x1000) % 64],
                DEFAULT_ALPHABET[(v / 0x40) % 64], DEFAULT_ALPHABET[v % 64]];
    assert r == out + Digits(v);
    TripleDigits(data[offset], data[offset + 1], data[offset + 2]);
    assert data[offset..offset + 3] == [data[offset], data[offset + 1], data[offset + 2]];
  }

  /**
   * `encodeAtom(out, data, offset, len)`: nothing for 0, a padded group for 1 or 2, a whole group
   * for 3, and an AssertionError for any other length.
   */
  method EncodeAtomPartial(out: seq<Byte>, data: seq<Byte>, offset: nat, len: int) returns (r: Result<seq<Byte>, Exception>)
    requires 0 <= len <= 3 ==> offset + len <= |data|
    ensures len == 0 ==> r == Ok(out)
    ensures 1 <= len <= 3 ==> r == Ok(out + EncodeGroup(data[offset..offset + len]))
    ensures (len < 0 || len > 3) ==> r == Err(AssertionError)
  {
    DefaultAlphabetIsRfc4648();
    if len == 0 {
      r := Ok(out);
    } else if len == 1 {
      var a := Signed(data[offset]);
      SignedBits(data[offset]);
      r := Ok(out + [DEFAULT_ALPHABET[UShr(a, 4) % 64], DEFAULT_ALPHABET[Shl(a, 16) % 64 / 16 * 16], PAD, PAD]);
      assert data[offset..offset + len] == [data[offset]];
    } else if len == 2 {
      var a := Signed(data[offset]);
      var b := Signed(data[offset + 1]);
      SignedBits(data[offset]);
      SignedBits(data[offset + 1]);
      r := Ok(out + [DEFAULT_ALPHABET[UShr(a, 4) % 64], DEFAULT_ALPHABET[Shl(a, 16) % 64 / 16 * 16 + UShr(b, 16) % 16],
                     DEFAULT_ALPHABET[Shl(b, 4) % 64 / 4 * 4], PAD]);
      assert data[offset..offset + len] == [data[offset], data[offset + 1]];
    } else if len == 3 {
      var s := EncodeAtom(out, data, offset);
      r := Ok(s);
    } else {
      r := Err(AssertionError);
    }
  }

  // ---------------------------------------------------------------- the encoder

  /** One more group after a whole number of groups. */
  lemma EncodeSnoc(d: seq<Byte>, g: seq<Byte>)
    requires |d| % 3 == 0 && 1 <= |g| <= 3
    ensures Encode(d + g) == Encode(d) + EncodeGroup(g)
  {
    EncodeAppend(d, g);
    assert GroupSize(g) == |g| && g[..|g|] == g && g[|g|..] == [];
  }

  /** One round of the inner loop: the text of bytes still to read starts with the next group. */
  lemma AtomStep(x: seq<Byte>, g: seq<Byte>, rest: seq<Byte>)
    requires |x| >= 3 && g == x[..3] && rest == x[3..]
    ensures Encode(x) == EncodeGroup(g) + Encode(rest)
  {
  }

  /** Moving the group from the text still to come to the text written keeps their sum. */
  lemma Advance(r: seq<Byte>, q: seq<Byte>, e: seq<Byte>, rest: seq<Byte>, goal: seq<Byte>)
    requires r + e == goal && e == q + rest
    ensures (r + q) + rest == goal
  {
  }

  /** Before `max` there is room for a whole group. */
  lemma AtomFits(offset: nat, i: nat, max: nat, k: nat, atoms: nat)
    requires i == offset + 3 * k && k <= atoms && max == offset + 3 * atoms && i < max
    ensures i + 3 <= max
  {
  }

  /** More than 57 bytes make more than one line: the first 57 bytes, a LF, then the rest. */
  lemma LineStep(x: seq<Byte>)
    requires |x| > BYTES_PER_LINE
    ensures Lines(Encode(x)) == Encode(x[..BYTES_PER_LINE]) + [LF] + Lines(Encode(x[BYTES_PER_LINE..]))
  {
    EncodeSplitLine(x);
    FullLineLength(x[..BYTES_PER_LINE]);
    EncodeNonEmpty(x[BYTES_PER_LINE..]);
    LinesSplit(Encode(x[..BYTES_PER_LINE]), Encode(x[BYTES_PER_LINE..]));
  }

  lemma EncodeSplitLine(x: seq<Byte>)
    requires |x| > BYTES_PER_LINE
    ensures Encode(x) == Encode(x[..BYTES_PER_LINE]) + Encode(x[BYTES_PER_LINE..])
  {
    assert x == x[..BYTES_PER_LINE] + x[BYTES_PER_LINE..];
    EncodeAppend(x[..BYTES_PER_LINE], x[BYTES_PER_LINE..]);
  }

  /** 57 bytes make exactly one 76-char line. */
  lemma FullLineLength(x: seq<Byte>)
    requires |x| == BYTES_PER_LINE
    ensures |Encode(x)| == LINE_SIZE
  {
    EncodeLength(x);
  }

  lemma EncodeNonEmpty(d: seq<Byte>)
    requires |d| > 0
    ensures |Encode(d)| >= 4
  {
  }

  /** A full line followed by more text: the line, a LF, then the rest laid out. */
  lemma LinesSplit(a: seq<Byte>, b: seq<Byte>)
    requires |a| == LINE_SIZE && |b| > 0
    ensures Lines(a + b) == a + [LF] + Lines(b)
  {
    assert (a + b)[..LINE_SIZE] == a && (a + b)[LINE_SIZE..] == b;
  }

  /** At most 57 bytes fit on one line. */
  lemma LastLine(x: seq<Byte>)
    requires |x| <= BYTES_PER_LINE
    ensures Lines(Encode(x)) == Encode(x)
  {
    var e := Encode(x);
    LineLength(x);
    ShortLine(e);
  }

  lemma LineLength(x: seq<Byte>)
    requires |x| <= 57
    ensures |Encode(x)| <= 76
  {
    EncodeLength(x);
  }

  lemma ShortLine(t: seq<Byte>)
    requires |t| <= 76
    ensures Lines(t) == t
  {
  }

  /** Fact of the atom loop: what was written plus the text of the bytes still to read is the text of the run. */
  ghost predicate RunAt(r: seq<Byte>, out: seq<Byte>, input: seq<Byte>, offset: nat, i: nat, max: nat)
    requires offset <= i <= max <= |input|
  {
    r + Encode(input[i..max]) == out + Encode(input[offset..max])
  }

  /** One round of the atom loop keeps `RunAt`. */
  lemma RunRound(r: seq<Byte>, out: seq<Byte>, input: seq<Byte>, offset: nat, i: nat, max: nat)
    requires offset <= i && i + 3 <= max <= |input| && RunAt(r, out, input, offset, i, max)
    ensures RunAt(r + EncodeGroup(input[i..i + 3]), out, input, offset, i + 3, max)
  {
    AtomStep(input[i..max], input[i..i + 3], input[i + 3..max]);
    Advance(r, EncodeGroup(input[i..i + 3]), Encode(input[i..max]), Encode(input[i + 3..max]), out + Encode(input[offset..max]));
  }

  lemma RunDone(r: seq<Byte>, out: seq<Byte>, input: seq<Byte>, offset: nat, max: nat)
    requires offset <= max <= |input| && RunAt(r, out, input, offset, max, max)
    ensures r == out + Encode(input[offset..max])
  {
    assert input[max..max] == [];
  }

  /** The inner loop: `atoms` groups of three bytes from `offset` up to `max`. */
  method EncodeRun(out: seq<Byte>, input: seq<Byte>, offset: nat, max: nat, ghost atoms: nat) returns (r: seq<Byte>)
    requires max == offset + 3 * atoms && max <= |input|
    ensures r == out + Encode(input[offset..max])
  {
    r := out;
    var i := offset;
    ghost var k := 0;
    while i < max
      invariant offset <= i <= max
      invariant i == offset + 3 * k && k <= atoms
      invariant RunAt(r, out, input, offset, i, max)
    {
      AtomFits(offset, i, max, k, atoms);
      RunRound(r, out, input, offset, i, max);
      r := EncodeAtom(r, input, i);
      i, k := i + BYTES_PER_ATOM, k + 1;
    }
    RunDone(r, out, input, offset, max);
  }

  /** Fact of the line loop: what was written plus the layout of the bytes still to read is the whole layout. */
  ghost predicate LinesAt(out: seq<Byte>, data: seq<Byte>, offset: nat)
    requires offset <= |data|
  {
    out + Lines(Encode(data[offset..])) == Lines(Encode(data))
  }

  /** One round of the line loop (a full line and its LF) keeps `LinesAt`. */
  lemma LineRound(out: seq<Byte>, data: seq<Byte>, offset: nat)
    requires offset + BYTES_PER_LINE < |data| && LinesAt(out, data, offset)
    ensures LinesAt(out + Encode(data[offset..offset + BYTES_PER_LINE]) + [LF], data, offset + BYTES_PER_LINE)
  {
    var x := data[offset..];
    assert x[..BYTES_PER_LINE] == data[offset..offset + BYTES_PER_LINE];
    assert x[BYTES_PER_LINE..] == data[offset + BYTES_PER_LINE..];
    LineStep(x);
    LineAdvance(out, Encode(x[..BYTES_PER_LINE]), Lines(Encode(x[BYTES_PER_LINE..])), Lines(Encode(x)), Lines(Encode(data)));
  }

  lemma LineAdvance(out: seq<Byte>, a: seq<Byte>, rest: seq<Byte>, e: seq<Byte>, goal: seq<Byte>)
    requires out + e == goal && e == a + [LF] + rest
    ensures (out + a + [LF]) + rest == goal
  {
  }

  /** Once at most one line is left, its text completes the layout. */
  lemma LinesDone(out: seq<Byte>, data: seq<Byte>, offset: nat)
    requires offset <= |data| && |data| - offset <= BYTES_PER_LINE && LinesAt(out, data, offset)
    ensures out + Encode(data[offset..]) == Lines(Encode(data))
  {
    LastLine(data[offset..]);
  }

  /** The last whole groups then the partial group: the text of all bytes from `offset`. */
  method EncodeTail(out: seq<Byte>, data: seq<Byte>, offset: nat) returns (r: seq<Byte>)
    requires offset <= |data|
    ensures r == out + Encode(data[offset..])
  {
    var length := |data|;
    var atoms := (length - offset) / BYTES_PER_ATOM;
    var whole := offset + BYTES_PER_ATOM * atoms;
    TailFits(offset, length, atoms, whole);
    r := EncodeRun(out, data, offset, whole, atoms);
    if whole < length {
      var last := EncodeAtomPartial(r, data, whole, length - whole);
      SliceJoin(data, offset, whole);
      TailJoin(out, r, last.value, data[offset..], data[offset..whole], data[whole..], atoms);
      r := last.value;
    } else {
      assert data[offset..whole] == data[offset..];
    }
  }

  /** The text of the whole groups followed by that of the partial group is the text of the tail. */
  lemma TailJoin(out: seq<Byte>, r: seq<Byte>, q: seq<Byte>, x: seq<Byte>, d: seq<Byte>, g: seq<Byte>, k: nat)
    requires |d| == 3 * k && 1 <= |g| <= 3 && x == d + g
    requires r == out + Encode(d) && q == r + EncodeGroup(g)
    ensures q == out + Encode(x)
  {
    Thirds(|d|, k);
    EncodeSnoc(d, g);
    Append3(out, Encode(d), EncodeGroup(g), r, q);
  }

  lemma Append3(out: seq<Byte>, a: seq<Byte>, b: seq<Byte>, r: seq<Byte>, q: seq<Byte>)
    requires r == out + a && q == r + b
    ensures q == out + (a + b)
  {
  }

  lemma SliceJoin(data: seq<Byte>, offset: nat, whole: nat)
    requires offset <= whole <= |data|
    ensures data[offset..] == data[offset..whole] + data[whole..]
    ensures data[whole..whole + (|data| - whole)] == data[whole..]
  {
  }

  lemma Thirds(n: nat, k: nat)
    requires n == 3 * k
    ensures n % 3 == 0
  {
  }

  /** The whole groups end at most two bytes before the end. */
  lemma TailFits(offset: nat, length: nat, atoms: nat, whole: nat)
    requires offset <= length && atoms == (length - offset) / 3 && whole == offset + 3 * atoms
    ensures whole <= length && (whole < length ==> length - whole <= 2)
  {
  }

  /**
   * `encode(input)`: standard padded base64 (section 4 of RFC 4648) laid out in 76-char lines with a
   * LF between lines; a null input throws.
   */
  method EncodeBytes(input: Option<seq<Byte>>) returns (r: Result<seq<Byte>, Exception>)
    ensures input.None? ==> r == Err(NullPointerException)
    ensures input.Some? ==> r == Ok(Lines(Encode(input.value)))
  {
    if input.None? {
      return Err(NullPointerException);
    }
    var data := input.value;
    var length := |data|;
    var out: seq<Byte> := [];
    var offset := 0;
    assert data[0..] == data;
    while offset + BYTES_PER_LINE < length
      invariant offset <= length
      invariant LinesAt(out, data, offset)
    {
      LineRound(out, data, offset);
      out := EncodeRun(out, data, offset, offset + BYTES_PER_LINE, 19);
      out := out + [LF];
      offset := offset + BYTES_PER_LINE;
    }
    LinesDone(out, data, offset);
    out := EncodeTail(out, data, offset);
    r := Ok(out);
  }

  /** Without its line feeds the one-shot text is standard padded base64, and it never ends with a LF. */
  lemma OneShotIsRfc4648(d: seq<Byte>)
    ensures Unwrap(Lines(Encode(d))) == Encode(d)
    ensures |Lines(Encode(d))| > 0 ==> Lines(Encode(d))[|Lines(Encode(d))| - 1] != LF
  {
    EncodeHasNoBreak(d);
    LinesMeaning(Encode(d));
  }

  /** Every line but the last holds exactly 76 chars: the first LF, if any, is at index 76. */
  lemma FirstLineFull(d: seq<Byte>)
    requires |d| > BYTES_PER_LINE
    ensures |Lines(Encode(d))| > LINE_SIZE && Lines(Encode(d))[LINE_SIZE] == LF
    ensures NoBreak(Lines(Encode(d))[..LINE_SIZE])
  {
    LineStep(d);
    FullLineLength(d[..BYTES_PER_LINE]);
    EncodeHasNoBreak(d[..BYTES_PER_LINE]);
    HeadLine(Encode(d[..BYTES_PER_LINE]), Lines(Encode(d[BYTES_PER_LINE..])), Lines(Encode(d)));
  }

  lemma HeadLine(a: seq<Byte>, b: seq<Byte>, t: seq<Byte>)
    requires t == a + [LF] + b
    ensures |t| > |a| && t[..|a|] == a && t[|a|] == LF
  {
    assert t[..|a|] == a;
  }
}
