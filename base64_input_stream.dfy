/**
 * `Base64InputStream`: the decoder for the text `Base64OutputStream` writes.  The value-level part
 * describes one `read()` and one `read(b, off, len)` as functions of a reader state (the unread
 * part of the private buffer, what the wrapped stream has yet to deliver, `_byteNo`, `_accum` and
 * the last two chars of the current quad); the class below is proved against those functions.
 */
module Base64Input {
  import opened JStrings
  import opened Wrappers
  import opened Base64
  import Base64Output

  const BUFFER_SIZE: nat := 1024
  /** `DEFAULT_TERMINAL`, the padding char `=`. */
  const TERMINAL: Byte := PAD
  const CORRUPTED: JString := Lit("stream corrupted, invalid base-64 sequence")
  const NO_RESET: JString := Lit("mark/reset not supported")

  // ---------------------------------------------------------------- the inverse alphabet

  /** The last index below `n` at which `a` holds `c`, or -1. */
  function Position(a: seq<Byte>, c: Byte, n: nat): (p: int)
    requires n <= |a|
    ensures -1 <= p < n
    ensures p >= 0 ==> a[p] == c
  {
    if n == 0 then -1 else if a[n - 1] == c then n - 1 else Position(a, c, n - 1)
  }

  lemma {:induction false} PositionMissing(a: seq<Byte>, c: Byte, n: nat)
    requires n <= |a|
    ensures Position(a, c, n) == -1 <==> forall j :: 0 <= j < n ==> a[j] != c
  {
    if n > 0 {
      PositionMissing(a, c, n - 1);
    }
  }

  /** No byte appears twice among the first `n` of `a`. */
  predicate Distinct(a: seq<Byte>, n: nat)
    requires n <= |a|
  {
    forall i, j :: 0 <= i < j < n ==> a[i] != a[j]
  }

  lemma {:induction false} PositionOfDistinct(a: seq<Byte>, n: nat, j: nat)
    requires n <= |a| && Distinct(a, n) && j < n
    ensures Position(a, a[j], n) == j
  {
    if j < n - 1 {
      PositionOfDistinct(a, n - 1, j);
    }
  }

  /** The table `invertAlphabet(alphabet, terminal)` holds at byte `c`. */
  function Inverse(alphabet: seq<Byte>, terminal: Byte, c: Byte): int
    requires |alphabet| >= 64
  {
    if c == terminal then 0 else Position(alphabet, c, 64)
  }

  /** A valid alphabet maps each of its chars to its index, the terminal to 0 and any other byte to -1. */
  lemma InverseMeaning(alphabet: seq<Byte>, terminal: Byte)
    requires |alphabet| >= 64 && Distinct(alphabet, 64)
    ensures Inverse(alphabet, terminal, terminal) == 0
    ensures forall i :: 0 <= i < 64 && alphabet[i] != terminal ==> Inverse(alphabet, terminal, alphabet[i]) == i
    ensures forall c: Byte :: Inverse(alphabet, terminal, c) == -1 <==> c != terminal && c !in alphabet[..64]
  {
    forall i | 0 <= i < 64 && alphabet[i] != terminal
      ensures Inverse(alphabet, terminal, alphabet[i]) == i
    {
      PositionOfDistinct(alphabet, 64, i);
    }
    forall c: Byte
      ensures Inverse(alphabet, terminal, c) == -1 <==> c != terminal && c !in alphabet[..64]
    {
      PositionMissing(alphabet, c, 64);
      if c in alphabet[..64] {
        var j :| 0 <= j < 64 && alphabet[..64][j] == c;
        assert alphabet[j] == c;
      }
    }
  }

  /**
   * `invertAlphabet`: IllegalArgumentException for an alphabet shorter than 64 or with a byte twice
   * among its first 64 entries, otherwise the 256-entry table of `Inverse`.
   */
  method InvertAlphabet(alphabet: seq<Byte>, terminal: Byte) returns (r: Result<array<int>, Exception>)
    ensures r.Err? <==> |alphabet| < 64 || !Distinct(alphabet, 64)
    ensures r.Err? ==> r.error == IllegalArgumentException
    ensures r.Ok? ==> fresh(r.value) && r.value.Length == 256
    ensures r.Ok? ==> forall c :: 0 <= c < 256 ==> r.value[c] == Inverse(alphabet, terminal, c as Byte)
  {
    if |alphabet| < 64 {
      return Err(IllegalArgumentException);
    }
    var table := new int[256];
    var i := 0;
    while i < 256
      invariant 0 <= i <= 256
      invariant forall c :: 0 <= c < i ==> table[c] == -1
    {
      table[i] := -1;
      i := i + 1;
    }
    i := 0;
    while i < 64
      invariant 0 <= i <= 64
      invariant Distinct(alphabet, i)
      invariant forall c :: 0 <= c < 256 ==> table[c] == Position(alphabet, c as Byte, i)
    {
      var index := alphabet[i] as int;
      if table[index] != -1 {
        var p := Position(alphabet, alphabet[i], i);
        assert 0 <= p < i && alphabet[p] == alphabet[i];
        return Err(IllegalArgumentException);
      }
      PositionMissing(alphabet, alphabet[i], i);
      table[index] := i;
      i := i + 1;
    }
    table[terminal as int] := 0;
    return Ok(table);
  }

  /** The default table at `c`: the value of an alphabet char, 0 for `=`, -1 otherwise. */
  function Lookup(c: Byte): int {
    if c == PAD then 0 else SextetValue(c)
  }

  /** `DEFAULT_INVERSE_ALPHABET` is `Lookup`. */
  lemma DefaultInverse()
    ensures forall c: Byte :: Inverse(DEFAULT_ALPHABET, PAD, c) == Lookup(c)
  {
    DefaultAlphabetIsRfc4648();
    DefaultAlphabetDistinct();
    var a := DEFAULT_ALPHABET;
    forall c: Byte
      ensures Inverse(a, PAD, c) == Lookup(c)
    {
      if c != PAD {
        var v := SextetValue(c);
        if v >= 0 {
          assert a[v] == c;
          PositionOfDistinct(a, 64, v);
        } else {
          forall j | 0 <= j < 64
            ensures a[j] != c
          {
            SextetValueOfSextet(j);
          }
          PositionMissing(a, c, 64);
        }
      }
    }
  }

  // ---------------------------------------------------------------- decoding one quad

  /**
   * `(x0 << 18) | (x1 << 12) | (x2 << 6) | x3` for table entries: the 24 bits of four sextets, and
   * a negative number as soon as one entry is -1.
   */
  function ShiftOr(x0: int, x1: int, x2: int, x3: int): (a: int)
    requires -1 <= x0 < 64 && -1 <= x1 < 64 && -1 <= x2 < 64 && -1 <= x3 < 64
    ensures a < 0 <==> x0 < 0 || x1 < 0 || x2 < 0 || x3 < 0
    ensures a < 0x100_0000
  {
    if x0 < 0 || x1 < 0 || x2 < 0 || x3 < 0 then -1
    else x0 * 0x4_0000 + x1 * 0x1000 + x2 * 0x40 + x3
  }

  /** The accumulator of a quad looked up in the default table. */
  function Accumulate(q: seq<Byte>): (a: int)
    requires |q| == 4
    ensures a < 0x100_0000
  {
    ShiftOr(Lookup(q[0]), Lookup(q[1]), Lookup(q[2]), Lookup(q[3]))
  }

  /** A quad is corrupt exactly when one of its bytes is neither an alphabet char nor `=`. */
  lemma CorruptQuad(q: seq<Byte>)
    requires |q| == 4
    ensures Accumulate(q) < 0 <==> exists i :: 0 <= i < 4 && q[i] != PAD && SextetValue(q[i]) < 0
  {
    if Accumulate(q) < 0 {
      var i := if Lookup(q[0]) < 0 then 0 else if Lookup(q[1]) < 0 then 1 else if Lookup(q[2]) < 0 then 2 else 3;
      assert q[i] != PAD && SextetValue(q[i]) < 0;
    }
  }

  /** `(a >>> shift) & 0xff` for a non-negative accumulator. */
  function AccumByte(a: int, shift: int): Byte
    requires 0 <= a && (shift == 16 || shift == 8 || shift == 0)
  {
    if shift == 16 then (a / 0x1_0000 % 0x100) as Byte
    else if shift == 8 then (a / 0x100 % 0x100) as Byte
    else (a % 0x100) as Byte
  }

  /** The three bytes of a packed accumulator come back out in order. */
  lemma PackedBytes(b0: Byte, b1: Byte, b2: Byte)
    ensures AccumByte(Packed(b0, b1, b2), 16) == b0
    ensures AccumByte(Packed(b0, b1, b2), 8) == b1
    ensures AccumByte(Packed(b0, b1, b2), 0) == b2
  {
    var a := Packed(b0, b1, b2);
    DivParts(a, b0 as int * 0x100 + b1 as int, b2 as int, 0x100);
    DivParts(a / 0x100, b0 as int, b1 as int, 0x100);
    DivParts(a, b0 as int, b1 as int * 0x100 + b2 as int, 0x1_0000);
    DivParts(b0 as int, 0, b0 as int, 0x100);
  }

  /** Each char of an encoded group looks up to the sextet it was made from. */
  lemma LookupSextet(v: int)
    requires 0 <= v < 64
    ensures Lookup(Sextet(v)) == v
  {
    SextetValueOfSextet(v);
  }

  /** Decoding an RFC 4648 group gives back the accumulator of its bytes, zero-filled. */
  lemma GroupAccum(g: seq<Byte>)
    requires 1 <= |g| <= 3
    ensures Accumulate(EncodeGroup(g)) ==
      Packed(g[0], if |g| > 1 then g[1] else 0, if |g| > 2 then g[2] else 0)
  {
    var b0 := g[0] as int;
    var h0, l0 := b0 / 4, b0 % 4;
    LookupSextet(h0);
    if |g| == 1 {
      LookupSextet(l0 * 16);
    } else {
      var b1 := g[1] as int;
      var h1, l1 := b1 / 16, b1 % 16;
      LookupSextet(l0 * 16 + h1);
      if |g| == 2 {
        LookupSextet(l1 * 4);
      } else {
        var b2 := g[2] as int;
        LookupSextet(l1 * 4 + b2 / 64);
        LookupSextet(b2 % 64);
      }
    }
  }

  // ---------------------------------------------------------------- buffer and wrapped stream

  predicate IsBreak(c: Byte) {
    c == LF || c == CR
  }

  predicate AllBreaks(t: seq<Byte>) {
    forall i :: 0 <= i < |t| ==> IsBreak(t[i])
  }

  /**
   * A read position: `buf` is the unread part `_buffer[_offset.._length]` of the buffer and `src`
   * what the wrapped stream has not delivered yet.
   */
  datatype Place = Place(buf: seq<Byte>, src: seq<Byte>)

  /** The text still to be decoded. */
  function Rest(p: Place): seq<Byte> {
    p.buf + p.src
  }

  datatype Filled = Filled(ok: bool, at: Place)

  /**
   * `fillBuffer` on a buffer holding fewer than 4 unread bytes: the unread bytes move to the front
   * and the wrapped stream, which delivers as much as is asked of it, tops the buffer up.  It
   * fails only when the whole rest of the text is shorter than 4.
   */
  function Fill(p: Place): (f: Filled)
    requires |p.buf| < 4
    ensures Rest(f.at) == Rest(p)
    ensures f.ok <==> |Rest(p)| >= 4
    ensures f.ok ==> 4 <= |f.at.buf| <= BUFFER_SIZE
    ensures !f.ok ==> f.at.src == []
  {
    if |p.buf| + |p.src| < 4 then Filled(false, Place(p.buf + p.src, []))
    else
      var n := if |p.src| <= BUFFER_SIZE - |p.buf| then |p.src| else BUFFER_SIZE - |p.buf|;
      assert p.src[..n] + p.src[n..] == p.src;
      Filled(true, Place(p.buf + p.src[..n], p.src[n..]))
  }

  /**
   * The do-while loop that looks for the next quad: refill when fewer than 4 bytes are buffered,
   * take one byte, go round again while it is a LF or a CR.  `sync` is the position `_offset` last
   * named: the caller's place, or the front of the buffer after a refill.
   */
  datatype Sought = Sought(quad: Option<seq<Byte>>, at: Place, sync: Place)

  function Seek(p: Place, sync: Place): (s: Sought)
    requires |p.buf| <= BUFFER_SIZE && |sync.buf| <= BUFFER_SIZE
    ensures |s.at.buf| <= BUFFER_SIZE && |s.sync.buf| <= BUFFER_SIZE
    ensures s.quad.Some? ==> |s.quad.value| == 4
    decreases |p.buf| + |p.src|, 1
  {
    SeekOn(p, sync)
  }

  /** One round of `Seek`, and the rounds after it. */
  function SeekOn(p: Place, sync: Place): (s: Sought)
    requires |p.buf| <= BUFFER_SIZE && |sync.buf| <= BUFFER_SIZE
    ensures |s.at.buf| <= BUFFER_SIZE && |s.sync.buf| <= BUFFER_SIZE
    ensures s.quad.Some? ==> |s.quad.value| == 4
    decreases |p.buf| + |p.src|, 0
  {
    var f := if |p.buf| < 4 then Fill(p) else Filled(true, p);
    var sync' := if |p.buf| < 4 then f.at else sync;
    if !f.ok then Sought(None, f.at, sync')
    else if IsBreak(f.at.buf[0]) then Seek(Place(f.at.buf[1..], f.at.src), sync')
    else Sought(Some(f.at.buf[..4]), Place(f.at.buf[4..], f.at.src), sync')
  }

  /** What `Seek` finds in the text itself, whatever is buffered. */
  datatype Found = Found(quad: Option<seq<Byte>>, rest: seq<Byte>)

  /** The next quad of a text, after the line breaks in front of it. */
  function NextQuad(t: seq<Byte>): (f: Found)
    ensures |f.rest| <= |t|
    ensures f.quad.Some? ==> |f.quad.value| == 4 && |f.rest| + 4 <= |t|
    decreases |t|
  {
    if |t| < 4 then Found(None, t)
    else if IsBreak(t[0]) then NextQuad(t[1..])
    else Found(Some(t[..4]), t[4..])
  }

  /**
   * Line breaks are skipped only in front of the first char of a quad: the text is breaks, then the
   * quad, then the rest.
   */
  lemma NextQuadFound(t: seq<Byte>)
    requires NextQuad(t).quad.Some?
    ensures var f := NextQuad(t); var k := |t| - |f.rest| - 4;
      0 <= k && AllBreaks(t[..k]) && f.quad.value == t[k..k + 4] && f.rest == t[k + 4..] && !IsBreak(t[k])
  {
    NextQuadAt(t);
    NextQuadLead(t);
  }

  /** Where the found quad sits: four bytes, not starting with a break, just before the rest. */
  lemma {:induction false} NextQuadAt(t: seq<Byte>)
    requires NextQuad(t).quad.Some?
    ensures var f := NextQuad(t); var k := |t| - |f.rest| - 4;
      0 <= k && f.quad.value == t[k..k + 4] && f.rest == t[k + 4..] && !IsBreak(t[k])
    decreases |t|
  {
    if IsBreak(t[0]) {
      var u := t[1..];
      NextQuadAt(u);
      ShiftSlices(t, |u| - |NextQuad(u).rest| - 4);
    }
  }

  /** All that is skipped in front of the found quad is line breaks. */
  lemma {:induction false} NextQuadLead(t: seq<Byte>)
    requires NextQuad(t).quad.Some?
    ensures var k := |t| - |NextQuad(t).rest| - 4; 0 <= k && AllBreaks(t[..k])
    decreases |t|
  {
    if IsBreak(t[0]) {
      var u := t[1..];
      NextQuadLead(u);
      ShiftBreaks(t, |u| - |NextQuad(u).rest| - 4);
    }
  }

  /** Breaks in front of a text that is itself preceded by a break. */
  lemma ShiftBreaks(t: seq<Byte>, k: nat)
    requires k < |t| && IsBreak(t[0]) && AllBreaks(t[1..][..k])
    ensures AllBreaks(t[..k + 1])
  {
    assert forall i :: 1 <= i < k + 1 ==> t[i] == t[1..][..k][i - 1];
  }

  /** Slices of `t[1..]` are the slices of `t` one further on. */
  lemma ShiftSlices(t: seq<Byte>, k: nat)
    requires k + 5 <= |t|
    ensures t[k + 1..k + 5] == t[1..][k..k + 4] && t[k + 5..] == t[1..][k + 4..] && t[k + 1] == t[1..][k]
  {
  }

  /** A text with fewer than four bytes after its line breaks has no quad left. */
  lemma {:induction false} NextQuadMissing(t: seq<Byte>)
    requires NextQuad(t).quad.None?
    ensures var f := NextQuad(t); var k := |t| - |f.rest|;
      |f.rest| < 4 && AllBreaks(t[..k]) && t[..k] + f.rest == t
    decreases |t|
  {
    var f := NextQuad(t);
    var k := |t| - |f.rest|;
    if |t| < 4 {
      assert t[..k] == [];
    } else {
      var u := t[1..];
      NextQuadMissing(u);
      assert u[..k - 1] + f.rest == u;
      assert t[..k] == [t[0]] + u[..k - 1];
    }
  }

  /** Refilling never changes what is found: `Seek` is `NextQuad` of the rest of the text. */
  lemma {:induction false} SeekRest(p: Place, sync: Place)
    requires |p.buf| <= BUFFER_SIZE && |sync.buf| <= BUFFER_SIZE
    ensures Seek(p, sync).quad == NextQuad(Rest(p)).quad
    ensures Rest(Seek(p, sync).at) == NextQuad(Rest(p)).rest
    decreases |p.buf| + |p.src|
  {
    var f := if |p.buf| < 4 then Fill(p) else Filled(true, p);
    var sync' := if |p.buf| < 4 then f.at else sync;
    var t := Rest(f.at);
    assert t == Rest(p);
    if f.ok {
      assert t[0] == f.at.buf[0];
      if IsBreak(f.at.buf[0]) {
        var p' := Place(f.at.buf[1..], f.at.src);
        assert Rest(p') == t[1..];
        SeekRest(p', sync');
      } else {
        assert t[..4] == f.at.buf[..4];
        assert t[4..] == f.at.buf[4..] + f.at.src;
      }
    }
  }

  /** Line breaks in front of a quad are skipped. */
  lemma {:induction false} NextQuadPast(pre: seq<Byte>, q: seq<Byte>, x: seq<Byte>)
    requires AllBreaks(pre) && |q| == 4 && !IsBreak(q[0])
    ensures NextQuad(pre + (q + x)) == Found(Some(q), x)
    decreases |pre|
  {
    if |pre| == 0 {
      assert pre + (q + x) == q + x;
      assert (q + x)[..4] == q && (q + x)[4..] == x;
    } else {
      assert (pre + (q + x))[1..] == pre[1..] + (q + x);
      NextQuadPast(pre[1..], q, x);
    }
  }

  /** A text made only of line breaks holds no quad, and what is left of it is breaks again. */
  lemma {:induction false} NextQuadOfBreaks(t: seq<Byte>)
    requires AllBreaks(t)
    ensures NextQuad(t).quad.None? && AllBreaks(NextQuad(t).rest)
    decreases |t|
  {
    if |t| >= 4 {
      NextQuadOfBreaks(t[1..]);
    }
  }

  // ---------------------------------------------------------------- read()

  /**
   * The decoder state at a position of type `P`: `_byteNo`, `_accum` and the chars
   * `_buffer[_offset - 2]`, `_buffer[_offset - 1]` of the current quad.  Between quads the
   * accumulator is dead and is kept as 0.  The stream's own state is a `Reader<Place>`; a
   * `Reader<seq<Byte>>` only knows the rest of the text, not how much of it is buffered.
   */
  datatype Reader<P> = Reader(at: P, byteNo: int, accum: int, marks: seq<Byte>)

  predicate Shaped<P>(r: Reader<P>) {
    0 <= r.byteNo <= 2 &&
    (r.byteNo == 0 ==> r.accum == 0 && r.marks == []) &&
    (r.byteNo > 0 ==> 0 <= r.accum < 0x100_0000 && |r.marks| == 2)
  }

  predicate Sound(r: Reader<Place>) {
    Shaped(r) && |r.at.buf| <= BUFFER_SIZE
  }

  /** A reader between two quads. */
  function Idle<P>(p: P): Reader<P> {
    Reader(p, 0, 0, [])
  }

  /** What one `read()` gives: a byte, -1 (`End`), or an exception. */
  datatype Outcome = Value(v: Byte) | End | Thrown(e: Exception)

  datatype Step<P> = Step(r: Reader<P>, out: Outcome)

  /**
   * The first `read()` of a quad, once the seek is over: -1 when no quad was found, the
   * IOException of a corrupt quad, or the quad's first byte.
   */
  function StartQuad<P>(quad: Option<seq<Byte>>, at: P): (t: Step<P>)
    requires quad.Some? ==> |quad.value| == 4
    ensures Shaped(t.r) && t.r.at == at
    ensures t.out.Thrown? ==> t.out.e == IOException(CORRUPTED)
  {
    match quad
    case None => Step(Idle(at), End)
    case Some(q) =>
      var a := Accumulate(q);
      if a < 0 then Step(Idle(at), Thrown(IOException(CORRUPTED)))
      else Step(Reader(at, 1, a, q[2..]), Value(AccumByte(a, 16)))
  }

  /**
   * A `read()` inside a quad: the second byte unless the third char was `=`, the third unless the
   * fourth was `=`; at a `=` it gives -1 and stays where it is.
   */
  function InQuad<P>(r: Reader<P>): (t: Step<P>)
    requires Shaped(r) && r.byteNo > 0
    ensures Shaped(t.r) && t.r.at == r.at && !t.out.Thrown?
  {
    if r.byteNo == 1 then
      if r.marks[0] == TERMINAL then Step(r, End) else Step(r.(byteNo := 2), Value(AccumByte(r.accum, 8)))
    else if r.marks[1] == TERMINAL then Step(r, End)
    else Step(Idle(r.at), Value(AccumByte(r.accum, 0)))
  }

  /** One `read()` of the stream. */
  function ReadOne(r: Reader<Place>): (s: Step<Place>)
    requires Sound(r)
    ensures Sound(s.r)
    ensures s.out.Thrown? ==> s.out.e == IOException(CORRUPTED)
  {
    if r.byteNo == 0 then
      var s := Seek(r.at, r.at);
      StartQuad(s.quad, s.at)
    else InQuad(r)
  }

  /** One `read()` on the text itself. */
  function Decode(r: Reader<seq<Byte>>): (s: Step<seq<Byte>>)
    requires Shaped(r)
    ensures Shaped(s.r)
  {
    if r.byteNo == 0 then
      var f := NextQuad(r.at);
      StartQuad(f.quad, f.rest)
    else InQuad(r)
  }

  function Abs(r: Reader<Place>): Reader<seq<Byte>> {
    Reader(Rest(r.at), r.byteNo, r.accum, r.marks)
  }

  /** Buffering is invisible: a `read()` gives what the rest of the text decodes to. */
  lemma ReadOneDecodes(r: Reader<Place>)
    requires Sound(r)
    ensures ReadOne(r).out == Decode(Abs(r)).out && Abs(ReadOne(r).r) == Decode(Abs(r)).r
  {
    if r.byteNo == 0 {
      SeekRest(r.at, r.at);
    }
  }

  /** Java widens a `byte` with its sign: bytes from 0x80 on become negative ints. */
  function SignExtended(c: Byte): (i: int)
    ensures i < 0 <==> c >= 0x80
  {
    if c < 0x80 then c as int else c as int - 0x100
  }

  /**
   * `read()` as written: the table is indexed by the sign-extended chars, so a quad holding a byte
   * from 0x80 on raises ArrayIndexOutOfBoundsException, after `_offset` has moved past the quad.
   */
  function ReadOneAsWritten(r: Reader<Place>): (s: Step<Place>)
    requires Sound(r)
    ensures Sound(s.r)
  {
    if r.byteNo == 0 then
      var s := Seek(r.at, r.at);
      match s.quad
      case None => ReadOne(r)
      case Some(q) =>
        if SignExtended(q[0]) < 0 || SignExtended(q[1]) < 0 || SignExtended(q[2]) < 0 || SignExtended(q[3]) < 0
        then Step(Idle(s.at), Thrown(IndexOutOfBoundsException))
        else ReadOne(r)
    else ReadOne(r)
  }

  /** A byte from 0x80 on in the first quad: the code as written indexes the table with -128. */
  lemma HighByteIndexesOutOfBounds()
    ensures SignExtended(0x80) == -128
    ensures ReadOneAsWritten(Idle(Place([0x80, 65, 65, 65], []))).out == Thrown(IndexOutOfBoundsException)
    ensures ReadOne(Idle(Place([0x80, 65, 65, 65], []))).out == Thrown(IOException(CORRUPTED))
  {
    var p := Place([0x80, 65, 65, 65], []);
    var t := Rest(p);
    assert t == [0x80, 65, 65, 65];
    SeekRest(p, p);
    assert NextQuad(t) == Found(Some(t[..4]), t[4..]);
    assert t[..4] == t;
  }

  /** The two readings differ only in the exception a byte from 0x80 on raises. */
  lemma AsWrittenDiffersOnlyInException(r: Reader<Place>)
    requires Sound(r)
    ensures ReadOneAsWritten(r) == ReadOne(r) ||
      (ReadOneAsWritten(r) == Step(ReadOne(r).r, Thrown(IndexOutOfBoundsException)) &&
       ReadOne(r).out == Thrown(IOException(CORRUPTED)))
  {
    if r.byteNo == 0 {
      var s := Seek(r.at, r.at);
      if s.quad.Some? {
        var q := s.quad.value;
        if SignExtended(q[0]) < 0 || SignExtended(q[1]) < 0 || SignExtended(q[2]) < 0 || SignExtended(q[3]) < 0 {
          assert Accumulate(q) < 0;
        }
      }
    }
  }

  /** The outcomes of `k` calls of `read()` in a row. */
  function Outputs(r: Reader<Place>, k: nat): (o: seq<Outcome>)
    requires Sound(r)
    ensures |o| == k
    decreases k
  {
    if k == 0 then [] else var s := ReadOne(r); [s.out] + Outputs(s.r, k - 1)
  }

  /** The state after `k` calls of `read()`. */
  function Run(r: Reader<Place>, k: nat): (r': Reader<Place>)
    requires Sound(r)
    ensures Sound(r')
    decreases k
  {
    if k == 0 then r else Run(ReadOne(r).r, k - 1)
  }

  /** The outcomes of decoding the text `k` times in a row. */
  function Decoded(r: Reader<seq<Byte>>, k: nat): (o: seq<Outcome>)
    requires Shaped(r)
    ensures |o| == k
    decreases k
  {
    if k == 0 then [] else var s := Decode(r); [s.out] + Decoded(s.r, k - 1)
  }

  /** Successive `read()`s give what successive decoding of the text gives. */
  lemma {:induction false} OutputsDecoded(r: Reader<Place>, k: nat)
    requires Sound(r)
    ensures Outputs(r, k) == Decoded(Abs(r), k)
    decreases k
  {
    if k > 0 {
      ReadOneDecodes(r);
      OutputsDecoded(ReadOne(r).r, k - 1);
    }
  }

  function Values(d: seq<Byte>): (o: seq<Outcome>)
    ensures |o| == |d| && forall i :: 0 <= i < |d| ==> o[i] == Value(d[i])
  {
    seq(|d|, i requires 0 <= i < |d| => Value(d[i]))
  }

  function Ends(m: nat): (o: seq<Outcome>)
    ensures |o| == m && forall i :: 0 <= i < m ==> o[i] == End
  {
    seq(m, _ => End)
  }

  /** Once at a `=`, `read()` gives -1 for ever. */
  lemma {:induction false} PaddedEnds(r: Reader<seq<Byte>>, m: nat)
    requires Shaped(r) && r.byteNo > 0 && r.marks[r.byteNo - 1] == TERMINAL
    ensures Decoded(r, m) == Ends(m)
    decreases m
  {
    if m > 0 {
      assert Decode(r) == Step(r, End);
      PaddedEnds(r, m - 1);
    }
  }

  /** With nothing but line breaks left, `read()` gives -1 for ever. */
  lemma {:induction false} BreaksEnd(t: seq<Byte>, m: nat)
    requires AllBreaks(t)
    ensures Decoded(Idle(t), m) == Ends(m)
    decreases m
  {
    if m > 0 {
      NextQuadOfBreaks(t);
      BreaksEnd(NextQuad(t).rest, m - 1);
    }
  }

  /** A quad holding a byte that is neither an alphabet char nor `=` raises "stream corrupted" and is passed over. */
  lemma CorruptRead(t: seq<Byte>)
    requires var f := NextQuad(t); f.quad.Some? && exists i :: 0 <= i < 4 && f.quad.value[i] != PAD && SextetValue(f.quad.value[i]) < 0
    ensures Decode(Idle(t)) == Step(Idle(NextQuad(t).rest), Thrown(IOException(CORRUPTED)))
  {
    CorruptQuad(NextQuad(t).quad.value);
  }

  /** A line break inside a quad is not skipped: it makes the quad corrupt. */
  lemma BreakInQuad(q: seq<Byte>, i: nat)
    requires |q| == 4 && 0 < i < 4 && IsBreak(q[i])
    ensures Accumulate(q) < 0
  {
  }

  /**
   * A `=` third in a quad ends the stream after the quad's first byte, a `=` fourth after its
   * second; -1 follows for ever.
   */
  lemma TerminalQuad(t: seq<Byte>, m: nat)
    requires var f := NextQuad(t); f.quad.Some? && Accumulate(f.quad.value) >= 0
    ensures var q := NextQuad(t).quad.value; var a := Accumulate(q);
      q[2] == PAD ==> Decoded(Idle(t), 1 + m) == [Value(AccumByte(a, 16))] + Ends(m)
    ensures var q := NextQuad(t).quad.value; var a := Accumulate(q);
      q[2] != PAD && q[3] == PAD ==>
        Decoded(Idle(t), 2 + m) == [Value(AccumByte(a, 16)), Value(AccumByte(a, 8))] + Ends(m)
  {
    var f := NextQuad(t);
    var q := f.quad.value;
    var a := Accumulate(q);
    var r1 := Reader(f.rest, 1, a, q[2..]);
    assert Decode(Idle(t)) == Step(r1, Value(AccumByte(a, 16)));
    if q[2] == PAD {
      PaddedEnds(r1, m);
    } else if q[3] == PAD {
      var r2 := r1.(byteNo := 2);
      assert Decode(r1) == Step(r2, Value(AccumByte(a, 8)));
      PaddedEnds(r2, m);
      assert Decoded(r1, 1 + m) == [Value(AccumByte(a, 8))] + Ends(m);
    }
  }

  /** Decoding a full group of `Base64OutputStream` text. */
  lemma ThreeReads(t: seq<Byte>, g: seq<Byte>, x: seq<Byte>, k: nat)
    requires |g| == 3 && NextQuad(t) == Found(Some(EncodeGroup(g)), x)
    ensures Decoded(Idle(t), 3 + k) == Values(g) + Decoded(Idle(x), k)
  {
    var q := EncodeGroup(g);
    GroupAccum(g);
    PackedBytes(g[0], g[1], g[2]);
    var a := Packed(g[0], g[1], g[2]);
    var r1 := Reader(x, 1, a, q[2..]);
    var r2 := r1.(byteNo := 2);
    assert Decode(Idle(t)) == Step(r1, Value(g[0]));
    assert Decode(r1) == Step(r2, Value(g[1]));
    assert Decode(r2) == Step(Idle(x), Value(g[2]));
    assert Decoded(r2, 1 + k) == [Value(g[2])] + Decoded(Idle(x), k);
    assert Decoded(r1, 2 + k) == [Value(g[1])] + Decoded(r2, 1 + k);
  }

  /** Decoding a final group of one or two bytes: the bytes, then -1 for ever. */
  lemma LastGroupReads(t: seq<Byte>, g: seq<Byte>, x: seq<Byte>, m: nat)
    requires 1 <= |g| <= 2 && NextQuad(t) == Found(Some(EncodeGroup(g)), x)
    ensures Decoded(Idle(t), |g| + m) == Values(g) + Ends(m)
  {
    var q := EncodeGroup(g);
    GroupAccum(g);
    var b1: Byte := if |g| > 1 then g[1] else 0;
    PackedBytes(g[0], b1, 0);
    TerminalQuad(t, m);
    if |g| == 1 {
      assert Values(g) == [Value(g[0])];
    } else {
      assert Values(g) == [Value(g[0]), Value(g[1])];
    }
  }

  /** A full group ahead of text that decodes to `d[3..]` and then -1s. */
  lemma FullGroupThenRest(t: seq<Byte>, x: seq<Byte>, d: seq<Byte>, m: nat)
    requires |d| >= 3 && NextQuad(t) == Found(Some(EncodeGroup(d[..3])), x)
    requires Decoded(Idle(x), |d[3..]| + m) == Values(d[3..]) + Ends(m)
    ensures Decoded(Idle(t), |d| + m) == Values(d) + Ends(m)
  {
    ThreeReads(t, d[..3], x, |d[3..]| + m);
    ValuesSplit(d, m);
  }

  lemma ValuesSplit(d: seq<Byte>, m: nat)
    requires |d| >= 3
    ensures Values(d[..3]) + (Values(d[3..]) + Ends(m)) == Values(d) + Ends(m)
  {
    assert Values(d) == Values(d[..3]) + Values(d[3..]);
  }

  /**
   * Decoding text laid out as `Base64OutputStream` lays it out, behind any line breaks, gives the
   * bytes back and then -1 for ever.
   */
  lemma {:induction false} ReadsBack(t: seq<Byte>, pre: seq<Byte>, d: seq<Byte>, col: nat, m: nat)
    requires AllBreaks(pre) && t == pre + StreamText(d, col)
    ensures Decoded(Idle(t), |d| + m) == Values(d) + Ends(m)
    decreases |d|, 1
  {
    if |d| == 0 {
      NoGroupReadsBack(t, pre, d, col, m);
    } else if GroupSize(d) == 3 {
      FullGroupReadsBack(t, pre, d, col, m);
    } else {
      LastGroupReadsBack(t, pre, d, col, m);
    }
  }

  /** The first case of `ReadsBack`: nothing but line breaks. */
  lemma NoGroupReadsBack(t: seq<Byte>, pre: seq<Byte>, d: seq<Byte>, col: nat, m: nat)
    requires AllBreaks(pre) && t == pre + StreamText(d, col) && |d| == 0
    ensures Decoded(Idle(t), |d| + m) == Values(d) + Ends(m)
  {
    assert t == pre;
    BreaksEnd(t, m);
    assert Values(d) == [];
  }

  lemma BreakIsBreaks(col: nat)
    ensures AllBreaks(Break(col))
  {
  }

  /** The inductive step of `ReadsBack`: a full group, then the text of the rest. */
  lemma {:induction false} FullGroupReadsBack(t: seq<Byte>, pre: seq<Byte>, d: seq<Byte>, col: nat, m: nat)
    requires AllBreaks(pre) && t == pre + StreamText(d, col) && |d| > 0 && GroupSize(d) == 3
    ensures Decoded(Idle(t), |d| + m) == Values(d) + Ends(m)
    decreases |d|, 0
  {
    BreakIsBreaks(col);
    ReadsBack(Break(col) + StreamText(d[3..], NextColumn(col)), Break(col), d[3..], NextColumn(col), m);
    FirstGroup(t, pre, d, col);
    FullGroupThenRest(t, Break(col) + StreamText(d[3..], NextColumn(col)), d, m);
  }

  /** The last case of `ReadsBack`: a final group of one or two bytes. */
  lemma LastGroupReadsBack(t: seq<Byte>, pre: seq<Byte>, d: seq<Byte>, col: nat, m: nat)
    requires AllBreaks(pre) && t == pre + StreamText(d, col) && |d| > 0 && GroupSize(d) < 3
    ensures Decoded(Idle(t), |d| + m) == Values(d) + Ends(m)
  {
    FirstGroup(t, pre, d, col);
    assert d[..GroupSize(d)] == d;
    LastGroupReads(t, d, Break(col) + StreamText(d[GroupSize(d)..], NextColumn(col)), m);
  }

  /** The first quad of the text of a non-empty `d` is the first group's, followed by its line break. */
  lemma FirstGroup(t: seq<Byte>, pre: seq<Byte>, d: seq<Byte>, col: nat)
    requires AllBreaks(pre) && t == pre + StreamText(d, col) && |d| > 0
    ensures NextQuad(t) ==
      Found(Some(EncodeGroup(d[..GroupSize(d)])), Break(col) + StreamText(d[GroupSize(d)..], NextColumn(col)))
  {
    var q := EncodeGroup(d[..GroupSize(d)]);
    var x := Break(col) + StreamText(d[GroupSize(d)..], NextColumn(col));
    assert StreamText(d, col) == q + x;
    NextQuadPast(pre, q, x);
  }

  /**
   * A decoder over the text of `Base64OutputStream`, however much of it is already buffered,
   * reads back the bytes and then -1 for ever.
   */
  lemma DecodesStreamText(r: Reader<Place>, d: seq<Byte>, m: nat)
    requires Sound(r) && r.byteNo == 0 && Rest(r.at) == StreamText(d, 0)
    ensures Outputs(r, |d| + m) == Values(d) + Ends(m)
  {
    AbsIdle(r);
    OutputsDecoded(r, |d| + m);
    StreamTextReadsBack(d, m);
  }

  /** The stream text of `d`, decoded from its start, gives the bytes of `d` and then -1 for ever. */
  lemma StreamTextReadsBack(d: seq<Byte>, m: nat)
    ensures Decoded(Idle(StreamText(d, 0)), |d| + m) == Values(d) + Ends(m)
  {
    var t := StreamText(d, 0);
    assert [] + t == t;
    ReadsBack(t, [], d, 0, m);
  }

  /** A sound reader between two quads is the idle reader of the text it has still to read. */
  lemma AbsIdle(r: Reader<Place>)
    requires Sound(r) && r.byteNo == 0
    ensures Abs(r) == Idle(Rest(r.at))
  {
  }

  /**
   * Everything a fresh `Base64OutputStream` wrote, once closed, decodes to the bytes written to it
   * and then -1 for ever.
   */
  lemma DecodesClosedStream(d: seq<Byte>, m: nat)
    ensures var sent := Base64Output.Flushed(Base64Output.Terminated(
      Base64Output.WriteBytes(Base64Output.Snapshot([], 0, [], []), d))).sent;
      Outputs(Idle(Place([], sent)), |d| + m) == Values(d) + Ends(m)
  {
    Base64Output.StreamSession([], d);
    assert [] + StreamText(d, 0) == StreamText(d, 0);
    DecodesStreamText(Idle(Place([], StreamText(d, 0))), d, m);
  }

  // ---------------------------------------------------------------- read(b, off, len)

  /**
   * How a stretch of `read(b, off, len)` stopped: out of room (`Exhausted`), at the end of the text
   * (`Ended`), at a `=` (`Paused`, the decoder keeps its place inside the quad), or on an exception.
   */
  datatype Halt = Exhausted | Ended | Paused | Failed(e: Exception)

  /** The state after a stretch, the bytes it stored into `b`, and how it stopped. */
  datatype Partial = Partial(r: Reader<Place>, written: seq<Byte>, halt: Halt)

  /**
   * The loops of `read(b, off, len)` that call `read()`: with `inQuad` the draining loop, which runs
   * while a quad is partly read, otherwise the loop for a request of fewer than four bytes.  `room`
   * is `len - n`.
   */
  function ReadCalls(r: Reader<Place>, room: int, inQuad: bool): (x: Partial)
    requires Sound(r)
    ensures Sound(x.r) && !x.halt.Paused?
    ensures x.halt.Failed? ==> x.halt.e == IOException(CORRUPTED)
    ensures x.halt.Exhausted? ==> (inQuad && x.r.byteNo == 0) || |x.written| >= room
    ensures |x.written| <= if room > 0 then room else 0
    decreases room
  {
    if (inQuad && r.byteNo == 0) || room <= 0 then Partial(r, [], Exhausted)
    else
      var s := ReadOne(r);
      match s.out
      case End => Partial(s.r, [], Ended)
      case Thrown(e) => Partial(s.r, [], Failed(e))
      case Value(v) =>
        var rest := ReadCalls(s.r, room - 1, inQuad);
        Partial(rest.r, [v] + rest.written, rest.halt)
  }

  /**
   * The block loop of `read(b, off, len)`, which decodes whole quads straight from the buffer while
   * more than three bytes of room are left.  `sync` is where `_offset` points: the loop keeps its
   * own offset and stores it back only before a refill and on the way out.  With `stale` an
   * invalid quad leaves the stream at `sync`, as the code does; without it, past the quad, as
   * `read()` does.
   */
  function Blocks(p: Place, sync: Place, room: int, stale: bool): (x: Partial)
    requires |p.buf| <= BUFFER_SIZE && |sync.buf| <= BUFFER_SIZE
    ensures Sound(x.r)
    ensures x.halt.Failed? ==> x.halt.e == IOException(CORRUPTED)
    ensures x.halt.Paused? ==> |x.written| > 0
    ensures x.halt.Exhausted? ==> room <= 3 + |x.written| && x.r.byteNo == 0
    ensures |x.written| <= if room > 0 then room else 0
    decreases room, 1
  {
    if room <= 3 then Partial(Idle(p), [], Exhausted) else BlocksAt(p, sync, room, stale)
  }

  /** A round of the block loop with more than three bytes of room, and the rounds after it. */
  function BlocksAt(p: Place, sync: Place, room: int, stale: bool): (x: Partial)
    requires |p.buf| <= BUFFER_SIZE && |sync.buf| <= BUFFER_SIZE
    requires room > 3
    ensures Sound(x.r)
    ensures x.halt.Failed? ==> x.halt.e == IOException(CORRUPTED)
    ensures x.halt.Paused? ==> |x.written| > 0
    ensures x.halt.Exhausted? ==> room <= 3 + |x.written| && x.r.byteNo == 0
    ensures |x.written| <= room
    decreases room, 0
  {
    var s := Seek(p, sync);
    match s.quad
    case None => Partial(Idle(s.at), [], Ended)
    case Some(q) =>
      var a := Accumulate(q);
      if a < 0 then Partial(Idle(if stale then s.sync else s.at), [], Failed(IOException(CORRUPTED)))
      else if q[2] == TERMINAL then Partial(Reader(s.at, 1, a, q[2..]), [AccumByte(a, 16)], Paused)
      else if q[3] == TERMINAL then
        Partial(Reader(s.at, 2, a, q[2..]), [AccumByte(a, 16), AccumByte(a, 8)], Paused)
      else
        var rest := Blocks(s.at, s.sync, room - 3, stale);
        Partial(rest.r, [AccumByte(a, 16), AccumByte(a, 8), AccumByte(a, 0)] + rest.written, rest.halt)
  }

  /** What `read(b, off, len)` returns: a count (-1 at the end of the stream) or an exception. */
  datatype Returned = Count(n: int) | Raised(e: Exception)

  datatype Block = Block(r: Reader<Place>, written: seq<Byte>, result: Returned)

  /**
   * What `read(b, off, len)` returns when one of its loops stops with `h` after `n` bytes: the
   * exception, -1 for the end of the stream when nothing was read, otherwise `n`.
   */
  function ResultOf(h: Halt, n: int): Returned {
    match h
    case Failed(e) => Raised(e)
    case Ended => Count(if n > 0 then n else -1)
    case _ => Count(n)
  }

  /** The stretch that follows the draining loop: the block loop, or nothing when it does not run. */
  function AfterDrain(d: Partial, len: int, stale: bool): (x: Partial)
    requires Sound(d.r) && d.halt.Exhausted?
    requires d.r.byteNo == 0 || |d.written| >= len
    ensures Sound(x.r)
  {
    if |d.written| + 3 < len then Blocks(d.r.at, d.r.at, len - |d.written|, stale)
    else Partial(d.r, [], Exhausted)
  }

  /**
   * `read(b, off, len)`: the draining loop; unless it stopped the call, the block loop; and when
   * neither stored a byte nor stopped the call, the slow loop through `read()`.
   */
  function ReadBlockWith(r: Reader<Place>, len: int, stale: bool): (b: Block)
    requires Sound(r)
    ensures Sound(b.r)
  {
    var d := ReadCalls(r, len, true);
    if !d.halt.Exhausted? then Block(d.r, d.written, ResultOf(d.halt, |d.written|))
    else
      var x := AfterDrain(d, len, stale);
      var w := d.written + x.written;
      if !x.halt.Exhausted? || |w| > 0 then Block(x.r, w, ResultOf(x.halt, |w|))
      else
        var y := ReadCalls(x.r, len, false);
        Block(y.r, y.written, ResultOf(y.halt, |y.written|))
  }

  /** `read(b, off, len)`, with an invalid quad in the block loop passed over as `read()` does. */
  function ReadBlock(r: Reader<Place>, len: int): (b: Block)
    requires Sound(r)
    ensures Sound(b.r)
  {
    ReadBlockWith(r, len, false)
  }

  /**
   * `read(b, off, len)` with the stale `_offset` of the code as written: an invalid quad in the
   * block loop leaves `_offset` behind.  Quads are still looked up unsigned, as in `ReadOne`; the
   * sign-extended lookup is `ReadOneAsWritten`.
   */
  function ReadBlockAsWritten(r: Reader<Place>, len: int): (b: Block)
    requires Sound(r)
    ensures Sound(b.r)
  {
    ReadBlockWith(r, len, true)
  }

  /**
   * A stretch replays `read()`: it stores what as many `read()`s give, and leaves the state they
   * leave; a stretch that stopped at -1 or an exception took one more `read()`, which gave that.
   */
  predicate Replays(r: Reader<Place>, x: Partial)
    requires Sound(r)
  {
    var k := |x.written|;
    Outputs(r, k) == Values(x.written) &&
    match x.halt
    case Exhausted => x.r == Run(r, k)
    case Paused => x.r == Run(r, k)
    case Ended => ReadOne(Run(r, k)) == Step(x.r, End)
    case Failed(e) => ReadOne(Run(r, k)) == Step(x.r, Thrown(e))
  }

  lemma {:induction false} OutputsAdd(r: Reader<Place>, i: nat, j: nat)
    requires Sound(r)
    ensures Outputs(r, i + j) == Outputs(r, i) + Outputs(Run(r, i), j)
    ensures Run(r, i + j) == Run(Run(r, i), j)
    decreases i
  {
    if i > 0 {
      var s := ReadOne(r);
      OutputsAdd(s.r, i - 1, j);
      assert Outputs(r, i + j) == [s.out] + Outputs(s.r, i - 1 + j);
    }
  }

  lemma ValuesConcat(a: seq<Byte>, b: seq<Byte>)
    ensures Values(a + b) == Values(a) + Values(b)
  {
  }

  /** A stretch that did not stop early, followed by one that replays from where it left off. */
  lemma ReplaysJoin(r: Reader<Place>, x: Partial, y: Partial)
    requires Sound(r) && Sound(x.r) && Replays(r, x) && (x.halt.Exhausted? || x.halt.Paused?)
    requires Replays(x.r, y)
    ensures Replays(r, Partial(y.r, x.written + y.written, y.halt))
  {
    OutputsAdd(r, |x.written|, |y.written|);
    ValuesConcat(x.written, y.written);
  }

  /** One `read()` is a stretch of its own. */
  lemma ReplaysOne(r: Reader<Place>)
    requires Sound(r)
    ensures var s := ReadOne(r);
      match s.out
      case Value(v) => Replays(r, Partial(s.r, [v], Exhausted))
      case End => Replays(r, Partial(s.r, [], Ended))
      case Thrown(e) => Replays(r, Partial(s.r, [], Failed(e)))
  {
    var s := ReadOne(r);
    assert Outputs(r, 1) == [s.out] + Outputs(s.r, 0);
    assert Run(r, 1) == Run(s.r, 0);
  }

  /** The loops that call `read()` replay it. */
  lemma {:induction false} ReadCallsReplays(r: Reader<Place>, room: int, inQuad: bool)
    requires Sound(r)
    ensures Replays(r, ReadCalls(r, room, inQuad))
    decreases room
  {
    if !((inQuad && r.byteNo == 0) || room <= 0) {
      var s := ReadOne(r);
      ReplaysOne(r);
      if s.out.Value? {
        ReadCallsReplays(s.r, room - 1, inQuad);
        ReplaysJoin(r, Partial(s.r, [s.out.v], Exhausted), ReadCalls(s.r, room - 1, inQuad));
      }
    }
  }

  /** Where `_offset` was left does not change what the seek finds or where it ends. */
  lemma {:induction false} SeekSync(p: Place, sync: Place, sync': Place)
    requires |p.buf| <= BUFFER_SIZE && |sync.buf| <= BUFFER_SIZE && |sync'.buf| <= BUFFER_SIZE
    ensures Seek(p, sync).quad == Seek(p, sync').quad && Seek(p, sync).at == Seek(p, sync').at
    decreases |p.buf| + |p.src|
  {
    var f := if |p.buf| < 4 then Fill(p) else Filled(true, p);
    if f.ok && IsBreak(f.at.buf[0]) {
      var n := if |p.buf| < 4 then f.at else sync;
      var n' := if |p.buf| < 4 then f.at else sync';
      SeekSync(Place(f.at.buf[1..], f.at.src), n, n');
    }
  }

  /** The first `read()` of a valid quad gives its first byte. */
  lemma FirstStep(p: Place, q: seq<Byte>, at: Place)
    requires |p.buf| <= BUFFER_SIZE && Seek(p, p).quad == Some(q) && Seek(p, p).at == at
    requires Accumulate(q) >= 0
    ensures ReadOne(Idle(p)) == Step(Reader(at, 1, Accumulate(q), q[2..]), Value(AccumByte(Accumulate(q), 16)))
  {
  }

  /** The next two `read()`s of a quad without `=` give its second and third bytes. */
  lemma LaterSteps(at: Place, a: int, m: seq<Byte>)
    requires |at.buf| <= BUFFER_SIZE && 0 <= a < 0x100_0000 && |m| == 2
    ensures m[0] != TERMINAL ==>
      ReadOne(Reader(at, 1, a, m)) == Step(Reader(at, 2, a, m), Value(AccumByte(a, 8)))
    ensures m[1] != TERMINAL ==> ReadOne(Reader(at, 2, a, m)) == Step(Idle(at), Value(AccumByte(a, 0)))
  {
  }

  lemma Pair(b0: Byte, b1: Byte)
    ensures [b0] + [b1] == [b0, b1]
  {
  }

  lemma Triple(b0: Byte, b1: Byte, b2: Byte)
    ensures [b0] + [b1] + [b2] == [b0, b1, b2]
  {
  }

  /** A quad that ends the block loop: none left, an invalid one, or one holding a `=`. */
  lemma QuadStops(p: Place)
    requires |p.buf| <= BUFFER_SIZE
    ensures var s := Seek(p, p);
      s.quad.None? ==> Replays(Idle(p), Partial(Idle(s.at), [], Ended))
    ensures var s := Seek(p, p);
      s.quad.Some? && Accumulate(s.quad.value) < 0 ==>
        Replays(Idle(p), Partial(Idle(s.at), [], Failed(IOException(CORRUPTED))))
  {
    ReplaysOne(Idle(p));
  }

  lemma QuadPauses(p: Place, q: seq<Byte>, at: Place)
    requires |p.buf| <= BUFFER_SIZE && Seek(p, p).quad == Some(q) && Seek(p, p).at == at
    requires Accumulate(q) >= 0
    ensures var a := Accumulate(q);
      q[2] == TERMINAL ==> Replays(Idle(p), Partial(Reader(at, 1, a, q[2..]), [AccumByte(a, 16)], Paused))
    ensures var a := Accumulate(q);
      q[2] != TERMINAL && q[3] == TERMINAL ==>
        Replays(Idle(p), Partial(Reader(at, 2, a, q[2..]), [AccumByte(a, 16), AccumByte(a, 8)], Paused))
  {
    var a := Accumulate(q);
    var r1 := Reader(at, 1, a, q[2..]);
    FirstStep(p, q, at);
    LaterSteps(at, a, q[2..]);
    ReplaysOne(Idle(p));
    if q[2] != TERMINAL {
      ReplaysOne(r1);
      ReplaysJoin(Idle(p), Partial(r1, [AccumByte(a, 16)], Exhausted),
        Partial(r1.(byteNo := 2), [AccumByte(a, 8)], Exhausted));
      Pair(AccumByte(a, 16), AccumByte(a, 8));
    }
  }

  /** A quad without `=` is three `read()`s, and the block loop goes on from behind it. */
  lemma QuadThenRest(p: Place, q: seq<Byte>, at: Place, y: Partial)
    requires |p.buf| <= BUFFER_SIZE && Seek(p, p).quad == Some(q) && Seek(p, p).at == at
    requires Accumulate(q) >= 0 && q[2] != TERMINAL && q[3] != TERMINAL
    requires Sound(y.r) && Replays(Idle(at), y)
    ensures var a := Accumulate(q);
      Replays(Idle(p), Partial(y.r, [AccumByte(a, 16), AccumByte(a, 8), AccumByte(a, 0)] + y.written, y.halt))
  {
    var a := Accumulate(q);
    var r1 := Reader(at, 1, a, q[2..]);
    var r2 := r1.(byteNo := 2);
    FirstStep(p, q, at);
    LaterSteps(at, a, q[2..]);
    ReplaysOne(Idle(p));
    ReplaysOne(r1);
    ReplaysOne(r2);
    var x1 := Partial(r1, [AccumByte(a, 16)], Exhausted);
    ReplaysJoin(Idle(p), x1, Partial(r2, [AccumByte(a, 8)], Exhausted));
    var x2 := Partial(r2, [AccumByte(a, 16)] + [AccumByte(a, 8)], Exhausted);
    ReplaysJoin(Idle(p), x2, Partial(Idle(at), [AccumByte(a, 0)], Exhausted));
    var x3 := Partial(Idle(at), x2.written + [AccumByte(a, 0)], Exhausted);
    ReplaysJoin(Idle(p), x3, y);
    Triple(AccumByte(a, 16), AccumByte(a, 8), AccumByte(a, 0));
  }

  /** The block loop replays `read()` when an invalid quad is passed over. */
  lemma {:induction false} BlocksReplays(p: Place, sync: Place, room: int)
    requires |p.buf| <= BUFFER_SIZE && |sync.buf| <= BUFFER_SIZE
    ensures Replays(Idle(p), Blocks(p, sync, room, false))
    decreases room
  {
    if room > 3 {
      var s := Seek(p, sync);
      SeekSync(p, sync, p);
      QuadStops(p);
      if s.quad.Some? && Accumulate(s.quad.value) >= 0 {
        var q := s.quad.value;
        QuadPauses(p, q, s.at);
        if q[2] != TERMINAL && q[3] != TERMINAL {
          BlocksReplays(s.at, s.sync, room - 3);
          QuadThenRest(p, q, s.at, Blocks(s.at, s.sync, room - 3, false));
        }
      }
    }
  }

  /**
   * `read(b, off, len)` is a run of `read()`s: it stores what they give, returns how many it stored
   * (-1 when the first one gave -1, never 0 unless `len` is not positive), and leaves the state
   * they leave; one that returned early at the end of the text, or threw, also took the one
   * `read()` that gave -1 or threw.
   */
  lemma ReadBlockReads(r: Reader<Place>, len: int)
    requires Sound(r)
    ensures var b := ReadBlock(r, len); var k := |b.written|;
      Outputs(r, k) == Values(b.written) && k <= (if len > 0 then len else 0)
    ensures var b := ReadBlock(r, len); var k := |b.written|;
      b.result == Count(k) ==> b.r == Run(r, k) || ReadOne(Run(r, k)) == Step(b.r, End)
    ensures var b := ReadBlock(r, len); var k := |b.written|;
      b.result.Count? ==> b.result.n == k || (b.result.n == -1 && k == 0 && ReadOne(r) == Step(b.r, End))
    ensures var b := ReadBlock(r, len); var k := |b.written|;
      b.result.Raised? ==>
        b.result.e == IOException(CORRUPTED) && ReadOne(Run(r, k)) == Step(b.r, Thrown(b.result.e))
    ensures len > 0 ==> ReadBlock(r, len).result != Count(0)
    ensures len <= 0 ==> ReadBlock(r, len) == Block(r, [], Count(0))
  {
    var d := ReadCalls(r, len, true);
    ReadCallsReplays(r, len, true);
    if d.halt.Exhausted? {
      var x := AfterDrain(d, len, false);
      if |d.written| + 3 < len {
        assert d.r == Idle(d.r.at);
        BlocksReplays(d.r.at, d.r.at, len - |d.written|);
      }
      ReplaysJoin(r, d, x);
      var w := d.written + x.written;
      if x.halt.Exhausted? && |w| == 0 {
        ReadCallsReplays(x.r, len, false);
        ReplaysJoin(r, Partial(x.r, w, Exhausted), ReadCalls(x.r, len, false));
        assert w + ReadCalls(x.r, len, false).written == ReadCalls(x.r, len, false).written;
      }
    }
  }

  /**
   * "QUJD!!!!" read with `read(b, 0, 8)`: the block loop stores "ABC" and throws at "!!!!"; as
   * written `_offset` still names the front of the buffer, so the next `read()` gives 'A' again,
   * where passing over the invalid quad leaves nothing to read.
   */
  lemma StaleOffsetRereads()
    ensures var t: seq<Byte> := [81, 85, 74, 68, 33, 33, 33, 33];
      var b := ReadBlockAsWritten(Idle(Place([], t)), 8);
      b == Block(Idle(Place(t, [])), [65, 66, 67], Raised(IOException(CORRUPTED))) &&
      ReadOne(b.r).out == Value(65)
    ensures var t: seq<Byte> := [81, 85, 74, 68, 33, 33, 33, 33];
      var b := ReadBlock(Idle(Place([], t)), 8);
      b == Block(Idle(Place([], [])), [65, 66, 67], Raised(IOException(CORRUPTED))) &&
      ReadOne(b.r).out == End
  {
    var t: seq<Byte> := [81, 85, 74, 68, 33, 33, 33, 33];
    var p := Place([], t);
    var full := Place(t, []);
    var tail := Place(t[4..], []);
    var abc := Packed(65, 66, 67);
    assert Accumulate(t[..4]) == abc;
    PackedBytes(65, 66, 67);
    assert Fill(p) == Filled(true, full);
    assert Seek(p, p) == Sought(Some(t[..4]), tail, full);
    assert t[4..][..4] == t[4..] && t[4..][4..] == [];
    assert Seek(tail, full) == Sought(Some(t[4..]), Place([], []), full);
    assert Accumulate(t[4..]) < 0;
    assert Seek(full, full) == Sought(Some(t[..4]), tail, full);
    assert Seek(Place([], []), Place([], [])).quad == None;
  }

  /** A loop that calls `read()`, after storing `w`: the whole loop is `w` and then what is left of it. */
  ghost predicate CallsSoFar(total: Partial, r: Reader<Place>, room: int, inQuad: bool, w: seq<Byte>)
    requires Sound(r)
  {
    var x := ReadCalls(r, room, inQuad);
    total == Partial(x.r, w + x.written, x.halt)
  }

  /** One more `read()` of such a loop, when the loop goes on: a byte adds to what was written. */
  lemma CallsSoFarNext(total: Partial, r: Reader<Place>, r': Reader<Place>, c: Outcome, room: int, inQuad: bool,
                       w: seq<Byte>)
    requires Sound(r) && CallsSoFar(total, r, room, inQuad, w)
    requires !((inQuad && r.byteNo == 0) || room <= 0) && Step(r', c) == ReadOne(r)
    ensures c.End? ==> total == Partial(r', w, Ended)
    ensures c.Thrown? ==> total == Partial(r', w, Failed(c.e))
  {
    assert w + [] == w;
  }

  /** The same, when it gives a byte `v`: the loop goes on from `r'`, with `w'` now written. */
  lemma CallsSoFarByte(total: Partial, r: Reader<Place>, r': Reader<Place>, v: Byte, room: int, room': int,
                       inQuad: bool, w: seq<Byte>, w': seq<Byte>)
    requires Sound(r) && CallsSoFar(total, r, room, inQuad, w)
    requires !((inQuad && r.byteNo == 0) || room <= 0) && Step(r', Value(v)) == ReadOne(r)
    requires room' == room - 1 && w' == w + [v]
    ensures Sound(r') && CallsSoFar(total, r', room', inQuad, w')
  {
    var rest := ReadCalls(r', room - 1, inQuad);
    assert w + ([v] + rest.written) == (w + [v]) + rest.written;
  }

  /** A loop that stops before its `read()`: nothing more is written. */
  lemma CallsSoFarStops(total: Partial, r: Reader<Place>, room: int, inQuad: bool, w: seq<Byte>)
    requires Sound(r) && CallsSoFar(total, r, room, inQuad, w)
    requires (inQuad && r.byteNo == 0) || room <= 0
    ensures total == Partial(r, w, Exhausted)
  {
    assert w + [] == w;
  }

  /**
   * The array `a` once the bytes `w` are stored from index `off` on: what `read(b, off, len)`
   * leaves in `b`.
   */
  function Stored(a: seq<Byte>, off: int, w: seq<Byte>): seq<Byte> {
    seq(|a|, j requires 0 <= j < |a| => if off <= j < off + |w| then w[j - off] else a[j])
  }

  /** The stored bytes are `w`, and no other element changes. */
  lemma StoredMeaning(a: seq<Byte>, off: int, w: seq<Byte>)
    requires 0 <= off && off + |w| <= |a|
    ensures |Stored(a, off, w)| == |a| && Stored(a, off, w)[off..off + |w|] == w
    ensures forall j :: 0 <= j < |a| && !(off <= j < off + |w|) ==> Stored(a, off, w)[j] == a[j]
  {
  }

  lemma StoredNothing(a: seq<Byte>, off: int)
    ensures Stored(a, off, []) == a
  {
  }

  lemma StoredNext(a: seq<Byte>, off: int, w: seq<Byte>, v: Byte)
    requires 0 <= off && off + |w| < |a|
    ensures Stored(a, off, w)[off + |w| := v] == Stored(a, off, w + [v])
  {
  }

  /**
   * The block loop has stored `w` and stands at `p`, with `_offset` at `sync`, with `room` bytes
   * of room left; `total` is what the whole loop ends with.
   */
  ghost predicate BlocksSoFar(total: Partial, p: Place, sync: Place, room: int, w: seq<Byte>)
    requires |p.buf| <= BUFFER_SIZE && |sync.buf| <= BUFFER_SIZE
  {
    total == BlocksAfter(p, sync, room, w)
  }

  /** The block loop from `p` on, behind the bytes `w` already stored. */
  ghost function BlocksAfter(p: Place, sync: Place, room: int, w: seq<Byte>): Partial
    requires |p.buf| <= BUFFER_SIZE && |sync.buf| <= BUFFER_SIZE
  {
    var x := Blocks(p, sync, room, false);
    Partial(x.r, w + x.written, x.halt)
  }

  /** The block loop stops once three bytes of room or fewer are left. */
  lemma BlocksSoFarStops(total: Partial, p: Place, sync: Place, room: int, w: seq<Byte>)
    requires |p.buf| <= BUFFER_SIZE && |sync.buf| <= BUFFER_SIZE
    requires BlocksSoFar(total, p, sync, room, w) && room <= 3
    ensures total == Partial(Idle(p), w, Exhausted)
  {
    assert w + [] == w;
  }

  /** A round of the block loop that finds no quad: the stream has ended. */
  lemma BlocksSoFarEnds(total: Partial, p: Place, sync: Place, room: int, w: seq<Byte>, s: Sought)
    requires |p.buf| <= BUFFER_SIZE && |sync.buf| <= BUFFER_SIZE
    requires BlocksSoFar(total, p, sync, room, w) && room > 3 && s == Seek(p, sync) && s.quad.None?
    ensures total == Partial(Idle(s.at), w, Ended)
  {
    assert Blocks(p, sync, room, false) == BlocksAt(p, sync, room, false);
    assert w + [] == w;
  }

  /** A round of the block loop that finds a corrupt quad. */
  lemma BlocksSoFarCorrupt(total: Partial, p: Place, sync: Place, room: int, w: seq<Byte>, s: Sought)
    requires |p.buf| <= BUFFER_SIZE && |sync.buf| <= BUFFER_SIZE
    requires BlocksSoFar(total, p, sync, room, w) && room > 3 && s == Seek(p, sync)
    requires s.quad.Some? && Accumulate(s.quad.value) < 0
    ensures total == Partial(Idle(s.at), w, Failed(IOException(CORRUPTED)))
  {
    assert Blocks(p, sync, room, false) == BlocksAt(p, sync, room, false);
    assert w + [] == w;
  }

  /** A round of the block loop that decodes a quad: one, two or three bytes, after the `=`s. */
  lemma BlocksSoFarQuad(total: Partial, p: Place, sync: Place, room: int, w: seq<Byte>, s: Sought)
    requires |p.buf| <= BUFFER_SIZE && |sync.buf| <= BUFFER_SIZE
    requires BlocksSoFar(total, p, sync, room, w) && room > 3 && s == Seek(p, sync)
    requires s.quad.Some? && Accumulate(s.quad.value) >= 0
    ensures var q := s.quad.value; var a := Accumulate(q);
      q[2] == TERMINAL ==> total == Partial(Reader(s.at, 1, a, q[2..]), w + [AccumByte(a, 16)], Paused)
    ensures var q := s.quad.value; var a := Accumulate(q);
      q[2] != TERMINAL && q[3] == TERMINAL ==>
        total == Partial(Reader(s.at, 2, a, q[2..]), w + [AccumByte(a, 16)] + [AccumByte(a, 8)], Paused)
    ensures var q := s.quad.value; var a := Accumulate(q);
      q[2] != TERMINAL && q[3] != TERMINAL ==>
        BlocksSoFar(total, s.at, s.sync, room - 3, w + [AccumByte(a, 16)] + [AccumByte(a, 8)] + [AccumByte(a, 0)])
  {
    var q := s.quad.value;
    var a := Accumulate(q);
    var x := BlocksAt(p, sync, room, false);
    assert Blocks(p, sync, room, false) == x;
    if q[2] == TERMINAL {
      assert x == Partial(Reader(s.at, 1, a, q[2..]), [AccumByte(a, 16)], Paused);
    } else if q[3] == TERMINAL {
      assert x == Partial(Reader(s.at, 2, a, q[2..]), [AccumByte(a, 16), AccumByte(a, 8)], Paused);
      assert w + [AccumByte(a, 16), AccumByte(a, 8)] == w + [AccumByte(a, 16)] + [AccumByte(a, 8)];
    } else {
      var b3 := [AccumByte(a, 16), AccumByte(a, 8), AccumByte(a, 0)];
      var rest := Blocks(s.at, s.sync, room - 3, false);
      assert x == Partial(rest.r, b3 + rest.written, rest.halt);
      assert w + (b3 + rest.written) == (w + [AccumByte(a, 16)] + [AccumByte(a, 8)] + [AccumByte(a, 0)]) + rest.written;
    }
  }

  /** `available()` of `k` unread chars. */
  function Estimate(k: nat): (n: nat)
    ensures n % 3 == 0 && 5 * (n / 3) <= k < 5 * (n / 3 + 1)
  {
    k / 5 * 3
  }

  // ---------------------------------------------------------------- the stream

  /**
   * The wrapped `InputStream`: the bytes it has not delivered yet.  `read(a, off, len)` delivers
   * as many as are asked for and are left, and -1 once none are left.
   */
  class Source {
    var data: seq<Byte>

    constructor (data: seq<Byte>)
      ensures this.data == data
    {
      this.data := data;
    }

    method Read(a: array<Byte>, off: int, len: int) returns (n: int)
      requires 0 <= off && 0 <= len && off + len <= a.Length
      modifies this, a
      ensures len == 0 ==> n == 0 && data == old(data)
      ensures len > 0 && old(data) == [] ==> n == -1 && data == []
      ensures len > 0 && old(data) != [] ==>
        n == (if len < |old(data)| then len else |old(data)|) &&
        a[off..off + n] == old(data)[..n] && data == old(data)[n..]
      ensures forall j :: 0 <= j < a.Length && !(off <= j < off + n) ==> a[j] == old(a[j])
    {
      if len == 0 {
        return 0;
      }
      if data == [] {
        return -1;
      }
      n := if len < |data| then len else |data|;
      var i := 0;
      while i < n
        invariant 0 <= i <= n && data == old(data)
        invariant a[off..off + i] == data[..i]
        invariant forall j :: 0 <= j < a.Length && !(off <= j < off + i) ==> a[j] == old(a[j])
      {
        a[off + i] := data[i];
        i := i + 1;
      }
      data := data[n..];
    }

    method Available() returns (n: int)
      ensures n == |data|
    {
      return |data|;
    }
  }

  class Base64InputStream {
    const source: Source
    const inverse: array<int>
    const buffer: array<Byte>
    var offset: int
    var length: int
    var accum: int
    var byteNo: int

    /** The fields within their ranges; inside a quad its last two chars sit just before `offset`. */
    ghost predicate Valid()
      reads this
    {
      buffer.Length == BUFFER_SIZE && inverse.Length == 256 &&
      0 <= offset <= length <= BUFFER_SIZE && 0 <= byteNo <= 2 &&
      (byteNo > 0 ==> 2 <= offset && 0 <= accum < 0x100_0000)
    }

    /** The table is the default alphabet's inverse. */
    ghost predicate TableOk()
      reads inverse
    {
      inverse.Length == 256 && forall c :: 0 <= c < 256 ==> inverse[c] == Lookup(c as Byte)
    }

    /** The unread bytes from `i` on: what is left of the buffer, then what the source still holds. */
    ghost function From(i: int): Place
      requires 0 <= i <= length <= buffer.Length
      reads this`length, buffer, source
    {
      Place(buffer[i..length], source.data)
    }

    ghost function Snap(): (r: Reader<Place>)
      requires Valid()
      reads this, buffer, source
      ensures Sound(r) && r.byteNo == byteNo
    {
      if byteNo == 0 then Idle(From(offset)) else Reader(From(offset), byteNo, accum, buffer[offset - 2..offset])
    }

    constructor (source: Source)
      ensures Valid() && TableOk() && fresh(buffer) && fresh(inverse) && this.source == source
      ensures Snap() == Idle(Place([], source.data))
    {
      DefaultAlphabetIsRfc4648();
      DefaultAlphabetDistinct();
      DefaultInverse();
      var table := InvertAlphabet(DEFAULT_ALPHABET, PAD);
      assert table.Ok?;
      this.source := source;
      inverse := table.value;
      buffer := new Byte[BUFFER_SIZE];
      offset := 0;
      length := 0;
      accum := 0;
      byteNo := 0;
    }

    /** `fillBuffer`: move the unread bytes to the front, then read until at least four are buffered. */
    method FillBuffer() returns (ok: bool)
      requires Valid() && byteNo == 0 && length - offset < 4
      modifies this, buffer, source
      ensures Valid() && byteNo == 0 && offset == 0 && accum == old(accum)
      ensures Filled(ok, From(0)) == Fill(old(From(offset)))
    {
      ghost var p := From(offset);
      if offset > 0 && length != offset {
        Compact();
      }
      length := length - offset;
      offset := 0;
      assert From(0) == p;
      var first := true;
      while true
        invariant Valid() && byteNo == 0 && offset == 0 && accum == old(accum) && length < 4
        invariant first ==> From(0) == p
        invariant !first ==> From(0) == Place(p.buf + p.src, []) && |p.buf| + |p.src| < 4
        decreases |source.data|, first
      {
        var more := ReadMore();
        if !more {
          return false;
        }
        if length >= 4 {
          break;
        }
        first := false;
      }
      return true;
    }

    /**
     * One `in.read(_buffer, _length, _buffer.length - _length)` of the `fillBuffer` loop: false
     * for -1, otherwise the bytes read are appended to the buffer.
     */
    method ReadMore() returns (more: bool)
      requires Valid() && byteNo == 0 && offset == 0 && length < 4
      modifies this, buffer, source
      ensures Valid() && byteNo == 0 && offset == 0 && accum == old(accum)
      ensures !more ==> old(source.data) == [] && From(0) == old(From(0))
      ensures more ==> old(source.data) != [] && |source.data| < |old(source.data)|
      ensures more ==>
        Fill(old(From(0))) == Filled(length >= 4, if length >= 4 then From(0) else Place(From(0).buf, []))
      ensures more && length < 4 ==> From(0) == Place(old(buffer[..length]) + old(source.data), [])
    {
      ghost var p := From(0);
      var n := source.Read(buffer, length, BUFFER_SIZE - length);
      if n == -1 {
        assert buffer[..length] == old(buffer[..length]);
        return false;
      }
      assert buffer[..length + n] == p.buf + p.src[..n];
      length := length + n;
      assert p.src[..n] + p.src[n..] == p.src;
      return true;
    }

    /**
     * The do-while loop that finds the next quad, from the read position `o0`, refilling when fewer
     * than four bytes are left behind it (`_offset` is stored first).  It gives the position
     * behind the quad it found.
     */
    method SeekFrom(o0: int) returns (found: bool, o: int)
      requires Valid() && byteNo == 0 && offset <= o0 <= length
      modifies this, buffer, source
      ensures Valid() && byteNo == 0 && accum == old(accum) && offset <= o <= length
      ensures found ==> offset + 4 <= o
      ensures !found ==> o == offset
      ensures Seek(old(From(o0)), old(From(offset))) ==
        Sought(if found then Some(buffer[o - 4..o]) else None, From(o), From(offset))
    {
      o := o0;
      ghost var target := Seek(From(o0), From(offset));
      while true
        invariant Valid() && byteNo == 0 && accum == old(accum) && offset <= o <= length
        invariant Seek(From(o), From(offset)) == target
        decreases length - o + |source.data|
      {
        var go;
        go, found, o := SeekRound(o, From(o), From(offset));
        if !go {
          return;
        }
      }
    }

    /** One round of that loop: refill if need be, then take one char; go on if it is a line break. */
    method SeekRound(o0: int, ghost p: Place, ghost sync: Place) returns (go: bool, found: bool, o: int)
      requires Valid() && byteNo == 0 && offset <= o0 <= length && p == From(o0) && sync == From(offset)
      modifies this, buffer, source
      ensures Valid() && byteNo == 0 && accum == old(accum) && offset <= o <= length
      ensures go ==> Seek(p, sync) == Seek(From(o), From(offset))
      ensures go ==> length - o + |source.data| < old(length - o0 + |source.data|)
      ensures !go && found ==> offset + 4 <= o
      ensures !go && !found ==> o == offset
      ensures !go ==> Seek(p, sync) == Sought(if found then Some(buffer[o - 4..o]) else None, From(o), From(offset))
    {
      assert Seek(p, sync) == SeekOn(p, sync);
      ghost var f := if |p.buf| < 4 then Fill(p) else Filled(true, p);
      var ok;
      ok, o := Refill(o0, p, sync);
      if !ok {
        return false, false, o;
      }
      go, found, o := TakeChar(o, f.at);
    }

    /** The refill at the head of a round, when fewer than four chars are left behind `o0`. */
    method Refill(o0: int, ghost p: Place, ghost sync: Place) returns (ok: bool, o: int)
      requires Valid() && byteNo == 0 && offset <= o0 <= length && p == From(o0) && sync == From(offset)
      modifies this, buffer, source
      ensures Valid() && byteNo == 0 && accum == old(accum) && offset <= o <= length
      ensures var f := if |p.buf| < 4 then Fill(p) else Filled(true, p);
        ok == f.ok && From(o) == f.at && From(offset) == (if |p.buf| < 4 then f.at else sync)
      ensures ok ==> o + 4 <= length
      ensures !ok ==> o == offset
      ensures length - o + |source.data| <= old(length - o0 + |source.data|)
    {
      o := o0;
      if o + 4 > length {
        offset := o;
        ok := FillBuffer();
        o := 0;
      } else {
        ok := true;
      }
    }

    /** The char at `o` of a round: a line break is passed over, otherwise the quad is found. */
    method TakeChar(o0: int, ghost at: Place) returns (go: bool, found: bool, o: int)
      requires Valid() && byteNo == 0 && offset <= o0 && o0 + 4 <= length && at == From(o0)
      ensures go ==> !found && o == o0 + 1 && From(o) == Place(at.buf[1..], at.src)
      ensures !go ==> found && o == o0 + 4 && buffer[o - 4..o] == at.buf[..4] && From(o) == Place(at.buf[4..], at.src)
      ensures go <==> IsBreak(at.buf[0])
    {
      var c1 := buffer[o0];
      o := o0 + 1;
      if IsBreak(c1) {
        assert From(o) == Place(at.buf[1..], source.data);
        return true, false, o;
      }
      assert at.buf[..4] == buffer[o0..o0 + 4];
      assert at.buf[4..] == buffer[o0 + 4..length];
      return false, true, o0 + 4;
    }

    /** The table entries of the four chars before `o`, shifted and or-ed: `Accumulate` of them. */
    method AccumulateAt(o: int) returns (a: int)
      requires Valid() && TableOk() && 4 <= o <= length
      ensures a == Accumulate(buffer[o - 4..o])
    {
      a := ShiftOr(inverse[buffer[o - 4]], inverse[buffer[o - 3]], inverse[buffer[o - 2]], inverse[buffer[o - 1]]);
    }

    /** `read()`, with the chars of a quad taken as unsigned bytes. */
    method Read() returns (out: Outcome)
      requires Valid() && TableOk()
      modifies this, buffer, source
      ensures Valid() && Step(Snap(), out) == ReadOne(old(Snap()))
    {
      if byteNo == 0 {
        out := StartRead();
      } else if byteNo == 1 {
        if buffer[offset - 2] == TERMINAL {
          return End;
        }
        byteNo := 2;
        return Value(AccumByte(accum, 8));
      } else {
        if buffer[offset - 1] == TERMINAL {
          return End;
        }
        byteNo := 0;
        return Value(AccumByte(accum, 0));
      }
    }

    /** The first `read()` of a quad: find it, decode it, give its first byte. */
    method StartRead() returns (out: Outcome)
      requires Valid() && TableOk() && byteNo == 0
      modifies this, buffer, source
      ensures Valid()
      ensures var s := Seek(old(From(offset)), old(From(offset))); Step(Snap(), out) == StartQuad(s.quad, s.at)
    {
      ghost var s := Seek(From(offset), From(offset));
      var found, o := SeekFrom(offset);
      out := BeginQuad(found, o, s);
    }

    /** The quad found, or the end of the text, as the first `read()` of a quad gives it. */
    method BeginQuad(found: bool, o: int, ghost s: Sought) returns (out: Outcome)
      requires Valid() && TableOk() && byteNo == 0 && offset <= o <= length
      requires found ==> offset + 4 <= o
      requires !found ==> o == offset
      requires s == Sought(if found then Some(buffer[o - 4..o]) else None, From(o), From(offset))
      modifies this
      ensures Valid() && Step(Snap(), out) == StartQuad(s.quad, s.at)
    {
      offset := o;
      if !found {
        return End;
      }
      var a := AccumulateAt(o);
      if a < 0 {
        accum := a;
        return Thrown(IOException(CORRUPTED));
      }
      assert s.quad.value[2..] == buffer[o - 2..o];
      accum, byteNo := a, 1;
      return Value(AccumByte(a, 16));
    }

    /**
     * `read(b, off, len)`: drain the quad `read()` is inside of, decode whole quads while more than
     * three bytes of room are left, and take the slow way through `read()` when nothing was read
     * yet.  It gives the number of bytes stored in `b` from `off` on, or -1 at the end of the stream.
     */
    method ReadArray(b: array<Byte>, off: int, len: int) returns (res: Returned)
      requires Valid() && TableOk() && b != buffer && (len <= 0 || (0 <= off && off + len <= b.Length))
      modifies this, buffer, source, b
      ensures Valid()
      ensures var x := ReadBlock(old(Snap()), len);
        Snap() == x.r && res == x.result && b[..] == Stored(old(b[..]), off, x.written)
    {
      ghost var r, b0 := old(Snap()), old(b[..]);
      var n, halt := ReadLoop(b, off, len, true);
      if !halt.Exhausted? {
        return ResultOf(halt, n);
      }
      res := ReadBlocks(b, off, len, n, r, b0, ReadCalls(r, len, true));
    }

    /** The rest of `read(b, off, len)` once the draining loop has run out of quad or of room. */
    method ReadBlocks(b: array<Byte>, off: int, len: int, n0: int, ghost r: Reader<Place>, ghost b0: seq<Byte>,
                      ghost d: Partial)
      returns (res: Returned)
      requires Valid() && TableOk() && b != buffer && (len <= 0 || (0 <= off && off + len <= b.Length))
      requires Sound(r) && d == ReadCalls(r, len, true) && d.halt.Exhausted?
      requires Snap() == d.r && n0 == |d.written| && b[..] == Stored(b0, off, d.written)
      modifies this, buffer, source, b
      ensures Valid()
      ensures var x := ReadBlock(r, len); Snap() == x.r && res == x.result && b[..] == Stored(b0, off, x.written)
    {
      var n := n0;
      var halt := Exhausted;
      if n + 3 < len {
        ghost var w;
        n, halt, w := BlockLoop(b, off, len, n, b0, d.written, From(offset), BlocksAfter(From(offset), From(offset), len - n, d.written));
        if !halt.Exhausted? {
          return ResultOf(halt, n);
        }
      }
      if n == 0 {
        StoredNothing(b0, off);
        n, halt := ReadLoop(b, off, len, false);
        return ResultOf(halt, n);
      }
      return Count(n);
    }

    /**
     * The loops of `read(b, off, len)` that call `read()`, from `n == 0`: with `inQuad` the
     * draining loop, otherwise the loop for a request of fewer than four bytes.
     */
    method ReadLoop(b: array<Byte>, off: int, len: int, inQuad: bool) returns (n: int, halt: Halt)
      requires Valid() && TableOk() && b != buffer && (len <= 0 || (0 <= off && off + len <= b.Length))
      modifies this, buffer, source, b
      ensures Valid()
      ensures var x := ReadCalls(old(Snap()), len, inQuad);
        Snap() == x.r && halt == x.halt && n == |x.written| && b[..] == Stored(old(b[..]), off, x.written)
    {
      n := 0;
      ghost var r := Snap();
      ghost var total := ReadCalls(r, len, inQuad);
      ghost var w: seq<Byte> := [];
      ghost var room := len;
      StoredNothing(b[..], off);
      while (!inQuad || byteNo > 0) && n < len
        invariant Valid() && 0 <= n && |w| == n && room == len - n && r == Snap()
        invariant CallsSoFar(total, r, room, inQuad, w)
        invariant b[..] == Stored(old(b[..]), off, w)
        decreases len - n
      {
        var c := ReadInto(b, off, n, r, old(b[..]), w);
        if !c.Value? {
          CallsSoFarNext(total, r, Snap(), c, room, inQuad, w);
          halt := if c.End? then Ended else Failed(c.e);
          return;
        }
        ghost var r0, room0, w0 := r, room, w;
        w := w + [c.v];
        n := n + 1;
        r := Snap();
        room := room - 1;
        CallsSoFarByte(total, r0, r, c.v, room0, room, inQuad, w0, w);
      }
      CallsSoFarStops(total, r, room, inQuad, w);
      halt := Exhausted;
    }

    /** `read()`, and the byte it gives stored at `b[off + n]`, behind the bytes `w` stored before. */
    method ReadInto(b: array<Byte>, off: int, n: int, ghost r: Reader<Place>, ghost b0: seq<Byte>, ghost w: seq<Byte>)
      returns (c: Outcome)
      requires Valid() && TableOk() && b != buffer && 0 <= off && n == |w| && off + n < b.Length && r == Snap()
      requires b[..] == Stored(b0, off, w)
      modifies this, buffer, source, b
      ensures Valid() && Step(Snap(), c) == ReadOne(r)
      ensures b[..] == Stored(b0, off, if c.Value? then w + [c.v] else w)
    {
      c := Read();
      if c.Value? {
        b[off + n] := c.v;
        StoredNext(b0, off, w, c.v);
      }
    }

    /**
     * The block loop of `read(b, off, len)`, from `n0` bytes stored, while more than three bytes of
     * room are left: quads are decoded straight from the buffer at a local offset, which is stored
     * back into `_offset` before a refill and once the loop is over.
     */
    method BlockLoop(b: array<Byte>, off: int, len: int, n0: int, ghost b0: seq<Byte>, ghost w0: seq<Byte>,
                    ghost p0: Place, ghost total: Partial)
      returns (n: int, halt: Halt, ghost w: seq<Byte>)
      requires Valid() && TableOk() && byteNo == 0 && b != buffer && 0 <= off && 0 <= n0 && off + len <= b.Length
      requires p0 == From(offset) && total == BlocksAfter(p0, p0, len - n0, w0)
      requires n0 == |w0| && b[..] == Stored(b0, off, w0)
      modifies this, buffer, source, b
      ensures Valid() && n == |w| && b[..] == Stored(b0, off, w)
      ensures total == Partial(Snap(), w, halt)
    {
      n := n0;
      var o := offset;
      ghost var room := len - n0;
      ghost var p, sync := p0, p0;
      w := w0;
      while n + 3 < len
        invariant Valid() && byteNo == 0 && offset <= o <= length && 0 <= n && n == |w| && room == len - n
        invariant b[..] == Stored(b0, off, w)
        invariant p == From(o) && sync == From(offset) && BlocksSoFar(total, p, sync, room, w)
        decreases len - n
      {
        var go;
        go, halt, n, o, w, p, sync := BlockRound(b, off, len, n, o, b0, w, total, room, p, sync);
        if !go {
          return;
        }
        room := room - 3;
      }
      halt := Settle(o, total, p, sync, room, w);
    }

    /** The end of the block loop on running out of room: the local offset is stored back. */
    method Settle(o: int, ghost total: Partial, ghost p: Place, ghost sync: Place, ghost room: int, ghost w: seq<Byte>)
      returns (halt: Halt)
      requires Valid() && byteNo == 0 && offset <= o <= length && room <= 3
      requires p == From(o) && sync == From(offset) && BlocksSoFar(total, p, sync, room, w)
      modifies this
      ensures Valid() && byteNo == 0
      ensures total == Partial(Snap(), w, halt)
    {
      BlocksSoFarStops(total, p, sync, room, w);
      offset := o;
      halt := Exhausted;
    }

    /** One round of the block loop: find the next quad, decode it, store its bytes. */
    method BlockRound(b: array<Byte>, off: int, len: int, n0: int, o0: int, ghost b0: seq<Byte>,
                      ghost w0: seq<Byte>, ghost total: Partial, ghost room: int, ghost p: Place, ghost sync: Place)
      returns (go: bool, halt: Halt, n: int, o: int, ghost w: seq<Byte>, ghost p': Place, ghost sync': Place)
      requires Valid() && TableOk() && byteNo == 0 && b != buffer && 0 <= off && off + len <= b.Length
      requires offset <= o0 <= length && 0 <= n0 && n0 + 3 < len && n0 == |w0| && b[..] == Stored(b0, off, w0)
      requires p == From(o0) && sync == From(offset) && room == len - n0 && BlocksSoFar(total, p, sync, room, w0)
      modifies this, buffer, source, b
      ensures Valid() && n == |w| && b[..] == Stored(b0, off, w)
      ensures go ==> byteNo == 0 && offset <= o <= length && n == n0 + 3
      ensures go ==> p' == From(o) && sync' == From(offset) && BlocksSoFar(total, p', sync', room - 3, w)
      ensures !go ==> total == Partial(Snap(), w, halt)
    {
      ghost var s := Seek(p, sync);
      var found;
      found, o := SeekFrom(o0);
      if !found {
        BlocksSoFarEnds(total, p, sync, room, w0, s);
        return false, Ended, n0, o, w0, p, sync;
      }
      go, halt, n, w := DecodeAt(b, off, n0, o, b0, w0, total, room, p, sync, s);
      p', sync' := s.at, s.sync;
    }

    /** The rest of a round, once the quad before `o` is found: decode it and store its bytes. */
    method DecodeAt(b: array<Byte>, off: int, n0: int, o: int, ghost b0: seq<Byte>, ghost w0: seq<Byte>,
                    ghost total: Partial, ghost room: int, ghost p: Place, ghost sync: Place, ghost s: Sought)
      returns (go: bool, halt: Halt, n: int, ghost w: seq<Byte>)
      requires Valid() && TableOk() && byteNo == 0 && b != buffer && 0 <= off && off + n0 + 3 < b.Length
      requires offset + 4 <= o <= length && 0 <= n0 && n0 == |w0| && b[..] == Stored(b0, off, w0)
      requires |p.buf| <= BUFFER_SIZE && |sync.buf| <= BUFFER_SIZE && room > 3
      requires BlocksSoFar(total, p, sync, room, w0) && s == Seek(p, sync)
      requires s == Sought(Some(buffer[o - 4..o]), From(o), From(offset))
      modifies this, b
      ensures Valid() && n == |w| && b[..] == Stored(b0, off, w)
      ensures go ==> byteNo == 0 && offset == old(offset) && length == old(length) && n == n0 + 3
      ensures go ==> From(o) == s.at && From(offset) == s.sync && BlocksSoFar(total, s.at, s.sync, room - 3, w)
      ensures !go ==> total == Partial(Snap(), w, halt)
    {
      var a := AccumulateAt(o);
      if a < 0 {
        BlocksSoFarCorrupt(total, p, sync, room, w0, s);
        offset := o;
        return false, Failed(IOException(CORRUPTED)), n0, w0;
      }
      BlocksSoFarQuad(total, p, sync, room, w0, s);
      go, halt, n, w := StoreQuad(b, off, n0, o, a, b0, w0, s.quad.value, s.at);
    }

    /**
     * The bytes of a valid quad `q` that ends at `o`, stored from `b[off + n0]` on: the first one,
     * the second unless the third char is `=`, the third unless the fourth is `=`.  At a `=` the
     * decoder stops inside the quad, where the next `read()` takes over.
     */
    method StoreQuad(b: array<Byte>, off: int, n0: int, o: int, a: int, ghost b0: seq<Byte>, ghost w0: seq<Byte>,
                     ghost q: seq<Byte>, ghost at: Place)
      returns (go: bool, halt: Halt, n: int, ghost w: seq<Byte>)
      requires Valid() && byteNo == 0 && b != buffer && 0 <= off && off + n0 + 3 < b.Length
      requires offset + 4 <= o <= length && 0 <= a < 0x100_0000 && q == buffer[o - 4..o] && at == From(o)
      requires 0 <= n0 && n0 == |w0| && b[..] == Stored(b0, off, w0)
      modifies this, b
      ensures Valid() && n == |w| && b[..] == Stored(b0, off, w)
      ensures q[2] == TERMINAL ==>
        !go && Partial(Snap(), w, halt) == Partial(Reader(at, 1, a, q[2..]), w0 + [AccumByte(a, 16)], Paused)
      ensures q[2] != TERMINAL && q[3] == TERMINAL ==>
        !go && Partial(Snap(), w, halt) ==
          Partial(Reader(at, 2, a, q[2..]), w0 + [AccumByte(a, 16)] + [AccumByte(a, 8)], Paused)
      ensures q[2] != TERMINAL && q[3] != TERMINAL ==>
        go && w == w0 + [AccumByte(a, 16)] + [AccumByte(a, 8)] + [AccumByte(a, 0)] && n == n0 + 3 &&
        byteNo == 0 && offset == old(offset) && length == old(length)
    {
      assert q[2] == buffer[o - 2] && q[3] == buffer[o - 1] && q[2..] == buffer[o - 2..o];
      halt := Exhausted;
      n, w := StoreByte(b, off, n0, AccumByte(a, 16), b0, w0);
      if buffer[o - 2] == TERMINAL {
        accum, offset, byteNo := a, o, 1;
        return false, Paused, n, w;
      }
      n, w := StoreByte(b, off, n, AccumByte(a, 8), b0, w);
      if buffer[o - 1] == TERMINAL {
        accum, offset, byteNo := a, o, 2;
        return false, Paused, n, w;
      }
      n, w := StoreByte(b, off, n, AccumByte(a, 0), b0, w);
      go := true;
    }

    /** `b[off + n++] = v`. */
    method StoreByte(b: array<Byte>, off: int, n0: int, v: Byte, ghost b0: seq<Byte>, ghost w0: seq<Byte>)
      returns (n: int, ghost w: seq<Byte>)
      requires 0 <= off && 0 <= n0 && off + n0 < b.Length && n0 == |w0| && b[..] == Stored(b0, off, w0)
      modifies b
      ensures n == n0 + 1 && w == w0 + [v] && b[..] == Stored(b0, off, w)
    {
      b[off + n0] := v;
      StoredNext(b0, off, w0, v);
      n, w := n0 + 1, w0 + [v];
    }

    /**
     * `available()`: the unread bytes, buffered or not, divided by 5 and multiplied by 3, which
     * allows for a line break after every four chars.
     */
    method Available() returns (n: int)
      requires Valid()
      ensures var k := length - offset + |source.data|; n % 3 == 0 && 5 * (n / 3) <= k < 5 * (n / 3 + 1)
      ensures n == Estimate(|Rest(From(offset))|)
    {
      var s := source.Available();
      n := (length - offset + s) / 5 * 3;
    }

    /** `markSupported()`: mark and reset are not supported. */
    method MarkSupported() returns (b: bool)
      ensures !b
    {
      return false;
    }

    /** `mark(readLimit)`: always UnsupportedOperationException. */
    method Mark(readLimit: int) returns (e: Exception)
      ensures e == UnsupportedOperationException
    {
      return UnsupportedOperationException;
    }

    /** `reset()`: always an IOException. */
    method Reset() returns (e: Exception)
      ensures e == IOException(NO_RESET)
    {
      return IOException(NO_RESET);
    }

    /** `skip(n)`: always UnsupportedOperationException; the stream does not move. */
    method Skip(n: int) returns (e: Exception)
      ensures e == UnsupportedOperationException
    {
      return UnsupportedOperationException;
    }

    /** `System.arraycopy(_buffer, _offset, _buffer, 0, _length - _offset)`. */
    method Compact()
      requires Valid() && byteNo == 0
      modifies buffer
      ensures buffer[..length - offset] == old(buffer[offset..length])
    {
      var i := 0;
      while i < length - offset
        invariant 0 <= i <= length - offset
        invariant buffer[..i] == old(buffer[offset..offset + i])
        invariant forall j :: i <= j < buffer.Length ==> buffer[j] == old(buffer[j])
      {
        buffer[i] := buffer[offset + i];
        i := i + 1;
      }
    }
  }
}
