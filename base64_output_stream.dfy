/**
 * `Base64OutputStream`: a filter that encodes the bytes written to it in base64 (default alphabet,
 * `=` padding) and puts a LF each time a line reaches 76 chars. Quads are collected in a 1024-byte
 * buffer that is handed to the underlying stream before fewer than five places are left.
 *
 * The behaviour of each call is given twice: as a function on a `Snapshot` of the encoder
 * (`StepByte`, `WriteBytes`, `Terminated`, `Flushed`), which the methods of the class are proved
 * to follow, and as the invariant `Consistent`, which ties a snapshot to the bytes written so far
 * and the RFC 4648 text they stand for.
 */
module Base64Output {
  import opened JStrings
  import opened Base64

  const BUFFER_SIZE: nat := 1024

  /** `b & 0xff` for an `int` argument. */
  function ByteOf(x: int): (v: Byte)
    ensures 0 <= x < 0x100 ==> v as int == x
    ensures v as int == x % 0x100
  {
    (x % 0x100) as Byte
  }

  /** The underlying `OutputStream`: what it has received, how often it was flushed, whether it is closed. */
  class Sink {
    var written: seq<Byte>
    var flushes: nat
    var closed: bool

    constructor ()
      ensures written == [] && flushes == 0 && !closed
    {
      written := [];
      flushes := 0;
      closed := false;
    }

    method Write(a: array<Byte>, off: int, len: int)
      requires 0 <= off && 0 <= len && off + len <= a.Length
      modifies this
      ensures written == old(written) + a[off..off + len]
      ensures flushes == old(flushes) && closed == old(closed)
    {
      written := written + a[off..off + len];
    }

    method Flush()
      modifies this
      ensures written == old(written) && flushes == old(flushes) + 1 && closed == old(closed)
    {
      flushes := flushes + 1;
    }

    method Close()
      modifies this
      ensures written == old(written) && flushes == old(flushes) && closed
    {
      closed := true;
    }
  }

  // ---------------------------------------------------------------- the encoder as a function

  /**
   * What an encoder holds: the bytes not yet encoded (`_byteNo` of them, packed in `_accum`), the
   * column, what the underlying stream has received and what waits in `_buffer[0.._bufferOffset)`.
   */
  datatype Snapshot = Snapshot(held: seq<Byte>, colNo: nat, sent: seq<Byte>, buffered: seq<Byte>)

  /** One quad into the buffer, a LF when the line reaches 76 chars, and a flush when fewer than five places are left. */
  function Emit(s: Snapshot, q: seq<Byte>): (r: Snapshot)
    ensures r.held == s.held && r.colNo == NextColumn(s.colNo)
    ensures r.sent + r.buffered == s.sent + s.buffered + q + Break(s.colNo)
    ensures |r.buffered| + 5 <= BUFFER_SIZE
  {
    var buffered := s.buffered + q + Break(s.colNo);
    if |buffered| + 5 > BUFFER_SIZE then
      s.(colNo := NextColumn(s.colNo), sent := s.sent + buffered, buffered := [])
    else
      s.(colNo := NextColumn(s.colNo), buffered := buffered)
  }

  /** `write(int)`: hold the byte, or complete a triple and emit its four digits. */
  function StepByte(s: Snapshot, b: Byte): (r: Snapshot)
    ensures |s.held| < 2 ==> r.held == s.held + [b]
    ensures |s.held| >= 2 ==> r.held == []
  {
    if |s.held| < 2 then s.(held := s.held + [b])
    else Emit(s.(held := []), Digits(Packed(s.held[0], s.held[1], b)))
  }

  /** `write(int)` applied to each of `bs` in turn. */
  function WriteBytes(s: Snapshot, bs: seq<Byte>): Snapshot
    decreases |bs|
  {
    if |bs| == 0 then s
    else StepByte(WriteBytes(s, bs[..|bs| - 1]), bs[|bs| - 1])
  }

  /** `terminate`: the held bytes as a padded quad; nothing when no byte is held. */
  function Terminated(s: Snapshot): (r: Snapshot)
    requires |s.held| <= 2
    ensures r.held == [] && (s.held == [] ==> r == s)
  {
    if |s.held| == 0 then s
    else if |s.held| == 1 then Emit(s.(held := []), Digits(Packed(s.held[0], 0, 0))[..2] + [PAD, PAD])
    else Emit(s.(held := []), Digits(Packed(s.held[0], s.held[1], 0))[..3] + [PAD])
  }

  /** `flush`: the buffered text goes to the underlying stream; nothing is padded. */
  function Flushed(s: Snapshot): Snapshot {
    s.(sent := s.sent + s.buffered, buffered := [])
  }

  // ---------------------------------------------------------------- the invariant

  /**
   * `s` has put out the stream layout of the bytes `whole` after the earlier output `before`, from
   * column `col` on, and five places are left in its buffer.
   */
  ghost predicate Laid(s: Snapshot, before: seq<Byte>, whole: seq<Byte>, col: nat) {
    col % 4 == 0 && col < LINE_SIZE
    && s.colNo == ColumnAfter(whole, col)
    && s.sent + s.buffered == before + StreamText(whole, col)
    && |s.buffered| + 5 <= BUFFER_SIZE
  }

  /**
   * `s` is the state after writing `input` to a stream whose earlier output was `before` and whose
   * line then held `col` chars: the last `|input| % 3` bytes are held and the rest is laid out.
   */
  ghost predicate Consistent(s: Snapshot, before: seq<Byte>, input: seq<Byte>, col: nat) {
    |s.held| <= 2 && |input| % 3 == |s.held| && s.held == input[|input| - |s.held|..]
    && Laid(s, before, input[..|input| - |s.held|], col)
  }

  /** Emitting the group of `g` after a whole number of groups lays out `whole + g`. */
  lemma LaidEmit(s: Snapshot, before: seq<Byte>, whole: seq<Byte>, col: nat, g: seq<Byte>)
    requires Laid(s, before, whole, col) && |whole| % 3 == 0 && 1 <= |g| <= 3
    ensures Laid(Emit(s, EncodeGroup(g)), before, whole + g, col)
  {
    var q := EncodeGroup(g);
    var t := StreamText(whole, col);
    StreamTextSnoc(whole, g, col);
    ColumnAfterSnoc(whole, g, col);
    Regroup(before, t, q, Break(s.colNo));
  }

  lemma Regroup(a: seq<Byte>, b: seq<Byte>, c: seq<Byte>, d: seq<Byte>)
    ensures a + (b + (c + d)) == a + b + c + d
  {
  }

  /** What is laid out can count as earlier output, with a new text starting at the column reached. */
  lemma LaidRestart(s: Snapshot, before: seq<Byte>, whole: seq<Byte>, col: nat)
    requires Laid(s, before, whole, col)
    ensures Laid(s, before + StreamText(whole, col), [], s.colNo)
  {
  }

  /** Holding bytes changes nothing that is laid out. */
  lemma LaidHeld(s: Snapshot, before: seq<Byte>, whole: seq<Byte>, col: nat, held: seq<Byte>)
    requires Laid(s, before, whole, col)
    ensures Laid(s.(held := held), before, whole, col)
  {
  }

  /** One more byte keeps the invariant: it is held, or it completes a group whose chars go out. */
  lemma StepByteConsistent(s: Snapshot, b: Byte, before: seq<Byte>, input: seq<Byte>, col: nat)
    requires Consistent(s, before, input, col)
    ensures Consistent(StepByte(s, b), before, input + [b], col)
  {
    var n := |s.held|;
    var whole := input[..|input| - n];
    assert input == whole + s.held;
    DivParts(|input|, |input| / 3, n, 3);
    DivParts(|whole|, |input| / 3, 0, 3);
    if n < 2 {
      HeldStep(s, b, before, whole, col);
    } else {
      GroupStep(s, b, before, whole, col);
    }
  }

  /** A first or second byte of a group is held. */
  lemma HeldStep(s: Snapshot, b: Byte, before: seq<Byte>, whole: seq<Byte>, col: nat)
    requires |s.held| < 2 && |whole| % 3 == 0 && Laid(s, before, whole, col)
    ensures Consistent(StepByte(s, b), before, whole + s.held + [b], col)
  {
    var n := |s.held|;
    var input' := whole + s.held + [b];
    DivParts(|whole|, |whole| / 3, 0, 3);
    DivParts(|input'|, |whole| / 3, n + 1, 3);
    assert input'[..|input'| - (n + 1)] == whole;
    assert input'[|input'| - (n + 1)..] == s.held + [b];
    LaidHeld(s, before, whole, col, s.held + [b]);
  }

  /** A third byte completes the group, whose four chars go out. */
  lemma GroupStep(s: Snapshot, b: Byte, before: seq<Byte>, whole: seq<Byte>, col: nat)
    requires |s.held| == 2 && |whole| % 3 == 0 && Laid(s, before, whole, col)
    ensures Consistent(StepByte(s, b), before, whole + s.held + [b], col)
  {
    var g := [s.held[0], s.held[1], b];
    assert whole + s.held + [b] == whole + g;
    LaidGroup(s, b, before, whole, col);
    LaidConsistent(StepByte(s, b), before, whole + g, col);
  }

  /** With nothing held, what is laid out is all of the input. */
  lemma LaidConsistent(s: Snapshot, before: seq<Byte>, input: seq<Byte>, col: nat)
    requires s.held == [] && |input| % 3 == 0 && Laid(s, before, input, col)
    ensures Consistent(s, before, input, col)
  {
    assert input[..|input| - 0] == input;
  }

  /** A third byte completes the group, whose four chars are laid out after the earlier groups. */
  lemma LaidGroup(s: Snapshot, b: Byte, before: seq<Byte>, whole: seq<Byte>, col: nat)
    requires |s.held| == 2 && |whole| % 3 == 0 && Laid(s, before, whole, col)
    ensures var g := [s.held[0], s.held[1], b];
      StepByte(s, b) == Emit(s.(held := []), Digits(Packed(s.held[0], s.held[1], b)))
      && |whole + g| % 3 == 0 && Laid(StepByte(s, b), before, whole + g, col)
  {
    var g := [s.held[0], s.held[1], b];
    DivParts(|whole|, |whole| / 3, 0, 3);
    DivParts(|whole + g|, |whole| / 3 + 1, 0, 3);
    TripleDigits(s.held[0], s.held[1], b);
    LaidHeld(s, before, whole, col, []);
    LaidEmit(s.(held := []), before, whole, col, g);
  }

  /** Any run of byte writes keeps the invariant. */
  lemma {:induction false} WriteBytesConsistent(s: Snapshot, bs: seq<Byte>, before: seq<Byte>, input: seq<Byte>, col: nat)
    requires Consistent(s, before, input, col)
    ensures Consistent(WriteBytes(s, bs), before, input + bs, col)
    decreases |bs|
  {
    if |bs| == 0 {
      assert input + bs == input;
    } else {
      var init := bs[..|bs| - 1];
      WriteBytesConsistent(s, init, before, input, col);
      WriteBytesStep(s, bs, before, input, col);
    }
  }

  /** The inductive step of `WriteBytesConsistent`: the last byte of `bs`. */
  lemma WriteBytesStep(s: Snapshot, bs: seq<Byte>, before: seq<Byte>, input: seq<Byte>, col: nat)
    requires |bs| > 0 && Consistent(WriteBytes(s, bs[..|bs| - 1]), before, input + bs[..|bs| - 1], col)
    ensures Consistent(WriteBytes(s, bs), before, input + bs, col)
  {
    var init := bs[..|bs| - 1];
    var cur := WriteBytes(s, init);
    assert WriteBytes(s, bs) == StepByte(cur, bs[|bs| - 1]);
    PrefixSnoc(input, bs, |bs| - 1);
    assert bs[..|bs|] == bs;
    StepByteConsistent(cur, bs[|bs| - 1], before, input + init, col);
  }

  /** The text `terminate` adds: the padded group of the held bytes, then a LF if the line is full. */
  lemma TerminatedText(s: Snapshot)
    requires |s.held| <= 2
    ensures var t := Terminated(s);
      t.sent + t.buffered == s.sent + s.buffered + (if s.held == [] then [] else EncodeGroup(s.held) + Break(s.colNo))
      && t.colNo == (if s.held == [] then s.colNo else NextColumn(s.colNo))
  {
    if |s.held| == 1 {
      SingleDigits(s.held[0]);
      assert s.held == [s.held[0]];
    } else if |s.held| == 2 {
      PairDigits(s.held[0], s.held[1]);
      assert s.held == [s.held[0], s.held[1]];
    }
  }

  /** After `terminate` all written bytes are out as text, and a new text starts at the column reached. */
  lemma TerminateLaid(s: Snapshot, before: seq<Byte>, whole: seq<Byte>, col: nat)
    requires |s.held| <= 2 && |whole| % 3 == 0 && Laid(s, before, whole, col)
    ensures Terminated(s).colNo == ColumnAfter(whole + s.held, col)
    ensures Laid(Terminated(s), before + StreamText(whole + s.held, col), [], Terminated(s).colNo)
  {
    if |s.held| == 0 {
      assert whole + s.held == whole;
      LaidRestart(s, before, whole, col);
    } else {
      PaddedStep(s, before, whole, col);
    }
  }

  /** The padded group of one or two held bytes goes out. */
  lemma PaddedStep(s: Snapshot, before: seq<Byte>, whole: seq<Byte>, col: nat)
    requires 1 <= |s.held| <= 2 && |whole| % 3 == 0 && Laid(s, before, whole, col)
    ensures Terminated(s).colNo == ColumnAfter(whole + s.held, col)
    ensures Laid(Terminated(s), before + StreamText(whole + s.held, col), [], Terminated(s).colNo)
  {
    if |s.held| == 1 {
      SingleDigits(s.held[0]);
      assert s.held == [s.held[0]];
    } else {
      PairDigits(s.held[0], s.held[1]);
      assert s.held == [s.held[0], s.held[1]];
    }
    LaidHeld(s, before, whole, col, []);
    LaidEmit(s.(held := []), before, whole, col, s.held);
    LaidRestart(Terminated(s), before, whole + s.held, col);
  }

  /** `flush` keeps the layout: the text moves from the buffer to the underlying stream. */
  lemma LaidFlushed(s: Snapshot, before: seq<Byte>, whole: seq<Byte>, col: nat)
    requires Laid(s, before, whole, col)
    ensures Laid(Flushed(s), before, whole, col)
  {
    assert Flushed(s).sent + Flushed(s).buffered == s.sent + s.buffered;
  }

  /** The invariant from its two halves: a whole number of laid-out groups, then the held bytes. */
  lemma ConsistentSplit(s: Snapshot, before: seq<Byte>, whole: seq<Byte>, col: nat)
    requires |s.held| <= 2 && |whole| % 3 == 0 && Laid(s, before, whole, col)
    ensures Consistent(s, before, whole + s.held, col)
  {
    var input := whole + s.held;
    DivParts(|whole|, |whole| / 3, 0, 3);
    DivParts(|input|, |whole| / 3, |s.held|, 3);
    assert input[..|input| - |s.held|] == whole;
    assert input[|input| - |s.held|..] == s.held;
  }

  /** The invariant split into its two halves. */
  lemma ConsistentJoin(s: Snapshot, before: seq<Byte>, input: seq<Byte>, col: nat)
    requires Consistent(s, before, input, col)
    ensures var whole := input[..|input| - |s.held|];
      input == whole + s.held && |whole| % 3 == 0 && Laid(s, before, whole, col)
  {
    var whole := input[..|input| - |s.held|];
    assert input == whole + s.held;
    DivParts(|input|, |input| / 3, |s.held|, 3);
    DivParts(|whole|, |input| / 3, 0, 3);
  }

  /** One step of `WriteBytes` over a prefix. */
  lemma WriteBytesSnoc(s: Snapshot, bs: seq<Byte>, i: nat)
    requires i < |bs|
    ensures WriteBytes(s, bs[..i + 1]) == StepByte(WriteBytes(s, bs[..i]), bs[i])
  {
    assert bs[..i + 1][..i] == bs[..i];
  }

  /** The input grows by one byte of `bs` at a time. */
  lemma PrefixSnoc(a: seq<Byte>, bs: seq<Byte>, i: nat)
    requires i < |bs|
    ensures a + bs[..i + 1] == a + bs[..i] + [bs[i]]
  {
    assert bs[..i + 1] == bs[..i] + [bs[i]];
  }

  /** With nothing held, three byte writes emit the quad of their accumulator. */
  lemma TripleStep(s: Snapshot, bs: seq<Byte>, i: nat, cur: Snapshot)
    requires i + 3 <= |bs| && cur == WriteBytes(s, bs[..i]) && cur.held == []
    ensures WriteBytes(s, bs[..i + 3]) == Emit(cur, Digits(Packed(bs[i], bs[i + 1], bs[i + 2])))
  {
    WriteBytesSnoc(s, bs, i);
    WriteBytesSnoc(s, bs, i + 1);
    WriteBytesSnoc(s, bs, i + 2);
    var one := cur.(held := [bs[i]]);
    var two := cur.(held := [bs[i], bs[i + 1]]);
    assert WriteBytes(s, bs[..i + 2]) == two;
    assert two.(held := []) == cur;
  }

  /** `b[off..off+len)`, empty when `len <= 0` (the array write then touches nothing). */
  function Span(a: seq<Byte>, off: int, len: int): (r: seq<Byte>)
    requires len > 0 ==> 0 <= off && off + len <= |a|
    ensures |r| == if len > 0 then len else 0
  {
    if len <= 0 then [] else a[off..off + len]
  }

  /** A new stream over a sink holding `w` has laid out nothing after `w`, at column 0. */
  lemma FreshConsistent(w: seq<Byte>)
    ensures Consistent(Snapshot([], 0, w, []), w, [], 0)
  {
    assert StreamText([], 0) == [];
  }

  /** `terminate` pads out the held bytes: the whole input is laid out and a new session starts. */
  lemma TerminateConsistent(s: Snapshot, before: seq<Byte>, input: seq<Byte>, col: nat)
    requires Consistent(s, before, input, col)
    ensures Terminated(s).colNo == ColumnAfter(input, col)
    ensures Consistent(Terminated(s), before + StreamText(input, col), [], Terminated(s).colNo)
  {
    ConsistentJoin(s, before, input, col);
    var whole := input[..|input| - |s.held|];
    TerminateLaid(s, before, whole, col);
    ConsistentSplit(Terminated(s), before + StreamText(input, col), [], Terminated(s).colNo);
    assert [] + Terminated(s).held == [];
  }

  /** `flush` moves the buffer to the sink and keeps the invariant. */
  lemma FlushedConsistent(s: Snapshot, before: seq<Byte>, input: seq<Byte>, col: nat)
    requires Consistent(s, before, input, col)
    ensures Consistent(Flushed(s), before, input, col) && Flushed(s).buffered == []
  {
    LaidFlushed(s, before, input[..|input| - |s.held|], col);
  }

  /** Terminating and flushing leaves in the sink exactly the earlier output and the layout of the input. */
  lemma ClosedText(s: Snapshot, before: seq<Byte>, input: seq<Byte>, col: nat)
    requires Consistent(s, before, input, col)
    ensures Flushed(Terminated(s)).sent == before + StreamText(input, col)
  {
    TerminateConsistent(s, before, input, col);
    FlushedConsistent(Terminated(s), before + StreamText(input, col), [], Terminated(s).colNo);
    assert StreamText([], Terminated(s).colNo) == [];
  }

  /** Writing `d` to a new stream over a sink holding `w` and closing it leaves `w` and then the layout of `d`. */
  lemma StreamSession(w: seq<Byte>, d: seq<Byte>)
    ensures Flushed(Terminated(WriteBytes(Snapshot([], 0, w, []), d))).sent == w + StreamText(d, 0)
  {
    FreshConsistent(w);
    WriteBytesConsistent(Snapshot([], 0, w, []), d, w, [], 0);
    assert [] + d == d;
    ClosedText(WriteBytes(Snapshot([], 0, w, []), d), w, d, 0);
  }

  // ---------------------------------------------------------------- the stream

  class Base64OutputStream {
    const out: Sink
    const buffer: array<Byte>
    var accum: int
    var bufferOffset: int
    var byteNo: int
    var colNo: nat
    /** The bytes packed in `_accum`. */
    ghost var held: seq<Byte>

    /** The stream's state as a value: held bytes, column, what the sink holds and what is buffered. */
    ghost function Snap(): Snapshot
      requires 0 <= bufferOffset <= buffer.Length
      reads this, out, buffer
    {
      Snapshot(held, colNo, out.written, buffer[..bufferOffset])
    }

    /**
     * `_byteNo` is 0, 1 or 2, `_accum` holds that many bytes in bits 23..8, and the buffer has room
     * for a quad and a LF.
     */
    ghost predicate Valid()
      reads this, out, buffer
    {
      buffer.Length == BUFFER_SIZE && 0 <= bufferOffset && bufferOffset + 5 <= buffer.Length
      && byteNo == |held| && |held| <= 2
      && (byteNo == 1 ==> accum == Packed(held[0], 0, 0))
      && (byteNo == 2 ==> accum == Packed(held[0], held[1], 0))
    }

    constructor (out: Sink)
      ensures Valid() && fresh(buffer) && this.out == out
      ensures Snap() == Snapshot([], 0, out.written, [])
    {
      this.out := out;
      buffer := new Byte[BUFFER_SIZE];
      accum := 0;
      bufferOffset := 0;
      byteNo := 0;
      colNo := 0;
      held := [];
    }

    /** A quad at `bo`, a LF when the column reaches 76, and a flush when fewer than five places are left. */
    method EmitAt(q: seq<Byte>, bo: int, col: nat) returns (bo': int, col': nat)
      requires buffer.Length == BUFFER_SIZE && |q| == 4 && 0 <= bo && bo + 5 <= buffer.Length
      modifies out, buffer
      ensures 0 <= bo' && bo' + 5 <= buffer.Length
      ensures var e := Emit(Snapshot([], col, old(out.written), old(buffer[..bo])), q);
        out.written == e.sent && buffer[..bo'] == e.buffered && col' == e.colNo
      ensures out.flushes == old(out.flushes) && out.closed == old(out.closed)
    {
      buffer[bo] := q[0];
      buffer[bo + 1] := q[1];
      buffer[bo + 2] := q[2];
      buffer[bo + 3] := q[3];
      assert buffer[..bo + 4] == old(buffer[..bo]) + q;
      bo' := bo + 4;
      col' := col + 4;
      if col' >= LINE_SIZE {
        buffer[bo'] := LF;
        assert buffer[..bo' + 1] == old(buffer[..bo]) + q + [LF];
        bo' := bo' + 1;
        col' := 0;
      }
      if bo' + 5 > buffer.Length {
        out.Write(buffer, 0, bo');
        bo' := 0;
      }
    }

    /** `write(int)`: cases 0 and 1 of the switch hold the byte, case 2 completes a triple. */
    method Write(b: int)
      requires Valid()
      modifies this, out, buffer
      ensures Valid() && Snap() == StepByte(old(Snap()), ByteOf(b))
      ensures out.flushes == old(out.flushes) && out.closed == old(out.closed)
    {
      var v := ByteOf(b);
      if byteNo < 2 {
        Hold(v);
      } else {
        Complete(v);
      }
    }

    /** Cases 0 and 1: the byte goes into bits 23..16 or 15..8 of `_accum` (the `|=` adds to bits still zero). */
    method Hold(v: Byte)
      requires Valid() && byteNo < 2
      modifies this
      ensures Valid() && Snap() == StepByte(old(Snap()), v)
    {
      if byteNo == 0 {
        accum := v as int * 0x1_0000;
        byteNo := 1;
      } else {
        accum := accum + v as int * 0x100;
        byteNo := 2;
      }
      held := held + [v];
    }

    /** Case 2: the third byte completes `_accum`, whose four digits go out. */
    method Complete(v: Byte)
      requires Valid() && byteNo == 2
      modifies this, out, buffer
      ensures Valid() && Snap() == StepByte(old(Snap()), v)
      ensures out.flushes == old(out.flushes) && out.closed == old(out.closed)
    {
      var a := accum + v as int;
      assert a == Packed(held[0], held[1], v);
      bufferOffset, colNo := EmitAt(Digits(a), bufferOffset, colNo);
      accum := a;
      byteNo := 0;
      held := [];
    }

    /**
     * `write(b, off, len)`: first single writes until nothing is held (the fall-through switch on
     * `_byteNo`), then whole triples encoded straight into the buffer, then single writes for the
     * rest (at most two bytes, which are held).
     */
    method WriteArray(b: array<Byte>, off: int, len: int)
      requires Valid() && b != buffer
      requires len > 0 ==> 0 <= off && off + len <= b.Length
      modifies this, out, buffer
      ensures Valid() && Snap() == WriteBytes(old(Snap()), Span(old(b[..]), off, len))
      ensures out.flushes == old(out.flushes) && out.closed == old(out.closed)
    {
      var data := b[..];
      ghost var bs := Span(data, off, len);
      ghost var s0 := Snap();
      var o := off;
      var l := off + len;
      var n := byteNo;
      if n == 1 && o < l {
        WriteNext(data[o], bs, o - off, s0);
        o := o + 1;
      }
      if (n == 1 || n == 2) && o < l {
        WriteNext(data[o], bs, o - off, s0);
        o := o + 1;
      }
      o := EncodeTriples(data, off, o, l, bs, s0);
      WriteTail(data, off, o, l, bs, s0);
    }

    /** The single writes after the triple loop, for the (at most two) bytes left over. */
    method WriteTail(b: seq<Byte>, off: int, o: int, l: int, ghost bs: seq<Byte>, ghost s0: Snapshot)
      requires Valid() && off <= o && o - off <= |bs|
      requires l - off > 0 ==> 0 <= off && l <= |b|
      requires bs == Span(b, off, l - off)
      requires Snap() == WriteBytes(s0, bs[..o - off])
      modifies this, out, buffer
      ensures Valid() && Snap() == WriteBytes(s0, bs)
      ensures out.flushes == old(out.flushes) && out.closed == old(out.closed)
    {
      var i := o;
      while i < l
        invariant off <= i && i - off <= |bs|
        invariant Valid() && Snap() == WriteBytes(s0, bs[..i - off])
        invariant out.flushes == old(out.flushes) && out.closed == old(out.closed)
      {
        WriteNext(b[i], bs, i - off, s0);
        i := i + 1;
      }
      assert bs[..i - off] == bs;
    }

    /** One single `write` of the array path: byte `v`, which is `bs[k]`. */
    method WriteNext(v: Byte, ghost bs: seq<Byte>, ghost k: nat, ghost s0: Snapshot)
      requires Valid() && k < |bs| && bs[k] == v
      requires Snap() == WriteBytes(s0, bs[..k])
      modifies this, out, buffer
      ensures Valid() && Snap() == WriteBytes(s0, bs[..k + 1])
      ensures out.flushes == old(out.flushes) && out.closed == old(out.closed)
    {
      WriteBytesSnoc(s0, bs, k);
      Write(v as int);
    }

    /** The buffer at `bo` and the column `col` are the state after the first `k` bytes of `bs`. */
    ghost predicate EncodedUpTo(bs: seq<Byte>, k: int, s0: Snapshot, held0: seq<Byte>, bo: int, col: nat)
      reads out, buffer
    {
      0 <= k <= |bs| && 0 <= bo && bo + 5 <= buffer.Length
      && Snapshot(held0, col, out.written, buffer[..bo]) == WriteBytes(s0, bs[..k])
    }

    /**
     * The triple loop of `write(b, off, len)`, from `o` on: each triple is encoded straight into
     * the buffer, with `_bufferOffset` and `_colNo` kept in the locals `bo` and `col`. Returns the
     * loop index, two past the first byte not encoded.
     */
    method TripleLoop(b: seq<Byte>, off: int, o: int, l: int, ghost bs: seq<Byte>, ghost s0: Snapshot,
                      ghost held0: seq<Byte>, bo0: int, col0: nat)
      returns (i: int, bo: int, col: nat)
      requires buffer.Length == BUFFER_SIZE
      requires l - off > 0 ==> 0 <= off && l <= |b|
      requires bs == Span(b, off, l - off) && off <= o && (held0 == [] || o - off == |bs|)
      requires EncodedUpTo(bs, o - off, s0, held0, bo0, col0)
      modifies out, buffer
      ensures o <= i - 2 && |bs| - 2 <= i - 2 - off && EncodedUpTo(bs, i - 2 - off, s0, held0, bo, col)
      ensures out.flushes == old(out.flushes) && out.closed == old(out.closed)
    {
      bo, col := bo0, col0;
      i := o + 2;
      while i < l
        invariant o <= i - 2 && (held0 == [] || i - 2 - off == |bs|)
        invariant EncodedUpTo(bs, i - 2 - off, s0, held0, bo, col)
        invariant out.flushes == old(out.flushes) && out.closed == old(out.closed)
      {
        bo, col := TripleRound(b, off, i, l, bs, s0, bo, col);
        i := i + 3;
      }
    }

    /** One round of the triple loop: bytes `b[i-2..i]`, which are `bs[i-2-off..i+1-off]`, become one quad. */
    method TripleRound(b: seq<Byte>, off: int, i: int, l: int, ghost bs: seq<Byte>, ghost s0: Snapshot, bo: int, col: nat)
      returns (bo': int, col': nat)
      requires buffer.Length == BUFFER_SIZE && 0 <= off && off + 2 <= i < l && l <= |b|
      requires bs == Span(b, off, l - off) && EncodedUpTo(bs, i - 2 - off, s0, [], bo, col)
      modifies out, buffer
      ensures EncodedUpTo(bs, i + 1 - off, s0, [], bo', col')
      ensures out.flushes == old(out.flushes) && out.closed == old(out.closed)
    {
      var k := i - 2 - off;
      assert bs[k] == b[i - 2] && bs[k + 1] == b[i - 1] && bs[k + 2] == b[i];
      TripleStep(s0, bs, k, Snapshot([], col, out.written, buffer[..bo]));
      var acc := Packed(b[i - 2], b[i - 1], b[i]);
      bo', col' := EmitAt(Digits(acc), bo, col);
    }

    /**
     * The triple loop of `write(b, off, len)` with its write-back of `_bufferOffset` and `_colNo`.
     * Returns the first byte not encoded.
     */
    method EncodeTriples(b: seq<Byte>, off: int, o: int, l: int, ghost bs: seq<Byte>, ghost s0: Snapshot)
      returns (p: int)
      requires Valid()
      requires l - off > 0 ==> 0 <= off && l <= |b|
      requires bs == Span(b, off, l - off) && off <= o && o - off <= |bs|
      requires Snap() == WriteBytes(s0, bs[..o - off])
      requires byteNo == 0 || o - off == |bs|
      modifies this, out, buffer
      ensures Valid() && o <= p && |bs| - 2 <= p - off <= |bs|
      ensures Snap() == WriteBytes(s0, bs[..p - off])
      ensures out.flushes == old(out.flushes) && out.closed == old(out.closed)
    {
      var i, bo, col := TripleLoop(b, off, o, l, bs, s0, held, bufferOffset, colNo);
      p := i - 2;
      bufferOffset, colNo := bo, col;
    }

    /** `terminate`: pad out the held bytes; a second call finds none held and emits nothing. */
    method Terminate()
      requires Valid()
      modifies this, out, buffer
      ensures Valid() && Snap() == Terminated(old(Snap()))
      ensures out.flushes == old(out.flushes) && out.closed == old(out.closed)
    {
      var q: seq<Byte>;
      if byteNo == 1 {
        q := Digits(accum)[..2] + [PAD, PAD];
      } else if byteNo == 2 {
        q := Digits(accum)[..3] + [PAD];
      } else {
        return;
      }
      bufferOffset, colNo := EmitAt(q, bufferOffset, colNo);
      byteNo := 0;
      held := [];
    }

    /** `flush`: the buffered quads go to the underlying stream, which is then flushed. */
    method Flush()
      requires Valid()
      modifies this, out
      ensures Valid() && Snap() == Flushed(old(Snap()))
      ensures out.flushes == old(out.flushes) + 1 && out.closed == old(out.closed)
    {
      if bufferOffset > 0 {
        out.Write(buffer, 0, bufferOffset);
        bufferOffset := 0;
      }
      out.Flush();
    }

    /** `close`: terminate, flush, and close the underlying stream. */
    method Close()
      requires Valid()
      modifies this, out, buffer
      ensures Valid() && Snap() == Flushed(Terminated(old(Snap())))
      ensures out.written == Flushed(Terminated(old(Snap()))).sent && out.closed
    {
      Terminate();
      Flush();
      out.Close();
    }
  }

  /**
   * Writing `d` to a new stream over an empty sink and closing it leaves RFC 4648 base64 of `d`
   * with a LF after every full line of 76 chars, the last line included when it is full, and none
   * after a shorter last line.
   */
  method EncodeThroughStream(d: seq<Byte>) returns (text: seq<Byte>)
    ensures text == Wrap(Encode(d), 0)
    ensures Unwrap(text) == Encode(d)
  {
    var sink := new Sink();
    var stream := new Base64OutputStream(sink);
    var a := new Byte[|d|](i requires 0 <= i < |d| => d[i]);
    assert a[..] == d;
    assert Span(a[..], 0, |d|) == d;
    StreamSession([], d);
    stream.WriteArray(a, 0, |d|);
    stream.Close();
    StreamTextIsWrapped(d, 0);
    StreamTextUnwrapped(d);
    text := sink.written;
  }
}
