/** The read side of the Just4Trionic bridge: `parse` turns the bytes read
    from the serial port into lines, and each completed `w` line into a frame
    on the 10-slot inbound queue. The line buffer persists across reads, so the
    framer is a left-to-right fold of one per-byte step over everything read. */
module Framer {
  import opened Text
  import opened Codec

  /** Room in the inbound queue (`make(chan gocan.CANFrame, 10)`). */
  const Capacity: nat := 10

  /** The tag that marks a frame line. */
  const Tag: byte := 'w' as int

  /** What the read side holds between bytes: the line assembled so far, the
      frames queued and not yet received, and whether the reader has panicked
      (in Go this ends the whole process, so nothing happens afterwards). */
  datatype Reader = Reader(buff: seq<byte>, recv: seq<Frame>, crashed: bool)

  /** What a reader in working order looks like: the queue is within its
      capacity, no LF is ever stored, and a line never starts with CR. */
  predicate Valid(s: Reader)
  {
    |s.recv| <= Capacity && LF !in s.buff && (s.buff != [] ==> s.buff[0] != CR)
  }

  /** The non-blocking send on the inbound queue: a frame that finds the
      queue full is dropped. */
  function Enqueue(q: seq<Frame>, f: Frame): (r: seq<Frame>)
    ensures q <= r && |r| <= |q| + 1
    ensures |r| == |q| + 1 <==> |q| < Capacity
    ensures |r| == |q| + 1 ==> r[|q|] == f
    ensures |q| <= Capacity ==> |r| <= Capacity
  {
    if |q| < Capacity then q + [f] else q
  }

  /** The text `parse` hands to `decodeFrame`: the line without its leading
      tag and without its last byte (`by[1 : buff.Len()-1]`). */
  function LineBody(line: seq<byte>): (body: seq<byte>)
    requires |line| >= 2
    ensures [line[0]] + body + [line[|line| - 1]] == line
  {
    line[1 .. |line| - 1]
  }

  /** The identifier bytes `decodeFrame` reads (`buff[0:3]` of the body) that
      lie inside the line. For a line of fewer than four bytes the body slice
      is cut inside the buffer's capacity, so ParseUint also reads bytes left
      over from earlier lines past the line's end. */
  function IdentifierBytes(line: seq<byte>): (id: seq<byte>)
    requires |line| >= 2
    ensures |id| == (if |line| < 4 then |line| - 1 else 3)
    ensures forall i :: 0 <= i < |id| ==> id[i] == line[i + 1]
  {
    line[1 .. if |line| < 4 then |line| else 4]
  }

  /** What happens when LF completes a non-empty line. A line that is not a
      frame line is discarded. A frame line that decodes is queued (or dropped
      when the queue is full) and the buffer is cleared. A decoding error
      leaves everything as it was: the `continue` skips both resets.
      Panics: a one-byte line (`by[1:0]`); a line of fewer than six bytes
      whose identifier reads as hex, since `buff[3]` then lies past the body;
      a payload that overruns the frame. */
  function Dispatch(s: Reader): (r: Reader)
    requires s.buff != []
    ensures s.recv <= r.recv && |r.recv| <= |s.recv| + 1
    ensures r.crashed || r.buff == [] || r == s
  {
    var line := s.buff;
    if line[0] != Tag then s.(buff := [])
    else if |line| == 1 then s.(crashed := true)
    else if |line| < 6 then
      if AllHex(IdentifierBytes(line)) then s.(crashed := true) else s
    else
      match DecodeFrame(LineBody(line))
      case Ok(f) => s.(buff := [], recv := Enqueue(s.recv, f))
      case Err(_) => s
      case Panic => s.(crashed := true)
  }

  /** A frame line that `decodeFrame` rejects with an error. */
  predicate DecodeFails(line: seq<byte>)
  {
    |line| >= 2 && line[0] == Tag &&
    if |line| < 6 then !AllHex(IdentifierBytes(line)) else DecodeFrame(LineBody(line)).Err?
  }

  /** A completed line leaves the reader exactly as it was iff it is a frame
      line that fails to decode; a failure on the identifier bytes inside the
      line is one whatever the line's length. */
  lemma DispatchKeepsOnlyFailures(s: Reader)
    requires !s.crashed && s.buff != []
    ensures Dispatch(s) == s <==> DecodeFails(s.buff)
    ensures |s.buff| >= 2 && s.buff[0] == Tag && !AllHex(IdentifierBytes(s.buff)) ==> Dispatch(s) == s
  {
    var line := s.buff;
    if |line| >= 6 && line[0] == Tag {
      IdentifierFailure(LineBody(line));
      assert LineBody(line)[..3] == IdentifierBytes(line);
    }
  }

  /** Exactly when completing a line panics. */
  lemma DispatchCrashes(s: Reader)
    requires !s.crashed && s.buff != []
    ensures Dispatch(s).crashed <==>
              s.buff[0] == Tag &&
              (|s.buff| == 1 ||
               (2 <= |s.buff| < 6 && AllHex(IdentifierBytes(s.buff))) ||
               (|s.buff| >= 6 && DecodeFrame(LineBody(s.buff)).Panic?))
  {
  }

  /** `w` CR LF and `wZZZ` CR LF fail on the identifier and stay in the
      buffer; `w123` CR LF reads a hex identifier and then panics on `buff[3]`. */
  lemma ShortLineExamples()
    ensures Parse(Reader([], [], false), [Tag, CR] + [LF]) == Reader([Tag, CR], [], false)
    ensures Parse(Reader([], [], false), [Tag, 'Z' as int, 'Z' as int, 'Z' as int, CR] + [LF]) ==
            Reader([Tag, 'Z' as int, 'Z' as int, 'Z' as int, CR], [], false)
    ensures Parse(Reader([], [], false), [Tag, '1' as int, '2' as int, '3' as int, CR] + [LF]).crashed
  {
    var e := Reader([], [], false);
    var l1, l2, l3 := [Tag, CR], [Tag, 'Z' as int, 'Z' as int, 'Z' as int, CR], [Tag, '1' as int, '2' as int, '3' as int, CR];
    CompletedLine(e, l1);
    CompletedLine(e, l2);
    CompletedLine(e, l3);
    assert !IsHexByte(IdentifierBytes(l1)[0]);
    assert !IsHexByte(IdentifierBytes(l2)[0]);
    assert IdentifierBytes(l3) == ['1' as int, '2' as int, '3' as int];
  }

  /** A line completed by LF on an empty buffer is dispatched as a whole. */
  lemma CompletedLine(s: Reader, line: seq<byte>)
    requires !s.crashed && s.buff == []
    requires line != [] && line[0] != CR && line[0] != LF && LF !in line
    ensures Parse(s, line + [LF]) == Dispatch(s.(buff := line))
  {
    ParseChunks(s, [line[0]], line[1..]);
    assert [line[0]] + line[1..] == line;
    RunOne(Step, s, line[0]);
    assert s.buff + [line[0]] == [line[0]];
    assert Parse(s, [line[0]]) == s.(buff := [line[0]]);
    Accumulates(s.(buff := [line[0]]), line[1..]);
    assert Parse(s, line) == s.(buff := line);
    ParseChunks(s, line, [LF]);
    RunOne(Step, Parse(s, line), LF);
  }

  /** One iteration of the loop in `parse`. Only LF can queue a frame, and a
      reader that has panicked stays as it is. */
  function Step(s: Reader, b: byte): (r: Reader)
    ensures s.crashed ==> r == s
    ensures b != LF ==> r.recv == s.recv && r.crashed == s.crashed
    ensures s.recv <= r.recv && |r.recv| <= |s.recv| + 1
  {
    if s.crashed then s
    else if (b == CR || b == LF) && s.buff == [] then s
    else if b == LF then Dispatch(s)
    else s.(buff := s.buff + [b])
  }

  /** A fold of a per-byte step over a run of bytes, first byte first. */
  function Run(step: (Reader, byte) -> Reader, s: Reader, bytes: seq<byte>): Reader
    decreases |bytes|
  {
    if bytes == [] then s else step(Run(step, s, bytes[..|bytes| - 1]), bytes[|bytes| - 1])
  }

  /** The framer: everything `parse` does with the bytes it is given. */
  function Parse(s: Reader, bytes: seq<byte>): Reader
  {
    Run(Step, s, bytes)
  }

  // ---------------------------------------------------------------------
  // Properties of the framer
  // ---------------------------------------------------------------------

  lemma {:induction false} RunChunks(step: (Reader, byte) -> Reader, s: Reader, a: seq<byte>, b: seq<byte>)
    ensures Run(step, s, a + b) == Run(step, Run(step, s, a), b)
    decreases |b|
  {
    if b == [] {
      assert a + b == a;
    } else {
      var last := b[|b| - 1];
      assert (a + b)[..|a + b| - 1] == a + b[..|b| - 1];
      assert Run(step, s, a + b) == step(Run(step, s, a + b[..|b| - 1]), last);
      RunChunks(step, s, a, b[..|b| - 1]);
    }
  }

  lemma RunOne(step: (Reader, byte) -> Reader, s: Reader, b: byte)
    ensures Run(step, s, [b]) == step(s, b)
  {
    assert [b][..0] == [];
  }

  /** Chunk independence: reading A and then B leaves the same buffer and
      queue as reading A ++ B in one go, wherever the split falls. */
  lemma ParseChunks(s: Reader, a: seq<byte>, b: seq<byte>)
    ensures Parse(s, a + b) == Parse(Parse(s, a), b)
  {
    RunChunks(Step, s, a, b);
  }

  /** Once the reader has panicked nothing changes. */
  lemma {:induction false} CrashIsFinal(s: Reader, bytes: seq<byte>)
    requires s.crashed
    ensures Parse(s, bytes) == s
    decreases |bytes|
  {
    if bytes != [] {
      CrashIsFinal(s, bytes[..|bytes| - 1]);
    }
  }

  /** A reader that panics part-way through a chunk ignores the rest of it. */
  lemma CrashedRest(s: Reader, bytes: seq<byte>, j: nat)
    requires j <= |bytes| && Parse(s, bytes[..j]).crashed
    ensures Parse(s, bytes) == Parse(s, bytes[..j])
  {
    assert bytes == bytes[..j] + bytes[j..];
    ParseChunks(s, bytes[..j], bytes[j..]);
    CrashIsFinal(Parse(s, bytes[..j]), bytes[j..]);
  }

  lemma StepPreserves(s: Reader, b: byte)
    requires Valid(s)
    ensures Valid(Step(s, b)) && s.recv <= Step(s, b).recv
  {
  }

  /** Parsing keeps the reader valid (queue bounded by 10, no LF stored, no
      line starting with CR) and only ever appends to the queue, so frames
      stay in the order their lines were completed. */
  lemma {:induction false} ParsePreserves(s: Reader, bytes: seq<byte>)
    requires Valid(s)
    ensures Valid(Parse(s, bytes)) && s.recv <= Parse(s, bytes).recv
    decreases |bytes|
  {
    if bytes != [] {
      var prev := bytes[..|bytes| - 1];
      ParsePreserves(s, prev);
      StepPreserves(Parse(s, prev), bytes[|bytes| - 1]);
    }
  }

  /** CR and LF arriving while the buffer is empty are ignored. */
  lemma {:induction false} IgnoredWhileEmpty(s: Reader, bytes: seq<byte>)
    requires s.buff == []
    requires forall i :: 0 <= i < |bytes| ==> bytes[i] == CR || bytes[i] == LF
    ensures Parse(s, bytes) == s
    decreases |bytes|
  {
    if bytes != [] {
      IgnoredWhileEmpty(s, bytes[..|bytes| - 1]);
    }
  }

  /** Once a line has begun, every byte but LF, CR included, is appended. */
  lemma {:induction false} Accumulates(s: Reader, bytes: seq<byte>)
    requires !s.crashed && s.buff != [] && LF !in bytes
    ensures Parse(s, bytes) == s.(buff := s.buff + bytes)
    decreases |bytes|
  {
    if bytes != [] {
      var prev := bytes[..|bytes| - 1];
      Accumulates(s, prev);
      assert s.buff + prev + [bytes[|bytes| - 1]] == s.buff + bytes;
    }
  }

  /** The outcome of a completed line, read from an empty buffer: a line
      that is not a frame line changes nothing; a frame line that decodes
      is queued when there is room and dropped otherwise, and the buffer is
      cleared; a frame line that fails to decode stays in the buffer. */
  lemma LineOutcomes(s: Reader, line: seq<byte>)
    requires !s.crashed && s.buff == []
    requires line != [] && line[0] != CR && line[0] != LF && LF !in line
    ensures line[0] != Tag ==> Parse(s, line + [LF]) == s
    ensures line[0] == Tag && |line| >= 6 && DecodeFrame(LineBody(line)).Ok? ==>
              Parse(s, line + [LF]) ==
              s.(recv := if |s.recv| < Capacity then s.recv + [DecodeFrame(LineBody(line)).value] else s.recv)
    ensures line[0] == Tag && |line| >= 6 && DecodeFrame(LineBody(line)).Err? ==>
              Parse(s, line + [LF]) == s.(buff := line)
  {
    ParseChunks(s, [line[0]], line[1..]);
    assert [line[0]] + line[1..] == line;
    var first := Parse(s, [line[0]]);
    RunOne(Step, s, line[0]);
    Accumulates(first, line[1..]);
    assert Parse(s, line) == s.(buff := line);
    assert (line + [LF])[..|line|] == line;
  }

  /** What the adapter sends back for a frame the bridge encoded: a `w`, the
      encoded line without its `t`, zero padding and CR, then CR LF. Read
      from an empty buffer with room in the queue, it yields that frame. */
  lemma EncodedFrameArrives(s: Reader, v: Frame)
    requires !s.crashed && s.buff == [] && |s.recv| < Capacity
    requires 0x100 <= v.id <= 0xFFF && |v.data| <= 8
    ensures IsAscii(FrameLine(v))
    ensures Parse(s, [Tag] + Wire(FrameLine(v))[1 .. 5 + 2 * |v.data|] + [CR, LF]) == s.(recv := s.recv + [v])
  {
    LineSection(v);
    EncodeDecodeRoundTrip(v);
    var text := Wire(FrameLine(v))[1 .. 5 + 2 * |v.data|];
    var line := [Tag] + text + [CR];
    assert LineBody(line) == text;
    assert LF !in text;
    assert line + [LF] == [Tag] + text + [CR, LF];
    LineOutcomes(s, line);
  }

  // ---------------------------------------------------------------------
  // A decoding failure poisons the buffer
  // ---------------------------------------------------------------------

  /** Bytes appended after a CR to a payload hex.Decode rejects are rejected
      too: the CR itself is not a hex digit. */
  lemma {:induction false} BodyFailureExtends(room: nat, b1: seq<byte>, y: seq<byte>)
    requires DecodeHexInto(room, b1).Err?
    ensures DecodeHexInto(room, b1 + [CR] + y).Err?
    decreases |b1|
  {
    var b2 := b1 + [CR] + y;
    if |b1| == 1 {
      assert b2[1] == CR;
    } else {
      assert b2[0] == b1[0] && b2[1] == b1[1];
      if IsHexByte(b1[0]) && IsHexByte(b1[1]) {
        assert b2[2..] == b1[2..] + [CR] + y;
        BodyFailureExtends(room - 1, b1[2..], y);
      }
    }
  }

  /** A frame line whose identifier bytes inside the line are not all hex
      keeps failing on its identifier whatever is appended to it. */
  lemma IdentifierFailureExtends(bad: seq<byte>, x: seq<byte>)
    requires |bad| >= 2 && bad[0] == Tag && !AllHex(IdentifierBytes(bad))
    ensures DecodeFails(bad + x)
  {
    var line := bad + x;
    var k :| 0 <= k < |IdentifierBytes(bad)| && !IsHexByte(IdentifierBytes(bad)[k]);
    assert IdentifierBytes(line)[k] == bad[k + 1];
    if |line| >= 6 {
      IdentifierFailure(LineBody(line));
      assert LineBody(line)[..3] == IdentifierBytes(line);
    }
  }

  /** A failed frame line that ended in CR still fails to decode after any
      bytes are appended to it, whatever its length. */
  lemma FailureExtends(bad: seq<byte>, x: seq<byte>)
    requires DecodeFails(bad) && bad[|bad| - 1] == CR
    ensures DecodeFails(bad + x)
  {
    var line := bad + x;
    if x == [] {
      assert line == bad;
    } else if |bad| < 6 {
      IdentifierFailureExtends(bad, x);
    } else {
      var d1 := LineBody(bad);
      var d2 := LineBody(line);
      assert d2 == d1 + [CR] + x[..|x| - 1];
      assert d2[..3] == d1[..3];
      assert DeclaredLength(d2) == DeclaredLength(d1);
      if ParseUintHex32(d1[..3]).Some? {
        assert d2[4..] == d1[4..] + [CR] + x[..|x| - 1];
        BodyFailureExtends(DeclaredLength(d1), d1[4..], x[..|x| - 1]);
      }
    }
  }

  /** The source as written: once a CR-terminated frame line fails to decode,
      short lines included, it stays at the front of the buffer, every later
      line is appended to it, and no frame is ever queued again. */
  lemma {:induction false} DecodeFailureIsSticky(s: Reader, more: seq<byte>)
    requires !s.crashed && DecodeFails(s.buff) && s.buff[|s.buff| - 1] == CR
    ensures var t := Parse(s, more); t.recv == s.recv && !t.crashed && s.buff <= t.buff
    decreases |more|
  {
    if more != [] {
      var prev := more[..|more| - 1];
      DecodeFailureIsSticky(s, prev);
      var t := Parse(s, prev);
      var x := t.buff[|s.buff|..];
      assert t.buff == s.buff + x;
      if more[|more| - 1] == LF {
        FailureExtends(s.buff, x);
        DispatchKeepsOnlyFailures(t);
      }
    }
  }

  /** "wZZZ0" CR: a frame line whose identifier is not hex. */
  const MalformedLine: seq<byte> := [Tag, 'Z' as int, 'Z' as int, 'Z' as int, '0' as int, CR]

  /** "w1000" CR: frame 0x100 with no payload. */
  const GoodLine: seq<byte> := [Tag, '1' as int, '0' as int, '0' as int, '0' as int, CR]

  /** The malformed line followed by the good one, each ended by LF. */
  const MalformedThenGood: seq<byte> := MalformedLine + [LF] + GoodLine + [LF]

  lemma LinesDecode()
    ensures DecodeFrame(LineBody(GoodLine)) == Ok(Frame(0x100, []))
    ensures DecodeFrame(LineBody(MalformedLine)) == Err(BadIdentifier)
  {
    var body := LineBody(GoodLine);
    assert body == GoodLine[1..5];
    assert GoodLine[1] == '1' as int && GoodLine[2] == GoodLine[3] == GoodLine[4] == '0' as int;
    assert body == ['1' as int, '0' as int, '0' as int, '0' as int];
    var digits := body[..3];
    assert digits[..2][..1] == [0x31];
    assert HexNumber(digits[..2][..1]) == 1;
    assert HexNumber(digits[..2]) == 0x10;
    assert HexNumber(digits) == 0x100;
    assert DecodeHexInto(0, body[4..]) == Ok([]);
    var bad := LineBody(MalformedLine);
    assert bad[0] == 'Z' as int;
    IdentifierFailure(bad);
  }

  /** The good line alone yields its frame; after the malformed line it is
      lost, and so is every frame after it. */
  lemma StuckExample()
    ensures Parse(Reader([], [], false), GoodLine + [LF]).recv == [Frame(0x100, [])]
    ensures Parse(Reader([], [], false), MalformedThenGood).recv == []
  {
    var s := Reader([], [], false);
    LinesDecode();
    LineOutcomes(s, GoodLine);
    LineOutcomes(s, MalformedLine);
    assert MalformedThenGood == (MalformedLine + [LF]) + (GoodLine + [LF]);
    ParseChunks(s, MalformedLine + [LF], GoodLine + [LF]);
    DecodeFailureIsSticky(s.(buff := MalformedLine), GoodLine + [LF]);
  }

  // ---------------------------------------------------------------------
  // The evidently intended framer: every completed line clears the buffer
  // ---------------------------------------------------------------------

  /** Dispatch with the reset the decoding-failure path skips. */
  function DispatchCorrected(s: Reader): (r: Reader)
    requires s.buff != []
    ensures !r.crashed ==> r.buff == []
  {
    if DecodeFails(s.buff) then s.(buff := []) else Dispatch(s)
  }

  function StepCorrected(s: Reader, b: byte): Reader
  {
    if !s.crashed && b == LF && s.buff != [] then DispatchCorrected(s) else Step(s, b)
  }

  function ParseCorrected(s: Reader, bytes: seq<byte>): Reader
  {
    Run(StepCorrected, s, bytes)
  }

  /** Without LF the corrected framer does exactly what the original does. */
  lemma {:induction false} CorrectedAgreesWithinLine(s: Reader, bytes: seq<byte>)
    requires LF !in bytes
    ensures ParseCorrected(s, bytes) == Parse(s, bytes)
    decreases |bytes|
  {
    if bytes != [] {
      CorrectedAgreesWithinLine(s, bytes[..|bytes| - 1]);
    }
  }

  /** With the reset in place, a malformed line costs only itself: the next
      good line yields its frame. */
  lemma CorrectedRecovers(s: Reader, good: seq<byte>)
    requires !s.crashed && DecodeFails(s.buff)
    requires |s.recv| < Capacity
    requires |good| >= 6 && good[0] == Tag && LF !in good && DecodeFrame(LineBody(good)).Ok?
    ensures ParseCorrected(s, [LF] + good + [LF]) == Reader([], s.recv + [DecodeFrame(LineBody(good)).value], false)
  {
    var cleared := ParseCorrected(s, [LF]);
    RunOne(StepCorrected, s, LF);
    RunChunks(StepCorrected, s, [LF], good + [LF]);
    assert [LF] + good + [LF] == [LF] + (good + [LF]);
    RunChunks(StepCorrected, cleared, good, [LF]);
    CorrectedAgreesWithinLine(cleared, good);
    LineOutcomes(cleared, good);
    ParseChunks(cleared, good, [LF]);
  }

  /** On the same input as StuckExample the corrected framer delivers the
      good line's frame. */
  lemma CorrectedExample()
    ensures ParseCorrected(Reader([], [], false), MalformedThenGood).recv == [Frame(0x100, [])]
  {
    var s := Reader([], [], false);
    LinesDecode();
    CorrectedAgreesWithinLine(s, MalformedLine);
    LineOutcomes(s, MalformedLine);
    ParseChunks(s, MalformedLine, [LF]);
    RunOne(Step, Parse(s, MalformedLine), LF);
    assert Parse(s, MalformedLine) == s.(buff := MalformedLine);
    assert MalformedThenGood == MalformedLine + ([LF] + GoodLine + [LF]);
    RunChunks(StepCorrected, s, MalformedLine, [LF] + GoodLine + [LF]);
    CorrectedRecovers(s.(buff := MalformedLine), GoodLine);
  }
}
