/** The two halves of the Just4Trionic frame codec: `decodeFrame`, which turns
    the text of an incoming `w` line into a CAN frame, and the line that
    `sendManager` builds for an outgoing frame. */
module Codec {
  import opened Text

  /** A CAN frame as the bridge sees it: an identifier and its payload. The
      frame's length is the length of its payload. */
  datatype Frame = Frame(id: uint32, data: seq<byte>)

  /** Why a line does not decode (the errors `decodeFrame` returns). */
  datatype DecodeError =
    | BadIdentifier          // strconv.ParseUint rejected the first three bytes
    | InvalidByte(b: byte)   // hex.Decode met a byte that is not a hex digit
    | OddLength              // hex.Decode had one digit left over

  /** A decoding outcome. `Panic` marks the inputs on which the Go code indexes
      past the payload slice and panics instead of returning. */
  datatype Outcome<+T> = Ok(value: T) | Err(error: DecodeError) | Panic

  /** `n` zero bytes. */
  function ZeroBytes(n: nat): (z: seq<byte>)
  {
    seq(n, _ => 0)
  }

  /** hex.Decode(dst, src) with len(dst) == room. Pairs are decoded left to
      right; each pair's two bytes are checked before the pair is stored, and
      storing a pair beyond `room` panics. An odd byte left over after the
      pairs is an error. */
  function DecodeHexInto(room: nat, src: seq<byte>): (r: Outcome<seq<byte>>)
    ensures r.Ok? ==> |src| % 2 == 0 && |r.value| == |src| / 2 <= room
    decreases |src|
  {
    if |src| == 0 then Ok([])
    else if |src| == 1 then Err(if IsHexByte(src[0]) then OddLength else InvalidByte(src[0]))
    else if !IsHexByte(src[0]) then Err(InvalidByte(src[0]))
    else if !IsHexByte(src[1]) then Err(InvalidByte(src[1]))
    else if room == 0 then Panic
    else
      match DecodeHexInto(room - 1, src[2..])
      case Ok(rest) => Ok([HexByteValue(src[0]) * 16 + HexByteValue(src[1])] + rest)
      case Err(e) => Err(e)
      case Panic => Panic
  }

  /** The payload length `decodeFrame` reads: `buff[3]-0x30` computed on a
      byte, so it wraps modulo 256. */
  function DeclaredLength(s: seq<byte>): (n: byte)
    requires |s| >= 4
    ensures '0' as int <= s[3] <= '9' as int ==> n == s[3] - '0' as int
    ensures s[3] < '0' as int ==> n == s[3] + 256 - '0' as int
    ensures (n <= 8 && s[3] != '0' as int + n) ==> s[3] < '0' as int && n >= 208
  {
    (s[3] - '0' as int) % 256
  }

  /** `decodeFrame`: three hex digits of identifier, one length byte, then the
      payload in hex. The payload slice has the declared length; bytes the
      text does not supply stay zero. */
  function DecodeFrame(s: seq<byte>): (r: Outcome<Frame>)
    requires |s| >= 4
    ensures r.Ok? ==> AllHex(s[..3]) && r.value.id == HexNumber(s[..3]) < 0x1000
    ensures r.Ok? ==> |r.value.data| == DeclaredLength(s)
  {
    ParseThreeHexDigits(s[..3]);
    match ParseUintHex32(s[..3])
    case None => Err(BadIdentifier)
    case Some(id) =>
      var n := DeclaredLength(s);
      match DecodeHexInto(n, s[4..])
      case Ok(bytes) => Ok(Frame(id, bytes + ZeroBytes(n - |bytes|)))
      case Err(e) => Err(e)
      case Panic => Panic
  }

  /** The value of the i-th hex pair of `src`. */
  function PairValue(src: seq<byte>, i: nat): (v: byte)
    requires 2 * i + 1 < |src| && IsHexByte(src[2 * i]) && IsHexByte(src[2 * i + 1])
  {
    HexByteValue(src[2 * i]) * 16 + HexByteValue(src[2 * i + 1])
  }

  /** When the pairs fit in the destination, hex.Decode never panics; it
      succeeds exactly on an even run of hex digits, and then yields the
      value of each pair in order. */
  lemma {:induction false} DecodeHexFits(room: nat, src: seq<byte>)
    requires |src| / 2 <= room
    ensures !DecodeHexInto(room, src).Panic?
    ensures DecodeHexInto(room, src).Ok? <==> AllHex(src) && |src| % 2 == 0
    ensures DecodeHexInto(room, src).Ok? ==>
              forall i :: 0 <= i < |src| / 2 ==> DecodeHexInto(room, src).value[i] == PairValue(src, i)
    decreases |src|
  {
    if |src| >= 2 && IsHexByte(src[0]) && IsHexByte(src[1]) {
      DecodeHexFits(room - 1, src[2..]);
      var r := DecodeHexInto(room, src);
      if r.Ok? {
        var rest := DecodeHexInto(room - 1, src[2..]).value;
        forall i | 0 <= i < |src| / 2 ensures r.value[i] == PairValue(src, i) {
          if i > 0 {
            assert r.value[i] == rest[i - 1];
            assert src[2..][2 * (i - 1)] == src[2 * i];
            assert src[2..][2 * (i - 1) + 1] == src[2 * i + 1];
          }
        }
      }
      if AllHex(src) {
        assert AllHex(src[2..]);
      }
    }
  }

  /** The identifier fails to decode exactly when one of its three bytes is
      not a hex digit. */
  lemma IdentifierFailure(s: seq<byte>)
    requires |s| >= 4
    ensures DecodeFrame(s) == Err(BadIdentifier) <==> !AllHex(s[..3])
  {
    ParseThreeHexDigits(s[..3]);
    if AllHex(s[..3]) {
      var n := DeclaredLength(s);
      match DecodeHexInto(n, s[4..])
      case Ok(_) =>
      case Err(e) => assert e != BadIdentifier by { BadIdentifierOnlyFromIdentifier(n, s[4..]); }
      case Panic =>
    }
  }

  /** hex.Decode never reports an identifier error. */
  lemma {:induction false} BadIdentifierOnlyFromIdentifier(room: nat, src: seq<byte>)
    ensures DecodeHexInto(room, src) != Err(BadIdentifier)
    decreases |src|
  {
    if |src| >= 2 && IsHexByte(src[0]) && IsHexByte(src[1]) && room > 0 {
      BadIdentifierOnlyFromIdentifier(room - 1, src[2..]);
    }
  }

  /** A payload shorter than the declared length is not an error: the pairs
      present fill the front of the payload and the rest is zero. */
  lemma ShortPayloadZeroFilled(s: seq<byte>)
    requires |s| >= 4 && AllHex(s[..3])
    requires AllHex(s[4..]) && |s[4..]| % 2 == 0 && |s[4..]| / 2 <= DeclaredLength(s)
    ensures DecodeFrame(s).Ok?
    ensures var f := DecodeFrame(s).value;
            f.id == HexNumber(s[..3]) && |f.data| == DeclaredLength(s) &&
            (forall i :: 0 <= i < |s[4..]| / 2 ==> f.data[i] == PairValue(s[4..], i)) &&
            (forall i :: |s[4..]| / 2 <= i < |f.data| ==> f.data[i] == 0)
  {
    ParseThreeHexDigits(s[..3]);
    DecodeHexFits(DeclaredLength(s), s[4..]);
  }

  /** hex.Decode panics exactly when the source holds one more hex pair than
      the destination has room for, every pair before it being hex. */
  lemma {:induction false} DecodeHexOverrun(room: nat, src: seq<byte>)
    ensures DecodeHexInto(room, src).Panic? <==>
              2 * (room + 1) <= |src| && AllHex(src[..2 * (room + 1)])
    decreases room
  {
    if 2 <= |src| && IsHexByte(src[0]) && IsHexByte(src[1]) && room > 0 {
      DecodeHexOverrun(room - 1, src[2..]);
      if 2 * (room + 1) <= |src| {
        assert src[2..][..2 * room] == src[2 .. 2 * (room + 1)];
        if AllHex(src[..2 * (room + 1)]) {
          assert forall i :: 0 <= i < 2 * room ==> src[2..][..2 * room][i] == src[..2 * (room + 1)][i + 2];
        } else {
          var k :| 0 <= k < 2 * (room + 1) && !IsHexByte(src[..2 * (room + 1)][k]);
          assert src[2..][..2 * room][k - 2] == src[k];
        }
      }
    } else if 2 * (room + 1) <= |src| && (!IsHexByte(src[0]) || !IsHexByte(src[1])) {
      assert src[..2 * (room + 1)][0] == src[0] && src[..2 * (room + 1)][1] == src[1];
    }
  }

  /** `decodeFrame` panics exactly when the identifier parses and the payload
      holds more hex pairs than the declared length. */
  lemma DecodeFramePanics(s: seq<byte>)
    requires |s| >= 4
    ensures DecodeFrame(s).Panic? <==>
              AllHex(s[..3]) && 2 * (DeclaredLength(s) + 1) <= |s| - 4 &&
              AllHex(s[4..][..2 * (DeclaredLength(s) + 1)])
  {
    ParseThreeHexDigits(s[..3]);
    DecodeHexOverrun(DeclaredLength(s), s[4..]);
  }

  /** "0053AABBCCDDE", the body of the line `w0053AABBCCDDEE`: three bytes
      declared, a fourth pair `DD` present, so `decodeFrame` panics. */
  lemma OverrunExample()
    ensures DecodeFrame(['0' as int, '0' as int, '5' as int, '3' as int, 'A' as int, 'A' as int, 'B' as int,
                         'B' as int, 'C' as int, 'C' as int, 'D' as int, 'D' as int, 'E' as int]) == Panic
  {
    var s: seq<byte> := ['0' as int, '0' as int, '5' as int, '3' as int, 'A' as int, 'A' as int, 'B' as int,
                         'B' as int, 'C' as int, 'C' as int, 'D' as int, 'D' as int, 'E' as int];
    DecodeFramePanics(s);
    assert DeclaredLength(s) == 3;
    assert AllHex(s[..3]);
    assert AllHex(s[4..][..8]);
  }

  /** The identifier is read as hex in either case and keeps its leading
      zeros: "0050" is frame 0x005 and "7E80" frame 0x7E8, both empty. */
  lemma IdentifierExamples()
    ensures DecodeFrame(['0' as int, '0' as int, '5' as int, '0' as int]) == Ok(Frame(0x005, []))
    ensures DecodeFrame(['7' as int, 'E' as int, '8' as int, '0' as int]) == Ok(Frame(0x7E8, []))
  {
    var a: seq<byte> := ['0' as int, '0' as int, '5' as int, '0' as int];
    var b: seq<byte> := ['7' as int, 'E' as int, '8' as int, '0' as int];
    var ia, ib := a[..3], b[..3];
    assert ia[..2] == a[..2] && ia[..2][..1] == a[..1] && a[..1][..0] == [];
    assert ib[..2] == b[..2] && ib[..2][..1] == b[..1] && b[..1][..0] == [];
    assert HexNumber(a[..1]) == 0 && HexNumber(a[..2]) == 0 && HexNumber(ia) == 0x005;
    assert HexNumber(b[..1]) == 0x7 && HexNumber(b[..2]) == 0x7E && HexNumber(ib) == 0x7E8;
    ShortPayloadZeroFilled(a);
    ShortPayloadZeroFilled(b);
  }

  // ---------------------------------------------------------------------
  // Encoding
  // ---------------------------------------------------------------------

  /** The "00" pairs `sendManager` appends for payloads shorter than 8 bytes. */
  function Padding(len: nat): (p: string)
    ensures forall i :: 0 <= i < |p| ==> p[i] == '0'
    ensures len <= 8 ==> 2 * len + |p| == 16
    ensures len >= 8 ==> p == ""
  {
    if len >= 8 then "" else Zeros(8 - len)
  }

  /** "00" repeated k times. */
  function Zeros(k: nat): (z: string)
    ensures |z| == 2 * k
    ensures forall i :: 0 <= i < |z| ==> z[i] == '0'
  {
    if k == 0 then "" else Zeros(k - 1) + "00"
  }

  /** The line `sendManager` writes for a frame: "t", the identifier in
      lowercase hex without leading zeros, the payload length in decimal, the
      payload in hex, zero padding up to 8 bytes, and a carriage return. */
  function FrameLine(v: Frame): (line: string)
    ensures |line| == 2 + |FormatHex(v.id)| + |Decimal(|v.data|)| + (if |v.data| <= 8 then 16 else 2 * |v.data|)
    ensures line[0] == 't' && line[|line| - 1] == '\r'
  {
    "t" + FormatHex(v.id) + Decimal(|v.data|) + HexEncode(v.data) + Padding(|v.data|) + "\r"
  }

  /** The loop in `sendManager` that builds the line with `+=`. */
  method EncodeFrame(v: Frame) returns (f: string)
    ensures f == FrameLine(v)
  {
    f := "t" + FormatHex(v.id) + Decimal(|v.data|) + HexEncode(v.data);
    ghost var head := f;
    var i := |v.data|;
    while i < 8
      invariant |v.data| <= i
      invariant i < 8 ==> f == head + Zeros(i - |v.data|)
      invariant i >= 8 ==> f == head + Padding(|v.data|)
    {
      f := f + "00";
      i := i + 1;
    }
    f := f + "\r";
  }

  /** The line is plain ASCII text. */
  lemma FrameLineAscii(v: Frame)
    ensures IsAscii(FrameLine(v))
  {
    var head := "t" + FormatHex(v.id);
    assert IsAscii(head);
    var withLen := head + Decimal(|v.data|);
    assert IsAscii(withLen);
    var withData := withLen + HexEncode(v.data);
    assert IsAscii(withData);
    var padded := withData + Padding(|v.data|);
    assert IsAscii(padded);
    assert FrameLine(v) == padded + "\r";
  }

  /** For a payload of at most 8 bytes the payload section of the line is
      exactly 16 hex characters: the payload's own digits, then zeros. */
  lemma FrameLineShape(v: Frame)
    requires |v.data| <= 8
    ensures var line := FrameLine(v);
            var k := 1 + |FormatHex(v.id)| + |Decimal(|v.data|)|;
            |line| == k + 16 + 1 && line[0] == 't' && line[|line| - 1] == '\r' &&
            line[k .. k + 2 * |v.data|] == HexEncode(v.data) &&
            (forall i :: k + 2 * |v.data| <= i < k + 16 ==> line[i] == '0')
  {
    var line := FrameLine(v);
    var head := "t" + FormatHex(v.id) + Decimal(|v.data|);
    var k := |head|;
    var pad := Padding(|v.data|);
    assert line == head + HexEncode(v.data) + pad + "\r";
    assert line[k .. k + 2 * |v.data|] == HexEncode(v.data);
    forall i | k + 2 * |v.data| <= i < k + 16 ensures line[i] == '0' {
      assert line[i] == pad[i - k - 2 * |v.data|];
    }
  }

  /** Wire bytes of a byte payload's hex text decode back to that payload. */
  lemma {:induction false} HexEncodeRoundTrip(room: nat, data: seq<byte>)
    requires |data| <= room
    ensures IsAscii(HexEncode(data))
    ensures DecodeHexInto(room, Wire(HexEncode(data))) == Ok(data)
  {
    if data != [] {
      var hi, lo := data[0] / 16, data[0] % 16;
      HexCharRoundTrip(hi);
      HexCharRoundTrip(lo);
      HexEncodeRoundTrip(room - 1, data[1..]);
      var text := HexEncode(data);
      WireConcat([HexChar(hi), HexChar(lo)], HexEncode(data[1..]));
      var w := Wire(text);
      assert w[2..] == Wire(HexEncode(data[1..]));
      assert w[0] == HexChar(hi) as int && w[1] == HexChar(lo) as int;
      assert HexByteValue(w[0]) * 16 + HexByteValue(w[1]) == data[0];
      assert DecodeHexInto(room - 1, w[2..]) == Ok(data[1..]);
      assert [data[0]] + data[1..] == data;
    }
  }

  /** The characters of an encoded line after the 't' and before the
      padding: identifier digits, the length digit, the payload digits. */
  lemma LineText(v: Frame)
    requires 0x100 <= v.id <= 0xFFF && |v.data| <= 8
    ensures |FrameLine(v)| >= 5 + 2 * |v.data|
    ensures FrameLine(v)[1 .. 5 + 2 * |v.data|] == FormatHex(v.id) + Decimal(|v.data|) + HexEncode(v.data)
  {
    var n := |v.data|;
    FormatHexLength(v.id);
    var text := FormatHex(v.id) + Decimal(n) + HexEncode(v.data);
    assert |Decimal(n)| == 1;
    var head, tail := "t" + text, Padding(n) + "\r";
    assert |head| == 5 + 2 * n;
    var line := FrameLine(v);
    assert line == head + tail;
    assert line[1 .. 5 + 2 * n] == head[1..];
    assert head[1..] == text;
  }

  /** The part of an encoded line's bytes that the round trip hands back to
      the decoder. */
  lemma LineSection(v: Frame)
    requires 0x100 <= v.id <= 0xFFF && |v.data| <= 8
    ensures IsAscii(FrameLine(v)) && IsAscii(FormatHex(v.id)) && IsAscii(HexEncode(v.data))
    ensures Wire(FrameLine(v))[1 .. 5 + 2 * |v.data|]
            == Wire(FormatHex(v.id)) + ['0' as int + |v.data|] + Wire(HexEncode(v.data))
  {
    var n := |v.data|;
    var id, len, body := FormatHex(v.id), Decimal(n), HexEncode(v.data);
    FrameLineAscii(v);
    LineText(v);
    assert len == [DigitChar(n)];
    assert Wire(len) == ['0' as int + n];
    WireSlice(FrameLine(v), 1, 5 + 2 * n);
    assert Wire(FrameLine(v))[1 .. 5 + 2 * n] == Wire(id + len + body);
    WireConcat(id, len);
    WireConcat(id + len, body);
  }

  /** Round trip: for an identifier of three hex digits and a payload of at
      most 8 bytes, the bytes of the encoded line without its leading 't',
      its zero padding and its carriage return decode to the same frame. */
  lemma EncodeDecodeRoundTrip(v: Frame)
    requires 0x100 <= v.id <= 0xFFF && |v.data| <= 8
    ensures IsAscii(FrameLine(v))
    ensures DecodeFrame(Wire(FrameLine(v))[1 .. 5 + 2 * |v.data|]) == Ok(v)
  {
    var n := |v.data|;
    LineSection(v);
    FormatHexLength(v.id);
    FormatHexRoundTrip(v.id);
    HexEncodeRoundTrip(n, v.data);
    var s := Wire(FrameLine(v))[1 .. 5 + 2 * n];
    var idw := Wire(FormatHex(v.id));
    assert s[..3] == idw;
    assert s[4..] == Wire(HexEncode(v.data));
    assert DeclaredLength(s) == n;
    ParseThreeHexDigits(s[..3]);
    assert ParseUintHex32(s[..3]) == Some(v.id);
    assert v.data + ZeroBytes(0) == v.data;
  }

  /** The encoder drops leading zeros: an identifier below 0x100 is written
      with fewer than the three digits the decoder reads. */
  lemma ShortIdentifierLosesDigits(v: Frame)
    requires v.id < 0x100
    ensures |FormatHex(v.id)| < 3
  {
    FormatHexLength(v.id);
  }

  /** The frame 0x7E8 [02 10 01] is written as "t7e83" followed by "021001",
      ten padding zeros and a carriage return. */
  lemma EncodeExample()
    ensures FrameLine(Frame(0x7E8, [0x02, 0x10, 0x01])) == "t7e83" + "021001" + "0000000000" + "\r"
  {
    assert FormatHex(0x7E8) == "7e8";
    assert HexEncode([0x02, 0x10, 0x01]) == "021001";
    assert Decimal(3) == "3";
    assert Padding(3) == "0000000000";
  }
}
