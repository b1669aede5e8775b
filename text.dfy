/** Bytes, characters and the number formats the serial protocol relies on:
    the hexadecimal and decimal behaviour of Go's strconv and encoding/hex,
    restated over Dafny sequences. */
module Text {

  /** Go's `byte` (uint8). */
  type byte = x: int | 0 <= x < 256

  /** Go's `uint32`. */
  type uint32 = x: int | 0 <= x < 0x1_0000_0000

  datatype Option<+T> = None | Some(value: T)

  const CR: byte := 0x0D
  const LF: byte := 0x0A

  // ---------------------------------------------------------------------
  // Reading hexadecimal digits (bytes)
  // ---------------------------------------------------------------------

  /** The bytes both strconv (base 16) and encoding/hex accept as a digit. */
  predicate IsHexByte(b: byte)
  {
    ('0' as int <= b <= '9' as int) || ('a' as int <= b <= 'f' as int) || ('A' as int <= b <= 'F' as int)
  }

  function HexByteValue(b: byte): (v: nat)
    requires IsHexByte(b)
    ensures v < 16
  {
    if b <= '9' as int then b - '0' as int
    else if b >= 'a' as int then b - 'a' as int + 10
    else b - 'A' as int + 10
  }

  predicate AllHex(s: seq<byte>)
  {
    forall i :: 0 <= i < |s| ==> IsHexByte(s[i])
  }

  /** The value of a run of hex digits, most significant digit first. */
  function HexNumber(s: seq<byte>): nat
    requires AllHex(s)
  {
    if s == [] then 0 else HexNumber(s[..|s| - 1]) * 16 + HexByteValue(s[|s| - 1])
  }

  function Pow16(n: nat): nat
  {
    if n == 0 then 1 else 16 * Pow16(n - 1)
  }

  lemma {:induction false} Pow16Monotonic(m: nat, n: nat)
    requires m <= n
    ensures Pow16(m) <= Pow16(n)
    decreases n
  {
    if m < n {
      Pow16Monotonic(m, n - 1);
    }
  }

  /** At most eight hex digits fit in 32 bits. */
  lemma ShortHexFits(s: seq<byte>)
    requires AllHex(s)
    ensures |s| <= 8 ==> HexNumber(s) < 0x1_0000_0000
  {
    if |s| <= 8 {
      HexNumberBound(s);
      Pow16Monotonic(|s|, 8);
      assert Pow16(8) == 0x1_0000_0000;
    }
  }

  /** A run of n hex digits denotes a value below 16^n. */
  lemma {:induction false} HexNumberBound(s: seq<byte>)
    requires AllHex(s)
    ensures HexNumber(s) < Pow16(|s|)
  {
    if s != [] {
      HexNumberBound(s[..|s| - 1]);
    }
  }

  /** strconv.ParseUint(string(s), 16, 32): base 16 admits no sign, no "0x"
      prefix and no underscores, so it succeeds exactly on a non-empty run of
      hex digits whose value fits in 32 bits. */
  function ParseUintHex32(s: seq<byte>): (r: Option<uint32>)
    ensures r.Some? <==> s != [] && AllHex(s) && HexNumber(s) < 0x1_0000_0000
    ensures r.Some? ==> r.value == HexNumber(s) < Pow16(|s|)
    ensures |s| <= 8 ==> (r.Some? <==> s != [] && AllHex(s))
  {
    if s != [] && AllHex(s) then
      HexNumberBound(s);
      ShortHexFits(s);
      if HexNumber(s) < 0x1_0000_0000 then Some(HexNumber(s)) else None
    else None
  }

  /** Three bytes parse iff all three are hex digits: the 32-bit range check
      can never fail on them. */
  lemma ParseThreeHexDigits(s: seq<byte>)
    requires |s| == 3
    ensures ParseUintHex32(s).Some? <==> AllHex(s)
    ensures ParseUintHex32(s).Some? ==> ParseUintHex32(s).value < 0x1000
  {
    if AllHex(s) {
      HexNumberBound(s);
      assert Pow16(3) == 0x1000;
    }
  }

  // ---------------------------------------------------------------------
  // Writing hexadecimal and decimal text (characters)
  // ---------------------------------------------------------------------

  predicate IsLowerHexChar(c: char)
  {
    ('0' <= c <= '9') || ('a' <= c <= 'f')
  }

  function HexChar(d: nat): (c: char)
    requires d < 16
    ensures IsLowerHexChar(c)
  {
    if d < 10 then ('0' as int + d) as char else ('a' as int + d - 10) as char
  }

  function DigitChar(d: nat): (c: char)
    requires d < 10
    ensures '0' <= c <= '9'
  {
    ('0' as int + d) as char
  }

  /** strconv.FormatUint(n, 16): lowercase digits, no leading zeros, "0" for zero. */
  function FormatHex(n: nat): (s: string)
    ensures |s| >= 1
    ensures forall i :: 0 <= i < |s| ==> IsLowerHexChar(s[i])
  {
    if n < 16 then [HexChar(n)] else FormatHex(n / 16) + [HexChar(n % 16)]
  }

  /** strconv.Itoa and %d of a non-negative value. */
  function Decimal(n: nat): (s: string)
    ensures |s| >= 1
    ensures forall i :: 0 <= i < |s| ==> '0' <= s[i] <= '9'
  {
    if n < 10 then [DigitChar(n)] else Decimal(n / 10) + [DigitChar(n % 10)]
  }

  /** hex.EncodeToString: two lowercase digits per byte, high nibble first. */
  function HexEncode(data: seq<byte>): (s: string)
    ensures |s| == 2 * |data|
    ensures forall i :: 0 <= i < |s| ==> IsLowerHexChar(s[i])
  {
    if data == [] then "" else [HexChar(data[0] / 16), HexChar(data[0] % 16)] + HexEncode(data[1..])
  }

  // ---------------------------------------------------------------------
  // From text to the bytes on the wire
  // ---------------------------------------------------------------------

  predicate IsAscii(s: string)
  {
    forall i :: 0 <= i < |s| ==> s[i] as int < 128
  }

  /** Go's []byte(s) for ASCII text: one byte per character, its code. */
  function Wire(s: string): seq<byte>
    requires IsAscii(s)
  {
    seq(|s|, i requires 0 <= i < |s| => s[i] as int)
  }

  lemma WireConcat(a: string, b: string)
    requires IsAscii(a) && IsAscii(b)
    ensures IsAscii(a + b) && Wire(a + b) == Wire(a) + Wire(b)
  {
  }

  lemma WireSlice(s: string, a: nat, b: nat)
    requires IsAscii(s) && a <= b <= |s|
    ensures IsAscii(s[a..b]) && Wire(s)[a..b] == Wire(s[a..b])
  {
  }

  /** A lowercase hex character, read back as a byte, gives the digit it was made from. */
  lemma HexCharRoundTrip(d: nat)
    requires d < 16
    ensures HexChar(d) as int < 128 && IsHexByte(HexChar(d) as int)
    ensures HexByteValue(HexChar(d) as int) == d
  {
  }

  /** FormatHex and ParseUint (base 16) are inverse: the digits FormatHex
      writes, read back, give the number. */
  lemma {:induction false} FormatHexRoundTrip(n: nat)
    ensures IsAscii(FormatHex(n))
    ensures AllHex(Wire(FormatHex(n))) && HexNumber(Wire(FormatHex(n))) == n
  {
    var s := FormatHex(n);
    if n < 16 {
      HexCharRoundTrip(n);
    } else {
      FormatHexRoundTrip(n / 16);
      HexCharRoundTrip(n % 16);
      var w := Wire(s);
      WireConcat(FormatHex(n / 16), [HexChar(n % 16)]);
      assert w[..|w| - 1] == Wire(FormatHex(n / 16));
    }
  }

  /** FormatHex writes exactly three digits iff the value lies in 0x100..0xFFF:
      smaller identifiers lose their leading zeros. */
  lemma {:induction false} FormatHexLength(n: nat)
    ensures |FormatHex(n)| == 1 <==> n < 0x10
    ensures |FormatHex(n)| == 2 <==> 0x10 <= n < 0x100
    ensures |FormatHex(n)| == 3 <==> 0x100 <= n < 0x1000
  {
    if n >= 16 {
      FormatHexLength(n / 16);
    }
  }

  /** Decimal text is injective: different values print differently. */
  lemma {:induction false} DecimalInjective(a: nat, b: nat)
    requires Decimal(a) == Decimal(b)
    ensures a == b
  {
    if a >= 10 && b >= 10 {
      var da, db := Decimal(a), Decimal(b);
      assert da[..|da| - 1] == Decimal(a / 10);
      assert db[..|db| - 1] == Decimal(b / 10);
      DecimalInjective(a / 10, b / 10);
      assert DigitChar(a % 10) == da[|da| - 1] == DigitChar(b % 10);
    }
  }
}
