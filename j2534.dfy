/** The J2534 PassThru status codes and the Go errors `CheckError` maps
    them to. The numeric values of the codes follow SAE J2534-1: 0 for
    success and 0x01 to 0x1A for the twenty-six named errors. */
module J2534 {
  import opened Text

  /** Go's `uintptr` on a 64-bit target. */
  type uintptr = x: int | 0 <= x < 0x1_0000_0000_0000_0000

  /** The sentinel errors, one per named status code, plus `ErrUnknown`. Each
      is created once by errors.New, so two sentinels are the same error
      only when they are the same constructor. */
  datatype Sentinel =
    | ErrNotSupported | ErrInvalidChannelID | ErrInvalidProtocolID | ErrNullParameter
    | ErrInvalidIoctlValue | ErrInvalidFlags | ErrFailed | ErrDeviceNotConnected
    | ErrTimeout | ErrInvalidMsg | ErrInvalidTimeInterval | ErrExceededLimit
    | ErrInvalidMsgID | ErrDeviceInUse | ErrInvalidIoctlID | ErrBufferEmpty
    | ErrBufferFull | ErrBufferOverflow | ErrPinInvalid | ErrChannelInUse
    | ErrMsgProtocolID | ErrInvalidFilterID | ErrNoFlowControl | ErrNotUnique
    | ErrInvalidBaudrate | ErrInvalidDeviceID | ErrUnknown

  /** An error `CheckError` returns: a sentinel, or a fresh error made by
      fmt.Errorf that carries only its text. */
  datatype Error = Sentinel(sentinel: Sentinel) | Errorf(text: string)

  const StatusNoError := 0

  /** The status code each named sentinel stands for; `ErrUnknown` has none. */
  function Code(s: Sentinel): (c: int)
    requires s != ErrUnknown
  {
    match s
    case ErrNotSupported => 0x01
    case ErrInvalidChannelID => 0x02
    case ErrInvalidProtocolID => 0x03
    case ErrNullParameter => 0x04
    case ErrInvalidIoctlValue => 0x05
    case ErrInvalidFlags => 0x06
    case ErrFailed => 0x07
    case ErrDeviceNotConnected => 0x08
    case ErrTimeout => 0x09
    case ErrInvalidMsg => 0x0A
    case ErrInvalidTimeInterval => 0x0B
    case ErrExceededLimit => 0x0C
    case ErrInvalidMsgID => 0x0D
    case ErrDeviceInUse => 0x0E
    case ErrInvalidIoctlID => 0x0F
    case ErrBufferEmpty => 0x10
    case ErrBufferFull => 0x11
    case ErrBufferOverflow => 0x12
    case ErrPinInvalid => 0x13
    case ErrChannelInUse => 0x14
    case ErrMsgProtocolID => 0x15
    case ErrInvalidFilterID => 0x16
    case ErrNoFlowControl => 0x17
    case ErrNotUnique => 0x18
    case ErrInvalidBaudrate => 0x19
    case ErrInvalidDeviceID => 0x1A
  }

  /** The named sentinels in code order: Named[i] has code i + 1. */
  const Named: seq<Sentinel> := [
    ErrNotSupported, ErrInvalidChannelID, ErrInvalidProtocolID, ErrNullParameter,
    ErrInvalidIoctlValue, ErrInvalidFlags, ErrFailed, ErrDeviceNotConnected,
    ErrTimeout, ErrInvalidMsg, ErrInvalidTimeInterval, ErrExceededLimit,
    ErrInvalidMsgID, ErrDeviceInUse, ErrInvalidIoctlID, ErrBufferEmpty,
    ErrBufferFull, ErrBufferOverflow, ErrPinInvalid, ErrChannelInUse,
    ErrMsgProtocolID, ErrInvalidFilterID, ErrNoFlowControl, ErrNotUnique,
    ErrInvalidBaudrate, ErrInvalidDeviceID]

  /** Every named sentinel sits in the table at the place its code gives. */
  lemma NamedByCode(s: Sentinel)
    requires s != ErrUnknown
    ensures 1 <= Code(s) <= 0x1A && Named[Code(s) - 1] == s
  {
  }

  /** Go's int32(ret): keep the low 32 bits and read them as two's complement. */
  function Int32(ret: uintptr): (r: int)
    ensures -0x8000_0000 <= r < 0x8000_0000
    ensures (ret - r) % 0x1_0000_0000 == 0
  {
    var low := ret % 0x1_0000_0000;
    if low < 0x8000_0000 then low else low - 0x1_0000_0000
  }

  /** `CheckError`: nil for success, the sentinel of a named code, and for
      any other code a fresh error quoting the full value of `ret`. */
  function CheckError(ret: uintptr): (r: Option<Error>)
    ensures r == None <==> Int32(ret) == StatusNoError
    ensures r.Some? && r.value.Sentinel? ==>
              r.value.sentinel != ErrUnknown && Code(r.value.sentinel) == Int32(ret)
    ensures r.Some? && r.value.Errorf? ==>
              !(0 <= Int32(ret) <= 0x1A) && r.value.text == "unknown error: " + Decimal(ret)
  {
    match Int32(ret)
    case 0 => None
    case 0x01 => Some(Sentinel(ErrNotSupported))
    case 0x02 => Some(Sentinel(ErrInvalidChannelID))
    case 0x03 => Some(Sentinel(ErrInvalidProtocolID))
    case 0x04 => Some(Sentinel(ErrNullParameter))
    case 0x05 => Some(Sentinel(ErrInvalidIoctlValue))
    case 0x06 => Some(Sentinel(ErrInvalidFlags))
    case 0x07 => Some(Sentinel(ErrFailed))
    case 0x08 => Some(Sentinel(ErrDeviceNotConnected))
    case 0x09 => Some(Sentinel(ErrTimeout))
    case 0x0A => Some(Sentinel(ErrInvalidMsg))
    case 0x0B => Some(Sentinel(ErrInvalidTimeInterval))
    case 0x0C => Some(Sentinel(ErrExceededLimit))
    case 0x0D => Some(Sentinel(ErrInvalidMsgID))
    case 0x0E => Some(Sentinel(ErrDeviceInUse))
    case 0x0F => Some(Sentinel(ErrInvalidIoctlID))
    case 0x10 => Some(Sentinel(ErrBufferEmpty))
    case 0x11 => Some(Sentinel(ErrBufferFull))
    case 0x12 => Some(Sentinel(ErrBufferOverflow))
    case 0x13 => Some(Sentinel(ErrPinInvalid))
    case 0x14 => Some(Sentinel(ErrChannelInUse))
    case 0x15 => Some(Sentinel(ErrMsgProtocolID))
    case 0x16 => Some(Sentinel(ErrInvalidFilterID))
    case 0x17 => Some(Sentinel(ErrNoFlowControl))
    case 0x18 => Some(Sentinel(ErrNotUnique))
    case 0x19 => Some(Sentinel(ErrInvalidBaudrate))
    case 0x1A => Some(Sentinel(ErrInvalidDeviceID))
    case _ => Some(Errorf("unknown error: " + Decimal(ret)))
  }

  /** Every code in 0x01..0x1A yields a sentinel: none falls through to the
      formatted error. */
  lemma NamedCodesYieldSentinels(ret: uintptr)
    requires 1 <= Int32(ret) <= 0x1A
    ensures CheckError(ret) == Some(Sentinel(Named[Int32(ret) - 1]))
  {
  }

  /** A sentinel is returned exactly for the code it stands for, whatever
      lies above bit 31 of `ret`. */
  lemma CheckErrorSentinel(ret: uintptr, s: Sentinel)
    ensures CheckError(ret) == Some(Sentinel(s)) <==> s != ErrUnknown && Int32(ret) == Code(s)
  {
    if s != ErrUnknown && Int32(ret) == Code(s) {
      NamedByCode(s);
      NamedCodesYieldSentinels(ret);
    }
  }

  /** Distinct named codes give distinct sentinels. */
  lemma CheckErrorInjective(a: uintptr, b: uintptr)
    requires CheckError(a).Some? && CheckError(a).value.Sentinel?
    requires CheckError(a) == CheckError(b)
    ensures Int32(a) == Int32(b)
  {
  }

  /** The fall-back error covers exactly the codes outside 0..0x1A. */
  lemma CheckErrorFallback(ret: uintptr)
    ensures CheckError(ret).Some? && CheckError(ret).value.Errorf? <==> !(0 <= Int32(ret) <= 0x1A)
  {
    if 1 <= Int32(ret) <= 0x1A {
      NamedCodesYieldSentinels(ret);
    }
  }

  /** `ErrUnknown` is declared but never returned. */
  lemma NeverErrUnknown(ret: uintptr)
    ensures CheckError(ret) != Some(Sentinel(ErrUnknown))
  {
  }

  /** Matching reads only the low 32 bits: two codes that agree there and
      fall on a named code or on success give the same result. */
  lemma HighBitsIgnored(a: uintptr, b: uintptr)
    requires a % 0x1_0000_0000 == b % 0x1_0000_0000
    requires 0 <= Int32(a) <= 0x1A
    ensures CheckError(a) == CheckError(b)
  {
    assert Int32(a) == Int32(b);
  }

  /** The fall-back message quotes the full 64-bit value: two different
      codes give different texts even when their low 32 bits agree. */
  lemma HighBitsInMessage(a: uintptr, b: uintptr)
    requires !(0 <= Int32(a) <= 0x1A) && !(0 <= Int32(b) <= 0x1A)
    requires a != b
    ensures CheckError(a) != CheckError(b)
  {
    CheckErrorFallback(a);
    CheckErrorFallback(b);
    var prefix := "unknown error: ";
    if CheckError(a) == CheckError(b) {
      assert (prefix + Decimal(a))[|prefix|..] == Decimal(a);
      assert (prefix + Decimal(b))[|prefix|..] == Decimal(b);
      DecimalInjective(a, b);
    }
  }

  /** Example: 0xFFFF_FFFF_0000_0009 matches as ERR_TIMEOUT. */
  lemma TimeoutAboveBit31()
    ensures CheckError(0xFFFF_FFFF_0000_0009) == Some(Sentinel(ErrTimeout))
  {
    assert Int32(0xFFFF_FFFF_0000_0009) == 9;
  }
}
