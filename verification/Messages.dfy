/** Reason codes, and the readers of src/relay/protocol/json.cpp that turn numbers into integers. */
module Messages {
  import opened Text
  import opened JsonValue

  datatype Reason =
    | Ok | NoEngine | NoCommonRevision | IncompatibleEngine | BindFailed | UnsupportedOperation
    | InvalidHandle | BadArgument | Busy | Internal | DiagDisabled

  function ReasonCode(r: Reason): nat {
    match r
    case Ok => 0
    case NoEngine => 1
    case NoCommonRevision => 2
    case IncompatibleEngine => 3
    case BindFailed => 4
    case UnsupportedOperation => 5
    case InvalidHandle => 6
    case BadArgument => 7
    case Busy => 8
    case Internal => 9
    case DiagDisabled => 10
  }

  const SUMMARY_OK: AsciiText := Ascii("ok")
  const SUMMARY_NO_ENGINE: AsciiText := Ascii("no candidate installation found")
  const SUMMARY_NO_COMMON_REVISION: AsciiText := Ascii("protocol revisions do not overlap")
  const SUMMARY_INCOMPATIBLE_ENGINE: AsciiText := Ascii("no known compatibility class fits")
  const SUMMARY_BIND_FAILED: AsciiText := Ascii("dynamic symbol resolution failed")
  const SUMMARY_UNSUPPORTED_OPERATION: AsciiText := Ascii("capability not present for this engine")
  const SUMMARY_INVALID_HANDLE: AsciiText := Ascii("unknown or closed target")
  const SUMMARY_BAD_ARGUMENT: AsciiText := Ascii("malformed or out-of-range argument")
  const SUMMARY_BUSY: AsciiText := Ascii("another session holds the relay")
  const SUMMARY_INTERNAL: AsciiText := Ascii("internal error")
  const SUMMARY_DIAG_DISABLED: AsciiText := Ascii("diagnostics requested without opt-in")

  function ReasonSummary(r: Reason): AsciiText {
    match r
    case Ok => SUMMARY_OK
    case NoEngine => SUMMARY_NO_ENGINE
    case NoCommonRevision => SUMMARY_NO_COMMON_REVISION
    case IncompatibleEngine => SUMMARY_INCOMPATIBLE_ENGINE
    case BindFailed => SUMMARY_BIND_FAILED
    case UnsupportedOperation => SUMMARY_UNSUPPORTED_OPERATION
    case InvalidHandle => SUMMARY_INVALID_HANDLE
    case BadArgument => SUMMARY_BAD_ARGUMENT
    case Busy => SUMMARY_BUSY
    case Internal => SUMMARY_INTERNAL
    case DiagDisabled => SUMMARY_DIAG_DISABLED
  }

  function Integer(n: int): Value { Value.Number(Finite(n as real)) }

  /** Toward zero, as a conversion from double to integer goes. */
  function Truncate(r: real): int {
    if r >= 0.0 then r.Floor else -((-r).Floor)
  }

  const INT64_MIN: int := -0x8000_0000_0000_0000

  /**
   `Value::asInt` with its default fallback.  The conversion of a number outside
   the 64-bit range is undefined in C++; here it gives the value x86-64 gives.
   */
  function AsInt(v: Value): int {
    if !v.Number? || !v.n.Finite? then 0
    else if INT64_MIN <= Truncate(v.n.r) < -INT64_MIN then Truncate(v.n.r)
    else INT64_MIN
  }

  /** The conversion to a 32-bit `int`: reduced modulo 2^32 into the signed range. */
  function ToInt32(n: int): (r: int)
    ensures -0x8000_0000 <= r < 0x8000_0000
  {
    (n + 0x8000_0000) % 0x1_0000_0000 - 0x8000_0000
  }

  lemma TruncateInteger(n: int)
    ensures Truncate(n as real) == n
  {
    assert (n as real).Floor == n;
    assert (-(n as real)) == (-n) as real;
    assert ((-n) as real).Floor == -n;
  }
}
