/**
 * Hypervisor call status codes returned by the H_HTM dump request.
 *
 * The dump handler switches on the raw `long` status of the hypervisor
 * call; this module names the codes the switch mentions (their values are
 * those of the powerpc hypervisor-call header) and keeps every other value
 * as `Other`. `Decode` and `Code` translate between the raw status and the
 * named form; they are inverse to each other on canonical statuses (an
 * `Other` that carries a named code decodes to that code's constructor).
 */
module HCall {

  /** The long-busy variants: the hypervisor suggests a wait of 10^k ms. */
  datatype WaitOrder = Msec1 | Msec10 | Msec100 | Sec1 | Sec10 | Sec100

  /** The parameter-error variants that name the faulty argument, H_P2 .. H_P6. */
  type ParamIndex = k: int | 2 <= k <= 6 witness 2

  datatype Status =
    | Success                   // H_SUCCESS
    | Partial                   // H_PARTIAL
    | NotAvailable              // H_NOT_AVAILABLE
    | Busy                      // H_BUSY
    | LongBusy(order: WaitOrder) // H_LONG_BUSY_ORDER_*
    | Parameter                 // H_PARAMETER
    | BadParam(index: ParamIndex) // H_P2 .. H_P6
    | State                     // H_STATE
    | Authority                 // H_AUTHORITY
    | Other(code: int)          // any status the dump handler does not name

  const H_SUCCESS: int := 0
  const H_BUSY: int := 1
  const H_NOT_AVAILABLE: int := 3
  const H_PARTIAL: int := 5
  const H_LONG_BUSY_ORDER_1_MSEC: int := 9900
  const H_LONG_BUSY_ORDER_100_SEC: int := 9905
  const H_PARAMETER: int := -4
  const H_AUTHORITY: int := -10
  const H_P2: int := -55
  const H_P6: int := -59
  const H_STATE: int := -75

  function WaitOrderCode(w: WaitOrder): (rc: int)
    ensures H_LONG_BUSY_ORDER_1_MSEC <= rc <= H_LONG_BUSY_ORDER_100_SEC
  {
    match w
    case Msec1 => 9900
    case Msec10 => 9901
    case Msec100 => 9902
    case Sec1 => 9903
    case Sec10 => 9904
    case Sec100 => 9905
  }

  /** True when `rc` is one of the values that has its own constructor. */
  predicate IsNamedCode(rc: int)
  {
    rc == H_SUCCESS || rc == H_PARTIAL || rc == H_NOT_AVAILABLE || rc == H_BUSY
    || (H_LONG_BUSY_ORDER_1_MSEC <= rc <= H_LONG_BUSY_ORDER_100_SEC)
    || rc == H_PARAMETER || (H_P6 <= rc <= H_P2) || rc == H_STATE || rc == H_AUTHORITY
  }

  /** A status in canonical form: `Other` never carries a named code. */
  predicate Canonical(s: Status)
  {
    s.Other? ==> !IsNamedCode(s.code)
  }

  /** The raw hypervisor return value of a status. */
  function Code(s: Status): (rc: int)
    ensures Canonical(s) ==> (s.Other? <==> !IsNamedCode(rc))
  {
    match s
    case Success => H_SUCCESS
    case Partial => H_PARTIAL
    case NotAvailable => H_NOT_AVAILABLE
    case Busy => H_BUSY
    case LongBusy(w) => WaitOrderCode(w)
    case Parameter => H_PARAMETER
    case BadParam(k) => H_P2 - (k - 2)
    case State => H_STATE
    case Authority => H_AUTHORITY
    case Other(c) => c
  }

  /** Reads a raw hypervisor return value as a status. */
  function Decode(rc: int): (s: Status)
    ensures Canonical(s)
    ensures s.Other? <==> !IsNamedCode(rc)
  {
    if rc == H_SUCCESS then Success
    else if rc == H_PARTIAL then Partial
    else if rc == H_NOT_AVAILABLE then NotAvailable
    else if rc == H_BUSY then Busy
    else if rc == 9900 then LongBusy(Msec1)
    else if rc == 9901 then LongBusy(Msec10)
    else if rc == 9902 then LongBusy(Msec100)
    else if rc == 9903 then LongBusy(Sec1)
    else if rc == 9904 then LongBusy(Sec10)
    else if rc == 9905 then LongBusy(Sec100)
    else if rc == H_PARAMETER then Parameter
    else if H_P6 <= rc <= H_P2 then BadParam(H_P2 - rc + 2)
    else if rc == H_STATE then State
    else if rc == H_AUTHORITY then Authority
    else Other(rc)
  }

  /** Decoding loses nothing: the raw value is recovered from every status. */
  lemma CodeOfDecode(rc: int)
    ensures Code(Decode(rc)) == rc
  {
  }

  /** Every canonical status is the decoding of its own code. */
  lemma DecodeOfCode(s: Status)
    requires Canonical(s)
    ensures Decode(Code(s)) == s
  {
  }
}
