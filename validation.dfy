/**
 * The payload checks the handlers make before touching the database: the
 * PIN format tests of signup, login, pin-login and reset-pin, and the
 * clock-event check (index.php:147), both as written and as intended.
 */
module Validation {
  import opened Text
  import opened Wrappers
  import opened PhpValues

  /** The outcome of a check: the accepted text, a 400 rejection, or a PHP TypeError. */
  datatype Checked<T> = Accepted(value: T) | Rejected | TypeError

  /**
   * `strlen($pin) !== n || !ctype_digit($pin)` (index.php:438, 482, 531 and
   * the tail of 375): the PIN text is accepted when it is n characters long
   * and `ctype_digit` holds of the value. `strlen` of an array raises.
   */
  function PinFormat(v: Json, n: nat): (r: Checked<string>)
    ensures r.Accepted? ==> |r.value| == n && IsDigits(r.value) && r.value == PhpString(v)
    ensures r.TypeError? <==> v.JArray? || v.JObject?
    ensures v.JString? && n > 0 ==> (r.Accepted? <==> |v.s| == n && IsDigits(v.s))
  {
    match StringArgument(v)
    case None => TypeError
    case Some(t) => if |t| != n || !CtypeDigit(v) then Rejected else Accepted(t)
  }

  /**
   * A PIN sent as a JSON number passes exactly when it has n digits: for
   * n of 4 or more no such number lies in the range `ctype_digit` reads as
   * a character code.
   */
  lemma PinFormatOfNumber(i: int, n: nat)
    requires n >= 4
    ensures PinFormat(JInt(i), n).Accepted? <==> Pow10(n - 1) <= i < Pow10(n)
  {
    Pow10Grows(n - 1);
    if i < 0 {
      assert IntToString(i)[0] == '-';
    } else {
      NatToStringLength(i, n);
      if i <= 255 {
        NatToStringAtMost(i, 3);
        Pow10Grows(2);
      }
    }
  }

  lemma {:induction false} Pow10Grows(k: nat)
    ensures k >= 3 ==> Pow10(k) >= 1000
  {
    if k > 3 {
      Pow10Grows(k - 1);
    }
  }

  /** The event types a clock event may carry. */
  predicate IsEventType(t: string) { t == "in" || t == "out" }

  /**
   * The check at index.php:147 as written: `employeeId` and `type` not
   * `empty`, and `in_array($type, ['in', 'out'])` with PHP's loose `==`.
   */
  predicate ClockPayloadAsWritten(employeeId: Json, eventType: Json)
  {
    !Empty(employeeId) && !Empty(eventType)
    && (LooseEqualsWord(eventType, "in") || LooseEqualsWord(eventType, "out"))
  }

  /** As written, the JSON value `true` passes as an event type. */
  lemma ClockPayloadAsWrittenAcceptsTrue()
    ensures ClockPayloadAsWritten(JInt(7), JBool(true))
    ensures !IsEventType(PhpString(JBool(true)))
  {
  }

  /** The event type the intended check accepts: the text "in" or "out" and nothing else. */
  function EventTypeOf(v: Json): (r: Option<string>)
    ensures r.Some? ==> IsEventType(r.value)
    ensures r.Some? <==> v == JString("in") || v == JString("out")
  {
    if v.JString? && IsEventType(v.s) then Some(v.s) else None
  }

  /** The check at index.php:147 as intended: `in_array` made strict. */
  predicate ClockPayloadValid(employeeId: Json, eventType: Json)
  {
    !Empty(employeeId) && EventTypeOf(eventType).Some?
  }

  /** The intended check accepts what the written one accepts, except the value `true`. */
  lemma ClockPayloadCorrected(employeeId: Json, eventType: Json)
    ensures ClockPayloadValid(employeeId, eventType)
      <==> ClockPayloadAsWritten(employeeId, eventType) && eventType != JBool(true)
  {
    LooseEqualsWordExactly(eventType, "in");
    LooseEqualsWordExactly(eventType, "out");
  }
}
