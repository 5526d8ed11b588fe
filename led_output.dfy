/**
 * handle_output: the one inbound request the device looks into. The host sends
 * output reports through a uhid output request carrying a report type, a payload
 * size and the payload bytes; an LED report is a two-byte payload whose first byte
 * is the report id 0x02 and whose second byte holds the LED flags.
 */
module LedOutput {
  import opened Bytes

  const LED_REPORT_ID: Byte := 0x02
  const LED_REPORT_SIZE: nat := 2

  /**
   * The fields of a uhid output request that handle_output reads. data stands for
   * the request's fixed payload array, which always has more than two bytes.
   */
  datatype OutputRequest = OutputRequest(rtype: Byte, size: nat, data: seq<Byte>)

  /**
   * The LED flags the request carries, or None when it has another shape.
   * outputReport is the value of UHID_OUTPUT_REPORT, which the kernel header defines.
   */
  function HandleOutput(outputReport: Byte, request: OutputRequest): (flags: Option<Byte>)
    requires |request.data| >= LED_REPORT_SIZE
    ensures flags.Some? <==>
      request.rtype == outputReport && request.size == LED_REPORT_SIZE && request.data[0] == LED_REPORT_ID
    ensures flags.Some? ==> flags.value == request.data[1]
  {
    if request.rtype != outputReport then None
    else if request.size != LED_REPORT_SIZE then None
    else if request.data[0] != LED_REPORT_ID then None
    else Some(request.data[1])
  }

  /** The request a host sends to set the LEDs; padding stands for the unused rest of the payload array. */
  function LedRequest(outputReport: Byte, flags: Byte, padding: seq<Byte>): OutputRequest
  {
    OutputRequest(outputReport, LED_REPORT_SIZE, [LED_REPORT_ID, flags] + padding)
  }

  /** handle_output recovers the flags of every LED request, whatever fills the rest of the payload. */
  lemma LedRoundTrip(outputReport: Byte, flags: Byte, padding: seq<Byte>)
    ensures HandleOutput(outputReport, LedRequest(outputReport, flags, padding)) == Some(flags)
  {}

  /** Any request that handle_output accepts is an LED request. */
  lemma OnlyLedRequestsAccepted(outputReport: Byte, request: OutputRequest)
    requires |request.data| >= LED_REPORT_SIZE && HandleOutput(outputReport, request).Some?
    ensures request == LedRequest(outputReport, HandleOutput(outputReport, request).value, request.data[2..])
  {
    assert request.data == [request.data[0], request.data[1]] + request.data[2..];
  }
}
