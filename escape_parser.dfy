/**
 * The arrow-key part of the terminal decoder. An arrow key arrives as the 7-bit
 * Control Sequence Introducer ESC [ followed by one final byte (ECMA-48, section 5.4):
 * A (cursor up), B (cursor down), C (cursor forward) or D (cursor backward).
 * The pending bytes live in a fixed buffer; this module gives the buffer's meaning
 * as a sequence, and the device class keeps its array and length in step with it.
 */
module EscapeParser {
  import opened Bytes
  import opened HidTable

  /** sizeof(escape_buf). */
  const ESCAPE_CAPACITY: nat := 8
  /** add_to_escape_buf stores only while the length is below sizeof(escape_buf) - 1. */
  const MAX_ESCAPE_LEN: nat := ESCAPE_CAPACITY - 1

  predicate IsArrowFinal(c: Byte) { 'A' as Byte <= c <= 'D' as Byte }

  /** add_to_escape_buf on the pending bytes: append, or on a full buffer drop c and empty the buffer. */
  function Push(pending: seq<Byte>, c: Byte): seq<Byte>
  {
    if |pending| < MAX_ESCAPE_LEN then pending + [c] else []
  }

  /** process_escape_sequence's choice of usage for the pending bytes; 0 when they are no arrow key. */
  function ArrowCode(pending: seq<Byte>): (code: Byte)
    ensures code == USAGE_UP_ARROW <==> |pending| >= 3 && pending[..3] == [ESC, LEFT_BRACKET, 'A' as Byte]
    ensures code == USAGE_DOWN_ARROW <==> |pending| >= 3 && pending[..3] == [ESC, LEFT_BRACKET, 'B' as Byte]
    ensures code == USAGE_RIGHT_ARROW <==> |pending| >= 3 && pending[..3] == [ESC, LEFT_BRACKET, 'C' as Byte]
    ensures code == USAGE_LEFT_ARROW <==> |pending| >= 3 && pending[..3] == [ESC, LEFT_BRACKET, 'D' as Byte]
    ensures code == 0 || IsArrow(code)
  {
    if |pending| >= 3 && pending[0] == ESC && pending[1] == LEFT_BRACKET then
      match pending[2]
      case 0x41 => USAGE_UP_ARROW
      case 0x42 => USAGE_DOWN_ARROW
      case 0x43 => USAGE_RIGHT_ARROW
      case 0x44 => USAGE_LEFT_ARROW
      case _ => 0
    else 0
  }

  /** The pending bytes never exceed the seven the buffer stores; a full buffer overflows to empty. */
  lemma PushBounded(pending: seq<Byte>, c: Byte)
    requires |pending| <= MAX_ESCAPE_LEN
    ensures |Push(pending, c)| <= MAX_ESCAPE_LEN
    ensures |pending| == MAX_ESCAPE_LEN <==> Push(pending, c) == []
    ensures |pending| < MAX_ESCAPE_LEN ==>
      |Push(pending, c)| == |pending| + 1 && Push(pending, c)[..|pending|] == pending && Push(pending, c)[|pending|] == c
  {}

  /** Pending bytes resolve to an arrow exactly when they begin with ESC [ and a final byte A..D. */
  lemma ArrowCodeNonzero(pending: seq<Byte>)
    ensures ArrowCode(pending) != 0 <==>
      |pending| >= 3 && pending[0] == ESC && pending[1] == LEFT_BRACKET && IsArrowFinal(pending[2])
  {}

  /**
   * The shapes the pending bytes can have between calls: nothing; or ESC, then '[',
   * then a final byte that is no arrow, then whatever bytes followed, up to seven in all.
   * A lone ESC is pending only while the '[' that follows it is being read.
   */
  predicate Pending(pending: seq<Byte>) {
    |pending| <= MAX_ESCAPE_LEN &&
    (pending != [] ==>
      pending[0] == ESC &&
      (|pending| >= 2 ==> pending[1] == LEFT_BRACKET) &&
      (|pending| >= 3 ==> !IsArrowFinal(pending[2])))
  }
}
