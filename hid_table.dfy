/**
 * The character table of the keyboard: every terminal byte is mapped to a usage
 * of the Keyboard/Keypad page (page 0x07) of the USB HID Usage Tables 1.12,
 * section 10, or to 0 when the byte has no key.
 */
module HidTable {
  import opened Bytes

  const ESC: Byte := 27
  const LEFT_BRACKET: Byte := '[' as Byte

  // Usages that the table and the arrow-key parser produce.
  const USAGE_A: Byte := 0x04
  const USAGE_1: Byte := 0x1e
  const USAGE_0: Byte := 0x27
  const USAGE_ENTER: Byte := 0x28
  const USAGE_ESCAPE: Byte := 0x29
  const USAGE_BACKSPACE: Byte := 0x2a
  const USAGE_TAB: Byte := 0x2b
  const USAGE_SPACE: Byte := 0x2c
  const USAGE_RIGHT_ARROW: Byte := 0x4f
  const USAGE_LEFT_ARROW: Byte := 0x50
  const USAGE_DOWN_ARROW: Byte := 0x51
  const USAGE_UP_ARROW: Byte := 0x52

  /** The largest usage the report descriptor admits in a keycode slot (LOGICAL_MAXIMUM 101). */
  const USAGE_MAXIMUM: Byte := 0x65

  predicate IsLower(c: Byte) { 'a' as Byte <= c <= 'z' as Byte }
  predicate IsUpper(c: Byte) { 'A' as Byte <= c <= 'Z' as Byte }

  predicate IsArrow(code: Byte) {
    code == USAGE_UP_ARROW || code == USAGE_DOWN_ARROW || code == USAGE_RIGHT_ARROW || code == USAGE_LEFT_ARROW
  }

  /**
   * ascii_to_hid. Upper-case letters share the code of their lower-case letter
   * (the caller adds Left Shift); the shifted digit symbols share the digit's code
   * and get no shift at all.
   */
  function AsciiToHid(c: Byte): (code: Byte)
    ensures code == 0 || USAGE_A <= code <= 0x38
    ensures code <= USAGE_MAXIMUM
    ensures !IsArrow(code)
  {
    if IsLower(c) then USAGE_A + (c - 'a' as Byte)
    else if IsUpper(c) then USAGE_A + (c - 'A' as Byte)
    else if '1' as Byte <= c <= '9' as Byte then USAGE_1 + (c - '1' as Byte)
    else if c == '0' as Byte then USAGE_0
    else if c == ' ' as Byte then USAGE_SPACE
    else if c == '\n' as Byte || c == '\r' as Byte then USAGE_ENTER
    else if c == 8 then USAGE_BACKSPACE
    else if c == '\t' as Byte then USAGE_TAB
    else if c == ESC then USAGE_ESCAPE
    else match c
      case 0x21 /* ! */ => 0x1e
      case 0x40 /* @ */ => 0x1f
      case 0x23 /* # */ => 0x20
      case 0x24 /* $ */ => 0x21
      case 0x25 /* % */ => 0x22
      case 0x5e /* ^ */ => 0x23
      case 0x26 /* & */ => 0x24
      case 0x2a /* * */ => 0x25
      case 0x28 /* ( */ => 0x26
      case 0x29 /* ) */ => 0x27
      case 0x2d /* - */ => 0x2d
      case 0x3d /* = */ => 0x2e
      case 0x5b /* [ */ => 0x2f
      case 0x5d /* ] */ => 0x30
      case 0x5c /* \ */ => 0x31
      case 0x3b /* ; */ => 0x33
      case 0x27 /* ' */ => 0x34
      case 0x60 /* ` */ => 0x35
      case 0x2c /* , */ => 0x36
      case 0x2e /* . */ => 0x37
      case 0x2f /* / */ => 0x38
      case _ => 0
  }

  /** The bytes the table knows, written out independently of the table itself. */
  const PUNCTUATION: string := "!@#$%^&*()-=[]\\;'`,./"
  const CONTROLS: seq<Byte> := [' ' as Byte, '\n' as Byte, '\r' as Byte, 8, '\t' as Byte, ESC]

  predicate IsMapped(c: Byte) {
    IsLower(c) || IsUpper(c) || ('0' as Byte <= c <= '9' as Byte) || c in CONTROLS
    || exists k :: 0 <= k < |PUNCTUATION| && PUNCTUATION[k] as Byte == c
  }

  /** A byte gets a nonzero code exactly when it is one of the bytes the table lists. */
  lemma MappedExactly(c: Byte)
    ensures AsciiToHid(c) != 0 <==> IsMapped(c)
  {
    if AsciiToHid(c) != 0 && !(IsLower(c) || IsUpper(c) || ('0' as Byte <= c <= '9' as Byte) || c in CONTROLS) {
      PunctuationIndex(c);
    }
  }

  lemma PunctuationIndex(c: Byte)
    requires AsciiToHid(c) != 0 && !(IsLower(c) || IsUpper(c) || ('0' as Byte <= c <= '9' as Byte) || c in CONTROLS)
    ensures exists k :: 0 <= k < |PUNCTUATION| && PUNCTUATION[k] as Byte == c
  {
    var k := if c == 0x21 then 0 else if c == 0x40 then 1 else if c == 0x23 then 2 else if c == 0x24 then 3
      else if c == 0x25 then 4 else if c == 0x5e then 5 else if c == 0x26 then 6 else if c == 0x2a then 7
      else if c == 0x28 then 8 else if c == 0x29 then 9 else if c == 0x2d then 10 else if c == 0x3d then 11
      else if c == 0x5b then 12 else if c == 0x5d then 13 else if c == 0x5c then 14 else if c == 0x3b then 15
      else if c == 0x27 then 16 else if c == 0x60 then 17 else if c == 0x2c then 18 else if c == 0x2e then 19 else 20;
    assert PUNCTUATION[k] as Byte == c;
  }

  /** Lower-case letters take consecutive codes from HID_A = 0x04. */
  lemma LowerLetterCode(c: Byte)
    requires IsLower(c)
    ensures AsciiToHid(c) as int == USAGE_A as int + (c as int - 'a' as int)
  {}

  /** An upper-case letter gets the same code as its lower-case letter. */
  lemma UpperSharesLowerCode(c: Byte)
    requires IsUpper(c)
    ensures IsLower(c + 0x20) && AsciiToHid(c) == AsciiToHid(c + 0x20)
  {}

  /** '1'..'9' take 0x1e..0x26 and '0' takes 0x27. */
  lemma DigitCode(c: Byte)
    requires '0' as Byte <= c <= '9' as Byte
    ensures AsciiToHid(c) as int == if c == '0' as Byte then USAGE_0 as int else USAGE_1 as int + (c as int - '1' as int)
  {}

  const SHIFTED_DIGITS: string := "!@#$%^&*()"
  const DIGITS: string := "1234567890"

  /** The symbols on the shifted digit row of a US layout alias the digit codes. */
  lemma ShiftedDigitAliases(k: nat)
    requires k < |SHIFTED_DIGITS|
    ensures AsciiToHid(SHIFTED_DIGITS[k] as Byte) == AsciiToHid(DIGITS[k] as Byte) != 0
  {}

  /** Space, Enter (for both LF and CR), Backspace, Tab and Escape. */
  lemma ControlCodes()
    ensures AsciiToHid(' ' as Byte) == USAGE_SPACE
    ensures AsciiToHid('\n' as Byte) == USAGE_ENTER && AsciiToHid('\r' as Byte) == USAGE_ENTER
    ensures AsciiToHid(8) == USAGE_BACKSPACE && AsciiToHid('\t' as Byte) == USAGE_TAB
    ensures AsciiToHid(ESC) == USAGE_ESCAPE
  {}
}
