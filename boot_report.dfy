/**
 * The 8-byte keyboard input report of the boot protocol (Appendix B.1 of the
 * USB Device Class Definition for HID 1.11), which is also the layout the report
 * descriptor of this device declares: one modifier byte, one reserved byte and
 * six keycode slots.
 */
module BootReport {
  import opened Bytes
  import opened KeyTracker

  const REPORT_SIZE: nat := 8
  /** Bit 1 of the modifier byte. */
  const LEFT_SHIFT: Byte := 0x02

  /** What one input report says: the modifier bits and the held keys, in order. */
  datatype KeyReport = KeyReport(modifiers: Byte, keys: seq<Byte>)

  /** The report layout: modifiers, a zero reserved byte, the keys, zero padding. */
  function Encode(report: KeyReport): (bytes: seq<Byte>)
    requires |report.keys| <= MAX_KEYS
    ensures |bytes| == REPORT_SIZE
    ensures bytes[0] == report.modifiers && bytes[1] == 0
    ensures bytes[2..2 + |report.keys|] == report.keys
    ensures forall i :: 2 + |report.keys| <= i < REPORT_SIZE ==> bytes[i] == 0
  {
    [report.modifiers, 0] + report.keys + Zeros(MAX_KEYS - |report.keys|)
  }

  /** The keys listed in a run of keycode slots: everything before the first empty (zero) slot. */
  function KeysOf(slots: seq<Byte>): (keys: seq<Byte>)
    ensures |keys| <= |slots| && keys == slots[..|keys|]
    ensures 0 !in keys
    ensures |keys| < |slots| ==> slots[|keys|] == 0
  {
    if slots == [] || slots[0] == 0 then [] else [slots[0]] + KeysOf(slots[1..])
  }

  /** Reads an input report back; None for a wrong size, a set reserved byte or a key after an empty slot. */
  function Decode(bytes: seq<Byte>): Option<KeyReport>
  {
    if |bytes| != REPORT_SIZE || bytes[1] != 0 then None
    else
      var keys := KeysOf(bytes[2..]);
      if bytes[2 + |keys|..] == Zeros(MAX_KEYS - |keys|) then Some(KeyReport(bytes[0], keys)) else None
  }

  /** Decoding an encoded report gives the report back, for every key set the tracker can hold. */
  lemma DecodeEncode(report: KeyReport)
    requires |report.keys| <= MAX_KEYS && 0 !in report.keys
    ensures Decode(Encode(report)) == Some(report)
  {
    var bytes := Encode(report);
    var n := |report.keys|;
    assert bytes[2..] == report.keys + Zeros(MAX_KEYS - n);
    KeysOfPadded(report.keys, MAX_KEYS - n);
  }

  lemma {:induction false} KeysOfPadded(keys: seq<Byte>, pad: nat)
    requires 0 !in keys
    ensures KeysOf(keys + Zeros(pad)) == keys
  {
    if keys == [] {
      if pad > 0 { assert Zeros(pad)[0] == 0; }
    } else {
      assert (keys + Zeros(pad))[1..] == keys[1..] + Zeros(pad);
      KeysOfPadded(keys[1..], pad);
    }
  }

  /** Every report that decodes is the encoding of what it decodes to. */
  lemma EncodeDecode(bytes: seq<Byte>)
    requires Decode(bytes).Some?
    ensures |Decode(bytes).value.keys| <= MAX_KEYS && Encode(Decode(bytes).value) == bytes
  {
    var keys := KeysOf(bytes[2..]);
    assert bytes == [bytes[0], bytes[1]] + bytes[2..][..|keys|] + bytes[2 + |keys|..];
  }

  /** The report of a single held key. */
  lemma EncodeOneKey(modifiers: Byte, code: Byte)
    ensures Encode(KeyReport(modifiers, [code])) == [modifiers, 0, code, 0, 0, 0, 0, 0]
  {
    var bytes := Encode(KeyReport(modifiers, [code]));
    assert bytes[2..3] == [code];
    assert bytes[2] == code;
  }

  /** The report of no held key. */
  lemma EncodeNoKeys(modifiers: Byte)
    ensures Encode(KeyReport(modifiers, [])) == [modifiers, 0, 0, 0, 0, 0, 0, 0]
  {}

  /** A tracker holding 0x04 and 0x05 with Left Shift set is reported as 02 00 04 05 00 00 00 00. */
  lemma ShiftedTwoKeys()
    ensures Encode(KeyReport(LEFT_SHIFT, [0x04, 0x05])) == [0x02, 0x00, 0x04, 0x05, 0x00, 0x00, 0x00, 0x00]
  {}
}
