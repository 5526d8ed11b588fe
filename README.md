# uhid keyboard: keystroke-to-report pipeline

This project models the core of a virtual USB keyboard built on Linux uhid (`uhid-example.c`).
The program reads raw bytes from a terminal in non-canonical mode. It turns each byte, or each
arrow-key escape sequence, into one key-down and one key-up 8-byte boot-keyboard input report,
and writes those reports to the uhid device. It also inspects output reports sent back by the
host and recognises the LED report.

The model follows the program's structure:

- `Bytes`: the byte type (`Byte`, the integers 0..255), `Option`, zero padding.
- `HidTable`: `ascii_to_hid`, which maps characters to Keyboard/Keypad page (0x07) usages of the
  USB HID Usage Tables 1.12, section 10.
- `EscapeParser`: what the escape buffer means as a sequence of pending bytes. `Push` models
  `add_to_escape_buf`. `ArrowCode` models the choice in `process_escape_sequence`, which follows
  the 7-bit CSI sequences `ESC [ A|B|C|D` of ECMA-48, section 5.4.
- `KeyTracker`: the ordered, duplicate-free set of at most six held keys, as a sequence.
  `Pressed` models `add_key` and `Released` models `remove_key`.
- `BootReport`: the 8-byte input report layout of Appendix B.1 of the USB Device Class
  Definition for HID 1.11, with a decoder that serves as its inverse.
- `LedOutput`: `handle_output`.
- `Session`: `Run`, the reference meaning of one `keyboard()` call. It gives the reports sent
  and the escape bytes left pending at the end of a batch. Lemmas about whole batches sit here.
- `Device`: the class `VirtualKeyboard`. Its fields are the five globals: `modifierKeys`,
  the six-slot array `keyCodes`, `numKeysPressed`, the eight-slot array `escapeBuf` and
  `escapeLen`. Its methods update them in place, as the C functions do. Each method's
  `ensures` ties the new state to the spec functions above. `Keyboard` is the per-byte loop,
  proved equal to `Session.Run`.

The output channel is abstracted. `SendEvent` returns the report that `send_event` builds.
`Keyboard` returns the list of reports in the order they are written. The source ignores the
result of each write, so every report is listed whether or not the write succeeds. The input
channel is abstracted too: `Keyboard` takes as a parameter the batch of bytes that `read`
returned.

Four behaviours of the code are worth stating plainly:

- The escape buffer has eight slots, but `add_to_escape_buf` stores at most seven bytes: its
  guard is `escape_len < sizeof(escape_buf) - 1` (uhid-example.c:356). A byte that arrives when
  seven are pending is dropped, and the length is reset to 0 (uhid-example.c:359-360).
- `process_escape_sequence` resets the length only when it finds an arrow
  (uhid-example.c:344-348). After `ESC [ x` with `x` outside A..D, the bytes stay pending, and
  every later byte is appended and swallowed by `keyboard()` (uhid-example.c:420-436). This
  goes on until the buffer overflows, across as many `read` batches as it takes. In all,
  eight bytes are swallowed without a report (`Session.UnknownSequenceSwallows`,
  `Session.UnknownSequenceDropped`).
- `ascii_to_hid` returns only a usage (uhid-example.c:285). Left Shift is decided in the
  `keyboard()` loop from the input byte, and only upper-case letters that did not resolve
  to an arrow get it (uhid-example.c:470-473).
- The header comment lists "q: Quit the application" (uhid-example.c:16), but neither
  `keyboard()` nor its caller checks for 'q'. The code types 'q' as the Q key, usage 0x14,
  like any other letter (`Session.TypeLowerQ`). The model follows the code.

## Model

| member | source | states |
|---|---|---|
| HidTable.AsciiToHid | uhid-example.c:285-331 | every code is 0 or a usage in 0x04..0x38, within the descriptor's logical maximum 0x65, and never an arrow usage |
| HidTable.MappedExactly | uhid-example.c:285-331 | a byte gets a nonzero code exactly when it is a letter, a digit, one of space/LF/CR/BS/TAB/ESC, or one of the 21 listed punctuation bytes; every other byte gives 0 |
| HidTable.LowerLetterCode | uhid-example.c:287-288 | 'a'..'z' map to 0x04 + (c - 'a') |
| HidTable.UpperSharesLowerCode | uhid-example.c:289-290 | an upper-case letter maps to the same code as its lower-case letter |
| HidTable.DigitCode | uhid-example.c:291-294 | '1'..'9' map to 0x1e..0x26 and '0' maps to 0x27 |
| HidTable.ShiftedDigitAliases | uhid-example.c:307-317 | each of "!@#$%^&*()" maps to the nonzero code of the digit under it on a US layout |
| HidTable.ControlCodes | uhid-example.c:295-304 | space 0x2c, LF and CR 0x28, backspace 0x2a, tab 0x2b, ESC 0x29 |
| EscapeParser.ArrowCode | uhid-example.c:336-350 | the result is the up/down/right/left usage exactly when the pending bytes begin ESC [ A/B/C/D, and 0 otherwise |
| EscapeParser.ArrowCodeNonzero | uhid-example.c:336-350 | an arrow is recognised iff at least three bytes are pending and they begin ESC, '[', a final byte in A..D |
| EscapeParser.PushBounded | uhid-example.c:354-362 | the pending length stays at most 7; a byte is appended while fewer than 7 are pending; at 7 the byte is dropped and the buffer empties; an appended byte lengthens the pending bytes by exactly one |
| KeyTracker.PressedWellFormed | uhid-example.c:365-374 | add keeps 'at most 6, no duplicates'; it appends a new key when there is room; it is a no-op when 6 keys are held or the key is already held |
| KeyTracker.ReleasedAt | uhid-example.c:377-391 | removing a held key leaves the keys before it and the keys after it, in order |
| KeyTracker.ReleasedAbsent | uhid-example.c:377-391 | removing a key that is not held changes nothing |
| KeyTracker.ReleasedWellFormed | uhid-example.c:377-391 | remove keeps the invariant; the key is gone afterwards; every other key stays held; the count drops by one exactly when the key was held |
| KeyTracker.PressThenRelease | uhid-example.c:365-391 | if fewer than 6 keys are held and the key is not among them, add then remove restores the exact prior sequence |
| BootReport.Encode | uhid-example.c:253-266 | the report is 8 bytes: modifiers, a zero reserved byte, the held keys in order, then zeros |
| BootReport.KeysOf | uhid-example.c:261-266 | decoding the keycode slots yields the nonzero prefix, which ends at the first zero slot |
| BootReport.DecodeEncode | uhid-example.c:253-266 | decoding an encoded report gives back the modifiers and keys, for any set of at most 6 nonzero keys |
| BootReport.EncodeDecode | uhid-example.c:253-266 | every 8-byte report that decodes is exactly the encoding of what it decodes to |
| BootReport.EncodeOneKey | uhid-example.c:257-266 | the report of one held key k with modifiers m is m 00 k 00 00 00 00 00 |
| BootReport.EncodeNoKeys | uhid-example.c:257-266 | the report of no held key is the modifier byte followed by seven zeros |
| BootReport.ShiftedTwoKeys | uhid-example.c:253-266 | holding 0x04 and 0x05 with Left Shift set encodes as 02 00 04 05 00 00 00 00 |
| LedOutput.HandleOutput | uhid-example.c:177-192 | LED flags are reported iff the report type is UHID_OUTPUT_REPORT, the size is 2 and data[0] is 0x02; the flags are then data[1]; anything else is ignored |
| LedOutput.LedRoundTrip | uhid-example.c:180-191 | the flags of every LED request are recovered, whatever fills the rest of the payload |
| LedOutput.OnlyLedRequestsAccepted | uhid-example.c:180-191 | every request that is accepted has the LED request shape |
| Session.RunSendsKeystrokes | uhid-example.c:415-486 | a batch sends an even number of reports; each even-position one is a press of exactly one key in 1..0x65, with modifiers 0 or Left Shift; each odd-position one is the all-zero release |
| Session.RunKeepsPendingShape | uhid-example.c:415-448 | between batches the pending escape bytes are either empty or ESC '[' followed by at most five bytes whose first is no arrow final byte; a lone ESC is never left pending |
| Session.PlainTextTyped | uhid-example.c:449-486 | a batch without ESC, started with nothing pending, sends each byte's keystroke from the character table, in order, and leaves nothing pending |
| Session.SwallowOne | uhid-example.c:336-362 | with ESC [ and a non-arrow final byte pending, one more byte resolves to no key and is appended, or, with seven pending, empties the buffer |
| Session.UnknownSequenceSwallows | uhid-example.c:420-436 | once ESC [ plus a non-arrow final byte are pending, later bytes send nothing; a batch that stops short of the overflow leaves them appended, and the byte that would be the eighth empties the buffer |
| Session.UnknownSequenceDropped | uhid-example.c:336-362 | ESC [ x (x not A..D) and five more bytes send no report and leave nothing pending |
| Session.TypeLowerA | uhid-example.c:415-486 | "a" sends 00 00 04 00.. then all zeros |
| Session.TypeLowerQ | uhid-example.c:415-486 | "q" sends the Q key 00 00 14 00.. then all zeros and leaves nothing pending, so 'q' is typed, not taken as a quit command |
| Session.TypeUpperA | uhid-example.c:469-485 | "A" sends 02 00 04 00.. then all zeros: shift is held for the press only |
| Session.TypeUpArrow | uhid-example.c:420-436 | ESC [ A sends one press and release of 0x52 without shift and without an Escape key |
| Session.ArrowKeys | uhid-example.c:338-343 | ESC [ A/B/C/D send presses of 0x52/0x51/0x4f/0x50, without shift |
| Session.LoneEscape | uhid-example.c:437-448 | with nothing pending, an ESC that ends the batch, or is followed by a byte other than '[', sends the Escape key 0x29 first |
| Session.SingleByte | uhid-example.c:449-486 | one byte sends its table code as press and release, with Left Shift iff the byte is 'A'..'Z'; or sends nothing when it is unmapped |
| Session.EscapeSplitAcrossBatches | uhid-example.c:437-448 | an ESC at the end of a batch is the Escape key; "[A" in the next batch types '[' and then a shifted 'a' |
| Device.VirtualKeyboard.constructor | uhid-example.c:241-247 | all state starts at zero: no key, no modifier, no escape bytes |
| Device.VirtualKeyboard.SlotsAreHeldKeysPadded | uhid-example.c:241-243 | the six slots are always the held keys followed by zeros |
| Device.VirtualKeyboard.AddKey | uhid-example.c:365-374 | the duplicate-search loop and the append keep the invariant; the held keys become `Pressed` of the old ones |
| Device.VirtualKeyboard.RemoveKey | uhid-example.c:377-391 | the search, the in-place shift and the zeroing of the vacated slot keep the invariant; the held keys become `Released` of the old ones |
| Device.VirtualKeyboard.ShiftLeft | uhid-example.c:382-384 | the inner loop moves every slot after the match one place left; the other slots stay as they were |
| Device.VirtualKeyboard.ClearKeys | uhid-example.c:394-399 | all six slots are zero, the count is 0 and the modifiers are 0 |
| Device.VirtualKeyboard.AddToEscapeBuf | uhid-example.c:354-362 | the buffer contents become `Push` of the old contents |
| Device.VirtualKeyboard.ProcessEscapeSequence | uhid-example.c:334-351 | it returns `ArrowCode` of the pending bytes; the buffer empties on an arrow and is unchanged otherwise |
| Device.VirtualKeyboard.SendEvent | uhid-example.c:249-266 | the report is `Encode` of the modifiers and held keys, and its six keycode bytes are exactly the six array slots |
| Device.VirtualKeyboard.PressAndRelease | uhid-example.c:469-485 | a resolved keystroke sends the press then the release that `Session.Keystroke` gives, and leaves no key and no modifier held |
| Device.VirtualKeyboard.Keyboard | uhid-example.c:415-486 | the loop sends exactly the reports of `Session.Run` and leaves its pending escape bytes; no key and no modifier are held before or after any byte |

## Left out

- `main` is left out: terminal raw-mode setup, argument handling, opening the device node, the `poll` loop, HUP handling and teardown are process plumbing.
- `uhid_write`, and the `read` calls in `event` and `keyboard`, are operating-system I/O. A batch read from the terminal is a parameter of `Keyboard`. The reports written are its result list. Read failures and end of file (`ret <= 0`) happen before the loop, so they are not modelled.
- `create` and `destroy` only fill a kernel record with constant metadata and write it. The report descriptor `rdesc` is a constant passed verbatim. Its range (logical maximum 0x65) appears as `HidTable.USAGE_MAXIMUM`.
- The type switch in `event` and its record-size check are left out, apart from `handle_output`. The switch only logs, and the record size comes from `<linux/uhid.h>`, which is not part of this model.
- The `UHID_*` tag values also come from that header. `HandleOutput` takes the value of `UHID_OUTPUT_REPORT` as a parameter.
- LedOutput.HandleOutput: requires that the payload holds at least two bytes. In the source the payload is the request's fixed array of `UHID_DATA_MAX` bytes, which is always longer than that.
- Device.VirtualKeyboard.Keyboard: requires an idle state, meaning no key and no modifier held. The static initialisers establish it and every call keeps it, so this holds at every call the program makes. Starting from a state with keys already held is not modelled.
- Device.VirtualKeyboard.ShiftLeft and Device.VirtualKeyboard.PressAndRelease: these are the inner loop of `remove_key` and the tail of `keyboard`'s loop body, written as separate methods. The C code has them inline.
- All `fprintf` diagnostics and the `key_name` strings are left out.
- C `char` signedness is not modelled. Input bytes are 0..255. Bytes from 0x80 up match no case whether the byte is signed or unsigned.
- The report descriptor declares no output report and no report id. `handle_output` is modelled as written anyway: it checks for report id 0x02 and size 2.
