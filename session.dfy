/**
 * What one call of keyboard() does with a batch of terminal bytes: the reports it
 * hands to the uhid device and the escape bytes it leaves pending for the next
 * batch. Between two bytes the device holds no key and no modifier, so the pending
 * escape bytes are the only state that carries from one byte to the next.
 */
module Session {
  import opened Bytes
  import opened HidTable
  import opened EscapeParser
  import opened KeyTracker
  import opened BootReport

  /** The pending escape bytes after a batch, and the reports sent for it, in order. */
  datatype Batch = Batch(pending: seq<Byte>, reports: seq<seq<Byte>>)

  /** How one byte resolves: the pending escape bytes afterwards and the usage to type (0: none). */
  datatype Resolution = Resolution(pending: seq<Byte>, code: Byte)

  /**
   * bracketNext says whether the batch holds a '[' right after this byte; only then
   * does an ESC open an escape sequence instead of typing the Escape key.
   */
  function Resolve(pending: seq<Byte>, b: Byte, bracketNext: bool): Resolution
  {
    if |pending| > 0 then
      var pushed := Push(pending, b);
      var code := ArrowCode(pushed);
      Resolution(if code != 0 then [] else pushed, code)
    else if b == ESC && bracketNext then
      Resolution(Push(pending, b), 0)
    else
      Resolution(pending, AsciiToHid(b))
  }

  /** Left Shift is held for an upper-case letter, and never for an arrow key. */
  predicate ShiftScoped(b: Byte, code: Byte) {
    IsUpper(b) && !IsArrow(code)
  }

  /** The key-down report then the key-up report of one keystroke; nothing for code 0. */
  function Keystroke(b: Byte, code: Byte): seq<seq<Byte>>
  {
    if code == 0 then []
    else [Encode(KeyReport(if ShiftScoped(b, code) then LEFT_SHIFT else 0, [code])), Encode(KeyReport(0, []))]
  }

  /** keyboard() over one batch, byte by byte. */
  function Run(pending: seq<Byte>, batch: seq<Byte>): Batch
    decreases |batch|
  {
    if batch == [] then Batch(pending, [])
    else
      var r := Resolve(pending, batch[0], |batch| > 1 && batch[1] == LEFT_BRACKET);
      var rest := Run(r.pending, batch[1..]);
      Batch(rest.pending, Keystroke(batch[0], r.code) + rest.reports)
  }

  /**
   * After the first i bytes of a batch: the reports so far, continued by Run from the
   * bytes now pending over the rest of the batch, are what Run gives for the whole batch.
   */
  predicate RunSoFar(start: seq<Byte>, batch: seq<Byte>, i: nat, pending: seq<Byte>, reports: seq<seq<Byte>>)
    requires i <= |batch|
  {
    Run(start, batch) == Batch(Run(pending, batch[i..]).pending, reports + Run(pending, batch[i..]).reports)
  }

  lemma RunSoFarStart(start: seq<Byte>, batch: seq<Byte>)
    ensures RunSoFar(start, batch, 0, start, [])
  {
    assert batch[0..] == batch;
  }

  /** Handling byte i extends the reports by that byte's keystroke and moves to the bytes Resolve leaves pending. */
  lemma RunSoFarStep(start: seq<Byte>, batch: seq<Byte>, i: nat, pending: seq<Byte>, reports: seq<seq<Byte>>)
    requires i < |batch| && RunSoFar(start, batch, i, pending, reports)
    ensures var r := Resolve(pending, batch[i], i + 1 < |batch| && batch[i + 1] == LEFT_BRACKET);
      RunSoFar(start, batch, i + 1, r.pending, reports + Keystroke(batch[i], r.code))
  {
    var r := Resolve(pending, batch[i], i + 1 < |batch| && batch[i + 1] == LEFT_BRACKET);
    assert batch[i..][1..] == batch[i + 1..];
    var rest := Run(r.pending, batch[i + 1..]);
    assert Run(pending, batch[i..]) == Batch(rest.pending, Keystroke(batch[i], r.code) + rest.reports);
    assert reports + Keystroke(batch[i], r.code) + rest.reports == reports + (Keystroke(batch[i], r.code) + rest.reports);
  }

  lemma RunSoFarEnd(start: seq<Byte>, batch: seq<Byte>, pending: seq<Byte>, reports: seq<seq<Byte>>)
    requires RunSoFar(start, batch, |batch|, pending, reports)
    ensures Run(start, batch) == Batch(pending, reports)
  {
    assert batch[|batch|..] == [];
  }

  /** The all-zero report that releases every key. */
  const RELEASE_ALL: seq<Byte> := Zeros(REPORT_SIZE)

  lemma ReleaseAllEncoded()
    ensures Encode(KeyReport(0, [])) == RELEASE_ALL == [0, 0, 0, 0, 0, 0, 0, 0]
  {
    EncodeNoKeys(0);
  }

  /** A press of one key whose modifier byte is 0 or Left Shift. */
  predicate IsPress(report: seq<Byte>) {
    match Decode(report)
    case Some(r) => |r.keys| == 1 && (r.modifiers == 0 || r.modifiers == LEFT_SHIFT)
    case None => false
  }

  /** The report at position k of a batch: a press at even positions, the release at odd ones. */
  predicate ReportAt(k: int, report: seq<Byte>) {
    |report| == REPORT_SIZE &&
    (k % 2 == 0 ==> IsPress(report) && 0 < report[2] <= USAGE_MAXIMUM) &&
    (k % 2 == 1 ==> report == RELEASE_ALL)
  }

  /** Reports made of whole press-release pairs. */
  predicate WholeKeystrokes(reports: seq<seq<Byte>>) {
    |reports| % 2 == 0 && forall k :: 0 <= k < |reports| ==> ReportAt(k, reports[k])
  }

  lemma KeystrokeWhole(b: Byte, code: Byte)
    requires code == 0 || code == AsciiToHid(b) || IsArrow(code)
    ensures WholeKeystrokes(Keystroke(b, code))
  {
    if code != 0 {
      var m: Byte := if ShiftScoped(b, code) then LEFT_SHIFT else 0;
      var press := Encode(KeyReport(m, [code]));
      DecodeEncode(KeyReport(m, [code]));
      EncodeOneKey(m, code);
      assert Decode(press) == Some(KeyReport(m, [code]));
      assert IsPress(press) && 0 < press[2] <= USAGE_MAXIMUM;
      assert ReportAt(0, press);
      ReleaseAllEncoded();
      assert ReportAt(1, RELEASE_ALL);
      assert Keystroke(b, code) == [press, RELEASE_ALL];
    }
  }

  lemma ConcatWhole(front: seq<seq<Byte>>, back: seq<seq<Byte>>)
    requires WholeKeystrokes(front) && WholeKeystrokes(back)
    ensures WholeKeystrokes(front + back)
  {
    forall k | |front| <= k < |front + back|
      ensures ReportAt(k, (front + back)[k])
    {
      assert (front + back)[k] == back[k - |front|];
      assert ReportAt(k - |front|, back[k - |front|]);
      assert (k - |front|) % 2 == k % 2;
    }
    assert forall k :: 0 <= k < |front| ==> (front + back)[k] == front[k];
  }

  /**
   * Every batch sends whole keystrokes: presses of exactly one key at even positions,
   * each followed by the all-zero release report, and no key code outside the range
   * the report descriptor declares.
   */
  lemma {:induction false} RunSendsKeystrokes(pending: seq<Byte>, batch: seq<Byte>)
    ensures WholeKeystrokes(Run(pending, batch).reports)
    decreases |batch|
  {
    if batch != [] {
      var r := Resolve(pending, batch[0], |batch| > 1 && batch[1] == LEFT_BRACKET);
      RunSendsKeystrokes(r.pending, batch[1..]);
      KeystrokeWhole(batch[0], r.code);
      ConcatWhole(Keystroke(batch[0], r.code), Run(r.pending, batch[1..]).reports);
    }
  }

  /** The escape bytes a batch can leave pending: a Pending shape, but never a lone ESC. */
  predicate BetweenBatches(pending: seq<Byte>) {
    Pending(pending) && pending != [ESC]
  }

  /** Every batch leaves the pending escape bytes in a shape the next batch can start from. */
  lemma RunKeepsPendingShape(pending: seq<Byte>, batch: seq<Byte>)
    requires BetweenBatches(pending)
    ensures BetweenBatches(Run(pending, batch).pending)
  {
    RunKeepsPendingShapeFrom(pending, batch);
  }

  lemma {:induction false} RunKeepsPendingShapeFrom(pending: seq<Byte>, batch: seq<Byte>)
    requires Pending(pending)
    requires pending == [ESC] ==> |batch| > 0 && batch[0] == LEFT_BRACKET
    ensures BetweenBatches(Run(pending, batch).pending)
    decreases |batch|
  {
    if batch != [] {
      var r := Resolve(pending, batch[0], |batch| > 1 && batch[1] == LEFT_BRACKET);
      assert Pending(r.pending) && (r.pending == [ESC] ==> |batch| > 1 && batch[1] == LEFT_BRACKET) by {
        if |pending| > 0 {
          ArrowCodeNonzero(Push(pending, batch[0]));
        }
      }
      RunKeepsPendingShapeFrom(r.pending, batch[1..]);
    }
  }

  /** A batch with no ESC in it, started with nothing pending, types each byte through the character table. */
  function Typed(batch: seq<Byte>): seq<seq<Byte>>
  {
    if batch == [] then [] else Keystroke(batch[0], AsciiToHid(batch[0])) + Typed(batch[1..])
  }

  lemma {:induction false} PlainTextTyped(batch: seq<Byte>)
    requires ESC !in batch
    ensures Run([], batch) == Batch([], Typed(batch))
  {
    if batch != [] {
      PlainTextTyped(batch[1..]);
    }
  }

  /** With ESC [ and a non-arrow final byte pending, one more byte is stored, or overflows the buffer. */
  lemma SwallowOne(pending: seq<Byte>, b: Byte, bracketNext: bool)
    requires Pending(pending) && |pending| >= 3
    ensures Resolve(pending, b, bracketNext) == Resolution(if |pending| < MAX_ESCAPE_LEN then pending + [b] else [], 0)
    ensures |pending| < MAX_ESCAPE_LEN ==> Pending(pending + [b])
  {
    assert |pending| < MAX_ESCAPE_LEN ==> Push(pending, b)[..3] == pending[..3];
  }

  /**
   * Once ESC [ and a final byte other than A..D are pending, every later byte is
   * swallowed without a report: a batch that stops short of the overflow leaves its
   * bytes appended to the pending ones, and the byte that would have been the eighth
   * empties the buffer.
   */
  lemma {:induction false} UnknownSequenceSwallows(pending: seq<Byte>, batch: seq<Byte>)
    requires Pending(pending) && |pending| >= 3
    requires |pending| + |batch| <= MAX_ESCAPE_LEN + 1
    ensures Run(pending, batch).reports == []
    ensures Run(pending, batch).pending == if |pending| + |batch| == MAX_ESCAPE_LEN + 1 then [] else pending + batch
    decreases |batch|
  {
    if batch == [] {
      assert pending + batch == pending;
    } else {
      SwallowOne(pending, batch[0], |batch| > 1 && batch[1] == LEFT_BRACKET);
      if |pending| < MAX_ESCAPE_LEN {
        UnknownSequenceSwallows(pending + [batch[0]], batch[1..]);
        assert pending + [batch[0]] + batch[1..] == pending + batch;
      } else {
        assert batch[1..] == [];
      }
    }
  }

  /** How ESC, '[' and the byte after them resolve when nothing was pending before the ESC. */
  lemma CsiPrefix(a: bool, b: bool, x: Byte)
    ensures Resolve([], ESC, true) == Resolution([ESC], 0)
    ensures Resolve([ESC], LEFT_BRACKET, a) == Resolution([ESC, LEFT_BRACKET], 0)
    ensures Resolve([ESC, LEFT_BRACKET], x, b) ==
      Resolution(if IsArrowFinal(x) then [] else [ESC, LEFT_BRACKET, x], ArrowCode([ESC, LEFT_BRACKET, x]))
    ensures !IsArrowFinal(x) ==> ArrowCode([ESC, LEFT_BRACKET, x]) == 0
  {
    ArrowCodeNonzero([ESC, LEFT_BRACKET]);
    ArrowCodeNonzero([ESC, LEFT_BRACKET, x]);
    assert [] + [ESC] == [ESC];
    assert [ESC] + [LEFT_BRACKET] == [ESC, LEFT_BRACKET];
    assert [ESC, LEFT_BRACKET] + [x] == [ESC, LEFT_BRACKET, x];
  }

  /** ESC [ x with x outside A..D, then five more bytes: eight bytes typed, nothing sent, nothing left pending. */
  lemma UnknownSequenceDropped(x: Byte, tail: seq<Byte>)
    requires !IsArrowFinal(x) && |tail| == 5
    ensures Run([], [ESC, LEFT_BRACKET, x] + tail) == Batch([], [])
  {
    assert [ESC, LEFT_BRACKET, x] + tail == [ESC] + ([LEFT_BRACKET] + ([x] + tail));
    CsiPrefix(x == LEFT_BRACKET, tail[0] == LEFT_BRACKET, x);
    RunFirst([], ESC, [LEFT_BRACKET] + ([x] + tail));
    RunFirst([ESC], LEFT_BRACKET, [x] + tail);
    RunFirst([ESC, LEFT_BRACKET], x, tail);
    UnknownSequenceSwallows([ESC, LEFT_BRACKET, x], tail);
  }

  /** Typing "a": a press of HID_A and the release. */
  lemma TypeLowerA()
    ensures Run([], ['a' as Byte]) == Batch([], [[0, 0, 0x04, 0, 0, 0, 0, 0], [0, 0, 0, 0, 0, 0, 0, 0]])
  {
    EncodeOneKey(0, 0x04);
    EncodeNoKeys(0);
  }

  /** Typing "A": the same key with Left Shift held for the press only. */
  lemma TypeUpperA()
    ensures Run([], ['A' as Byte]) == Batch([], [[0x02, 0, 0x04, 0, 0, 0, 0, 0], [0, 0, 0, 0, 0, 0, 0, 0]])
  {
    EncodeOneKey(LEFT_SHIFT, 0x04);
    EncodeNoKeys(0);
  }

  /** Typing "q" sends the Q key like any other letter: keyboard() has no quit command. */
  lemma TypeLowerQ()
    ensures Run([], ['q' as Byte]) == Batch([], [[0, 0, 0x14, 0, 0, 0, 0, 0], [0, 0, 0, 0, 0, 0, 0, 0]])
  {
    EncodeOneKey(0, 0x14);
    EncodeNoKeys(0);
  }

  /** ESC [ A in one batch is one press and release of the up arrow, without shift and without an Escape key. */
  lemma TypeUpArrow()
    ensures Run([], [ESC, LEFT_BRACKET, 'A' as Byte]) ==
      Batch([], [[0, 0, USAGE_UP_ARROW, 0, 0, 0, 0, 0], [0, 0, 0, 0, 0, 0, 0, 0]])
  {
    ArrowKeys('A' as Byte);
    EncodeOneKey(0, USAGE_UP_ARROW);
    ReleaseAllEncoded();
  }

  /** The four arrow keys, each from its CSI final byte. */
  lemma ArrowKeys(final: Byte)
    requires IsArrowFinal(final)
    ensures var code := [USAGE_UP_ARROW, USAGE_DOWN_ARROW, USAGE_RIGHT_ARROW, USAGE_LEFT_ARROW][final - 'A' as Byte];
      Run([], [ESC, LEFT_BRACKET, final]) == Batch([], [Encode(KeyReport(0, [code])), RELEASE_ALL])
  {
    var code := [USAGE_UP_ARROW, USAGE_DOWN_ARROW, USAGE_RIGHT_ARROW, USAGE_LEFT_ARROW][final - 'A' as Byte];
    assert [ESC, LEFT_BRACKET, final] == [ESC] + ([LEFT_BRACKET] + ([final] + []));
    CsiPrefix(final == LEFT_BRACKET, false, final);
    RunFirst([], ESC, [LEFT_BRACKET] + ([final] + []));
    RunFirst([ESC], LEFT_BRACKET, [final] + []);
    RunFirst([ESC, LEFT_BRACKET], final, []);
    assert ArrowCode([ESC, LEFT_BRACKET, final]) == code;
    ReleaseAllEncoded();
  }

  /** Run's first step on a batch written as its first byte and the rest. */
  lemma RunFirst(pending: seq<Byte>, b: Byte, rest: seq<Byte>)
    ensures var r := Resolve(pending, b, rest != [] && rest[0] == LEFT_BRACKET);
      Run(pending, [b] + rest) == Batch(Run(r.pending, rest).pending, Keystroke(b, r.code) + Run(r.pending, rest).reports)
  {
    var batch := [b] + rest;
    assert batch[0] == b && batch[1..] == rest;
  }

  /** An ESC that resolves without a '[' after it is one Escape keystroke. */
  lemma EscapeKeystroke()
    ensures Resolve([], ESC, false) == Resolution([], USAGE_ESCAPE)
    ensures Keystroke(ESC, USAGE_ESCAPE) == [Encode(KeyReport(0, [USAGE_ESCAPE])), RELEASE_ALL]
  {
    ControlCodes();
    ReleaseAllEncoded();
  }

  /** With nothing pending, an ESC that ends the batch, or that no '[' follows, is the Escape key. */
  lemma LoneEscape(rest: seq<Byte>)
    requires rest == [] || rest[0] != LEFT_BRACKET
    ensures Run([], [ESC] + rest).reports[..2] == [Encode(KeyReport(0, [USAGE_ESCAPE])), RELEASE_ALL]
    ensures rest == [] ==> Run([], [ESC]) == Batch([], [Encode(KeyReport(0, [USAGE_ESCAPE])), RELEASE_ALL])
  {
    var press := [Encode(KeyReport(0, [USAGE_ESCAPE])), RELEASE_ALL];
    RunFirst([], ESC, rest);
    EscapeKeystroke();
    var tail := Run([], rest);
    assert Run([], [ESC] + rest).reports == press + tail.reports;
    assert (press + tail.reports)[..2] == press;
    if rest == [] {
      assert [ESC] + rest == [ESC];
    }
  }

  /**
   * A batch of one byte, with nothing pending, types that byte through the character
   * table; its press carries Left Shift exactly when the byte is an upper-case letter.
   */
  lemma SingleByte(b: Byte)
    ensures Run([], [b]) == Batch([], Keystroke(b, AsciiToHid(b)))
    ensures AsciiToHid(b) != 0 ==>
      |Run([], [b]).reports| == 2 && Run([], [b]).reports[0][0] == (if IsUpper(b) then LEFT_SHIFT else 0)
    ensures AsciiToHid(b) == 0 ==> Run([], [b]).reports == []
  {
    assert [b][1..] == [];
    if AsciiToHid(b) != 0 {
      EncodeOneKey(if ShiftScoped(b, AsciiToHid(b)) then LEFT_SHIFT else 0, AsciiToHid(b));
    }
  }

  /** An ESC at the end of one batch and "[A" at the start of the next: Escape, '[', then a shifted 'a'. */
  lemma EscapeSplitAcrossBatches()
    ensures Run([], [ESC]) == Batch([], Keystroke(ESC, USAGE_ESCAPE))
    ensures Run([], [LEFT_BRACKET, 'A' as Byte]) ==
      Batch([], Keystroke(LEFT_BRACKET, 0x2f) + Keystroke('A' as Byte, USAGE_A))
  {
    assert [ESC][1..] == [];
    assert [LEFT_BRACKET, 'A' as Byte][1..] == ['A' as Byte];
    assert ['A' as Byte][1..] == [];
  }
}
