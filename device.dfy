/**
 * The keyboard's process-wide state and the operations that update it in place:
 * the modifier byte, the six keycode slots with their count, and the escape
 * buffer with its length. keyboard() drives them for each byte of a batch.
 */
module Device {
  import opened Bytes
  import opened HidTable
  import opened EscapeParser
  import opened KeyTracker
  import opened BootReport
  import opened Session

  class VirtualKeyboard {
    var modifierKeys: Byte
    const keyCodes: array<Byte>
    var numKeysPressed: int
    const escapeBuf: array<Byte>
    var escapeLen: int

    /** The tracker invariant and the bound on the escape length. */
    ghost predicate Valid()
      reads this, keyCodes
    {
      keyCodes.Length == MAX_KEYS && escapeBuf.Length == ESCAPE_CAPACITY && keyCodes != escapeBuf &&
      0 <= numKeysPressed <= MAX_KEYS &&
      (forall i :: numKeysPressed <= i < MAX_KEYS ==> keyCodes[i] == 0) &&
      NoDuplicates(keyCodes[..numKeysPressed]) &&
      0 <= escapeLen <= MAX_ESCAPE_LEN
    }

    /** No key and no modifier held: the state between two keystrokes. */
    predicate Idle()
      reads this
    {
      numKeysPressed == 0 && modifierKeys == 0
    }

    /** The held keys, in the order they were pressed. */
    ghost function Held(): seq<Byte>
      reads this, keyCodes
      requires Valid()
    {
      keyCodes[..numKeysPressed]
    }

    /** The escape bytes collected so far. */
    ghost function Escape(): seq<Byte>
      reads this, escapeBuf
      requires escapeBuf.Length == ESCAPE_CAPACITY && 0 <= escapeLen <= MAX_ESCAPE_LEN
    {
      escapeBuf[..escapeLen]
    }

    /** The six slots are the held keys followed by zeros, so the held keys determine the whole array. */
    lemma SlotsAreHeldKeysPadded()
      requires Valid()
      ensures keyCodes[..] == Held() + Zeros(MAX_KEYS - |Held()|)
    {
      assert forall k :: 0 <= k < MAX_KEYS ==> keyCodes[..][k] == (Held() + Zeros(MAX_KEYS - |Held()|))[k];
    }

    /** The static initialisers: everything zero. */
    constructor ()
      ensures Valid() && Idle() && Held() == [] && Escape() == []
      ensures keyCodes[..] == Zeros(MAX_KEYS)
      ensures fresh(keyCodes) && fresh(escapeBuf)
    {
      modifierKeys := 0;
      keyCodes := new Byte[MAX_KEYS](_ => 0);
      numKeysPressed := 0;
      escapeBuf := new Byte[ESCAPE_CAPACITY](_ => 0);
      escapeLen := 0;
    }

    /** add_key */
    method AddKey(code: Byte)
      requires Valid()
      modifies this`numKeysPressed, keyCodes
      ensures Valid()
      ensures Held() == Pressed(old(Held()), code)
    {
      if numKeysPressed >= MAX_KEYS { return; }
      var i := 0;
      while i < numKeysPressed
        invariant 0 <= i <= numKeysPressed
        invariant code !in keyCodes[..i]
      {
        if keyCodes[i] == code { return; }
        assert keyCodes[..i + 1] == keyCodes[..i] + [keyCodes[i]];
        i := i + 1;
      }
      assert keyCodes[..numKeysPressed] == old(Held());
      keyCodes[numKeysPressed] := code;
      numKeysPressed := numKeysPressed + 1;
      assert Held() == old(Held()) + [code];
    }

    /** remove_key */
    method RemoveKey(code: Byte)
      requires Valid()
      modifies this`numKeysPressed, keyCodes
      ensures Valid()
      ensures Held() == Released(old(Held()), code)
    {
      ghost var keys := Held();
      ghost var n := numKeysPressed;
      for i := 0 to numKeysPressed
        invariant code !in keys[..i]
        invariant keyCodes[..] == old(keyCodes[..]) && numKeysPressed == n
      {
        if keyCodes[i] == code {
          ghost var rest := keys[..i] + keys[i + 1..];
          assert forall k :: 0 <= k < n - 1 ==> rest[k] == keys[if k < i then k else k + 1];
          assert forall k :: 0 <= k < n ==> keys[k] == keyCodes[k];
          ShiftLeft(i);
          numKeysPressed := numKeysPressed - 1;
          keyCodes[numKeysPressed] := 0;
          assert forall k :: 0 <= k < n - 1 ==> keyCodes[k] == rest[k];
          assert Held() == rest;
          ReleasedAt(keys, code, i);
          ReleasedWellFormed(keys, code);
          assert NoDuplicates(Held());
          assert forall k :: numKeysPressed <= k < MAX_KEYS ==> keyCodes[k] == 0;
          return;
        }
        assert keys[..i + 1] == keys[..i] + [keys[i]];
      }
      assert keys == keys[..n];
      ReleasedAbsent(keys, code);
    }

    /** The inner loop of remove_key: slots i+1 .. count-1 move one slot to the left. */
    method ShiftLeft(i: int)
      requires Valid() && 0 <= i < numKeysPressed
      modifies keyCodes
      ensures forall k :: 0 <= k < i ==> keyCodes[k] == old(keyCodes[k])
      ensures forall k :: i <= k < numKeysPressed - 1 ==> keyCodes[k] == old(keyCodes[k + 1])
      ensures forall k :: numKeysPressed - 1 <= k < MAX_KEYS ==> keyCodes[k] == old(keyCodes[k])
    {
      for j := i to numKeysPressed - 1
        invariant forall k :: 0 <= k < i ==> keyCodes[k] == old(keyCodes[k])
        invariant forall k :: i <= k < j ==> keyCodes[k] == old(keyCodes[k + 1])
        invariant forall k :: j <= k < MAX_KEYS ==> keyCodes[k] == old(keyCodes[k])
      {
        keyCodes[j] := keyCodes[j + 1];
      }
    }

    /** clear_keys */
    method ClearKeys()
      requires Valid()
      modifies this`numKeysPressed, this`modifierKeys, keyCodes
      ensures Valid() && Idle() && Held() == []
      ensures keyCodes[..] == Zeros(MAX_KEYS)
    {
      for i := 0 to MAX_KEYS
        invariant forall k :: 0 <= k < i ==> keyCodes[k] == 0
      {
        keyCodes[i] := 0;
      }
      numKeysPressed := 0;
      modifierKeys := 0;
    }

    /** add_to_escape_buf */
    method AddToEscapeBuf(c: Byte)
      requires Valid()
      modifies this`escapeLen, escapeBuf
      ensures Valid()
      ensures Escape() == Push(old(Escape()), c)
    {
      if escapeLen < ESCAPE_CAPACITY - 1 {
        escapeBuf[escapeLen] := c;
        escapeLen := escapeLen + 1;
        assert Escape() == old(Escape()) + [c];
      } else {
        escapeLen := 0;
      }
    }

    /** process_escape_sequence: the arrow usage, with the buffer emptied, or 0 with the buffer as it was. */
    method ProcessEscapeSequence() returns (hidCode: Byte)
      requires Valid()
      modifies this`escapeLen
      ensures Valid()
      ensures hidCode == ArrowCode(old(Escape()))
      ensures Escape() == if hidCode != 0 then [] else old(Escape())
    {
      hidCode := 0;
      if escapeLen >= 3 && escapeBuf[0] == ESC && escapeBuf[1] == LEFT_BRACKET {
        match escapeBuf[2] {
          case 0x41 => hidCode := USAGE_UP_ARROW;
          case 0x42 => hidCode := USAGE_DOWN_ARROW;
          case 0x43 => hidCode := USAGE_RIGHT_ARROW;
          case 0x44 => hidCode := USAGE_LEFT_ARROW;
          case _ =>
        }
        if hidCode != 0 {
          escapeLen := 0;
        }
      }
    }

    /**
     * The input report send_event hands to the device: the layout of the held keys
     * and the modifiers. The first six keycode slots of the report are exactly the
     * six array slots, because the slots past the count are kept zero.
     */
    method SendEvent() returns (report: seq<Byte>)
      requires Valid()
      ensures report == Encode(KeyReport(modifierKeys, Held()))
      ensures report[2..] == keyCodes[..]
    {
      var data := new Byte[REPORT_SIZE](_ => 0);
      data[0] := modifierKeys;
      data[1] := 0;
      if numKeysPressed > 0 {
        var copyLen := if numKeysPressed > MAX_KEYS then MAX_KEYS else numKeysPressed;
        for k := 0 to copyLen
          invariant data[0] == modifierKeys && data[1] == 0
          invariant forall m :: 0 <= m < k ==> data[2 + m] == keyCodes[m]
          invariant forall m :: 2 + k <= m < REPORT_SIZE ==> data[m] == 0
        {
          data[2 + k] := keyCodes[k];
        }
      }
      assert forall m :: 0 <= m < MAX_KEYS ==> data[2 + m] == keyCodes[m];
      report := data[..];
      assert report[2..] == keyCodes[..];
      assert report[2..2 + numKeysPressed] == Held();
    }

    /**
     * The end of keyboard()'s loop body for a byte b that resolved to a usage:
     * Left Shift for an upper-case letter that is no arrow, the key-down report,
     * the key-up report, and the shift released again.
     */
    method PressAndRelease(b: Byte, hidCode: Byte) returns (press: seq<Byte>, release: seq<Byte>)
      requires Valid() && Idle() && hidCode != 0
      modifies this`modifierKeys, this`numKeysPressed, keyCodes
      ensures Valid() && Idle()
      ensures [press, release] == Keystroke(b, hidCode)
    {
      if IsUpper(b) && !IsArrow(hidCode) {
        modifierKeys := ((modifierKeys as bv8) | (LEFT_SHIFT as bv8)) as Byte;
      }
      ghost var shift := modifierKeys;
      assert shift == if ShiftScoped(b, hidCode) then LEFT_SHIFT else 0;
      AddKey(hidCode);
      assert Held() == [hidCode];
      press := SendEvent();
      RemoveKey(hidCode);
      assert Held() == [];
      if IsUpper(b) && !IsArrow(hidCode) {
        modifierKeys := ((modifierKeys as bv8) & !(LEFT_SHIFT as bv8)) as Byte;
      }
      assert modifierKeys == 0;
      release := SendEvent();
    }

    /**
     * The per-byte loop of keyboard() over one batch read from the terminal. The
     * reports are those it writes to the device, in order; a failed write does not
     * change what the loop does next, so every report is listed.
     */
    method Keyboard(buf: seq<Byte>) returns (reports: seq<seq<Byte>>)
      requires Valid() && Idle()
      modifies this, keyCodes, escapeBuf
      ensures Valid() && Idle()
      ensures Batch(Escape(), reports) == Run(old(Escape()), buf)
    {
      ghost var start := Escape();
      reports := [];
      RunSoFarStart(start, buf);
      for i := 0 to |buf|
        invariant Valid() && Idle()
        invariant RunSoFar(start, buf, i, Escape(), reports)
      {
        ghost var r := Resolve(Escape(), buf[i], i + 1 < |buf| && buf[i + 1] == LEFT_BRACKET);
        RunSoFarStep(start, buf, i, Escape(), reports);
        assert Keystroke(buf[i], 0) == [] && reports + [] == reports;
        var hidCode: Byte := 0;
        if escapeLen > 0 {
          AddToEscapeBuf(buf[i]);
          hidCode := ProcessEscapeSequence();
          if hidCode == 0 {
            assert Escape() == r.pending && r.code == 0;
            continue;
          }
        } else if buf[i] == ESC {
          if i + 1 < |buf| && buf[i + 1] == LEFT_BRACKET {
            AddToEscapeBuf(buf[i]);
            assert Escape() == r.pending && r.code == 0;
            continue;
          } else {
            hidCode := AsciiToHid(buf[i]);
          }
        } else {
          hidCode := AsciiToHid(buf[i]);
        }
        assert Escape() == r.pending && hidCode == r.code;
        if hidCode == 0 {
          continue;
        }
        var press, release := PressAndRelease(buf[i], hidCode);
        reports := reports + [press, release];
      }
      RunSoFarEnd(start, buf, Escape(), reports);
    }
  }
}
