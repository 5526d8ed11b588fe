/**
 * The pressed-key set of a boot keyboard, as an ordered sequence of at most six
 * usages. The device class stores it in six array slots and a count; this module
 * says what adding and removing mean and proves the invariant they keep.
 */
module KeyTracker {
  import opened Bytes

  /** A boot keyboard report has room for six non-modifier keys. */
  const MAX_KEYS: nat := 6

  predicate NoDuplicates(keys: seq<Byte>) {
    forall i, j :: 0 <= i < j < |keys| ==> keys[i] != keys[j]
  }

  /** The tracker invariant on the held keys. */
  predicate WellFormed(keys: seq<Byte>) {
    |keys| <= MAX_KEYS && NoDuplicates(keys)
  }

  /** add_key: a seventh key or a key already held is dropped, anything else goes at the end. */
  function Pressed(keys: seq<Byte>, code: Byte): seq<Byte>
  {
    if |keys| >= MAX_KEYS || code in keys then keys else keys + [code]
  }

  /** remove_key: the first occurrence of code is taken out and the later keys close the gap. */
  function Released(keys: seq<Byte>, code: Byte): seq<Byte>
  {
    if keys == [] then []
    else if keys[0] == code then keys[1..]
    else [keys[0]] + Released(keys[1..], code)
  }

  lemma PressedWellFormed(keys: seq<Byte>, code: Byte)
    requires WellFormed(keys)
    ensures WellFormed(Pressed(keys, code))
    ensures code in Pressed(keys, code) <==> |keys| < MAX_KEYS || code in keys
    ensures |keys| < MAX_KEYS && code !in keys ==> Pressed(keys, code) == keys + [code]
    ensures |keys| >= MAX_KEYS || code in keys ==> Pressed(keys, code) == keys
  {}

  /** Removing leaves the keys before the match, then the keys after it, in order. */
  lemma {:induction false} ReleasedAt(keys: seq<Byte>, code: Byte, i: nat)
    requires i < |keys| && keys[i] == code && code !in keys[..i]
    ensures Released(keys, code) == keys[..i] + keys[i + 1..]
  {
    if i > 0 {
      assert keys[0] != code by { assert keys[0] == keys[..i][0]; }
      assert code !in keys[1..][..i - 1] by { assert keys[1..][..i - 1] == keys[..i][1..]; }
      ReleasedAt(keys[1..], code, i - 1);
      assert keys[..i] == [keys[0]] + keys[1..][..i - 1];
    }
  }

  /** remove_key of a key that is not held changes nothing. */
  lemma {:induction false} ReleasedAbsent(keys: seq<Byte>, code: Byte)
    requires code !in keys
    ensures Released(keys, code) == keys
  {
    if keys != [] {
      ReleasedAbsent(keys[1..], code);
    }
  }

  /** The position of the first occurrence of a held key. */
  lemma FirstIndex(keys: seq<Byte>, code: Byte) returns (i: nat)
    requires code in keys
    ensures i < |keys| && keys[i] == code && code !in keys[..i]
  {
    i := 0;
    while keys[i] != code
      invariant i < |keys| && code in keys[i..] && code !in keys[..i]
      decreases |keys| - i
    {
      assert keys[..i + 1] == keys[..i] + [keys[i]];
      i := i + 1;
    }
  }

  /** Removing a key keeps the invariant, takes exactly that key out and shortens the set by one when it was held. */
  lemma ReleasedWellFormed(keys: seq<Byte>, code: Byte)
    requires WellFormed(keys)
    ensures WellFormed(Released(keys, code))
    ensures code !in Released(keys, code)
    ensures forall k :: k != code ==> (k in Released(keys, code) <==> k in keys)
    ensures |Released(keys, code)| == if code in keys then |keys| - 1 else |keys|
  {
    if code !in keys {
      ReleasedAbsent(keys, code);
    } else {
      var i := FirstIndex(keys, code);
      ReleasedAt(keys, code, i);
      var r := keys[..i] + keys[i + 1..];
      assert forall m :: 0 <= m < |r| ==> r[m] == keys[if m < i then m else m + 1];
      assert forall k :: k in r <==> exists m :: 0 <= m < |r| && r[m] == k;
      assert forall k :: k in keys <==> exists m :: 0 <= m < |keys| && keys[m] == k;
      forall k | k in keys && k != code ensures k in r {
        var m :| 0 <= m < |keys| && keys[m] == k;
        assert m != i;
        assert r[if m < i then m else m - 1] == k;
      }
    }
  }

  /** A press followed by the release of a key that was not held restores the exact prior set. */
  lemma {:induction false} PressThenRelease(keys: seq<Byte>, code: Byte)
    requires |keys| < MAX_KEYS && code !in keys
    ensures Released(Pressed(keys, code), code) == keys
  {
    ReleasedAt(keys + [code], code, |keys|);
    assert (keys + [code])[..|keys|] == keys;
  }
}
