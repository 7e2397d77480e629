/**
 * The Redis keys and values of the Job process. The commands that set marks and locks take their
 * key as a C string, so a key ends at the first NUL byte of the room name; the release script gets
 * the whole key.
 */
module JobKeys {
  import opened Bytes
  import opened Decimal

  const UNDERSCORE: byte := 95
  const COLON: byte := 58

  const LOCK_PREFIX: bytes := Ascii("lock:broadcast:")
  const COOLDOWN_PREFIX: bytes := Ascii("room:cooldown:")
  const DEDUP_PREFIX: bytes := Ascii("msg:processed:")
  const CONSUMER: bytes := Ascii("consumer_")

  type Key = bytes

  /** The lock's key as main.cc builds it and the release script gets it. */
  function LockKey(room: bytes): Key {
    LOCK_PREFIX + room
  }

  /** The key under which a lock is set. */
  function SetLockKey(room: bytes): Key {
    UpToNul(LockKey(room))
  }

  function CooldownKey(room: bytes): Key {
    UpToNul(COOLDOWN_PREFIX + room)
  }

  function DedupKey(room: bytes, msgId: bytes): Key {
    UpToNul(DEDUP_PREFIX + (room + [COLON] + msgId))
  }

  /** The message id of main.cc: it names the room, the second and the consumer, not the message. */
  function MsgId(room: bytes, second: nat, i: nat): bytes {
    room + ([UNDERSCORE] + DecimalOf(second)) + ([UNDERSCORE] + DecimalOf(i))
  }

  /** The deduplication mark that consumer i sets for a room in some second. */
  function MarkKey(room: bytes, second: nat, i: nat): Key {
    DedupKey(room, MsgId(room, second, i))
  }

  function LockValue(i: nat, second: nat): bytes {
    CONSUMER + (DecimalOf(i) + ([UNDERSCORE] + DecimalOf(second)))
  }

  predicate IsLockKey(key: Key) {
    |key| > 0 && key[0] == 'l' as int
  }

  lemma PrefixWhole()
    ensures 0 !in LOCK_PREFIX && 0 !in COOLDOWN_PREFIX && 0 !in DEDUP_PREFIX && 0 !in CONSUMER
  {
  }

  /** What Redis gets to see of each key. */
  lemma KeysSeen(room: bytes, msgId: bytes)
    ensures SetLockKey(room) == LOCK_PREFIX + UpToNul(room) && CooldownKey(room) == COOLDOWN_PREFIX + UpToNul(room)
    ensures DedupKey(room, msgId) ==
            DEDUP_PREFIX + if 0 in room then UpToNul(room) else room + [COLON] + UpToNul(msgId)
  {
    PrefixWhole();
    UpToNulConcat(LOCK_PREFIX, room);
    UpToNulConcat(COOLDOWN_PREFIX, room);
    UpToNulConcat(DEDUP_PREFIX, room + [COLON] + msgId);
    UpToNulConcat(room + [COLON], msgId);
    assert 0 in room + [COLON] <==> 0 in room;
    UpToNulConcat(room, [COLON]);
  }

  /** The keys of a room and the value of a lock, byte for byte, for rooms without NUL bytes. */
  lemma KeysExactly(room: bytes, second: nat, i: nat)
    requires 0 !in room
    ensures SetLockKey(room) ==
            [108, 111, 99, 107, 58, 98, 114, 111, 97, 100, 99, 97, 115, 116, 58] + room  // lock:broadcast:
    ensures CooldownKey(room) ==
            [114, 111, 111, 109, 58, 99, 111, 111, 108, 100, 111, 119, 110, 58] + room  // room:cooldown:
    ensures MarkKey(room, second, i) ==
            [109, 115, 103, 58, 112, 114, 111, 99, 101, 115, 115, 101, 100, 58] + room  // msg:processed:
            + [58] + room + [95] + DecimalOf(second) + [95] + DecimalOf(i)
    ensures LockValue(i, second) ==
            [99, 111, 110, 115, 117, 109, 101, 114, 95] + DecimalOf(i) + [95] + DecimalOf(second)  // consumer_
  {
    KeysSeen(room, []);
    MarkSeen(room, second, i);
    UpToNulWhole(room);
    PrefixBytes();
    MarkBytes(room, second, i);
    ValueBytes(i, second);
    hide *;
  }

  lemma MarkBytes(room: bytes, second: nat, i: nat)
    ensures DEDUP_PREFIX + MarkTail(room, second, i) ==
            DEDUP_PREFIX + room + [58] + room + [95] + DecimalOf(second) + [95] + DecimalOf(i)
  {
    hide DecimalOf;
  }

  lemma ValueBytes(i: nat, second: nat)
    ensures LockValue(i, second) == CONSUMER + DecimalOf(i) + [95] + DecimalOf(second)
  {
    hide DecimalOf;
  }

  lemma PrefixBytes()
    ensures LOCK_PREFIX == [108, 111, 99, 107, 58, 98, 114, 111, 97, 100, 99, 97, 115, 116, 58]
    ensures COOLDOWN_PREFIX == [114, 111, 111, 109, 58, 99, 111, 111, 108, 100, 111, 119, 110, 58]
    ensures DEDUP_PREFIX == [109, 115, 103, 58, 112, 114, 111, 99, 101, 115, 115, 101, 100, 58]
    ensures CONSUMER == [99, 111, 110, 115, 117, 109, 101, 114, 95]
  {
  }

  lemma KeyKinds(room: bytes, msgId: bytes)
    ensures IsLockKey(LockKey(room)) && IsLockKey(SetLockKey(room))
    ensures |CooldownKey(room)| > 0 && CooldownKey(room)[0] == 'r' as int
    ensures |DedupKey(room, msgId)| > 0 && DedupKey(room, msgId)[0] == 'm' as int
  {
    KeysSeen(room, msgId);
    hide SetLockKey, CooldownKey, DedupKey;
    assert SetLockKey(room)[0] == LOCK_PREFIX[0] == 'l' as int;
    assert LockKey(room)[0] == LOCK_PREFIX[0] == 'l' as int;
    assert CooldownKey(room)[0] == COOLDOWN_PREFIX[0] == 'r' as int;
    assert DedupKey(room, msgId)[0] == DEDUP_PREFIX[0] == 'm' as int;
  }

  lemma SamePrefix(p: bytes, a: bytes, b: bytes)
    requires p + a == p + b
    ensures a == b
  {
    assert (p + a)[|p|..] == a && (p + b)[|p|..] == b;
  }

  /** The lock that is set for a room is the one that its release deletes exactly when the name holds no NUL byte. */
  lemma ReleaseFindsLock(room: bytes)
    ensures LockKey(room) == SetLockKey(room) <==> 0 !in room
  {
    KeysSeen(room, []);
    UpToNulWhole(room);
    hide SetLockKey;
    if LockKey(room) == SetLockKey(room) {
      SamePrefix(LOCK_PREFIX, room, UpToNul(room));
    }
  }

  /** Rooms share their lock, and their cooldown, exactly when they agree up to the first NUL byte. */
  lemma RoomsShareGates(room: bytes, room': bytes)
    ensures SetLockKey(room) == SetLockKey(room') <==> UpToNul(room) == UpToNul(room')
    ensures CooldownKey(room) == CooldownKey(room') <==> UpToNul(room) == UpToNul(room')
  {
    KeysSeen(room, []);
    KeysSeen(room', []);
    hide SetLockKey, CooldownKey;
    if SetLockKey(room) == SetLockKey(room') { SamePrefix(LOCK_PREFIX, UpToNul(room), UpToNul(room')); }
    if CooldownKey(room) == CooldownKey(room') { SamePrefix(COOLDOWN_PREFIX, UpToNul(room), UpToNul(room')); }
  }

  // ---------------------------------------------------------------- values name their maker

  lemma DigitsOnly(n: nat)
    ensures UNDERSCORE !in DecimalOf(n) && 0 !in DecimalOf(n)
  {
    DecimalNonEmpty(n);
  }

  /** Up to the first underscore two equal strings agree. */
  lemma SplitFirst(a: bytes, b: bytes, a': bytes, b': bytes)
    requires UNDERSCORE !in a && UNDERSCORE !in a' && a + ([UNDERSCORE] + b) == a' + ([UNDERSCORE] + b')
    ensures a == a' && b == b'
  {
    var s, s' := a + ([UNDERSCORE] + b), a' + ([UNDERSCORE] + b');
    assert s[|a|] == UNDERSCORE && s'[|a'|] == UNDERSCORE;
    assert forall i :: 0 <= i < |a| ==> s[i] == a[i];
    assert forall i :: 0 <= i < |a'| ==> s'[i] == a'[i];
    assert |a| == |a'|;
    assert a == s[..|a|] == a' && b == s[|a| + 1..] == b';
  }

  /** From the last underscore on two equal strings agree. */
  lemma SplitLast(a: bytes, b: bytes, a': bytes, b': bytes)
    requires UNDERSCORE !in b && UNDERSCORE !in b' && a + ([UNDERSCORE] + b) == a' + ([UNDERSCORE] + b')
    ensures a == a' && b == b'
  {
    var s, s' := a + ([UNDERSCORE] + b), a' + ([UNDERSCORE] + b');
    assert s[|a|] == UNDERSCORE && s'[|a'|] == UNDERSCORE;
    assert forall i :: |a| < i < |s| ==> s[i] == b[i - |a| - 1];
    assert forall i :: |a'| < i < |s'| ==> s'[i] == b'[i - |a'| - 1];
    assert |a| == |a'|;
    assert a == s[..|a|] == a' && b == s[|a| + 1..] == b';
  }

  /** A lock value names its consumer and second, and survives being passed as a C string. */
  lemma LockValueInjective(i: nat, t: nat, i': nat, t': nat)
    requires LockValue(i, t) == LockValue(i', t')
    ensures i == i' && t == t'
  {
    var rest, rest' := [UNDERSCORE] + DecimalOf(t), [UNDERSCORE] + DecimalOf(t');
    SamePrefix(CONSUMER, DecimalOf(i) + rest, DecimalOf(i') + rest');
    DigitsOnly(i);
    DigitsOnly(i');
    SplitFirst(DecimalOf(i), DecimalOf(t), DecimalOf(i'), DecimalOf(t'));
    DecimalInjective(i, i');
    DecimalInjective(t, t');
  }

  lemma LockValueWhole(i: nat, t: nat)
    ensures UpToNul(LockValue(i, t)) == LockValue(i, t)
  {
    PrefixWhole();
    DigitsOnly(i);
    DigitsOnly(t);
    UpToNulWhole(LockValue(i, t));
  }

  /** For rooms without NUL bytes, what follows the prefix of a mark's key. */
  function MarkTail(room: bytes, t: nat, i: nat): bytes {
    room + [COLON] + MsgId(room, t, i)
  }

  lemma MarkSeen(room: bytes, t: nat, i: nat)
    ensures MarkKey(room, t, i) == DEDUP_PREFIX + if 0 in room then UpToNul(room) else MarkTail(room, t, i)
  {
    KeysSeen(room, MsgId(room, t, i));
    DigitsOnly(i);
    DigitsOnly(t);
    UpToNulWhole(MsgId(room, t, i));
    hide DedupKey, UpToNul;
  }

  lemma TailShape(room: bytes, t: nat, i: nat)
    ensures MarkTail(room, t, i) ==
            (room + [COLON] + room + ([UNDERSCORE] + DecimalOf(t))) + ([UNDERSCORE] + DecimalOf(i))
  {
    var x, y := [UNDERSCORE] + DecimalOf(t), [UNDERSCORE] + DecimalOf(i);
    assert room + [COLON] + (room + x + y) == (room + [COLON] + room + x) + y;
  }

  lemma TailInjective(room: bytes, t: nat, i: nat, room': bytes, t': nat, i': nat)
    requires MarkTail(room, t, i) == MarkTail(room', t', i')
    ensures room == room' && t == t' && i == i'
  {
    var head, head' := room + [COLON] + room, room' + [COLON] + room';
    var mid, mid' := head + ([UNDERSCORE] + DecimalOf(t)), head' + ([UNDERSCORE] + DecimalOf(t'));
    TailShape(room, t, i);
    TailShape(room', t', i');
    DigitsOnly(i);
    DigitsOnly(i');
    SplitLast(mid, DecimalOf(i), mid', DecimalOf(i'));
    DigitsOnly(t);
    DigitsOnly(t');
    SplitLast(head, DecimalOf(t), head', DecimalOf(t'));
    assert |room| == |room'|;
    assert room == head[..|room|] == head'[..|room'|] == room';
    DecimalInjective(t, t');
    DecimalInjective(i, i');
  }

  /**
   * Exactly when two visits set the same mark. For rooms without NUL bytes a mark names the room, the
   * second and the consumer; a NUL byte hides all that follows it.
   */
  lemma SameMark(room: bytes, t: nat, i: nat, room': bytes, t': nat, i': nat)
    ensures MarkKey(room, t, i) == MarkKey(room', t', i') <==>
            if 0 !in room && 0 !in room' then room == room' && t == t' && i == i'
            else if 0 !in room' then UpToNul(room) == MarkTail(room', t', i')
            else if 0 !in room then UpToNul(room') == MarkTail(room, t, i)
            else UpToNul(room) == UpToNul(room')
  {
    MarkSeen(room, t, i);
    MarkSeen(room', t', i');
    var a, b := if 0 in room then UpToNul(room) else MarkTail(room, t, i),
                if 0 in room' then UpToNul(room') else MarkTail(room', t', i');
    hide MarkKey, MarkTail;
    if MarkKey(room, t, i) == MarkKey(room', t', i') {
      SamePrefix(DEDUP_PREFIX, a, b);
      if 0 !in room && 0 !in room' { TailInjective(room, t, i, room', t', i'); }
    }
  }

  /** The longer room name continues the shorter one after a separator, and the shorter one's message id makes up for it. */
  predicate Overlaps(room: bytes, msgId: bytes, room': bytes, msgId': bytes) {
    && |room| < |room'| && room == room'[..|room|] && room'[|room|] == COLON
    && msgId == room'[|room| + 1..] + [COLON] + msgId'
  }

  /** Exactly when two messages share a deduplication key, for any message ids. */
  lemma DedupKeyCollides(room: bytes, msgId: bytes, room': bytes, msgId': bytes)
    ensures DedupKey(room, msgId) == DedupKey(room', msgId') <==>
            var m, m' := UpToNul(msgId), UpToNul(msgId');
            if 0 in room && 0 in room' then UpToNul(room) == UpToNul(room')
            else if 0 in room then UpToNul(room) == room' + [COLON] + m'
            else if 0 in room' then UpToNul(room') == room + [COLON] + m
            else (room == room' && m == m') || Overlaps(room, m, room', m') || Overlaps(room', m', room, m)
  {
    KeysSeen(room, msgId);
    KeysSeen(room', msgId');
    hide DedupKey;
    var m, m' := UpToNul(msgId), UpToNul(msgId');
    var s, s' := if 0 in room then UpToNul(room) else room + [COLON] + m,
                 if 0 in room' then UpToNul(room') else room' + [COLON] + m';
    if DedupKey(room, msgId) == DedupKey(room', msgId') {
      SamePrefix(DEDUP_PREFIX, s, s');
      if 0 !in room && 0 !in room' {
        if |room| <= |room'| { SharedKey(room, m, room', m'); } else { SharedKey(room', m', room, m); }
      }
    }
    if Overlaps(room, m, room', m') { OverlapsShare(room, m, room', m'); }
    if Overlaps(room', m', room, m) { OverlapsShare(room', m', room, m); }
  }

  lemma SharedKey(room: bytes, msgId: bytes, room': bytes, msgId': bytes)
    requires room + [COLON] + msgId == room' + [COLON] + msgId' && |room| <= |room'|
    ensures (room == room' && msgId == msgId') || Overlaps(room, msgId, room', msgId')
  {
    var s, s', n := room + [COLON] + msgId, room' + [COLON] + msgId', |room|;
    assert s[..n] == room && s'[..n] == room'[..n] && s[n] == COLON && s[n + 1..] == msgId;
    if n < |room'| {
      assert s'[n] == room'[n] && s'[n + 1..] == room'[n + 1..] + [COLON] + msgId';
    } else {
      assert s'[n + 1..] == msgId' && room'[..n] == room';
    }
  }

  lemma OverlapsShare(room: bytes, msgId: bytes, room': bytes, msgId': bytes)
    requires Overlaps(room, msgId, room', msgId')
    ensures room + [COLON] + msgId == room' + [COLON] + msgId'
  {
    assert room' == room + [COLON] + room'[|room| + 1..];
  }
}
