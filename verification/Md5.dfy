/**
 * Streaming MD5 as base/md5.cc computes it: a 64-byte buffer, a 64-bit counter kept in two 32-bit
 * words, padding, and the digest. The block function (transform) is a parameter, so everything
 * here holds of any block function, the real one included.
 */
module Md5 {
  import opened Bytes

  const TWO32: int := 0x1_0000_0000
  const TWO29: int := 0x2000_0000
  const TWO64: int := 0x1_0000_0000_0000_0000
  const BLOCK: nat := 64

  type Word = x: int | 0 <= x < TWO32

  datatype State = State(a: Word, b: Word, c: Word, d: Word)

  /** A block function: it is only ever applied to 64 bytes. */
  type Transform = (State, bytes) -> State

  const INIT := State(0x67452301, 0xefcdab89, 0x98badcfe, 0x10325476)

  // ---------------------------------------------------------------- one-shot definition

  function Absorb(f: Transform, st: State, s: bytes): State
    requires |s| % BLOCK == 0
    decreases |s|
  {
    if s == [] then st else Absorb(f, f(st, s[..BLOCK]), s[BLOCK..])
  }

  lemma {:induction false} AbsorbAppend(f: Transform, st: State, s: bytes, t: bytes)
    requires |s| % BLOCK == 0 && |t| % BLOCK == 0
    ensures Absorb(f, st, s + t) == Absorb(f, Absorb(f, st, s), t)
    decreases |s|
  {
    if s == [] {
      assert s + t == t;
    } else {
      assert (s + t)[..BLOCK] == s[..BLOCK] && (s + t)[BLOCK..] == s[BLOCK..] + t;
      AbsorbAppend(f, f(st, s[..BLOCK]), s[BLOCK..], t);
    }
  }

  lemma AbsorbBlock(f: Transform, st: State, s: bytes, t: bytes)
    requires |s| % BLOCK == 0 && |t| == BLOCK
    ensures Absorb(f, st, s + t) == f(Absorb(f, st, s), t)
  {
    AbsorbAppend(f, st, s, t);
    assert t[..BLOCK] == t && t[BLOCK..] == [];
    assert Absorb(f, f(Absorb(f, st, s), t), []) == f(Absorb(f, st, s), t);
  }

  function Zeros(n: nat): (s: bytes)
    ensures |s| == n && forall i :: 0 <= i < n ==> s[i] == 0
  {
    seq(n, _ => 0)
  }

  /** A 32-bit word, low-order byte first. */
  function WordBytes(w: Word): (s: bytes)
    ensures |s| == 4
  {
    [w % 256, w / 256 % 256, w / 0x1_0000 % 256, w / 0x100_0000]
  }

  /** Section 3.2 of RFC 1321: the bit length modulo 2^64, low-order word first. */
  function LengthBytes(n: nat): (s: bytes)
    ensures |s| == 8
  {
    var bits := 8 * n % TWO64;
    WordBytes(bits % TWO32) + WordBytes(bits / TWO32)
  }

  /** Section 3.1 of RFC 1321: one 0x80 byte, then zeros up to 56 modulo 64. */
  function Padding(n: nat): (s: bytes)
    ensures (n + |s|) % BLOCK == 56
  {
    PaddingLength(n);
    [0x80] + Zeros((55 - n) % BLOCK)
  }

  lemma PaddingLength(n: nat)
    ensures (n + 1 + (55 - n) % BLOCK) % BLOCK == 56
    ensures (55 - n) % BLOCK == if n % BLOCK < 56 then 55 - n % BLOCK else 119 - n % BLOCK
  {
    var k, t := n / BLOCK, n % BLOCK;
    var z := if t < 56 then 55 - t else 119 - t;
    assert 55 - n == BLOCK * (if t < 56 then -k else -k - 1) + z;
    assert (55 - n) % BLOCK == z;
    assert n + 1 + z == BLOCK * (if t < 56 then k else k + 1) + 56;
  }

  lemma EightMore(x: nat)
    requires x % BLOCK == 56
    ensures (x + 8) % BLOCK == 0
  {
  }

  function Padded(msg: bytes): (s: bytes)
    ensures |s| % BLOCK == 0
  {
    EightMore(|msg| + |Padding(|msg|)|);
    msg + Padding(|msg|) + LengthBytes(|msg|)
  }

  function StateBytes(st: State): bytes {
    WordBytes(st.a) + WordBytes(st.b) + WordBytes(st.c) + WordBytes(st.d)
  }

  lemma PaddedIs(msg: bytes)
    ensures Padded(msg) == msg + Padding(|msg|) + LengthBytes(|msg|)
    ensures (|msg| + |Padding(|msg|)|) % BLOCK == 56 && |Padding(|msg|)| <= 64 && |LengthBytes(|msg|)| == 8
  {
  }

  /** Sections 3.1 to 3.5 of RFC 1321 over the block function f. */
  function Md5Of(f: Transform, msg: bytes): bytes {
    StateBytes(Absorb(f, INIT, Padded(msg)))
  }

  // ---------------------------------------------------------------- byte for byte

  /** The number some bytes denote, the low-order byte first. */
  function LittleEndian(s: bytes): nat {
    if s == [] then 0 else s[0] + 256 * LittleEndian(s[1..])
  }

  lemma {:induction false} LittleEndianInjective(s: bytes, t: bytes)
    requires |s| == |t| && LittleEndian(s) == LittleEndian(t)
    ensures s == t
  {
    if s != [] {
      assert s[0] == LittleEndian(s) % 256 && t[0] == LittleEndian(t) % 256;
      LittleEndianInjective(s[1..], t[1..]);
      assert s == [s[0]] + s[1..] && t == [t[0]] + t[1..];
    }
  }

  lemma {:induction false} LittleEndianConcat(s: bytes, t: bytes)
    requires |s| == 4
    ensures LittleEndian(s + t) == LittleEndian(s) + TWO32 * LittleEndian(t)
  {
    FourBytes(s);
    var u := s + t;
    assert u[1..][1..][1..][1..] == t;
    assert u[0] == s[0] && u[1..][0] == s[1] && u[1..][1..][0] == s[2] && u[1..][1..][1..][0] == s[3];
    assert LittleEndian(u[1..][1..]) == s[2] + 256 * ((s[3] as int) + 256 * LittleEndian(t));
  }

  lemma FourBytes(s: bytes)
    requires |s| == 4
    ensures LittleEndian(s) == s[0] + 256 * (s[1] as int) + 65536 * (s[2] as int) + 16777216 * (s[3] as int)
  {
    var u, v := s[2..], s[3..];
    assert s[1..][1..] == u && u[1..] == v && v[1..] == [];
    assert LittleEndian(v) == v[0] && LittleEndian(u) == u[0] + 256 * (v[0] as int);
  }

  lemma WordExactly(w: Word)
    ensures LittleEndian(WordBytes(w)) == w
  {
    FourBytes(WordBytes(w));
    Quotients(w);
    hide LittleEndian;
  }

  lemma Quotients(w: nat)
    ensures w == w % 256 + 256 * (w / 256 % 256) + 65536 * (w / 0x1_0000 % 256) + 16777216 * (w / 0x100_0000)
  {
    var a, b, c := w / 256, w / 256 / 256, w / 256 / 256 / 256;
    assert w == w % 256 + 256 * a && a == a % 256 + 256 * b && b == b % 256 + 256 * c;
    assert b == w / 0x1_0000 && c == w / 0x100_0000;
  }

  lemma LengthExactly(n: nat)
    ensures LittleEndian(LengthBytes(n)) == 8 * n % 18446744073709551616
  {
    var bits := 8 * n % TWO64;
    WordExactly(bits % TWO32);
    WordExactly(bits / TWO32);
    LittleEndianConcat(WordBytes(bits % TWO32), WordBytes(bits / TWO32));
    hide WordBytes, LittleEndian;
  }

  /** A message made up to whole blocks: a bit 1, zeros, and the length in bits as 64 bits, low-order byte first. */
  predicate IsPadded(msg: bytes, p: bytes) {
    && |p| % 64 == 0 && |msg| + 9 <= |p| <= |msg| + 72
    && p[..|msg|] == msg && p[|msg|] == 128 && (forall i :: |msg| < i < |p| - 8 ==> p[i] == 0)
    && LittleEndian(p[|p| - 8..]) == 8 * |msg| % 18446744073709551616
  }

  lemma PaddedIsPadded(msg: bytes)
    ensures IsPadded(msg, Padded(msg))
  {
    LengthExactly(|msg|);
    hide LengthBytes, LittleEndian;
    var p, padding, length := Padded(msg), Padding(|msg|), LengthBytes(|msg|);
    assert p[|p| - 8..] == length;
    assert p[..|msg|] == msg && p[|msg|] == padding[0];
    forall i | |msg| < i < |p| - 8 ensures p[i] == 0 {
      assert p[i] == padding[i - |msg|];
    }
  }

  /** There is one way to pad a message, and it is the padding of section 3.1 and 3.2 of RFC 1321. */
  lemma PaddedExactly(msg: bytes, p: bytes)
    ensures IsPadded(msg, p) <==> p == Padded(msg)
  {
    PaddedIsPadded(msg);
    if IsPadded(msg, p) {
      hide Padded, IsPadded;
      OnePadding(msg, p, Padded(msg));
    }
  }

  lemma OneLength(n: nat, a: nat, b: nat)
    requires a % 64 == 0 && b % 64 == 0 && n + 9 <= a <= n + 72 && n + 9 <= b <= n + 72
    ensures a == b
  {
  }

  lemma OnePadding(msg: bytes, p: bytes, q: bytes)
    requires IsPadded(msg, p) && IsPadded(msg, q)
    ensures p == q
  {
    hide LittleEndian;
    OneLength(|msg|, |p|, |q|);
    LittleEndianInjective(p[|p| - 8..], q[|q| - 8..]);
    var n, k := |msg|, |p| - 8;
    assert p[n + 1..k] == q[n + 1..k];
    assert p == p[..n] + [p[n]] + p[n + 1..k] + p[k..];
    assert q == q[..n] + [q[n]] + q[n + 1..k] + q[k..];
  }

  /**
   * The digest, byte for byte: the words that are left when the padded message has been absorbed block by
   * block from the initial words of section 3.3, each with its low-order byte first.
   */
  lemma DigestExactly(f: Transform, msg: bytes, p: bytes)
    requires IsPadded(msg, p)
    ensures var d, st := Md5Of(f, msg), Absorb(f, State(0x67452301, 0xefcdab89, 0x98badcfe, 0x10325476), p);
            && |d| == 16
            && LittleEndian(d[0..4]) == st.a && LittleEndian(d[4..8]) == st.b
            && LittleEndian(d[8..12]) == st.c && LittleEndian(d[12..16]) == st.d
  {
    PaddedExactly(msg, p);
    var st := Absorb(f, INIT, p);
    WordExactly(st.a);
    WordExactly(st.b);
    WordExactly(st.c);
    WordExactly(st.d);
    hide Absorb, LittleEndian, WordBytes, IsPadded, Padded;
    FourWords(WordBytes(st.a), WordBytes(st.b), WordBytes(st.c), WordBytes(st.d));
  }

  lemma FourWords(a: bytes, b: bytes, c: bytes, d: bytes)
    requires |a| == |b| == |c| == |d| == 4
    ensures var s := a + b + c + d; s[0..4] == a && s[4..8] == b && s[8..12] == c && s[12..16] == d
  {
  }

  /** Blocks are absorbed one after the other, from the state as it stands. */
  lemma AbsorbExactly(f: Transform, st: State, block: bytes, s: bytes)
    requires |block| == 64 && |s| % BLOCK == 0
    ensures Absorb(f, st, []) == st && Absorb(f, st, s + block) == f(Absorb(f, st, s), block)
  {
    AbsorbBlock(f, st, s, block);
  }

  // ---------------------------------------------------------------- counter arithmetic

  /** The two counter words hold the bit length of n bytes modulo 2^64. */
  predicate Counts(lo: Word, hi: Word, n: nat) {
    lo + TWO32 * hi == 8 * n % TWO64
  }

  /** The counter update of update: the low word first, then its carry and the high bits. */
  function AddCount(lo: Word, hi: Word, length: nat): (Word, Word) {
    var inc := length * 8 % TWO32;
    var lo' := (lo + inc) % TWO32;
    var hi' := if lo' < inc then (hi + 1) % TWO32 else hi;
    (lo', (hi' + length / TWO29) % TWO32)
  }

  /** Adding length bytes, with a carry from the low word to the high one, keeps the count exact. */
  lemma CountAdds(lo: Word, hi: Word, n: nat, length: nat)
    requires length < TWO32 && Counts(lo, hi, n)
    ensures var (lo', hi') := AddCount(lo, hi, length); Counts(lo', hi', n + length)
  {
    var inc, high := length * 8 % TWO32, length / TWO29;
    var lo' := (lo + inc) % TWO32;
    var carry := if lo' < inc then 1 else 0;
    assert lo + inc == lo' + TWO32 * carry;
    assert length * 8 == inc + TWO32 * high;
    var sum := hi + carry + high;
    WordSum(hi + carry, high);
    var hi' := sum % TWO32;
    assert sum == hi' + TWO32 * (sum / TWO32);
    var k := 8 * n / TWO64;
    assert 8 * (n + length) == lo' + TWO32 * hi' + TWO64 * (k + sum / TWO32);
    ModUnique(8 * (n + length), lo' + TWO32 * hi', k + sum / TWO32);
  }

  lemma WordSum(a: nat, b: nat)
    ensures (a % TWO32 + b) % TWO32 == (a + b) % TWO32
  {
  }

  lemma ModUnique(x: nat, r: nat, k: nat)
    requires x == r + TWO64 * k && r < TWO64
    ensures x % TWO64 == r
  {
  }

  /** The position in the buffer is read off the low counter word. */
  lemma IndexOfCount(lo: Word, hi: Word, n: nat)
    requires Counts(lo, hi, n)
    ensures lo / 8 % 64 == n % 64
  {
    var k := 8 * n / TWO64;
    var x := n - TWO29 * hi - TWO29 * TWO32 * k;
    EightTimes(lo, x);
    SameIndex(n, x, 0x80_0000 * hi + 0x80_0000 * TWO32 * k);
  }

  lemma EightTimes(lo: nat, x: int)
    requires lo == 8 * x
    ensures lo / 8 == x
  {
  }

  lemma SameIndex(n: nat, x: nat, y: int)
    requires x == n - 64 * y
    ensures x % 64 == n % 64
  {
    var q, r := x / 64, x % 64;
    assert n == 64 * (q + y) + r;
  }

  /** The two words are the length field of the padding. */
  lemma CountBytes(lo: Word, hi: Word, n: nat)
    requires Counts(lo, hi, n)
    ensures WordBytes(lo) + WordBytes(hi) == LengthBytes(n)
  {
    WordsOf(lo, hi);
  }

  lemma WordsOf(lo: Word, hi: Word)
    ensures (lo + TWO32 * hi) % TWO32 == lo && (lo + TWO32 * hi) / TWO32 == hi
  {
  }

  // ---------------------------------------------------------------- the buffer

  /** The buffer after input arrived at position index: a suffix of what was seen, over older bytes. */
  function Buffered(buf: bytes, index: nat, input: bytes): (r: bytes)
    requires |buf| == BLOCK && index < BLOCK
    ensures |r| == BLOCK
  {
    if index + |input| < BLOCK then buf[..index] + input + buf[index + |input|..]
    else
      var tail := (index + |input|) % BLOCK;
      input[|input| - tail..] + (buf[..index] + input[..BLOCK - index])[tail..]
  }

  /** The message bytes a digest leaves in the object: the last bytes are lost when the padding needs a block of its own. */
  function AfterDigest(msg: bytes): (r: bytes)
    ensures |r| == |msg|
  {
    var t := |msg| % BLOCK;
    if t < 56 then msg else msg[..|msg| - t] + (Zeros(56) + LengthBytes(|msg|))[..t]
  }

  /** A digest leaves the message intact exactly when the padding fits the last block, or nothing differs. */
  lemma DigestKeepsMessage(msg: bytes)
    ensures var t := |msg| % BLOCK;
            AfterDigest(msg) == msg <==>
            t < 56 || msg[|msg| - t..] == (Zeros(56) + LengthBytes(|msg|))[..t]
  {
    var t := |msg| % BLOCK;
    assert msg == msg[..|msg| - t] + msg[|msg| - t..];
    if t >= 56 && AfterDigest(msg) == msg {
      assert AfterDigest(msg)[|msg| - t..] == (Zeros(56) + LengthBytes(|msg|))[..t];
    }
  }

  /** The state is that of the complete blocks of the message, and the buffer holds the rest. */
  ghost predicate Streams(f: Transform, msg: bytes, st: State, buf: bytes) {
    var full := |msg| - |msg| % BLOCK;
    |buf| == BLOCK && st == Absorb(f, INIT, msg[..full]) && buf[..|msg| % BLOCK] == msg[full..]
  }

  /** The block completed in the buffer is the next block of the message. */
  lemma FirstBlock(f: Transform, m: bytes, index: nat, input: bytes, st: State, mid: bytes)
    requires index == |m| % BLOCK && index + |input| >= BLOCK
    requires st == Absorb(f, INIT, m[..|m| - index]) && mid == m[|m| - index..] + input[..BLOCK - index]
    ensures (|m| + BLOCK - index) % BLOCK == 0
    ensures f(st, mid) == Absorb(f, INIT, (m + input)[..|m| + BLOCK - index])
  {
    assert (m + input)[..|m| + BLOCK - index] == m[..|m| - index] + mid;
    AbsorbBlock(f, INIT, m[..|m| - index], mid);
  }

  lemma LastBlock(n: nat, length: nat, i: nat)
    requires (n + i) % BLOCK == 0 && i <= length < i + BLOCK
    ensures i == length - (n % BLOCK + length) % BLOCK
  {
    var q := (n + i) / BLOCK;
    assert n % BLOCK + length == BLOCK * (q - n / BLOCK) + (length - i);
  }

  lemma NextBlock(f: Transform, m: bytes, input: bytes, i: nat)
    requires (|m| + i) % BLOCK == 0 && i + BLOCK <= |input|
    ensures (|m| + i + BLOCK) % BLOCK == 0
    ensures f(Absorb(f, INIT, (m + input)[..|m| + i]), input[i..i + BLOCK]) ==
            Absorb(f, INIT, (m + input)[..|m| + i + BLOCK])
  {
    var all := m + input;
    assert all[..|m| + i + BLOCK] == all[..|m| + i] + input[i..i + BLOCK];
    AbsorbBlock(f, INIT, all[..|m| + i], input[i..i + BLOCK]);
  }

  class MD5 {
    const transform: Transform
    const buffer: array<byte>
    var state: State
    var count0: Word
    var count1: Word
    var finished: bool
    /** What has been fed so far. */
    ghost var msg: bytes

    ghost predicate Valid()
      reads this, buffer
    {
      && buffer.Length == BLOCK && Streams(transform, msg, state, buffer[..])
      && Counts(count0, count1, |msg|)
    }

    constructor (transform: Transform)
      ensures Valid() && msg == [] && !finished && this.transform == transform && fresh(buffer)
    {
      this.transform := transform;
      buffer := new byte[BLOCK];
      finished := false;
      count0, count1 := 0, 0;
      state := INIT;
      msg := [];
    }

    /** memcpy into the buffer. */
    method CopyIn(index: nat, input: bytes)
      requires buffer.Length == BLOCK && index + |input| <= BLOCK
      modifies buffer
      ensures buffer[..] == old(buffer[..index]) + input + old(buffer[index + |input|..])
    {
      for k := 0 to |input|
        invariant forall j :: 0 <= j < index ==> buffer[j] == old(buffer[j])
        invariant forall j :: 0 <= j < k ==> buffer[index + j] == input[j]
        invariant forall j :: index + |input| <= j < BLOCK ==> buffer[j] == old(buffer[j])
      {
        buffer[index + k] := input[k];
      }
    }

    /** The part of update that transforms complete blocks: first through the buffer, then from the input. */
    method Blocks(ghost m: bytes, index: nat, input: bytes) returns (i: nat)
      requires buffer.Length == BLOCK && index == |m| % BLOCK && |input| < TWO32 - 64
      requires Streams(transform, m, state, buffer[..])
      modifies this`state, buffer
      ensures i <= |input|
      ensures if index + |input| < BLOCK then i == 0 && state == old(state) && buffer[..] == old(buffer[..])
              else
                && i == |input| - (index + |input|) % BLOCK && (|m| + i) % BLOCK == 0
                && state == Absorb(transform, INIT, (m + input)[..|m| + i])
                && buffer[..] == old(buffer[..index]) + input[..BLOCK - index]
    {
      var length, partLen := |input|, 64 - index;
      if length < partLen {
        return 0;
      }
      ghost var all := m + input;
      CopyIn(index, input[..partLen]);
      ghost var mid := buffer[..];
      FirstBlock(transform, m, index, input, state, mid);
      state := transform(state, buffer[..]);
      i := partLen;
      while (i + 63) % TWO32 < length
        invariant partLen <= i <= length && (|m| + i) % BLOCK == 0
        invariant state == Absorb(transform, INIT, all[..|m| + i]) && buffer[..] == mid
        decreases length - i
      {
        NextBlock(transform, m, input, i);
        state := transform(state, input[i..i + 64]);
        i := i + 64;
      }
      LastBlock(|m|, length, i);
    }

    /** update. Pieces of 2^32 - 64 bytes or more would wrap the 32-bit loop counter. */
    method Update(input: bytes)
      requires Valid() && |input| < TWO32 - 64
      modifies this, buffer
      ensures Valid() && msg == old(msg) + input && !finished
      ensures buffer[..] == Buffered(old(buffer[..]), |old(msg)| % BLOCK, input)
    {
      hide Streams, Counts, Buffered, AddCount;
      finished := false;
      IndexOfCount(count0, count1, |msg|);
      var index := count0 / 8 % 64;
      CountAdds(count0, count1, |msg|, |input|);
      Count(|input|);
      var i := Blocks(msg, index, input);
      ghost var mid, at := buffer[..], if i > 0 then 0 else index;
      CopyIn(if i > 0 then 0 else index, input[i..]);
      TailKept(transform, msg, input, i, index, state, mid, buffer[..]);
      BufferedTwice(old(buffer[..]), index, input, i, mid, buffer[..]);
      msg := msg + input;
    }

    /** The bit count of update. */
    method Count(length: nat)
      modifies this`count0, this`count1
      ensures (count0, count1) == AddCount(old(count0), old(count1), length)
    {
      var inc := length * 8 % TWO32;
      count0 := (count0 + inc) % TWO32;
      if count0 < inc {
        count1 := (count1 + 1) % TWO32;
      }
      count1 := (count1 + length / TWO29) % TWO32;
    }

    /** The two updates of final: padding, then the length. */
    method Pad()
      requires Valid()
      modifies this, buffer
      ensures Valid() && !finished && msg == Padded(old(msg))
      ensures var t, m := |old(msg)| % BLOCK, old(msg);
              buffer[..] == Buffered(Buffered(old(buffer[..]), t, Padding(|m|)), 56, LengthBytes(|m|))
    {
      var padding, bits := PaddingAndBits();
      PaddedIs(msg);
      hide Padding, LengthBytes, Streams, Counts, Buffered;
      Update(padding);
      Update(bits);
    }

    /** What final adds to the message: from the count, the padding and the length. */
    method PaddingAndBits() returns (padding: bytes, bits: bytes)
      requires Valid()
      ensures padding == Padding(|msg|) && bits == LengthBytes(|msg|)
    {
      CountBytes(count0, count1, |msg|);
      bits := WordBytes(count0) + WordBytes(count1);
      IndexOfCount(count0, count1, |msg|);
      hide Streams, Counts, WordBytes, LengthBytes;
      var index := count0 / 8 % 64;
      var padLen := if index < 56 then 56 - index else 120 - index;
      PaddingLength(|msg|);
      padding := [0x80] + Zeros(padLen - 1);
    }

    /** final, with the restoring of state and count at its end. */
    method Final() returns (digest: bytes)
      requires Valid()
      modifies this, buffer
      ensures Valid() && !finished
      ensures digest == Md5Of(transform, old(msg)) && msg == AfterDigest(old(msg))
    {
      ghost var m, b := msg, buffer[..];
      var oldState, oldCount0, oldCount1 := state, count0, count1;
      Pad();
      assert msg[..|msg|] == msg;
      digest := StateBytes(state);
      state, count0, count1 := oldState, oldCount0, oldCount1;
      StreamsAfterFinal(transform, m, oldState, b, buffer[..]);
      msg := AfterDigest(m);
    }

    /** digest. Since update clears the flag that final set, every call computes anew. */
    method Digest() returns (digest: bytes)
      requires Valid() && !finished
      modifies this, buffer
      ensures Valid() && !finished
      ensures digest == Md5Of(transform, old(msg)) && msg == AfterDigest(old(msg))
    {
      finished := true;
      digest := Final();
    }
  }

  /** The last bytes of the message end up at the front of the buffer. */
  lemma TailKept(f: Transform, m: bytes, input: bytes, i: nat, index: nat, st: State, mid: bytes, buf: bytes)
    requires index == |m| % BLOCK && i <= |input| && |mid| == BLOCK
    requires if index + |input| < BLOCK then i == 0 && Streams(f, m, st, mid)
             else i == |input| - (index + |input|) % BLOCK > 0 && (|m| + i) % BLOCK == 0
                  && st == Absorb(f, INIT, (m + input)[..|m| + i])
    requires var at := if i > 0 then 0 else index;
             at + |input| - i <= BLOCK && buf == mid[..at] + input[i..] + mid[at + |input| - i..]
    ensures Streams(f, m + input, st, buf)
  {
    SumMod(|m|, |input|);
    if index + |input| < BLOCK {
      TailInBuffer(f, m, input, st, mid, buf);
    } else {
      TailOfInput(f, m, input, i, st, buf);
    }
  }

  lemma TailInBuffer(f: Transform, m: bytes, input: bytes, st: State, mid: bytes, buf: bytes)
    requires var t := |m| % BLOCK;
             && t + |input| < BLOCK && (|m| + |input|) % BLOCK == t + |input|
             && Streams(f, m, st, mid) && buf == mid[..t] + input + mid[t + |input|..]
    ensures Streams(f, m + input, st, buf)
  {
    var t := |m| % BLOCK;
    var full := |m| - t;
    assert (m + input)[..full] == m[..full];
    assert (m + input)[full..] == m[full..] + input;
    assert buf[..t + |input|] == mid[..t] + input;
  }

  lemma TailOfInput(f: Transform, m: bytes, input: bytes, i: nat, st: State, buf: bytes)
    requires i <= |input| && (|m| + |input|) % BLOCK == |input| - i && |buf| == BLOCK
    requires st == Absorb(f, INIT, (m + input)[..|m| + i]) && (|m| + i) % BLOCK == 0
    requires buf[..|input| - i] == input[i..]
    ensures Streams(f, m + input, st, buf)
  {
    assert (m + input)[|m| + i..] == input[i..];
  }

  lemma BufferedTwice(b: bytes, index: nat, input: bytes, i: nat, mid: bytes, buf: bytes)
    requires |b| == BLOCK && index < BLOCK && i <= |input|
    requires if index + |input| < BLOCK then i == 0 && mid == b
             else i == |input| - (index + |input|) % BLOCK > 0 && mid == b[..index] + input[..BLOCK - index]
    requires var at := if i > 0 then 0 else index;
             |mid| == BLOCK && at + |input| - i <= BLOCK && buf == mid[..at] + input[i..] + mid[at + |input| - i..]
    ensures buf == Buffered(b, index, input)
  {
  }

  lemma SumMod(a: nat, b: nat)
    ensures (a + b) % BLOCK == (a % BLOCK + b) % BLOCK
  {
  }

  /** After final the buffer's front is the message tail again, or what the padding left there. */
  lemma StreamsAfterFinal(f: Transform, m: bytes, st: State, b: bytes, after: bytes)
    requires Streams(f, m, st, b)
    requires after == Buffered(Buffered(b, |m| % BLOCK, Padding(|m|)), 56, LengthBytes(|m|))
    ensures Streams(f, AfterDigest(m), st, after)
  {
    var t, bits, padding := |m| % BLOCK, LengthBytes(|m|), Padding(|m|);
    var b1, full := Buffered(b, t, padding), |m| - t;
    PaddingLength(|m|);
    assert after == b1[..56] + bits;
    if t < 56 {
      assert t + |padding| == 56;
      assert b1[..t] == b[..t];
      assert after[..t] == m[full..];
    } else {
      assert t + |padding| == 120 && (t + |padding|) % BLOCK == 56;
      assert b1[..56] == padding[64 - t..] == Zeros(56);
      assert after[..t] == (Zeros(56) + bits)[..t];
    }
    assert AfterDigest(m)[..full] == m[..full];
    assert AfterDigest(m)[full..] == after[..t];
  }

  /** Hashing a message in pieces gives the one-shot digest of the whole, however it is cut. */
  method HashPieces(f: Transform, pieces: seq<bytes>) returns (digest: bytes)
    requires forall i :: 0 <= i < |pieces| ==> |pieces[i]| < TWO32 - 64
    ensures digest == Md5Of(f, Concat(pieces))
  {
    var md5 := new MD5(f);
    UpdateAll(md5, pieces);
    assert [] + Concat(pieces) == Concat(pieces);
    digest := md5.Digest();
  }

  method UpdateAll(md5: MD5, pieces: seq<bytes>)
    requires md5.Valid() && !md5.finished
    requires forall i :: 0 <= i < |pieces| ==> |pieces[i]| < TWO32 - 64
    modifies md5, md5.buffer
    ensures md5.Valid() && !md5.finished && md5.msg == old(md5.msg) + Concat(pieces)
    decreases |pieces|
  {
    if pieces == [] {
      assert md5.msg + [] == md5.msg;
    } else {
      ghost var m := md5.msg;
      md5.Update(pieces[0]);
      UpdateAll(md5, pieces[1..]);
      ConcatStep(m, pieces);
    }
  }

  lemma ConcatStep(m: bytes, pieces: seq<bytes>)
    requires pieces != []
    ensures (m + pieces[0]) + Concat(pieces[1..]) == m + Concat(pieces)
  {
  }
}
