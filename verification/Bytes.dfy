/** Bytes, byte strings and the characters the wire formats are made of. */
module Bytes {
  type byte = x: int | 0 <= x < 256
  type bytes = seq<byte>

  const TAB: byte := 9
  const LF: byte := 10
  const CR: byte := 13
  const SPACE: byte := 32
  const MINUS: byte := 45
  const ZERO: byte := 48
  const NINE: byte := 57

  const CRLF: bytes := [CR, LF]

  predicate IsDigit(c: byte) {
    ZERO <= c <= NINE
  }

  function Pow2(k: nat): (n: nat)
    ensures n > 0
  {
    if k == 0 then 1 else 2 * Pow2(k - 1)
  }

  /** A hexadecimal digit as printf writes it. */
  function HexDigit(n: nat): byte
    requires n < 16
  {
    if n < 10 then ZERO + n else 97 + (n - 10)
  }

  datatype Option<+T> = None | Some(value: T)

  /** The bytes of a literal. */
  function Ascii(s: string): (b: bytes)
    requires forall i :: 0 <= i < |s| ==> s[i] as int < 128
    ensures |b| == |s| && forall i :: 0 <= i < |s| ==> b[i] == s[i] as int
  {
    seq(|s|, i requires 0 <= i < |s| => s[i] as int)
  }

  function Concat(pieces: seq<bytes>): bytes {
    if pieces == [] then [] else pieces[0] + Concat(pieces[1..])
  }

  /** What C reads of a byte string that is handed over as a pointer. */
  function UpToNul(s: bytes): (t: bytes)
    ensures 0 !in t && t <= s
  {
    if s == [] || s[0] == 0 then [] else [s[0]] + UpToNul(s[1..])
  }

  lemma {:induction false} UpToNulWhole(s: bytes)
    ensures UpToNul(s) == s <==> 0 !in s
  {
    if s != [] && s[0] != 0 {
      UpToNulWhole(s[1..]);
      assert s == [s[0]] + s[1..];
    }
  }

  lemma UpToNulStep(a: bytes)
    requires a != []
    ensures UpToNul(a) == if a[0] == 0 then [] else [a[0]] + UpToNul(a[1..])
    ensures a == [a[0]] + a[1..]
  {
  }

  /** What precedes the first NUL byte of a concatenation. */
  lemma {:induction false} UpToNulConcat(a: bytes, b: bytes)
    ensures UpToNul(a + b) == if 0 in a then UpToNul(a) else a + UpToNul(b)
  {
    hide UpToNul;
    if a == [] {
      assert a + b == b && a + UpToNul(b) == UpToNul(b);
    } else {
      var tail, t := a[1..], UpToNul(b);
      UpToNulStep(a);
      UpToNulStep(a + b);
      assert (a + b)[1..] == tail + b;
      if a[0] != 0 {
        UpToNulConcat(tail, b);
        assert [a[0]] + (tail + t) == ([a[0]] + tail) + t;
      }
    }
  }

  /** A byte string ends at its first NUL byte, or where it ends. */
  lemma UpToNulExactly(a: bytes, b: bytes)
    requires 0 !in a
    ensures UpToNul(a) == a && UpToNul(a + [0] + b) == a
  {
    UpToNulWhole(a);
    UpToNulConcat(a, [0] + b);
    assert a + [0] + b == a + ([0] + b) && a + [] == a;
  }

  lemma {:induction false} ConcatAppend(a: seq<bytes>, b: seq<bytes>)
    ensures Concat(a + b) == Concat(a) + Concat(b)
  {
    if a == [] {
      assert a + b == b;
    } else {
      assert (a + b)[1..] == a[1..] + b;
      ConcatAppend(a[1..], b);
    }
  }
}
