/**
 * Decimal numbers as the Redis client reads and prints them: string2ll, sdsll2str and
 * countDigits, all specified by the one function DecimalOf.
 */
module Decimal {
  import opened Bytes

  const LLONG_MAX: int := 0x7fff_ffff_ffff_ffff
  const LLONG_MIN: int := -0x8000_0000_0000_0000
  const ULLONG_MAX: int := 0xffff_ffff_ffff_ffff

  /** The decimal digits of n, most significant first, without leading zeros. */
  function Digits(n: nat): (s: bytes)
    ensures |s| > 0 && AllDigits(s)
    ensures n > 0 ==> s[0] != ZERO
  {
    if n < 10 then [ZERO + n] else Digits(n / 10) + [ZERO + n % 10]
  }

  function DecimalOf(v: int): bytes {
    if v < 0 then [MINUS] + Digits(-v) else Digits(v)
  }

  predicate AllDigits(s: bytes) {
    forall i :: 0 <= i < |s| ==> IsDigit(s[i])
  }

  function Value(s: bytes): nat
    requires AllDigits(s)
  {
    if s == [] then 0 else 10 * Value(s[..|s| - 1]) + (s[|s| - 1] - ZERO)
  }

  lemma {:induction false} ValueOfDigits(n: nat)
    ensures Value(Digits(n)) == n
  {
    if n >= 10 {
      ValueOfDigits(n / 10);
      assert Digits(n)[..|Digits(n)| - 1] == Digits(n / 10);
    } else {
      assert Digits(n)[..0] == [];
    }
  }

  /** A digit string without a leading zero is the print of its own value. */
  lemma {:induction false} DigitsOfValue(s: bytes)
    requires |s| > 0 && AllDigits(s) && (s[0] != ZERO || |s| == 1)
    ensures Digits(Value(s)) == s
    ensures s[0] != ZERO ==> Value(s) > 0
  {
    var front, last := s[..|s| - 1], s[|s| - 1] - ZERO;
    if front == [] {
      assert s == [s[0]];
    } else {
      DigitsOfValue(front);
      assert Value(s) / 10 == Value(front) && Value(s) % 10 == last;
    }
  }

  lemma {:induction false} ValueGrows(s: bytes, k: nat)
    requires AllDigits(s) && k <= |s|
    ensures Value(s[..k]) <= Value(s)
  {
    if k < |s| {
      ValueGrows(s[..|s| - 1], k);
      assert s[..|s| - 1][..k] == s[..k];
    } else {
      assert s[..k] == s;
    }
  }

  lemma {:induction false} DigitsLength(n: nat, k: nat, bound: nat)
    requires n < bound && bound == Pow10(k) && k > 0
    ensures |Digits(n)| <= k
  {
    if n >= 10 {
      DigitsLength(n / 10, k - 1, Pow10(k - 1));
    }
  }

  function Pow10(k: nat): nat {
    if k == 0 then 1 else 10 * Pow10(k - 1)
  }

  /** The decimal digit of n at place k, counted from the right. */
  function Place(n: nat, k: nat): (d: nat)
    ensures d < 10
  {
    if k == 0 then n % 10 else Place(n / 10, k - 1)
  }

  /** The print of a number is ASCII: 48 plus the digit at each place that the number has. */
  lemma {:induction false} DigitsExactly(n: nat, k: nat)
    ensures k < |Digits(n)| <==> k == 0 || n >= Pow10(k)
    ensures k < |Digits(n)| ==> Digits(n)[|Digits(n)| - 1 - k] == 48 + Place(n, k)
  {
    if k > 0 {
      DigitsExactly(n / 10, k - 1);
      assert Pow10(k) == 10 * Pow10(k - 1);
      assert n >= 10 ==> Digits(n) == Digits(n / 10) + [48 + n % 10];
    }
  }

  lemma DecimalNonEmpty(v: int)
    ensures |DecimalOf(v)| > 0
    ensures forall i :: 0 <= i < |DecimalOf(v)| ==> DecimalOf(v)[i] == MINUS || IsDigit(DecimalOf(v)[i])
  {
  }

  lemma {:induction false} DecimalInjective(v: int, w: int)
    requires DecimalOf(v) == DecimalOf(w)
    ensures v == w
  {
    if v < 0 && w < 0 {
      assert Digits(-v) == DecimalOf(v)[1..] == DecimalOf(w)[1..] == Digits(-w);
      ValueOfDigits(-v);
      ValueOfDigits(-w);
    } else if v >= 0 && w >= 0 {
      ValueOfDigits(v);
      ValueOfDigits(w);
    }
  }

  predicate IsLongLong(v: int) {
    LLONG_MIN <= v <= LLONG_MAX
  }

  lemma LongLongExactly(v: int)
    ensures IsLongLong(v) <==> -9223372036854775808 <= v <= 9223372036854775807
    ensures DecimalOf(v) == if v < 0 then [45] + Digits(-v) else Digits(v)
  {
  }

  /** The number a byte string denotes: only what DecimalOf prints, and only 64-bit numbers. */
  function ParseLL(s: bytes): Option<int> {
    var negative := |s| > 0 && s[0] == MINUS;
    var body := if negative then s[1..] else s;
    if |body| == 0 || !AllDigits(body) || (body[0] == ZERO && |s| > 1) then None
    else
      var v: int := if negative then 0 - Value(body) else Value(body);
      if IsLongLong(v) then Some(v) else None
  }

  /** string2ll accepts exactly the prints of the 64-bit numbers and returns the number printed. */
  lemma {:induction false} ParseLLIffPrinted(s: bytes, v: int)
    ensures ParseLL(s) == Some(v) <==> IsLongLong(v) && s == DecimalOf(v)
  {
    if ParseLL(s) == Some(v) {
      if s[0] == MINUS {
        DigitsOfValue(s[1..]);
        assert s == [MINUS] + s[1..];
      } else {
        DigitsOfValue(s);
      }
    }
    if IsLongLong(v) && s == DecimalOf(v) {
      if v < 0 {
        assert s[1..] == Digits(-v);
        ValueOfDigits(-v);
      } else {
        ValueOfDigits(v);
      }
    }
  }

  /** One more digit read. */
  lemma NextDigit(body: bytes, k: nat)
    requires k < |body| && AllDigits(body[..k]) && IsDigit(body[k])
    ensures AllDigits(body[..k + 1]) && Value(body[..k + 1]) == 10 * Value(body[..k]) + (body[k] - ZERO)
    ensures AllDigits(body) ==> Value(body[..k + 1]) <= Value(body)
  {
    OneDigitMore(body, k);
    hide AllDigits, Value;
    if AllDigits(body) {
      ValueGrows(body, k + 1);
    }
  }

  lemma OneDigitMore(body: bytes, k: nat)
    requires k < |body| && AllDigits(body[..k]) && IsDigit(body[k])
    ensures AllDigits(body[..k + 1]) && Value(body[..k + 1]) == 10 * Value(body[..k]) + (body[k] - ZERO)
  {
    assert body[..k + 1][..k] == body[..k];
  }

  lemma NoDigits(body: bytes)
    ensures AllDigits(body[..0]) && Value(body[..0]) == 0
  {
    assert body[..0] == [];
  }

  /** The scan of string2ll, with its unsigned 64-bit overflow tests. */
  method String2ll(s: bytes) returns (r: Option<int>)
    ensures r == ParseLL(s)
  {
    var slen, plen := |s|, 0;
    if plen == slen {
      return None;
    }
    if slen == 1 && s[0] == ZERO {
      NextDigit(s, 0);
      assert s[..1] == s;
      return Some(0);
    }
    var negative := false;
    if s[0] == MINUS {
      negative := true;
      plen := 1;
      if plen == slen {
        return None;
      }
    }
    ghost var start := plen;
    ghost var body := s[start..];
    assert body == if negative then s[1..] else s;
    var v: int;
    NoDigits(body);
    if ZERO + 1 <= s[plen] <= NINE {
      NextDigit(body, 0);
      v := s[plen] - ZERO;
      plen := plen + 1;
    } else {
      assert AllDigits(body) ==> body[0] == ZERO;
      return None;
    }
    v, plen := ScanDigits(s, v, plen, start);
    hide Value;
    if v > ULLONG_MAX || plen < slen {
      return None;
    }
    assert body[..plen - start] == body;
    if negative {
      if v > -(LLONG_MIN + 1) + 1 {
        return None;
      }
      return Some(-v);
    }
    if v > LLONG_MAX {
      return None;
    }
    return Some(v);
  }

  /** The digit loop of string2ll; a value above ULLONG_MAX stands for its early returns on overflow. */
  method ScanDigits(s: bytes, first: nat, at: nat, ghost start: nat) returns (v: nat, plen: nat)
    requires start < at <= |s|
    requires AllDigits(s[start..][..at - start]) && first == Value(s[start..][..at - start]) <= ULLONG_MAX
    ensures start < plen <= |s| && AllDigits(s[start..][..plen - start])
    ensures v <= ULLONG_MAX ==> v == Value(s[start..][..plen - start])
    ensures v <= ULLONG_MAX && plen < |s| ==> !AllDigits(s[start..])
    ensures v > ULLONG_MAX ==> AllDigits(s[start..]) ==> Value(s[start..]) > ULLONG_MAX
  {
    hide Value, AllDigits;
    v, plen := first, at;
    ghost var body := s[start..];
    while plen < |s| && IsDigit(s[plen])
      invariant start < plen <= |s|
      invariant AllDigits(body[..plen - start])
      invariant v == Value(body[..plen - start]) <= ULLONG_MAX
    {
      NextDigit(body, plen - start);
      if v > ULLONG_MAX / 10 {
        return ULLONG_MAX + 1, plen;
      }
      v := v * 10;
      if v > ULLONG_MAX - (s[plen] - ZERO) {
        return ULLONG_MAX + 1, plen;
      }
      v := v + (s[plen] - ZERO);
      plen := plen + 1;
    }
    if plen < |s| {
      NotAllDigits(body, plen - start);
    }
  }

  lemma NotAllDigits(body: bytes, k: nat)
    requires k < |body| && !IsDigit(body[k])
    ensures !AllDigits(body)
  {
  }

  /** The digits of n in the order sdsll2str first produces them, least significant first. */
  function Reversed(s: bytes): (r: bytes)
    ensures |r| == |s|
    ensures forall i :: 0 <= i < |s| ==> r[i] == s[|s| - 1 - i]
  {
    if s == [] then [] else Reversed(s[1..]) + [s[0]]
  }

  /** Swaps the first n bytes of the buffer end for end. */
  method ReversePrefix(a: array<byte>, n: nat)
    requires 0 < n <= a.Length
    modifies a
    ensures a[..n] == Reversed(old(a[..n]))
    ensures forall k :: n <= k < a.Length ==> a[k] == old(a[k])
  {
    var s, p := 0, n - 1;
    while s < p
      invariant 0 <= s && p == n - 1 - s && s <= p + 1
      invariant forall k :: 0 <= k < s ==> a[k] == old(a[n - 1 - k]) && a[n - 1 - k] == old(a[k])
      invariant forall k :: s <= k <= p ==> a[k] == old(a[k])
      invariant forall k :: n <= k < a.Length ==> a[k] == old(a[k])
    {
      a[s], a[p] := a[p], a[s];
      s := s + 1;
      p := p - 1;
    }
  }

  /** The digits of v, least significant first, into an empty buffer. */
  method PutDigits(s: array<byte>, value: nat) returns (p: nat)
    requires s.Length >= |Digits(value)|
    modifies s
    ensures p == |Digits(value)| && s[..p] == Reversed(Digits(value))
  {
    var v := value;
    ghost var all := Digits(value);
    p := 0;
    while true
      invariant 0 <= p < |all| && Digits(v) == all[..|all| - p]
      invariant forall k :: 0 <= k < p ==> s[k] == all[|all| - 1 - k]
      decreases v
    {
      s[p] := ZERO + v % 10;
      assert s[p] == Digits(v)[|Digits(v)| - 1];
      p := p + 1;
      if v / 10 == 0 {
        break;
      }
      assert Digits(v / 10) == Digits(v)[..|Digits(v)| - 1];
      v := v / 10;
    }
  }

  /**
   * sdsll2str. Negating the least value overflows in the original, so it is excluded here; every
   * other 64-bit value and its terminator fit the 21-byte buffer.
   */
  method Sdsll2str(s: array<byte>, value: int) returns (l: nat)
    requires s.Length >= 21 && LLONG_MIN < value <= LLONG_MAX
    modifies s
    ensures l <= 20 && s[..l] == DecimalOf(value) && s[l] == 0
  {
    var v: nat := if value < 0 then -value else value;
    NineteenDigits(v);
    var p := PutDigits(s, v);
    ghost var text := Reversed(Digits(v));
    hide Digits;
    assert s[..p] == text;
    if value < 0 {
      s[p] := MINUS;
      p := p + 1;
    }
    l := p;
    s[p] := 0;
    assert s[..l] == if value < 0 then text + [MINUS] else text;
    ReversePrefix(s, l);
    ReversedTwice(Digits(v), MINUS);
  }

  /** sdsull2str, for which every 64-bit value and its terminator fit the buffer. */
  method Sdsull2str(s: array<byte>, v: nat) returns (l: nat)
    requires s.Length >= 21 && v <= ULLONG_MAX
    modifies s
    ensures l <= 20 && s[..l] == Digits(v) && s[l] == 0
  {
    TwentyDigits(v);
    l := PutDigits(s, v);
    ghost var text := Reversed(Digits(v));
    hide Digits;
    assert s[..l] == text;
    s[l] := 0;
    assert s[..l] == text;
    ReversePrefix(s, l);
    ReversedTwice(Digits(v), ZERO);
  }

  lemma TwentyDigits(v: nat)
    requires v <= ULLONG_MAX
    ensures |Digits(v)| <= 20
  {
    assert Pow10(6) == 1000000 && Pow10(12) == 1000000000000 && Pow10(20) == 100000000000000000000;
    DigitsLength(v, 20, Pow10(20));
  }

  lemma NineteenDigits(v: nat)
    requires v <= LLONG_MAX
    ensures |Digits(v)| <= 19
  {
    assert Pow10(6) == 1000000 && Pow10(12) == 1000000000000 && Pow10(19) == 10000000000000000000;
    DigitsLength(v, 19, Pow10(19));
  }

  lemma ReversedTwice(s: bytes, c: byte)
    ensures Reversed(Reversed(s)) == s && Reversed(Reversed(s) + [c]) == [c] + s
  {
  }

  /** countDigits is the length of the print, found four digits at a time. */
  method CountDigits(value: nat) returns (result: nat)
    requires value <= ULLONG_MAX
    ensures result == |Digits(value)|
  {
    var v := value;
    result := 1;
    while true
      invariant result >= 1 && |Digits(value)| == |Digits(v)| + result - 1
      decreases v
    {
      if v < 10 { return result; }
      if v < 100 { return result + 1; }
      if v < 1000 { assert |Digits(v)| == 1 + |Digits(v / 10)|; return result + 2; }
      if v < 10000 { assert |Digits(v / 10)| == 1 + |Digits(v / 100)|; return result + 3; }
      FourDigitsFewer(v);
      v := v / 10000;
      result := result + 4;
    }
  }

  lemma {:induction false} FourDigitsFewer(v: nat)
    requires v >= 10000
    ensures |Digits(v)| == |Digits(v / 10000)| + 4
  {
    assert v / 10 / 10 == v / 100 && v / 100 / 10 == v / 1000 && v / 1000 / 10 == v / 10000;
    assert |Digits(v)| == 1 + |Digits(v / 10)|;
    assert |Digits(v / 10)| == 1 + |Digits(v / 100)|;
    assert |Digits(v / 100)| == 1 + |Digits(v / 1000)|;
    assert |Digits(v / 1000)| == 1 + |Digits(v / 10000)|;
  }
}
