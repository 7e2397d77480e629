/**
 * The lengths that the HTTP parser reads digit by digit in 64-bit arithmetic: content lengths in
 * decimal and chunk sizes in hexadecimal. Its overflow test looks only whether the number got
 * smaller, so it misses some wraps; here is exactly which numbers it refuses and what it makes of
 * the others.
 */
module HttpLength {
  import opened Bytes
  import opened HttpParser

  /** The number that some digits denote. */
  function Worth(base: nat, digits: seq<nat>): nat {
    if digits == [] then 0
    else Worth(base, digits[..|digits| - 1]) * base + digits[|digits| - 1]
  }

  /** The number in 64-bit arithmetic. */
  function Wrapped(base: nat, digits: seq<nat>): nat {
    Worth(base, digits) % TWO64
  }

  /** At digit k the wrapped number gets no smaller, and does not become the one that stands for no length. */
  predicate StaysAt(base: nat, digits: seq<nat>, k: nat)
    requires k < |digits|
  {
    Wrapped(base, digits[..k]) <= Wrapped(base, digits[..k + 1]) != NO_LENGTH
  }

  predicate Steady(base: nat, digits: seq<nat>) {
    forall k :: 0 <= k < |digits| ==> StaysAt(base, digits, k)
  }

  /** The parser's loop over the digits, with its overflow test. */
  function ReadDigits(base: nat, digits: seq<nat>): Option<nat> {
    if digits == [] then Some(0)
    else
      match ReadDigits(base, digits[..|digits| - 1])
      case None => None
      case Some(length) => MoreLength(length, base, digits[|digits| - 1])
  }

  lemma WorthMore(base: nat, digits: seq<nat>, d: nat)
    ensures Worth(base, digits + [d]) == Worth(base, digits) * base + d
  {
    assert (digits + [d])[..|digits|] == digits;
  }

  lemma StaysSame(base: nat, digits: seq<nat>, d: nat, k: nat)
    requires k < |digits|
    ensures StaysAt(base, digits + [d], k) <==> StaysAt(base, digits, k)
  {
    var more := digits + [d];
    assert more[..k] == digits[..k] && more[..k + 1] == digits[..k + 1];
  }

  lemma SteadyMore(base: nat, digits: seq<nat>, d: nat)
    ensures Steady(base, digits + [d]) <==>
            Steady(base, digits) && Wrapped(base, digits) <= Wrapped(base, digits + [d]) != NO_LENGTH
  {
    var more := digits + [d];
    assert more[..|digits|] == digits && more[..|digits| + 1] == more;
    assert StaysAt(base, more, |digits|) <==> Wrapped(base, digits) <= Wrapped(base, more) != NO_LENGTH;
    forall k | 0 <= k < |digits| ensures StaysAt(base, more, k) <==> StaysAt(base, digits, k) {
      StaysSame(base, digits, d, k);
    }
    hide StaysAt, Wrapped;
  }

  lemma WrapAdd(x: nat, k: nat)
    ensures (x + k * TWO64) % TWO64 == x % TWO64
  {
  }

  /** Wrapping before a digit or after it is the same. */
  lemma WrapStep(w: nat, base: nat, d: nat)
    ensures ((w % TWO64) * base + d) % TWO64 == (w * base + d) % TWO64
  {
    var q, r := w / TWO64, w % TWO64;
    assert w * base + d == r * base + d + q * base * TWO64 by {
      assert w == q * TWO64 + r;
      assert (q * TWO64 + r) * base == q * TWO64 * base + r * base;
      assert q * TWO64 * base == q * base * TWO64;
    }
    WrapAdd(r * base + d, q * base);
  }

  lemma WrappedMore(base: nat, digits: seq<nat>, d: nat)
    ensures MoreLength(Wrapped(base, digits), base, d) ==
            if Wrapped(base, digits) <= Wrapped(base, digits + [d]) != NO_LENGTH then Some(Wrapped(base, digits + [d])) else None
  {
    WorthMore(base, digits, d);
    WrapStep(Worth(base, digits), base, d);
    hide Worth;
  }

  /** Exactly when a number is read, and what is made of it. */
  lemma {:induction false} ReadIffSteady(base: nat, digits: seq<nat>)
    ensures ReadDigits(base, digits) == if Steady(base, digits) then Some(Wrapped(base, digits)) else None
  {
    if digits != [] {
      var k := |digits| - 1;
      var front, d := digits[..k], digits[k];
      ReadIffSteady(base, front);
      assert front + [d] == digits;
      SteadyMore(base, front, d);
      WrappedMore(base, front, d);
      hide Steady, Wrapped, MoreLength;
    }
  }

  lemma {:induction false} WorthGrows(base: nat, digits: seq<nat>, k: nat)
    requires base > 0 && k <= |digits|
    ensures Worth(base, digits[..k]) <= Worth(base, digits)
  {
    if k == |digits| {
      assert digits[..k] == digits;
    } else {
      var front := digits[..|digits| - 1];
      WorthGrows(base, front, k);
      assert front[..k] == digits[..k];
      assert Worth(base, front) <= Worth(base, front) * base;
    }
  }

  /** A number in range is always read, and read as it is. */
  lemma InRangeIsRead(base: nat, digits: seq<nat>)
    requires base > 0 && Worth(base, digits) < NO_LENGTH
    ensures Steady(base, digits) && Wrapped(base, digits) == Worth(base, digits)
  {
    hide Worth;
    forall k | 0 <= k < |digits| ensures StaysAt(base, digits, k) {
      WorthGrows(base, digits, k + 1);
      WorthGrows(base, digits[..k + 1], k);
      assert digits[..k + 1][..k] == digits[..k];
    }
  }

  /**
   * Exactly when one more digit takes a length out of range unnoticed: the number is 2^64 or more,
   * and what is left of it is neither smaller than before nor the number that stands for no length.
   */
  lemma MissedIff(length: nat, base: nat, digit: nat)
    requires length < NO_LENGTH
    ensures var number := length * base + digit;
            MoreLength(length, base, digit).Some? && MoreLength(length, base, digit).value != number <==>
            number >= TWO64 && number % TWO64 >= length && number % TWO64 != NO_LENGTH
  {
    var number := length * base + digit;
    if number < TWO64 {
      assert number % TWO64 == number;
    }
  }

  lemma SteadyFits(base: nat, digits: seq<nat>)
    requires Steady(base, digits)
    ensures Wrapped(base, digits) < NO_LENGTH
  {
    if digits != [] {
      assert StaysAt(base, digits, |digits| - 1);
      assert digits[..|digits|] == digits;
    }
  }

  /** Exactly the numbers in range are read as they are. */
  lemma RightIffInRange(base: nat, digits: seq<nat>)
    requires base > 0
    ensures Steady(base, digits) && Wrapped(base, digits) == Worth(base, digits) <==> Worth(base, digits) < NO_LENGTH
  {
    if Steady(base, digits) { SteadyFits(base, digits); }
    if Worth(base, digits) < NO_LENGTH { InRangeIsRead(base, digits); }
    hide Steady, Worth;
  }
}
