/**
 * Quoting and splitting in sds.c: sdscatrepr prints any byte string between double quotes with
 * escapes, sdssplitargs cuts a line into arguments and undoes the escapes.
 */
module SdsQuote {
  import opened Bytes

  const BEL: byte := 7
  const BACKSPACE: byte := 8
  const QUOTE: byte := 34
  const APOSTROPHE: byte := 39
  const BACKSLASH: byte := 92
  const LOWER_A: byte := 97
  const LOWER_B: byte := 98
  const LOWER_N: byte := 110
  const LOWER_R: byte := 114
  const LOWER_T: byte := 116
  const LOWER_X: byte := 120

  /** isprint in the C locale. */
  predicate IsPrint(c: byte) {
    32 <= c <= 126
  }

  /** isspace in the C locale. */
  predicate IsSpace(c: byte) {
    c == SPACE || 9 <= c <= 13
  }

  // ---------------------------------------------------------------- printing

  /** The printed form of one byte between the quotes. */
  function Escape(c: byte): (s: bytes)
    ensures 1 <= |s| <= 4
  {
    if c == BACKSLASH || c == QUOTE then [BACKSLASH, c]
    else if c == LF then [BACKSLASH, LOWER_N]
    else if c == CR then [BACKSLASH, LOWER_R]
    else if c == TAB then [BACKSLASH, LOWER_T]
    else if c == BEL then [BACKSLASH, LOWER_A]
    else if c == BACKSPACE then [BACKSLASH, LOWER_B]
    else if IsPrint(c) then [c]
    else [BACKSLASH, LOWER_X, HexDigit(c / 16), HexDigit(c % 16)]
  }

  function EscapeAll(s: bytes): bytes {
    if s == [] then [] else Escape(s[0]) + EscapeAll(s[1..])
  }

  function Repr(s: bytes): bytes {
    [QUOTE] + EscapeAll(s) + [QUOTE]
  }

  /** sdscatrepr. */
  method CatRepr(s: bytes, p: bytes) returns (r: bytes)
    ensures r == s + Repr(p)
  {
    r := s + [QUOTE];
    for i := 0 to |p|
      invariant r + EscapeAll(p[i..]) == s + [QUOTE] + EscapeAll(p)
    {
      var c := p[i];
      assert p[i..][1..] == p[i + 1..];
      assert r + (Escape(c) + EscapeAll(p[i + 1..])) == (r + Escape(c)) + EscapeAll(p[i + 1..]);
      if c == BACKSLASH || c == QUOTE {
        r := r + [BACKSLASH, c];
      } else if c == LF {
        r := r + [BACKSLASH, LOWER_N];
      } else if c == CR {
        r := r + [BACKSLASH, LOWER_R];
      } else if c == TAB {
        r := r + [BACKSLASH, LOWER_T];
      } else if c == BEL {
        r := r + [BACKSLASH, LOWER_A];
      } else if c == BACKSPACE {
        r := r + [BACKSLASH, LOWER_B];
      } else if IsPrint(c) {
        r := r + [c];
      } else {
        r := r + [BACKSLASH, LOWER_X, HexDigit(c / 16), HexDigit(c % 16)];
      }
    }
    assert p[|p|..] == [];
    assert r == s + [QUOTE] + EscapeAll(p);
    r := r + [QUOTE];
  }

  // ---------------------------------------------------------------- splitting

  predicate IsHexDigit(c: byte) {
    IsDigit(c) || 97 <= c <= 102 || 65 <= c <= 70
  }

  function HexValue(c: byte): (n: nat)
    ensures n < 16
  {
    if IsDigit(c) then c - ZERO
    else if 97 <= c <= 102 then c - 97 + 10
    else if 65 <= c <= 70 then c - 65 + 10
    else 0
  }

  /** What \c stands for inside double quotes. */
  function Unescape(c: byte): byte {
    if c == LOWER_N then LF
    else if c == LOWER_R then CR
    else if c == LOWER_T then TAB
    else if c == LOWER_B then BACKSPACE
    else if c == LOWER_A then BEL
    else c
  }

  /** The byte at position p of a line that a NUL ends. */
  function At(line: bytes, p: nat): byte {
    if p < |line| then line[p] else 0
  }

  datatype Mode = Plain | InQuotes | InApostrophes

  /** A token read up to position next, or an unbalanced or misplaced quote. */
  datatype Token = Token(text: bytes, next: nat) | Unbalanced

  /** A closing quote must be followed by a space or nothing. */
  predicate MayClose(line: bytes, p: nat) {
    At(line, p + 1) == 0 || IsSpace(At(line, p + 1))
  }

  predicate HexEscapeAt(line: bytes, p: nat) {
    At(line, p) == BACKSLASH && At(line, p + 1) == LOWER_X && IsHexDigit(At(line, p + 2)) && IsHexDigit(At(line, p + 3))
  }

  /** The rest of a token from position p, with cur already read. */
  function ReadToken(line: bytes, p: nat, mode: Mode, cur: bytes): (t: Token)
    requires p <= |line| && 0 !in line
    ensures t.Token? ==> p <= t.next <= |line|
    decreases |line| - p, mode.Plain?
  {
    var c := At(line, p);
    match mode
    case InQuotes =>
      if HexEscapeAt(line, p) then
        ReadToken(line, p + 4, mode, cur + [HexValue(At(line, p + 2)) * 16 + HexValue(At(line, p + 3))])
      else if c == BACKSLASH && At(line, p + 1) != 0 then
        ReadToken(line, p + 2, mode, cur + [Unescape(At(line, p + 1))])
      else if c == QUOTE then
        if MayClose(line, p) then Token(cur, p + 1) else Unbalanced
      else if c == 0 then Unbalanced
      else ReadToken(line, p + 1, mode, cur + [c])
    case InApostrophes =>
      if c == BACKSLASH && At(line, p + 1) == APOSTROPHE then ReadToken(line, p + 2, mode, cur + [APOSTROPHE])
      else if c == APOSTROPHE then
        if MayClose(line, p) then Token(cur, p + 1) else Unbalanced
      else if c == 0 then Unbalanced
      else ReadToken(line, p + 1, mode, cur + [c])
    case Plain =>
      if c == 0 then Token(cur, p)
      else if c == SPACE || c == LF || c == CR || c == TAB then Token(cur, p + 1)
      else if c == QUOTE then ReadToken(line, p + 1, InQuotes, cur)
      else if c == APOSTROPHE then ReadToken(line, p + 1, InApostrophes, cur)
      else ReadToken(line, p + 1, mode, cur + [c])
  }

  function SkipBlanks(line: bytes, p: nat): (q: nat)
    requires p <= |line|
    ensures p <= q <= |line|
    decreases |line| - p
  {
    if p < |line| && IsSpace(line[p]) then SkipBlanks(line, p + 1) else p
  }

  /** A token that starts on a byte other than a blank takes at least that byte. */
  lemma TokenTakesBytes(line: bytes, p: nat)
    requires p < |line| && 0 !in line && !IsSpace(line[p])
    ensures var t := ReadToken(line, p, Plain, []); t.Token? ==> t.next > p
  {
  }

  /** The arguments of a line from position p on, or None. */
  function SplitFrom(line: bytes, p: nat): Option<seq<bytes>>
    requires p <= |line| && 0 !in line
    decreases |line| - p
  {
    var q := SkipBlanks(line, p);
    if q == |line| then Some([])
    else
      match ReadToken(line, q, Plain, [])
      case Unbalanced => None
      case Token(text, next) =>
        SkipStopsOffBlank(line, p);
        TokenTakesBytes(line, q);
        match SplitFrom(line, next)
        case None => None
        case Some(rest) => Some([text] + rest)
  }

  lemma {:induction false} SkipStopsOffBlank(line: bytes, p: nat)
    requires p <= |line|
    ensures SkipBlanks(line, p) < |line| ==> !IsSpace(line[SkipBlanks(line, p)])
    decreases |line| - p
  {
    if p < |line| && IsSpace(line[p]) {
      SkipStopsOffBlank(line, p + 1);
    }
  }

  /** The token loop of sdssplitargs. */
  method NextToken(line: bytes, first: nat) returns (t: Token)
    requires first <= |line| && 0 !in line
    ensures t == ReadToken(line, first, Plain, [])
  {
    var p := first;
    var current: bytes := [];
    var inq, insq, done := false, false, false;
    while !done
      invariant first <= p <= |line| && !(inq && insq)
      invariant done ==> ReadToken(line, first, Plain, []) == Token(current, p)
      invariant !done ==>
                  ReadToken(line, first, Plain, []) ==
                  ReadToken(line, p, if inq then InQuotes else if insq then InApostrophes else Plain, current)
      decreases !done, |line| - p
    {
      if inq {
        if HexEscapeAt(line, p) {
          current := current + [HexValue(At(line, p + 2)) * 16 + HexValue(At(line, p + 3))];
          p := p + 3;
        } else if At(line, p) == BACKSLASH && At(line, p + 1) != 0 {
          p := p + 1;
          current := current + [Unescape(At(line, p))];
        } else if At(line, p) == QUOTE {
          if At(line, p + 1) != 0 && !IsSpace(At(line, p + 1)) {
            return Unbalanced;
          }
          done := true;
        } else if At(line, p) == 0 {
          return Unbalanced;
        } else {
          current := current + [At(line, p)];
        }
      } else if insq {
        if At(line, p) == BACKSLASH && At(line, p + 1) == APOSTROPHE {
          p := p + 1;
          current := current + [APOSTROPHE];
        } else if At(line, p) == APOSTROPHE {
          if At(line, p + 1) != 0 && !IsSpace(At(line, p + 1)) {
            return Unbalanced;
          }
          done := true;
        } else if At(line, p) == 0 {
          return Unbalanced;
        } else {
          current := current + [At(line, p)];
        }
      } else {
        var c := At(line, p);
        if c == SPACE || c == LF || c == CR || c == TAB || c == 0 {
          done := true;
        } else if c == QUOTE {
          inq := true;
        } else if c == APOSTROPHE {
          insq := true;
        } else {
          current := current + [c];
        }
      }
      if At(line, p) != 0 {
        p := p + 1;
      }
    }
    t := Token(current, p);
  }

  /** sdssplitargs, for a line without NUL bytes. */
  method SplitArgs(line: bytes) returns (res: Option<seq<bytes>>)
    requires 0 !in line
    ensures res == SplitFrom(line, 0)
  {
    hide ReadToken;
    var p, vector := 0, [];
    assert SplitFrom(line, 0).Some? ==> [] + SplitFrom(line, 0).value == SplitFrom(line, 0).value;
    while true
      invariant 0 <= p <= |line|
      invariant SplitFrom(line, 0) ==
                if SplitFrom(line, p).None? then None else Some(vector + SplitFrom(line, p).value)
      decreases |line| - p
    {
      ghost var start := p;
      while At(line, p) != 0 && IsSpace(At(line, p))
        invariant start <= p <= |line| && SkipBlanks(line, p) == SkipBlanks(line, start)
        decreases |line| - p
      {
        p := p + 1;
      }
      if At(line, p) == 0 {
        assert p == |line| && vector + [] == vector;
        return Some(vector);
      }
      TokenTakesBytes(line, p);
      var token := NextToken(line, p);
      if token.Unbalanced? {
        return None;
      }
      p := token.next;
      ghost var rest := SplitFrom(line, p);
      assert rest.Some? ==> vector + ([token.text] + rest.value) == (vector + [token.text]) + rest.value;
      vector := vector + [token.text];
    }
  }

  // ---------------------------------------------------------------- round trip

  lemma HexRoundTrip(n: nat)
    requires n < 16
    ensures IsHexDigit(HexDigit(n)) && HexValue(HexDigit(n)) == n
  {
  }

  /** No printed byte is a NUL, and none but an escape starts with a quote. */
  lemma {:induction false} ReprHasNoNul(s: bytes)
    ensures 0 !in EscapeAll(s) && 0 !in Repr(s)
  {
    if s != [] {
      ReprHasNoNul(s[1..]);
    }
  }

  /** The line holds s at position p. */
  predicate HoldsAt(line: bytes, p: nat, s: bytes) {
    p + |s| <= |line| && forall i :: 0 <= i < |s| ==> line[p + i] == s[i]
  }

  lemma HoldsSplit(line: bytes, p: nat, a: bytes, b: bytes)
    requires HoldsAt(line, p, a + b)
    ensures HoldsAt(line, p, a) && HoldsAt(line, p + |a|, b)
  {
    var s := a + b;
    forall i | 0 <= i < |a| ensures line[p + i] == a[i] {
      assert s[i] == a[i];
    }
    forall i | 0 <= i < |b| ensures line[p + |a| + i] == b[i] {
      assert s[|a| + i] == b[i] && line[p + (|a| + i)] == s[|a| + i];
    }
  }

  /** Reading one escaped byte inside quotes. */
  lemma ReadEscape(line: bytes, p: nat, c: byte, cur: bytes)
    requires 0 !in line && HoldsAt(line, p, Escape(c))
    ensures ReadToken(line, p, InQuotes, cur) == ReadToken(line, p + |Escape(c)|, InQuotes, cur + [c])
  {
    var e := Escape(c);
    assert forall i :: 0 <= i < |e| ==> At(line, p + i) == e[i];
    assert At(line, p + 0) == e[0];
    if |e| == 4 {
      HexRoundTrip(c / 16);
      HexRoundTrip(c % 16);
      assert At(line, p + 2) == e[2] && At(line, p + 3) == e[3] && At(line, p + 1) == e[1];
      assert HexEscapeAt(line, p);
      assert HexValue(At(line, p + 2)) * 16 + HexValue(At(line, p + 3)) == c;
    } else if |e| == 2 {
      assert At(line, p + 1) == e[1];
      assert !HexEscapeAt(line, p);
    } else {
      assert !HexEscapeAt(line, p);
    }
  }

  /** Reading all escaped bytes up to the closing quote. */
  lemma {:induction false} ReadEscapes(line: bytes, p: nat, s: bytes, cur: bytes)
    requires 0 !in line && HoldsAt(line, p, EscapeAll(s))
    ensures ReadToken(line, p, InQuotes, cur) == ReadToken(line, p + |EscapeAll(s)|, InQuotes, cur + s)
    decreases |s|
  {
    hide ReadToken, Escape, HoldsAt;
    if s == [] {
      assert cur + [] == cur;
    } else {
      HoldsSplit(line, p, Escape(s[0]), EscapeAll(s[1..]));
      ReadEscape(line, p, s[0], cur);
      ReadEscapes(line, p + |Escape(s[0])|, s[1..], cur + [s[0]]);
      assert cur + [s[0]] + s[1..] == cur + s;
    }
  }

  /** A printed string at position p is read back whole, provided a blank or nothing follows it. */
  lemma ReadRepr(line: bytes, p: nat, s: bytes)
    requires 0 !in line && HoldsAt(line, p, Repr(s)) && MayClose(line, p + |Repr(s)| - 1)
    ensures ReadToken(line, p, Plain, []) == Token(s, p + |Repr(s)|)
  {
    hide ReadToken, EscapeAll, HoldsAt;
    var e := EscapeAll(s);
    HoldsSplit(line, p, [QUOTE] + e, [QUOTE]);
    HoldsSplit(line, p, [QUOTE], e);
    OpeningQuote(line, p);
    ReadEscapes(line, p + 1, s, []);
    assert [] + s == s;
    ClosingQuote(line, p + 1 + |e|, s);
  }

  lemma OpeningQuote(line: bytes, p: nat)
    requires 0 !in line && HoldsAt(line, p, [QUOTE])
    ensures ReadToken(line, p, Plain, []) == ReadToken(line, p + 1, InQuotes, [])
  {
    assert line[p + 0] == [QUOTE][0];
  }

  lemma ClosingQuote(line: bytes, p: nat, cur: bytes)
    requires 0 !in line && HoldsAt(line, p, [QUOTE]) && MayClose(line, p)
    ensures ReadToken(line, p, InQuotes, cur) == Token(cur, p + 1)
  {
    assert line[p + 0] == [QUOTE][0];
  }

  /** The printed forms joined by single spaces. */
  function JoinReprs(args: seq<bytes>): bytes {
    if args == [] then []
    else if |args| == 1 then Repr(args[0])
    else Repr(args[0]) + [SPACE] + JoinReprs(args[1..])
  }

  lemma {:induction false} JoinHasNoNul(args: seq<bytes>)
    ensures 0 !in JoinReprs(args)
  {
    if args != [] {
      ReprHasNoNul(args[0]);
      JoinHasNoNul(args[1..]);
    }
  }

  lemma {:induction false} SplitJoined(line: bytes, p: nat, args: seq<bytes>)
    requires 0 !in line && HoldsAt(line, p, JoinReprs(args)) && p + |JoinReprs(args)| == |line|
    ensures SplitFrom(line, p) == Some(args)
    decreases |args|
  {
    hide SplitFrom, HoldsAt, Repr;
    if args == [] {
      SplitNothing(line);
    } else {
      var next := p + |Repr(args[0])|;
      if |args| == 1 {
        SplitFirst(line, p, args[0]);
        SplitNothing(line);
        assert args == [args[0]] + [];
      } else {
        JoinedFirst(line, p, args);
        SplitFirst(line, p, args[0]);
        SplitJoined(line, next + 1, args[1..]);
        SkipOneBlank(line, next);
        assert args == [args[0]] + args[1..];
      }
    }
  }

  lemma SplitNothing(line: bytes)
    requires 0 !in line
    ensures SplitFrom(line, |line|) == Some([])
  {
  }

  lemma JoinedFirst(line: bytes, p: nat, args: seq<bytes>)
    requires |args| > 1 && HoldsAt(line, p, JoinReprs(args))
    ensures var next := p + |Repr(args[0])|;
            HoldsAt(line, p, Repr(args[0])) && line[next] == SPACE && HoldsAt(line, next + 1, JoinReprs(args[1..]))
  {
    var r := Repr(args[0]);
    HoldsSplit(line, p, r + [SPACE], JoinReprs(args[1..]));
    HoldsSplit(line, p, r, [SPACE]);
    assert line[p + |r| + 0] == [SPACE][0];
  }

  /** The first printed form in a line gives the first argument. */
  lemma SplitFirst(line: bytes, p: nat, s: bytes)
    requires 0 !in line && HoldsAt(line, p, Repr(s)) && MayClose(line, p + |Repr(s)| - 1)
    ensures var rest := SplitFrom(line, p + |Repr(s)|);
            SplitFrom(line, p) == if rest.None? then None else Some([s] + rest.value)
  {
    assert line[p + 0] == Repr(s)[0] == QUOTE;
    ReadRepr(line, p, s);
  }

  lemma SkipOneBlank(line: bytes, p: nat)
    requires p < |line| && 0 !in line && line[p] == SPACE
    ensures SplitFrom(line, p) == SplitFrom(line, p + 1)
  {
  }

  /** Any list of byte strings survives being printed, joined by spaces and split again. */
  lemma QuotingRoundTrip(args: seq<bytes>)
    ensures 0 !in JoinReprs(args)
    ensures SplitFrom(JoinReprs(args), 0) == Some(args)
  {
    JoinHasNoNul(args);
    SplitJoined(JoinReprs(args), 0, args);
  }

  // ---------------------------------------------------------------- byte for byte

  /** A hexadecimal digit of either case and its value. */
  predicate IsHexOf(c: byte, n: nat) {
    (n < 10 && c == 48 + n) || (10 <= n < 16 && (c == 87 + n || c == 55 + n))
  }

  predicate IsHex(c: byte) {
    48 <= c <= 57 || 97 <= c <= 102 || 65 <= c <= 70
  }

  /** How each byte is printed between double quotes: \\ \" \n \r \t \a \b, itself, or \x and two lower-case digits. */
  lemma EscapeExactly(c: byte)
    ensures c == 92 ==> Escape(c) == [92, 92]
    ensures c == 34 ==> Escape(c) == [92, 34]
    ensures c == 10 ==> Escape(c) == [92, 110]
    ensures c == 13 ==> Escape(c) == [92, 114]
    ensures c == 9 ==> Escape(c) == [92, 116]
    ensures c == 7 ==> Escape(c) == [92, 97]
    ensures c == 8 ==> Escape(c) == [92, 98]
    ensures 32 <= c <= 126 && c != 92 && c != 34 ==> Escape(c) == [c]
    ensures c < 7 || c == 11 || c == 12 || 13 < c < 32 || c > 126 ==>
              var (h, l) := (c / 16, c % 16);
              Escape(c) == [92, 120, if h < 10 then 48 + h else 87 + h, if l < 10 then 48 + l else 87 + l]
  {
  }

  /** A printed string is its bytes printed one by one, between two bytes 34. */
  lemma {:induction false} ReprExactly(s: bytes, c: byte)
    ensures EscapeAll([]) == [] && EscapeAll(s + [c]) == EscapeAll(s) + Escape(c)
    ensures Repr(s) == [34] + EscapeAll(s) + [34]
  {
    hide Escape;
    if s == [] {
      assert [c][1..] == [] && Escape(c) + [] == Escape(c) && s + [c] == [c];
    } else {
      ReprExactly(s[1..], c);
      assert (s + [c])[1..] == s[1..] + [c];
    }
  }

  /** What a backslash inside double quotes does: \x and two hexadecimal digits are one byte, else the next byte counts. */
  lemma EscapesRead(line: bytes, p: nat, h: nat, l: nat, cur: bytes)
    requires 0 !in line && p + 1 < |line| && line[p] == 92
    ensures line[p + 1] == 120 && p + 3 < |line| && IsHexOf(line[p + 2], h) && IsHexOf(line[p + 3], l) ==>
              ReadToken(line, p, InQuotes, cur) == ReadToken(line, p + 4, InQuotes, cur + [16 * h + l])
    ensures line[p + 1] != 120 || p + 3 >= |line| || !IsHex(line[p + 2]) || !IsHex(line[p + 3]) ==>
              var c := line[p + 1];
              var b: byte := if c == 110 then 10 else if c == 114 then 13 else if c == 116 then 9
                             else if c == 98 then 8 else if c == 97 then 7 else c;
              ReadToken(line, p, InQuotes, cur) == ReadToken(line, p + 2, InQuotes, cur + [b])
  {
    if p + 3 < |line| {
      HexDigitsExactly(line[p + 2]);
      HexDigitsExactly(line[p + 3]);
    }
  }

  lemma HexDigitsExactly(c: byte)
    ensures IsHexDigit(c) <==> IsHex(c)
    ensures IsHex(c) ==> IsHexOf(c, HexValue(c))
    ensures forall n: nat :: IsHexOf(c, n) ==> IsHex(c) && HexValue(c) == n
  {
  }

  // ---------------------------------------------------------------- arguments in any form

  /**
   * An argument as it may stand on a line: plain bytes, or plain bytes, perhaps none, and behind them a
   * string in double quotes or in single quotes.
   */
  datatype Form = Bare(pre: bytes) | Double(pre: bytes, s: bytes) | Single(pre: bytes, s: bytes)

  /** Bytes that stand for themselves: no NUL, no tab, LF, CR or blank, no quote. */
  predicate IsBare(w: bytes) {
    forall i :: 0 <= i < |w| ==> w[i] !in {0, 9, 10, 13, 32, 34, 39}
  }

  predicate IsGap(gap: bytes) {
    forall i :: 0 <= i < |gap| ==> gap[i] == 32 || 9 <= gap[i] <= 13
  }

  /** Between single quotes nothing is escaped but the quote, so a backslash cannot be the last byte. */
  predicate IsForm(f: Form) {
    && IsBare(f.pre) && (f.pre != [] ==> f.pre[0] != 11 && f.pre[0] != 12)
    && (f.Bare? ==> f.pre != [])
    && (f.Single? ==> 0 !in f.s && (f.s != [] ==> f.s[|f.s| - 1] != 92))
  }

  function Apostrophised(s: bytes): bytes {
    if s == [] then [] else (if s[0] == 39 then [92, 39] else [s[0]]) + Apostrophised(s[1..])
  }

  /** A form without its closing quote. */
  function Opened(f: Form): bytes {
    match f
    case Bare(pre) => pre
    case Double(pre, s) => pre + ([34] + EscapeAll(s))
    case Single(pre, s) => pre + ([39] + Apostrophised(s))
  }

  function Closing(f: Form): bytes {
    match f
    case Bare(_) => []
    case Double(_, _) => [34]
    case Single(_, _) => [39]
  }

  function Spelled(f: Form): bytes {
    Opened(f) + Closing(f)
  }

  function Denotes(f: Form): bytes {
    match f
    case Bare(pre) => pre
    case Double(pre, s) => pre + s
    case Single(pre, s) => pre + s
  }

  function ModeOf(f: Form): Mode {
    match f
    case Bare(_) => Plain
    case Double(_, _) => InQuotes
    case Single(_, _) => InApostrophes
  }

  lemma {:induction false} ReadBare(line: bytes, p: nat, w: bytes, cur: bytes)
    requires 0 !in line && HoldsAt(line, p, w) && IsBare(w)
    ensures ReadToken(line, p, Plain, cur) == ReadToken(line, p + |w|, Plain, cur + w)
    decreases |w|
  {
    if w == [] {
      assert cur + [] == cur;
    } else {
      assert w == [w[0]] + w[1..];
      HoldsSplit(line, p, [w[0]], w[1..]);
      assert line[p + 0] == w[0];
      ReadBare(line, p + 1, w[1..], cur + [w[0]]);
      assert cur + [w[0]] + w[1..] == cur + w;
      BareStep(line, p, cur);
    }
  }

  lemma BareStep(line: bytes, p: nat, cur: bytes)
    requires 0 !in line && p < |line| && line[p] !in {0, 9, 10, 13, 32, 34, 39}
    ensures ReadToken(line, p, Plain, cur) == ReadToken(line, p + 1, Plain, cur + [line[p]])
  {
  }

  lemma ApostropheStep(line: bytes, p: nat, cur: bytes)
    requires 0 !in line && p < |line|
    ensures line[p] == 92 && At(line, p + 1) == 39 ==>
              ReadToken(line, p, InApostrophes, cur) == ReadToken(line, p + 2, InApostrophes, cur + [39])
    ensures line[p] != 39 && !(line[p] == 92 && At(line, p + 1) == 39) ==>
              ReadToken(line, p, InApostrophes, cur) == ReadToken(line, p + 1, InApostrophes, cur + [line[p]])
  {
  }

  lemma ApostrophisedStep(s: bytes)
    requires s != []
    ensures Apostrophised(s) == (if s[0] == 39 then [92, 39] else [s[0]]) + Apostrophised(s[1..])
    ensures Apostrophised(s)[0] != 39
  {
  }

  lemma {:induction false} ReadApostrophes(line: bytes, p: nat, s: bytes, cur: bytes)
    requires 0 !in line && HoldsAt(line, p, Apostrophised(s)) && (s != [] ==> s[|s| - 1] != 92)
    ensures ReadToken(line, p, InApostrophes, cur) == ReadToken(line, p + |Apostrophised(s)|, InApostrophes, cur + s)
    decreases |s|
  {
    hide *;
    if s == [] {
      NothingApostrophised();
      assert cur + [] == cur;
    } else {
      var c, rest := s[0], s[1..];
      var head := if c == 39 then [92, 39] else [c];
      ApostrophisedStep(s);
      HoldsSplit(line, p, head, Apostrophised(rest));
      HoldsBytes(line, p, head);
      if c == 92 {
        NotApostrophe(line, p, s);
      }
      ApostropheStep(line, p, cur);
      ReadApostrophes(line, p + |head|, rest, cur + [c]);
      assert cur + [c] + rest == cur + s;
    }
  }

  lemma NothingApostrophised()
    ensures Apostrophised([]) == []
  {
  }

  lemma HoldsBytes(line: bytes, p: nat, s: bytes)
    requires HoldsAt(line, p, s) && (|s| == 1 || |s| == 2)
    ensures p < |line| && line[p] == s[0] && (|s| == 2 ==> p + 1 < |line| && At(line, p + 1) == s[1])
  {
    assert line[p + 0] == s[0] && (|s| == 2 ==> line[p + 1] == s[1]);
  }

  /** A backslash that stands for itself is not followed by a quote. */
  lemma NotApostrophe(line: bytes, p: nat, s: bytes)
    requires 0 !in line && HoldsAt(line, p, Apostrophised(s)) && s != [] && s[0] == 92 && s[|s| - 1] != 92
    ensures At(line, p + 1) != 39
  {
    var rest := s[1..];
    ApostrophisedStep(s);
    ApostrophisedStep(rest);
    hide Apostrophised;
    assert line[p + 1] == Apostrophised(s)[1] == Apostrophised(rest)[0];
  }

  lemma QuoteOpens(line: bytes, p: nat, cur: bytes)
    requires 0 !in line && p < |line|
    ensures line[p] == 34 ==> ReadToken(line, p, Plain, cur) == ReadToken(line, p + 1, InQuotes, cur)
    ensures line[p] == 39 ==> ReadToken(line, p, Plain, cur) == ReadToken(line, p + 1, InApostrophes, cur)
  {
  }

  /** Everything of an argument but its closing quote. */
  lemma ReadOpened(line: bytes, p: nat, f: Form)
    requires 0 !in line && IsForm(f) && HoldsAt(line, p, Opened(f))
    ensures ReadToken(line, p, Plain, []) == ReadToken(line, p + |Opened(f)|, ModeOf(f), Denotes(f))
  {
    hide ReadToken, HoldsAt;
    if f.Bare? {
      ReadBare(line, p, f.pre, []);
      assert [] + f.pre == f.pre;
    } else {
      var quote, body := Closing(f), if f.Double? then EscapeAll(f.s) else Apostrophised(f.s);
      ReadPrefix(line, p, f.pre, quote, body);
      var q := p + |f.pre| + 1;
      if f.Double? {
        ReadEscapes(line, q, f.s, f.pre);
      } else {
        ReadApostrophes(line, q, f.s, f.pre);
      }
    }
  }

  lemma ReadPrefix(line: bytes, p: nat, pre: bytes, quote: bytes, body: bytes)
    requires 0 !in line && IsBare(pre) && (quote == [34] || quote == [39]) && HoldsAt(line, p, pre + (quote + body))
    ensures HoldsAt(line, p + |pre| + 1, body)
    ensures ReadToken(line, p, Plain, []) ==
            ReadToken(line, p + |pre| + 1, if quote == [34] then InQuotes else InApostrophes, pre)
  {
    hide ReadToken, IsBare;
    HoldsSplit(line, p, pre, quote + body);
    HoldsSplit(line, p + |pre|, quote, body);
    HoldsOne(line, p + |pre|, quote[0]);
    hide HoldsAt;
    ReadBare(line, p, pre, []);
    assert [] + pre == pre;
    QuoteOpens(line, p + |pre|, pre);
  }

  lemma HoldsOne(line: bytes, p: nat, c: byte)
    requires HoldsAt(line, p, [c])
    ensures p < |line| && line[p] == c
  {
    assert line[p + 0] == [c][0];
  }

  /** Where a token ends: a closing quote must be followed by a blank or nothing. */
  lemma TokenEnds(line: bytes, p: nat, cur: bytes)
    requires 0 !in line && p <= |line|
    ensures ReadToken(line, p, Plain, cur) ==
            if p == |line| then Token(cur, p)
            else if line[p] in {9, 10, 13, 32} then Token(cur, p + 1)
            else ReadToken(line, p, Plain, cur)
    ensures var closes := p + 1 >= |line| || line[p + 1] == 32 || 9 <= line[p + 1] <= 13;
            && (p == |line| || line[p] == 34 ==>
                  ReadToken(line, p, InQuotes, cur) == if p < |line| && closes then Token(cur, p + 1) else Unbalanced)
            && (p == |line| || line[p] == 39 ==>
                  ReadToken(line, p, InApostrophes, cur) == if p < |line| && closes then Token(cur, p + 1) else Unbalanced)
  {
  }

  /** Blanks before an argument do not count. */
  lemma {:induction false} SkipGap(line: bytes, p: nat, gap: bytes)
    requires 0 !in line && HoldsAt(line, p, gap) && IsGap(gap)
    ensures SplitFrom(line, p) == SplitFrom(line, p + |gap|)
    decreases |gap|
  {
    if gap != [] {
      assert gap == [gap[0]] + gap[1..];
      HoldsSplit(line, p, [gap[0]], gap[1..]);
      HoldsOne(line, p, gap[0]);
      SkipGap(line, p + 1, gap[1..]);
      assert SkipBlanks(line, p) == SkipBlanks(line, p + 1);
    }
  }

  /** Arguments in front of those that follow, if these can be split at all. */
  function Before(args: seq<bytes>, rest: Option<seq<bytes>>): Option<seq<bytes>> {
    if rest.None? then None else Some(args + rest.value)
  }

  lemma BeforeBefore(a: seq<bytes>, b: seq<bytes>, rest: Option<seq<bytes>>)
    ensures Before(a, Before(b, rest)) == Before(a + b, rest)
  {
    if rest.Some? {
      assert a + (b + rest.value) == (a + b) + rest.value;
    }
  }

  lemma BeforeNothing(rest: Option<seq<bytes>>)
    ensures Before([], rest) == rest
  {
    if rest.Some? {
      assert [] + rest.value == rest.value;
    }
  }

  lemma BeforeEnd(a: seq<bytes>)
    ensures Before(a, Some([])) == Some(a)
  {
    assert a + [] == a;
  }

  lemma BeforeNone(a: seq<bytes>)
    ensures Before(a, None) == None
  {
  }

  lemma FormStarts(line: bytes, p: nat, f: Form)
    requires IsForm(f) && HoldsAt(line, p, Opened(f))
    ensures p < |line| && !IsSpace(line[p])
  {
    hide EscapeAll, Apostrophised;
    assert line[p + 0] == Opened(f)[0];
  }

  /** The token at a byte that is no blank is the first argument. */
  lemma SplitByToken(line: bytes, p: nat)
    requires 0 !in line && p < |line| && !IsSpace(line[p])
    ensures var t := ReadToken(line, p, Plain, []);
            SplitFrom(line, p) == if t.Unbalanced? then None else Before([t.text], SplitFrom(line, t.next))
  {
    hide ReadToken;
  }

  /** The byte behind an argument lets it end there. */
  predicate EndsAt(line: bytes, q: nat, f: Form) {
    q >= |line| || line[q] in {9, 10, 13, 32} || (!f.Bare? && line[q] in {11, 12})
  }

  /** An argument in front, whatever follows behind a blank. */
  lemma SplitForm(line: bytes, p: nat, f: Form)
    requires 0 !in line && IsForm(f) && HoldsAt(line, p, Spelled(f)) && EndsAt(line, p + |Spelled(f)|, f)
    ensures p + |Spelled(f)| <= |line|
    ensures SplitFrom(line, p) == Before([Denotes(f)], SplitFrom(line, p + |Spelled(f)|))
  {
    hide *;
    var q := p + |Opened(f)|;
    FormParts(f);
    HoldsSplit(line, p, Opened(f), Closing(f));
    FormStarts(line, p, f);
    ReadOpened(line, p, f);
    SplitByToken(line, p);
    if f.Bare? {
      OpenedWithin(line, p, f);
      BareMayEnd(line, q, f);
      BareEnds(line, q, Denotes(f));
    } else {
      QuotedEnds(line, q, f, Denotes(f));
    }
  }

  lemma FormParts(f: Form)
    ensures Spelled(f) == Opened(f) + Closing(f) && (f.Bare? ==> Closing(f) == [] && ModeOf(f) == Plain)
  {
  }

  lemma OpenedWithin(line: bytes, p: nat, f: Form)
    requires HoldsAt(line, p, Opened(f))
    ensures p + |Opened(f)| <= |line|
  {
  }

  lemma BareMayEnd(line: bytes, q: nat, f: Form)
    requires f.Bare? && EndsAt(line, q, f)
    ensures q < |line| ==> line[q] in {9, 10, 13, 32}
  {
  }

  lemma QuotedEnds(line: bytes, q: nat, f: Form, cur: bytes)
    requires 0 !in line && !f.Bare? && HoldsAt(line, q, Closing(f)) && EndsAt(line, q + |Closing(f)|, f)
    ensures q + |Closing(f)| <= |line|
    ensures ReadToken(line, q, ModeOf(f), cur) == Token(cur, q + |Closing(f)|)
  {
    hide ReadToken;
    HoldsOne(line, q, Closing(f)[0]);
    TokenEnds(line, q, cur);
  }

  lemma BareEnds(line: bytes, q: nat, cur: bytes)
    requires 0 !in line && q <= |line| && (q < |line| ==> line[q] in {9, 10, 13, 32})
    ensures var t := ReadToken(line, q, Plain, cur); t.Token? && t.text == cur && SplitFrom(line, t.next) == SplitFrom(line, q)
  {
    TokenEnds(line, q, cur);
    hide ReadToken, SplitFrom;
    if q < |line| {
      SkipGap(line, q, [line[q]]);
    }
  }

  /** A quote that is not closed, or closed in front of something other than a blank, spoils the line. */
  lemma SplitUnbalanced(line: bytes, p: nat, f: Form)
    requires 0 !in line && IsForm(f) && !f.Bare? && HoldsAt(line, p, Opened(f))
    requires var q := p + |Opened(f)|;
             q == |line| || (HoldsAt(line, q, Closing(f)) && !EndsAt(line, q + 1, f))
    ensures SplitFrom(line, p) == None
  {
    hide *;
    var q := p + |Opened(f)|;
    FormStarts(line, p, f);
    ReadOpened(line, p, f);
    SplitByToken(line, p);
    NoToken(line, q, f, Denotes(f));
  }

  lemma NoToken(line: bytes, q: nat, f: Form, cur: bytes)
    requires 0 !in line && !f.Bare?
    requires q == |line| || (HoldsAt(line, q, Closing(f)) && !EndsAt(line, q + 1, f))
    ensures ReadToken(line, q, ModeOf(f), cur) == Unbalanced
  {
    hide ReadToken;
    if q < |line| {
      HoldsOne(line, q, Closing(f)[0]);
    }
    hide HoldsAt;
    TokenEnds(line, q, cur);
  }

  /** An argument and the blanks behind it. */
  datatype Part = Part(form: Form, gap: bytes)

  function LineOf(parts: seq<Part>): bytes {
    if parts == [] then [] else Spelled(parts[0].form) + (parts[0].gap + LineOf(parts[1..]))
  }

  predicate IsPart(part: Part) {
    IsForm(part.form) && IsGap(part.gap) && (part.form.Bare? && part.gap != [] ==> part.gap[0] !in {11, 12})
  }

  /** Proper arguments; blanks are missing at most behind the last one, and only where that is allowed. */
  predicate AreParts(parts: seq<Part>, bareEnd: bool) {
    && (forall i :: 0 <= i < |parts| ==> IsPart(parts[i]))
    && (forall i :: 0 <= i < |parts| && parts[i].gap == [] ==> i + 1 == |parts| && bareEnd)
  }

  lemma PartsTail(parts: seq<Part>, bareEnd: bool)
    requires AreParts(parts, bareEnd) && parts != []
    ensures IsPart(parts[0]) && AreParts(parts[1..], bareEnd) && (parts[0].gap == [] ==> |parts| == 1 && bareEnd)
    ensures AllDenote(parts) == [Denotes(parts[0].form)] + AllDenote(parts[1..])
  {
    hide IsPart, Denotes;
  }

  function AllDenote(parts: seq<Part>): (args: seq<bytes>)
    ensures |args| == |parts| && forall i :: 0 <= i < |parts| ==> args[i] == Denotes(parts[i].form)
  {
    if parts == [] then [] else [Denotes(parts[0].form)] + AllDenote(parts[1..])
  }

  /** Arguments in front, each with blanks behind it, or at the end of the line. */
  lemma {:induction false} SplitParts(line: bytes, p: nat, parts: seq<Part>)
    requires 0 !in line && p <= |line| && HoldsAt(line, p, LineOf(parts))
    requires AreParts(parts, p + |LineOf(parts)| == |line|)
    ensures p + |LineOf(parts)| <= |line|
    ensures SplitFrom(line, p) == Before(AllDenote(parts), SplitFrom(line, p + |LineOf(parts)|))
    decreases |parts|
  {
    hide *;
    if parts == [] {
      NoParts();
      BeforeNothing(SplitFrom(line, p));
    } else {
      var rest := parts[1..];
      PartsTail(parts, p + |LineOf(parts)| == |line|);
      FirstPart(line, p, parts);
      var next := p + |Spelled(parts[0].form)| + |parts[0].gap|;
      SplitParts(line, next, rest);
      BeforeBefore([Denotes(parts[0].form)], AllDenote(rest), SplitFrom(line, next + |LineOf(rest)|));
    }
  }

  lemma NoParts()
    ensures LineOf([]) == [] && AllDenote([]) == []
  {
  }

  lemma FirstPart(line: bytes, p: nat, parts: seq<Part>)
    requires 0 !in line && parts != [] && HoldsAt(line, p, LineOf(parts)) && IsPart(parts[0])
    requires parts[0].gap == [] ==> |parts| == 1 && p + |LineOf(parts)| == |line|
    ensures var next := p + |Spelled(parts[0].form)| + |parts[0].gap|;
            && next <= |line| && HoldsAt(line, next, LineOf(parts[1..]))
            && next + |LineOf(parts[1..])| == p + |LineOf(parts)|
            && SplitFrom(line, p) == Before([Denotes(parts[0].form)], SplitFrom(line, next))
  {
    hide *;
    var f, gap, more := parts[0].form, parts[0].gap, LineOf(parts[1..]);
    var q := p + |Spelled(f)|;
    LineStep(parts);
    PartIs(parts[0]);
    HoldsSplit(line, p, Spelled(f), gap + more);
    HoldsSplit(line, q, gap, more);
    HoldsWithin(line, q, gap);
    GapEnds(line, q, f, gap);
    SplitForm(line, p, f);
    SkipGap(line, q, gap);
  }

  lemma LineStep(parts: seq<Part>)
    requires parts != []
    ensures LineOf(parts) == Spelled(parts[0].form) + (parts[0].gap + LineOf(parts[1..]))
    ensures |parts| == 1 ==> LineOf(parts[1..]) == []
  {
    hide Spelled;
  }

  lemma PartIs(part: Part)
    requires IsPart(part)
    ensures IsForm(part.form) && IsGap(part.gap)
  {
  }

  lemma HoldsWithin(line: bytes, p: nat, s: bytes)
    requires HoldsAt(line, p, s)
    ensures p + |s| <= |line|
  {
  }

  lemma GapEnds(line: bytes, q: nat, f: Form, gap: bytes)
    requires HoldsAt(line, q, gap) && IsPart(Part(f, gap)) && (gap == [] ==> q >= |line|)
    ensures EndsAt(line, q, f)
  {
    if gap != [] {
      assert line[q + 0] == gap[0];
    }
  }

  lemma OpenedHasNoNul(f: Form)
    requires IsForm(f)
    ensures 0 !in Opened(f)
  {
    if f.Double? {
      ReprHasNoNul(f.s);
    } else if f.Single? {
      ApostrophisedHasNoNul(f.s);
    }
  }

  /** No byte of an argument or a gap is a NUL. */
  lemma {:induction false} PartsHaveNoNul(parts: seq<Part>)
    requires AreParts(parts, true)
    ensures 0 !in LineOf(parts)
  {
    if parts != [] {
      var f := parts[0].form;
      PartsTail(parts, true);
      PartsHaveNoNul(parts[1..]);
      assert LineOf(parts) == Spelled(f) + (parts[0].gap + LineOf(parts[1..]));
      OpenedHasNoNul(f);
      hide Opened, LineOf;
    }
  }

  lemma {:induction false} ApostrophisedHasNoNul(s: bytes)
    requires 0 !in s
    ensures 0 !in Apostrophised(s)
  {
    if s != [] {
      ApostrophisedHasNoNul(s[1..]);
    }
  }

  /**
   * A line of arguments in any form and blanks around them is split into what the arguments denote. A NUL
   * byte cannot stand in such a line.
   */
  lemma SplitsLine(lead: bytes, parts: seq<Part>)
    requires IsGap(lead) && AreParts(parts, true)
    ensures 0 !in lead + LineOf(parts)
    ensures SplitFrom(lead + LineOf(parts), 0) == Some(AllDenote(parts))
  {
    hide *;
    PartsHaveNoNul(parts);
    GapHasNoNul(lead);
    var line, k := lead + LineOf(parts), |lead|;
    Layout(lead, LineOf(parts), []);
    assert lead + LineOf(parts) + [] == line;
    SplitNothing(line);
    SkipGap(line, 0, lead);
    SplitParts(line, k, parts);
    BeforeEnd(AllDenote(parts));
  }

  lemma GapHasNoNul(gap: bytes)
    requires IsGap(gap)
    ensures 0 !in gap
  {
  }

  /** One argument with an unbalanced quote spoils the line, whatever stands before it. */
  lemma BadLine(parts: seq<Part>, f: Form, rest: bytes)
    requires AreParts(parts, false) && IsForm(f) && !f.Bare? && 0 !in rest
    requires rest == [] || (rest[..1] == Closing(f) && |rest| > 1 && rest[1] != 32 && !(9 <= rest[1] <= 13))
    ensures 0 !in LineOf(parts) + Opened(f) + rest
    ensures SplitFrom(LineOf(parts) + Opened(f) + rest, 0) == None
  {
    hide *;
    var front, begun := LineOf(parts), Opened(f);
    var line, k, q := front + begun + rest, |front|, |front| + |begun|;
    AlsoAtEnd(parts);
    PartsHaveNoNul(parts);
    OpenedHasNoNul(f);
    Layout(front, begun, rest);
    if rest != [] {
      NoEnd(line, q + 1, f);
    }
    SplitUnbalanced(line, k, f);
    SplitParts(line, 0, parts);
    BeforeNone(AllDenote(parts));
  }

  lemma AlsoAtEnd(parts: seq<Part>)
    requires AreParts(parts, false)
    ensures forall bareEnd :: AreParts(parts, bareEnd)
  {
    hide IsPart;
  }

  lemma NoEnd(line: bytes, q: nat, f: Form)
    requires q < |line| && line[q] != 32 && !(9 <= line[q] <= 13)
    ensures !EndsAt(line, q, f)
  {
  }

  lemma Layout(a: bytes, b: bytes, c: bytes)
    ensures var line := a + b + c;
            && HoldsAt(line, 0, a) && HoldsAt(line, |a|, b)
            && (c != [] ==> HoldsAt(line, |a| + |b|, c[..1])) && (|c| > 1 ==> line[|a| + |b| + 1] == c[1])
            && (0 in line <==> 0 in a || 0 in b || 0 in c)
  {
  }
}
