/**
 * The Redis reply grammar: reply trees, how they are written on the wire, and a recursive parser
 * that says what any byte string denotes. Nothing here is incremental; the resumable reader of
 * read.c is proved against these definitions in RespMachine and RespReader.
 */
module RespSpec {
  import opened Bytes
  import opened Decimal

  const INT_MAX: int := 0x7fff_ffff
  /** The deepest index of the reader's task stack: an array item there is refused. */
  const MAX_DEPTH: nat := 8

  const PLUS: byte := 43
  const DASH: byte := 45
  const COLON: byte := 58
  const DOLLAR: byte := 36
  const STAR: byte := 42

  datatype Reply =
    | Str(text: bytes)
    | Status(text: bytes)
    | Err(text: bytes)
    | Int(value: int)
    | Nil
    | Arr(items: seq<Reply>)

  /** What stops a reader for good; the error string is fixed by the constructor. */
  datatype ProtocolError =
    | UnknownType(b: byte)
    | BadInteger
    | BadBulkLength
    | BulkOutOfRange
    | NestedTooDeep
    | BadMultiBulkLength
    | MultiBulkOutOfRange

  // ---------------------------------------------------------------- lines

  predicate CRLFAt(s: bytes, i: nat) {
    i + 1 < |s| && s[i] == CR && s[i + 1] == LF
  }

  /** The position of the first CR LF in s, or |s| when there is none. */
  function FindCRLF(s: bytes): (k: nat)
    ensures k <= |s|
    ensures k < |s| ==> CRLFAt(s, k)
    ensures forall i: nat :: i < k ==> !CRLFAt(s, i)
  {
    if |s| < 2 then |s|
    else if s[0] == CR && s[1] == LF then 0
    else
      var k := FindCRLF(s[1..]);
      assert forall i: nat :: 0 < i ==> (CRLFAt(s, i) <==> CRLFAt(s[1..], i - 1));
      k + 1
  }

  lemma FindCRLFUnique(s: bytes, k: nat)
    requires CRLFAt(s, k) && forall i: nat :: i < k ==> !CRLFAt(s, i)
    ensures FindCRLF(s) == k
  {
  }

  /** More input never moves a line end that was already there. */
  lemma FindCRLFExtend(s: bytes, x: bytes)
    requires FindCRLF(s) < |s|
    ensures FindCRLF(s + x) == FindCRLF(s)
  {
    var k := FindCRLF(s);
    assert CRLFAt(s + x, k);
    forall i: nat | i < k ensures !CRLFAt(s + x, i) {
      assert !CRLFAt(s, i);
    }
  }

  lemma FindCRLFIn(line: bytes, rest: bytes)
    requires FindCRLF(line) == |line|
    ensures FindCRLF(line + CRLF + rest) == |line|
  {
    var s := line + CRLF + rest;
    assert CRLFAt(s, |line|);
    forall i: nat | i < |line| ensures !CRLFAt(s, i) {
      assert !CRLFAt(line, i);
      if i + 1 == |line| {
        assert s[i + 1] == CR;
      }
    }
  }

  // ---------------------------------------------------------------- writing

  function TypeByte(r: Reply): byte {
    match r
    case Str(_) => DOLLAR
    case Status(_) => PLUS
    case Err(_) => DASH
    case Int(_) => COLON
    case Nil => DOLLAR
    case Arr(_) => STAR
  }

  function Body(r: Reply): bytes
    decreases r, 0
  {
    match r
    case Str(text) => DecimalOf(|text|) + CRLF + (text + CRLF)
    case Status(text) => text + CRLF
    case Err(text) => text + CRLF
    case Int(value) => DecimalOf(value) + CRLF
    case Nil => DecimalOf(-1) + CRLF
    case Arr(items) => DecimalOf(|items|) + CRLF + SerialiseAll(items)
  }

  function Serialise(r: Reply): bytes
    decreases r, 1
  {
    [TypeByte(r)] + Body(r)
  }

  function SerialiseAll(rs: seq<Reply>): bytes {
    if rs == [] then [] else Serialise(rs[0]) + SerialiseAll(rs[1..])
  }

  /**
   * The replies the protocol can carry when the reader is at task index d: one-line texts hold no
   * CR LF, numbers and lengths are in range, and no array sits at index 8 or beyond.
   */
  predicate Writable(r: Reply, d: nat) {
    match r
    case Str(text) => |text| <= LLONG_MAX
    case Status(text) => FindCRLF(text) == |text|
    case Err(text) => FindCRLF(text) == |text|
    case Int(value) => IsLongLong(value)
    case Nil => true
    case Arr(items) =>
      d < MAX_DEPTH && |items| <= INT_MAX && forall i :: 0 <= i < |items| ==> Writable(items[i], d + 1)
  }

  // ---------------------------------------------------------------- reading

  datatype Parsed<+T> =
    | Done(value: T, rest: bytes)
    | More
    | Fail(error: ProtocolError)

  predicate IsLineType(t: byte) {
    t == PLUS || t == DASH || t == COLON
  }

  /** One reply at task index d. */
  function ParseItem(b: bytes, d: nat): (p: Parsed<Reply>)
    ensures p.Done? ==> |p.rest| < |b|
    decreases |b|, 0, 0
  {
    if b == [] then More
    else if IsLineType(b[0]) then ParseLine(b[0], b[1..])
    else if b[0] == DOLLAR then ParseBulk(b[1..])
    else if b[0] == STAR then
      match ParseHeader(b[1..], d)
      case More => More
      case Fail(e) => Fail(e)
      case Done(n, rest) =>
        if n == -1 then Done(Nil, rest)
        else
          match ParseItems(rest, n, d + 1)
          case Done(items, rest') => Done(Arr(items), rest')
          case More => More
          case Fail(e) => Fail(e)
    else Fail(UnknownType(b[0]))
  }

  function ParseItems(b: bytes, n: nat, d: nat): (p: Parsed<seq<Reply>>)
    ensures p.Done? ==> |p.rest| <= |b| && |p.value| == n
    decreases |b|, 1, n
  {
    if n == 0 then Done([], b)
    else
      match ParseItem(b, d)
      case More => More
      case Fail(e) => Fail(e)
      case Done(v, rest) =>
        match ParseItems(rest, n - 1, d)
        case More => More
        case Fail(e) => Fail(e)
        case Done(vs, rest') => Done([v] + vs, rest')
  }

  /** What follows the type byte of a status, error or integer. */
  function ParseLine(t: byte, s: bytes): (p: Parsed<Reply>)
    requires IsLineType(t)
    ensures p.Done? ==> |p.rest| < |s|
  {
    var k := FindCRLF(s);
    if k == |s| then More
    else if t == PLUS then Done(Status(s[..k]), s[k + 2..])
    else if t == DASH then Done(Err(s[..k]), s[k + 2..])
    else
      match ParseLL(s[..k])
      case None => Fail(BadInteger)
      case Some(v) => Done(Int(v), s[k + 2..])
  }

  /** What follows the type byte of a bulk string. The two bytes after the payload are not looked at. */
  function ParseBulk(s: bytes): (p: Parsed<Reply>)
    ensures p.Done? ==> |p.rest| < |s|
  {
    var k := FindCRLF(s);
    if k == |s| then More
    else
      match ParseLL(s[..k])
      case None => Fail(BadBulkLength)
      case Some(len) =>
        if len < -1 then Fail(BulkOutOfRange)
        else if len == -1 then Done(Nil, s[k + 2..])
        else if k + 2 + len + 2 <= |s| then Done(Str(s[k + 2..k + 2 + len]), s[k + 2 + len + 2..])
        else More
  }

  /** What follows the type byte of an array: its element count, with -1 for nil. */
  function ParseHeader(s: bytes, d: nat): (p: Parsed<int>)
    ensures p.Done? ==> |p.rest| < |s| && -1 <= p.value <= INT_MAX
    ensures !p.Fail? ==> d != MAX_DEPTH
  {
    if d == MAX_DEPTH then Fail(NestedTooDeep)
    else
      var k := FindCRLF(s);
      if k == |s| then More
      else
        match ParseLL(s[..k])
        case None => Fail(BadMultiBulkLength)
        case Some(n) =>
          if n < -1 || n > INT_MAX then Fail(MultiBulkOutOfRange) else Done(n, s[k + 2..])
  }

  // ---------------------------------------------------------------- reading undoes writing

  lemma DigitsHaveNoCRLF(v: int)
    ensures FindCRLF(DecimalOf(v)) == |DecimalOf(v)|
  {
    DecimalNonEmpty(v);
    var s := DecimalOf(v);
    if FindCRLF(s) < |s| {
      assert CRLFAt(s, FindCRLF(s));
    }
  }

  /** A line printed as a number is found and read back as that number. */
  lemma NumberLine(v: int, rest: bytes)
    requires IsLongLong(v)
    ensures var s := DecimalOf(v) + CRLF + rest;
            var k := FindCRLF(s);
            && k < |s| && ParseLL(s[..k]) == Some(v) && k == |DecimalOf(v)| && s[k + 2..] == rest
  {
    DigitsHaveNoCRLF(v);
    FindCRLFIn(DecimalOf(v), rest);
    var s := DecimalOf(v) + CRLF + rest;
    assert s[..|DecimalOf(v)|] == DecimalOf(v);
    ParseLLIffPrinted(DecimalOf(v), v);
    assert s[|DecimalOf(v)| + 2..] == rest;
  }

  lemma Middle(a: bytes, t: bytes, z: bytes)
    ensures (a + t + z)[|a|..|a| + |t|] == t && (a + t + z)[|a| + |t|..] == z
  {
  }

  lemma BulkRoundTrip(text: bytes, rest: bytes)
    requires |text| <= LLONG_MAX
    ensures ParseBulk(Body(Str(text)) + rest) == Done(Str(text), rest)
  {
    var pre, post := DecimalOf(|text|) + CRLF, CRLF + rest;
    var s := Body(Str(text)) + rest;
    assert s == pre + (text + post) && s == pre + text + post;
    NumberLine(|text|, text + post);
    Middle(pre, text, post);
    var after := |pre| + |text| + 2;
    assert s[after..] == s[|pre| + |text|..][2..] == rest;
  }

  lemma TextRoundTrip(t: byte, text: bytes, rest: bytes)
    requires (t == PLUS || t == DASH) && FindCRLF(text) == |text|
    ensures ParseLine(t, text + CRLF + rest) == Done(if t == PLUS then Status(text) else Err(text), rest)
  {
    FindCRLFIn(text, rest);
    var s := text + CRLF + rest;
    assert s[..|text|] == text && s[|text| + 2..] == rest;
  }

  lemma HeaderRoundTrip(items: seq<Reply>, d: nat, rest: bytes)
    requires d < MAX_DEPTH && |items| <= INT_MAX
    ensures ParseHeader(Body(Arr(items)) + rest, d) == Done(|items|, SerialiseAll(items) + rest)
  {
    hide SerialiseAll, ParseLL, FindCRLF, DecimalOf;
    NumberLine(|items|, SerialiseAll(items) + rest);
    assert Body(Arr(items)) + rest == DecimalOf(|items|) + CRLF + (SerialiseAll(items) + rest);
  }

  lemma LeafRoundTrip(r: Reply, d: nat, rest: bytes)
    requires Writable(r, d) && !r.Arr?
    ensures var s := Body(r) + rest;
            Done(r, rest) == if IsLineType(TypeByte(r)) then ParseLine(TypeByte(r), s) else ParseBulk(s)
  {
    match r
    case Str(text) => BulkRoundTrip(text, rest);
    case Status(text) => TextRoundTrip(PLUS, text, rest);
    case Err(text) => TextRoundTrip(DASH, text, rest);
    case Int(value) => NumberLine(value, rest);
    case Nil => NumberLine(-1, rest);
  }

  /** Parsing what was written gives the reply back and leaves what followed it. */
  lemma {:induction false} ParseSerialised(r: Reply, d: nat, rest: bytes)
    requires Writable(r, d)
    ensures ParseItem(Serialise(r) + rest, d) == Done(r, rest)
    decreases r
  {
    var b := Serialise(r) + rest;
    assert b[0] == TypeByte(r) && b[1..] == Body(r) + rest;
    match r
    case Arr(items) =>
      HeaderRoundTrip(items, d, rest);
      ParseAllSerialised(items, d + 1, rest);
    case _ =>
      LeafRoundTrip(r, d, rest);
  }

  lemma {:induction false} ParseAllSerialised(rs: seq<Reply>, d: nat, rest: bytes)
    requires forall i :: 0 <= i < |rs| ==> Writable(rs[i], d)
    ensures ParseItems(SerialiseAll(rs) + rest, |rs|, d) == Done(rs, rest)
    decreases rs
  {
    hide ParseItem, Serialise, Writable;
    if rs == [] {
      assert SerialiseAll(rs) + rest == rest;
    } else {
      var tail := SerialiseAll(rs[1..]) + rest;
      assert SerialiseAll(rs) + rest == Serialise(rs[0]) + tail;
      ParseSerialised(rs[0], d, tail);
      ParseAllSerialised(rs[1..], d, rest);
      assert [rs[0]] + rs[1..] == rs;
    }
  }

  /** Conversely nothing deeper is ever accepted: whatever is parsed is a reply of at most 8 levels. */
  lemma {:induction false} ParsedIsWritable(b: bytes, d: nat)
    requires d <= MAX_DEPTH && |b| <= LLONG_MAX
    ensures var p := ParseItem(b, d); p.Done? ==> Writable(p.value, d)
    decreases |b|, 0, 0
  {
    hide *;
    if b != [] && b[0] == STAR {
      var h := ParseHeader(b[1..], d);
      if h.Done? && h.value >= 0 {
        ParsedAllWritable(h.rest, h.value, d + 1);
      }
      ArrayIsWritable(b, d);
    } else {
      LeafIsWritable(b, d);
    }
  }

  lemma LeafIsWritable(b: bytes, d: nat)
    requires |b| <= LLONG_MAX && (b == [] || b[0] != STAR)
    ensures var p := ParseItem(b, d); p.Done? ==> Writable(p.value, d)
  {
    hide ParseLine, ParseBulk, Writable;
    if b != [] && IsLineType(b[0]) {
      LineIsWritable(b[0], b[1..], d);
    } else if b != [] && b[0] == DOLLAR {
      BulkIsWritable(b[1..], d);
    }
  }

  lemma ArrayIsWritable(b: bytes, d: nat)
    requires d <= MAX_DEPTH && b != [] && b[0] == STAR
    requires var h := ParseHeader(b[1..], d);
             h.Done? && h.value >= 0 ==>
               var p := ParseItems(h.rest, h.value, d + 1);
               p.Done? ==> forall i :: 0 <= i < |p.value| ==> Writable(p.value[i], d + 1)
    ensures var p := ParseItem(b, d); p.Done? ==> Writable(p.value, d)
  {
    hide ParseHeader, ParseItems;
    var h := ParseHeader(b[1..], d);
    if h.Done? && h.value >= 0 {
      var p := ParseItems(h.rest, h.value, d + 1);
      assert p.Done? ==> ParseItem(b, d) == Done(Arr(p.value), p.rest);
    }
  }

  lemma BulkIsWritable(s: bytes, d: nat)
    requires |s| <= LLONG_MAX
    ensures var p := ParseBulk(s); p.Done? ==> Writable(p.value, d)
  {
  }

  lemma LineIsWritable(t: byte, s: bytes, d: nat)
    requires IsLineType(t)
    ensures var p := ParseLine(t, s); p.Done? ==> Writable(p.value, d)
  {
    var k := FindCRLF(s);
    var line := s[..k];
    assert forall i: nat :: CRLFAt(line, i) ==> CRLFAt(s, i);
    if ParseLL(line).Some? {
      ParseLLIffPrinted(line, ParseLL(line).value);
    }
  }

  lemma {:induction false} ParsedAllWritable(b: bytes, n: nat, d: nat)
    requires d <= MAX_DEPTH && |b| <= LLONG_MAX
    ensures var p := ParseItems(b, n, d);
            p.Done? ==> forall i :: 0 <= i < |p.value| ==> Writable(p.value[i], d)
    decreases |b|, 1, n
  {
    hide ParseItem, Writable;
    if n > 0 {
      ParsedIsWritable(b, d);
      var p := ParseItem(b, d);
      if p.Done? {
        ParsedAllWritable(p.rest, n - 1, d);
      }
    }
  }

  // ---------------------------------------------------------------- the protocol, byte by byte

  /** No carriage return (13) is followed by a line feed (10). */
  predicate OneLine(line: bytes) {
    forall i :: 0 < i < |line| ==> !(line[i - 1] == 13 && line[i] == 10)
  }

  lemma OneLineEnds(line: bytes)
    requires OneLine(line)
    ensures FindCRLF(line) == |line|
  {
    forall i: nat ensures !CRLFAt(line, i) {
      if i + 1 < |line| {
        var j := i + 1;
        assert !(line[j - 1] == 13 && line[j] == 10);
      }
    }
  }

  lemma LineFound(line: bytes, rest: bytes)
    requires OneLine(line)
    ensures var s := line + [13, 10] + rest;
            && FindCRLF(s) == |line| && s[..|line|] == line && s[|line| + 2..] == rest
  {
    OneLineEnds(line);
    FindCRLFIn(line, rest);
  }

  lemma TypeSplit(t: byte, line: bytes, rest: bytes)
    ensures var b := [t] + line + [13, 10] + rest; b[0] == t && b[1..] == line + [13, 10] + rest
  {
  }

  /** + is a status, - an error, : an integer; whatever the text, the depth and what follows. */
  lemma LinesOnTheWire(line: bytes, rest: bytes, d: nat)
    requires OneLine(line)
    ensures ParseItem([43] + line + [13, 10] + rest, d) == Done(Status(line), rest)
    ensures ParseItem([45] + line + [13, 10] + rest, d) == Done(Err(line), rest)
    ensures ParseItem([58] + line + [13, 10] + rest, d) ==
            if ParseLL(line).Some? then Done(Int(ParseLL(line).value), rest) else Fail(BadInteger)
  {
    hide ParseLL, FindCRLF;
    LineFound(line, rest);
    TypeSplit(43, line, rest);
    TypeSplit(45, line, rest);
    TypeSplit(58, line, rest);
  }

  /** $ and a number is that many bytes and two more, or nil; a dollar line with anything else is an error. */
  lemma BulkOnTheWire(line: bytes, rest: bytes, d: nat)
    requires OneLine(line)
    ensures ParseItem([36] + line + [13, 10] + rest, d) ==
            if ParseLL(line).None? then Fail(BadBulkLength)
            else
              var n := ParseLL(line).value;
              if n < -1 then Fail(BulkOutOfRange)
              else if n == -1 then Done(Nil, rest)
              else if n + 2 <= |rest| then Done(Str(rest[..n]), rest[n + 2..]) else More
  {
    hide ParseLL, FindCRLF;
    LineFound(line, rest);
    TypeSplit(36, line, rest);
    var s, k := line + [13, 10] + rest, |line| + 2;
    if ParseLL(line).Some? && 0 <= ParseLL(line).value {
      var n := ParseLL(line).value;
      if n + 2 <= |rest| {
        assert s[k..k + n] == rest[..n] && s[k + n + 2..] == rest[n + 2..];
      }
    }
  }

  /** * and a number is that many replies, or nil; below 8 open arrays, and at most 2147483647 of them. */
  lemma ArrayOnTheWire(line: bytes, rest: bytes, d: nat)
    requires OneLine(line)
    ensures ParseItem([42] + line + [13, 10] + rest, d) ==
            if d == 8 then Fail(NestedTooDeep)
            else if ParseLL(line).None? then Fail(BadMultiBulkLength)
            else
              var n := ParseLL(line).value;
              if n < -1 || n > 2147483647 then Fail(MultiBulkOutOfRange)
              else if n == -1 then Done(Nil, rest)
              else
                var p := ParseItems(rest, n, d + 1);
                if p.Done? then Done(Arr(p.value), p.rest) else if p.Fail? then Fail(p.error) else More
  {
    hide ParseLL, FindCRLF, ParseItems;
    LineFound(line, rest);
    TypeSplit(42, line, rest);
  }

  /** Before the line is complete the reader waits, and no other byte begins a reply. */
  lemma NothingElseOnTheWire(b: bytes, d: nat)
    requires d < 8
    ensures b == [] || (b[0] in {43, 45, 58, 36, 42} && OneLine(b[1..])) ==> ParseItem(b, d) == More
    ensures b != [] && b[0] !in {43, 45, 58, 36, 42} ==> ParseItem(b, d) == Fail(UnknownType(b[0]))
  {
    if b != [] && OneLine(b[1..]) { OneLineEnds(b[1..]); }
    hide FindCRLF, ParseLL, ParseItems;
  }
}
