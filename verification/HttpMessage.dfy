/**
 * Whole requests: a request printed in the grammar of section 5 of RFC 2616 is taken apart again
 * by the parser, name by name, value by value, body byte by body byte. The automaton that looks
 * for the framing headers finds exactly those.
 */
module HttpMessage {
  import opened Bytes
  import opened Decimal
  import opened HttpLength
  import opened HttpParser
  import opened HttpInvariant
  import opened HttpExecute
  import opened HttpChunk

  // ---------------------------------------------------------------- header names

  /** The separators of section 2.2 of RFC 2616: ( ) < > @ , ; : \ " / [ ] ? = { } */
  predicate IsSeparator(ch: byte) {
    ch in {40, 41, 60, 62, 64, 44, 59, 58, 92, 34, 47, 91, 93, 63, 61, 123, 125}
  }

  /** What a name may hold: visible ASCII other than the separators. */
  predicate IsTokenByte(ch: byte) {
    33 <= ch <= 126 && !IsSeparator(ch)
  }

  function SmallLetter(ch: byte): byte {
    if 65 <= ch <= 90 then ch + 32 else ch
  }

  /** The parser's table of name characters, byte by byte. */
  lemma TokenExactly(ch: byte)
    ensures Token(ch) == if IsTokenByte(ch) then SmallLetter(ch) else 0
  {
    TokenMarks(ch);
    hide IsOneOf;
  }

  lemma TokenMarks(ch: byte)
    ensures IsOneOf(ch, "!#$%&'*+-.^_`|~") <==>
            ch in {33, 35, 36, 37, 38, 39, 42, 43, 45, 46, 94, 95, 96, 124, 126}
  {
    var s := "!#$%&'*+-.^_`|~";
    assert s[0] as int == 33 && s[1] as int == 35 && s[2] as int == 36 && s[3] as int == 37 && s[4] as int == 38
        && s[5] as int == 39 && s[6] as int == 42 && s[7] as int == 43 && s[8] as int == 45 && s[9] as int == 46
        && s[10] as int == 94 && s[11] as int == 95 && s[12] as int == 96 && s[13] as int == 124 && s[14] as int == 126;
  }

  /** LOWER, where it is used: on letters and on what is compared with them. */
  lemma LowerExactly(ch: byte)
    ensures 65 <= ch <= 90 || 97 <= ch <= 122 ==> Lower(ch) == SmallLetter(ch)
    ensures 97 <= Lower(ch) <= 122 ==> 65 <= ch <= 90 || 97 <= ch <= 122
    ensures Lower(ch) == 45 <==> ch == 45 || ch == 13
  {
  }

  predicate IsName(name: bytes) {
    name != [] && forall i :: 0 <= i < |name| ==> IsTokenByte(name[i])
  }

  /** A name as it is compared: letters in lower case. */
  function Lowered(name: bytes): (l: bytes)
    ensures |l| == |name| && forall i :: 0 <= i < |l| ==> l[i] == SmallLetter(name[i])
  {
    seq(|name|, i requires 0 <= i < |name| => SmallLetter(name[i]))
  }

  predicate IsPrefix(l: bytes, w: string) {
    |l| <= |w| && forall i :: 0 <= i < |l| ==> l[i] == w[i] as int
  }

  predicate Is(l: bytes, w: string) {
    |l| == |w| && IsPrefix(l, w)
  }

  /** The header state a name leads to: the four framing names are told apart from all others. */
  function StateOf(l: bytes): HeaderState
    requires l != []
  {
    if Is(l, "connection") || Is(l, "proxy-connection") then Connection
    else if Is(l, "content-length") then ContentLength
    else if Is(l, "transfer-encoding") then TransferEncoding
    else if Is(l, "upgrade") then Upgrade
    else if IsPrefix(l, "con") then if |l| == 1 then SawC else if |l| == 2 then SawCO else SawCON
    else if IsPrefix(l, "connection") then MatchingConnection
    else if IsPrefix(l, "content-length") then MatchingContentLength
    else if IsPrefix(l, "proxy-connection") then MatchingProxyConnection
    else if IsPrefix(l, "transfer-encoding") then MatchingTransferEncoding
    else if IsPrefix(l, "upgrade") then MatchingUpgrade
    else General
  }

  lemma PrefixMore(l: bytes, c: byte, w: string)
    ensures IsPrefix(l + [c], w) <==> IsPrefix(l, w) && |l| < |w| && c == w[|l|] as int
    ensures Is(l + [c], w) <==> IsPrefix(l, w) && |l| + 1 == |w| && c == w[|l|] as int
  {
    var m := l + [c];
    if IsPrefix(m, w) {
      assert m[|l|] == c;
      assert forall i :: 0 <= i < |l| ==> l[i] == m[i];
    }
    if IsPrefix(l, w) && |l| < |w| && c == w[|l|] as int {
      forall i | 0 <= i < |m| ensures m[i] == w[i] as int {
        assert i < |l| ==> m[i] == l[i];
      }
    }
  }

  /** No string is a prefix of two of the words but the shared beginning of two of them. */
  lemma OneWord(l: bytes)
    requires l != []
    ensures IsPrefix(l, "connection") || IsPrefix(l, "content-length") ==> l[0] == 'c' as int
    ensures IsPrefix(l, "proxy-connection") ==> l[0] == 'p' as int
    ensures IsPrefix(l, "transfer-encoding") ==> l[0] == 't' as int
    ensures IsPrefix(l, "upgrade") ==> l[0] == 'u' as int
    ensures |l| > 3 && IsPrefix(l, "connection") ==> l[3] == 'n' as int
    ensures |l| > 3 && IsPrefix(l, "content-length") ==> l[3] == 't' as int
    ensures |l| <= 3 ==> (IsPrefix(l, "con") <==> IsPrefix(l, "connection"))
                         && (IsPrefix(l, "con") <==> IsPrefix(l, "content-length"))
    ensures |l| > 3 ==> !IsPrefix(l, "con")
  {
    assert forall i :: 0 <= i < 3 ==> "con"[i] == "connection"[i] == "content-length"[i];
  }

  /** One more character of a name takes the automaton to the state of the longer name. */
  lemma NameMore(l: bytes, c: byte)
    requires l != [] && c != 0 && c != SPACE
    ensures MatchName(StateOf(l), |l|, c) == Some(StateOf(l + [c]))
  {
    OneWord(l);
    PrefixMore(l, c, "con");
    PrefixMore(l, c, "connection");
    PrefixMore(l, c, "content-length");
    PrefixMore(l, c, "proxy-connection");
    PrefixMore(l, c, "transfer-encoding");
    PrefixMore(l, c, "upgrade");
    hide IsPrefix;
  }

  // ---------------------------------------------------------------- bytes on a channel

  /** A byte that takes one pass and ends in a state of a channel is told on it. */
  lemma LoudByte(f: Fields, ch: byte, g: Fields, c: Channel)
    requires f.errno == OK && ParsingHeader(f.state) && f.nread < MAX_HEADER_SIZE
    requires Switch(Counted(f), ch) == Pass(Done, g, []) && ChannelOf(g.state) == Some(c)
    ensures Parse(f, [ch]) == Pass(Done, g, [Data(c, ch)])
  {
    ParseOne(f, ch);
    hide Switch, Parse, ChannelOf;
    assert [] + [Data(c, ch)] == [Data(c, ch)];
  }

  lemma RunOne(c: Channel, ch: byte)
    ensures DataRun(c, [ch]) == [Data(c, ch)]
  {
  }

  lemma RunJoined(c: Channel, a: bytes, b: bytes)
    ensures DataRun(c, a + b) == DataRun(c, a) + DataRun(c, b)
  {
  }

  /** Two runs on one channel in a row. */
  lemma SameChannel(f: Fields, a: bytes, b: bytes, g: Fields, h: Fields, c: Channel)
    requires Parse(f, a) == Pass(Done, g, DataRun(c, a)) && Parse(g, b) == Pass(Done, h, DataRun(c, b))
    ensures Parse(f, a + b) == Pass(Done, h, DataRun(c, a + b))
  {
    hide Parse, DataRun;
    ParseSplit(f, a, b);
    RunJoined(c, a, b);
  }

  lemma DispatchText(f: Fields, ch: byte)
    ensures f.state == FieldStart ==> Switch(f, ch) == OnFieldStart(f, ch)
    ensures f.state == Field ==> Switch(f, ch) == OnField(f, ch)
    ensures f.state == ValueStart ==> Switch(f, ch) == OnValueStart(f, ch)
    ensures f.state == Value ==> Switch(f, ch) == OnValue(f, ch)
  {
    hide OnStart, OnMethod, OnUrl, OnVersion, OnFieldStart, OnField, OnValueStart, OnValue, OnHeaderEnd, OnChunk, OnBody;
    hide Complete, Next, Error;
  }

  // ---------------------------------------------------------------- names

  /** The fields while a name is read: the automaton is where the part read so far takes it. */
  predicate NameRead(f: Fields, name: bytes, g: Fields) {
    && name != []
    && g == f.(state := Field, header := StateOf(Lowered(name)), index := g.index, nread := f.nread + |name|)
    && (Counts(g.header) ==> g.index == |name| - 1)
  }

  lemma FirstOfName(f: Fields, ch: byte) returns (g: Fields)
    requires f.errno == OK && f.state == FieldStart && f.nread < MAX_HEADER_SIZE && IsTokenByte(ch)
    ensures NameRead(f, [ch], g) && Parse(f, [ch]) == Pass(Done, g, DataRun(Name, [ch]))
  {
    TokenExactly(ch);
    var c := Token(ch);
    assert Lowered([ch]) == [c] && ch != CR && ch != LF;
    FirstState(c);
    g := OnFieldStart(Counted(f), ch).f;
    assert OnFieldStart(Counted(f), ch) == Pass(Done, g, []) && NameRead(f, [ch], g) && g.state == Field by {
      hide Token, Parse, Switch, Lowered;
    }
    hide *;
    DispatchText(Counted(f), ch);
    LoudByte(f, ch, g, Name);
    RunOne(Name, ch);
  }

  lemma FirstState(c: byte)
    ensures StateOf([c]) == if c == 'c' as int then SawC
                            else if c == 'p' as int then MatchingProxyConnection
                            else if c == 't' as int then MatchingTransferEncoding
                            else if c == 'u' as int then MatchingUpgrade
                            else General
  {
    OneWord([c]);
  }

  lemma CountsShort(l: bytes)
    requires l != [] && Counts(StateOf(l))
    ensures |l| <= 17
  {
  }

  lemma IndexFree(h: HeaderState, i: nat, j: nat, c: byte)
    requires !Counts(h)
    ensures MatchName(h, i, c) == MatchName(h, j, c)
  {
  }

  /** Once the automaton has given up it does not count again. */
  lemma StillCounts(l: bytes, c: byte)
    requires l != [] && Counts(StateOf(l + [c]))
    ensures Counts(StateOf(l))
  {
    OneWord(l);
    PrefixMore(l, c, "con");
    PrefixMore(l, c, "connection");
    PrefixMore(l, c, "content-length");
    PrefixMore(l, c, "proxy-connection");
    PrefixMore(l, c, "transfer-encoding");
    PrefixMore(l, c, "upgrade");
    hide IsPrefix;
  }

  lemma TokenIsSome(ch: byte)
    requires IsTokenByte(ch)
    ensures SmallLetter(ch) != 0
  {
  }

  lemma TokenIsNoBlank(ch: byte)
    ensures Token(ch) != SPACE && (Token(ch) != 0 ==> ch != CR && ch != LF && ch != ':' as int)
  {
    TokenCharacters(ch);
  }

  lemma TokenCharacters(ch: byte)
    ensures IsOneOf(ch, "!#$%&'*+-.^_`|~") ==> 33 <= ch && ch != ':' as int
  {
  }

  /** One more character of a name. */
  lemma NextOfName(f0: Fields, name: bytes, f: Fields, ch: byte) returns (g: Fields)
    requires NameRead(f0, name, f) && f.errno == OK && f.nread < MAX_HEADER_SIZE && IsTokenByte(ch)
    ensures NameRead(f0, name + [ch], g) && Parse(f, [ch]) == Pass(Done, g, DataRun(Name, [ch]))
  {
    hide Parse, Switch, Token, DataRun, StateOf, MatchName, IsTokenByte;
    TokenExactly(ch);
    TokenIsSome(ch);
    var c, l := Token(ch), Lowered(name);
    assert Lowered(name + [ch]) == l + [c];
    hide Lowered;
    TokenIsNoBlank(ch);
    NameMore(l, c);
    var i := if Counts(f.header) then (f.index + 1) % 256 else f.index;
    if Counts(f.header) {
      CountsShort(l);
    } else {
      IndexFree(f.header, i, |l|, c);
    }
    if Counts(StateOf(l + [c])) {
      StillCounts(l, c);
    }
    g := f.(header := StateOf(l + [c]), index := i, nread := f.nread + 1);
    assert OnField(Counted(f), ch) == Pass(Done, g, []);
    hide OnField;
    DispatchText(Counted(f), ch);
    LoudByte(f, ch, g, Name);
    RunOne(Name, ch);
  }

  /** A whole name: its bytes are told, and the automaton has recognised it or not. */
  lemma {:induction false} ReadName(f: Fields, name: bytes) returns (g: Fields)
    requires f.errno == OK && f.state == FieldStart && f.nread + |name| <= MAX_HEADER_SIZE && IsName(name)
    ensures NameRead(f, name, g) && Parse(f, name) == Pass(Done, g, DataRun(Name, name))
    decreases |name|
  {
    hide Parse, IsTokenByte, DataRun, StateOf, Lowered;
    var k := |name| - 1;
    if k == 0 {
      assert name == [name[0]];
      g := FirstOfName(f, name[0]);
    } else {
      var h := ReadName(f, name[..k]);
      g := NextOfName(f, name[..k], h, name[k]);
      assert name == name[..k] + [name[k]];
      SameChannel(f, name[..k], [name[k]], h, g, Name);
    }
  }

  // ---------------------------------------------------------------- header values

  lemma ColonIsNoToken()
    ensures Token(':' as int) == 0
  {
    TokenIsNoBlank(':' as int);
  }

  /** The separator between a name and its value. */
  lemma ReadColon(f: Fields)
    requires f.errno == OK && f.state == Field && f.nread + 2 <= MAX_HEADER_SIZE
    ensures Parse(f, [':' as int, SPACE]) == Pass(Done, f.(state := ValueStart, nread := f.nread + 2), [Called(Name)])
  {
    ColonPasses(f);
    hide *;
    var g, h := f.(state := ValueStart, nread := f.nread + 1), f.(state := ValueStart, nread := f.nread + 2);
    DispatchText(Counted(f), ':' as int);
    DispatchText(Counted(g), SPACE);
    QuietByte(f, ':' as int, Pass(Done, g, [Called(Name)]));
    QuietByte(g, SPACE, Pass(Done, h, []));
    QuietThen(f, [':' as int], [SPACE], Pass(Done, g, [Called(Name)]), h);
    assert [':' as int] + [SPACE] == [':' as int, SPACE];
  }

  lemma ColonPasses(f: Fields)
    requires f.state == Field
    ensures var g, h := f.(state := ValueStart, nread := f.nread + 1), f.(state := ValueStart, nread := f.nread + 2);
            && Counted(f).state == Field && Counted(g).state == ValueStart && ChannelOf(ValueStart) == None
            && OnField(Counted(f), ':' as int) == Pass(Done, g, [Called(Name)])
            && OnValueStart(Counted(g), SPACE) == Pass(Done, h, [])
  {
    ColonIsNoToken();
    hide Token, MatchName, Lower;
  }

  /** A value as it stands behind the blank: it does not begin with another blank, and holds no line end. */
  predicate IsValue(text: bytes) {
    && (text != [] ==> text[0] != SPACE && text[0] != TAB)
    && forall i :: 0 <= i < |text| ==> text[i] != CR && text[i] != LF
  }

  // ---------------------------------------------------------------- the words the parser looks for in values

  /** The text and the word agree, in any mixture of cases, as far as both go. */
  predicate Agrees(text: bytes, w: string) {
    forall i :: 0 <= i < |text| && i < |w| ==> Lower(text[i]) == w[i] as int
  }

  predicate Blanks(text: bytes, from: nat) {
    forall i :: from <= i < |text| ==> text[i] == SPACE
  }

  /** A beginning of the word, the word with nothing but blanks behind it, or something else. */
  function WordState(text: bytes, w: string, matching: HeaderState, matched: HeaderState): HeaderState {
    if !Agrees(text, w) then General
    else if |text| < |w| then matching
    else if Blanks(text, |w|) then matched
    else General
  }

  /** What the parser makes of a value that is not empty, by the header it belongs to. */
  function ValueState(name: HeaderState, text: bytes): HeaderState
    requires text != []
  {
    match name
    case TransferEncoding => WordState(text, "chunked", MatchingChunked, ValueChunked)
    case Connection =>
      if Lower(text[0]) == 'k' as int then WordState(text, "keep-alive", MatchingKeepAlive, ValueKeepAlive)
      else WordState(text, "close", MatchingClose, ValueClose)
    case ContentLength => ContentLength
    case _ => General
  }

  /** The states in which a word may be under way. */
  predicate IsWord(w: string, matching: HeaderState, matched: HeaderState) {
    || (w == "chunked" && matching == MatchingChunked && matched == ValueChunked)
    || (w == "keep-alive" && matching == MatchingKeepAlive && matched == ValueKeepAlive)
    || (w == "close" && matching == MatchingClose && matched == ValueClose)
  }

  lemma WordMore(text: bytes, ch: byte, w: string, matching: HeaderState, matched: HeaderState)
    requires IsWord(w, matching, matched)
    ensures var s, s' := WordState(text, w, matching, matched), WordState(text + [ch], w, matching, matched);
            && (s == matching ==> |text| < |w| && s' == Match(w, |text|, Lower(ch), matching, matched))
            && (s == matched ==> s' == if ch == SPACE then matched else General)
            && (s == General ==> s' == General)
            && (s == General || s == matching || s == matched)
  {
    hide Lower;
    var more := text + [ch];
    assert forall i :: 0 <= i < |text| ==> more[i] == text[i];
    assert Agrees(more, w) <==> Agrees(text, w) && (|text| < |w| ==> Lower(ch) == w[|text|] as int);
    if |w| <= |text| { BlanksMore(text, ch, |w|); }
    assert |more| == |w| ==> Blanks(more, |w|);
    hide Agrees, Blanks;
  }

  lemma BlanksMore(text: bytes, ch: byte, from: nat)
    requires from <= |text|
    ensures Blanks(text + [ch], from) <==> Blanks(text, from) && ch == SPACE
  {
    var more := text + [ch];
    assert more[|text|] == ch && forall i :: 0 <= i < |text| ==> more[i] == text[i];
  }

  /** How one more byte of a value changes its state: as the switch does, with the index at the byte before. */
  lemma ValueMore(name: HeaderState, text: bytes, ch: byte, index: nat)
    requires text != [] && (IsMatching(ValueState(name, text)) ==> index == |text| - 1)
    ensures Moves(ValueState(name, text), index, ch, ValueState(name, text + [ch]))
    ensures name != ContentLength ==> ValueState(name, text) != ContentLength
  {
    hide Lower, WordState, Match;
    assert (text + [ch])[0] == text[0];
    WordMore(text, ch, "chunked", MatchingChunked, ValueChunked);
    WordMore(text, ch, "keep-alive", MatchingKeepAlive, ValueKeepAlive);
    WordMore(text, ch, "close", MatchingClose, ValueClose);
    MatchIs("chunked", index + 1, Lower(ch), MatchingChunked, ValueChunked);
    MatchIs("keep-alive", index + 1, Lower(ch), MatchingKeepAlive, ValueKeepAlive);
    MatchIs("close", index + 1, Lower(ch), MatchingClose, ValueClose);
  }

  predicate IsMatching(h: HeaderState) {
    h.MatchingChunked? || h.MatchingKeepAlive? || h.MatchingClose?
  }

  lemma MatchIs(w: string, index: nat, c: byte, matching: HeaderState, matched: HeaderState)
    ensures Match(w, index, c, matching, matched) in {matching, matched, General}
  {
  }

  // ---------------------------------------------------------------- a length

  /** The digits of a text; blanks between them are skipped. */
  function DigitsIn(text: bytes): seq<nat> {
    if text == [] then []
    else
      var k := |text| - 1;
      if IsDigit(text[k]) then DigitsIn(text[..k]) + [text[k] - ZERO] else DigitsIn(text[..k])
  }

  /** The number that a text denotes, and the length that the parser makes of it. */
  function NumberOf(text: bytes): nat {
    Worth(10, DigitsIn(text))
  }

  function LengthRead(text: bytes): nat {
    Wrapped(10, DigitsIn(text))
  }

  /** A content length the parser accepts: a digit, then digits and blanks, without a wrap that it notices. */
  predicate IsNumber(text: bytes) {
    && text != [] && IsDigit(text[0]) && (forall i :: 0 <= i < |text| ==> IsDigit(text[i]) || text[i] == SPACE)
    && Steady(10, DigitsIn(text))
  }

  lemma DigitsMore(text: bytes, ch: byte)
    ensures DigitsIn(text + [ch]) == if IsDigit(ch) then DigitsIn(text) + [ch - ZERO] else DigitsIn(text)
  {
    assert (text + [ch])[..|text|] == text;
  }

  /** Every printed length in range is such a number, and means what was printed. */
  lemma NumberPrinted(n: nat)
    ensures NumberOf(Digits(n)) == n
    ensures n < NO_LENGTH ==> IsNumber(Digits(n)) && LengthRead(Digits(n)) == n
  {
    PrintedWorth(n);
    RightIffInRange(10, DigitsIn(Digits(n)));
    hide Worth, Steady, DigitsIn;
  }

  lemma {:induction false} PrintedWorth(n: nat)
    ensures NumberOf(Digits(n)) == n
    decreases n
  {
    if n < 10 {
      OneDigit(n);
    } else {
      PrintedWorth(n / 10);
      DigitsMore(Digits(n / 10), ZERO + n % 10);
      WorthMore(10, DigitsIn(Digits(n / 10)), n % 10);
      hide Worth, DigitsIn;
    }
  }

  lemma OneDigit(d: nat)
    requires d < 10
    ensures DigitsIn([ZERO + d]) == [d] && Worth(10, [d]) == d
  {
    DigitsMore([], ZERO + d);
    assert [] + [ZERO + d] == [ZERO + d] && DigitsIn([]) == [] && [] + [d] == [d];
    WorthMore(10, [], d);
  }

  /** One more byte of a content length: a digit, a blank, or an error. */
  lemma NumberStep(text: bytes, ch: byte)
    requires text != []
    ensures IsNumber(text + [ch]) <==>
            IsNumber(text) && (ch == SPACE || (IsDigit(ch) && MoreLength(LengthRead(text), 10, ch - ZERO).Some?))
    ensures LengthRead(text + [ch]) == LengthRead(text) || IsDigit(ch)
    ensures IsDigit(ch) && MoreLength(LengthRead(text), 10, ch - ZERO).Some? ==>
            MoreLength(LengthRead(text), 10, ch - ZERO).value == LengthRead(text + [ch])
  {
    var more := text + [ch];
    DigitsMore(text, ch);
    assert more[0] == text[0] && more[|text|] == ch && forall i :: 0 <= i < |text| ==> more[i] == text[i];
    if IsDigit(ch) {
      SteadyMore(10, DigitsIn(text), ch - ZERO);
      WrappedMore(10, DigitsIn(text), ch - ZERO);
    }
    hide DigitsIn, Steady, Wrapped, MoreLength;
  }

  // ---------------------------------------------------------------- values

  /** The value can be read under this header. */
  predicate Readable(name: HeaderState, text: bytes) {
    IsValue(text) && text != [] && (name == ContentLength ==> IsNumber(text))
  }

  /** The fields while a value is read. */
  predicate ValueRead(f: Fields, text: bytes, g: Fields) {
    && text != []
    && g == f.(state := Value, header := ValueState(f.header, text), index := g.index, nread := f.nread + |text|,
               length := (if f.header == ContentLength then LengthRead(text) else f.length),
               flags := if f.header == Upgrade then f.flags.(upgrade := true) else f.flags)
    && (IsMatching(g.header) ==> g.index == |text| - 1)
  }

  lemma FirstPass(f: Fields, ch: byte) returns (g: Fields)
    requires f.state == ValueStart && Readable(f.header, [ch])
    ensures Counted(f).state == ValueStart && ParsingHeader(f.state)
    ensures ValueRead(f, [ch], g) && OnValueStart(Counted(f), ch) == Pass(Done, g, []) && ChannelOf(g.state) == Some(Text)
  {
    FirstValueState(f.header, ch);
    hide Lower, ValueState;
    g := OnValueStart(Counted(f), ch).f;
  }

  lemma FirstValueState(name: HeaderState, ch: byte)
    ensures ValueState(name, [ch]) ==
            match name
            case TransferEncoding => if Lower(ch) == 'c' as int then MatchingChunked else General
            case Connection =>
              if Lower(ch) == 'k' as int then MatchingKeepAlive
              else if Lower(ch) == 'c' as int then MatchingClose else General
            case ContentLength => ContentLength
            case _ => General
    ensures IsDigit(ch) ==> LengthRead([ch]) == ch - ZERO
  {
    FirstNumber(ch);
    hide Lower, LengthRead;
  }

  lemma FirstNumber(ch: byte)
    ensures IsNumber([ch]) <==> IsDigit(ch)
    ensures IsDigit(ch) ==> LengthRead([ch]) == ch - ZERO
  {
    if IsDigit(ch) {
      OneDigit(ch - ZERO);
      RightIffInRange(10, [(ch - ZERO) as nat]);
    }
    hide Worth, Steady, DigitsIn;
  }

  lemma FirstOfValue(f: Fields, ch: byte) returns (g: Fields)
    requires f.errno == OK && f.state == ValueStart && Readable(f.header, [ch]) && f.nread < MAX_HEADER_SIZE
    ensures ValueRead(f, [ch], g) && Parse(f, [ch]) == Pass(Done, g, DataRun(Text, [ch]))
  {
    hide *;
    g := FirstPass(f, ch);
    DispatchText(Counted(f), ch);
    LoudByte(f, ch, g, Text);
    RunOne(Text, ch);
  }

  /** One more byte of a value, as the switch sees it. */
  lemma NextPass(f: Fields, text: bytes, e: Fields, ch: byte) returns (g: Fields)
    requires ValueRead(f, text, e) && ch != CR && ch != LF
    requires f.header == ContentLength ==> IsNumber(text + [ch])
    ensures Counted(e).state == Value && ParsingHeader(e.state)
    ensures ValueRead(f, text + [ch], g) && OnValue(Counted(e), ch) == Pass(Done, g, []) && ChannelOf(g.state) == Some(Text)
  {
    ValueMore(f.header, text, ch, e.index);
    assert Counted(e) == e.(nread := e.nread + 1);
    if f.header == ContentLength {
      NumberStep(text, ch);
      hide Lower, Match, LengthRead, MoreLength, IsNumber;
      g := OnValue(Counted(e), ch).f;
    } else {
      hide Lower, ValueState, Match, LengthRead, IsNumber, Moves;
      g := OtherPass(f, e, Counted(e), text, ch);
    }
  }

  /** In any other value the switch moves the header state as ValueMore says, and nothing else. */
  lemma OtherPass(f: Fields, e: Fields, c: Fields, text: bytes, ch: byte) returns (g: Fields)
    requires ValueRead(f, text, e) && c == e.(nread := e.nread + 1) && ch != CR && ch != LF
    requires f.header != ContentLength && e.header != ContentLength
    requires Moves(e.header, e.index, ch, ValueState(f.header, text + [ch]))
    ensures ValueRead(f, text + [ch], g) && OnValue(c, ch) == Pass(Done, g, []) && ChannelOf(g.state) == Some(Text)
  {
    g := c.(header := ValueState(f.header, text + [ch]), index := if IsMatching(e.header) then e.index + 1 else e.index);
    OnValueMoves(c, ch, g.header);
    hide Lower, ValueState, Match, LengthRead, OnValue;
    assert Moves(e.header, e.index, ch, g.header) ==> (IsMatching(g.header) ==> IsMatching(e.header));
  }

  /** The next header state of a value that is not a content length, from the one before and the index. */
  predicate Moves(s: HeaderState, index: nat, ch: byte, s': HeaderState) {
    && (s == MatchingChunked ==> index < 10 && s' == Match("chunked", index + 1, Lower(ch), s, ValueChunked))
    && (s == MatchingKeepAlive ==> index < 10 && s' == Match("keep-alive", index + 1, Lower(ch), s, ValueKeepAlive))
    && (s == MatchingClose ==> index < 10 && s' == Match("close", index + 1, Lower(ch), s, ValueClose))
    && (s == ValueChunked || s == ValueKeepAlive || s == ValueClose ==> s' == if ch == SPACE then s else General)
    && (s == General ==> s' == General) && (s == ContentLength ==> s' == ContentLength)
    && (IsMatching(s) || s == ValueChunked || s == ValueKeepAlive || s == ValueClose || s == General || s == ContentLength)
    && (IsMatching(s') ==> IsMatching(s))
  }

  lemma OnValueMoves(c: Fields, ch: byte, s': HeaderState)
    requires c.state == Value && Moves(c.header, c.index, ch, s') && c.header != ContentLength && ch != CR && ch != LF
    ensures OnValue(c, ch) ==
            Pass(Done, c.(header := s', index := if IsMatching(c.header) then c.index + 1 else c.index), [])
  {
    hide Lower, Match, MoreLength, OnValue;
    match c.header {
      case MatchingChunked => OnMatching(c, ch);
      case MatchingKeepAlive => OnMatching(c, ch);
      case MatchingClose => OnMatching(c, ch);
      case _ => OnSettled(c, ch);
    }
  }

  lemma OnMatching(c: Fields, ch: byte)
    requires c.state == Value && IsMatching(c.header) && c.index < 10 && ch != CR && ch != LF
    ensures OnValue(c, ch) ==
            Pass(Done, c.(index := c.index + 1,
                          header := match c.header
                                    case MatchingChunked => Match("chunked", c.index + 1, Lower(ch), c.header, ValueChunked)
                                    case MatchingKeepAlive => Match("keep-alive", c.index + 1, Lower(ch), c.header, ValueKeepAlive)
                                    case _ => Match("close", c.index + 1, Lower(ch), c.header, ValueClose)), [])
  {
    hide Lower, Match, MoreLength;
  }

  lemma OnSettled(c: Fields, ch: byte)
    requires c.state == Value && c.header in {ValueChunked, ValueKeepAlive, ValueClose, General} && ch != CR && ch != LF
    ensures OnValue(c, ch) == Pass(Done, if ch == SPACE then c else c.(header := General), [])
  {
    hide Lower, Match, MoreLength;
  }

  lemma NextOfValue(f: Fields, text: bytes, e: Fields, ch: byte) returns (g: Fields)
    requires ValueRead(f, text, e) && e.errno == OK && ch != CR && ch != LF && e.nread < MAX_HEADER_SIZE
    requires f.header == ContentLength ==> IsNumber(text + [ch])
    ensures ValueRead(f, text + [ch], g) && Parse(e, [ch]) == Pass(Done, g, DataRun(Text, [ch]))
  {
    assert e.state == Value;
    hide *;
    g := NextPass(f, text, e, ch);
    DispatchText(Counted(e), ch);
    LoudByte(e, ch, g, Text);
    RunOne(Text, ch);
  }

  lemma ReadableFront(name: HeaderState, text: bytes)
    requires Readable(name, text) && |text| > 1
    ensures Readable(name, text[..|text| - 1])
  {
    if name == ContentLength {
      var k := |text| - 1;
      NumberStep(text[..k], text[k]);
      assert text == text[..k] + [text[k]];
      hide IsNumber;
    }
  }

  /** Any value: it is told whole, and the parser knows afterwards exactly whether it is a word it looks for. */
  lemma {:induction false} ReadValue(f: Fields, text: bytes) returns (g: Fields)
    requires f.errno == OK && f.state == ValueStart && Readable(f.header, text) && f.nread + |text| <= MAX_HEADER_SIZE
    ensures ValueRead(f, text, g) && Parse(f, text) == Pass(Done, g, DataRun(Text, text))
    decreases |text|
  {
    var k := |text| - 1;
    assert text[k] != CR && text[k] != LF;
    assert text == text[..k] + [text[k]];
    if k > 0 { ReadableFront(f.header, text); }
    assert f.header == ContentLength ==> IsNumber(text);
    hide Parse, DataRun, Readable, ValueState, LengthRead, IsNumber;
    if k == 0 {
      assert text == [text[0]];
      g := FirstOfValue(f, text[0]);
    } else {
      var e := ReadValue(f, text[..k]);
      g := NextOfValue(f, text[..k], e, text[k]);
      SameChannel(f, text[..k], [text[k]], e, g, Text);
    }
  }

  // ---------------------------------------------------------------- lengths that are refused

  /** A byte of the headers that is an error ends the parsing. */
  lemma FailingByte(f: Fields, ch: byte)
    requires f.errno == OK && ParsingHeader(f.state) && f.nread < MAX_HEADER_SIZE && Switch(Counted(f), ch).kind == Fail
    ensures Parse(f, [ch]) == Switch(Counted(f), ch)
  {
    ParseOne(f, ch);
    hide Switch, Parse;
  }

  lemma BadFirst(f: Fields, ch: byte)
    requires f.errno == OK && f.state == ValueStart && f.header == ContentLength && f.nread < MAX_HEADER_SIZE
    requires IsValue([ch]) && !IsDigit(ch)
    ensures Parse(f, [ch]).kind == Fail && Parse(f, [ch]).f.errno == InvalidContentLength
  {
    assert [ch][0] == ch;
    DispatchText(Counted(f), ch);
    BadFirstPass(f, ch);
    hide *;
    FailingByte(f, ch);
  }

  lemma BadFirstPass(f: Fields, ch: byte)
    requires f.state == ValueStart && f.header == ContentLength && !IsDigit(ch)
    requires ch != SPACE && ch != TAB && ch != CR && ch != LF
    ensures var p := OnValueStart(Counted(f), ch); p.kind == Fail && p.f.errno == InvalidContentLength
    ensures Counted(f).state == ValueStart && ParsingHeader(f.state)
  {
    hide Lower;
  }

  lemma BadNext(f: Fields, text: bytes, e: Fields, ch: byte)
    requires ValueRead(f, text, e) && e.errno == OK && f.header == ContentLength && e.nread < MAX_HEADER_SIZE
    requires IsNumber(text) && !IsNumber(text + [ch]) && ch != CR && ch != LF
    ensures Parse(e, [ch]).kind == Fail && Parse(e, [ch]).f.errno == InvalidContentLength
  {
    NumberStep(text, ch);
    DispatchText(Counted(e), ch);
    hide LengthRead, IsNumber, MoreLength;
    BadNextPass(e, ch);
    hide *;
    FailingByte(e, ch);
  }

  lemma BadNextPass(e: Fields, ch: byte)
    requires e.state == Value && e.header == ContentLength && ch != CR && ch != LF && ch != SPACE
    requires IsDigit(ch) ==> MoreLength(e.length, 10, ch - ZERO) == None
    ensures var p := OnValue(Counted(e), ch); p.kind == Fail && p.f.errno == InvalidContentLength
    ensures Counted(e).state == Value && ParsingHeader(e.state)
  {
    hide Lower, Match, MoreLength;
  }

  /**
   * Exactly when a content length is accepted: a digit, then digits and blanks, and no wrap that the
   * overflow test notices. What is accepted is read modulo 2^64.
   */
  lemma {:induction false} LengthAccepted(f: Fields, text: bytes)
    requires f.errno == OK && f.state == ValueStart && f.header == ContentLength
    requires text != [] && IsValue(text) && f.nread + |text| <= MAX_HEADER_SIZE
    ensures var p := Parse(f, text);
            && (p.kind == Done <==> IsNumber(text)) && (p.kind == Done ==> p.f.length == LengthRead(text))
            && (p.kind != Done ==> p.kind == Fail && p.f.errno == InvalidContentLength)
    decreases |text|
  {
    if IsNumber(text) {
      var g := ReadValue(f, text);
      hide Parse, IsNumber;
    } else {
      var k := |text| - 1;
      assert text == text[..k] + [text[k]];
      if k == 0 {
        assert text == [text[0]];
        FirstNumber(text[0]);
        hide Parse, IsNumber;
        BadFirst(f, text[0]);
      } else {
        LengthAccepted(f, text[..k]);
        ParseSplit(f, text[..k], [text[k]]);
        if IsNumber(text[..k]) {
          var e := ReadValue(f, text[..k]);
          hide Parse, IsNumber, ValueRead;
          BadNext(f, text[..k], e, text[k]);
        }
        hide Parse, IsNumber;
      }
    }
  }

  lemma DigitsAreValue(s: bytes)
    requires AllDigits(s)
    ensures IsValue(s)
  {
  }

  const TWENTY_DIGITS: bytes := Digits(3458764513820540927) + [ZERO]

  /** A content length above 2^64 that the overflow test lets through as another. */
  lemma MissedLength(f: Fields)
    requires f.errno == OK && f.state == ValueStart && f.header == ContentLength && f.nread + |TWENTY_DIGITS| <= MAX_HEADER_SIZE
    ensures var text := TWENTY_DIGITS;
            && NumberOf(text) == 34587645138205409270 > TWO64
            && Parse(f, text).kind == Done && Parse(f, text).f.length == 16140901064495857654
  {
    WrapsUnseen();
    hide *;
    LengthAccepted(f, TWENTY_DIGITS);
  }

  lemma WrapsUnseen()
    ensures var text := TWENTY_DIGITS;
            && text != [] && IsValue(text) && IsNumber(text)
            && NumberOf(text) == 34587645138205409270 > TWO64 && LengthRead(text) == 16140901064495857654
  {
    var n := 3458764513820540927;
    NumberPrinted(n);
    NumberStep(Digits(n), ZERO);
    DigitsMore(Digits(n), ZERO);
    WorthMore(10, DigitsIn(Digits(n)), 0);
    DigitsAreValue(TWENTY_DIGITS);
    hide Digits, DigitsIn, Worth, IsNumber, IsValue;
  }

  // ---------------------------------------------------------------- header lines

  datatype Header = Header(name: bytes, text: bytes)

  function Line(h: Header): bytes {
    h.name + [':' as int, SPACE] + h.text + CRLF
  }

  /** What a name is recognised as. */
  function Kind(h: Header): HeaderState {
    if h.name == [] then General else StateOf(Lowered(h.name))
  }

  /** Any name and any value, except that a content length is a number or empty. */
  predicate WellFormed(h: Header) {
    IsName(h.name) && IsValue(h.text) && (Kind(h) == ContentLength && h.text != [] ==> IsNumber(h.text))
  }

  function FlagsAfter(flags: Flags, h: Header): Flags {
    if h.text == [] then flags
    else
      var asked := if Kind(h) == Upgrade then flags.(upgrade := true) else flags;
      FlagsOfState(asked, ValueState(Kind(h), h.text))
  }

  function LengthAfter(length: nat, h: Header): nat {
    if Kind(h) == ContentLength && h.text != [] then LengthRead(h.text) else length
  }

  function HeaderEvents(h: Header): seq<Event> {
    Datum(Name, h.name) + Datum(Text, h.text)
  }

  /** The fields after some header lines, which took n bytes. */
  predicate LinesRead(f: Fields, n: nat, length: nat, flags: Flags, g: Fields) {
    g == f.(state := ValueLws, header := g.header, index := g.index, nread := f.nread + n, length := length, flags := flags)
  }

  function FlagsOfState(flags: Flags, h: HeaderState): Flags {
    match h
    case ValueKeepAlive => flags.(keepAlive := true)
    case ValueClose => flags.(close := true)
    case ValueChunked => flags.(chunked := true)
    case _ => flags
  }

  lemma DispatchEnd(f: Fields, ch: byte)
    ensures f.state == HeaderAlmostDone || f.state == ValueLws || f.state == HeadersAlmostDone || f.state == HeadersDone ==>
              Switch(f, ch) == OnHeaderEnd(f, ch)
  {
    hide OnStart, OnMethod, OnUrl, OnVersion, OnFieldStart, OnField, OnValueStart, OnValue, OnHeaderEnd, OnChunk, OnBody;
    hide Complete, Next, Error;
  }

  lemma ValueCr(f: Fields)
    requires f.errno == OK && f.state == Value && f.nread < MAX_HEADER_SIZE
    ensures Parse(f, [CR]) == Pass(Done, f.(state := HeaderAlmostDone, nread := f.nread + 1), [Called(Text)])
  {
    ValueEndPass(f);
    hide *;
    DispatchText(Counted(f), CR);
    QuietByte(f, CR, Pass(Done, f.(state := HeaderAlmostDone, nread := f.nread + 1), [Called(Text)]));
  }

  lemma ValueEndPass(f: Fields)
    requires f.state == Value
    ensures OnValue(Counted(f), CR) == Pass(Done, f.(state := HeaderAlmostDone, nread := f.nread + 1), [Called(Text)])
    ensures ChannelOf(HeaderAlmostDone) == None && Counted(f).state == Value
  {
    hide Lower, Match, MoreLength;
  }

  lemma LineLf(f: Fields)
    requires f.errno == OK && f.state == HeaderAlmostDone && f.nread < MAX_HEADER_SIZE
    ensures Parse(f, [LF]) ==
            Pass(Done, f.(state := ValueLws, nread := f.nread + 1, flags := FlagsOfState(f.flags, f.header)), [])
  {
    LinePass(f);
    hide *;
    DispatchEnd(Counted(f), LF);
    QuietByte(f, LF, Pass(Done, f.(state := ValueLws, nread := f.nread + 1, flags := FlagsOfState(f.flags, f.header)), []));
  }

  lemma LinePass(f: Fields)
    requires f.state == HeaderAlmostDone
    ensures OnHeaderEnd(Counted(f), LF) ==
            Pass(Done, f.(state := ValueLws, nread := f.nread + 1, flags := FlagsOfState(f.flags, f.header)), [])
    ensures ChannelOf(ValueLws) == None && Counted(f).state == HeaderAlmostDone
  {
    hide ShouldKeepAlive;
  }

  lemma CalledThenQuiet(f: Fields, g: Fields, h: Fields)
    requires Parse(f, [CR]) == Pass(Done, g, [Called(Text)]) && Parse(g, [LF]) == Pass(Done, h, [])
    ensures Parse(f, CRLF) == Pass(Done, h, [Called(Text)])
  {
    hide Parse;
    QuietThen(f, [CR], [LF], Pass(Done, g, [Called(Text)]), h);
    assert [CR] + [LF] == CRLF;
  }

  /** The end of a header line takes note of what its value was. */
  lemma ReadLineEnd(f: Fields)
    requires f.errno == OK && f.state == Value && f.nread + 2 <= MAX_HEADER_SIZE
    ensures Parse(f, CRLF) ==
            Pass(Done, f.(state := ValueLws, nread := f.nread + 2, flags := FlagsOfState(f.flags, f.header)), [Called(Text)])
  {
    var g := f.(state := HeaderAlmostDone, nread := f.nread + 1);
    var h := g.(state := ValueLws, nread := g.nread + 1, flags := FlagsOfState(g.flags, g.header));
    assert h == f.(state := ValueLws, nread := f.nread + 2, flags := FlagsOfState(f.flags, f.header));
    hide *;
    ValueCr(f);
    LineLf(g);
    CalledThenQuiet(f, g, h);
  }

  /** The end of a line whose value is empty. */
  lemma ReadEmptyEnd(f: Fields)
    requires f.errno == OK && f.state == ValueStart && f.nread + 2 <= MAX_HEADER_SIZE
    ensures Parse(f, CRLF) ==
            Pass(Done, f.(state := ValueLws, header := General, index := 0, nread := f.nread + 2), [Called(Text)])
  {
    var g := f.(state := HeaderAlmostDone, header := General, index := 0, nread := f.nread + 1);
    var h := g.(state := ValueLws, nread := g.nread + 1, flags := FlagsOfState(g.flags, g.header));
    assert h == f.(state := ValueLws, header := General, index := 0, nread := f.nread + 2);
    EmptyCr(f);
    hide *;
    LineLf(g);
    CalledThenQuiet(f, g, h);
  }

  lemma EmptyCr(f: Fields)
    requires f.errno == OK && f.state == ValueStart && f.nread < MAX_HEADER_SIZE
    ensures Parse(f, [CR]) ==
            Pass(Done, f.(state := HeaderAlmostDone, header := General, index := 0, nread := f.nread + 1), [Called(Text)])
  {
    EmptyPass(f);
    hide *;
    DispatchText(Counted(f), CR);
    QuietByte(f, CR, Pass(Done, f.(state := HeaderAlmostDone, header := General, index := 0, nread := f.nread + 1), [Called(Text)]));
  }

  lemma EmptyPass(f: Fields)
    requires f.state == ValueStart
    ensures OnValueStart(Counted(f), CR) ==
            Pass(Done, f.(state := HeaderAlmostDone, header := General, index := 0, nread := f.nread + 1), [Called(Text)])
    ensures ChannelOf(HeaderAlmostDone) == None && Counted(f).state == ValueStart
  {
    hide Lower;
  }

  /** A value and the end of its line. */
  lemma ReadRest(f: Fields, h: Header) returns (g: Fields)
    requires f.errno == OK && f.state == ValueStart && WellFormed(h) && f.header == Kind(h)
    requires f.nread + |h.text| + 2 <= MAX_HEADER_SIZE
    ensures Parse(f, h.text + CRLF) == Pass(Done, g, Datum(Text, h.text))
    ensures LinesRead(f, |h.text| + 2, LengthAfter(f.length, h), FlagsAfter(f.flags, h), g)
  {
    hide Parse, Kind, ValueState, LengthRead, IsNumber, FlagsOfState, IsMatching;
    if h.text == [] {
      assert h.text + CRLF == CRLF && Datum(Text, h.text) == [Called(Text)];
      ReadEmptyEnd(f);
      g := f.(state := ValueLws, header := General, index := 0, nread := f.nread + 2);
    } else {
      hide DataRun;
      var e := ReadValue(f, h.text);
      ReadLineEnd(e);
      g := e.(state := ValueLws, nread := e.nread + 2, flags := FlagsOfState(e.flags, e.header));
      ParseSplit(f, h.text, CRLF);
    }
  }

  /** One header line from the start of a line. */
  lemma ReadLine(f: Fields, h: Header) returns (g: Fields)
    requires f.errno == OK && f.state == FieldStart && WellFormed(h) && f.nread + |Line(h)| <= MAX_HEADER_SIZE
    ensures Parse(f, Line(h)) == Pass(Done, g, HeaderEvents(h))
    ensures LinesRead(f, |Line(h)|, LengthAfter(f.length, h), FlagsAfter(f.flags, h), g)
  {
    hide Parse, DataRun, StateOf, Lowered, IsTokenByte, FlagsAfter, LengthAfter, IsNumber, IsValue;
    var colon := [':' as int, SPACE];
    var g1 := ReadName(f, h.name);
    ReadColon(g1);
    var g2 := g1.(state := ValueStart, nread := g1.nread + 2);
    ParseSplit(f, h.name, colon);
    g := ReadRest(g2, h);
    ParseSplit(f, h.name + colon, h.text + CRLF);
    assert h.name + colon + (h.text + CRLF) == Line(h);
  }

  // ---------------------------------------------------------------- all header lines

  function Lines(hs: seq<Header>): bytes {
    if hs == [] then [] else Line(hs[0]) + Lines(hs[1..])
  }

  function LinesEvents(hs: seq<Header>): seq<Event> {
    if hs == [] then [] else HeaderEvents(hs[0]) + LinesEvents(hs[1..])
  }

  function LengthOf(length: nat, hs: seq<Header>): nat
    decreases |hs|
  {
    if hs == [] then length else LengthOf(LengthAfter(length, hs[0]), hs[1..])
  }

  function FlagsOf(flags: Flags, hs: seq<Header>): Flags
    decreases |hs|
  {
    if hs == [] then flags else FlagsOf(FlagsAfter(flags, hs[0]), hs[1..])
  }

  /** A line that does not begin with a blank is a new header line. */
  lemma NotFolded(f: Fields, ch: byte)
    requires f.errno == OK && f.state == ValueLws && f.nread < MAX_HEADER_SIZE && ch != SPACE && ch != TAB
    ensures Byte(f, ch) == Byte(f.(state := FieldStart), ch)
  {
    hide Switch;
    var g := f.(state := FieldStart);
    FoldedPass(Counted(f), ch);
    assert Counted(f).(state := FieldStart) == Counted(g);
    var q := Passes(Counted(g), ch);
    assert [] + q.events == q.events;
    assert Passes(Counted(f), ch) == q;
    hide Passes;
  }

  lemma FoldedPass(f: Fields, ch: byte)
    requires f.state == ValueLws && ch != SPACE && ch != TAB
    ensures Switch(f, ch) == Pass(Again, f.(state := FieldStart), [])
  {
    DispatchEnd(f, ch);
    hide Switch;
  }

  lemma NewLine(f: Fields, data: bytes)
    requires f.errno == OK && f.state == ValueLws && f.nread < MAX_HEADER_SIZE
    requires data != [] && data[0] != SPACE && data[0] != TAB
    ensures Parse(f, data) == Parse(f.(state := FieldStart), data)
  {
    hide Parse, Byte;
    var g := f.(state := FieldStart);
    NotFolded(f, data[0]);
    ParseOne(f, data[0]);
    ParseOne(g, data[0]);
    assert data == [data[0]] + data[1..];
    ParseSplit(f, [data[0]], data[1..]);
    ParseSplit(g, [data[0]], data[1..]);
  }

  predicate AtLine(f: Fields) {
    f.errno == OK && (f.state == FieldStart || f.state == ValueLws)
  }

  lemma LineStarts(h: Header)
    requires IsName(h.name)
    ensures Line(h) != [] && Line(h)[0] == h.name[0] && Line(h)[0] != SPACE && Line(h)[0] != TAB
  {
  }

  lemma ReadAnyLine(f: Fields, h: Header) returns (g: Fields)
    requires AtLine(f) && WellFormed(h) && f.nread + |Line(h)| <= MAX_HEADER_SIZE
    ensures Parse(f, Line(h)) == Pass(Done, g, HeaderEvents(h)) && AtLine(g)
    ensures LinesRead(f, |Line(h)|, LengthAfter(f.length, h), FlagsAfter(f.flags, h), g)
  {
    hide Parse, Line, HeaderEvents, IsTokenByte, Kind, Lowered, LengthAfter, FlagsAfter, IsNumber, IsValue;
    LineStarts(h);
    if f.state == ValueLws {
      NewLine(f, Line(h));
    }
    g := ReadLine(f.(state := FieldStart), h);
  }

  /** All header lines: their names and values are told in order, the framing is noted. */
  lemma {:induction false} ReadLines(f: Fields, hs: seq<Header>) returns (g: Fields)
    requires AtLine(f) && (forall i :: 0 <= i < |hs| ==> WellFormed(hs[i])) && f.nread + |Lines(hs)| <= MAX_HEADER_SIZE
    ensures Parse(f, Lines(hs)) == Pass(Done, g, LinesEvents(hs)) && AtLine(g)
    ensures LinesRead(f.(state := ValueLws), |Lines(hs)|, LengthOf(f.length, hs), FlagsOf(f.flags, hs), g.(state := ValueLws))
    decreases |hs|
  {
    hide Parse, Line, HeaderEvents, WellFormed, LengthAfter, FlagsAfter;
    if hs == [] {
      g := f;
      ParseNone(f);
    } else {
      var e := ReadAnyLine(f, hs[0]);
      g := ReadLines(e, hs[1..]);
      ParseSplit(f, Line(hs[0]), Lines(hs[1..]));
    }
  }

  /** A line that is not well-formed, with any name and value, is a content length that is refused. */
  lemma BadLine(f: Fields, h: Header)
    requires f.errno == OK && f.state == FieldStart && IsName(h.name) && IsValue(h.text) && !WellFormed(h)
    requires f.nread + |Line(h)| <= MAX_HEADER_SIZE
    ensures Parse(f, Line(h)).kind == Fail && Parse(f, Line(h)).f.errno == InvalidContentLength
  {
    hide Parse, DataRun, StateOf, Lowered, IsTokenByte, IsNumber, IsValue;
    var colon := [':' as int, SPACE];
    var g1 := ReadName(f, h.name);
    ReadColon(g1);
    var g2 := g1.(state := ValueStart, nread := g1.nread + 2);
    ParseSplit(f, h.name, colon);
    LengthAccepted(g2, h.text);
    ParseSplit(g2, h.text, CRLF);
    ParseSplit(f, h.name + colon, h.text + CRLF);
    assert h.name + colon + (h.text + CRLF) == Line(h);
  }

  /** Exactly which header lines are accepted: all but those with a content length that is refused. */
  lemma {:induction false} LinesAccepted(f: Fields, hs: seq<Header>)
    requires AtLine(f) && (forall i :: 0 <= i < |hs| ==> IsName(hs[i].name) && IsValue(hs[i].text))
    requires f.nread + |Lines(hs)| <= MAX_HEADER_SIZE
    ensures var p := Parse(f, Lines(hs));
            && (p.kind == Done <==> forall i :: 0 <= i < |hs| ==> WellFormed(hs[i]))
            && (p.kind != Done ==> p.kind == Fail && p.f.errno == InvalidContentLength)
    decreases |hs|
  {
    hide Parse, Line, HeaderEvents, WellFormed, LengthAfter, FlagsAfter, IsName, IsValue;
    if hs == [] {
      ParseNone(f);
    } else {
      ParseSplit(f, Line(hs[0]), Lines(hs[1..]));
      if WellFormed(hs[0]) {
        var e := ReadAnyLine(f, hs[0]);
        LinesAccepted(e, hs[1..]);
        assert forall i :: 0 < i < |hs| ==> hs[i] == hs[1..][i - 1];
      } else {
        BadAnyLine(f, hs[0]);
      }
    }
  }

  lemma BadAnyLine(f: Fields, h: Header)
    requires AtLine(f) && IsName(h.name) && IsValue(h.text) && !WellFormed(h) && f.nread + |Line(h)| <= MAX_HEADER_SIZE
    ensures Parse(f, Line(h)).kind == Fail && Parse(f, Line(h)).f.errno == InvalidContentLength
  {
    hide Parse, Line, IsTokenByte, WellFormed, IsValue;
    LineStarts(h);
    if f.state == ValueLws {
      NewLine(f, Line(h));
    }
    BadLine(f.(state := FieldStart), h);
  }

  // ---------------------------------------------------------------- the lines that frame a message

  predicate IsWordChar(c: char) {
    'a' <= c <= 'z' || c == '-'
  }

  predicate IsNameChar(c: char) {
    IsWordChar(c) || 'A' <= c <= 'Z'
  }

  function SmallChar(c: char): char {
    if 'A' <= c <= 'Z' then (c as int + 32) as char else c
  }

  /** A literal name is a name, and is recognised by its letters. */
  lemma LiteralName(name: string, w: string)
    requires name != "" && forall i :: 0 <= i < |name| ==> IsNameChar(name[i])
    requires |name| == |w| && forall i :: 0 <= i < |name| ==> SmallChar(name[i]) == w[i]
    ensures IsName(Letters(name)) && Is(Lowered(Letters(name)), w)
  {
  }

  /** A literal word as a value. */
  lemma LiteralWord(w: string, matching: HeaderState, matched: HeaderState)
    requires w != "" && forall i :: 0 <= i < |w| ==> IsWordChar(w[i])
    ensures var text := Letters(w);
            IsValue(text) && text[0] as int == w[0] as int && WordState(text, w, matching, matched) == matched
  {
  }

  lemma FramingNames()
    ensures var l := Letters("Content-Length"); IsName(l) && Is(Lowered(l), "content-length")
    ensures var l := Letters("Transfer-Encoding"); IsName(l) && Is(Lowered(l), "transfer-encoding")
    ensures var l := Letters("Connection"); IsName(l) && Is(Lowered(l), "connection")
    ensures var l := Letters("Upgrade"); IsName(l) && Is(Lowered(l), "upgrade")
  {
    hide IsName, Is, Lowered, Letters;
    LiteralName("Content-Length", "content-length");
    LiteralName("Transfer-Encoding", "transfer-encoding");
    LiteralName("Connection", "connection");
    LiteralName("Upgrade", "upgrade");
  }

  lemma FramingKinds(l: bytes)
    requires l != []
    ensures Is(l, "content-length") ==> StateOf(l) == ContentLength
    ensures Is(l, "transfer-encoding") ==> StateOf(l) == TransferEncoding
    ensures Is(l, "connection") ==> StateOf(l) == Connection
    ensures Is(l, "upgrade") ==> StateOf(l) == Upgrade
  {
    hide IsPrefix;
  }

  const LENGTH_NAME := Letters("Content-Length")
  const CHUNKED_LINE := Header(Letters("Transfer-Encoding"), Letters("chunked"))
  const CLOSE_LINE := Header(Letters("Connection"), Letters("close"))
  const KEEP_ALIVE_LINE := Header(Letters("Connection"), Letters("keep-alive"))
  const UPGRADE_LINE := Header(Letters("Upgrade"), Letters("websocket"))

  lemma ChunkedBytes()
    ensures Line(CHUNKED_LINE) == Letters("Transfer-Encoding: chunked") + [13, 10]
  {
  }

  lemma KeepAliveBytes()
    ensures Line(KEEP_ALIVE_LINE) == Letters("Connection: keep-alive") + [13, 10]
  {
  }

  lemma ShortBytes()
    ensures Line(CLOSE_LINE) == Letters("Connection: close") + [13, 10]
    ensures Line(UPGRADE_LINE) == Letters("Upgrade: websocket") + [13, 10]
  {
  }

  lemma LengthBytes()
    ensures LENGTH_NAME + [':' as int, SPACE] == Letters("Content-Length: ")
  {
  }

  lemma ContentLengthHeader(n: nat)
    requires n < NO_LENGTH
    ensures var h := Header(LENGTH_NAME, Digits(n)); WellFormed(h) && Kind(h) == ContentLength && LengthRead(h.text) == n
  {
    FramingNames();
    FramingKinds(Lowered(LENGTH_NAME));
    NumberPrinted(n);
    DigitsAreValue(Digits(n));
    hide StateOf, Is, IsName, IsValue, IsNumber, LengthRead;
  }

  /** A printed Content-Length line is read, and sets the length to the number printed. */
  lemma ContentLengthLine(f: Fields, n: nat)
    requires AtLine(f) && n < NO_LENGTH && f.nread + 18 + |Digits(n)| <= MAX_HEADER_SIZE
    ensures var p := Parse(f, Letters("Content-Length: ") + Digits(n) + [13, 10]);
            p.kind == Done && AtLine(p.f) && p.f.length == n && p.f.flags == f.flags
  {
    var h := Header(LENGTH_NAME, Digits(n));
    hide Parse, WellFormed, Kind, LengthRead, HeaderEvents, FlagsAfter;
    ContentLengthHeader(n);
    LengthBytes();
    assert Line(h) == Letters("Content-Length: ") + Digits(n) + [13, 10];
    LengthSaysNothing(f.flags, h);
    hide Line, Letters;
    LineSets(f, h);
  }

  lemma LengthSaysNothing(flags: Flags, h: Header)
    requires Kind(h) == ContentLength
    ensures FlagsAfter(flags, h) == flags
  {
    hide Kind;
  }

  lemma LineSets(f: Fields, h: Header)
    requires AtLine(f) && WellFormed(h) && f.nread + |Line(h)| <= MAX_HEADER_SIZE
    ensures var p := Parse(f, Line(h));
            && p.kind == Done && AtLine(p.f)
            && p.f.length == LengthAfter(f.length, h) && p.f.flags == FlagsAfter(f.flags, h)
  {
    hide Parse, Line, WellFormed, FlagsAfter, LengthAfter, HeaderEvents;
    var g := ReadAnyLine(f, h);
  }

  lemma FramingFlags(flags: Flags)
    ensures WellFormed(CHUNKED_LINE) && Kind(CHUNKED_LINE) != ContentLength
            && FlagsAfter(flags, CHUNKED_LINE) == flags.(chunked := true)
    ensures WellFormed(CLOSE_LINE) && Kind(CLOSE_LINE) != ContentLength && FlagsAfter(flags, CLOSE_LINE) == flags.(close := true)
    ensures WellFormed(KEEP_ALIVE_LINE) && Kind(KEEP_ALIVE_LINE) != ContentLength
            && FlagsAfter(flags, KEEP_ALIVE_LINE) == flags.(keepAlive := true)
    ensures WellFormed(UPGRADE_LINE) && Kind(UPGRADE_LINE) != ContentLength
            && FlagsAfter(flags, UPGRADE_LINE) == flags.(upgrade := true)
  {
    hide StateOf, Is, IsName, IsValue, Lowered, Letters, WordState;
    FramingNames();
    FramingKinds(Lowered(CHUNKED_LINE.name));
    FramingKinds(Lowered(CLOSE_LINE.name));
    FramingKinds(Lowered(UPGRADE_LINE.name));
    LiteralWord("chunked", MatchingChunked, ValueChunked);
    LiteralWord("close", MatchingClose, ValueClose);
    LiteralWord("keep-alive", MatchingKeepAlive, ValueKeepAlive);
    LiteralWord("websocket", General, General);
  }

  /** Each of the other framing lines sets its own flag. */
  lemma FramingLines(f: Fields)
    requires AtLine(f) && f.nread + 28 <= MAX_HEADER_SIZE
    ensures var p := Parse(f, Letters("Transfer-Encoding: chunked") + [13, 10]);
            p.kind == Done && p.f.flags == f.flags.(chunked := true) && p.f.length == f.length
    ensures var p := Parse(f, Letters("Connection: close") + [13, 10]);
            p.kind == Done && p.f.flags == f.flags.(close := true) && p.f.length == f.length
    ensures var p := Parse(f, Letters("Connection: keep-alive") + [13, 10]);
            p.kind == Done && p.f.flags == f.flags.(keepAlive := true) && p.f.length == f.length
    ensures var p := Parse(f, Letters("Upgrade: websocket") + [13, 10]);
            p.kind == Done && p.f.flags == f.flags.(upgrade := true) && p.f.length == f.length
  {
    hide Parse, WellFormed, Kind, FlagsAfter, Line;
    ChunkedBytes();
    KeepAliveBytes();
    ShortBytes();
    FramingFlags(f.flags);
    LineSets(f, CHUNKED_LINE);
    LineSets(f, CLOSE_LINE);
    LineSets(f, KEEP_ALIVE_LINE);
    LineSets(f, UPGRADE_LINE);
  }

  // ---------------------------------------------------------------- the end of the headers

  /** How the parser goes on after the headers of a request. */
  function HeadersEnd(f: Fields): Pass {
    var g := f.(nread := 0, upgrade := AsksUpgrade(f));
    if g.upgrade then Pass(Stop, g.(state := NewMessage(g)), [HeadersComplete(f.nread, f.length), MessageComplete])
    else if f.flags.chunked then Pass(Done, g.(state := ChunkSizeStart), [HeadersComplete(f.nread, f.length)])
    else if f.length == 0 || f.length == NO_LENGTH then
      Pass(Done, g.(state := NewMessage(g)), [HeadersComplete(f.nread, f.length), MessageComplete])
    else Pass(Done, g.(state := BodyIdentity), [HeadersComplete(f.nread, f.length)])
  }

  /** A message that is not inside a trailer. */
  predicate Ordinary(f: Fields) {
    f.errno == OK && !f.flags.trailing
  }

  lemma EndCr(f: Fields)
    requires f.errno == OK && f.state == FieldStart && f.nread < MAX_HEADER_SIZE
    ensures Parse(f, [CR]) == Pass(Done, f.(state := HeadersAlmostDone, nread := f.nread + 1), [])
  {
    EndCrPass(f);
    hide *;
    DispatchText(Counted(f), CR);
    QuietByte(f, CR, Pass(Done, f.(state := HeadersAlmostDone, nread := f.nread + 1), []));
  }

  lemma EndCrPass(f: Fields)
    requires f.state == FieldStart
    ensures OnFieldStart(Counted(f), CR) == Pass(Done, f.(state := HeadersAlmostDone, nread := f.nread + 1), [])
    ensures ChannelOf(HeadersAlmostDone) == None && Counted(f).state == FieldStart
  {
    hide Token;
  }

  lemma DonePass(g: Fields)
    requires g.errno == OK && g.state == HeadersDone && g.upgrade == AsksUpgrade(g)
    ensures var p := OnHeaderEnd(g, LF);
            && p.kind == HeadersEnd(g).kind && p.kind != Again && p.f == HeadersEnd(g).f
            && [HeadersComplete(g.nread, g.length)] + p.events == HeadersEnd(g).events
  {
  }

  lemma AlmostPass(f: Fields)
    requires Ordinary(f) && f.state == HeadersAlmostDone
    ensures OnHeaderEnd(f, LF) ==
            Pass(Again, f.(state := HeadersDone, upgrade := AsksUpgrade(f)), [HeadersComplete(f.nread, f.length)])
  {
    hide ShouldKeepAlive;
  }

  lemma EndPasses(f: Fields)
    requires Ordinary(f) && f.state == HeadersAlmostDone
    ensures Passes(f, LF) == HeadersEnd(f)
  {
    var g := f.(state := HeadersDone, upgrade := AsksUpgrade(f));
    SameEnd(f, g.upgrade);
    DispatchEnd(f, LF);
    DispatchEnd(g, LF);
    AlmostPass(f);
    DonePass(g);
    hide Switch, OnHeaderEnd, HeadersEnd, ShouldKeepAlive;
    assert Passes(g, LF) == OnHeaderEnd(g, LF);
  }

  lemma SameEnd(f: Fields, upgrade: bool)
    requires upgrade == AsksUpgrade(f)
    ensures HeadersEnd(f.(state := HeadersDone, upgrade := upgrade)) == HeadersEnd(f)
    ensures AsksUpgrade(f.(state := HeadersDone, upgrade := upgrade)) == upgrade
  {
  }

  lemma EndLf(f: Fields)
    requires Ordinary(f) && f.state == HeadersAlmostDone && f.nread < MAX_HEADER_SIZE
    ensures Parse(f, [LF]) == HeadersEnd(f.(nread := f.nread + 1))
  {
    hide Parse, Passes, HeadersEnd;
    ParseOne(f, LF);
    EndPasses(Counted(f));
    EndIsQuiet(Counted(f));
    var q := Passes(Counted(f), LF);
    assert q.events + [] == q.events;
  }

  lemma EndIsQuiet(f: Fields)
    ensures HeadersEnd(f).kind == (if AsksUpgrade(f) then Stop else Done) && ChannelOf(HeadersEnd(f).f.state) == None
  {
    hide ShouldKeepAlive;
  }

  /** The empty line after the headers. */
  lemma ReadHeadersEnd(f: Fields)
    requires AtLine(f) && Ordinary(f) && f.nread + 2 <= MAX_HEADER_SIZE
    ensures Parse(f, CRLF) == HeadersEnd(f.(nread := f.nread + 2, state := HeadersAlmostDone))
  {
    hide Parse, HeadersEnd;
    var g := f.(state := FieldStart);
    if f.state == ValueLws {
      NewLine(f, CRLF);
    }
    var e := g.(state := HeadersAlmostDone, nread := g.nread + 1);
    assert e.(nread := e.nread + 1) == f.(nread := f.nread + 2, state := HeadersAlmostDone);
    EndCr(g);
    EndLf(e);
    TwoBytes(g, CR, LF, e, HeadersEnd(e.(nread := e.nread + 1)));
  }

  // ---------------------------------------------------------------- trailers

  /** A chunked body: the chunks, the chunk of size zero, header lines of the trailer, and an empty line. */
  function ChunkedBody(chunks: seq<bytes>, trailer: seq<Header>): bytes {
    Chunks(chunks) + (Hex(0) + CRLF) + (Lines(trailer) + CRLF)
  }

  lemma TrailerPass(f: Fields)
    requires f.state == HeadersAlmostDone && f.flags.trailing
    ensures OnHeaderEnd(f, LF) == Pass(Done, f.(state := NewMessage(f)), [MessageComplete])
    ensures ChannelOf(NewMessage(f)) == None && Counted(f) == f.(nread := f.nread + 1)
    ensures NewMessage(Counted(f)) == NewMessage(f) && ParsingHeader(f.state)
  {
  }

  lemma TrailerLf(f: Fields)
    requires f.errno == OK && f.state == HeadersAlmostDone && f.nread < MAX_HEADER_SIZE && f.flags.trailing
    ensures Parse(f, [LF]) == Pass(Done, f.(state := NewMessage(f), nread := f.nread + 1), [MessageComplete])
  {
    hide *;
    TrailerPass(f);
    TrailerPass(Counted(f));
    DispatchEnd(Counted(f), LF);
    QuietByte(f, LF, Pass(Done, f.(state := NewMessage(f), nread := f.nread + 1), [MessageComplete]));
  }

  /** The empty line after a trailer ends the message. */
  lemma ReadTrailerEnd(f: Fields)
    requires AtLine(f) && f.flags.trailing && f.nread + 2 <= MAX_HEADER_SIZE
    ensures Parse(f, CRLF) == Pass(Done, f.(state := NewMessage(f), nread := f.nread + 2), [MessageComplete])
  {
    hide Parse;
    var g := f.(state := FieldStart);
    if f.state == ValueLws {
      NewLine(f, CRLF);
    }
    var e := g.(state := HeadersAlmostDone, nread := g.nread + 1);
    assert NewMessage(e) == NewMessage(f);
    hide NewMessage;
    EndCr(g);
    TrailerLf(e);
    TwoBytes(g, CR, LF, e, Pass(Done, f.(state := NewMessage(f), nread := f.nread + 2), [MessageComplete]));
  }

  lemma {:induction false} FlagsInTrailer(flags: Flags, hs: seq<Header>)
    ensures FlagsOf(flags.(trailing := true), hs) == FlagsOf(flags, hs).(trailing := true)
    decreases |hs|
  {
    hide FlagsAfter;
    if hs != [] {
      FlagInTrailer(flags, hs[0]);
      FlagsInTrailer(FlagsAfter(flags, hs[0]), hs[1..]);
    }
  }

  lemma FlagInTrailer(flags: Flags, h: Header)
    ensures FlagsAfter(flags.(trailing := true), h) == FlagsAfter(flags, h).(trailing := true)
    ensures FlagsAfter(flags, h).trailing == flags.trailing
  {
    hide Kind, ValueState;
  }

  /** A trailer: its header lines are told, and then the end of the message, once. */
  lemma ReadTrailer(f: Fields, trailer: seq<Header>) returns (h: Fields)
    requires f.errno == OK && f.state == FieldStart && f.nread == 0 && f.flags.trailing
    requires (forall i :: 0 <= i < |trailer| ==> WellFormed(trailer[i])) && |Lines(trailer)| + 2 <= MAX_HEADER_SIZE
    ensures Parse(f, Lines(trailer) + CRLF) == Pass(Done, h, LinesEvents(trailer) + [MessageComplete])
    ensures h.errno == OK && h.state == NewMessage(f.(flags := FlagsOf(f.flags, trailer)))
  {
    hide Parse, Lines, LinesEvents, LengthOf, WellFormed;
    var g := ReadLines(f, trailer);
    FlagsInTrailer(f.flags, trailer);
    assert f.flags.(trailing := true) == f.flags;
    ReadTrailerEnd(g);
    h := g.(state := NewMessage(g), nread := g.nread + 2);
    ParseSplit(f, Lines(trailer), CRLF);
  }

  /**
   * Decoding inverts encoding: for any non-empty chunks and any trailer, the body callbacks are
   * given exactly the chunks' bytes in order, then the trailer's header lines are told, and the end
   * of the message is told once, after them.
   */
  lemma ChunkedRoundTrip(f: Fields, chunks: seq<bytes>, trailer: seq<Header>) returns (h: Fields)
    requires AtChunk(f) && forall i :: 0 <= i < |chunks| ==> 0 < |chunks[i]| < NO_LENGTH
    requires (forall i :: 0 <= i < |trailer| ==> WellFormed(trailer[i])) && |Lines(trailer)| + 2 <= MAX_HEADER_SIZE
    ensures Parse(f, ChunkedBody(chunks, trailer)) ==
            Pass(Done, h, DataRun(Body, Concat(chunks)) + (LinesEvents(trailer) + [MessageComplete]))
    ensures h.errno == OK && h.state == NewMessage(f.(flags := FlagsOf(f.flags, trailer)))
  {
    hide Parse, Lines, LinesEvents, WellFormed, Chunks, DataRun, Concat, FlagsOf, Hex;
    ReadAllChunks(f, chunks);
    h := ReadTrailer(AfterChunks(f), trailer);
    FlagsInTrailer(f.flags, trailer);
    ParseSplit(f, Chunks(chunks) + (Hex(0) + CRLF), Lines(trailer) + CRLF);
  }

  // ---------------------------------------------------------------- the request line

  /** The method assumed after k letters of a method's name. */
  function Assumed(m: Method, k: nat): Method {
    match m
    case CHECKOUT => if k <= 1 then CONNECT else m
    case COPY => if k <= 2 then CONNECT else m
    case MOVE => if k <= 1 then MKCOL else m
    case MERGE => if k <= 1 then MKCOL else m
    case MKACTIVITY => if k <= 2 then MKCOL else m
    case SEARCH => if k <= 1 then SUBSCRIBE else m
    case PROPFIND => if k <= 1 then POST else m
    case PROPPATCH => if k <= 1 then POST else if k <= 4 then PROPFIND else m
    case PUT => if k <= 1 then POST else m
    case PURGE => if k <= 1 then POST else if k <= 2 then PUT else m
    case PATCH => if k <= 1 then POST else m
    case UNSUBSCRIBE => if k <= 2 then UNLOCK else m
    case MSEARCH => if k <= 1 then MKCOL else m
    case _ => m
  }

  function Letters(s: string): (b: bytes)
    ensures |b| == |s| && forall i :: 0 <= i < |s| ==> b[i] == s[i] as int % 256
  {
    seq(|s|, i requires 0 <= i < |s| => s[i] as int % 256)
  }

  /** How a method must be written to be recognised: by its name, but for the one whose name holds blanks. */
  function Spelled(m: Method): (s: string)
    ensures |s| == |MethodString(m)| > 0
  {
    if m == MSEARCH then "M-- SEARCH" else MethodString(m)
  }

  lemma SpelledSame(m: Method, k: nat)
    requires k < |Spelled(m)| && (m == MSEARCH ==> k >= 2)
    ensures Spelled(m)[k] == MethodString(m)[k]
  {
  }

  function MethodBytes(m: Method): (s: bytes)
    ensures |s| == |MethodString(m)|
  {
    Letters(Spelled(m))
  }

  lemma MethodLetter(m: Method, k: nat)
    requires k < |Spelled(m)|
    ensures 0 < Spelled(m)[k] as int < 128
  {
  }

  /** While the letters are the assumed method's own, the assumption stands; where they differ, the right method takes over. */
  lemma MethodMore(m: Method, k: nat)
    requires 1 <= k < |Spelled(m)|
    ensures var ch, a := Spelled(m)[k] as int, Assumed(m, k);
            && 0 < ch < 128 && k <= |MethodString(a)|
            && if k < |MethodString(a)| && ch == MethodString(a)[k] as int then Assumed(m, k + 1) == a
               else Redirect(a, k, ch) == Some(Assumed(m, k + 1)) && !(k == |MethodString(a)| && ch == SPACE)
  {
    MethodLetter(m, k);
    if Assumed(m, k) == m {
      assert Assumed(m, k + 1) == m && (m == MSEARCH ==> k >= 2);
      SpelledSame(m, k);
      hide MethodString, Spelled;
    } else {
      MethodChanges(m, k);
      hide MethodString, Spelled, Redirect, Assumed;
    }
  }

  lemma MethodChanges(m: Method, k: nat)
    requires 1 <= k < |Spelled(m)| && Assumed(m, k) != m && Spelled(m)[k] as int < 128
    ensures var ch, a := Spelled(m)[k] as int, Assumed(m, k);
            && k < |MethodString(a)| && ch != SPACE
            && if ch == MethodString(a)[k] as int then Assumed(m, k + 1) == a
               else Redirect(a, k, ch) == Some(Assumed(m, k + 1))
  {
  }

  lemma DispatchLine(f: Fields, ch: byte)
    ensures f.state == StartReq ==> Switch(f, ch) == OnStart(f, ch)
    ensures f.state == ReqMethod ==> Switch(f, ch) == OnMethod(f, ch)
    ensures f.state == SpacesBeforeUrl || IsUrlState(f.state) ==> Switch(f, ch) == OnUrl(f, ch)
    ensures IsVersionState(f.state) ==> Switch(f, ch) == OnVersion(f, ch)
  {
    hide OnStart, OnMethod, OnUrl, OnVersion, OnFieldStart, OnField, OnValueStart, OnValue, OnHeaderEnd, OnChunk, OnBody;
    hide Complete, Next, Error;
  }

  /** The fields after k letters of a method's name. */
  function MethodRead(f: Fields, m: Method, k: nat): Fields {
    f.(state := ReqMethod, meth := Assumed(m, k), index := k, flags := NO_FLAGS, length := NO_LENGTH, nread := f.nread + k)
  }

  lemma FirstLetterFits(m: Method)
    ensures var ch := Spelled(m)[0] as int;
            0 < ch < 128 && FirstMethod(ch) == Some(Assumed(m, 1)) && IsAlpha(ch) && ch != CR && ch != LF
  {
    MethodLetter(m, 0);
  }

  lemma FirstLetter(f: Fields, m: Method)
    requires f.errno == OK && f.state == StartReq && f.nread < MAX_HEADER_SIZE
    ensures Parse(f, MethodBytes(m)[..1]) == Pass(Done, MethodRead(f, m, 1), [])
  {
    hide Parse, Switch, MethodString, Spelled, FirstMethod, IsAlpha, Assumed;
    FirstLetterFits(m);
    var ch := MethodBytes(m)[0];
    assert MethodBytes(m)[..1] == [ch];
    hide MethodBytes;
    assert OnStart(Counted(f), ch) == Pass(Done, MethodRead(f, m, 1), []);
    hide OnStart;
    DispatchLine(Counted(f), ch);
    QuietByte(f, ch, Pass(Done, MethodRead(f, m, 1), []));
  }

  lemma NextLetter(f: Fields, m: Method, k: nat)
    requires f.errno == OK && f.nread + k < MAX_HEADER_SIZE && 1 <= k < |MethodString(m)|
    ensures Parse(MethodRead(f, m, k), [MethodBytes(m)[k]]) == Pass(Done, MethodRead(f, m, k + 1), [])
  {
    LetterPass(f, m, k);
    hide *;
    var e, g, ch := MethodRead(f, m, k), MethodRead(f, m, k + 1), MethodBytes(m)[k];
    DispatchLine(Counted(e), ch);
    QuietByte(e, ch, Pass(Done, g, []));
  }

  lemma LetterPass(f: Fields, m: Method, k: nat)
    requires 1 <= k < |MethodString(m)|
    ensures var e, g := MethodRead(f, m, k), MethodRead(f, m, k + 1);
            && e.errno == f.errno && e.nread == f.nread + k && ChannelOf(g.state) == None && Counted(e).state == ReqMethod
            && OnMethod(Counted(e), MethodBytes(m)[k]) == Pass(Done, g, [])
  {
    hide MethodString, Spelled, Redirect, Assumed;
    MethodMore(m, k);
    var ch := MethodBytes(m)[k];
    assert ch == Spelled(m)[k] as int;
    hide MethodBytes;
  }

  lemma {:induction false} ReadLetters(f: Fields, m: Method, k: nat)
    requires f.errno == OK && f.state == StartReq && f.nread + k <= MAX_HEADER_SIZE
    requires 1 <= k <= |MethodString(m)|
    ensures Parse(f, MethodBytes(m)[..k]) == Pass(Done, MethodRead(f, m, k), [])
    decreases k
  {
    hide Parse, MethodString, MethodRead;
    if k == 1 {
      FirstLetter(f, m);
    } else {
      ReadLetters(f, m, k - 1);
      NextLetter(f, m, k - 1);
      var s := MethodBytes(m);
      assert s[..k] == s[..k - 1] + [s[k - 1]];
      ThenQuiet(f, s[..k - 1], [s[k - 1]], MethodRead(f, m, k - 1), Pass(Done, MethodRead(f, m, k), []));
    }
  }

  /** The fields after a method and the blank behind it. */
  function MethodDone(f: Fields, m: Method): Fields {
    f.(state := SpacesBeforeUrl, meth := m, index := |MethodString(m)| + 1, flags := NO_FLAGS, length := NO_LENGTH,
       nread := f.nread + |MethodString(m)| + 1)
  }

  lemma AssumedAtLast(m: Method)
    ensures Assumed(m, |MethodString(m)|) == m && |MethodString(m)| > 0
  {
  }

  lemma MethodBlank(f: Fields, m: Method)
    requires f.errno == OK && f.nread + |MethodString(m)| < MAX_HEADER_SIZE
    ensures Parse(MethodRead(f, m, |MethodString(m)|), [SPACE]) == Pass(Done, MethodDone(f, m), [])
  {
    hide Parse, Switch, MethodString, Redirect, Assumed;
    var e := MethodRead(f, m, |MethodString(m)|);
    AssumedAtLast(m);
    assert OnMethod(Counted(e), SPACE) == Pass(Done, MethodDone(f, m), []);
    hide OnMethod;
    DispatchLine(Counted(e), SPACE);
    QuietByte(e, SPACE, Pass(Done, MethodDone(f, m), []));
  }

  /** Every method is recognised from its spelling. */
  lemma ReadMethod(f: Fields, m: Method)
    requires f.errno == OK && f.state == StartReq && f.nread + |MethodString(m)| < MAX_HEADER_SIZE
    ensures Parse(f, MethodBytes(m) + [SPACE]) == Pass(Done, MethodDone(f, m), [])
  {
    hide Parse, MethodString, MethodRead, MethodDone;
    var k := |MethodString(m)|;
    AssumedAtLast(m);
    ReadLetters(f, m, k);
    assert MethodBytes(m)[..k] == MethodBytes(m);
    MethodBlank(f, m);
    ThenQuiet(f, MethodBytes(m), [SPACE], MethodRead(f, m, k), Pass(Done, MethodDone(f, m), []));
  }

  /** The parser is in the middle of a method. */
  predicate InMethod(p: Pass) {
    p.kind == Done && p.f.state == ReqMethod
  }

  /** A letter that is accepted is the next of the spelling of the method assumed after it. */
  lemma OneMoreLetter(a: Method, k: nat, ch: byte, b: Method)
    requires 1 <= k <= |Spelled(a)| && (a == MSEARCH ==> k >= 2)
    requires (b == a && k < |MethodString(a)| && ch == MethodString(a)[k] as int) || Redirect(a, k, ch) == Some(b)
    ensures k + 1 <= |Spelled(b)| && MethodBytes(b)[..k + 1] == MethodBytes(a)[..k] + [ch] && (b == MSEARCH ==> k + 1 >= 2)
  {
    hide Spelled, MethodString, Redirect;
    if Redirect(a, k, ch) == Some(b) {
      RedirectSpells(a, k, ch, b);
    } else {
      SpelledSame(a, k);
      var x := MethodBytes(a);
      assert x[k] == ch;
      hide MethodBytes;
    }
  }

  lemma RedirectSpells(a: Method, k: nat, ch: byte, b: Method)
    requires Redirect(a, k, ch) == Some(b) && 1 <= k <= |Spelled(a)|
    ensures k + 1 <= |Spelled(b)| && MethodBytes(b)[..k + 1] == MethodBytes(a)[..k] + [ch]
  {
    hide Spelled, MethodString, Redirect;
    RedirectTakes(a, k, ch, b);
    var x, y := MethodBytes(b), MethodBytes(a);
    assert forall j :: 0 <= j < k ==> Spelled(b)[..k][j] == Spelled(a)[..k][j];
    assert x[k] == ch && forall j :: 0 <= j < k ==> x[j] == y[j];
    hide MethodBytes, Takes;
  }

  /** The one name goes on with a letter where the other leaves it. */
  predicate Takes(a: Method, k: nat, ch: char, b: Method) {
    && k <= |Spelled(a)| && k < |Spelled(b)| && Spelled(b)[..k] == Spelled(a)[..k] && Spelled(b)[k] == ch
  }

  lemma TakesFromC()
    ensures Takes(CONNECT, 1, 'H', CHECKOUT)
    ensures Takes(CONNECT, 2, 'P', COPY)
  {
    assert Spelled(CHECKOUT)[..1] == Spelled(CONNECT)[..1];
    assert Spelled(COPY)[..2] == Spelled(CONNECT)[..2];
  }

  lemma TakesFromM()
    ensures Takes(MKCOL, 1, 'O', MOVE)
    ensures Takes(MKCOL, 1, 'E', MERGE)
    ensures Takes(MKCOL, 1, '-', MSEARCH)
    ensures Takes(MKCOL, 2, 'A', MKACTIVITY)
  {
    assert Spelled(MOVE)[..1] == Spelled(MKCOL)[..1];
    assert Spelled(MERGE)[..1] == Spelled(MKCOL)[..1];
    assert Spelled(MSEARCH)[..1] == Spelled(MKCOL)[..1];
    assert Spelled(MKACTIVITY)[..2] == Spelled(MKCOL)[..2];
  }

  lemma TakesFromP()
    ensures Takes(POST, 1, 'R', PROPFIND)
    ensures Takes(POST, 1, 'U', PUT)
    ensures Takes(POST, 1, 'A', PATCH)
    ensures Takes(PROPFIND, 4, 'P', PROPPATCH)
  {
    assert Spelled(PROPFIND)[..1] == Spelled(POST)[..1];
    assert Spelled(PUT)[..1] == Spelled(POST)[..1];
    assert Spelled(PATCH)[..1] == Spelled(POST)[..1];
    assert Spelled(PROPPATCH)[..4] == Spelled(PROPFIND)[..4];
  }

  lemma TakesFromU()
    ensures Takes(SUBSCRIBE, 1, 'E', SEARCH)
    ensures Takes(PUT, 2, 'R', PURGE)
    ensures Takes(UNLOCK, 2, 'S', UNSUBSCRIBE)
  {
    assert Spelled(SEARCH)[..1] == Spelled(SUBSCRIBE)[..1];
    assert Spelled(PURGE)[..2] == Spelled(PUT)[..2];
    assert Spelled(UNSUBSCRIBE)[..2] == Spelled(UNLOCK)[..2];
  }

  lemma RedirectTakes(a: Method, k: nat, ch: byte, b: Method)
    requires Redirect(a, k, ch) == Some(b)
    ensures 1 <= k && Takes(a, k, ch as char, b)
  {
    TakesFromC();
    TakesFromM();
    TakesFromP();
    TakesFromU();
    hide Takes;
  }

  lemma FirstIs(f: Fields, ch: byte)
    requires f.errno == OK && f.state == StartReq && f.nread < MAX_HEADER_SIZE && InMethod(Parse(f, [ch]))
    ensures var g := Parse(f, [ch]).f; g.index == 1 && [ch] == MethodBytes(g.meth)[..1] && g.meth != MSEARCH && g.errno == OK
    ensures Parse(f, [ch]).f.nread == f.nread + 1
  {
    ParseOne(f, ch);
    DispatchLine(Counted(f), ch);
    FirstMethodSpells(ch);
    hide Parse, Switch, FirstMethod, MethodBytes, IsAlpha;
  }

  lemma FirstMethodSpells(ch: byte)
    ensures FirstMethod(ch).Some? ==>
            var m := FirstMethod(ch).value; m != MSEARCH && MethodBytes(m)[..1] == [ch]
  {
  }

  lemma NextIs(e: Fields, ch: byte)
    requires e.errno == OK && e.state == ReqMethod && e.nread < MAX_HEADER_SIZE
    ensures var p := Parse(e, [ch]);
            && (InMethod(p) ==> p.f.index == e.index + 1 && p.f.errno == OK && p.f.nread == e.nread + 1
                                && ((p.f.meth == e.meth && e.index < |MethodString(e.meth)| && ch == MethodString(e.meth)[e.index] as int)
                                    || Redirect(e.meth, e.index, ch) == Some(p.f.meth)))
            && (p.kind == Done && p.f.state == SpacesBeforeUrl ==>
                  e.index == |MethodString(e.meth)| && ch == SPACE && p.f.meth == e.meth)
  {
    ParseOne(e, ch);
    DispatchLine(Counted(e), ch);
    hide Parse, Switch, Redirect, MethodString;
  }

  /** After each of these letters the parser is still in the middle of a method. */
  ghost predicate StaysInMethod(f: Fields, w: bytes) {
    forall k :: 1 <= k <= |w| ==> InMethod(Parse(f, w[..k]))
  }

  lemma StaysFront(f: Fields, w: bytes)
    requires StaysInMethod(f, w) && w != []
    ensures StaysInMethod(f, w[..|w| - 1]) && InMethod(Parse(f, w))
  {
    hide Parse, InMethod;
    var front := w[..|w| - 1];
    assert w[..|w|] == w && InMethod(Parse(f, w[..|w|]));
    forall k | 1 <= k <= |front| ensures InMethod(Parse(f, front[..k])) {
      assert front[..k] == w[..k] && InMethod(Parse(f, w[..k]));
    }
  }

  /** What the parser has read when it is in the middle of a method. */
  predicate MethodSoFar(f: Fields, w: bytes, g: Fields) {
    && g.errno == OK && g.state == ReqMethod && g.nread == f.nread + |w| && g.index == |w| <= |Spelled(g.meth)|
    && w == MethodBytes(g.meth)[..|w|] && (g.meth == MSEARCH ==> |w| >= 2)
  }

  lemma OneLetterMore(f: Fields, w: bytes, e: Fields, ch: byte)
    requires MethodSoFar(f, w, e) && w != [] && e.nread < MAX_HEADER_SIZE && InMethod(Parse(e, [ch]))
    ensures MethodSoFar(f, w + [ch], Parse(e, [ch]).f)
  {
    hide Parse, MethodBytes, MethodString, Spelled, Redirect;
    NextIs(e, ch);
    OneMoreLetter(e.meth, |w|, ch, Parse(e, [ch]).f.meth);
  }

  lemma {:induction false} LettersAre(f: Fields, w: bytes)
    requires f.errno == OK && f.state == StartReq && f.nread + |w| <= MAX_HEADER_SIZE && w != [] && StaysInMethod(f, w)
    ensures MethodSoFar(f, w, Parse(f, w).f)
    decreases |w|
  {
    hide Parse, MethodBytes, MethodString, Spelled, StaysInMethod;
    var k := |w| - 1;
    StaysFront(f, w);
    if k == 0 {
      assert w == [w[0]];
      FirstIs(f, w[0]);
    } else {
      LettersAre(f, w[..k]);
      StaysFront(f, w[..k]);
      assert w == w[..k] + [w[k]];
      ParseSplit(f, w[..k], [w[k]]);
      OneLetterMore(f, w[..k], Parse(f, w[..k]).f, w[k]);
    }
  }

  /** Exactly what is recognised as a method: letters that keep the parser there, and then a blank, are its spelling. */
  lemma MethodExactly(f: Fields, w: bytes, m: Method)
    requires f.errno == OK && f.state == StartReq && f.nread + |w| < MAX_HEADER_SIZE
    ensures var p := Parse(f, w + [SPACE]);
            StaysInMethod(f, w) && p.kind == Done && p.f.state == SpacesBeforeUrl && p.f.meth == m <==> w == MethodBytes(m)
  {
    hide Parse, MethodBytes, MethodString, Spelled, Redirect;
    if w == MethodBytes(m) {
      ReadMethod(f, m);
      forall k | 1 <= k <= |w| ensures InMethod(Parse(f, w[..k])) {
        ReadLetters(f, m, k);
      }
    } else if StaysInMethod(f, w) {
      NotSpelled(f, w, m);
    }
  }

  lemma NotSpelled(f: Fields, w: bytes, m: Method)
    requires f.errno == OK && f.state == StartReq && f.nread + |w| < MAX_HEADER_SIZE && w != MethodBytes(m)
    requires StaysInMethod(f, w)
    ensures var p := Parse(f, w + [SPACE]); !(p.kind == Done && p.f.state == SpacesBeforeUrl && p.f.meth == m)
  {
    hide Parse, MethodBytes, MethodString, Spelled, Redirect, StaysInMethod;
    if w == [] {
      NoMethodYet(f);
      assert w + [SPACE] == [SPACE];
    } else {
      LettersAre(f, w);
      StaysFront(f, w);
      assert MethodBytes(m)[..|MethodString(m)|] == MethodBytes(m);
      ParseSplit(f, w, [SPACE]);
      NextIs(Parse(f, w).f, SPACE);
    }
  }

  lemma NoMethodYet(f: Fields)
    requires f.errno == OK && f.state == StartReq && f.nread < MAX_HEADER_SIZE
    ensures Parse(f, [SPACE]).kind == Fail
  {
    ParseOne(f, SPACE);
    DispatchLine(Counted(f), SPACE);
    hide Parse, Switch;
  }

  /** The method that the parser's table calls M - SEARCH: its real name is refused at the third letter. */
  lemma MSearchRefused(f: Fields, rest: bytes)
    requires f.errno == OK && f.state == StartReq && f.nread + 3 <= MAX_HEADER_SIZE
    ensures Parse(f, Ascii("M-SEARCH") + rest).kind == Fail && Parse(f, Ascii("M-SEARCH") + rest).f.errno == InvalidMethod
  {
    hide *;
    var e := MethodRead(f, MSEARCH, 2);
    MSearchLetters();
    MSearchAssumed(f);
    ReadLetters(f, MSEARCH, 2);
    ThirdLetter(e);
    RefusedThere(f, MethodBytes(MSEARCH)[..2], 'S' as int, Ascii("EARCH") + rest, e);
    assert Ascii("M-SEARCH") + rest == MethodBytes(MSEARCH)[..2] + (['S' as int] + (Ascii("EARCH") + rest));
  }

  lemma MSearchLetters()
    ensures |MethodString(MSEARCH)| >= 2 && Ascii("M-SEARCH") == MethodBytes(MSEARCH)[..2] + ['S' as int] + Ascii("EARCH")
  {
  }

  lemma MSearchAssumed(f: Fields)
    ensures var e := MethodRead(f, MSEARCH, 2);
            e.errno == f.errno && e.state == ReqMethod && e.meth == MSEARCH && e.index == 2 && e.nread == f.nread + 2
  {
  }

  /** A byte that is an error is the end, whatever follows. */
  lemma RefusedThere(f: Fields, a: bytes, ch: byte, rest: bytes, e: Fields)
    requires Parse(f, a) == Pass(Done, e, []) && Parse(e, [ch]).kind == Fail
    ensures var p := Parse(f, a + ([ch] + rest)); p.kind == Fail && p.f.errno == Parse(e, [ch]).f.errno
  {
    ParseSplit(e, [ch], rest);
    ParseSplit(f, a, [ch] + rest);
    hide Parse;
  }

  lemma ThirdLetter(e: Fields)
    requires e.errno == OK && e.state == ReqMethod && e.meth == MSEARCH && e.index == 2 && e.nread < MAX_HEADER_SIZE
    ensures Parse(e, ['S' as int]).kind == Fail && Parse(e, ['S' as int]).f.errno == InvalidMethod
  {
    DispatchLine(Counted(e), 'S' as int);
    hide Parse, Switch;
    FailingByte(e, 'S' as int);
  }

  // ---------------------------------------------------------------- the url

  /** Visible ASCII other than #. */
  predicate IsTargetByte(ch: byte) {
    33 <= ch <= 126 && ch != 35
  }

  /** The parser's table of url characters, byte by byte. */
  lemma UrlCharExactly(ch: byte)
    ensures IsUrlChar(ch) <==> IsTargetByte(ch) && ch != 63
  {
  }

  /** An absolute path with an optional query. */
  predicate IsTarget(url: bytes) {
    && url != [] && url[0] == '/' as int
    && forall i :: 1 <= i < |url| ==> IsTargetByte(url[i])
  }

  predicate InTarget(s: State) {
    s == Path || s == QueryStart || s == Query
  }

  lemma FirstOfUrl(f: Fields)
    requires f.errno == OK && f.state == SpacesBeforeUrl && f.meth != CONNECT && f.nread < MAX_HEADER_SIZE
    ensures Parse(f, ['/' as int]) == Pass(Done, f.(state := Path, nread := f.nread + 1), DataRun(Url, ['/' as int]))
  {
    hide Parse, Switch, IsAlpha, DataRun;
    var g := f.(state := Path, nread := f.nread + 1);
    assert OnUrl(Counted(f), '/' as int) == Pass(Done, g, []);
    hide OnUrl;
    DispatchLine(Counted(f), '/' as int);
    LoudByte(f, '/' as int, g, Url);
    RunOne(Url, '/' as int);
  }

  lemma MoreUrl(f: Fields, ch: byte) returns (g: Fields)
    requires f.errno == OK && InTarget(f.state) && f.nread < MAX_HEADER_SIZE && IsTargetByte(ch)
    ensures InTarget(g.state) && g == f.(state := g.state, nread := f.nread + 1)
    ensures Parse(f, [ch]) == Pass(Done, g, DataRun(Url, [ch]))
  {
    hide Parse, Switch, DataRun;
    UrlCharExactly(ch);
    g := f.(state := ParseUrlChar(f.state, ch), nread := f.nread + 1);
    assert OnUrl(Counted(f), ch) == Pass(Done, g, []) && InTarget(g.state);
    hide OnUrl, ParseUrlChar;
    DispatchLine(Counted(f), ch);
    LoudByte(f, ch, g, Url);
    RunOne(Url, ch);
  }

  /** The url is told whole. */
  lemma {:induction false} ReadUrl(f: Fields, url: bytes) returns (g: Fields)
    requires f.errno == OK && f.state == SpacesBeforeUrl && f.meth != CONNECT && IsTarget(url)
    requires f.nread + |url| <= MAX_HEADER_SIZE
    ensures InTarget(g.state) && g == f.(state := g.state, nread := f.nread + |url|)
    ensures Parse(f, url) == Pass(Done, g, DataRun(Url, url))
    decreases |url|
  {
    hide Parse, DataRun;
    var k := |url| - 1;
    if k == 0 {
      assert url == ['/' as int];
      FirstOfUrl(f);
      g := f.(state := Path, nread := f.nread + 1);
    } else {
      var e := ReadUrl(f, url[..k]);
      g := MoreUrl(e, url[k]);
      assert url == url[..k] + [url[k]];
      SameChannel(f, url[..k], [url[k]], e, g, Url);
    }
  }

  lemma UrlBlank(f: Fields)
    requires f.errno == OK && InTarget(f.state) && f.nread < MAX_HEADER_SIZE
    ensures Parse(f, [SPACE]) == Pass(Done, f.(state := HttpStart, nread := f.nread + 1), [Called(Url)])
  {
    BlankPass(f);
    hide *;
    DispatchLine(Counted(f), SPACE);
    QuietByte(f, SPACE, Pass(Done, f.(state := HttpStart, nread := f.nread + 1), [Called(Url)]));
  }

  lemma BlankPass(f: Fields)
    requires InTarget(f.state)
    ensures OnUrl(Counted(f), SPACE) == Pass(Done, f.(state := HttpStart, nread := f.nread + 1), [Called(Url)])
    ensures ChannelOf(HttpStart) == None && Counted(f).state == f.state && IsUrlState(f.state)
  {
    hide ParseUrlChar;
  }

  // ---------------------------------------------------------------- the version

  lemma VersionByte(f: Fields, ch: byte, g: Fields)
    requires f.errno == OK && IsVersionState(f.state) && f.nread < MAX_HEADER_SIZE
    requires OnVersion(Counted(f), ch) == Pass(Done, g, []) && ChannelOf(g.state) == None
    ensures Parse(f, [ch]) == Pass(Done, g, [])
  {
    hide Parse, Switch, OnVersion;
    DispatchLine(Counted(f), ch);
    QuietByte(f, ch, Pass(Done, g, []));
  }

  /** The end of a request line: HTTP/ and a version of two digits. */
  function VersionLine(major: nat, minor: nat): (s: bytes)
    requires 1 <= major <= 9 && minor <= 9
    ensures |s| == 10
  {
    ['H' as int, 'T' as int, 'T' as int, 'P' as int, '/' as int, ZERO + major, '.' as int, ZERO + minor, CR, LF]
  }

  /** The state after k bytes of it. */
  function VersionState(k: nat): State {
    if k == 0 then HttpStart
    else if k == 1 then HttpH
    else if k == 2 then HttpHT
    else if k == 3 then HttpHTT
    else if k == 4 then HttpHTTP
    else if k == 5 then FirstMajor
    else if k == 6 then Major
    else if k == 7 then FirstMinor
    else if k == 8 then Minor
    else if k == 9 then LineAlmostDone
    else FieldStart
  }

  function VersionRead(f: Fields, major: nat, minor: nat, k: nat): Fields {
    f.(state := VersionState(k), nread := f.nread + k,
       major := if k > 5 then major else f.major, minor := if k > 7 then minor else f.minor)
  }

  lemma VersionPass(f: Fields, major: nat, minor: nat, k: nat)
    requires 1 <= major <= 9 && minor <= 9 && k < 10
    ensures var e, g := VersionRead(f, major, minor, k), VersionRead(f, major, minor, k + 1);
            && IsVersionState(e.state) && ChannelOf(g.state) == None
            && OnVersion(Counted(e), VersionLine(major, minor)[k]) == Pass(Done, g, [])
  {
  }

  lemma VersionStep(f: Fields, major: nat, minor: nat, k: nat)
    requires f.errno == OK && 1 <= major <= 9 && minor <= 9 && k < 10 && f.nread + k < MAX_HEADER_SIZE
    ensures Parse(VersionRead(f, major, minor, k), [VersionLine(major, minor)[k]]) ==
            Pass(Done, VersionRead(f, major, minor, k + 1), [])
  {
    var e, g := VersionRead(f, major, minor, k), VersionRead(f, major, minor, k + 1);
    assert e.errno == OK && e.nread == f.nread + k;
    hide *;
    VersionPass(f, major, minor, k);
    VersionByte(e, VersionLine(major, minor)[k], g);
  }

  lemma {:induction false} ReadVersion(f: Fields, major: nat, minor: nat, k: nat)
    requires f.errno == OK && f.state == HttpStart && 1 <= major <= 9 && minor <= 9 && k <= 10
    requires f.nread + k <= MAX_HEADER_SIZE
    ensures Parse(f, VersionLine(major, minor)[..k]) == Pass(Done, VersionRead(f, major, minor, k), [])
    decreases k
  {
    hide Parse;
    var s := VersionLine(major, minor);
    if k == 0 {
      ParseNone(f);
      assert s[..0] == [];
    } else {
      hide VersionRead, VersionLine;
      ReadVersion(f, major, minor, k - 1);
      VersionStep(f, major, minor, k - 1);
      assert s[..k] == s[..k - 1] + [s[k - 1]];
      ThenQuiet(f, s[..k - 1], [s[k - 1]], VersionRead(f, major, minor, k - 1),
                Pass(Done, VersionRead(f, major, minor, k), []));
    }
  }

  // ---------------------------------------------------------------- whole requests

  datatype Content =
    /** As many bytes as the headers announce, or none. */
    | Sized(payload: bytes)
    /** Chunks and a trailer, which may be empty. */
    | Chunked(chunks: seq<bytes>, trailer: seq<Header>)

  datatype Request = Request(meth: Method, url: bytes, major: nat, minor: nat, headers: seq<Header>, content: Content)

  function LengthAnnounced(r: Request): nat {
    LengthOf(NO_LENGTH, r.headers)
  }

  /** A request line and header lines that can be printed. */
  predicate PrintableHead(r: Request) {
    && r.meth != CONNECT && IsTarget(r.url) && 1 <= r.major <= 9 && r.minor <= 9
    && forall i :: 0 <= i < |r.headers| ==> WellFormed(r.headers[i])
  }

  /** The request can be printed, stays in this protocol, and its headers say how its content is framed. */
  predicate Printable(r: Request) {
    && PrintableHead(r) && !FlagsOf(NO_FLAGS, r.headers).upgrade
    && match r.content
       case Sized(payload) =>
         !FlagsOf(NO_FLAGS, r.headers).chunked
         && |payload| == if LengthAnnounced(r) == NO_LENGTH then 0 else LengthAnnounced(r)
       case Chunked(chunks, trailer) =>
         && FlagsOf(NO_FLAGS, r.headers).chunked
         && (forall i :: 0 <= i < |chunks| ==> 0 < |chunks[i]| < NO_LENGTH)
         && (forall i :: 0 <= i < |trailer| ==> WellFormed(trailer[i])) && |Lines(trailer)| + 2 <= MAX_HEADER_SIZE
  }

  function RequestLine(r: Request): bytes
    requires 1 <= r.major <= 9 && r.minor <= 9
  {
    MethodBytes(r.meth) + [SPACE] + r.url + [SPACE] + VersionLine(r.major, r.minor)
  }

  function Head(r: Request): bytes
    requires 1 <= r.major <= 9 && r.minor <= 9
  {
    RequestLine(r) + Lines(r.headers) + CRLF
  }

  function ContentBytes(c: Content): bytes {
    match c
    case Sized(payload) => payload
    case Chunked(chunks, trailer) => ChunkedBody(chunks, trailer)
  }

  /** What the callbacks are to be told of the content: its bytes, however it is framed, and the trailer. */
  function ContentEvents(c: Content): seq<Event> {
    match c
    case Sized(payload) => DataRun(Body, payload) + [MessageComplete]
    case Chunked(chunks, trailer) => DataRun(Body, Concat(chunks)) + (LinesEvents(trailer) + [MessageComplete])
  }

  /** The parser after the request line. */
  function LineDone(f: Fields, r: Request): Fields
    requires 1 <= r.major <= 9 && r.minor <= 9
  {
    f.(state := FieldStart, meth := r.meth, index := |MethodString(r.meth)| + 1, flags := NO_FLAGS, length := NO_LENGTH,
       major := r.major, minor := r.minor, nread := f.nread + |RequestLine(r)|)
  }

  lemma ReadRequestLine(f: Fields, r: Request)
    requires f.errno == OK && f.state == StartReq && PrintableHead(r) && f.nread + |RequestLine(r)| <= MAX_HEADER_SIZE
    ensures Parse(f, RequestLine(r)) == Pass(Done, LineDone(f, r), Datum(Url, r.url))
  {
    hide Parse, MethodString, DataRun, IsTarget, WellFormed, LengthOf, FlagsOf, VersionLine, MethodBytes;
    var m, v, told := MethodBytes(r.meth), VersionLine(r.major, r.minor), DataRun(Url, r.url);
    ReadMethod(f, r.meth);
    var f1 := MethodDone(f, r.meth);
    var f2 := ReadUrl(f1, r.url);
    ThenQuiet(f, m + [SPACE], r.url, f1, Pass(Done, f2, told));
    UrlBlank(f2);
    var f3 := f2.(state := HttpStart, nread := f2.nread + 1);
    ParseSplit(f, m + [SPACE] + r.url, [SPACE]);
    ReadVersion(f3, r.major, r.minor, 10);
    assert v[..10] == v;
    var f4 := VersionRead(f3, r.major, r.minor, 10);
    QuietThen(f, m + [SPACE] + r.url + [SPACE], v, Pass(Done, f3, Datum(Url, r.url)), f4);
    assert f4 == LineDone(f, r);
  }

  lemma {:induction false} FlagsOrdinary(flags: Flags, hs: seq<Header>)
    ensures FlagsOf(flags, hs).trailing == flags.trailing
    decreases |hs|
  {
    hide FlagsAfter;
    if hs != [] {
      FlagInTrailer(flags, hs[0]);
      FlagsOrdinary(FlagsAfter(flags, hs[0]), hs[1..]);
    }
  }

  /** What the parser knows when the headers are over, before it decides how to go on. */
  predicate HeadRead(f: Fields, r: Request, g: Fields) {
    && 1 <= r.major <= 9 && r.minor <= 9
    && Ordinary(g) && g.nread == f.nread + |Head(r)| && g.length == LengthAnnounced(r)
    && g.flags == FlagsOf(NO_FLAGS, r.headers) && g.major == r.major && g.minor == r.minor && g.meth == r.meth
  }

  lemma ReadHead(f: Fields, r: Request) returns (g: Fields)
    requires f.errno == OK && f.state == StartReq && PrintableHead(r) && f.nread + |Head(r)| <= MAX_HEADER_SIZE
    ensures HeadRead(f, r, g)
    ensures Parse(f, Head(r)) ==
            Pass(HeadersEnd(g).kind, HeadersEnd(g).f, Datum(Url, r.url) + LinesEvents(r.headers) + HeadersEnd(g).events)
  {
    hide Parse, MethodString, DataRun, IsTarget, WellFormed, LengthOf, FlagsOf, Lines, LinesEvents, RequestLine, HeadersEnd;
    ReadRequestLine(f, r);
    var f1 := LineDone(f, r);
    var f2 := ReadLines(f1, r.headers);
    FlagsOrdinary(NO_FLAGS, r.headers);
    ReadHeadersEnd(f2);
    g := f2.(nread := f2.nread + 2, state := HeadersAlmostDone);
    ParseSplit(f, RequestLine(r), Lines(r.headers));
    ParseSplit(f, RequestLine(r) + Lines(r.headers), CRLF);
  }

  /** What all header lines of a request say, those of a trailer included. */
  function FinalFlags(r: Request): Flags {
    match r.content
    case Sized(_) => FlagsOf(NO_FLAGS, r.headers)
    case Chunked(_, trailer) => FlagsOf(FlagsOf(NO_FLAGS, r.headers), trailer)
  }

  /** Whether the connection stays open after a request: by default from 1.1 on, on demand before. */
  predicate KeepsAlive(r: Request) {
    if r.minor > 0 then !FinalFlags(r).close else FinalFlags(r).keepAlive
  }

  lemma {:induction false} LengthFits(length: nat, hs: seq<Header>)
    requires length <= NO_LENGTH && forall i :: 0 <= i < |hs| ==> WellFormed(hs[i])
    ensures LengthOf(length, hs) <= NO_LENGTH
    decreases |hs|
  {
    if hs != [] {
      assert WellFormed(hs[0]);
      LengthFits(LengthAfter(length, hs[0]), hs[1..]);
    }
  }

  /** How a message is over: without an error, and by what its version and flags say. */
  predicate OverWith(h: Fields, g: Fields) {
    h.errno == OK && h.state == NewMessage(g)
  }

  lemma ReadChunks(g: Fields, chunks: seq<bytes>, trailer: seq<Header>) returns (h: Fields)
    requires Ordinary(g) && !AsksUpgrade(g) && g.flags.chunked && forall i :: 0 <= i < |chunks| ==> 0 < |chunks[i]| < NO_LENGTH
    requires (forall i :: 0 <= i < |trailer| ==> WellFormed(trailer[i])) && |Lines(trailer)| + 2 <= MAX_HEADER_SIZE
    ensures Then(HeadersEnd(g), Parse(HeadersEnd(g).f, ChunkedBody(chunks, trailer))) ==
            Pass(Done, h, [HeadersComplete(g.nread, g.length)] + ContentEvents(Chunked(chunks, trailer)))
    ensures OverWith(h, g.(flags := FlagsOf(g.flags, trailer)))
  {
    hide Parse, DataRun, ChunkedBody, Concat, WellFormed, Lines, LinesEvents, FlagsOf;
    h := ChunkedRoundTrip(HeadersEnd(g).f, chunks, trailer);
  }

  lemma ReadSized(g: Fields, payload: bytes) returns (h: Fields)
    requires Ordinary(g) && !AsksUpgrade(g) && !g.flags.chunked && g.length <= NO_LENGTH
    requires |payload| == if g.length == NO_LENGTH then 0 else g.length
    ensures Then(HeadersEnd(g), Parse(HeadersEnd(g).f, payload)) ==
            Pass(Done, h, [HeadersComplete(g.nread, g.length)] + (DataRun(Body, payload) + [MessageComplete]))
    ensures OverWith(h, g)
  {
    hide Parse;
    var p := HeadersEnd(g);
    if payload == [] {
      ParseNone(p.f);
      NoBytes();
      h := p.f;
      hide DataRun;
    } else {
      BodyBytes(p.f, payload);
      hide DataRun;
      h := BodyRead(p.f, payload).f;
    }
  }

  /** The content of a request, after its headers. */
  lemma ReadContent(f: Fields, r: Request, g: Fields) returns (h: Fields)
    requires Printable(r) && HeadRead(f, r, g)
    ensures Then(HeadersEnd(g), Parse(HeadersEnd(g).f, ContentBytes(r.content))) ==
            Pass(Done, h, [HeadersComplete(g.nread, g.length)] + ContentEvents(r.content))
    ensures h.errno == OK && h.state == if KeepsAlive(r) then StartReq else Dead
  {
    hide Parse, DataRun, IsTarget, WellFormed, LengthOf, FlagsOf, Head, ChunkedBody, HeadersEnd, Lines, LinesEvents;
    match r.content
    case Chunked(chunks, trailer) =>
      h := ReadChunks(g, chunks, trailer);
    case Sized(payload) =>
      LengthFits(NO_LENGTH, r.headers);
      h := ReadSized(g, payload);
  }

  lemma NoBytes()
    ensures DataRun(Body, []) == []
  {
  }

  /** A head and what follows it. */
  lemma GoOn(f: Fields, a: bytes, b: bytes, told: seq<Event>, p: Pass, h: Fields, more: seq<Event>)
    requires p.kind == Done && Parse(f, a) == Pass(Done, p.f, told + p.events)
    requires Then(p, Parse(p.f, b)) == Pass(Done, h, more)
    ensures Parse(f, a + b) == Pass(Done, h, told + more)
  {
    ParseSplit(f, a, b);
    hide Parse;
    var q := Parse(p.f, b);
    assert (told + p.events) + q.events == told + (p.events + q.events);
  }

  /** What the callbacks are to be told of a request: its url, each name and each value by one call, and so on in order. */
  function RequestEvents(nread: nat, r: Request): seq<Event> {
    Datum(Url, r.url) + LinesEvents(r.headers) + ([HeadersComplete(nread, LengthAnnounced(r))] + ContentEvents(r.content))
  }

  /**
   * A request printed in the grammar is taken apart again: the callbacks are told its url, every
   * header name and value in order, the end of the headers, its content byte by byte, the lines of
   * the trailer, and the end of the message, once. The parser is then ready for the next request, or closed.
   */
  lemma RequestRoundTrip(f: Fields, r: Request) returns (h: Fields)
    requires f.errno == OK && f.state == StartReq && Printable(r) && f.nread + |Head(r)| <= MAX_HEADER_SIZE
    ensures Parse(f, Head(r) + ContentBytes(r.content)) == Pass(Done, h, RequestEvents(f.nread + |Head(r)|, r))
    ensures h.errno == OK && h.state == if KeepsAlive(r) then StartReq else Dead
  {
    hide Parse, DataRun, PrintableHead, Head, LinesEvents, LengthAnnounced, ContentEvents, ContentBytes, KeepsAlive, HeadersEnd;
    var g := ReadHead(f, r);
    EndIsQuiet(g);
    h := ReadContent(f, r, g);
    GoOn(f, Head(r), ContentBytes(r.content), Datum(Url, r.url) + LinesEvents(r.headers), HeadersEnd(g), h,
         [HeadersComplete(g.nread, g.length)] + ContentEvents(r.content));
  }

  /**
   * A request that asks for another protocol, as a WebSocket handshake does, is taken apart up to the
   * end of its headers; the message is complete there, and the parser leaves whatever follows alone.
   */
  lemma UpgradeRoundTrip(f: Fields, r: Request, rest: bytes) returns (h: Fields)
    requires f.errno == OK && f.state == StartReq && PrintableHead(r) && FlagsOf(NO_FLAGS, r.headers).upgrade
    requires f.nread + |Head(r)| <= MAX_HEADER_SIZE
    ensures Parse(f, Head(r) + rest) ==
            Pass(Stop, h, Datum(Url, r.url) + LinesEvents(r.headers)
                          + [HeadersComplete(f.nread + |Head(r)|, LengthAnnounced(r)), MessageComplete])
    ensures h.errno == OK && h.upgrade
  {
    hide Parse, DataRun, Head, LinesEvents, LengthAnnounced, FlagsOf, PrintableHead;
    var g := ReadHead(f, r);
    h := HeadersEnd(g).f;
    ParseSplit(f, Head(r), rest);
  }

  // ---------------------------------------------------------------- one call, and what it tells apart

  /** One call of a fresh parser on a printed request: whatever ParseHttpContent ends with, exactly these events were told. */
  lemma RequestInOneCall(r: Request, f: Fields, told: seq<Event>)
    requires Printable(r) && |Head(r)| <= MAX_HEADER_SIZE
    requires Ended(Parse(INIT, Head(r) + ContentBytes(r.content)), [], f, told)
    ensures told == RequestEvents(|Head(r)|, r) && f.errno == OK
  {
    hide *;
    FreshParser();
    PrintableVersion(r);
    var h := RequestRoundTrip(INIT, r);
    EndedDone(Parse(INIT, Head(r) + ContentBytes(r.content)), f, told);
  }

  lemma PrintableVersion(r: Request)
    requires Printable(r)
    ensures 1 <= r.major <= 9 && r.minor <= 9
  {
  }

  lemma FreshParser()
    ensures INIT.errno == OK && INIT.state == StartReq && INIT.nread == 0
  {
  }

  lemma EndedDone(p: Pass, f: Fields, told: seq<Event>)
    requires Ended(p, [], f, told) && p.kind == Done
    ensures f == p.f && told == p.events
  {
    assert [] + p.events == p.events;
  }

  /** The call of the callback ends a datum, so equal events begin with equal data. */
  lemma DatumSplit(c: Channel, s: bytes, s': bytes, a: seq<Event>, b: seq<Event>)
    requires Datum(c, s) + a == Datum(c, s') + b
    ensures s == s' && a == b
  {
    var x, y := Datum(c, s) + a, Datum(c, s') + b;
    assert x[|s|] == Called(c) && y[|s'|] == Called(c);
    assert forall i :: 0 <= i < |s| ==> x[i] == Data(c, s[i]);
    assert forall i :: 0 <= i < |s'| ==> y[i] == Data(c, s'[i]);
    assert |s| == |s'|;
    forall i | 0 <= i < |s| ensures s[i] == s'[i] {
      assert x[i] == y[i];
    }
    assert a == x[|s| + 1..] && b == y[|s'| + 1..];
  }

  lemma LineSplit(h: Header, h': Header, a: seq<Event>, b: seq<Event>)
    requires HeaderEvents(h) + a == HeaderEvents(h') + b
    ensures h == h' && a == b
  {
    hide Datum;
    assert HeaderEvents(h) + a == Datum(Name, h.name) + (Datum(Text, h.text) + a);
    assert HeaderEvents(h') + b == Datum(Name, h'.name) + (Datum(Text, h'.text) + b);
    DatumSplit(Name, h.name, h'.name, Datum(Text, h.text) + a, Datum(Text, h'.text) + b);
    DatumSplit(Text, h.text, h'.text, a, b);
  }

  lemma LineBegins(h: Header, a: seq<Event>)
    ensures HeaderEvents(h) + a != [] && !(HeaderEvents(h) + a)[0].HeadersComplete?
  {
    assert Datum(Name, h.name)[0] == if h.name == [] then Called(Name) else Data(Name, h.name[0]);
  }

  lemma {:induction false} LinesSplit(hs: seq<Header>, hs': seq<Header>, a: seq<Event>, b: seq<Event>)
    requires a != [] && a[0].HeadersComplete? && b != [] && b[0].HeadersComplete?
    requires LinesEvents(hs) + a == LinesEvents(hs') + b
    ensures hs == hs' && a == b
  {
    hide HeaderEvents;
    assert hs == [] ==> LinesEvents(hs) + a == a;
    assert hs' == [] ==> LinesEvents(hs') + b == b;
    if hs != [] {
      assert LinesEvents(hs) + a == HeaderEvents(hs[0]) + (LinesEvents(hs[1..]) + a);
      LineBegins(hs[0], LinesEvents(hs[1..]) + a);
    }
    if hs' != [] {
      assert LinesEvents(hs') + b == HeaderEvents(hs'[0]) + (LinesEvents(hs'[1..]) + b);
      LineBegins(hs'[0], LinesEvents(hs'[1..]) + b);
    }
    if hs != [] && hs' != [] {
      LineSplit(hs[0], hs'[0], LinesEvents(hs[1..]) + a, LinesEvents(hs'[1..]) + b);
      LinesSplit(hs[1..], hs'[1..], a, b);
      assert hs == [hs[0]] + hs[1..] && hs' == [hs'[0]] + hs'[1..];
    }
  }

  /** What the callbacks are told tells requests apart: their targets, their headers line by line, and their contents. */
  lemma ToldApart(n: nat, r: Request, n': nat, r': Request)
    requires RequestEvents(n, r) == RequestEvents(n', r')
    ensures n == n' && r.url == r'.url && r.headers == r'.headers && ContentEvents(r.content) == ContentEvents(r'.content)
  {
    hide Datum, LinesEvents, ContentEvents, LengthAnnounced;
    var a := [HeadersComplete(n, LengthAnnounced(r))] + ContentEvents(r.content);
    var b := [HeadersComplete(n', LengthAnnounced(r'))] + ContentEvents(r'.content);
    assert RequestEvents(n, r) == Datum(Url, r.url) + (LinesEvents(r.headers) + a);
    assert RequestEvents(n', r') == Datum(Url, r'.url) + (LinesEvents(r'.headers) + b);
    DatumSplit(Url, r.url, r'.url, LinesEvents(r.headers) + a, LinesEvents(r'.headers) + b);
    LinesSplit(r.headers, r'.headers, a, b);
    assert a[0] == b[0] && a[1..] == ContentEvents(r.content) && b[1..] == ContentEvents(r'.content);
  }
}
