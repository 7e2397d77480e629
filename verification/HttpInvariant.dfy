/**
 * What every run of the HTTP parser keeps, so that no assertion of http_parser.cc ever fails:
 * the header states, the indices into the names it matches, the body counters.
 */
module HttpInvariant {
  import opened Bytes
  import opened HttpParser

  /** How far the index may have come while a header name is matched. */
  function NameLimit(h: HeaderState): nat {
    match h
    case SawC => 1
    case SawCO => 2
    case SawCON => 3
    case MatchingConnection => 10
    case MatchingProxyConnection => 16
    case MatchingContentLength => 14
    case MatchingTransferEncoding => 17
    case MatchingUpgrade => 7
    case _ => 0
  }

  /** The header states of a header name. */
  predicate NameState(h: HeaderState, index: nat) {
    || h.General? || h.Connection? || h.ContentLength? || h.TransferEncoding? || h.Upgrade?
    || index < NameLimit(h)
  }

  function TextLimit(h: HeaderState): nat {
    match h
    case MatchingChunked => 7
    case MatchingKeepAlive => 10
    case MatchingClose => 5
    case _ => 0
  }

  /** The header states of a header value. */
  predicate TextState(h: HeaderState, index: nat) {
    || h.General? || h.ContentLength? || h.ValueChunked? || h.ValueKeepAlive? || h.ValueClose?
    || index < TextLimit(h)
  }

  predicate Sane(f: Fields) {
    && f.errno == OK && f.length <= NO_LENGTH
    && (f.state == ReqMethod ==> 1 <= f.index <= |MethodString(f.meth)|)
    && (f.state == Field ==> NameState(f.header, f.index))
    && (f.state == Value ==> TextState(f.header, f.index))
    && (IsChunkState(f.state) ==> f.flags.chunked)
    && (f.state == ChunkSize || f.state == ChunkParameters || f.state == ChunkSizeAlmostDone ==> f.length < NO_LENGTH)
    && (f.state == ChunkData || f.state == BodyIdentity ==> 0 < f.length < NO_LENGTH)
    && (f.state == ChunkDataAlmostDone ==> f.length == 0)
  }

  /** A parser between two bytes. */
  predicate Ready(f: Fields) {
    && Sane(f) && f.state != HeadersDone && f.state != MessageDone
    && (f.state == ChunkSizeStart ==> f.nread == 0) && f.nread <= MAX_HEADER_SIZE
  }

  /** A parser about to execute a byte, or to execute it again. */
  predicate Inside(f: Fields) {
    Sane(f) && (f.state == ChunkSizeStart ==> f.nread == 1) && f.nread <= MAX_HEADER_SIZE
  }

  predicate Kept(p: Pass) {
    match p.kind
    case Done => Ready(p.f)
    case Stop => Ready(p.f)
    case Again => Inside(p.f) && p.f.state != ChunkSizeStart
    case Fail => p.f.errno != OK
    case Broken => false
  }

  /** States that ask for nothing special. */
  predicate IsPlain(s: State) {
    && !s.ReqMethod? && !s.Field? && !s.Value? && !IsChunkState(s) && !s.BodyIdentity? && !s.HeadersDone?
    && !s.MessageDone?
  }

  /** What holds in every state. */
  predicate Bounded(f: Fields) {
    f.errno == OK && f.length <= NO_LENGTH && f.nread <= MAX_HEADER_SIZE
  }

  lemma InsideBounded(f: Fields)
    requires Inside(f)
    ensures Bounded(f)
  {
  }

  lemma PlainKeeps(p: Pass)
    requires (p.kind == Done && Bounded(p.f) && IsPlain(p.f.state)) || (p.kind == Fail && p.f.errno != OK)
    ensures Kept(p)
  {
  }

  lemma StartKeeps(f: Fields, ch: byte)
    requires Bounded(f) && f.state == StartReq
    ensures Kept(OnStart(f, ch))
  {
    hide IsAlpha, Kept;
    var p := OnStart(f, ch);
    if p.kind == Fail || p.f.state == StartReq {
      PlainKeeps(p);
    } else {
      assert FirstMethod(ch).Some? && p.f.meth == FirstMethod(ch).value;
      MethodKept(p);
    }
  }

  lemma MethodKept(p: Pass)
    requires p.kind == Done && Bounded(p.f) && p.f.state == ReqMethod && 1 <= p.f.index <= |MethodString(p.f.meth)|
    ensures Kept(p)
  {
    hide MethodString;
  }

  lemma MethodKeeps(f: Fields, ch: byte)
    requires Inside(f) && f.state == ReqMethod
    ensures Kept(OnMethod(f, ch))
  {
    var p, matcher := OnMethod(f, ch), MethodString(f.meth);
    assert Bounded(f) && 1 <= f.index <= |matcher|;
    if Redirect(f.meth, f.index, ch).Some? {
      RedirectFits(f.meth, f.index, ch);
    }
    hide Kept, MethodString, Redirect;
    if p.kind == Fail || p.f.state == SpacesBeforeUrl {
      PlainKeeps(p);
    } else {
      MethodKept(p);
    }
  }

  /** The method that takes over is long enough for the letters read so far. */
  lemma RedirectFits(m: Method, index: nat, ch: byte)
    requires Redirect(m, index, ch).Some?
    ensures index + 1 <= |MethodString(Redirect(m, index, ch).value)|
  {
  }

  lemma UrlKeeps(f: Fields, ch: byte)
    requires Bounded(f) && (f.state == SpacesBeforeUrl || IsUrlState(f.state))
    ensures Kept(OnUrl(f, ch))
  {
    UrlCharKeeps(f, if f.meth == CONNECT then ServerStart else SpacesBeforeUrl, ch);
    UrlCharKeeps(f, f.state, ch);
    var p := OnUrl(f, ch);
    hide ParseUrlChar, UrlChar, Kept, IsUrlState;
    if p != UrlChar(f, f.state, ch) && p != UrlChar(f, if f.meth == CONNECT then ServerStart else SpacesBeforeUrl, ch) {
      PlainKeeps(p);
    }
  }

  lemma UrlCharKeeps(f: Fields, s: State, ch: byte)
    requires Bounded(f)
    ensures Kept(UrlChar(f, s, ch))
  {
    UrlCharStates(s, ch);
    hide ParseUrlChar, Kept;
    PlainKeeps(UrlChar(f, s, ch));
  }

  lemma UrlCharStates(s: State, ch: byte)
    ensures ParseUrlChar(s, ch) == Dead || IsUrlState(ParseUrlChar(s, ch))
  {
    hide IsAlpha, IsUrlChar, IsUserinfoChar;
  }

  lemma VersionKeeps(f: Fields, ch: byte)
    requires Bounded(f) && IsVersionState(f.state)
    ensures Kept(OnVersion(f, ch))
  {
    hide Kept;
    PlainKeeps(OnVersion(f, ch));
  }

  lemma NameKept(p: Pass)
    requires p.kind == Done && Bounded(p.f) && p.f.state == Field && NameState(p.f.header, p.f.index)
    ensures Kept(p)
  {
    hide NameState;
  }

  lemma FieldStartKeeps(f: Fields, ch: byte)
    requires Bounded(f) && f.state == FieldStart
    ensures Kept(OnFieldStart(f, ch))
  {
    hide Token;
    var p := OnFieldStart(f, ch);
    if p.kind == Again {
      assert Inside(p.f);
    } else if p.f.state == Field {
      assert NameState(p.f.header, p.f.index);
      NameKept(p);
    } else {
      PlainKeeps(p);
    }
    hide Kept;
  }

  /** The index never leaves the name being matched. */
  lemma MatchNameKeeps(h: HeaderState, index: nat, c: byte)
    requires NameState(h, index)
    ensures var i := if Counts(h) then (index + 1) % 256 else index;
            MatchName(h, i, c).Some? && NameState(MatchName(h, i, c).value, i)
  {
  }

  lemma NameCharKeeps(f: Fields, ch: byte)
    requires Bounded(f) && NameState(f.header, f.index) && Token(ch) != 0
    ensures Kept(OnField(f, ch))
  {
    MatchNameKeeps(f.header, f.index, Token(ch));
    hide Token, NameState, MatchName, Kept;
    var i := if Counts(f.header) then (f.index + 1) % 256 else f.index;
    var g := f.(index := i, header := MatchName(f.header, i, Token(ch)).value, state := Field);
    assert OnField(f, ch) == Pass(Done, g, []);
    hide OnField, Counts;
    NameKept(Pass(Done, g, []));
  }

  lemma NameEndKeeps(f: Fields, ch: byte)
    requires Bounded(f) && Token(ch) == 0
    ensures Kept(OnField(f, ch))
  {
    hide Token, MatchName, Kept, Counts;
    PlainKeeps(OnField(f, ch));
  }

  lemma FieldKeeps(f: Fields, ch: byte)
    requires Inside(f) && f.state == Field
    ensures Kept(OnField(f, ch))
  {
    hide OnField, Token, Kept;
    InsideBounded(f);
    if Token(ch) != 0 {
      NameCharKeeps(f, ch);
    } else {
      NameEndKeeps(f, ch);
    }
  }

  lemma TextKept(p: Pass)
    requires p.kind == Done && Bounded(p.f) && p.f.state == Value && TextState(p.f.header, p.f.index)
    ensures Kept(p)
  {
    hide TextState;
  }

  lemma ValueStartKeeps(f: Fields, ch: byte)
    requires Bounded(f) && f.state == ValueStart
    ensures Kept(OnValueStart(f, ch))
  {
    hide Lower;
    var p := OnValueStart(f, ch);
    if p.kind == Done && p.f.state == Value {
      assert TextState(p.f.header, p.f.index);
      hide Kept;
      TextKept(p);
    } else {
      hide Kept;
      PlainKeeps(p);
    }
  }

  lemma MatchTextKeeps(h: HeaderState, index: nat, c: byte)
    requires index < TextLimit(h)
    ensures (index + 1) % 256 == index + 1
    ensures TextState(Match("chunked", index + 1, c, h, ValueChunked), index + 1) || h != MatchingChunked
    ensures TextState(Match("keep-alive", index + 1, c, h, ValueKeepAlive), index + 1) || h != MatchingKeepAlive
    ensures TextState(Match("close", index + 1, c, h, ValueClose), index + 1) || h != MatchingClose
  {
  }

  lemma ValueMatchKeeps(f: Fields, ch: byte)
    requires Bounded(f) && f.state == Value && TextState(f.header, f.index) && ch != CR && ch != LF
    requires f.header.MatchingChunked? || f.header.MatchingKeepAlive? || f.header.MatchingClose?
    ensures Kept(OnValue(f, ch))
  {
    MatchTextKeeps(f.header, f.index, Lower(ch));
    hide Lower, Match, Kept;
    var p := OnValue(f, ch);
    assert p.kind == Done && p.f.state == Value && TextState(p.f.header, p.f.index) && Bounded(p.f);
    hide OnValue, TextState, Bounded;
    TextKept(p);
  }

  lemma ValueOtherKeeps(f: Fields, ch: byte)
    requires Bounded(f) && f.state == Value && TextState(f.header, f.index)
    requires !f.header.MatchingChunked? && !f.header.MatchingKeepAlive? && !f.header.MatchingClose?
    ensures Kept(OnValue(f, ch))
  {
    hide Lower, Match, Kept, MoreLength;
    var p := OnValue(f, ch);
    assert f.header.ContentLength? && IsDigit(ch) && MoreLength(f.length, 10, ch - ZERO).Some? ==>
        MoreLength(f.length, 10, ch - ZERO).value <= NO_LENGTH by {
      MoreLengthFits(f.length, 10, ch - ZERO);
    }
    if p.kind == Again {
      AgainPlain(p);
    } else if p.kind == Done && p.f.state == Value {
      assert TextState(p.f.header, p.f.index) && Bounded(p.f);
      hide OnValue, TextState, Bounded;
      TextKept(p);
    } else {
      PlainKeeps(p);
    }
  }

  lemma MoreLengthFits(length: nat, base: nat, digit: int)
    ensures digit >= 0 && MoreLength(length, base, digit).Some? ==> MoreLength(length, base, digit).value < NO_LENGTH
  {
  }

  lemma ValueKeeps(f: Fields, ch: byte)
    requires Inside(f) && f.state == Value
    ensures Kept(OnValue(f, ch))
  {
    hide Lower, Match, Kept, OnValue;
    InsideBounded(f);
    if f.header.MatchingChunked? || f.header.MatchingKeepAlive? || f.header.MatchingClose? {
      if ch == CR || ch == LF { ValueEndKeeps(f, ch); } else { ValueMatchKeeps(f, ch); }
    } else {
      ValueOtherKeeps(f, ch);
    }
  }

  lemma ValueEndKeeps(f: Fields, ch: byte)
    requires Bounded(f) && f.state == Value && (ch == CR || ch == LF)
    ensures Kept(OnValue(f, ch))
  {
    hide Lower, Match, Kept;
    var p := OnValue(f, ch);
    if ch == CR { PlainKeeps(p); } else { AgainPlain(p); }
  }

  lemma AgainPlain(p: Pass)
    requires p.kind == Again && Bounded(p.f) && IsPlain(p.f.state)
    ensures Kept(p)
  {
  }

  lemma HeaderEndKeeps(f: Fields, ch: byte)
    requires Inside(f)
    requires f.state == HeaderAlmostDone || f.state == ValueLws || f.state == HeadersAlmostDone || f.state == HeadersDone
    ensures Kept(OnHeaderEnd(f, ch))
  {
    hide ShouldKeepAlive;
  }

  lemma ChunkKeeps(f: Fields, ch: byte)
    requires Inside(f) && IsChunkState(f.state)
    ensures Kept(OnChunk(f, ch))
  {
    hide Unhex;
  }

  lemma DeadKeeps(f: Fields, ch: byte)
    requires Bounded(f) && f.state == Dead
    ensures Kept(Switch(f, ch))
  {
    hide OnStart, OnMethod, OnUrl, OnVersion, OnFieldStart, OnField, OnValueStart, OnValue, OnHeaderEnd, OnChunk, OnBody;
    hide Kept, Complete;
    PlainKeeps(Switch(f, ch));
  }

  lemma BodyKeeps(f: Fields, ch: byte)
    requires Inside(f) && f.state == BodyIdentity
    ensures Kept(OnBody(f, ch))
  {
  }

  lemma CompleteKeeps(f: Fields)
    requires Bounded(f)
    ensures Kept(Complete(f))
  {
    hide ShouldKeepAlive, Kept;
    PlainKeeps(Complete(f));
  }

  /** No pass of the switch from a sane parser fails an assertion, and it leaves a sane parser. */
  lemma SwitchKeeps(f: Fields, ch: byte)
    requires Inside(f)
    ensures Kept(Switch(f, ch))
  {
    InsideBounded(f);
    hide OnStart, OnMethod, OnUrl, OnVersion, OnFieldStart, OnField, OnValueStart, OnValue, OnHeaderEnd, OnChunk, OnBody;
    hide Kept, Inside, Bounded, Complete;
    if f.state == StartReq { StartKeeps(f, ch); }
    else if f.state == ReqMethod { MethodKeeps(f, ch); }
    else if f.state == SpacesBeforeUrl || IsUrlState(f.state) { UrlKeeps(f, ch); }
    else if IsVersionState(f.state) { VersionKeeps(f, ch); }
    else if f.state == FieldStart { FieldStartKeeps(f, ch); }
    else if f.state == Field { FieldKeeps(f, ch); }
    else if f.state == ValueStart { ValueStartKeeps(f, ch); }
    else if f.state == Value { ValueKeeps(f, ch); }
    else if IsChunkState(f.state) { ChunkKeeps(f, ch); }
    else if f.state == HeaderAlmostDone || f.state == ValueLws || f.state == HeadersAlmostDone || f.state == HeadersDone {
      HeaderEndKeeps(f, ch);
    } else if f.state == Dead { DeadKeeps(f, ch); }
    else if f.state == BodyIdentity { BodyKeeps(f, ch); }
    else { CompleteKeeps(f); }
  }

  lemma {:induction false} PassesKeep(f: Fields, ch: byte)
    requires Inside(f)
    ensures Kept(Passes(f, ch))
    decreases Rank(f.state)
  {
    SwitchKeeps(f, ch);
    AgainDescends(f, ch);
    if Switch(f, ch).kind == Again {
      PassesKeep(Switch(f, ch).f, ch);
    }
    hide Switch;
  }

  /** From every reachable parser, every byte is executed without a failed assertion. */
  lemma ByteKeeps(f: Fields, ch: byte)
    requires Ready(f)
    ensures Kept(Byte(f, ch))
  {
    hide Passes;
    if !(ParsingHeader(f.state) && f.nread + 1 > MAX_HEADER_SIZE) {
      PassesKeep(Counted(f), ch);
    }
  }

  lemma InitReady()
    ensures Ready(INIT)
  {
  }

  /** Whatever is sent, parsing ends with a ready parser or with an error set, never with a failed assertion. */
  lemma {:induction false} ParseKeeps(f: Fields, data: bytes)
    requires Ready(f)
    ensures Kept(Parse(f, data))
    decreases |data|
  {
    hide Byte;
    if data != [] {
      ParseKeeps(f, data[..|data| - 1]);
      var o := Parse(f, data[..|data| - 1]);
      if o.kind == Done {
        ByteKeeps(o.f, data[|data| - 1]);
      }
    }
  }

  // ---------------------------------------------------------------- leaving for another protocol

  /** The states whose line feed can end the headers. */
  predicate EndsHead(s: State) {
    s == ValueLws || s == FieldStart || s == HeadersAlmostDone
  }

  /** The headers asked for another protocol. */
  predicate AsksUpgrade(f: Fields) {
    f.flags.upgrade || f.meth == CONNECT
  }

  lemma GoesOn(f: Fields, ch: byte)
    requires !EndsHead(f.state) && f.state != HeadersDone
    ensures Switch(f, ch).kind != Stop
    ensures Switch(f, ch).kind == Again ==> Switch(f, ch).f.state == HeaderAlmostDone || Switch(f, ch).f.state == MessageDone
  {
    hide Switch;
    if f.state == Value || f.state == HeaderAlmostDone || f.state == BodyIdentity || f.state == MessageDone {
      DatumEnds(f, ch);
    } else {
      OnceOnly(f, ch);
    }
  }

  lemma OnceOnly(f: Fields, ch: byte)
    requires !EndsHead(f.state) && f.state != HeadersDone && f.state != Value && f.state != HeaderAlmostDone
    requires f.state != BodyIdentity && f.state != MessageDone
    ensures Switch(f, ch).kind != Stop && Switch(f, ch).kind != Again
  {
    hide OnStart, OnMethod, OnUrl, OnVersion, OnFieldStart, OnField, OnValueStart, OnValue, OnHeaderEnd, OnChunk, OnBody;
  }

  lemma DatumEnds(f: Fields, ch: byte)
    requires f.state == Value || f.state == HeaderAlmostDone || f.state == BodyIdentity || f.state == MessageDone
    ensures Switch(f, ch).kind != Stop
    ensures Switch(f, ch).kind == Again ==> Switch(f, ch).f.state == HeaderAlmostDone || Switch(f, ch).f.state == MessageDone
  {
    hide OnStart, OnMethod, OnUrl, OnVersion, OnFieldStart, OnField, OnValueStart, OnValue, OnHeaderEnd, OnChunk, OnBody;
    hide Complete;
    if f.state == Value { ValueEnds(f, ch); }
    else if f.state == HeaderAlmostDone { LineEnds(f, ch); }
    else if f.state == BodyIdentity { BodyEnds(f, ch); }
    else { CompleteEnds(f); }
  }

  lemma ValueEnds(f: Fields, ch: byte)
    requires f.state == Value
    ensures OnValue(f, ch).kind != Stop
    ensures OnValue(f, ch).kind == Again ==> OnValue(f, ch).f.state == HeaderAlmostDone
  {
    hide MoreLength, Match, Lower;
  }

  lemma LineEnds(f: Fields, ch: byte)
    requires f.state == HeaderAlmostDone
    ensures OnHeaderEnd(f, ch).kind != Stop && OnHeaderEnd(f, ch).kind != Again
  {
  }

  lemma BodyEnds(f: Fields, ch: byte)
    requires f.state == BodyIdentity
    ensures OnBody(f, ch).kind != Stop
    ensures OnBody(f, ch).kind == Again ==> OnBody(f, ch).f.state == MessageDone
  {
  }

  lemma CompleteEnds(f: Fields)
    ensures Complete(f).kind == Done
  {
  }

  lemma {:induction false} NeverStops(f: Fields, ch: byte)
    requires !EndsHead(f.state) && f.state != HeadersDone
    ensures Passes(f, ch).kind != Stop
    decreases Rank(f.state)
  {
    GoesOn(f, ch);
    AgainDescends(f, ch);
    hide Switch;
    if Switch(f, ch).kind == Again {
      NeverStops(Switch(f, ch).f, ch);
    }
  }

  lemma HeadPass(f: Fields, ch: byte)
    requires EndsHead(f.state) || f.state == HeadersDone
    ensures var p := Switch(f, ch);
            && (p.kind == Stop <==> f.state == HeadersDone && ch == LF && f.upgrade)
            && (p.kind == Stop || p.kind == Again ==> p.f.flags == f.flags && p.f.meth == f.meth)
            && (p.kind == Again && f.state == ValueLws ==> p.f.state == FieldStart)
            && (p.kind == Again && f.state == FieldStart ==> p.f.state == HeadersAlmostDone)
            && (p.kind == Again && f.state == HeadersAlmostDone ==> p.f.state == HeadersDone && p.f.upgrade == AsksUpgrade(f))
            && (p.kind == Again <==>
                || (f.state == ValueLws && ch != SPACE && ch != TAB) || (f.state == FieldStart && ch == LF)
                || (f.state == HeadersAlmostDone && ch == LF && !f.flags.trailing))
  {
  }

  /** The empty line leaves for another protocol exactly when the headers asked for one. */
  lemma {:induction false} HeadStops(f: Fields, ch: byte)
    requires EndsHead(f.state) || f.state == HeadersDone
    ensures var p := Passes(f, ch);
            && (p.kind == Stop <==>
                ch == LF && if f.state == HeadersDone then f.upgrade else !f.flags.trailing && AsksUpgrade(f))
            && (p.kind == Stop ==> p.f.flags == f.flags && p.f.meth == f.meth)
    decreases Rank(f.state)
  {
    HeadPass(f, ch);
    AgainDescends(f, ch);
    hide Switch;
    if Switch(f, ch).kind == Again {
      HeadStops(Switch(f, ch).f, ch);
    }
  }

  /** For every byte, exactly when the parser stops there. */
  lemma StopsExactly(f: Fields, ch: byte)
    requires Ready(f)
    ensures Byte(f, ch).kind == Stop <==>
            EndsHead(f.state) && ch == LF && f.nread < MAX_HEADER_SIZE && !f.flags.trailing && AsksUpgrade(f)
    ensures Byte(f, ch).kind == Stop ==> AsksUpgrade(Byte(f, ch).f)
  {
    hide Passes;
    if EndsHead(f.state) { HeadStops(Counted(f), ch); } else { NeverStops(Counted(f), ch); }
  }

  /** A parser that stopped had been asked for another protocol: every other input is parsed to its end or to an error. */
  lemma {:induction false} StoppedIsAsked(f: Fields, data: bytes)
    requires Ready(f)
    ensures Parse(f, data).kind == Stop ==> AsksUpgrade(Parse(f, data).f)
    decreases |data|
  {
    hide Byte;
    if data != [] {
      var front := data[..|data| - 1];
      StoppedIsAsked(f, front);
      ParseKeeps(f, front);
      if Parse(f, front).kind == Done {
        StopsExactly(Parse(f, front).f, data[|data| - 1]);
      }
    }
  }
}
