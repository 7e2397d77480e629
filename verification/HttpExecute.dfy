/**
 * http_parser_execute as it runs: marks that remember where a callback's data began, bodies read
 * in bulk, bytes executed again. It does to the parser what Parse says, and tells the callbacks
 * the same, however the input is cut into calls.
 */
module HttpExecute {
  import opened Bytes
  import opened HttpParser
  import opened HttpInvariant

  /** Where the data of each callback began, if it began in this call. */
  datatype Marks = Marks(url: Option<nat>, name: Option<nat>, text: Option<nat>, body: Option<nat>)

  const NO_MARKS := Marks(None, None, None, None)

  function MarkOf(marks: Marks, c: Channel): Option<nat> {
    match c
    case Url => marks.url
    case Name => marks.name
    case Text => marks.text
    case Body => marks.body
  }

  function With(marks: Marks, c: Channel, m: Option<nat>): Marks {
    match c
    case Url => marks.(url := m)
    case Name => marks.(name := m)
    case Text => marks.(text := m)
    case Body => marks.(body := m)
  }

  /** A run of bytes on one channel, as a callback delivers it. */
  function DataRun(c: Channel, s: bytes): (es: seq<Event>)
    ensures |es| == |s| && forall i :: 0 <= i < |s| ==> es[i] == Data(c, s[i])
  {
    seq(|s|, i requires 0 <= i < |s| => Data(c, s[i]))
  }

  /** A whole datum: its bytes, and the call of its callback with them. */
  function Datum(c: Channel, s: bytes): seq<Event> {
    DataRun(c, s) + [Called(c)]
  }

  function RunOf(c: Channel, m: Option<nat>, data: bytes, p: nat): seq<Event>
    requires p <= |data|
  {
    if m.Some? && m.value <= p then DataRun(c, data[m.value..p]) else []
  }

  /** The data marked up to position p and not yet delivered. */
  function Pending(marks: Marks, data: bytes, p: nat): seq<Event>
    requires p <= |data|
  {
    RunOf(Url, marks.url, data, p) + RunOf(Name, marks.name, data, p) + RunOf(Text, marks.text, data, p)
    + RunOf(Body, marks.body, data, p)
  }

  predicate IsBodyState(s: State) {
    s.ChunkData? || s.BodyIdentity?
  }

  /** Which marks are set is read off the state: at most one of them ever is. */
  predicate MarksFit(marks: Marks, s: State, p: nat) {
    && (marks.url.Some? <==> IsUrlState(s)) && (marks.name.Some? <==> s == Field) && (marks.text.Some? <==> s == Value)
    && (marks.body.Some? ==> IsBodyState(s) || s == ChunkDataAlmostDone)
    && (marks.url.Some? ==> marks.url.value <= p) && (marks.name.Some? ==> marks.name.value <= p)
    && (marks.text.Some? ==> marks.text.value <= p) && (marks.body.Some? ==> marks.body.value <= p)
  }

  function Count(m: Option<nat>): nat {
    if m.Some? then 1 else 0
  }

  /** The assertion before the last callbacks. */
  lemma AtMostOneMark(marks: Marks, s: State, p: nat)
    requires MarksFit(marks, s, p)
    ensures Count(marks.url) + Count(marks.name) + Count(marks.text) + Count(marks.body) <= 1
  {
  }

  /** The marks a call starts with: those of the states that continue a datum. */
  function FirstMarks(s: State): Marks {
    Marks(if IsUrlState(s) then Some(0) else None, if s == Field then Some(0) else None,
          if s == Value then Some(0) else None, None)
  }

  // ---------------------------------------------------------------- marks in one pass

  /** MARK in one pass of the switch outside the body states. */
  function Marked(f: Fields, ch: byte): Option<Channel> {
    if f.state == SpacesBeforeUrl && ch != SPACE then Some(Url)
    else if f.state == FieldStart && ch != CR && ch != LF && Token(ch) != 0 then Some(Name)
    else if f.state == ValueStart && ch != SPACE && ch != TAB then Some(Text)
    else None
  }

  /** CALLBACK_DATA in one pass of the switch outside the body states. */
  function Flushed(f: Fields, ch: byte): Option<Channel> {
    if MayEndUrl(f.state) && (ch == SPACE || ch == CR || ch == LF) then Some(Url)
    else if f.state == Field && Token(ch) == 0 then Some(Name)
    else if (f.state == ValueStart || f.state == Value) && (ch == CR || ch == LF) then Some(Text)
    else if f.state == ChunkDataAlmostDone then Some(Body)
    else None
  }

  function MarksAfter(marks: Marks, f: Fields, ch: byte, p: nat): Marks {
    var m1 :=
      match Marked(f, ch)
      case None => marks
      case Some(c) => if MarkOf(marks, c).Some? then marks else With(marks, c, Some(p));
    match Flushed(f, ch)
    case None => m1
    case Some(c) => With(m1, c, None)
  }

  /** What the callbacks of a pass are given. */
  function FlushedData(marks: Marks, f: Fields, ch: byte, data: bytes, p: nat): seq<Event>
    requires p <= |data|
  {
    match Flushed(f, ch)
    case None => []
    case Some(c) => RunOf(c, MarkOf(marks, c), data, p)
  }

  /** Marks and states agree: a mark is set when its states are entered and cleared when they are left. */
  predicate Follows(f: Fields, ch: byte, p: Pass) {
    && (p.kind == Fail ==> p.events == [])
    && (p.kind == Again ==> !IsBodyState(p.f.state))
    && (p.kind == Done || p.kind == Again || p.kind == Stop ==>
      var s, s' := f.state, p.f.state;
      && (IsUrlState(s') <==> (IsUrlState(s) || Marked(f, ch) == Some(Url)) && Flushed(f, ch) != Some(Url))
      && (s' == Field <==> (s == Field || Marked(f, ch) == Some(Name)) && Flushed(f, ch) != Some(Name))
      && (s' == Value <==> (s == Value || Marked(f, ch) == Some(Text)) && Flushed(f, ch) != Some(Text))
      && s' != ChunkDataAlmostDone && (p.kind != Done || p.events != [] ==> ChannelOf(s') == None))
  }

  lemma UrlCharFollows(f: Fields, s: State, ch: byte)
    requires f.state == SpacesBeforeUrl || IsUrlState(f.state)
    requires ch != SPACE && (MayEndUrl(f.state) ==> ch != CR && ch != LF)
    ensures Follows(f, ch, UrlChar(f, s, ch))
  {
    UrlCharStates(s, ch);
    hide ParseUrlChar, Token;
  }

  lemma UrlFollows(f: Fields, ch: byte)
    requires f.state == SpacesBeforeUrl || IsUrlState(f.state)
    ensures Follows(f, ch, OnUrl(f, ch))
  {
    if f.state == SpacesBeforeUrl && ch != SPACE {
      UrlCharFollows(f, if f.meth == CONNECT then ServerStart else SpacesBeforeUrl, ch);
    } else if f.state != SpacesBeforeUrl && ch != SPACE && ch != CR && ch != LF {
      UrlCharFollows(f, f.state, ch);
    } else {
      UrlEndFollows(f, ch);
    }
    hide UrlChar, Follows;
  }

  lemma UrlEndFollows(f: Fields, ch: byte)
    requires f.state == SpacesBeforeUrl || IsUrlState(f.state)
    requires ch == SPACE || (f.state != SpacesBeforeUrl && (ch == CR || ch == LF))
    ensures Follows(f, ch, OnUrl(f, ch))
  {
    hide UrlChar, Token;
  }

  /** States without any mark, before and after. */
  predicate IsQuiet(s: State) {
    ChannelOf(s) == None && s != ChunkDataAlmostDone
  }

  lemma QuietFollows(f: Fields, ch: byte, p: Pass)
    requires Marked(f, ch) == None && !MayEndUrl(f.state) && f.state != Field && f.state != ValueStart && f.state != Value
    requires ChannelOf(f.state) == None && IsQuiet(p.f.state)
    requires (p.kind == Fail ==> p.events == []) && (p.kind == Again ==> !IsBodyState(p.f.state))
    ensures Follows(f, ch, p)
  {
    hide Token;
  }

  lemma StartFollows(f: Fields, ch: byte)
    requires f.state == Dead || f.state == StartReq || f.state == ReqMethod
    ensures Follows(f, ch, Switch(f, ch))
  {
    hide IsAlpha, FirstMethod, Redirect, MethodString, Token, Follows;
    var p := Switch(f, ch);
    assert IsQuiet(p.f.state);
    hide Switch;
    QuietFollows(f, ch, p);
  }

  lemma VersionFollows(f: Fields, ch: byte)
    requires IsVersionState(f.state)
    ensures Follows(f, ch, OnVersion(f, ch))
  {
    hide Follows;
    var p := OnVersion(f, ch);
    assert IsQuiet(p.f.state);
    hide OnVersion;
    QuietFollows(f, ch, p);
  }

  lemma FieldFollows(f: Fields, ch: byte)
    requires f.state == FieldStart || f.state == Field
    ensures Follows(f, ch, if f.state == FieldStart then OnFieldStart(f, ch) else OnField(f, ch))
  {
    hide Follows, OnFieldStart, OnField;
    if f.state == FieldStart { FirstFollows(f, ch); } else { NameFollows(f, ch); }
  }

  lemma FirstFollows(f: Fields, ch: byte)
    requires f.state == FieldStart
    ensures Follows(f, ch, OnFieldStart(f, ch))
  {
    hide Token, MatchName;
    assert !IsUrlState(Field) && !IsUrlState(FieldStart) && !IsUrlState(HeadersAlmostDone);
    hide IsUrlState;
  }

  lemma NameFollows(f: Fields, ch: byte)
    requires f.state == Field
    ensures Follows(f, ch, OnField(f, ch))
  {
    hide Token, MatchName;
    assert !IsUrlState(Field) && !IsUrlState(FieldStart) && !IsUrlState(ValueStart) && !IsUrlState(HeaderAlmostDone);
    hide IsUrlState;
  }

  lemma ValueFollows(f: Fields, ch: byte)
    requires f.state == ValueStart || f.state == Value
    ensures Follows(f, ch, if f.state == ValueStart then OnValueStart(f, ch) else OnValue(f, ch))
  {
    hide Lower, Match, MoreLength, Token;
  }

  lemma HeaderEndFollows(f: Fields, ch: byte)
    requires f.state == HeaderAlmostDone || f.state == ValueLws || f.state == HeadersAlmostDone || f.state == HeadersDone
    ensures Follows(f, ch, OnHeaderEnd(f, ch))
  {
    hide ShouldKeepAlive, Follows, Token;
    var p := OnHeaderEnd(f, ch);
    assert IsQuiet(p.f.state);
    hide OnHeaderEnd;
    QuietFollows(f, ch, p);
  }

  lemma ChunkFollows(f: Fields, ch: byte)
    requires IsChunkState(f.state) && f.state != ChunkData
    ensures Follows(f, ch, OnChunk(f, ch))
  {
    hide Unhex, Follows, Token;
    var p := OnChunk(f, ch);
    if p.kind == Done {
      assert IsQuiet(p.f.state);
      hide OnChunk;
      FollowsQuietly(f, ch, p);
    } else {
      FollowsNot(f, ch, p);
    }
  }

  lemma FollowsQuietly(f: Fields, ch: byte, p: Pass)
    requires IsChunkState(f.state) && IsQuiet(p.f.state) && p.kind == Done
    ensures Follows(f, ch, p)
  {
    hide Token;
  }

  lemma FollowsNot(f: Fields, ch: byte, p: Pass)
    requires (p.kind == Fail && p.events == []) || p.kind == Broken
    ensures Follows(f, ch, p)
  {
  }

  lemma SwitchFollows(f: Fields, ch: byte)
    requires !IsBodyState(f.state)
    ensures Follows(f, ch, Switch(f, ch))
  {
    hide OnStart, OnMethod, OnUrl, OnVersion, OnFieldStart, OnField, OnValueStart, OnValue, OnHeaderEnd, OnChunk, OnBody;
    hide Follows, Complete;
    if f.state == Dead || f.state == StartReq || f.state == ReqMethod { StartFollows(f, ch); }
    else if f.state == SpacesBeforeUrl || IsUrlState(f.state) { UrlFollows(f, ch); }
    else if IsVersionState(f.state) { VersionFollows(f, ch); }
    else if f.state == FieldStart || f.state == Field { FieldFollows(f, ch); }
    else if f.state == ValueStart || f.state == Value { ValueFollows(f, ch); }
    else if IsChunkState(f.state) { ChunkFollows(f, ch); }
    else if f.state == MessageDone { CompleteFollows(f, ch); }
    else { HeaderEndFollows(f, ch); }
  }

  lemma CompleteFollows(f: Fields, ch: byte)
    requires f.state == MessageDone
    ensures Follows(f, ch, Complete(f))
  {
    hide Follows;
    assert IsQuiet(Complete(f).f.state);
    QuietFollows(f, ch, Complete(f));
  }

  /** With at most one mark set, the pending data is what that mark has seen. */
  lemma PendingIs(marks: Marks, s: State, data: bytes, p: nat)
    requires p <= |data| && MarksFit(marks, s, p)
    ensures Pending(marks, data, p) ==
            if IsUrlState(s) then DataRun(Url, data[marks.url.value..p])
            else if s == Field then DataRun(Name, data[marks.name.value..p])
            else if s == Value then DataRun(Text, data[marks.text.value..p])
            else if marks.body.Some? then DataRun(Body, data[marks.body.value..p])
            else []
  {
    hide DataRun;
  }

  lemma RunMore(c: Channel, data: bytes, m: nat, p: nat)
    requires m <= p < |data|
    ensures DataRun(c, data[m..p + 1]) == DataRun(c, data[m..p]) + [Data(c, data[p])]
  {
    assert data[m..p + 1] == data[m..p] + [data[p]];
  }

  lemma RunNone(c: Channel, data: bytes, p: nat)
    requires p <= |data|
    ensures DataRun(c, data[p..p]) == []
  {
  }

  /** Marks after a pass fit the state after it. */
  lemma MarksKeepFit(marks: Marks, f: Fields, ch: byte, p: nat, q: Pass)
    requires MarksFit(marks, f.state, p) && !IsBodyState(f.state) && Follows(f, ch, q)
    requires q.kind == Done || q.kind == Again || q.kind == Stop
    ensures MarksFit(MarksAfter(marks, f, ch, p), q.f.state, p)
    ensures Marked(f, ch).None? || MarkOf(marks, Marked(f, ch).value).None?
  {
    hide Token;
    assert !IsUrlState(SpacesBeforeUrl) && !IsUrlState(FieldStart) && !IsUrlState(ValueStart) && !IsUrlState(Field)
        && !IsUrlState(Value) && !IsUrlState(ChunkDataAlmostDone) && (MayEndUrl(f.state) ==> IsUrlState(f.state));
    hide IsUrlState, MayEndUrl;
  }

  lemma StaysPending(marks: Marks, f: Fields, ch: byte, data: bytes, p: nat, q: Pass)
    requires MarksFit(marks, f.state, p) && !IsBodyState(f.state) && Follows(f, ch, q)
    requires p < |data| && ch == data[p] && (q.kind == Done || q.kind == Again || q.kind == Stop)
    requires ChannelOf(q.f.state).Some?
    ensures q.kind == Done && FlushedData(marks, f, ch, data, p) == []
    ensures Pending(MarksAfter(marks, f, ch, p), data, p + 1) == Pending(marks, data, p) + Told(q.f.state, ch)
  {
    var c, after := ChannelOf(q.f.state).value, MarksAfter(marks, f, ch, p);
    MarksKeepFit(marks, f, ch, p, q);
    StillMarked(marks, f, ch, p, q, c);
    hide MarksAfter, Follows;
    PendingOn(after, q.f.state, data, p + 1, c);
    if ChannelOf(f.state) == Some(c) {
      PendingOn(marks, f.state, data, p, c);
      hide MarksFit, Pending, DataRun;
      RunMore(c, data, MarkOf(after, c).value, p);
    } else {
      NothingPending(marks, f.state, data, p);
      hide MarksFit, Pending, DataRun;
      RunMore(c, data, p, p);
      RunNone(c, data, p);
    }
  }

  lemma PendingOn(marks: Marks, s: State, data: bytes, p: nat, c: Channel)
    requires p <= |data| && MarksFit(marks, s, p) && ChannelOf(s) == Some(c)
    ensures MarkOf(marks, c).Some? && MarkOf(marks, c).value <= p
    ensures Pending(marks, data, p) == DataRun(c, data[MarkOf(marks, c).value..p])
  {
    PendingIs(marks, s, data, p);
    hide Pending, DataRun;
  }

  lemma AllFlushed(marks: Marks, f: Fields, ch: byte, data: bytes, p: nat, q: Pass)
    requires MarksFit(marks, f.state, p) && !IsBodyState(f.state) && Follows(f, ch, q)
    requires p < |data| && ch == data[p] && (q.kind == Done || q.kind == Again || q.kind == Stop)
    requires ChannelOf(q.f.state).None?
    ensures FlushedData(marks, f, ch, data, p) == Pending(marks, data, p)
    ensures Pending(MarksAfter(marks, f, ch, p), data, if q.kind == Done then p + 1 else p) == []
    ensures Told(q.f.state, ch) == []
  {
    MarksKeepFit(marks, f, ch, p, q);
    NoBodyMark(marks, f, ch, p);
    hide MarksAfter, Follows;
    NothingPending(MarksAfter(marks, f, ch, p), q.f.state, data, if q.kind == Done then p + 1 else p);
    FlushedAll(marks, f, ch, data, p, q);
    hide MarksFit, Pending, FlushedData;
  }

  lemma NothingPending(marks: Marks, s: State, data: bytes, p: nat)
    requires p <= |data| && MarksFit(marks, s, p) && ChannelOf(s) == None && marks.body == None
    ensures Pending(marks, data, p) == []
  {
    PendingIs(marks, s, data, p);
    hide Pending;
  }

  lemma FlushedAll(marks: Marks, f: Fields, ch: byte, data: bytes, p: nat, q: Pass)
    requires MarksFit(marks, f.state, p) && !IsBodyState(f.state) && Follows(f, ch, q)
    requires p < |data| && (q.kind == Done || q.kind == Again || q.kind == Stop) && ChannelOf(q.f.state).None?
    ensures FlushedData(marks, f, ch, data, p) == Pending(marks, data, p)
  {
    PendingIs(marks, f.state, data, p);
    hide DataRun, Pending, Token;
  }

  lemma NoBodyMark(marks: Marks, f: Fields, ch: byte, p: nat)
    requires MarksFit(marks, f.state, p) && !IsBodyState(f.state)
    ensures MarksAfter(marks, f, ch, p).body == None
  {
    hide Token;
  }

  lemma StillMarked(marks: Marks, f: Fields, ch: byte, p: nat, q: Pass, c: Channel)
    requires MarksFit(marks, f.state, p) && !IsBodyState(f.state) && Follows(f, ch, q) && q.kind == Done
    requires ChannelOf(q.f.state) == Some(c)
    ensures MarkOf(MarksAfter(marks, f, ch, p), c) == if ChannelOf(f.state) == Some(c) then MarkOf(marks, c) else Some(p)
    ensures Flushed(f, ch) == None && (ChannelOf(f.state) == Some(c) || ChannelOf(f.state) == None)
    ensures ChannelOf(f.state) == None ==> marks.body == None
  {
    hide Token;
  }

  /** The same as a sum, with the notifications of the pass in between. */
  lemma PassSums(told: seq<Event>, marks: Marks, f: Fields, ch: byte, data: bytes, p: nat, q: Pass)
    requires MarksFit(marks, f.state, p) && !IsBodyState(f.state) && Follows(f, ch, q)
    requires p < |data| && ch == data[p] && (q.kind == Done || q.kind == Again || q.kind == Stop)
    ensures told + FlushedData(marks, f, ch, data, p) + q.events
            + Pending(MarksAfter(marks, f, ch, p), data, if q.kind == Done then p + 1 else p) ==
            told + Pending(marks, data, p) + q.events + if q.kind == Done then Told(q.f.state, ch) else []
  {
    var x, y, z, w := FlushedData(marks, f, ch, data, p),
                      Pending(MarksAfter(marks, f, ch, p), data, if q.kind == Done then p + 1 else p),
                      Pending(marks, data, p), if q.kind == Done then Told(q.f.state, ch) else [];
    if ChannelOf(q.f.state).Some? {
      StaysPending(marks, f, ch, data, p, q);
      assert q.events == [];
      Sums(told, x, [], y, z, w);
    } else {
      AllFlushed(marks, f, ch, data, p, q);
      Sums(told, x, q.events, y, z, w);
    }
  }

  lemma Sums(t: seq<Event>, x: seq<Event>, e: seq<Event>, y: seq<Event>, z: seq<Event>, w: seq<Event>)
    requires (x == [] && e == [] && y == z + w) || (x == z && y == [] && w == [])
    ensures t + x + e + y == t + z + e + w
  {
    if x == [] && e == [] {
      assert t + z + [] + w == t + (z + w);
    }
  }

  lemma FailSaysNothing(f: Fields, ch: byte, q: Pass, told: seq<Event>, marks: Marks, data: bytes, p: nat)
    requires Follows(f, ch, q) && p <= |data|
    ensures q.kind == Fail ==> told + Pending(marks, data, p) == told + Pending(marks, data, p) + q.events + []
  {
    hide Pending;
  }

  // ---------------------------------------------------------------- bodies in bulk

  /** What a body state makes of as many bytes as are still to come, or fewer. */
  function BodyRead(f: Fields, s: bytes): Pass
    requires |s| <= f.length
  {
    var g := f.(length := f.length - |s|);
    if s == [] || g.length > 0 then Pass(Done, g, DataRun(Body, s))
    else if f.state == ChunkData then Pass(Done, g.(state := ChunkDataAlmostDone), DataRun(Body, s))
    else Pass(Done, g.(state := NewMessage(g)), DataRun(Body, s) + [MessageComplete])
  }

  lemma SwitchBody(f: Fields, ch: byte)
    ensures f.state == BodyIdentity ==> Switch(f, ch) == OnBody(f, ch)
    ensures f.state == ChunkData ==> Switch(f, ch) == OnChunk(f, ch)
    ensures f.state == MessageDone ==> Switch(f, ch) == Complete(f)
  {
    hide *;
    if f.state == BodyIdentity { SwitchIdentity(f, ch); }
    if f.state == ChunkData { SwitchData(f, ch); }
    if f.state == MessageDone { SwitchDone(f, ch); }
  }

  lemma SwitchIdentity(f: Fields, ch: byte)
    requires f.state == BodyIdentity
    ensures Switch(f, ch) == OnBody(f, ch)
  {
    hide OnStart, OnMethod, OnUrl, OnVersion, OnFieldStart, OnField, OnValueStart, OnValue, OnHeaderEnd, OnChunk, OnBody;
    hide Complete, Next, Error;
  }

  lemma SwitchData(f: Fields, ch: byte)
    requires f.state == ChunkData
    ensures Switch(f, ch) == OnChunk(f, ch)
  {
    hide OnStart, OnMethod, OnUrl, OnVersion, OnFieldStart, OnField, OnValueStart, OnValue, OnHeaderEnd, OnChunk, OnBody;
    hide Complete, Next, Error;
  }

  lemma SwitchDone(f: Fields, ch: byte)
    requires f.state == MessageDone
    ensures Switch(f, ch) == Complete(f)
  {
    hide OnStart, OnMethod, OnUrl, OnVersion, OnFieldStart, OnField, OnValueStart, OnValue, OnHeaderEnd, OnChunk, OnBody;
    hide Complete, Next, Error;
  }

  lemma BodyPasses(f: Fields, ch: byte)
    requires IsBodyState(f.state) && 0 < f.length < NO_LENGTH && (f.state == ChunkData ==> f.flags.chunked)
    ensures Passes(f, ch) == BodyRead(f, [ch])
  {
    hide ShouldKeepAlive, Passes, Switch;
    if f.state == BodyIdentity && f.length == 1 {
      LastOfBody(f, ch);
    } else {
      MoreOfBody(f, ch);
    }
  }

  /** A byte of a body that is not its last, or of a chunk. */
  lemma MoreOfBody(f: Fields, ch: byte)
    requires IsBodyState(f.state) && 0 < f.length < NO_LENGTH && (f.state == ChunkData ==> f.flags.chunked)
    requires f.state == BodyIdentity ==> f.length > 1
    ensures Passes(f, ch) == BodyRead(f, [ch])
  {
    SwitchBody(f, ch);
    assert DataRun(Body, [ch]) == [Data(Body, ch)];
    hide Switch, DataRun, ShouldKeepAlive;
    assert Switch(f, ch).kind == Done;
  }

  lemma LastOfBody(f: Fields, ch: byte)
    requires f.state == BodyIdentity && f.length == 1
    ensures Passes(f, ch) == BodyRead(f, [ch])
  {
    var g := f.(length := 0, state := MessageDone);
    LastPasses(f, ch, g);
    assert DataRun(Body, [ch]) == [Data(Body, ch)];
    hide Switch, DataRun, ShouldKeepAlive, Passes;
    assert NewMessage(g) == NewMessage(f.(length := 0));
  }

  lemma LastPasses(f: Fields, ch: byte, g: Fields)
    requires f.state == BodyIdentity && f.length == 1 && g == f.(length := 0, state := MessageDone)
    ensures Passes(f, ch) == Pass(Done, g.(state := NewMessage(g)), [Data(Body, ch)] + [MessageComplete])
  {
    SwitchBody(f, ch);
    SwitchBody(g, ch);
    assert OnBody(f, ch) == Pass(Again, g, [Data(Body, ch)]);
    hide Switch, OnBody, NewMessage;
    assert Passes(g, ch) == Complete(g);
  }


  lemma BodyByte(f: Fields, ch: byte)
    requires f.errno == OK && IsBodyState(f.state) && 0 < f.length < NO_LENGTH && (f.state == ChunkData ==> f.flags.chunked)
    ensures Byte(f, ch) == BodyRead(f, [ch])
  {
    BodyPasses(f, ch);
    hide Passes;
    assert ChannelOf(BodyRead(f, [ch]).f.state) == None;
    hide BodyRead;
    var p := Passes(f, ch);
    assert p.events + [] == p.events;
  }

  lemma RunLast(s: bytes)
    requires s != []
    ensures var k := |s| - 1;
            && DataRun(Body, s) == DataRun(Body, s[..k]) + DataRun(Body, [s[k]])
            && DataRun(Body, s) + [MessageComplete] == DataRun(Body, s[..k]) + (DataRun(Body, [s[k]]) + [MessageComplete])
  {
  }

  lemma {:induction false} BodyBytes(f: Fields, s: bytes)
    requires f.errno == OK && IsBodyState(f.state) && |s| <= f.length && 0 < f.length < NO_LENGTH
    requires f.state == ChunkData ==> f.flags.chunked
    ensures Parse(f, s) == BodyRead(f, s)
    decreases |s|
  {
    hide Byte, Parse;
    if s == [] {
      ParseNone(f);
    } else {
      var k := |s| - 1;
      BodyBytes(f, s[..k]);
      assert s == s[..k] + [s[k]];
      ParseStep(f, s[..k], s[k]);
      var g := BodyRead(f, s[..k]).f;
      BodyByte(g, s[k]);
      RunLast(s);
      hide DataRun;
    }
  }

  // ---------------------------------------------------------------- the loop

  /** How many bytes http_parser_execute reports as consumed. */
  function Consumed(f: Fields, data: bytes): nat
    decreases |data|
  {
    if data == [] then 0
    else
      var front := data[..|data| - 1];
      if Parse(f, front).kind != Done then Consumed(f, front)
      else if Parse(f, data).kind == Fail then |front| else |data|
  }

  lemma {:induction false} EndedEarly(f: Fields, data: bytes, k: nat)
    requires k <= |data| && Parse(f, data[..k]).kind != Done
    ensures Parse(f, data) == Parse(f, data[..k]) && Consumed(f, data) == Consumed(f, data[..k])
    decreases |data| - k
  {
    hide Byte;
    if k == |data| {
      assert data[..k] == data;
    } else {
      assert data[..k + 1][..k] == data[..k];
      EndedEarly(f, data, k + 1);
    }
  }

  lemma ConsumedAll(f: Fields, data: bytes)
    requires Parse(f, data).kind == Done
    ensures Consumed(f, data) == |data|
  {
    hide Byte;
  }

  lemma ConsumedStep(f: Fields, data: bytes, p: nat)
    requires p < |data| && Parse(f, data[..p]).kind == Done
    ensures Consumed(f, data[..p + 1]) == if Parse(f, data[..p + 1]).kind == Fail then p else p + 1
  {
    hide Byte;
    assert data[..p + 1][..p] == data[..p];
  }

  /** The parser and its callbacks after the bytes before p; told0 is what they had been told before this call. */
  ghost predicate At(f0: Fields, told0: seq<Event>, data: bytes, p: nat, f: Fields, told: seq<Event>, marks: Marks) {
    && p <= |data| && Ready(f) && MarksFit(marks, f.state, p)
    && var o := Parse(f0, data[..p]);
       o.kind == Done && f == o.f && told0 + o.events == told + Pending(marks, data, p)
  }

  /** How a call ended: everything was told, except that a failing call keeps back the datum it was in. */
  ghost predicate Ended(o: Pass, told0: seq<Event>, f: Fields, told: seq<Event>) {
    && f == o.f
    && told <= told0 + o.events && (o.kind != Fail ==> told == told0 + o.events)
    && forall i :: |told| <= i < |told0 + o.events| ==> (told0 + o.events)[i].Data?
  }

  lemma ParseOne(f: Fields, ch: byte)
    requires f.errno == OK
    ensures Parse(f, [ch]) == Byte(f, ch)
  {
    ParseStep(f, [], ch);
    ParseNone(f);
    assert [] + [ch] == [ch];
    hide Byte, Parse;
    assert [] + Byte(f, ch).events == Byte(f, ch).events;
  }

  /** Advancing over some bytes that do not end the parsing. */
  lemma AtAdvance(f0: Fields, told0: seq<Event>, data: bytes, p: nat, f: Fields, told: seq<Event>, marks: Marks,
                  p': nat, f': Fields, told': seq<Event>, marks': Marks)
    requires At(f0, told0, data, p, f, told, marks) && p <= p' <= |data|
    requires var q := Parse(f, data[p..p']);
             && q.kind == Done && f' == q.f && MarksFit(marks', f'.state, p')
             && told' + Pending(marks', data, p') == told + Pending(marks, data, p) + q.events
    ensures At(f0, told0, data, p', f', told', marks')
  {
    hide Parse, MarksFit, Pending, Ready;
    var o, q := Parse(f0, data[..p]), Parse(f, data[p..p']);
    ParseSplit(f0, data[..p], data[p..p']);
    assert data[..p] + data[p..p'] == data[..p'];
    ParseKeeps(f, data[p..p']);
    SumsOn(told0, o.events, told, Pending(marks, data, p), q.events, told', Pending(marks', data, p'));
  }

  lemma SumsOn(told0: seq<Event>, o: seq<Event>, told: seq<Event>, pending: seq<Event>, q: seq<Event>,
               told': seq<Event>, pending': seq<Event>)
    requires told0 + o == told + pending && told' + pending' == told + pending + q
    ensures told0 + (o + q) == told' + pending'
  {
    assert told0 + (o + q) == (told0 + o) + q;
  }

  /** A byte that ends the parsing ends the call. */
  lemma AtEnd(f0: Fields, told0: seq<Event>, data: bytes, p: nat, f: Fields, told: seq<Event>, marks: Marks,
              q: Pass, told': seq<Event>, marks': Marks)
    requires At(f0, told0, data, p, f, told, marks) && p < |data| && f.errno == OK
    requires q == Byte(f, data[p]) && q.kind != Done && (q.kind != Fail ==> Pending(marks', data, p) == [])
    requires told' + Pending(marks', data, p) == told + Pending(marks, data, p) + q.events
    ensures Ended(Parse(f0, data), told0, q.f, told')
    ensures Consumed(f0, data) == if q.kind == Fail then p else p + 1
  {
    hide Parse, MarksFit, Pending, Ready, Byte, Consumed;
    var o := Parse(f0, data[..p]);
    ParseSplit(f0, data[..p], [data[p]]);
    ParseOne(f, data[p]);
    assert data[..p] + [data[p]] == data[..p + 1];
    EndedEarly(f0, data, p + 1);
    ConsumedStep(f0, data, p);
    PendingIsData(marks', data, p);
    SumsOn(told0, o.events, told, Pending(marks, data, p), q.events, told', Pending(marks', data, p));
    EndedWith(Parse(f0, data), told0, told', Pending(marks', data, p));
  }

  lemma EndedWith(o: Pass, told0: seq<Event>, told: seq<Event>, pending: seq<Event>)
    requires told + pending == told0 + o.events && (o.kind != Fail ==> pending == [])
    requires forall i :: 0 <= i < |pending| ==> pending[i].Data?
    ensures Ended(o, told0, o.f, told)
  {
    var all := told0 + o.events;
    assert all[..|told|] == told;
    forall i | |told| <= i < |all| ensures all[i].Data? {
      assert all[i] == pending[i - |told|];
    }
  }

  lemma PendingIsData(marks: Marks, data: bytes, p: nat)
    requires p <= |data|
    ensures forall i :: 0 <= i < |Pending(marks, data, p)| ==> Pending(marks, data, p)[i].Data?
  {
  }

  /** The end of the input: the last callbacks deliver what is still marked. */
  lemma AtLast(f0: Fields, told0: seq<Event>, data: bytes, f: Fields, told: seq<Event>, marks: Marks)
    requires At(f0, told0, data, |data|, f, told, marks)
    ensures MarksFit(marks, f.state, |data|)
    ensures Ended(Parse(f0, data), told0, f, told + Pending(marks, data, |data|))
    ensures Consumed(f0, data) == |data|
  {
    assert data[..|data|] == data;
    ConsumedAll(f0, data);
    hide Parse, MarksFit, Pending, Ready, Consumed;
  }

  lemma AtStart(f: Fields, told: seq<Event>, data: bytes)
    requires Ready(f)
    ensures At(f, told, data, 0, f, told, FirstMarks(f.state))
  {
    ParseNone(f);
    assert data[..0] == [];
    PendingIs(FirstMarks(f.state), f.state, data, 0);
    hide Parse, Pending, Ready;
  }

  /** The deliveries for byte ch at position p: told and marks turn into told' and marks'. */
  ghost predicate Delivered(told: seq<Event>, marks: Marks, data: bytes, p: nat, events: seq<Event>,
                            told': seq<Event>, marks': Marks, kind: Kind, s': State, ch: byte) {
    && p < |data|
    && told' + Pending(marks', data, if kind == Done then p + 1 else p) ==
       told + Pending(marks, data, p) + events + if kind == Done then Told(s', ch) else []
  }

  class Parser {
    var f: Fields
    /** What the callbacks were told, byte by byte. */
    var told: seq<Event>

    constructor ()
      ensures f == INIT && told == []
    {
      f, told := INIT, [];
    }

    /** CALLBACK_DATA of one pass: the data between the mark, if it is set, and position p. */
    method CallbackData(data: bytes, p: nat, ch: byte, marks: Marks)
      requires p < |data| && MarksFit(marks, f.state, p)
      modifies this`told
      ensures told == old(told) + FlushedData(marks, f, ch, data, p)
    {
      match Flushed(f, ch)
      case None =>
      case Some(c) =>
        var mark := MarkOf(marks, c);
        if mark.Some? {
          told := told + DataRun(c, data[mark.value..p]);
        }
    }

    /** One pass of the switch at position p, outside the states that read bodies. */
    method OnePass(data: bytes, p: nat, ch: byte, marks: Marks) returns (kind: Kind, after: Marks)
      requires p < |data| && ch == data[p] && MarksFit(marks, f.state, p) && !IsBodyState(f.state)
      modifies this
      ensures var q := Switch(old(f), ch);
              && f == q.f && kind == q.kind
              && (kind == Done || kind == Again || kind == Stop ==> MarksFit(after, f.state, p))
              && (kind != Broken ==> Delivered(old(told), marks, data, p, q.events, told, after, kind, f.state, ch))
    {
      var q := Switch(f, ch);
      SwitchFollows(f, ch);
      FailSaysNothing(f, ch, q, told, marks, data, p);
      hide Switch, Pending, MarksFit, Follows, FlushedData, Told, MarksAfter;
      kind, after := q.kind, marks;
      if kind == Done || kind == Again || kind == Stop {
        PassSums(told, marks, f, ch, data, p, q);
        MarksKeepFit(marks, f, ch, p, q);
        CallbackData(data, p, ch, marks);
        after := MarksAfter(marks, f, ch, p);
        told := told + q.events;
      }
      f := q.f;
    }

    /** The passes over one byte that is not part of a body: the code behind the label reexecute_byte. */
    method Reexecute(data: bytes, p: nat, ch: byte, marks: Marks) returns (kind: Kind, after: Marks)
      requires p < |data| && ch == data[p] && MarksFit(marks, f.state, p) && !IsBodyState(f.state) && Inside(f)
      modifies this
      ensures var q := Passes(old(f), ch);
              && f == q.f && kind == q.kind && kind != Broken && kind != Again
              && (kind != Fail ==> MarksFit(after, f.state, p)) && (kind == Stop ==> IsOver(f.state))
              && Delivered(old(told), marks, data, p, q.events, told, after, kind, f.state, ch)
    {
      kind, after := Again, marks;
      ghost var f0, told0, said := f, told, [];
      hide Switch, Pending, MarksFit, Told, Delivered, Inside, Passes, Rank;
      NothingYet(told, marks, data, p, f.state, ch);
      while kind == Again
        invariant kind == Again ==> MarksFit(after, f.state, p) && !IsBodyState(f.state) && Inside(f)
        invariant kind == Again ==> Passes(f0, ch) == Behind(said, Passes(f, ch))
        invariant kind != Again ==> Passes(f0, ch) == Pass(kind, f, said) && kind != Broken
        invariant kind != Again && kind != Fail ==> MarksFit(after, f.state, p)
        invariant kind == Stop ==> IsOver(f.state)
        invariant Delivered(told0, marks, data, p, said, told, after, kind, f.state, ch)
        decreases kind == Again, Rank(f.state)
      {
        ghost var g, t, m := f, told, after;
        PassesUnfold(f, ch, said);
        kind, after := OnePass(data, p, ch, after);
        DeliveredTwice(told0, marks, data, p, said, t, m, g.state, Switch(g, ch).events, told, after, kind, f.state, ch);
        said := said + Switch(g, ch).events;
      }
    }

    /** The cases s_body_identity and s_chunk_data: as many bytes as there are, at once. */
    method ReadBody(data: bytes, p: nat, marks: Marks) returns (p': nat, after: Marks)
      requires p < |data| && MarksFit(marks, f.state, p) && IsBodyState(f.state) && 0 < f.length
      modifies this
      ensures p < p' <= |data| && p' - p <= old(f).length && MarksFit(after, f.state, p')
      ensures f == BodyRead(old(f), data[p..p']).f
      ensures told + Pending(after, data, p') ==
              old(told) + Pending(marks, data, p) + BodyRead(old(f), data[p..p']).events
    {
      BodyReadIs(f, data[p..p + if f.length < |data| - p then f.length else |data| - p]);
      p', after := TakeBody(data, p, marks);
      hide *;
      if f.length == 0 {
        if f.state == ChunkData {
          f := f.(state := ChunkDataAlmostDone);
        } else {
          FinishBody(data, p', after.body.value, Pending(marks, data, p), DataRun(Body, data[p..p']));
          after := after.(body := None);
          NewMessageQuiet(after, data, p', f, told);
        }
      }
    }

    /** Marking the body and counting off the bytes that are there. */
    method TakeBody(data: bytes, p: nat, marks: Marks) returns (p': nat, after: Marks)
      requires p < |data| && MarksFit(marks, f.state, p) && IsBodyState(f.state) && 0 < f.length
      modifies this`f
      ensures p' == p + if old(f).length < |data| - p then old(f).length else |data| - p
      ensures f == old(f).(length := old(f).length - (p' - p))
      ensures after.url == None && after.name == None && after.text == None
      ensures MarksFit(after, old(f).state, p') && MarksFit(after, ChunkDataAlmostDone, p')
      ensures after.body.Some? && after.body.value <= p
      ensures Pending(after, data, p') == DataRun(Body, data[after.body.value..p'])
      ensures DataRun(Body, data[after.body.value..p']) == Pending(marks, data, p) + DataRun(Body, data[p..p'])
      ensures told + Pending(after, data, p') == told + Pending(marks, data, p) + DataRun(Body, data[p..p'])
    {
      var toRead := if f.length < |data| - p then f.length else |data| - p;
      after := if marks.body.Some? then marks else marks.(body := Some(p));
      p' := p + toRead;
      BodyMarked(f.state, marks, after, data, p, p');
      hide *;
      f := f.(length := f.length - toRead);
    }

    /** The end of s_body_identity: deliver the body, then execute the last byte again in s_message_done. */
    method FinishBody(data: bytes, p': nat, mark: nat, ghost before: seq<Event>, ghost read: seq<Event>)
      requires mark < p' <= |data| && DataRun(Body, data[mark..p']) == before + read
      modifies this
      ensures f == old(f).(state := NewMessage(old(f))) && (f.state == StartReq || f.state == Dead)
      ensures told == old(told) + before + (read + [MessageComplete])
    {
      f := f.(state := MessageDone);
      told := told + DataRun(Body, data[mark..p']);
      SwitchBody(f, data[p' - 1]);
      var q := Switch(f, data[p' - 1]);
      hide Switch, DataRun;
      Regroup(old(told), before, read, [MessageComplete]);
      f := q.f;
      told := told + q.events;
    }

    /** One byte outside the bodies: the header limit, then the passes. */
    method OneByte(data: bytes, p: nat, marks: Marks) returns (kind: Kind, after: Marks)
      requires p < |data| && MarksFit(marks, f.state, p) && !IsBodyState(f.state) && Ready(f)
      modifies this
      ensures var q := Byte(old(f), data[p]);
              && f == q.f && kind == q.kind && (kind == Done || kind == Fail || kind == Stop)
              && (kind == Done ==> MarksFit(after, f.state, p + 1)) && (kind == Stop ==> Pending(after, data, p) == [])
              && told + Pending(after, data, if kind == Done then p + 1 else p) ==
                 old(told) + Pending(marks, data, p) + q.events
    {
      hide Passes, Pending, Told;
      ghost var f0 := f;
      if ParsingHeader(f.state) {
        f := f.(nread := f.nread + 1);
        if f.nread > MAX_HEADER_SIZE {
          f := f.(errno := HeaderOverflow);
          return Fail, marks;
        }
      }
      assert f == Counted(f0) && Inside(f);
      hide *;
      kind, after := Reexecute(data, p, data[p], marks);
      ByteDelivered(f0, old(told), marks, data, p, f, told, after, kind);
    }

    /** One round of the loop over the input. */
    method Round(data: bytes, p: nat, marks: Marks, ghost f0: Fields, ghost told0: seq<Event>)
      returns (kind: Kind, p': nat, after: Marks)
      requires p < |data| && At(f0, told0, data, p, f, told, marks)
      modifies this
      ensures kind == Done ==> p < p' <= |data| && At(f0, told0, data, p', f, told, after)
      ensures kind != Done ==> (kind == Fail || kind == Stop) && Ended(Parse(f0, data), told0, f, told)
                               && Consumed(f0, data) == if kind == Fail then p else p + 1
    {
      ghost var g, t := f, told;
      if IsBodyState(f.state) {
        assert 0 < f.length < NO_LENGTH && (f.state == ChunkData ==> f.flags.chunked) && f.errno == OK;
        p', after := ReadBody(data, p, marks);
        BodyBytes(g, data[p..p']);
        kind := Done;
        assert BodyRead(g, data[p..p']).kind == Done;
        hide *;
        AtAdvance(f0, told0, data, p, g, t, marks, p', f, told, after);
      } else {
        assert f.errno == OK;
        kind, after := OneByte(data, p, marks);
        p' := p + 1;
        ParseOne(g, data[p]);
        hide *;
        if kind == Done {
          assert data[p..p + 1] == [data[p]];
          AtAdvance(f0, told0, data, p, g, t, marks, p', f, told, after);
        } else {
          AtEnd(f0, told0, data, p, g, t, marks, Byte(g, data[p]), told, after);
        }
      }
    }

    /** http_parser_execute on some input. */
    method Execute(data: bytes) returns (n: nat)
      requires data != [] && (f.errno == OK ==> Ready(f))
      modifies this
      ensures Ended(Parse(old(f), data), old(told), f, told) && n == Consumed(old(f), data)
    {
      hide *;
      ghost var f0, told0 := f, told;
      if f.errno != OK {
        IgnoresInput(f, data, told);
        return 0;
      }
      var p, marks, kind := 0, FirstMarks(f.state), Done;
      AtStart(f, told, data);
      n := |data|;
      while p < |data| && kind == Done
        invariant kind == Done ==> At(f0, told0, data, p, f, told, marks)
        invariant kind != Done ==> Ended(Parse(f0, data), told0, f, told) && n == Consumed(f0, data)
        invariant p <= |data| && (kind == Done ==> n == |data|)
        decreases kind == Done, |data| - p
      {
        var p';
        kind, p', marks := Round(data, p, marks, f0, told0);
        if kind == Done {
          p := p';
        } else {
          n := if kind == Fail then p else p + 1;
        }
      }
      if kind == Done {
        AtLast(f0, told0, data, f, told, marks);
        LastCallbacks(data, marks);
      }
    }

    /** The callbacks for marks left over at the end of the input. */
    method LastCallbacks(data: bytes, marks: Marks)
      requires MarksFit(marks, f.state, |data|)
      modifies this`told
      ensures told == old(told) + Pending(marks, data, |data|)
    {
      AtMostOneMark(marks, f.state, |data|);
      LeftOver(marks, f.state, data);
      hide DataRun, Pending, MarksFit;
      if marks.name.Some? { told := told + DataRun(Name, data[marks.name.value..]); }
      if marks.text.Some? { told := told + DataRun(Text, data[marks.text.value..]); }
      if marks.url.Some? { told := told + DataRun(Url, data[marks.url.value..]); }
      if marks.body.Some? { told := told + DataRun(Body, data[marks.body.value..]); }
    }

    /** http_parser_execute with no input, which means the end of the connection. */
    method ExecuteEof() returns (n: nat)
      requires f.errno == OK ==> Ready(f)
      modifies this`f
      ensures if old(f).errno == OK && old(f).state != Dead && old(f).state != StartReq
              then f == old(f).(errno := InvalidEofState) && n == 1 else f == old(f) && n == 0
    {
      n := 0;
      if f.errno == OK && f.state != Dead && f.state != StartReq {
        f := f.(errno := InvalidEofState);
        n := 1;
      }
    }
  }

  lemma ByteDelivered(f: Fields, told: seq<Event>, marks: Marks, data: bytes, p: nat,
                      f': Fields, told': seq<Event>, marks': Marks, kind: Kind)
    requires p < |data| && (ParsingHeader(f.state) ==> f.nread + 1 <= MAX_HEADER_SIZE)
    requires var q := Passes(Counted(f), data[p]);
             && f' == q.f && kind == q.kind && (kind != Fail ==> MarksFit(marks', f'.state, p))
             && (kind == Stop ==> IsOver(f'.state))
             && Delivered(told, marks, data, p, q.events, told', marks', kind, f'.state, data[p])
    ensures var q := Byte(f, data[p]);
            && f' == q.f && kind == q.kind && (kind == Done ==> MarksFit(marks', f'.state, p + 1))
            && (kind == Stop ==> Pending(marks', data, p) == [])
            && told' + Pending(marks', data, if kind == Done then p + 1 else p) ==
               told + Pending(marks, data, p) + q.events
  {
    hide Passes, Pending, Told;
    var e, w := Passes(Counted(f), data[p]).events, Told(f'.state, data[p]);
    assert told + Pending(marks, data, p) + (e + w) == told + Pending(marks, data, p) + e + w;
    assert told + Pending(marks, data, p) + e + [] == told + Pending(marks, data, p) + e;
    if kind == Stop {
      NothingPending(marks', f'.state, data, p);
    }
  }

  /** What the one mark left over at the end of the input still holds. */
  lemma LeftOver(marks: Marks, s: State, data: bytes)
    requires MarksFit(marks, s, |data|)
    requires Count(marks.url) + Count(marks.name) + Count(marks.text) + Count(marks.body) <= 1
    ensures (marks.url.Some? ==> marks.url.value <= |data|) && (marks.name.Some? ==> marks.name.value <= |data|)
    ensures (marks.text.Some? ==> marks.text.value <= |data|) && (marks.body.Some? ==> marks.body.value <= |data|)
    ensures Pending(marks, data, |data|) ==
            if marks.url.Some? then DataRun(Url, data[marks.url.value..])
            else if marks.name.Some? then DataRun(Name, data[marks.name.value..])
            else if marks.text.Some? then DataRun(Text, data[marks.text.value..])
            else if marks.body.Some? then DataRun(Body, data[marks.body.value..]) else []
  {
    hide DataRun, IsUrlState, IsBodyState;
    var u, n, t, b := RunOf(Url, marks.url, data, |data|), RunOf(Name, marks.name, data, |data|),
                      RunOf(Text, marks.text, data, |data|), RunOf(Body, marks.body, data, |data|);
    assert Pending(marks, data, |data|) == u + n + t + b;
    assert marks.url.Some? ==> n == [] && t == [] && b == [] && u + [] + [] + [] == u;
    assert marks.name.Some? ==> u == [] && t == [] && b == [] && [] + n + [] + [] == n;
    assert marks.text.Some? ==> u == [] && n == [] && b == [] && [] + [] + t + [] == t;
    assert marks.body.Some? ==> u == [] && n == [] && t == [] && [] + [] + [] + b == b;
    assert data[..|data|] == data;
  }

  /** A failed parser ignores its input. */
  lemma {:induction false} IgnoresInput(f: Fields, data: bytes, told: seq<Event>)
    requires f.errno != OK
    ensures Ended(Parse(f, data), told, f, told) && Consumed(f, data) == 0
    decreases |data|
  {
    if data == [] {
      ParseNone(f);
    } else {
      IgnoresInput(f, data[..|data| - 1], told);
      hide Byte;
    }
  }

  lemma BodyReadIs(f: Fields, s: bytes)
    requires s != [] && |s| <= f.length && IsBodyState(f.state)
    ensures var g, q := f.(length := f.length - |s|), BodyRead(f, s);
            if g.length > 0 then q.f == g && q.events == DataRun(Body, s)
            else if f.state == ChunkData then q.f == g.(state := ChunkDataAlmostDone) && q.events == DataRun(Body, s)
            else q.f == g.(state := NewMessage(g)) && q.events == DataRun(Body, s) + [MessageComplete]
  {
  }

  /** Between messages no mark is set. */
  lemma NewMessageQuiet(marks: Marks, data: bytes, p: nat, f: Fields, told: seq<Event>)
    requires p <= |data| && marks.url == None && marks.name == None && marks.text == None && marks.body == None && (f.state == StartReq || f.state == Dead)
    ensures MarksFit(marks, f.state, p) && told + Pending(marks, data, p) == told
  {
    NothingPending(marks, f.state, data, p);
    hide Pending;
  }

  lemma Regroup(a: seq<Event>, b: seq<Event>, c: seq<Event>, d: seq<Event>)
    ensures a + (b + c) + d == a + b + (c + d)
  {
  }

  /** Marking the body: what is pending grows by the bytes read. */
  lemma BodyMarked(s: State, marks: Marks, after: Marks, data: bytes, p: nat, p': nat)
    requires p < p' <= |data| && IsBodyState(s) && MarksFit(marks, s, p)
    requires after == if marks.body.Some? then marks else marks.(body := Some(p))
    ensures after.url == None && after.name == None && after.text == None
    ensures MarksFit(after, s, p') && MarksFit(after, ChunkDataAlmostDone, p') && after.body.Some? && after.body.value <= p
    ensures Pending(after, data, p') == Pending(marks, data, p) + DataRun(Body, data[p..p'])
    ensures Pending(after, data, p') == DataRun(Body, data[after.body.value..p'])
  {
    var m := after.body.value;
    PendingIs(marks, s, data, p);
    PendingIs(after, s, data, p');
    hide Pending, MarksFit;
    RunJoin(data, m, p, p');
    RunNone(Body, data, p);
  }

  lemma RunJoin(data: bytes, m: nat, p: nat, p': nat)
    requires m <= p <= p' <= |data|
    ensures DataRun(Body, data[m..p']) == DataRun(Body, data[m..p]) + DataRun(Body, data[p..p'])
  {
    assert data[m..p'] == data[m..p] + data[p..p'];
  }

  function Behind(said: seq<Event>, p: Pass): Pass {
    p.(events := said + p.events)
  }

  lemma NothingYet(told: seq<Event>, marks: Marks, data: bytes, p: nat, s: State, ch: byte)
    requires p < |data|
    ensures Delivered(told, marks, data, p, [], told, marks, Again, s, ch)
  {
    hide Pending;
  }

  lemma DeliveredTwice(told0: seq<Event>, marks0: Marks, data: bytes, p: nat, said: seq<Event>, told: seq<Event>, marks: Marks,
                       s: State, events: seq<Event>, told': seq<Event>, marks': Marks, kind: Kind, s': State, ch: byte)
    requires Delivered(told0, marks0, data, p, said, told, marks, Again, s, ch)
    requires Delivered(told, marks, data, p, events, told', marks', kind, s', ch)
    ensures Delivered(told0, marks0, data, p, said + events, told', marks', kind, s', ch)
  {
    hide Pending, Told;
    var w := if kind == Done then Told(s', ch) else [];
    assert told + Pending(marks, data, p) == told0 + Pending(marks0, data, p) + said;
    assert (told0 + Pending(marks0, data, p) + said) + events == told0 + Pending(marks0, data, p) + (said + events);
  }

  lemma BehindTwice(said: seq<Event>, events: seq<Event>, p: Pass)
    ensures Behind(said, Behind(events, p)) == Behind(said + events, p)
  {
    assert said + (events + p.events) == (said + events) + p.events;
  }

  lemma PassesOnce(f: Fields, ch: byte)
    ensures var q := Switch(f, ch); Passes(f, ch) == if q.kind == Again then Behind(q.events, Passes(q.f, ch)) else q
  {
    hide Switch;
  }

  /** The passes over a byte are one pass and, if it asks for it, the passes after it. */
  lemma PassesUnfold(f: Fields, ch: byte, said: seq<Event>)
    requires Inside(f) && !IsBodyState(f.state)
    ensures var q := Switch(f, ch);
            && q.kind != Broken && (q.kind == Stop ==> IsOver(q.f.state))
            && (q.kind == Again ==> Inside(q.f) && !IsBodyState(q.f.state) && Rank(q.f.state) < Rank(f.state))
            && Behind(said, Passes(f, ch)) ==
               if q.kind == Again then Behind(said + q.events, Passes(q.f, ch)) else Pass(q.kind, q.f, said + q.events)
  {
    hide Switch, Passes, Inside, IsOver, IsBodyState, Rank;
    SwitchKeeps(f, ch);
    SwitchFollows(f, ch);
    AgainDescends(f, ch);
    StopIsOver(f, ch);
    PassesOnce(f, ch);
    var q := Switch(f, ch);
    BehindTwice(said, q.events, Passes(q.f, ch));
  }

  // ---------------------------------------------------------------- cutting the input

  /** What is observed of a call: its fields, and what it told if no error is set. */
  ghost predicate Shows(o: Pass, told0: seq<Event>, f: Fields, told: seq<Event>) {
    f == o.f && (f.errno == OK ==> told == told0 + o.events)
  }

  lemma ReadyOk(f: Fields)
    ensures Ready(f) ==> f.errno == OK
  {
  }

  /** One more call: the pieces so far and the next are the pieces together. */
  lemma NextCall(f0: Fields, a: bytes, b: bytes, told0: seq<Event>, f1: Fields, told1: seq<Event>, f2: Fields, told2: seq<Event>)
    requires Ready(f0) && Parse(f0, a + b).kind != Stop
    requires Shows(Parse(f0, a), told0, f1, told1) && f1 == Parse(f0, a).f
    requires Ended(Parse(f1, b), told1, f2, told2) && (f1.errno != OK ==> Parse(f1, b).f == f1)
    ensures Shows(Parse(f0, a + b), told0, f2, told2)
  {
    hide Parse, Ready, Ended, Shows;
    KeptKind(f0, a);
    KeptKind(f0, a + b);
    ParseSplit(f0, a, b);
    Joined(Parse(f0, a), Parse(f1, b), Parse(f0, a + b), told0, f1, told1, f2, told2);
  }

  lemma KeptKind(f: Fields, data: bytes)
    requires Ready(f)
    ensures var o := Parse(f, data);
            o.kind != Broken && o.kind != Again && (o.kind == Fail <==> o.f.errno != OK)
  {
    ParseKeeps(f, data);
    ReadyOk(Parse(f, data).f);
    hide Parse, Ready;
  }

  lemma Joined(o: Pass, q: Pass, w: Pass, told0: seq<Event>, f1: Fields, told1: seq<Event>, f2: Fields, told2: seq<Event>)
    requires w == Then(o, q) || (o.kind != Done && w == o)
    requires o.kind != Broken && o.kind != Again && w.kind != Stop && (o.kind == Fail <==> o.f.errno != OK)
    requires w.kind == Fail <==> w.f.errno != OK
    requires Shows(o, told0, f1, told1) && Ended(q, told1, f2, told2) && (f1.errno != OK ==> q.f == f1)
    requires f1 == o.f && w.kind != Broken && w.kind != Again
    ensures Shows(w, told0, f2, told2) && (w.kind == Fail <==> f2.errno != OK)
  {
    if o.kind == Done {
      assert told0 + (o.events + q.events) == (told0 + o.events) + q.events;
    }
  }

  /**
   * Split independence: unless the parser leaves for another protocol, a sequence of calls ends
   * with the fields that one call on the joined input ends with, and if no error is set the
   * callbacks were told the same.
   */
  method ExecutePieces(parser: Parser, pieces: seq<bytes>)
    requires Ready(parser.f) && forall i :: 0 <= i < |pieces| ==> pieces[i] != []
    requires Parse(parser.f, Concat(pieces)).kind != Stop
    modifies parser
    ensures Shows(Parse(old(parser.f), Concat(pieces)), old(parser.told), parser.f, parser.told)
  {
    ghost var f0, told0 := parser.f, parser.told;
    assert Concat(pieces[..0]) == [];
    ParseNone(f0);
    ReadyOk(f0);
    hide Parse, Ready;
    for i := 0 to |pieces|
      invariant var o := Parse(f0, Concat(pieces[..i]));
                Shows(o, told0, parser.f, parser.told)
      invariant parser.f.errno == OK ==> Ready(parser.f)
    {
      ghost var a, f1, told1 := Concat(pieces[..i]), parser.f, parser.told;
      PrefixNotStopped(f0, pieces, i + 1);
      var n := parser.Execute(pieces[i]);
      StillReady(f1, pieces[i], told1);
      NextCall(f0, a, pieces[i], told0, f1, told1, parser.f, parser.told);
    }
    assert pieces[..|pieces|] == pieces;
  }

  /** ParseHttpContent: a fresh parser and one call on the whole buffer. */
  method ParseHttpContent(buf: bytes) returns (parser: Parser)
    ensures buf == [] ==> parser.f == INIT && parser.told == []
    ensures buf != [] ==> Ended(Parse(INIT, buf), [], parser.f, parser.told)
  {
    parser := new Parser();
    InitReady();
    if buf == [] {
      var n := parser.ExecuteEof();
    } else {
      hide *;
      var n := parser.Execute(buf);
    }
  }

  lemma StillReady(f: Fields, data: bytes, told: seq<Event>)
    requires f.errno == OK ==> Ready(f)
    ensures var o := Parse(f, data);
            && (f.errno != OK ==> o.f == f) && (o.f.errno == OK ==> Ready(o.f))
  {
    if f.errno != OK {
      IgnoresInput(f, data, told);
    } else {
      ParseKeeps(f, data);
    }
    hide Parse, Ready;
  }

  lemma ConcatLast(pieces: seq<bytes>, i: nat)
    requires 0 < i <= |pieces|
    ensures Concat(pieces[..i]) == Concat(pieces[..i - 1]) + pieces[i - 1]
  {
    var one: seq<bytes> := [pieces[i - 1]];
    ConcatOne(one);
    hide Concat;
    ConcatAppend(pieces[..i - 1], one);
    assert pieces[..i - 1] + one == pieces[..i];
  }

  lemma ConcatOne(one: seq<bytes>)
    requires |one| == 1
    ensures Concat(one) == one[0]
  {
    assert one[1..] == [] && Concat(one) == one[0] + Concat(one[1..]) == one[0];
  }

  /** A run that does not stop does not stop earlier. */
  lemma PrefixNotStopped(f: Fields, pieces: seq<bytes>, i: nat)
    requires 0 < i <= |pieces| && Parse(f, Concat(pieces)).kind != Stop
    ensures Concat(pieces[..i]) == Concat(pieces[..i - 1]) + pieces[i - 1]
    ensures Parse(f, Concat(pieces[..i])).kind != Stop
  {
    hide *;
    ConcatLast(pieces, i);
    ConcatAppend(pieces[..i], pieces[i..]);
    assert pieces[..i] + pieces[i..] == pieces;
    NotStoppedBefore(f, Concat(pieces[..i]), Concat(pieces[i..]));
  }

  lemma NotStoppedBefore(f: Fields, a: bytes, b: bytes)
    requires Parse(f, a + b).kind != Stop
    ensures Parse(f, a).kind != Stop
  {
    ParseSplit(f, a, b);
    hide Parse;
  }
}
