/**
 * Exactly which request targets and which versions the parser accepts, from the bytes alone, and how
 * it takes the line ends and blank lines that are not in the grammar.
 */
module HttpRequestLine {
  import opened Bytes
  import opened Decimal
  import opened HttpParser
  import opened HttpExecute
  import opened HttpChunk
  import opened HttpMessage

  // ---------------------------------------------------------------- methods

  /** The name by which a request is to be made; the parser's table spells only M-SEARCH otherwise. */
  function NameOf(m: Method): string {
    match m
    case DELETE => "DELETE"
    case GET => "GET"
    case HEAD => "HEAD"
    case POST => "POST"
    case PUT => "PUT"
    case CONNECT => "CONNECT"
    case OPTIONS => "OPTIONS"
    case TRACE => "TRACE"
    case COPY => "COPY"
    case LOCK => "LOCK"
    case MKCOL => "MKCOL"
    case MOVE => "MOVE"
    case PROPFIND => "PROPFIND"
    case PROPPATCH => "PROPPATCH"
    case SEARCH => "SEARCH"
    case UNLOCK => "UNLOCK"
    case REPORT => "REPORT"
    case MKACTIVITY => "MKACTIVITY"
    case CHECKOUT => "CHECKOUT"
    case MERGE => "MERGE"
    case NOTIFY => "NOTIFY"
    case SUBSCRIBE => "SUBSCRIBE"
    case UNSUBSCRIBE => "UNSUBSCRIBE"
    case PATCH => "PATCH"
    case PURGE => "PURGE"
    case MSEARCH => "M-SEARCH"
  }

  /** A request that begins with a name and a blank is taken to be of the method of that name. */
  lemma NamedMethod(f: Fields, m: Method)
    requires f.errno == OK && f.state == StartReq && f.nread + |NameOf(m)| < MAX_HEADER_SIZE && m != MSEARCH
    ensures var p := Parse(f, Letters(NameOf(m)) + [32]);
            p.kind == Done && p.events == [] && p.f.state == SpacesBeforeUrl && p.f.meth == m
  {
    hide *;
    NameBytes(m);
    ReadMethod(f, m);
    MethodFields(f, m);
  }

  lemma NameBytes(m: Method)
    requires m != MSEARCH
    ensures Letters(NameOf(m)) == MethodBytes(m) && |NameOf(m)| == |MethodString(m)|
  {
    hide Letters;
  }

  lemma MethodFields(f: Fields, m: Method)
    ensures MethodDone(f, m).meth == m && MethodDone(f, m).state == SpacesBeforeUrl && SPACE == 32
  {
  }

  // ---------------------------------------------------------------- targets

  /** Visible ASCII. */
  predicate IsVisible(u: bytes) {
    forall i :: 0 <= i < |u| ==> 33 <= u[i] <= 126
  }

  predicate IsLetter(c: byte) {
    65 <= c <= 90 || 97 <= c <= 122
  }

  /** Letters, digits and ! $ % & ' ( ) * + , - . : ; = [ ] _ ~ */
  predicate IsServerByte(c: byte) {
    IsLetter(c) || 48 <= c <= 57 || c in {33, 36, 37, 38, 39, 40, 41, 42, 43, 44, 45, 46, 58, 59, 61, 91, 93, 95, 126}
  }

  /**
   * A server, in which no two @ stand side by side, and behind the first / or ? anything visible; after
   * tells whether an @ stands in front of it.
   */
  predicate IsServer(u: bytes, after: bool) {
    if u == [] then true
    else if u[0] == 47 || u[0] == 63 then IsVisible(u[1..])
    else if u[0] == 64 then !after && IsServer(u[1..], true)
    else IsServerByte(u[0]) && IsServer(u[1..], false)
  }

  /** What may follow a letter of a scheme: more letters, ://, and a server. */
  predicate IsSchemeRest(u: bytes) {
    if u != [] && IsLetter(u[0]) then IsSchemeRest(u[1..])
    else |u| > 3 && u[0] == 58 && u[1] == 47 && u[2] == 47 && IsServer(u[3..], false)
  }

  /** A path or *, with anything visible behind it; or scheme, server and so on; after CONNECT, a server. */
  predicate IsAnyTarget(m: Method, u: bytes) {
    && u != []
    && if m == CONNECT then IsServer(u, false)
       else if u[0] == 47 || u[0] == 42 then IsVisible(u[1..])
       else IsLetter(u[0]) && IsSchemeRest(u[1..])
  }

  /** Where the target automaton is after some bytes. */
  function UrlRun(s: State, u: bytes): State
    decreases |u|
  {
    if u == [] || s == Dead then s else UrlRun(ParseUrlChar(s, u[0]), u[1..])
  }

  lemma {:induction false} UrlRunMore(s: State, u: bytes, c: byte)
    ensures UrlRun(s, u + [c]) == if UrlRun(s, u) == Dead then Dead else ParseUrlChar(UrlRun(s, u), c)
    decreases |u|
  {
    hide ParseUrlChar;
    if u == [] {
      assert u + [c] == [c] && [c][1..] == [];
    } else if s != Dead {
      assert (u + [c])[1..] == u[1..] + [c];
      UrlRunMore(ParseUrlChar(s, u[0]), u[1..], c);
    }
  }

  predicate Ends(s: State) {
    s != Dead && MayEndUrl(s)
  }

  predicate InTail(s: State) {
    s == Path || s == QueryStart || s == Query || s == FragmentStart || s == Fragment
  }

  lemma TailByte(s: State, c: byte)
    requires InTail(s)
    ensures var t := ParseUrlChar(s, c); if 33 <= c <= 126 then InTail(t) else t == Dead
  {
  }

  /** Behind the first / anything visible is accepted. */
  lemma {:induction false} TailExactly(s: State, u: bytes)
    requires InTail(s)
    ensures Ends(UrlRun(s, u)) <==> IsVisible(u)
    decreases |u|
  {
    if u != [] {
      TailByte(s, u[0]);
      hide ParseUrlChar;
      if 33 <= u[0] <= 126 {
        TailExactly(ParseUrlChar(s, u[0]), u[1..]);
        assert IsVisible(u) <==> IsVisible(u[1..]) by {
          assert u == [u[0]] + u[1..];
        }
      }
    }
  }

  predicate InServer(s: State) {
    s == ServerStart || s == Server || s == ServerWithAt
  }

  lemma ServerByte(s: State, c: byte)
    requires InServer(s)
    ensures ParseUrlChar(s, c) ==
            if c == 47 then Path else if c == 63 then QueryStart
            else if c == 64 then (if s == ServerWithAt then Dead else ServerWithAt)
            else if IsServerByte(c) then Server else Dead
  {
    UserinfoExactly(c);
    hide IsUserinfoChar;
  }

  lemma UserinfoExactly(c: byte)
    ensures IsUserinfoChar(c) || c == 91 || c == 93 <==> IsServerByte(c)
  {
    var s := "-_.!~*'()%;:&=+$,";
    assert s[0] == '-' && s[1] == '_' && s[2] == '.' && s[3] == '!' && s[4] == '~' && s[5] == '*' && s[6] == '\'';
    assert s[7] == '(' && s[8] == ')' && s[9] == '%' && s[10] == ';' && s[11] == ':' && s[12] == '&' && s[13] == '=';
    assert s[14] == '+' && s[15] == '$' && s[16] == ',';
  }

  lemma {:induction false} ServerExactly(s: State, u: bytes)
    requires InServer(s) && (u == [] ==> s != ServerStart)
    ensures Ends(UrlRun(s, u)) <==> IsServer(u, s == ServerWithAt)
    decreases |u|
  {
    if u != [] {
      ServerByte(s, u[0]);
      var t := ParseUrlChar(s, u[0]);
      hide ParseUrlChar;
      if u[0] == 47 || u[0] == 63 {
        TailExactly(t, u[1..]);
      } else if t != Dead {
        ServerExactly(t, u[1..]);
      }
    }
  }

  lemma SchemeByte(c: byte)
    ensures ParseUrlChar(Schema, c) == if IsLetter(c) then Schema else if c == 58 then SchemaSlash else Dead
    ensures ParseUrlChar(SchemaSlash, c) == if c == 47 then SchemaSlashSlash else Dead
    ensures ParseUrlChar(SchemaSlashSlash, c) == if c == 47 then ServerStart else Dead
    ensures ParseUrlChar(SpacesBeforeUrl, c) ==
            if c == 47 || c == 42 then Path else if IsLetter(c) then Schema else Dead
  {
  }

  lemma {:induction false} SchemeExactly(u: bytes)
    ensures Ends(UrlRun(Schema, u)) <==> IsSchemeRest(u)
    decreases |u|
  {
    if u != [] {
      SchemeByte(u[0]);
      hide ParseUrlChar;
      if IsLetter(u[0]) {
        SchemeExactly(u[1..]);
      } else if u[0] == 58 {
        SlashesExactly(u[1..]);
      }
    }
  }

  lemma SlashesExactly(u: bytes)
    ensures Ends(UrlRun(SchemaSlash, u)) <==> |u| > 2 && u[0] == 47 && u[1] == 47 && IsServer(u[2..], false)
  {
    if u != [] && u[0] == 47 {
      SchemeByte(47);
      SlashExactly(u[1..]);
    } else if u != [] {
      SchemeByte(u[0]);
    }
    hide ParseUrlChar, IsServer;
  }

  lemma SlashExactly(u: bytes)
    ensures Ends(UrlRun(SchemaSlashSlash, u)) <==> |u| > 1 && u[0] == 47 && IsServer(u[1..], false)
  {
    hide ParseUrlChar, IsServer;
    if u != [] {
      SchemeByte(u[0]);
      if |u| > 1 {
        ServerExactly(ServerStart, u[1..]);
      } else {
        assert UrlRun(ServerStart, []) == ServerStart;
      }
    }
  }

  // Reading them.

  /** The state in which the automaton of targets begins. */
  function UrlStart(m: Method): State {
    if m == CONNECT then ServerStart else SpacesBeforeUrl
  }

  predicate NoLineByte(c: byte) {
    c != 32 && c != 13 && c != 10
  }

  lemma UrlStates(s: State, c: byte)
    ensures ParseUrlChar(s, c) == Dead || IsUrlState(ParseUrlChar(s, c))
  {
  }

  lemma UrlInHeader(f: Fields)
    requires f.state == SpacesBeforeUrl || IsUrlState(f.state)
    ensures ParsingHeader(f.state) && Counted(f) == f.(nread := f.nread + 1)
    ensures IsUrlState(f.state) ==> ChannelOf(f.state) == Some(Url)
  {
  }

  lemma UrlPass(f: Fields, s: State, c: byte)
    requires NoLineByte(c) && s == if f.state == SpacesBeforeUrl then UrlStart(f.meth) else f.state
    requires f.state == SpacesBeforeUrl || IsUrlState(f.state)
    ensures var t := ParseUrlChar(s, c);
            OnUrl(f, c) == if t == Dead then Pass(Fail, f.(state := Dead, errno := InvalidUrl), [])
                           else Pass(Done, f.(state := t), [])
  {
    hide ParseUrlChar;
  }

  /** One byte of a target. */
  lemma UrlStep(f: Fields, s: State, c: byte)
    requires f.errno == OK && f.nread < MAX_HEADER_SIZE && NoLineByte(c)
    requires s == if f.state == SpacesBeforeUrl then UrlStart(f.meth) else f.state
    requires f.state == SpacesBeforeUrl || IsUrlState(f.state)
    ensures var t := ParseUrlChar(s, c);
            if t == Dead then Parse(f, [c]).kind == Fail && Parse(f, [c]).f.errno == InvalidUrl
            else IsUrlState(t) && Parse(f, [c]) == Pass(Done, f.(state := t, nread := f.nread + 1), DataRun(Url, [c]))
  {
    hide *;
    var t := ParseUrlChar(s, c);
    UrlInHeader(f);
    UrlStates(s, c);
    UrlPass(Counted(f), s, c);
    DispatchLine(Counted(f), c);
    if t == Dead {
      FailingByte(f, c);
    } else {
      var g := f.(state := t, nread := f.nread + 1);
      UrlInHeader(g);
      LoudByte(f, c, g, Url);
      RunOne(Url, c);
    }
  }

  lemma FailsOn(f: Fields, a: bytes, b: bytes)
    requires Parse(f, a).kind == Fail
    ensures Parse(f, a + b).kind == Fail && Parse(f, a + b).f == Parse(f, a).f
  {
    ParseSplit(f, a, b);
    hide Parse;
  }

  /** What has been read of a target. */
  predicate UrlRead(f: Fields, u: bytes) {
    var t, p := UrlRun(UrlStart(f.meth), u), Parse(f, u);
    if t == Dead then p.kind == Fail && p.f.errno == InvalidUrl
    else IsUrlState(t) && p == Pass(Done, f.(state := t, nread := f.nread + |u|), DataRun(Url, u))
  }

  lemma {:induction false} ReadTarget(f: Fields, u: bytes)
    requires f.errno == OK && f.state == SpacesBeforeUrl && f.nread + |u| <= MAX_HEADER_SIZE
    requires u != [] && forall i :: 0 <= i < |u| ==> NoLineByte(u[i])
    ensures UrlRead(f, u)
    decreases |u|
  {
    hide Parse, ParseUrlChar, DataRun, MAX_HEADER_SIZE;
    var k := |u| - 1;
    var a, c, s := u[..k], u[k], UrlStart(f.meth);
    assert u == a + [c];
    UrlRunMore(s, a, c);
    if k == 0 {
      assert a == [] && [] + [c] == [c];
      UrlStep(f, s, c);
    } else {
      ReadTarget(f, a);
      hide UrlRun;
      if UrlRun(s, a) == Dead {
        FailsOn(f, a, [c]);
      } else {
        var g := Parse(f, a).f;
        UrlStep(g, g.state, c);
        if ParseUrlChar(g.state, c) == Dead {
          ParseSplit(f, a, [c]);
        } else {
          SameChannel(f, a, [c], g, Parse(g, [c]).f, Url);
        }
      }
    }
  }

  lemma RunExactly(m: Method, u: bytes)
    requires u != []
    ensures Ends(UrlRun(UrlStart(m), u)) <==> IsAnyTarget(m, u)
  {
    SchemeByte(u[0]);
    hide ParseUrlChar, IsSchemeRest, IsServer, IsVisible;
    if m == CONNECT {
      ServerExactly(ServerStart, u);
    } else if u[0] == 47 || u[0] == 42 {
      TailExactly(Path, u[1..]);
    } else if IsLetter(u[0]) {
      SchemeExactly(u[1..]);
    }
  }

  lemma BlankOnUrl(f: Fields)
    requires IsUrlState(f.state)
    ensures OnUrl(f, 32) == if MayEndUrl(f.state) then Pass(Done, f.(state := HttpStart), [Called(Url)])
                            else Pass(Fail, f.(errno := InvalidUrl), [])
    ensures ChannelOf(HttpStart) == None && ParsingHeader(f.state)
  {
    hide ParseUrlChar;
  }

  /** The blank behind a target. */
  lemma TargetBlank(f: Fields)
    requires f.errno == OK && IsUrlState(f.state) && f.nread < MAX_HEADER_SIZE
    ensures if MayEndUrl(f.state)
            then Parse(f, [32]) == Pass(Done, f.(state := HttpStart, nread := f.nread + 1), [Called(Url)])
            else Parse(f, [32]).kind == Fail && Parse(f, [32]).f.errno == InvalidUrl
  {
    hide Parse, Switch, OnUrl;
    BlankOnUrl(Counted(f));
    DispatchLine(Counted(f), 32);
    if MayEndUrl(f.state) {
      QuietByte(f, 32, Pass(Done, f.(state := HttpStart, nread := f.nread + 1), [Called(Url)]));
    } else {
      FailingByte(f, 32);
    }
  }

  /**
   * Exactly which targets are accepted: a path or * with anything visible behind it, or a scheme, ://, a
   * server and so on, or, after CONNECT, a server. They are told whole, and any other is an invalid url.
   */
  lemma TargetExactly(f: Fields, u: bytes)
    requires f.errno == OK && f.state == SpacesBeforeUrl && f.nread + |u| < MAX_HEADER_SIZE
    requires u != [] && forall i :: 0 <= i < |u| ==> NoLineByte(u[i])
    ensures if IsAnyTarget(f.meth, u)
            then Parse(f, u + [32]) ==
                 Pass(Done, f.(state := HttpStart, nread := f.nread + |u| + 1), DataRun(Url, u) + [Called(Url)])
            else Parse(f, u + [32]).kind == Fail && Parse(f, u + [32]).f.errno == InvalidUrl
  {
    hide Parse, UrlRun, DataRun, MayEndUrl, IsUrlState, IsAnyTarget, NoLineByte, MAX_HEADER_SIZE;
    ReadTarget(f, u);
    RunExactly(f.meth, u);
    if UrlRun(UrlStart(f.meth), u) == Dead {
      FailsOn(f, u, [32]);
    } else {
      TargetBlank(Parse(f, u).f);
      ParseSplit(f, u, [32]);
    }
  }

  // ---------------------------------------------------------------- versions

  /** One byte of a version: what the switch makes of it is what parsing makes of it. */
  lemma VersionStep(f: Fields, c: byte)
    requires f.errno == OK && IsVersionState(f.state) && f.nread < MAX_HEADER_SIZE
    ensures var p := OnVersion(Counted(f), c);
            && (p.kind == Done ==> Parse(f, [c]) == p)
            && (p.kind == Fail ==> Parse(f, [c]) == p)
  {
    hide Parse, Switch, OnVersion, MAX_HEADER_SIZE;
    DispatchLine(Counted(f), c);
    var p := OnVersion(Counted(f), c);
    if p.kind == Done {
      VersionQuiet(Counted(f), c);
      QuietByte(f, c, p);
    } else if p.kind == Fail {
      FailingByte(f, c);
    }
  }

  lemma VersionQuiet(f: Fields, c: byte)
    requires IsVersionState(f.state)
    ensures OnVersion(f, c).kind == Done ==> ChannelOf(OnVersion(f, c).f.state) == None
    ensures ParsingHeader(f.state)
  {
  }

  /** A part of a version: digits, and the number they denote below 1000. */
  predicate IsPart(a: bytes, major: bool) {
    a != [] && AllDigits(a) && (major ==> a[0] != 48) && Decimal.Value(a) <= 999
  }

  /** The parser after some digits of the major or the minor number. */
  function PartRead(f: Fields, a: bytes, major: bool): Fields
    requires AllDigits(a)
  {
    var g := f.(nread := f.nread + |a|);
    if a == [] then g
    else if major then g.(state := Major, major := Decimal.Value(a)) else g.(state := Minor, minor := Decimal.Value(a))
  }

  lemma PartByte(f: Fields, a: bytes, c: byte, major: bool)
    requires AllDigits(a) && IsDigit(c) && (a == [] || IsPart(a, major))
    requires f.state == if major then FirstMajor else FirstMinor
    requires AllDigits(a + [c]) && Decimal.Value(a + [c]) == 10 * Decimal.Value(a) + (c - 48)
    ensures var p := OnVersion(PartRead(f, a, major).(nread := f.nread + |a| + 1), c);
            if IsPart(a + [c], major) then p == Pass(Done, PartRead(f, a + [c], major), [])
            else p.kind == Fail && p.f.errno == InvalidVersion
  {
    hide Decimal.Value, OnVersion, AllDigits, Counted;
    NoDigits();
    assert (a + [c])[0] == if a == [] then c else a[0];
    if a == [] {
      FirstDigits(f.(nread := f.nread + 1), c);
    } else {
      MoreDigits(PartRead(f, a, major).(nread := f.nread + |a| + 1), c);
    }
  }

  lemma NoDigits()
    ensures Decimal.Value([]) == 0
  {
  }

  lemma FirstDigits(f: Fields, c: byte)
    requires IsDigit(c)
    ensures f.state == FirstMajor ==>
              OnVersion(f, c) == if c != 48 then Pass(Done, f.(state := Major, major := c - 48), [])
                                 else Pass(Fail, f.(errno := InvalidVersion), [])
    ensures f.state == FirstMinor ==> OnVersion(f, c) == Pass(Done, f.(state := Minor, minor := c - 48), [])
  {
  }

  lemma MoreDigits(f: Fields, c: byte)
    requires IsDigit(c)
    ensures f.state == Major ==>
              var n := f.major * 10 + (c - 48);
              if n <= 999 then OnVersion(f, c) == Pass(Done, f.(major := n), [])
              else OnVersion(f, c).kind == Fail && OnVersion(f, c).f.errno == InvalidVersion
    ensures f.state == Minor ==>
              var n := f.minor * 10 + (c - 48);
              if n <= 999 then OnVersion(f, c) == Pass(Done, f.(minor := n), [])
              else OnVersion(f, c).kind == Fail && OnVersion(f, c).f.errno == InvalidVersion
  {
  }

  lemma ValueMore(a: bytes, c: byte)
    requires AllDigits(a) && IsDigit(c)
    ensures AllDigits(a + [c]) && Decimal.Value(a + [c]) == 10 * Decimal.Value(a) + (c - 48)
  {
    assert (a + [c])[..|a|] == a;
  }

  /** Digits are read as the number they denote, if that is below 1000 and, for the major one, does not begin with 0. */
  lemma {:induction false} ReadPart(f: Fields, a: bytes, major: bool)
    requires f.errno == OK && f.nread + |a| <= MAX_HEADER_SIZE && AllDigits(a)
    requires f.state == if major then FirstMajor else FirstMinor
    ensures if a == [] || IsPart(a, major) then Parse(f, a) == Pass(Done, PartRead(f, a, major), [])
            else Parse(f, a).kind == Fail && Parse(f, a).f.errno == InvalidVersion
    decreases |a|
  {
    hide Parse, MAX_HEADER_SIZE, Decimal.Value, OnVersion;
    if a == [] {
      ParseNone(f);
    } else {
      var k := |a| - 1;
      var front, c := a[..k], a[k];
      assert a == front + [c] && AllDigits(front) && IsDigit(c);
      ReadPart(f, front, major);
      ValueMore(front, c);
      if front == [] || IsPart(front, major) {
        PartByte(f, front, c, major);
        var g := PartRead(f, front, major);
        VersionStep(g, c);
        if IsPart(a, major) {
          ThenQuiet(f, front, [c], g, Pass(Done, PartRead(f, a, major), []));
        } else {
          ParseSplit(f, front, [c]);
        }
      } else {
        assert !IsPart(a, major);
        FailsOn(f, front, [c]);
      }
    }
  }

  /** HTTP/ */
  const PROTOCOL: bytes := [72, 84, 84, 80, 47]

  lemma ReadProtocol(f: Fields)
    requires f.errno == OK && f.state == HttpStart && f.nread + 5 <= MAX_HEADER_SIZE
    ensures Parse(f, PROTOCOL) == Pass(Done, f.(state := FirstMajor, nread := f.nread + 5), [])
  {
    hide Parse;
    ProtocolIs(f);
    ReadVersion(f, 1, 1, 5);
  }

  lemma ProtocolIs(f: Fields)
    ensures VersionLine(1, 1)[..5] == PROTOCOL
    ensures VersionRead(f, 1, 1, 5) == f.(state := FirstMajor, nread := f.nread + 5)
  {
  }

  predicate BadVersion(p: Pass) {
    p.kind == Fail && p.f.errno == InvalidVersion
  }

  /** The dot between the numbers, and the line end behind them, need a digit in front. */
  lemma PartEnds(f: Fields)
    ensures f.state == Major ==> OnVersion(f, 46) == Pass(Done, f.(state := FirstMinor), [])
    ensures f.state == Minor ==> OnVersion(f, 13) == Pass(Done, f.(state := LineAlmostDone), [])
    ensures f.state == LineAlmostDone ==> OnVersion(f, 10) == Pass(Done, f.(state := FieldStart), [])
    ensures f.state == FirstMajor ==> OnVersion(f, 46) == Pass(Fail, f.(errno := InvalidVersion), [])
    ensures f.state == FirstMinor ==> OnVersion(f, 13) == Pass(Fail, f.(errno := InvalidVersion), [])
  {
  }

  lemma DotStep(f: Fields)
    requires f.errno == OK && f.nread < MAX_HEADER_SIZE
    ensures f.state == Major ==> Parse(f, [46]) == Pass(Done, f.(state := FirstMinor, nread := f.nread + 1), [])
    ensures f.state == FirstMajor ==> BadVersion(Parse(f, [46]))
  {
    hide Parse, OnVersion, MAX_HEADER_SIZE;
    PartEnds(Counted(f));
    if f.state == Major || f.state == FirstMajor {
      VersionStep(f, 46);
    }
  }

  lemma EndSteps(f: Fields)
    requires f.errno == OK && f.nread < MAX_HEADER_SIZE
    ensures f.state == Minor ==> Parse(f, [13]) == Pass(Done, f.(state := LineAlmostDone, nread := f.nread + 1), [])
    ensures f.state == LineAlmostDone ==> Parse(f, [10]) == Pass(Done, f.(state := FieldStart, nread := f.nread + 1), [])
    ensures f.state == FirstMinor ==> BadVersion(Parse(f, [13]))
  {
    hide Parse, OnVersion, MAX_HEADER_SIZE;
    PartEnds(Counted(f));
    if f.state == Minor || f.state == FirstMinor {
      VersionStep(f, 13);
    } else if f.state == LineAlmostDone {
      VersionStep(f, 10);
    }
  }

  /** The line end behind a minor number. */
  lemma VersionEnd(f: Fields)
    requires f.errno == OK && f.nread + 2 <= MAX_HEADER_SIZE
    ensures f.state == Minor ==> Parse(f, [13, 10]) == Pass(Done, f.(state := FieldStart, nread := f.nread + 2), [])
    ensures f.state == FirstMinor ==> BadVersion(Parse(f, [13, 10]))
  {
    hide Parse, MAX_HEADER_SIZE;
    assert [13] + [10] == [13, 10];
    EndSteps(f);
    if f.state == Minor {
      var h := f.(state := LineAlmostDone, nread := f.nread + 1);
      EndSteps(h);
      ThenQuiet(f, [13], [10], h, Parse(h, [10]));
    } else if f.state == FirstMinor {
      FailsOn(f, [13], [10]);
    }
  }

  /** What is left of a version line once a part of it has been read without a word to the callbacks. */
  lemma GoesOn(f: Fields, a: bytes, b: bytes, g: Fields)
    requires Parse(f, a) == Pass(Done, g, [])
    ensures Parse(f, a + b) == Parse(g, b)
  {
    ThenQuiet(f, a, b, g, Parse(g, b));
  }

  /** The minor number and the line end. */
  lemma ReadMinor(f: Fields, b: bytes)
    requires f.errno == OK && f.state == FirstMinor && f.nread + |b| + 2 <= MAX_HEADER_SIZE && AllDigits(b)
    ensures if IsPart(b, false)
            then Parse(f, b + [13, 10]) == Pass(Done, MinorRead(f, b), [])
            else BadVersion(Parse(f, b + [13, 10]))
  {
    hide Parse, Decimal.Value, MAX_HEADER_SIZE, AllDigits;
    ReadPart(f, b, false);
    if b == [] || IsPart(b, false) {
      var g := PartRead(f, b, false);
      GoesOn(f, b, [13, 10], g);
      VersionEnd(g);
    } else {
      FailsOn(f, b, [13, 10]);
    }
  }

  /** The parser after a minor number and its line end. */
  function MinorRead(f: Fields, b: bytes): Fields
    requires AllDigits(b)
  {
    f.(state := FieldStart, minor := Decimal.Value(b), nread := f.nread + |b| + 2)
  }

  /** The dot, the minor number and the line end. */
  lemma ReadDot(f: Fields, b: bytes)
    requires f.errno == OK && f.nread + |b| + 3 <= MAX_HEADER_SIZE && AllDigits(b)
    ensures var p := Parse(f, [46] + (b + [13, 10]));
            && (f.state == FirstMajor ==> BadVersion(p))
            && (f.state == Major ==>
                  if IsPart(b, false) then p == Pass(Done, MinorRead(f.(nread := f.nread + 1), b), []) else BadVersion(p))
  {
    hide Parse, Decimal.Value, MAX_HEADER_SIZE, AllDigits, IsPart;
    DotStep(f);
    if f.state == FirstMajor {
      FailsOn(f, [46], b + [13, 10]);
    } else if f.state == Major {
      var m := f.(state := FirstMinor, nread := f.nread + 1);
      GoesOn(f, [46], b + [13, 10], m);
      ReadMinor(m, b);
    }
  }

  /** Both numbers, the dot between them and the line end. */
  lemma ReadNumbers(f: Fields, a: bytes, b: bytes)
    requires f.errno == OK && f.state == FirstMajor && f.nread + |a| + |b| + 3 <= MAX_HEADER_SIZE
    requires AllDigits(a) && AllDigits(b)
    ensures var p := Parse(f, a + ([46] + (b + [13, 10])));
            if IsPart(a, true) && IsPart(b, false)
            then p == Pass(Done, MinorRead(f.(state := Major, major := Decimal.Value(a), nread := f.nread + |a| + 1), b), [])
            else BadVersion(p)
  {
    hide *;
    var tail, h := [46] + (b + [13, 10]), PartRead(f, a, true);
    NotEmpty(a);
    ReadPart(f, a, true);
    if a == [] || IsPart(a, true) {
      GoesOn(f, a, tail, h);
      PartFields(f, a);
      ReadDot(h, b);
    } else {
      Refused(Parse(f, a));
      FailsOn(f, a, tail);
      Refused(Parse(f, a + tail));
    }
  }

  lemma NotEmpty(a: bytes)
    ensures IsPart(a, true) ==> a != []
  {
  }

  lemma Refused(p: Pass)
    ensures BadVersion(p) <==> p.kind == Fail && p.f.errno == InvalidVersion
  {
  }

  lemma PartFields(f: Fields, a: bytes)
    requires AllDigits(a)
    ensures PartRead(f, a, true) ==
            if a == [] then f else f.(state := Major, major := Decimal.Value(a), nread := f.nread + |a|)
    ensures AllDigits(a)
  {
    hide Decimal.Value;
  }

  /**
   * Exactly which versions are accepted behind a target: a major number that does not begin with 0 and a
   * minor one, both below 1000. They are read as the numbers they denote.
   */
  lemma VersionExactly(f: Fields, a: bytes, b: bytes)
    requires f.errno == OK && f.state == HttpStart && f.nread + |a| + |b| + 8 <= MAX_HEADER_SIZE
    requires AllDigits(a) && AllDigits(b)
    ensures var p := Parse(f, PROTOCOL + (a + ([46] + (b + [13, 10]))));
            if IsPart(a, true) && IsPart(b, false)
            then p == Pass(Done, f.(state := FieldStart, major := Decimal.Value(a), minor := Decimal.Value(b),
                                    nread := f.nread + |a| + |b| + 8), [])
            else p.kind == Fail && p.f.errno == InvalidVersion
  {
    hide Parse, Decimal.Value, MAX_HEADER_SIZE, AllDigits, IsPart;
    var g := f.(state := FirstMajor, nread := f.nread + 5);
    ReadProtocol(f);
    GoesOn(f, PROTOCOL, a + ([46] + (b + [13, 10])), g);
    ReadNumbers(g, a, b);
  }

  // ---------------------------------------------------------------- line ends and blank lines

  /** A lone LF ends a request line as CR LF does. */
  lemma LfEndsVersion(f: Fields)
    requires f.errno == OK && f.state == Minor && f.nread + 2 <= MAX_HEADER_SIZE
    ensures Parse(f.(nread := f.nread + 1), [10]) == Parse(f, [13, 10])
  {
    hide Parse, OnVersion, MAX_HEADER_SIZE;
    var g := f.(nread := f.nread + 1);
    VersionEnd(f);
    LfOnVersion(Counted(g));
    VersionStep(g, 10);
  }

  lemma LfOnVersion(f: Fields)
    requires f.state == Minor
    ensures OnVersion(f, 10) == Pass(Done, f.(state := FieldStart), [])
  {
  }

  /** A byte that is executed again in another state is as if it had come in that state. */
  lemma ExecutedAgain(f: Fields, e: Fields, c: byte, told: seq<Event>)
    requires f.errno == OK && ParsingHeader(f.state) && f.nread < MAX_HEADER_SIZE
    requires e.errno == OK && ParsingHeader(e.state) && e.nread == f.nread
    requires Switch(Counted(f), c) == Pass(Again, Counted(e), told)
    ensures Parse(f, [c]) == Parse(e, [c]).(events := told + Parse(e, [c]).events)
  {
    ParseOne(f, c);
    ParseOne(e, c);
    hide Parse, Switch, ParsingHeader;
    var q := Passes(Counted(e), c);
    assert Passes(Counted(f), c) == q.(events := told + q.events);
    hide Passes;
    assert (told + q.events) + Told(q.f.state, c) == told + (q.events + Told(q.f.state, c));
  }

  lemma LineEndBytes()
    ensures CR == 13 && LF == 10
  {
  }

  lemma InHeader(f: Fields)
    requires f.state in {FieldStart, Value, HeaderAlmostDone, HeadersAlmostDone}
    ensures ParsingHeader(f.state) && Counted(f) == f.(nread := f.nread + 1)
  {
  }

  lemma LfOnText(f: Fields)
    ensures f.state == Value ==> OnValue(f, 10) == Pass(Again, f.(state := HeaderAlmostDone), [Called(Text)])
    ensures f.state == FieldStart ==> OnFieldStart(f, 10) == Pass(Again, f.(state := HeadersAlmostDone), [])
  {
  }

  lemma AsCrLf(f: Fields, g: Fields, e: Fields, told: seq<Event>)
    requires Parse(f, [13]) == Pass(Done, e, told)
    requires Parse(g, [10]) == Parse(e, [10]).(events := told + Parse(e, [10]).events)
    ensures Parse(g, [10]) == Parse(f, [13, 10])
  {
    ParseSplit(f, [13], [10]);
    assert [13] + [10] == [13, 10];
    hide Parse;
  }

  /** A lone LF ends a header line as CR LF does. */
  lemma LfEndsValue(f: Fields)
    requires f.errno == OK && f.state == Value && f.nread + 2 <= MAX_HEADER_SIZE
    ensures Parse(f.(nread := f.nread + 1), [10]) == Parse(f, [13, 10])
  {
    hide *;
    var g, e := f.(nread := f.nread + 1), f.(state := HeaderAlmostDone, nread := f.nread + 1);
    LineEndBytes();
    InHeader(g);
    InHeader(e);
    LfOnText(Counted(g));
    DispatchText(Counted(g), 10);
    ExecutedAgain(g, e, 10, [Called(Text)]);
    ValueCr(f);
    AsCrLf(f, g, e, [Called(Text)]);
  }

  /** A lone LF ends the headers, or a trailer, as CR LF does. */
  lemma LfEndsHeaders(f: Fields)
    requires f.errno == OK && f.state == FieldStart && f.nread + 2 <= MAX_HEADER_SIZE
    ensures Parse(f.(nread := f.nread + 1), [10]) == Parse(f, [13, 10])
  {
    hide *;
    var g, e := f.(nread := f.nread + 1), f.(state := HeadersAlmostDone, nread := f.nread + 1);
    LineEndBytes();
    InHeader(g);
    InHeader(e);
    LfOnText(Counted(g));
    DispatchText(Counted(g), 10);
    ExecutedAgain(g, e, 10, []);
    EndCr(f);
    AsCrLf(f, g, e, []);
  }

  /**
   * Between messages CR and LF are skipped. A closed connection accepts nothing else; an open one expects a
   * letter.
   */
  lemma BetweenMessages(f: Fields, c: byte)
    requires f.errno == OK && IsOver(f.state) && f.nread < MAX_HEADER_SIZE
    ensures c == 13 || c == 10 ==> Parse(f, [c]) == Pass(Done, f.(nread := f.nread + 1), [])
    ensures c != 13 && c != 10 && f.state == Dead ==>
              Parse(f, [c]).kind == Fail && Parse(f, [c]).f.errno == ClosedConnection
    ensures c != 13 && c != 10 && f.state == StartReq && !IsLetter(c) ==>
              Parse(f, [c]).kind == Fail && Parse(f, [c]).f.errno == InvalidMethod
  {
    hide Parse, Switch, MAX_HEADER_SIZE;
    OverSwitch(Counted(f), c);
    if c == 13 || c == 10 {
      QuietByte(f, c, Pass(Done, f.(nread := f.nread + 1), []));
    } else if f.state == Dead || !IsLetter(c) {
      FailingByte(f, c);
    }
  }

  lemma OverSwitch(f: Fields, c: byte)
    requires IsOver(f.state)
    ensures c == 13 || c == 10 ==> Switch(f, c) == Pass(Done, f, [])
    ensures c != 13 && c != 10 && f.state == Dead ==> Switch(f, c) == Pass(Fail, f.(errno := ClosedConnection), [])
    ensures c != 13 && c != 10 && f.state == StartReq && !IsLetter(c) ==>
              Switch(f, c).kind == Fail && Switch(f, c).f.errno == InvalidMethod
    ensures ChannelOf(f.state) == None && ParsingHeader(f.state)
  {
    hide OnMethod, OnUrl, OnVersion, OnFieldStart, OnField, OnValueStart, OnValue, OnHeaderEnd, OnChunk, OnBody;
  }

  /** A blank or a tab at the start of a line continues the value of the line before; any other byte begins a new line. */
  lemma LineContinues(f: Fields, c: byte)
    requires f.errno == OK && f.state == ValueLws && f.nread < MAX_HEADER_SIZE
    ensures if c == 32 || c == 9 then Parse(f, [c]) == Pass(Done, f.(state := ValueStart, nread := f.nread + 1), [])
            else Parse(f, [c]) == Parse(f.(state := FieldStart), [c])
  {
    hide Parse, Switch, MAX_HEADER_SIZE;
    ContinuesSwitch(Counted(f), c);
    if c == 32 || c == 9 {
      QuietByte(f, c, Pass(Done, f.(state := ValueStart, nread := f.nread + 1), []));
    } else {
      var e := f.(state := FieldStart);
      ExecutedAgain(f, e, c, []);
      assert [] + Parse(e, [c]).events == Parse(e, [c]).events;
    }
  }

  lemma ContinuesSwitch(f: Fields, c: byte)
    requires f.state == ValueLws
    ensures Switch(f, c) == if c == 32 || c == 9 then Pass(Done, f.(state := ValueStart), [])
                            else Pass(Again, f.(state := FieldStart), [])
    ensures ChannelOf(ValueStart) == None && ParsingHeader(ValueLws) && ParsingHeader(FieldStart)
  {
    hide OnStart, OnMethod, OnUrl, OnVersion, OnFieldStart, OnField, OnValueStart, OnValue, OnChunk, OnBody;
  }

  // ---------------------------------------------------------------- chunk parameters

  lemma ChunkInHeader(f: Fields)
    requires f.state == ChunkParameters || f.state == ChunkSize
    ensures ParsingHeader(f.state) && Counted(f) == f.(nread := f.nread + 1)
  {
  }

  lemma ParameterByte(f: Fields, c: byte)
    requires f.errno == OK && f.state == ChunkParameters && f.flags.chunked && f.nread < MAX_HEADER_SIZE
    ensures Parse(f, [c]) ==
            Pass(Done, f.(state := if c == 13 then ChunkSizeAlmostDone else ChunkParameters, nread := f.nread + 1), [])
  {
    hide *;
    ChunkInHeader(f);
    ParameterSwitch(Counted(f), c);
    QuietByte(f, c, Switch(Counted(f), c));
  }

  lemma ParameterSwitch(f: Fields, c: byte)
    requires f.flags.chunked
    ensures f.state == ChunkParameters ==>
              Switch(f, c) == Pass(Done, f.(state := if c == 13 then ChunkSizeAlmostDone else ChunkParameters), [])
    ensures f.state == ChunkSize && (c == 59 || c == 32) ==> Switch(f, c) == Pass(Done, f.(state := ChunkParameters), [])
    ensures f.state == ChunkSize && c == 13 ==> Switch(f, c) == Pass(Done, f.(state := ChunkSizeAlmostDone), [])
    ensures ChannelOf(ChunkParameters) == None && ChannelOf(ChunkSizeAlmostDone) == None
    ensures ParsingHeader(ChunkParameters) && ParsingHeader(ChunkSize)
  {
    hide OnStart, OnMethod, OnUrl, OnVersion, OnFieldStart, OnField, OnValueStart, OnValue, OnHeaderEnd, OnBody;
  }

  lemma {:induction false} ReadParameters(f: Fields, s: bytes)
    requires f.errno == OK && f.state == ChunkParameters && f.flags.chunked && f.nread + |s| <= MAX_HEADER_SIZE
    requires 13 !in s
    ensures Parse(f, s) == Pass(Done, f.(nread := f.nread + |s|), [])
    decreases |s|
  {
    hide Parse, MAX_HEADER_SIZE;
    if s == [] {
      ParseNone(f);
    } else {
      var k := |s| - 1;
      var g := f.(nread := f.nread + k);
      ReadParameters(f, s[..k]);
      ParameterByte(g, s[k]);
      assert s == s[..k] + [s[k]];
      ThenQuiet(f, s[..k], [s[k]], g, Parse(g, [s[k]]));
    }
  }

  /** A chunk size may be followed by a semicolon or a blank and anything up to CR, which changes nothing. */
  lemma ParametersIgnored(f: Fields, c: byte, s: bytes)
    requires f.errno == OK && f.state == ChunkSize && f.flags.chunked && f.nread + |s| + 2 <= MAX_HEADER_SIZE
    requires (c == 59 || c == 32) && 13 !in s
    ensures Parse(f, [c] + (s + [13])) == Parse(f.(nread := f.nread + |s| + 1), [13])
    ensures Parse(f, [c] + (s + [13])).kind == Done && Parse(f, [c] + (s + [13])).f.state == ChunkSizeAlmostDone
  {
    hide Parse, Switch, MAX_HEADER_SIZE;
    var g := f.(state := ChunkParameters, nread := f.nread + 1);
    var h := g.(nread := g.nread + |s|);
    var e := f.(nread := f.nread + |s| + 1);
    ParameterSwitch(Counted(f), c);
    QuietByte(f, c, Pass(Done, g, []));
    ReadParameters(g, s);
    ParameterByte(h, 13);
    ParameterSwitch(Counted(e), 13);
    QuietByte(e, 13, Pass(Done, e.(state := ChunkSizeAlmostDone, nread := e.nread + 1), []));
    GoesOn(g, s, [13], h);
    GoesOn(f, [c], s + [13], g);
  }

  // ---------------------------------------------------------------- the header limit

  /** The header limit: byte 81921 of a header is one too many, and nothing else is reported so. */
  lemma HeaderLimit(f: Fields, c: byte)
    requires f.errno == OK
    ensures Byte(f, c).f.errno == HeaderOverflow <==> ParsingHeader(f.state) && f.nread >= 81920
  {
    NoOverflow(Counted(f), c);
    hide Passes, ParsingHeader;
  }

  lemma StartNoOverflow(f: Fields, c: byte)
    requires f.errno != HeaderOverflow
    ensures OnStart(f, c).f.errno != HeaderOverflow
  {
    hide FirstMethod, IsAlpha;
  }

  lemma MethodNoOverflow(f: Fields, c: byte)
    requires f.errno != HeaderOverflow
    ensures OnMethod(f, c).f.errno != HeaderOverflow
  {
    hide Redirect, MethodString;
  }

  lemma UrlNoOverflow(f: Fields, c: byte)
    requires f.errno != HeaderOverflow
    ensures OnUrl(f, c).f.errno != HeaderOverflow
  {
    hide ParseUrlChar, IsUrlState;
  }

  lemma VersionNoOverflow(f: Fields, c: byte)
    requires f.errno != HeaderOverflow
    ensures OnVersion(f, c).f.errno != HeaderOverflow
  {
  }

  lemma TextNoOverflow(f: Fields, c: byte)
    requires f.errno != HeaderOverflow
    ensures OnFieldStart(f, c).f.errno != HeaderOverflow
    ensures OnField(f, c).f.errno != HeaderOverflow
    ensures OnValueStart(f, c).f.errno != HeaderOverflow
  {
    hide MatchName, Match, Token, Lower;
  }

  lemma ValueNoOverflow(f: Fields, c: byte)
    requires f.errno != HeaderOverflow
    ensures OnValue(f, c).f.errno != HeaderOverflow
  {
    hide Match, Lower;
  }

  lemma RestNoOverflow(f: Fields, c: byte)
    requires f.errno != HeaderOverflow
    ensures OnHeaderEnd(f, c).f.errno != HeaderOverflow
    ensures OnChunk(f, c).f.errno != HeaderOverflow
    ensures OnBody(f, c).f.errno != HeaderOverflow
  {
    hide NewMessage, Unhex;
  }

  lemma SwitchNoOverflow(f: Fields, c: byte)
    requires f.errno != HeaderOverflow
    ensures Switch(f, c).f.errno != HeaderOverflow
  {
    hide OnStart, OnMethod, OnUrl, OnVersion, OnFieldStart, OnField, OnValueStart, OnValue, OnHeaderEnd, OnChunk, OnBody;
    hide IsUrlState, IsVersionState, IsChunkState, NewMessage;
    StartNoOverflow(f, c);
    MethodNoOverflow(f, c);
    UrlNoOverflow(f, c);
    VersionNoOverflow(f, c);
    TextNoOverflow(f, c);
    ValueNoOverflow(f, c);
    RestNoOverflow(f, c);
  }

  lemma {:induction false} NoOverflow(f: Fields, c: byte)
    requires f.errno != HeaderOverflow
    ensures Passes(f, c).f.errno != HeaderOverflow
    decreases Rank(f.state)
  {
    SwitchNoOverflow(f, c);
    AgainDescends(f, c);
    hide Switch;
    if Switch(f, c).kind == Again {
      NoOverflow(Switch(f, c).f, c);
    }
  }
}
