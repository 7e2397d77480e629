/**
 * Chunked bodies (section 3.6.1 of RFC 2616): whatever the chunks, the parser hands the body
 * callback exactly their bytes and reports the end of the message once, after the last chunk.
 */
module HttpChunk {
  import opened Bytes
  import opened HttpLength
  import opened HttpParser
  import opened HttpInvariant
  import opened HttpExecute

  /** A number in hexadecimal, without leading zeros. */
  function Hex(n: nat): (s: bytes)
    ensures s != []
  {
    if n < 16 then [HexDigit(n)] else Hex(n / 16) + [HexDigit(n % 16)]
  }

  function Chunk(s: bytes): bytes {
    Hex(|s|) + CRLF + s + CRLF
  }

  function Chunks(chunks: seq<bytes>): bytes {
    if chunks == [] then [] else Chunk(chunks[0]) + Chunks(chunks[1..])
  }

  function Pow16(k: nat): nat {
    if k == 0 then 1 else 16 * Pow16(k - 1)
  }

  lemma {:induction false} HexLength(n: nat, k: nat)
    requires k > 0 && n < Pow16(k)
    ensures |Hex(n)| <= k
  {
    if n >= 16 {
      HexLength(n / 16, k - 1);
    }
  }

  lemma SixteenDigits(n: nat)
    requires n < NO_LENGTH
    ensures |Hex(n)| <= 16
  {
    assert Pow16(4) == 65536 && Pow16(8) == 65536 * 65536 && Pow16(12) == 65536 * 65536 * 65536;
    assert Pow16(16) == TWO64;
    HexLength(n, 16);
  }

  // ---------------------------------------------------------------- single bytes

  lemma Dispatch(f: Fields, ch: byte)
    ensures IsChunkState(f.state) ==> Switch(f, ch) == OnChunk(f, ch)
  {
    hide OnStart, OnMethod, OnUrl, OnVersion, OnFieldStart, OnField, OnValueStart, OnValue, OnHeaderEnd, OnChunk, OnBody;
    hide Complete, Next, Error;
  }

  /** A byte that takes one pass and is on no channel. */
  lemma QuietByte(f: Fields, ch: byte, p: Pass)
    requires f.errno == OK && (ParsingHeader(f.state) ==> f.nread < MAX_HEADER_SIZE)
    requires p == Switch(Counted(f), ch) && p.kind == Done && ChannelOf(p.f.state) == None
    ensures Parse(f, [ch]) == p
  {
    ParseOne(f, ch);
    hide Switch, Parse;
    assert p.events + [] == p.events;
  }

  /** The hexadecimal digits, of either case, and the values the parser gives them; any other byte is none. */
  lemma UnhexExactly(c: byte)
    ensures Unhex(c) == if 48 <= c <= 57 then c - 48
                        else if 97 <= c <= 102 then c - 87
                        else if 65 <= c <= 70 then c - 55 else -1
  {
  }

  lemma UnhexDigit(d: nat)
    requires d < 16
    ensures Unhex(HexDigit(d)) == d && HexDigit(d) != CR
  {
  }

  /** What one byte of a chunk's framing does, when the switch is done with it in one pass. */
  lemma ChunkByte(f: Fields, ch: byte, g: Fields)
    requires f.errno == OK && IsChunkState(f.state) && (ParsingHeader(f.state) ==> f.nread < MAX_HEADER_SIZE)
    requires OnChunk(Counted(f), ch) == Pass(Done, g, []) && ChannelOf(g.state) == None
    ensures Parse(f, [ch]) == Pass(Done, g, [])
  {
    Dispatch(Counted(f), ch);
    hide Switch, OnChunk;
    QuietByte(f, ch, Pass(Done, g, []));
  }

  // ---------------------------------------------------------------- the size of a chunk

  predicate IsHex(s: bytes) {
    forall i :: 0 <= i < |s| ==> Unhex(s[i]) >= 0
  }

  function HexDigits(s: bytes): seq<nat>
    requires IsHex(s)
  {
    seq(|s|, i requires 0 <= i < |s| => Unhex(s[i]))
  }

  /** What is made of the digits of a size: the number as it is read, or an error. */
  predicate SizeRead(f: Fields, s: bytes, p: Pass)
    requires IsHex(s)
  {
    match ReadDigits(16, HexDigits(s))
    case Some(n) => p == Pass(Done, f.(state := ChunkSize, length := n, nread := f.nread + |s|), [])
    case None => p.kind == Fail && p.f.errno == InvalidContentLength && p.events == []
  }

  lemma FirstDigit(f: Fields, ch: byte)
    requires f.errno == OK && f.state == ChunkSizeStart && f.nread == 0 && f.flags.chunked && Unhex(ch) >= 0
    ensures Parse(f, [ch]) == Pass(Done, f.(state := ChunkSize, length := Unhex(ch), nread := 1), [])
  {
    hide Unhex, MoreLength, Parse;
    ChunkByte(f, ch, f.(state := ChunkSize, length := Unhex(ch), nread := 1));
  }

  lemma NextDigit(f: Fields, ch: byte)
    requires f.errno == OK && f.state == ChunkSize && f.nread < MAX_HEADER_SIZE && f.flags.chunked && Unhex(ch) >= 0
    ensures match MoreLength(f.length, 16, Unhex(ch))
            case Some(n) => Parse(f, [ch]) == Pass(Done, f.(length := n, nread := f.nread + 1), [])
            case None => Parse(f, [ch]) == Error(f.(nread := f.nread + 1), InvalidContentLength)
  {
    DigitPass(f, ch);
    hide *;
    match MoreLength(f.length, 16, Unhex(ch))
    case Some(n) => ChunkByte(f, ch, f.(length := n, nread := f.nread + 1));
    case None => BadByte(f, ch, InvalidContentLength);
  }

  lemma DigitPass(f: Fields, ch: byte)
    requires f.state == ChunkSize && f.flags.chunked && Unhex(ch) >= 0
    ensures IsChunkState(f.state) && ChannelOf(f.state) == None && Counted(f) == f.(nread := f.nread + 1)
    ensures OnChunk(Counted(f), ch) ==
            match MoreLength(f.length, 16, Unhex(ch))
            case Some(n) => Pass(Done, f.(length := n, nread := f.nread + 1), [])
            case None => Error(f.(nread := f.nread + 1), InvalidContentLength)
  {
    assert Unhex(CR) == -1;
    hide Unhex, MoreLength;
  }

  /** A byte of a chunk's framing that is an error. */
  lemma BadByte(f: Fields, ch: byte, e: Errno)
    requires f.errno == OK && IsChunkState(f.state) && (ParsingHeader(f.state) ==> f.nread < MAX_HEADER_SIZE)
    requires OnChunk(Counted(f), ch) == Error(Counted(f), e)
    ensures Parse(f, [ch]) == Error(Counted(f), e)
  {
    Dispatch(Counted(f), ch);
    ParseOne(f, ch);
    hide Switch, OnChunk, Parse;
  }

  lemma TwoBytes(f: Fields, a: byte, b: byte, g: Fields, p: Pass)
    requires Parse(f, [a]) == Pass(Done, g, []) && Parse(g, [b]) == p
    ensures Parse(f, [a, b]) == p
  {
    ParseSplit(f, [a], [b]);
    assert [a] + [b] == [a, b];
    hide Parse;
    assert [] + p.events == p.events;
  }

  // ---------------------------------------------------------------- whole chunks

  /** A chunk-size line is followed by data or, after the last chunk, by the trailer. */
  function AfterSize(f: Fields): Fields {
    if f.length == 0 then f.(state := FieldStart, nread := 0, flags := f.flags.(trailing := true))
    else f.(state := ChunkData, nread := 0)
  }

  lemma SizeCr(f: Fields)
    requires f.errno == OK && f.state == ChunkSize && f.flags.chunked && f.nread <= 16
    ensures Parse(f, [CR]) == Pass(Done, f.(state := ChunkSizeAlmostDone, nread := f.nread + 1), [])
  {
    hide Unhex, MoreLength, Parse;
    ChunkByte(f, CR, f.(state := ChunkSizeAlmostDone, nread := f.nread + 1));
  }

  lemma SizedByChunk(f: Fields)
    requires f.state == ChunkSizeAlmostDone && f.flags.chunked
    ensures OnChunk(Counted(f), LF) == Pass(Done, AfterSize(f), []) && ChannelOf(AfterSize(f).state) == None
    ensures IsChunkState(f.state) && ParsingHeader(f.state)
  {
    hide Unhex, MoreLength;
  }

  lemma SizeLf(f: Fields)
    requires f.errno == OK && f.state == ChunkSizeAlmostDone && f.flags.chunked && f.nread <= 17
    ensures Parse(f, [LF]) == Pass(Done, AfterSize(f), [])
  {
    SizedByChunk(f);
    hide *;
    ChunkByte(f, LF, AfterSize(f));
  }

  /** The end of a chunk-size line. */
  lemma SizeEnd(f: Fields)
    requires f.errno == OK && f.state == ChunkSize && f.flags.chunked && f.nread <= 16
    ensures Parse(f, CRLF) == Pass(Done, AfterSize(f), [])
  {
    var g := f.(state := ChunkSizeAlmostDone, nread := f.nread + 1);
    assert AfterSize(g) == AfterSize(f);
    hide *;
    SizeCr(f);
    SizeLf(g);
    TwoBytes(f, CR, LF, g, Pass(Done, AfterSize(g), []));
  }

  lemma DataCr(f: Fields)
    requires f.errno == OK && f.state == ChunkDataAlmostDone && f.flags.chunked && f.length == 0
    ensures Parse(f, [CR]) == Pass(Done, f.(state := ChunkDataDone), [])
  {
    hide Unhex, MoreLength, Parse;
    ChunkByte(f, CR, f.(state := ChunkDataDone));
  }

  lemma DataLf(f: Fields)
    requires f.errno == OK && f.state == ChunkDataDone && f.flags.chunked
    ensures Parse(f, [LF]) == Pass(Done, f.(state := ChunkSizeStart, nread := 0), [])
  {
    hide Unhex, MoreLength, Parse;
    ChunkByte(f, LF, f.(state := ChunkSizeStart, nread := 0));
  }

  /** The end of a chunk's data. */
  lemma DataEnd(f: Fields)
    requires f.errno == OK && f.state == ChunkDataAlmostDone && f.flags.chunked && f.length == 0
    ensures Parse(f, CRLF) == Pass(Done, f.(state := ChunkSizeStart, nread := 0), [])
  {
    var g := f.(state := ChunkDataDone);
    var p := Pass(Done, g.(state := ChunkSizeStart, nread := 0), []);
    assert p.f == f.(state := ChunkSizeStart, nread := 0);
    hide *;
    DataCr(f);
    DataLf(g);
    TwoBytes(f, CR, LF, g, p);
  }

  lemma ThenQuiet(f: Fields, a: bytes, b: bytes, g: Fields, p: Pass)
    requires Parse(f, a) == Pass(Done, g, []) && Parse(g, b) == p
    ensures Parse(f, a + b) == p
  {
    ParseSplit(f, a, b);
    hide Parse;
    assert [] + p.events == p.events;
  }

  lemma QuietThen(f: Fields, a: bytes, b: bytes, p: Pass, g: Fields)
    requires Parse(f, a) == p && p.kind == Done && Parse(p.f, b) == Pass(Done, g, [])
    ensures Parse(f, a + b) == p.(f := g)
  {
    ParseSplit(f, a, b);
    hide Parse;
    assert p.events + [] == p.events;
  }

  lemma HexDigitsMore(s: bytes, ch: byte)
    requires IsHex(s) && Unhex(ch) >= 0
    ensures IsHex(s + [ch]) && HexDigits(s + [ch]) == HexDigits(s) + [Unhex(ch) as nat]
    ensures ReadDigits(16, HexDigits(s + [ch])) ==
            match ReadDigits(16, HexDigits(s))
            case Some(n) => MoreLength(n, 16, Unhex(ch))
            case None => None
  {
    hide Unhex, MoreLength;
    assert (s + [ch])[|s|] == ch && forall i :: 0 <= i < |s| ==> (s + [ch])[i] == s[i];
    assert HexDigits(s + [ch]) == HexDigits(s) + [Unhex(ch) as nat];
    assert (HexDigits(s) + [Unhex(ch) as nat])[..|s|] == HexDigits(s);
    hide HexDigits;
  }

  lemma FirstRead(ch: byte)
    requires Unhex(ch) >= 0
    ensures IsHex([ch]) && ReadDigits(16, HexDigits([ch])) == Some(Unhex(ch))
  {
    hide Unhex;
    assert HexDigits([]) == [] && ReadDigits(16, HexDigits([])) == Some(0);
    HexDigitsMore([], ch);
    assert [] + [ch] == [ch];
  }

  /** The size of a chunk: whatever its digits are, the parser makes of them what ReadDigits says. */
  lemma {:induction false} ReadSize(f: Fields, s: bytes)
    requires f.errno == OK && f.state == ChunkSizeStart && f.nread == 0 && f.flags.chunked
    requires s != [] && IsHex(s) && |s| <= MAX_HEADER_SIZE
    ensures SizeRead(f, s, Parse(f, s))
    decreases |s|
  {
    var k := |s| - 1;
    assert Unhex(s[k]) >= 0;
    if k == 0 {
      assert s == [s[0]];
      FirstDigit(f, s[0]);
      FirstRead(s[0]);
      hide Unhex, Parse, ReadDigits, HexDigits;
    } else {
      ReadSize(f, s[..k]);
      assert s == s[..k] + [s[k]];
      HexDigitsMore(s[..k], s[k]);
      ParseSplit(f, s[..k], [s[k]]);
      hide Unhex, Parse, ReadDigits, HexDigits, MoreLength, IsHex;
      var o := Parse(f, s[..k]);
      if o.kind == Done {
        NextDigit(o.f, s[k]);
        assert [] + Parse(o.f, [s[k]]).events == [];
      }
    }
  }

  /** Exactly when the digits of a size are accepted, and the size the parser then takes. */
  lemma SizeAccepted(f: Fields, s: bytes)
    requires f.errno == OK && f.state == ChunkSizeStart && f.nread == 0 && f.flags.chunked
    requires s != [] && IsHex(s) && |s| <= MAX_HEADER_SIZE
    ensures var p, digits := Parse(f, s), HexDigits(s);
            && (p.kind == Done <==> Steady(16, digits))
            && (p.kind == Done ==> p.f.length == Wrapped(16, digits))
            && (p.kind != Done ==> p.kind == Fail && p.f.errno == InvalidContentLength)
            && (p.kind == Done && p.f.length == Worth(16, digits) <==> Worth(16, digits) < NO_LENGTH)
  {
    ReadSize(f, s);
    ReadIffSteady(16, HexDigits(s));
    RightIffInRange(16, HexDigits(s));
    hide *;
  }

  lemma {:induction false} HexWorth(n: nat)
    ensures IsHex(Hex(n)) && Worth(16, HexDigits(Hex(n))) == n
  {
    UnhexDigit(n % 16);
    if n < 16 {
      assert HexDigits(Hex(n)) == [] + [n];
      WorthMore(16, [], n);
    } else {
      HexWorth(n / 16);
      HexDigitsMore(Hex(n / 16), HexDigit(n % 16));
      WorthMore(16, HexDigits(Hex(n / 16)), n % 16);
    }
  }

  /** A chunk-size line up to its digits: the number is read, and nothing is told. */
  lemma SizeDigits(f: Fields, n: nat)
    requires f.errno == OK && f.state == ChunkSizeStart && f.nread == 0 && f.flags.chunked && n < NO_LENGTH
    ensures Parse(f, Hex(n)) == Pass(Done, f.(state := ChunkSize, length := n, nread := |Hex(n)|), [])
  {
    SixteenDigits(n);
    HexWorth(n);
    InRangeIsRead(16, HexDigits(Hex(n)));
    ReadIffSteady(16, HexDigits(Hex(n)));
    ReadSize(f, Hex(n));
    hide Parse, Hex, HexDigits, Worth, Steady, ReadDigits;
  }

  const SEVENTEEN_DIGITS: bytes := Hex(0x2fff_ffff_ffff_ffff) + [ZERO]

  /** A size above 2^64 that the overflow test lets through: the parser waits for fewer bytes than were announced. */
  lemma MissedSize(f: Fields)
    requires f.errno == OK && f.state == ChunkSizeStart && f.nread == 0 && f.flags.chunked
    ensures var s := SEVENTEEN_DIGITS;
            && IsHex(s) && Worth(16, HexDigits(s)) == 0x2_ffff_ffff_ffff_fff0 > TWO64
            && Parse(f, s) == Pass(Done, f.(state := ChunkSize, length := 0xffff_ffff_ffff_fff0, nread := 17), [])
  {
    hide *;
    SixteenRead(f);
    MissedWorth();
    var g := f.(state := ChunkSize, length := 0x2fff_ffff_ffff_ffff, nread := 16);
    SeventeenthDigit(g);
    ThenQuiet(f, Hex(0x2fff_ffff_ffff_ffff), [ZERO], g, Parse(g, [ZERO]));
  }

  lemma MissedWorth()
    ensures var s := SEVENTEEN_DIGITS;
            && s == Hex(0x2fff_ffff_ffff_ffff) + [ZERO]
            && IsHex(s) && Worth(16, HexDigits(s)) == 0x2_ffff_ffff_ffff_fff0 > TWO64
  {
    HexWorth(0x2fff_ffff_ffff_ffff);
    HexDigitsMore(Hex(0x2fff_ffff_ffff_ffff), ZERO);
    WorthMore(16, HexDigits(Hex(0x2fff_ffff_ffff_ffff)), 0);
    hide Hex, HexDigits, Worth, IsHex;
  }

  lemma SixteenRead(f: Fields)
    requires f.errno == OK && f.state == ChunkSizeStart && f.nread == 0 && f.flags.chunked
    ensures Parse(f, Hex(0x2fff_ffff_ffff_ffff)) ==
            Pass(Done, f.(state := ChunkSize, length := 0x2fff_ffff_ffff_ffff, nread := 16), [])
  {
    SizeDigits(f, 0x2fff_ffff_ffff_ffff);
    SixteenHere();
    hide Hex, Parse;
  }

  lemma SeventeenthDigit(g: Fields)
    requires g.errno == OK && g.state == ChunkSize && g.nread == 16 && g.flags.chunked && g.length == 0x2fff_ffff_ffff_ffff
    ensures Parse(g, [ZERO]) == Pass(Done, g.(length := 0xffff_ffff_ffff_fff0, nread := 17), [])
  {
    hide Parse;
    NextDigit(g, ZERO);
  }

  lemma {:induction false} HexLonger(n: nat, k: nat)
    requires k > 0 && n >= Pow16(k)
    ensures |Hex(n)| > k
  {
    if k > 1 {
      HexLonger(n / 16, k - 1);
    }
  }

  lemma SixteenHere()
    ensures |Hex(0x2fff_ffff_ffff_ffff)| == 16
  {
    SixteenDigits(0x2fff_ffff_ffff_ffff);
    assert Pow16(5) == 0x10_0000 && Pow16(10) == 0x10_0000 * 0x10_0000;
    assert Pow16(15) == 0x10_0000 * 0x10_0000 * 0x10_0000;
    HexLonger(0x2fff_ffff_ffff_ffff, 15);
  }

  /** The start of a chunk: ready for its size, inside a chunked message. */
  predicate AtChunk(f: Fields) {
    f.errno == OK && f.state == ChunkSizeStart && f.nread == 0 && f.flags.chunked
  }

  /** One chunk: its bytes are told, and the parser is ready for the next. */
  lemma OneChunk(f: Fields, s: bytes)
    requires AtChunk(f) && 0 < |s| < NO_LENGTH
    ensures Parse(f, Chunk(s)) == Pass(Done, f.(length := 0), DataRun(Body, s))
  {
    var n := |s|;
    var f1 := f.(state := ChunkSize, length := n, nread := |Hex(n)|);
    var f2 := f.(state := ChunkData, length := n);
    var f3 := f.(state := ChunkDataAlmostDone, length := 0);
    SixteenDigits(n);
    SizeDigits(f, n);
    SizeEnd(f1);
    assert AfterSize(f1) == f2;
    ThenQuiet(f, Hex(n), CRLF, f1, Pass(Done, f2, []));
    BodyBytes(f2, s);
    assert BodyRead(f2, s) == Pass(Done, f3, DataRun(Body, s));
    ThenQuiet(f, Hex(n) + CRLF, s, f2, Pass(Done, f3, DataRun(Body, s)));
    DataEnd(f3);
    hide Parse, DataRun, Hex;
    QuietThen(f, Hex(n) + CRLF + s, CRLF, Pass(Done, f3, DataRun(Body, s)), f.(length := 0));
  }

  lemma {:induction false} AllChunks(f: Fields, chunks: seq<bytes>)
    requires AtChunk(f) && forall i :: 0 <= i < |chunks| ==> 0 < |chunks[i]| < NO_LENGTH
    ensures Parse(f, Chunks(chunks)) ==
            Pass(Done, if chunks == [] then f else f.(length := 0), DataRun(Body, Concat(chunks)))
    decreases |chunks|
  {
    if chunks == [] {
      ParseNone(f);
      hide Parse;
    } else {
      OneChunk(f, chunks[0]);
      AllChunks(f.(length := 0), chunks[1..]);
      ParseSplit(f, Chunk(chunks[0]), Chunks(chunks[1..]));
      hide Parse, Chunk;
      RunConcat(chunks[0], Concat(chunks[1..]));
    }
  }

  lemma RunConcat(a: bytes, b: bytes)
    ensures DataRun(Body, a + b) == DataRun(Body, a) + DataRun(Body, b)
  {
  }

  /** The parser behind the last chunk: what follows is the trailer. */
  function AfterChunks(f: Fields): Fields {
    f.(state := FieldStart, length := 0, nread := 0, flags := f.flags.(trailing := true))
  }

  /** The chunk of size zero opens the trailer. */
  lemma ZeroChunk(f: Fields)
    requires AtChunk(f)
    ensures Parse(f, Hex(0) + CRLF) == Pass(Done, AfterChunks(f), [])
  {
    var f1 := f.(state := ChunkSize, length := 0, nread := |Hex(0)|);
    SixteenDigits(0);
    SizeDigits(f, 0);
    SizeEnd(f1);
    assert AfterSize(f1) == AfterChunks(f);
    hide Parse, Hex, AfterSize, AfterChunks;
    ThenQuiet(f, Hex(0), CRLF, f1, Pass(Done, AfterChunks(f), []));
  }

  /** All chunks and the last one: exactly their bytes are told. */
  lemma ReadAllChunks(f: Fields, chunks: seq<bytes>)
    requires AtChunk(f) && forall i :: 0 <= i < |chunks| ==> 0 < |chunks[i]| < NO_LENGTH
    ensures Parse(f, Chunks(chunks) + (Hex(0) + CRLF)) == Pass(Done, AfterChunks(f), DataRun(Body, Concat(chunks)))
  {
    var g := if chunks == [] then f else f.(length := 0);
    AllChunks(f, chunks);
    ZeroChunk(g);
    assert AfterChunks(g) == AfterChunks(f);
    hide Parse, Chunks, AfterChunks, DataRun, AtChunk, Hex, Concat;
    QuietThen(f, Chunks(chunks), Hex(0) + CRLF, Pass(Done, g, DataRun(Body, Concat(chunks))), AfterChunks(f));
  }
}
