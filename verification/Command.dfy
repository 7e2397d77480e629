/**
 * Commands as hiredis.c formats them: the length is computed first, then exactly that many bytes
 * are written. The reader of RespReader turns the bytes back into the argument list.
 */
module Command {
  import opened Bytes
  import opened Decimal
  import opened RespSpec
  import opened RespMachine

  const PERCENT: byte := 37
  const LOWER_B: byte := 98
  const LOWER_S: byte := 115

  function Strings(args: seq<bytes>): (rs: seq<Reply>)
    ensures |rs| == |args| && forall i :: 0 <= i < |args| ==> rs[i] == Str(args[i])
  {
    seq(|args|, i requires 0 <= i < |args| => Str(args[i]))
  }

  /** A command on the wire: an array of bulk strings. */
  function CommandBytes(args: seq<bytes>): bytes {
    Serialise(Arr(Strings(args)))
  }

  predicate Sendable(args: seq<bytes>) {
    |args| <= INT_MAX && forall i :: 0 <= i < |args| ==> |args[i]| <= LLONG_MAX
  }

  /** However the bytes of a command are cut, the reader returns one array of its arguments in order. */
  lemma CommandRoundTrip(args: seq<bytes>, pieces: seq<bytes>)
    requires Sendable(args) && Concat(pieces) == CommandBytes(args)
    ensures DrainPieces(Live(START), pieces) == Drained([Arr(Strings(args))], Live(START))
  {
    var r := Arr(Strings(args));
    assert Writable(r, 0);
    assert SerialiseAll([r]) == Serialise(r) + SerialiseAll([]) == Serialise(r);
    RepliesSurviveTheWire([r], pieces);
  }

  /** Different argument lists never share a wire form. */
  lemma CommandInjective(args: seq<bytes>, args': seq<bytes>)
    requires Sendable(args) && Sendable(args') && CommandBytes(args) == CommandBytes(args')
    ensures args == args'
  {
    var b := CommandBytes(args);
    assert Concat([b]) == b + Concat([]) == b;
    CommandRoundTrip(args, [b]);
    CommandRoundTrip(args', [b]);
    assert Strings(args) == Strings(args');
    forall i | 0 <= i < |args| ensures args[i] == args'[i] {
      assert Strings(args)[i] == Strings(args')[i];
    }
  }

  // ---------------------------------------------------------------- lengths

  /** bulklen. */
  method BulkLen(len: nat) returns (n: nat)
    requires len <= ULLONG_MAX
    ensures forall s: bytes :: |s| == len ==> n == |Serialise(Str(s))|
  {
    var digits := CountDigits(len);
    n := 1 + digits + 2 + len + 2;
    forall s: bytes | |s| == len ensures n == |Serialise(Str(s))| {
      BulkShape(s);
    }
  }

  lemma Assoc(a: bytes, b: bytes, c: bytes)
    ensures (a + b) + c == a + (b + c)
  {
  }

  lemma BulkShape(s: bytes)
    ensures Serialise(Str(s)) == [DOLLAR] + Digits(|s|) + CRLF + s + CRLF
  {
    var head := Digits(|s|) + CRLF;
    Assoc([DOLLAR], Digits(|s|), CRLF);
    Assoc([DOLLAR], head, s + CRLF);
    Assoc([DOLLAR] + head, s, CRLF);
  }

  lemma CommandShape(args: seq<bytes>)
    ensures CommandBytes(args) == [STAR] + Digits(|args|) + CRLF + SerialiseAll(Strings(args))
  {
    var rs := Strings(args);
    assert Body(Arr(rs)) == Digits(|args|) + CRLF + SerialiseAll(rs);
    Assoc([STAR], Digits(|args|), CRLF);
    Assoc([STAR], Digits(|args|) + CRLF, SerialiseAll(rs));
  }

  /** Every argument is shorter than the command it is part of. */
  lemma {:induction false} ArgumentsFit(args: seq<bytes>, i: nat)
    requires i < |args|
    ensures |args[i]| <= |SerialiseAll(Strings(args))|
  {
    StringsStep(args, i);
    BulkShape(args[i]);
    StringsFit(args, i + 1);
  }

  lemma StringsStep(args: seq<bytes>, j: nat)
    requires j < |args|
    ensures SerialiseAll(Strings(args[..j + 1])) == SerialiseAll(Strings(args[..j])) + Serialise(Str(args[j]))
  {
    assert Strings(args[..j + 1]) == Strings(args[..j]) + [Str(args[j])];
    SerialiseAppend(Strings(args[..j]), Str(args[j]));
  }

  lemma {:induction false} SerialiseAppend(rs: seq<Reply>, r: Reply)
    ensures SerialiseAll(rs + [r]) == SerialiseAll(rs) + Serialise(r)
  {
    if rs == [] {
      assert [] + [r] == [r];
      assert SerialiseAll([r]) == Serialise(r) + SerialiseAll([]);
    } else {
      assert (rs + [r])[1..] == rs[1..] + [r];
      SerialiseAppend(rs[1..], r);
    }
  }

  // ---------------------------------------------------------------- writing

  /** memcpy of s to position pos. */
  method Put(cmd: array<byte>, pos: nat, s: bytes) returns (after: nat)
    requires pos + |s| <= cmd.Length
    modifies cmd
    ensures after == pos + |s| && cmd[..after] == old(cmd[..pos]) + s
  {
    for i := 0 to |s|
      invariant cmd[..pos + i] == old(cmd[..pos]) + s[..i]
    {
      cmd[pos + i] := s[i];
      assert cmd[..pos + i + 1] == cmd[..pos + i] + [s[i]];
      assert s[..i + 1] == s[..i] + [s[i]];
    }
    assert s[..|s|] == s;
    after := pos + |s|;
  }

  /** sprintf of a prefix byte, a number and CR LF. */
  method PutHeader(cmd: array<byte>, pos: nat, mark: byte, n: nat) returns (after: nat)
    requires pos + 1 + |Digits(n)| + 2 <= cmd.Length
    modifies cmd
    ensures after == pos + 1 + |Digits(n)| + 2
    ensures cmd[..after] == old(cmd[..pos]) + ([mark] + Digits(n) + CRLF)
  {
    ghost var before := cmd[..pos];
    after := Put(cmd, pos, [mark] + Digits(n) + CRLF);
  }

  /** One argument: its header, its bytes, CR LF. */
  method PutBulk(cmd: array<byte>, pos: nat, s: bytes) returns (after: nat)
    requires pos + |Serialise(Str(s))| <= cmd.Length
    modifies cmd
    ensures after == pos + |Serialise(Str(s))| && cmd[..after] == old(cmd[..pos]) + Serialise(Str(s))
  {
    hide Serialise, Digits;
    BulkShape(s);
    ghost var written := cmd[..pos];
    after := PutHeader(cmd, pos, DOLLAR, |s|);
    after := Put(cmd, after, s);
    cmd[after] := CR;
    cmd[after + 1] := LF;
    assert cmd[..after + 2] == cmd[..after] + CRLF;
    after := after + 2;
  }

  /** The loop over the arguments: all of them, one bulk string each. */
  method PutAll(cmd: array<byte>, start: nat, args: seq<bytes>) returns (pos: nat)
    requires start + |SerialiseAll(Strings(args))| <= cmd.Length
    modifies cmd
    ensures pos == start + |SerialiseAll(Strings(args))|
    ensures cmd[..pos] == old(cmd[..start]) + SerialiseAll(Strings(args))
  {
    ghost var head := cmd[..start];
    assert Strings(args[..0]) == [] && SerialiseAll([]) == [];
    hide SerialiseAll, Serialise, Strings;
    pos := start;
    for j := 0 to |args|
      invariant pos == start + |SerialiseAll(Strings(args[..j]))| <= cmd.Length
      invariant cmd[..pos] == head + SerialiseAll(Strings(args[..j]))
    {
      StringsStep(args, j);
      StringsFit(args, j + 1);
      pos := PutBulk(cmd, pos, args[j]);
    }
    assert args[..|args|] == args;
  }

  /** The second half of both formatters: write the command into a buffer of the computed length. */
  method Build(args: seq<bytes>, totlen: nat) returns (cmd: array<byte>)
    requires totlen == |CommandBytes(args)|
    ensures fresh(cmd) && cmd.Length == totlen + 1
    ensures cmd[..totlen] == CommandBytes(args) && cmd[totlen] == 0
  {
    hide CommandBytes, Digits, SerialiseAll, Strings;
    cmd := new byte[totlen + 1];
    CommandShape(args);
    var pos := PutHeader(cmd, 0, STAR, |args|);
    pos := PutAll(cmd, pos, args);
    assert pos == totlen;
    cmd[pos] := 0;
  }

  lemma {:induction false} StringsFit(args: seq<bytes>, j: nat)
    requires j <= |args|
    ensures |SerialiseAll(Strings(args[..j]))| <= |SerialiseAll(Strings(args))|
    decreases |args| - j
  {
    if j < |args| {
      StringsStep(args, j);
      StringsFit(args, j + 1);
    } else {
      assert args[..j] == args;
    }
  }

  lemma {:induction false} CountFits(args: seq<bytes>)
    ensures |args| <= |SerialiseAll(Strings(args))|
  {
    if args != [] {
      var k := |args| - 1;
      StringsStep(args, k);
      BulkShape(args[k]);
      CountFits(args[..k]);
      assert args[..k + 1] == args;
    }
  }

  /** redisFormatCommandArgv. The computed length is a C int, so commands longer than INT_MAX are excluded. */
  method FormatCommandArgv(argv: seq<bytes>) returns (cmd: array<byte>, totlen: nat)
    requires |CommandBytes(argv)| <= INT_MAX
    ensures totlen == |CommandBytes(argv)| && cmd.Length == totlen + 1
    ensures cmd[..totlen] == CommandBytes(argv) && cmd[totlen] == 0
  {
    CommandShape(argv);
    CountFits(argv);
    var digits := CountDigits(|argv|);
    totlen := 1 + digits + 2;
    for j := 0 to |argv|
      invariant totlen == 1 + |Digits(|argv|)| + 2 + |SerialiseAll(Strings(argv[..j]))|
    {
      StringsStep(argv, j);
      ArgumentsFit(argv, j);
      var n := BulkLen(|argv[j]|);
      totlen := totlen + n;
    }
    assert argv[..|argv|] == argv;
    cmd := Build(argv, totlen);
  }

  // ---------------------------------------------------------------- format strings

  /** What one or two bytes of a format stand for. */
  datatype Token = Literal(c: byte) | Gap | CString | Binary

  /** A C string in which a % that is not the last byte is followed by s, b or %. Other conversions are not modelled. */
  predicate Plain(format: bytes) {
    if format == [] then true
    else if format[0] == 0 then false
    else if format[0] != PERCENT || |format| == 1 then Plain(format[1..])
    else (format[1] == LOWER_S || format[1] == LOWER_B || format[1] == PERCENT) && Plain(format[2..])
  }

  function Tokens(format: bytes): seq<Token>
    requires Plain(format)
  {
    if format == [] then []
    else if format[0] != PERCENT || |format| == 1 then
      [if format[0] == SPACE then Gap else Literal(format[0])] + Tokens(format[1..])
    else
      [if format[1] == LOWER_S then CString else if format[1] == LOWER_B then Binary else Literal(PERCENT)]
      + Tokens(format[2..])
  }

  function Takes(t: Token): nat {
    if t.CString? || t.Binary? then 1 else 0
  }

  /** The arguments a format takes from the variable argument list. */
  function Demand(ts: seq<Token>): nat {
    if ts == [] then 0 else Takes(ts[0]) + Demand(ts[1..])
  }

  function Meaning(t: Token, ap: seq<bytes>): bytes
    requires |ap| >= Takes(t)
  {
    match t
    case Literal(c) => [c]
    case Gap => []
    case CString => UpToNul(ap[0])
    case Binary => ap[0]
  }

  /** The words of a format: its maximal runs of tokens between spaces. */
  function Words(ts: seq<Token>): seq<seq<Token>> {
    if ts == [] then []
    else if ts[0] == Gap then Words(ts[1..])
    else
      var k := WordEnd(ts);
      [ts[..k]] + Words(ts[k..])
  }

  function WordEnd(ts: seq<Token>): (k: nat)
    ensures k <= |ts| && (ts != [] && ts[0] != Gap ==> k > 0)
    ensures forall i :: 0 <= i < k ==> ts[i] != Gap
    ensures k < |ts| ==> ts[k] == Gap
  {
    if ts == [] || ts[0] == Gap then 0 else 1 + WordEnd(ts[1..])
  }

  /** A word with its arguments put in. */
  function Expand(word: seq<Token>, ap: seq<bytes>): bytes
    requires |ap| >= Demand(word)
  {
    if word == [] then []
    else Meaning(word[0], ap) + Expand(word[1..], ap[Takes(word[0])..])
  }

  /** One argument per word, whatever is put into it. */
  function ExpandAll(words: seq<seq<Token>>, ap: seq<bytes>): (args: seq<bytes>)
    requires |ap| >= DemandAll(words)
    ensures |args| == |words|
  {
    if words == [] then []
    else [Expand(words[0], ap)] + ExpandAll(words[1..], ap[Demand(words[0])..])
  }

  function DemandAll(words: seq<seq<Token>>): nat {
    if words == [] then 0 else Demand(words[0]) + DemandAll(words[1..])
  }

  /** What is still to come: cur is the word begun, if touched. */
  function Collect(ts: seq<Token>, ap: seq<bytes>, cur: bytes, touched: bool): seq<bytes>
    requires |ap| >= Demand(ts)
    decreases |ts|
  {
    if ts == [] then (if touched then [cur] else [])
    else if ts[0] == Gap then
      if touched then [cur] + Collect(ts[1..], ap, [], false) else Collect(ts[1..], ap, cur, false)
    else Collect(ts[1..], ap[Takes(ts[0])..], cur + Meaning(ts[0], ap), true)
  }

  lemma {:induction false} DemandSplit(ts: seq<Token>, k: nat)
    requires k <= |ts|
    ensures Demand(ts) == Demand(ts[..k]) + Demand(ts[k..])
  {
    if k > 0 {
      DemandSplit(ts[1..], k - 1);
      assert ts[..k][1..] == ts[1..][..k - 1] && ts[1..][k - 1..] == ts[k..];
    } else {
      assert ts[..0] == [] && ts[0..] == ts;
    }
  }

  lemma {:induction false} DemandOfWords(ts: seq<Token>)
    ensures DemandAll(Words(ts)) == Demand(ts)
    decreases |ts|
  {
    if ts != [] {
      if ts[0] == Gap {
        DemandOfWords(ts[1..]);
      } else {
        var k := WordEnd(ts);
        DemandSplit(ts, k);
        DemandOfWords(ts[k..]);
      }
    }
  }

  /** Nothing of the word is left. */
  lemma WordOver(ts: seq<Token>, ap: seq<bytes>, cur: bytes)
    requires WordEnd(ts) == 0 && |ap| >= Demand(ts)
    ensures Demand(ts[..0]) == 0 && ts[0..] == ts && ap[0..] == ap
    ensures Collect(ts, ap, cur, true) == [cur + Expand(ts[..0], ap)] + Collect(ts, ap, [], false)
  {
    assert ts[..0] == [] && cur + [] == cur;
    if ts != [] {
      assert Collect(ts, ap, [], false) == Collect(ts[1..], ap, [], false);
    }
  }

  /** One token of a word that is under way. */
  lemma WordStep(ts: seq<Token>, ap: seq<bytes>, cur: bytes)
    requires ts != [] && ts[0] != Gap && |ap| >= Demand(ts)
    requires var k := WordEnd(ts); Demand(ts) == Demand(ts[..k]) + Demand(ts[k..])
    requires var k, rest := WordEnd(ts), ts[1..]; Demand(rest) == Demand(rest[..k - 1]) + Demand(rest[k - 1..])
    ensures var k, d, rest, m := WordEnd(ts), Takes(ts[0]), ts[1..], Meaning(ts[0], ap);
            && WordEnd(rest) == k - 1 && Demand(ts) == d + Demand(rest) && ts[k..] == rest[k - 1..]
            && Demand(ts[..k]) == d + Demand(rest[..k - 1])
            && Expand(ts[..k], ap) == m + Expand(rest[..k - 1], ap[d..])
            && Collect(ts, ap, cur, true) == Collect(rest, ap[d..], cur + m, true)
  {
    var k := WordEnd(ts);
    assert ts[..k][1..] == ts[1..][..k - 1] && ts[1..][k - 1..] == ts[k..];
  }

  /** Reading on to the end of a word that is under way. */
  lemma {:induction false} CollectWord(ts: seq<Token>, ap: seq<bytes>, cur: bytes)
    requires |ap| >= Demand(ts)
    ensures var k := WordEnd(ts);
            && Demand(ts) == Demand(ts[..k]) + Demand(ts[k..])
            && Collect(ts, ap, cur, true) ==
               [cur + Expand(ts[..k], ap)] + Collect(ts[k..], ap[Demand(ts[..k])..], [], false)
    decreases |ts|
  {
    var k := WordEnd(ts);
    assert k > 0 ==> ts[0] != Gap;
    hide Collect, Expand, Demand, WordEnd, Meaning;
    DemandSplit(ts, k);
    if k == 0 {
      WordOver(ts, ap, cur);
    } else {
      var d, rest, m := Takes(ts[0]), ts[1..], Meaning(ts[0], ap);
      DemandSplit(rest, k - 1);
      WordStep(ts, ap, cur);
      CollectWord(rest, ap[d..], cur + m);
      assert (cur + m) + Expand(rest[..k - 1], ap[d..]) == cur + (m + Expand(rest[..k - 1], ap[d..]));
      assert ap[d..][Demand(rest[..k - 1])..] == ap[d + Demand(rest[..k - 1])..];
    }
  }

  /** Scanning token by token builds exactly the expanded words: the split happens before substitution. */
  lemma {:induction false} CollectIsExpand(ts: seq<Token>, ap: seq<bytes>)
    requires |ap| >= Demand(ts)
    ensures DemandAll(Words(ts)) == Demand(ts)
    ensures Collect(ts, ap, [], false) == ExpandAll(Words(ts), ap)
    decreases |ts|
  {
    DemandOfWords(ts);
    if ts == [] {
    } else if ts[0] == Gap {
      CollectIsExpand(ts[1..], ap);
    } else {
      var k := WordEnd(ts);
      DemandSplit(ts, k);
      CollectFirstWord(ts, ap);
      CollectIsExpand(ts[k..], ap[Demand(ts[..k])..]);
    }
  }

  lemma CollectFirstWord(ts: seq<Token>, ap: seq<bytes>)
    requires |ap| >= Demand(ts) && ts != [] && ts[0] != Gap
    ensures var k := WordEnd(ts);
            && |ap| >= Demand(ts[..k]) + Demand(ts[k..])
            && Collect(ts, ap, [], false) ==
               [Expand(ts[..k], ap)] + Collect(ts[k..], ap[Demand(ts[..k])..], [], false)
  {
    var k, d := WordEnd(ts), Takes(ts[0]);
    DemandSplit(ts, k);
    CollectWord(ts, ap, []);
    assert [] + Expand(ts[..k], ap) == Expand(ts[..k], ap);
    assert Collect(ts, ap, [], false) == Collect(ts, ap, [], true);
  }

  function Arguments(format: bytes, ap: seq<bytes>): seq<bytes>
    requires Plain(format) && |ap| >= Demand(Tokens(format))
  {
    DemandOfWords(Tokens(format));
    ExpandAll(Words(Tokens(format)), ap)
  }

  // ---------------------------------------------------------------- what a format says

  /** A stretch of a word of a format: text that stands for itself, or a conversion and its argument. */
  datatype Piece = Text(u: bytes) | PutString(a: bytes) | PutBinary(a: bytes) | Percent

  /** The bytes of a piece: text is free of NUL, blanks and %, the conversions are %s, %b and %%. */
  predicate IsPiece(p: Piece) {
    p.Text? ==> 0 !in p.u && 32 !in p.u && 37 !in p.u
  }

  function Written(p: Piece): bytes {
    match p
    case Text(u) => u
    case PutString(_) => [37, 115]
    case PutBinary(_) => [37, 98]
    case Percent => [37, 37]
  }

  /** The argument a piece uses, if any. */
  function Used(p: Piece): seq<bytes> {
    if p.PutString? || p.PutBinary? then [p.a] else []
  }

  /** What a piece puts into the argument of its word. */
  function Inserted(p: Piece): bytes {
    match p
    case Text(u) => u
    case PutString(a) => UpToNul(a)
    case PutBinary(a) => a
    case Percent => [37]
  }

  function Spelling(ps: seq<Piece>): bytes {
    if ps == [] then [] else Written(ps[0]) + Spelling(ps[1..])
  }

  function Uses(ps: seq<Piece>): seq<bytes> {
    if ps == [] then [] else Used(ps[0]) + Uses(ps[1..])
  }

  /** The argument a word gives: its text, with the arguments in their places. */
  function Gives(ps: seq<Piece>): bytes {
    if ps == [] then [] else Inserted(ps[0]) + Gives(ps[1..])
  }

  predicate IsWord(ps: seq<Piece>) {
    Spelling(ps) != [] && forall i :: 0 <= i < |ps| ==> IsPiece(ps[i])
  }

  /** How many arguments a format takes. */
  function Needs(format: bytes): nat
    requires Plain(format)
  {
    Demand(Tokens(format))
  }

  /** A format together with as many arguments as it takes, or more. */
  predicate Fits(format: bytes, ap: seq<bytes>) {
    Plain(format) && |ap| >= Demand(Tokens(format))
  }

  function Scan(format: bytes, ap: seq<bytes>, cur: bytes, touched: bool): seq<bytes>
    requires Fits(format, ap)
  {
    Collect(Tokens(format), ap, cur, touched)
  }

  lemma TextByte(c: byte, f: bytes, ap: seq<bytes>, cur: bytes, touched: bool)
    requires c != 0 && c != 32 && c != 37 && Fits(f, ap)
    ensures Fits([c] + f, ap) && Needs([c] + f) == Needs(f)
    ensures Scan([c] + f, ap, cur, touched) == Scan(f, ap, cur + [c], true)
  {
    var g := [c] + f;
    assert g[1..] == f;
    var ts := Tokens(g);
    assert ts[1..] == Tokens(f) && ap[0..] == ap;
  }

  lemma Conversion(c: byte, a: bytes, f: bytes, ap: seq<bytes>, cur: bytes, touched: bool)
    requires (c == 115 || c == 98) && Fits(f, ap)
    ensures Fits([37, c] + f, [a] + ap) && Needs([37, c] + f) == Needs(f) + 1
    ensures Scan([37, c] + f, [a] + ap, cur, touched) == Scan(f, ap, cur + if c == 115 then UpToNul(a) else a, true)
  {
    var g := [37, c] + f;
    assert g[2..] == f;
    var ts := Tokens(g);
    assert ts[1..] == Tokens(f) && ([a] + ap)[1..] == ap;
  }

  lemma PercentTwice(f: bytes, ap: seq<bytes>, cur: bytes, touched: bool)
    requires Fits(f, ap)
    ensures Fits([37, 37] + f, ap) && Needs([37, 37] + f) == Needs(f)
    ensures Scan([37, 37] + f, ap, cur, touched) == Scan(f, ap, cur + [37], true)
  {
    var g := [37, 37] + f;
    assert g[2..] == f;
    var ts := Tokens(g);
    assert ts[1..] == Tokens(f) && ap[0..] == ap;
  }

  lemma {:induction false} TextBytes(u: bytes, f: bytes, ap: seq<bytes>, cur: bytes, touched: bool)
    requires IsPiece(Text(u)) && Fits(f, ap)
    ensures Fits(u + f, ap) && Needs(u + f) == Needs(f)
    ensures Scan(u + f, ap, cur, touched) == Scan(f, ap, cur + u, touched || u != [])
  {
    hide Plain, Demand, Tokens, Scan;
    if u == [] {
      assert u + f == f && cur + u == cur;
    } else {
      TextBytes(u[1..], f, ap, cur + [u[0]], true);
      assert [u[0]] + (u[1..] + f) == u + f && cur + [u[0]] + u[1..] == cur + u;
      TextByte(u[0], u[1..] + f, ap, cur, touched);
    }
  }

  lemma ScanPiece(p: Piece, f: bytes, ap: seq<bytes>, cur: bytes, touched: bool)
    requires Fits(f, ap) && IsPiece(p)
    ensures Fits(Written(p) + f, Used(p) + ap) && Needs(Written(p) + f) == |Used(p)| + Needs(f)
    ensures Scan(Written(p) + f, Used(p) + ap, cur, touched) ==
            Scan(f, ap, cur + Inserted(p), touched || Written(p) != [])
  {
    hide Plain, Demand, Tokens, Scan, UpToNul;
    assert [] + ap == ap;
    match p {
      case Text(u) => TextBytes(u, f, ap, cur, touched);
      case PutString(a) => Conversion(115, a, f, ap, cur, touched);
      case PutBinary(a) => Conversion(98, a, f, ap, cur, touched);
      case Percent => PercentTwice(f, ap, cur, touched);
    }
  }

  /** Scanning over a word puts together what its pieces give. */
  lemma {:induction false} ScanPieces(ps: seq<Piece>, f: bytes, ap: seq<bytes>, cur: bytes, touched: bool)
    requires Fits(f, ap) && forall i :: 0 <= i < |ps| ==> IsPiece(ps[i])
    ensures Fits(Spelling(ps) + f, Uses(ps) + ap) && Needs(Spelling(ps) + f) == |Uses(ps)| + Needs(f)
    ensures Scan(Spelling(ps) + f, Uses(ps) + ap, cur, touched) ==
            Scan(f, ap, cur + Gives(ps), touched || Spelling(ps) != [])
  {
    if ps == [] {
      assert [] + f == f && [] + ap == ap && cur + [] == cur;
    } else {
      hide Plain, Demand, Tokens, Scan, Written, Used, Inserted, IsPiece;
      var p, rest := ps[0], ps[1..];
      ScanPieces(rest, f, ap, cur + Inserted(p), touched || Written(p) != []);
      ScanPiece(p, Spelling(rest) + f, Uses(rest) + ap, cur, touched);
      Joins(Written(p), Spelling(rest), f, cur, Inserted(p), Gives(rest));
      Joined(Used(p), Uses(rest), ap);
    }
  }

  lemma Joins(p: bytes, s: bytes, f: bytes, cur: bytes, m: bytes, g: bytes)
    ensures p + (s + f) == (p + s) + f && (cur + m) + g == cur + (m + g)
  {
  }

  lemma ArgumentsAreScanned(format: bytes, ap: seq<bytes>)
    requires Fits(format, ap)
    ensures Arguments(format, ap) == Scan(format, ap, [], false)
  {
    CollectIsExpand(Tokens(format), ap);
  }

  /** A format of one word gives one argument: what its pieces give, put together. */
  lemma OneWord(ps: seq<Piece>)
    requires IsWord(ps)
    ensures Fits(Spelling(ps), Uses(ps)) && Arguments(Spelling(ps), Uses(ps)) == [Gives(ps)]
  {
    ScanPieces(ps, [], [], [], false);
    assert Spelling(ps) + [] == Spelling(ps) && Uses(ps) + [] == Uses(ps) && [] + Gives(ps) == Gives(ps);
    ArgumentsAreScanned(Spelling(ps), Uses(ps));
  }

  /** A % that ends a format stands for itself. */
  lemma PercentAtEnd(ps: seq<Piece>)
    requires forall i :: 0 <= i < |ps| ==> IsPiece(ps[i])
    ensures Fits(Spelling(ps) + [37], Uses(ps)) && Arguments(Spelling(ps) + [37], Uses(ps)) == [Gives(ps) + [37]]
  {
    LonePercent(Gives(ps), Spelling(ps) != []);
    hide Spelling, Gives, Uses, Scan, Fits;
    ScanPieces(ps, [37], [], [], false);
    assert Uses(ps) + [] == Uses(ps) && [] + Gives(ps) == Gives(ps);
    ArgumentsAreScanned(Spelling(ps) + [37], Uses(ps));
  }

  lemma LonePercent(cur: bytes, touched: bool)
    ensures Fits([37], []) && Scan([37], [], cur, touched) == [cur + [37]]
  {
    var f: bytes, none: seq<bytes> := [37], [];
    assert f[1..] == [] && Tokens(f) == [Literal(37)] && [Literal(37)][1..] == [];
    assert none[0..] == none;
  }

  lemma Blank(f: bytes, ap: seq<bytes>, cur: bytes, touched: bool)
    requires Fits(f, ap) && (!touched ==> cur == [])
    ensures Fits([32] + f, ap)
    ensures Scan([32] + f, ap, cur, touched) == (if touched then [cur] else []) + Scan(f, ap, [], false)
  {
    var g := [32] + f;
    assert g[1..] == f;
    var ts := Tokens(g);
    assert ts[1..] == Tokens(f) && ap[0..] == ap;
  }

  lemma Peel(f: bytes)
    requires f != [] && Plain(f) && Plain(f + [32]) && f[0] != 37
    ensures f[0] != 0 && Plain(f[1..]) && Plain(f[1..] + [32]) && Needs(f) == Needs(f[1..])
  {
    var g := f + [32];
    assert g[0] == f[0] && g[1..] == f[1..] + [32];
    assert Tokens(f)[1..] == Tokens(f[1..]);
  }

  lemma PeelConversion(f: bytes)
    requires f != [] && Plain(f) && Plain(f + [32]) && f[0] == 37
    ensures |f| >= 2 && (f[1] == 115 || f[1] == 98 || f[1] == 37) && Plain(f[2..]) && Plain(f[2..] + [32])
    ensures Needs(f) == Needs(f[2..]) + if f[1] == 37 then 0 else 1
  {
    var g := f + [32];
    assert |f| == 1 ==> g == [37, 32];
    assert |f| > 1 && g[1] == f[1] && g[2..] == f[2..] + [32];
    assert Tokens(f)[1..] == Tokens(f[2..]);
  }

  /** A blank ends the word before it, whatever follows. */
  lemma {:induction false} ScanBlank(f: bytes, g: bytes, ap: seq<bytes>, more: seq<bytes>, cur: bytes, touched: bool)
    requires Plain(f + [32]) && Plain(f) && |ap| == Needs(f) && Fits(g, more) && (!touched ==> cur == [])
    ensures Fits(f, ap) && Fits(f + ([32] + g), ap + more)
    ensures Scan(f + ([32] + g), ap + more, cur, touched) == Scan(f, ap, cur, touched) + Scan(g, more, [], false)
  {
    assert Fits(f, ap);
    if f == [] {
      assert f + ([32] + g) == [32] + g && ap + more == more;
      Blank(g, more, cur, touched);
    } else {
      var tail := [32] + g;
      if f[0] == 37 {
        PeelConversion(f);
        hide *;
        var c, f1 := f[1], f[2..];
        assert f == [37, c] + f1 && f + tail == [37, c] + (f1 + tail);
        if c == 37 {
          ScanBlank(f1, g, ap, more, cur + [37], true);
          PercentTwice(f1, ap, cur, touched);
          PercentTwice(f1 + tail, ap + more, cur, touched);
        } else {
          var a, ap1 := ap[0], ap[1..];
          assert ap == [a] + ap1 && ap + more == [a] + (ap1 + more);
          ScanBlank(f1, g, ap1, more, cur + if c == 115 then UpToNul(a) else a, true);
          Conversion(c, a, f1, ap1, cur, touched);
          Conversion(c, a, f1 + tail, ap1 + more, cur, touched);
        }
      } else {
        Peel(f);
        hide *;
        var c, f1 := f[0], f[1..];
        assert f == [c] + f1 && f + tail == [c] + (f1 + tail);
        if c == 32 {
          ScanBlank(f1, g, ap, more, [], false);
          Blank(f1, ap, cur, touched);
          Blank(f1 + tail, ap + more, cur, touched);
          Joined(if touched then [cur] else [], Scan(f1, ap, [], false), Scan(g, more, [], false));
        } else {
          ScanBlank(f1, g, ap, more, cur + [c], true);
          TextByte(c, f1, ap, cur, touched);
          TextByte(c, f1 + tail, ap + more, cur, touched);
        }
      }
    }
  }

  lemma Joined(a: seq<bytes>, b: seq<bytes>, c: seq<bytes>)
    ensures a + (b + c) == (a + b) + c
  {
  }

  /**
   * Formats joined by a blank give their arguments one after the other. Plain(f + [32]) says that f does
   * not end inside a conversion.
   */
  lemma JoinedFormats(f: bytes, g: bytes, ap: seq<bytes>, more: seq<bytes>)
    requires Plain(f + [32]) && Plain(f) && |ap| == Needs(f) && Fits(g, more)
    ensures Fits(f, ap) && Fits(f + ([32] + g), ap + more)
    ensures Arguments(f + ([32] + g), ap + more) == Arguments(f, ap) + Arguments(g, more)
  {
    ScanBlank(f, g, ap, more, [], false);
    ArgumentsAreScanned(f, ap);
    ArgumentsAreScanned(g, more);
    ArgumentsAreScanned(f + ([32] + g), ap + more);
  }

  // Words joined by single blanks.

  function FormatOf(words: seq<seq<Piece>>): bytes {
    if words == [] then []
    else if |words| == 1 then Spelling(words[0])
    else Spelling(words[0]) + ([32] + FormatOf(words[1..]))
  }

  function AllUses(words: seq<seq<Piece>>): seq<bytes> {
    if words == [] then [] else Uses(words[0]) + AllUses(words[1..])
  }

  lemma WordCloses(ps: seq<Piece>)
    requires IsWord(ps)
    ensures Plain(Spelling(ps)) && Plain(Spelling(ps) + [32]) && Needs(Spelling(ps)) == |Uses(ps)|
  {
    ScanPieces(ps, [], [], [], false);
    assert Spelling(ps) + [] == Spelling(ps);
    Blank([], [], [], false);
    assert [32] + [] == [32];
    ScanPieces(ps, [32], [], [], false);
  }

  /**
   * A format of words gives one argument for each: its text with the arguments in their places. A %s puts in
   * its argument up to the first NUL byte, a %b all of it, and %% is one %.
   */
  lemma {:induction false} FormattedWords(words: seq<seq<Piece>>)
    requires forall i :: 0 <= i < |words| ==> IsWord(words[i])
    ensures Fits(FormatOf(words), AllUses(words)) && |Arguments(FormatOf(words), AllUses(words))| == |words|
    ensures forall i :: 0 <= i < |words| ==> Arguments(FormatOf(words), AllUses(words))[i] == Gives(words[i])
  {
    hide IsWord, Plain, Tokens, Demand, Arguments, Spelling, Gives, Uses;
    if words == [] {
      NoWords();
    } else {
      var rest := words[1..];
      OneWord(words[0]);
      if rest == [] {
        assert AllUses(words) == Uses(words[0]) + [] == Uses(words[0]);
      } else {
        WordCloses(words[0]);
        FormattedWords(rest);
        JoinedFormats(Spelling(words[0]), FormatOf(rest), Uses(words[0]), AllUses(rest));
        var args := Arguments(FormatOf(words), AllUses(words));
        assert args == [Gives(words[0])] + Arguments(FormatOf(rest), AllUses(rest));
        forall i | 0 <= i < |words| ensures args[i] == Gives(words[i]) {
          assert i > 0 ==> words[i] == rest[i - 1];
        }
      }
    }
  }

  /** The four kinds of words: the format's own bytes, and what becomes of the argument. */
  lemma WordsOnBytes(u: bytes, v: bytes, a: bytes)
    requires 0 !in u + v && 32 !in u + v && 37 !in u + v
    ensures u != [] ==> Fits(u, []) && Arguments(u, []) == [u]
    ensures Fits(u + [37, 115] + v, [a]) && Arguments(u + [37, 115] + v, [a]) == [u + UpToNul(a) + v]
    ensures Fits(u + [37, 98] + v, [a]) && Arguments(u + [37, 98] + v, [a]) == [u + a + v]
    ensures Fits(u + [37, 37] + v, []) && Arguments(u + [37, 37] + v, []) == [u + [37] + v]
  {
    assert IsPiece(Text(u)) && IsPiece(Text(v));
    hide Plain, Tokens, Demand, Arguments, UpToNul;
    Around(u, PutString(a), v);
    Around(u, PutBinary(a), v);
    Around(u, Percent, v);
    if u != [] {
      Alone(Text(u));
      OneWord([Text(u)]);
    }
  }

  /** A command name and a key, as in SMEMBERS %s. */
  lemma NameAndKey(u: bytes, a: bytes)
    requires u != [] && 0 !in u && 32 !in u && 37 !in u
    ensures Fits(u + [32, 37, 115], [a]) && Arguments(u + [32, 37, 115], [a]) == [u, UpToNul(a)]
  {
    hide Plain, Tokens, Demand, Arguments, UpToNul, Spelling, Uses, Gives;
    Alone(Text(u));
    Alone(PutString(a));
    OneWord([Text(u)]);
    OneWord([PutString(a)]);
    WordCloses([Text(u)]);
    JoinedFormats(u, [37, 115], [], [a]);
    assert u + ([32] + [37, 115]) == u + [32, 37, 115] && [] + [a] == [a];
    assert [u] + [UpToNul(a)] == [u, UpToNul(a)];
  }

  lemma Alone(p: Piece)
    requires IsPiece(p) && Written(p) != []
    ensures Spelling([p]) == Written(p) && Uses([p]) == Used(p) && Gives([p]) == Inserted(p) && IsWord([p])
  {
    assert [p][1..] == [] && Spelling([]) == [] && Uses([]) == [] && Gives([]) == [];
  }

  lemma Around(u: bytes, p: Piece, v: bytes)
    requires IsPiece(Text(u)) && IsPiece(p) && IsPiece(Text(v)) && Written(p) != []
    ensures Fits(u + Written(p) + v, Used(p))
    ensures Arguments(u + Written(p) + v, Used(p)) == [u + Inserted(p) + v]
  {
    hide Plain, Tokens, Demand, Arguments, UpToNul, Written, Used, Inserted;
    var ps := [Text(u), p, Text(v)];
    ThreePieces(u, p, v);
    assert IsWord(ps);
    OneWord(ps);
  }

  lemma ThreePieces(u: bytes, p: Piece, v: bytes)
    ensures Spelling([Text(u), p, Text(v)]) == u + Written(p) + v
    ensures Uses([Text(u), p, Text(v)]) == Used(p)
    ensures Gives([Text(u), p, Text(v)]) == u + Inserted(p) + v
  {
    hide *;
    Leading(Text(v), []);
    Leading(p, [Text(v)]);
    Leading(Text(u), [p, Text(v)]);
    assert [Text(v)] + [] == [Text(v)] && [p] + [Text(v)] == [p, Text(v)];
    assert [Text(u)] + [p, Text(v)] == [Text(u), p, Text(v)];
    NoPieces();
    TextPiece(u);
    TextPiece(v);
    assert v + [] == v && [] + Used(p) + [] == Used(p);
    assert u + (Written(p) + v) == u + Written(p) + v && u + (Inserted(p) + v) == u + Inserted(p) + v;
  }

  lemma Leading(p: Piece, ps: seq<Piece>)
    ensures Spelling([p] + ps) == Written(p) + Spelling(ps) && Uses([p] + ps) == Used(p) + Uses(ps)
    ensures Gives([p] + ps) == Inserted(p) + Gives(ps)
  {
    assert ([p] + ps)[1..] == ps;
  }

  lemma NoPieces()
    ensures Spelling([]) == [] && Uses([]) == [] && Gives([]) == []
  {
  }

  lemma TextPiece(u: bytes)
    ensures Written(Text(u)) == u && Used(Text(u)) == [] && Inserted(Text(u)) == u
  {
  }

  lemma NoWords()
    ensures Fits([], []) && Arguments([], []) == []
  {
  }

  /** What the scanner finds at byte c, and where it goes on. */
  method NextToken(format: bytes, c: nat) returns (t: Token, n: nat)
    requires c < |format| && Plain(format[c..])
    ensures c < n <= |format| && Plain(format[n..]) && Tokens(format[c..]) == [t] + Tokens(format[n..])
  {
    assert format[c..][1..] == format[c + 1..];
    if format[c] != PERCENT || c + 1 == |format| {
      return if format[c] == SPACE then Gap else Literal(format[c]), c + 1;
    }
    assert format[c..][2..] == format[c + 2..];
    n := c + 2;
    if format[c + 1] == LOWER_S {
      t := CString;
    } else if format[c + 1] == LOWER_B {
      t := Binary;
    } else {
      t := Literal(PERCENT);
    }
  }

  /** The scanner's invariant at byte c: the arguments so far and those still to come are all of them. */
  ghost predicate Scanned(format: bytes, c: nat, va: seq<bytes>, argv: seq<bytes>, cur: bytes, touched: bool,
                          all: seq<bytes>)
  {
    && c <= |format| && Plain(format[c..]) && |va| >= Demand(Tokens(format[c..]))
    && (!touched ==> cur == [])
    && all == argv + Collect(Tokens(format[c..]), va, cur, touched)
  }

  lemma ScanStep(format: bytes, c: nat, t: Token, n: nat, va: seq<bytes>, argv: seq<bytes>, cur: bytes,
                 touched: bool, all: seq<bytes>)
    requires Scanned(format, c, va, argv, cur, touched, all)
    requires c < n <= |format| && Plain(format[n..]) && Tokens(format[c..]) == [t] + Tokens(format[n..])
    ensures |va| >= Takes(t)
    ensures t != Gap ==> Scanned(format, n, va[Takes(t)..], argv, cur + Meaning(t, va), true, all)
    ensures t == Gap && touched ==>
              Scanned(format, n, va, argv + [cur], [], false, all) && argv + [cur] <= all
    ensures t == Gap && !touched ==> Scanned(format, n, va, argv, cur, false, all)
  {
    var ts := Tokens(format[c..]);
    assert ts[1..] == Tokens(format[n..]);
    if t == Gap && touched {
      var later := Collect(ts[1..], va, [], false);
      assert all == argv + ([cur] + later) == (argv + [cur]) + later;
    }
  }

  /** The first half of redisvFormatCommand: the argument list and the length of its bulk strings. */
  method ScanFormat(format: bytes, ap: seq<bytes>) returns (curargv: seq<bytes>, totlen: nat)
    requires Plain(format) && |ap| >= Demand(Tokens(format))
    requires |CommandBytes(Arguments(format, ap))| <= INT_MAX
    ensures curargv == Arguments(format, ap) && totlen == |SerialiseAll(Strings(curargv))|
  {
    var c, used, touched := 0, 0, false;
    var curarg: bytes := [];
    curargv, totlen := [], 0;
    ghost var all := Arguments(format, ap);
    ScanStart(format, ap, all);
    assert totlen == |SerialiseAll(Strings(curargv))|;
    hide Arguments, CommandBytes, SerialiseAll, Strings, Tokens, Demand, Plain, Collect;
    while c < |format|
      invariant 0 <= used <= |ap| && Scanned(format, c, ap[used..], curargv, curarg, touched, all)
      invariant totlen == |SerialiseAll(Strings(curargv))|
      decreases |format| - c
    {
      var t, n := NextToken(format, c);
      ScanStep(format, c, t, n, ap[used..], curargv, curarg, touched, all);
      if t == Gap {
        if touched {
          totlen := AppendLength(all, curargv, curarg, totlen);
          curargv := curargv + [curarg];
          curarg, touched := [], false;
        }
      } else {
        curarg, touched := curarg + Meaning(t, ap[used..]), true;
        assert ap[used..][Takes(t)..] == ap[used + Takes(t)..];
        used := used + Takes(t);
      }
      c := n;
    }
    ScanEnd(format, c, ap[used..], curargv, curarg, touched, all);
    if touched {
      totlen := AppendLength(all, curargv, curarg, totlen);
      curargv := curargv + [curarg];
    }
  }

  lemma ScanStart(format: bytes, ap: seq<bytes>, all: seq<bytes>)
    requires Plain(format) && |ap| >= Demand(Tokens(format)) && all == Arguments(format, ap)
    ensures Scanned(format, 0, ap[0..], [], [], false, all)
  {
    CollectIsExpand(Tokens(format), ap);
    assert format[0..] == format && ap[0..] == ap && [] + all == all;
  }

  lemma ScanEnd(format: bytes, c: nat, va: seq<bytes>, argv: seq<bytes>, cur: bytes, touched: bool, all: seq<bytes>)
    requires Scanned(format, c, va, argv, cur, touched, all) && c == |format|
    ensures all == if touched then argv + [cur] else argv
  {
    assert format[c..] == [];
    assert argv + [] == argv;
  }

  /** redisvFormatCommand on formats of literals, spaces, %s, %b and %%. */
  method FormatCommand(format: bytes, ap: seq<bytes>) returns (cmd: array<byte>, totlen: nat)
    requires Plain(format) && |ap| >= Demand(Tokens(format))
    requires |CommandBytes(Arguments(format, ap))| <= INT_MAX
    ensures totlen == |CommandBytes(Arguments(format, ap))| && cmd.Length == totlen + 1
    ensures cmd[..totlen] == CommandBytes(Arguments(format, ap)) && cmd[totlen] == 0
  {
    var curargv, len := ScanFormat(format, ap);
    CommandShape(curargv);
    CountFits(curargv);
    var digits := CountDigits(|curargv|);
    totlen := len + 1 + digits + 2;
    cmd := Build(curargv, totlen);
  }

  /** The length of one more argument, which is one of all the arguments of the command. */
  method AppendLength(ghost all: seq<bytes>, args: seq<bytes>, arg: bytes, totlen: nat) returns (n: nat)
    requires args + [arg] <= all && |CommandBytes(all)| <= INT_MAX
    requires totlen == |SerialiseAll(Strings(args))|
    ensures n == |SerialiseAll(Strings(args + [arg]))|
  {
    CommandShape(all);
    assert all[|args|] == arg;
    ArgumentsFit(all, |args|);
    var len := BulkLen(|arg|);
    StringsStep(args + [arg], |args|);
    assert (args + [arg])[..|args|] == args && (args + [arg])[..|args| + 1] == args + [arg];
    n := totlen + len;
  }
}
