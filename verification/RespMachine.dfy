/**
 * The resumable reader of read.c as a machine on values: a stack of half-filled arrays, the type
 * of the item being read once its first byte is consumed, and the input not yet consumed.
 * The machine is shown to compute the recursive grammar of RespSpec, and to give the same replies
 * and the same error however its input is cut.
 */
module RespMachine {
  import opened Bytes
  import opened Decimal
  import opened RespSpec

  /** An array of n elements of which the first |filled| are read. */
  datatype Frame = Frame(n: nat, filled: seq<Reply>)

  datatype State = State(stack: seq<Frame>, typ: Option<byte>, input: bytes)

  datatype Outcome =
    | Next(state: State)
    | Out(reply: Reply, rest: bytes)
    | Wait(state: State)
    | Bad(error: ProtocolError)

  const START := State([], None, [])

  predicate IsType(t: byte) {
    IsLineType(t) || t == DOLLAR || t == STAR
  }

  predicate TypeKnown(m: State) {
    m.typ.Some? ==> IsType(m.typ.value)
  }

  ghost predicate Ok(m: State) {
    && |m.stack| <= MAX_DEPTH
    && (forall k :: 0 <= k < |m.stack| ==> |m.stack[k].filled| < m.stack[k].n <= INT_MAX)
    && TypeKnown(m) && (m.typ == Some(STAR) ==> |m.stack| < MAX_DEPTH)
  }

  /** moveToNextTask: a finished item fills its slot, and so on upwards while arrays are full. */
  function Ascend(stack: seq<Frame>, r: Reply, input: bytes): (o: Outcome)
    ensures o.Out? || (o.Next? && o.state.typ == None)
    ensures if o.Out? then o.rest == input else o.state.input == input && o.state.stack != []
  {
    if stack == [] then Out(r, input)
    else
      var top := stack[|stack| - 1];
      var filled := top.filled + [r];
      if |filled| == top.n then Ascend(stack[..|stack| - 1], Arr(filled), input)
      else Next(State(stack[..|stack| - 1] + [Frame(top.n, filled)], None, input))
  }

  /** processLineItem, processBulkItem or processMultiBulkItem on the bytes after the type byte. */
  function Typed(stack: seq<Frame>, t: byte, s: bytes): (o: Outcome)
    requires IsType(t)
    ensures o.Next? ==> |o.state.input| < |s|
    ensures o.Out? ==> |o.rest| < |s|
    ensures o.Next? || o.Wait? ==> TypeKnown(o.state)
  {
    if t == STAR then
      match ParseHeader(s, |stack|)
      case More => Wait(State(stack, Some(t), s))
      case Fail(e) => Bad(e)
      case Done(n, rest) =>
        if n == -1 then Ascend(stack, Nil, rest)
        else if n == 0 then Ascend(stack, Arr([]), rest)
        else Next(State(stack + [Frame(n, [])], None, rest))
    else
      match if t == DOLLAR then ParseBulk(s) else ParseLine(t, s)
      case More => Wait(State(stack, Some(t), s))
      case Fail(e) => Bad(e)
      case Done(r, rest) => Ascend(stack, r, rest)
  }

  /** processItem. */
  function Step(m: State): (o: Outcome)
    requires TypeKnown(m)
    ensures o.Next? ==> |o.state.input| < |m.input|
    ensures o.Next? || o.Wait? ==> TypeKnown(o.state)
    ensures o.Out? ==> |o.rest| < |m.input|
  {
    match m.typ
    case Some(t) => Typed(m.stack, t, m.input)
    case None =>
      if m.input == [] then Wait(m)
      else if !IsType(m.input[0]) then Bad(UnknownType(m.input[0]))
      else Typed(m.stack, m.input[0], m.input[1..])
  }

  /** The loop of redisReaderGetReply. */
  function Run(m: State): (o: Outcome)
    requires TypeKnown(m)
    ensures !o.Next? && (o.Wait? ==> TypeKnown(o.state))
    ensures o.Out? ==> |o.rest| < |m.input|
    decreases |m.input|
  {
    var o := Step(m);
    if o.Next? then Run(o.state) else o
  }

  /** What a fresh reader makes of its input. */
  function FromFresh(b: bytes): Outcome {
    Run(State([], None, b))
  }

  datatype End = Live(state: State) | Dead(error: ProtocolError)
  datatype Drained = Drained(replies: seq<Reply>, end: End)

  /** Calling redisReaderGetReply until it has no reply to give. */
  function Drain(m: State): (d: Drained)
    requires TypeKnown(m)
    ensures d.end.Live? ==> TypeKnown(d.end.state)
    decreases |m.input|
  {
    match Run(m)
    case Out(r, rest) =>
      var d := Drain(State([], None, rest));
      Drained([r] + d.replies, d.end)
    case Wait(m') => Drained([], Live(m'))
    case Bad(e) => Drained([], Dead(e))
    case Next(_) => assert false; Drained([], Live(m))
  }

  function Feed(m: State, x: bytes): State {
    m.(input := m.input + x)
  }

  // ---------------------------------------------------------------- invariant

  lemma {:induction false} AscendOk(stack: seq<Frame>, r: Reply, input: bytes)
    requires Ok(State(stack, None, input))
    ensures var o := Ascend(stack, r, input); o.Next? ==> Ok(o.state)
  {
    if stack != [] {
      var top := stack[|stack| - 1];
      if |top.filled| + 1 == top.n {
        AscendOk(stack[..|stack| - 1], Arr(top.filled + [r]), input);
      }
    }
  }

  /** The stack never holds more than 8 arrays and every array on it still misses an element. */
  lemma StepOk(m: State)
    requires Ok(m)
    ensures var o := Step(m); (o.Next? || o.Wait?) ==> Ok(o.state)
  {
    hide ParseHeader, ParseLine, ParseBulk, Ascend;
    var o := Step(m);
    if o.Next? {
      var t := if m.typ.Some? then m.typ.value else m.input[0];
      var s := if m.typ.Some? then m.input else m.input[1..];
      if t == STAR {
        var h := ParseHeader(s, |m.stack|);
        AscendOk(m.stack, Nil, h.rest);
        AscendOk(m.stack, Arr([]), h.rest);
      } else {
        var p := if t == DOLLAR then ParseBulk(s) else ParseLine(t, s);
        AscendOk(m.stack, p.value, p.rest);
      }
    }
  }

  lemma {:induction false} RunOk(m: State)
    requires Ok(m)
    ensures var o := Run(m); o.Wait? ==> Ok(o.state) && Run(o.state) == o
    decreases |m.input|
  {
    StepOk(m);
    var o := Step(m);
    if o.Next? {
      RunOk(o.state);
    } else if o.Wait? {
      assert Step(o.state) == o;
    }
  }

  lemma RunOfNothing(m: State)
    requires Ok(m) && m.input == []
    ensures Run(m) == Wait(m)
  {
    if m.typ.Some? {
      assert FindCRLF(m.input) == 0;
    }
    assert Step(m) == Wait(m);
  }

  // ---------------------------------------------------------------- the machine computes the grammar

  function RunFrom(o: Outcome): Outcome
    requires o.Next? ==> o.state.typ == None
  {
    if o.Next? then Run(o.state) else o
  }

  /** What the machine makes of one grammar item read under the arrays on the stack. */
  predicate Agrees(o: Outcome, p: Parsed<Reply>, stack: seq<Frame>) {
    match p
    case Done(r, rest) => o == RunFrom(Ascend(stack, r, rest))
    case More => o.Wait?
    case Fail(e) => o == Bad(e)
  }

  lemma {:induction false} RunIsParse(stack: seq<Frame>, b: bytes)
    requires Ok(State(stack, None, b))
    ensures Agrees(Run(State(stack, None, b)), ParseItem(b, |stack|), stack)
    decreases |b|, 0, 0
  {
    hide Run, ParseItem, ParseItems, ItemsAgree, Agrees, ParseHeader;
    if b != [] && b[0] == STAR {
      var h := ParseHeader(b[1..], |stack|);
      if h.Done? && h.value > 0 {
        RunIsParseItems(stack, h.value, [], h.rest);
      }
      ArrayIsParse(stack, b);
    } else {
      LeafIsParse(stack, b);
    }
  }

  lemma LeafIsParse(stack: seq<Frame>, b: bytes)
    requires b == [] || b[0] != STAR
    ensures Agrees(Run(State(stack, None, b)), ParseItem(b, |stack|), stack)
  {
    hide ParseLine, ParseBulk, Ascend;
  }

  /** How a run goes on after the header of an array. */
  lemma HeaderRuns(stack: seq<Frame>, b: bytes)
    requires b != [] && b[0] == STAR
    ensures var h, o := ParseHeader(b[1..], |stack|), Run(State(stack, None, b));
            if h.More? then o == Wait(State(stack, Some(STAR), b[1..]))
            else if h.Fail? then o == Bad(h.error)
            else if h.value == -1 then o == RunFrom(Ascend(stack, Nil, h.rest))
            else if h.value == 0 then o == RunFrom(Ascend(stack, Arr([]), h.rest))
            else o == Run(State(stack + [Frame(h.value, [])], None, h.rest))
  {
    hide ParseHeader, Ascend, ParseLine, ParseBulk;
    var o := Step(State(stack, None, b));
    assert o == Typed(stack, STAR, b[1..]);
  }

  /** How the grammar goes on after the header of an array. */
  lemma HeaderParses(b: bytes, d: nat)
    requires b != [] && b[0] == STAR
    ensures var h, p := ParseHeader(b[1..], d), ParseItem(b, d);
            if h.More? then p == More
            else if h.Fail? then p == Fail(h.error)
            else if h.value == -1 then p == Done(Nil, h.rest)
            else if h.value == 0 then p == Done(Arr([]), h.rest)
            else
              var q := ParseItems(h.rest, h.value, d + 1);
              if q.Done? then p == Done(Arr(q.value), q.rest) else if q.Fail? then p == Fail(q.error) else p == More
  {
    hide ParseHeader;
  }

  lemma ArrayIsParse(stack: seq<Frame>, b: bytes)
    requires b != [] && b[0] == STAR
    requires var h := ParseHeader(b[1..], |stack|);
             h.Done? && h.value > 0 ==>
               ItemsAgree(Run(State(stack + [Frame(h.value, [])], None, h.rest)),
                          ParseItems(h.rest, h.value, |stack| + 1), stack, [])
    ensures Agrees(Run(State(stack, None, b)), ParseItem(b, |stack|), stack)
  {
    hide ParseHeader, ParseItem, ParseItems, Ascend, Run, RunFrom, ItemsAgree;
    HeaderRuns(stack, b);
    HeaderParses(b, |stack|);
    var h := ParseHeader(b[1..], |stack|);
    if h.Done? && h.value > 0 {
      NoneFilled(Run(State(stack + [Frame(h.value, [])], None, h.rest)),
                 ParseItems(h.rest, h.value, |stack| + 1), stack);
    }
  }

  lemma NoneFilled(o: Outcome, p: Parsed<seq<Reply>>, stack: seq<Frame>)
    requires ItemsAgree(o, p, stack, [])
    ensures if p.Done? then o == RunFrom(Ascend(stack, Arr(p.value), p.rest))
            else if p.Fail? then o == Bad(p.error) else o.Wait?
  {
    hide Ascend, RunFrom;
    assert p.Done? ==> [] + p.value == p.value;
  }

  predicate ItemsAgree(o: Outcome, p: Parsed<seq<Reply>>, stack: seq<Frame>, filled: seq<Reply>) {
    match p
    case Done(rs, rest) => o == RunFrom(Ascend(stack, Arr(filled + rs), rest))
    case More => o.Wait?
    case Fail(e) => o == Bad(e)
  }

  /** Reading the remaining elements of the innermost array. */
  lemma {:induction false} RunIsParseItems(stack: seq<Frame>, n: nat, filled: seq<Reply>, b: bytes)
    requires |filled| < n <= INT_MAX && Ok(State(stack, None, b)) && |stack| < MAX_DEPTH
    ensures ItemsAgree(Run(State(stack + [Frame(n, filled)], None, b)),
                       ParseItems(b, n - |filled|, |stack| + 1), stack, filled)
    decreases |b|, 1, n - |filled|
  {
    hide ParseItem, Run, Ascend;
    var stack' := stack + [Frame(n, filled)];
    RunIsParse(stack', b);
    var p := ParseItem(b, |stack| + 1);
    if p.Done? {
      var filled' := filled + [p.value];
      FillSlot(stack, n, filled, p.value, p.rest);
      if |filled'| == n {
        LastElement(b, |stack| + 1);
      } else {
        RunIsParseItems(stack, n, filled', p.rest);
        FurtherElements(stack, n, filled, b);
      }
    }
  }

  /** A finished element either completes the innermost array or leaves it one element fuller. */
  lemma FillSlot(stack: seq<Frame>, n: nat, filled: seq<Reply>, r: Reply, rest: bytes)
    ensures var o := Ascend(stack + [Frame(n, filled)], r, rest);
            if |filled| + 1 == n then o == Ascend(stack, Arr(filled + [r]), rest)
            else o == Next(State(stack + [Frame(n, filled + [r])], None, rest))
  {
    assert (stack + [Frame(n, filled)])[..|stack|] == stack;
  }

  lemma OneMoreItem(b: bytes, n: nat, d: nat)
    requires n > 0 && ParseItem(b, d).Done?
    ensures var p := ParseItem(b, d);
            var q := ParseItems(p.rest, n - 1, d);
            ParseItems(b, n, d) == if q.Done? then Done([p.value] + q.value, q.rest) else if q.Fail? then Fail(q.error) else More
  {
    hide ParseItem;
  }

  lemma FurtherElements(stack: seq<Frame>, n: nat, filled: seq<Reply>, b: bytes)
    requires |filled| + 1 < n && ParseItem(b, |stack| + 1).Done?
    requires var p := ParseItem(b, |stack| + 1);
             var filled' := filled + [p.value];
             ItemsAgree(Run(State(stack + [Frame(n, filled')], None, p.rest)),
                        ParseItems(p.rest, n - |filled'|, |stack| + 1), stack, filled')
    ensures var p := ParseItem(b, |stack| + 1);
            ItemsAgree(Run(State(stack + [Frame(n, filled + [p.value])], None, p.rest)),
                       ParseItems(b, n - |filled|, |stack| + 1), stack, filled)
  {
    hide Run, RunFrom, ParseItem, ParseItems, Ascend;
    var p := ParseItem(b, |stack| + 1);
    OneMoreItem(b, n - |filled|, |stack| + 1);
    var q := ParseItems(p.rest, n - |filled| - 1, |stack| + 1);
    if q.Done? {
      assert (filled + [p.value]) + q.value == filled + ([p.value] + q.value);
    }
  }

  lemma LastElement(b: bytes, d: nat)
    requires ParseItem(b, d).Done?
    ensures var p := ParseItem(b, d); ParseItems(b, 1, d) == Done([p.value], p.rest)
  {
    var p := ParseItem(b, d);
    assert ParseItems(p.rest, 0, d) == Done([], p.rest);
    assert [p.value] + [] == [p.value];
  }

  /** A fresh reader answers exactly as the grammar does. */
  lemma TopLevelIsParse(b: bytes)
    ensures var o := Run(State([], None, b));
            match ParseItem(b, 0)
            case Done(r, rest) => o == Out(r, rest)
            case More => o.Wait?
            case Fail(e) => o == Bad(e)
  {
    RunIsParse([], b);
  }

  // ---------------------------------------------------------------- cutting the input

  lemma LineExtend(t: byte, s: bytes, x: bytes)
    requires IsLineType(t) && !ParseLine(t, s).More?
    ensures match ParseLine(t, s)
            case Done(r, rest) => ParseLine(t, s + x) == Done(r, rest + x)
            case _ => ParseLine(t, s + x) == ParseLine(t, s)
  {
    FindCRLFExtend(s, x);
    var k := FindCRLF(s);
    assert (s + x)[..k] == s[..k] && (s + x)[k + 2..] == s[k + 2..] + x;
  }

  lemma SliceExtend(s: bytes, x: bytes, i: nat, j: nat)
    requires i <= j <= |s|
    ensures (s + x)[i..j] == s[i..j] && (s + x)[j..] == s[j..] + x
  {
  }

  lemma BulkExtend(s: bytes, x: bytes)
    requires !ParseBulk(s).More?
    ensures match ParseBulk(s)
            case Done(r, rest) => ParseBulk(s + x) == Done(r, rest + x)
            case _ => ParseBulk(s + x) == ParseBulk(s)
  {
    hide ParseLL, FindCRLF;
    FindCRLFExtend(s, x);
    var k := FindCRLF(s);
    SliceExtend(s, x, 0, k);
    SliceExtend(s, x, k, k + 2);
    var len := ParseLL(s[..k]);
    if len.Some? && len.value >= 0 {
      var e := k + 2 + len.value;
      SliceExtend(s, x, k + 2, e);
      SliceExtend(s, x, e, e + 2);
    }
  }

  lemma HeaderExtend(s: bytes, d: nat, x: bytes)
    requires !ParseHeader(s, d).More?
    ensures match ParseHeader(s, d)
            case Done(n, rest) => ParseHeader(s + x, d) == Done(n, rest + x)
            case _ => ParseHeader(s + x, d) == ParseHeader(s, d)
  {
    if d != MAX_DEPTH {
      FindCRLFExtend(s, x);
      var k := FindCRLF(s);
      assert (s + x)[..k] == s[..k] && (s + x)[k + 2..] == s[k + 2..] + x;
    }
  }

  function Extend(o: Outcome, x: bytes): Outcome {
    match o
    case Next(m) => Next(Feed(m, x))
    case Out(r, rest) => Out(r, rest + x)
    case Wait(m) => Wait(Feed(m, x))
    case Bad(e) => Bad(e)
  }

  lemma {:induction false} AscendExtend(stack: seq<Frame>, r: Reply, input: bytes, x: bytes)
    ensures Ascend(stack, r, input + x) == Extend(Ascend(stack, r, input), x)
  {
    if stack != [] {
      var top := stack[|stack| - 1];
      if |top.filled| + 1 == top.n {
        AscendExtend(stack[..|stack| - 1], Arr(top.filled + [r]), input, x);
      }
    }
  }

  lemma TypedExtend(stack: seq<Frame>, t: byte, s: bytes, x: bytes)
    requires IsType(t) && !Typed(stack, t, s).Wait?
    ensures Typed(stack, t, s + x) == Extend(Typed(stack, t, s), x)
  {
    if t == STAR {
      HeaderExtend(s, |stack|, x);
      var h := ParseHeader(s, |stack|);
      if h.Done? {
        AscendExtend(stack, Nil, h.rest, x);
        AscendExtend(stack, Arr([]), h.rest, x);
      }
    } else {
      var p := if t == DOLLAR then ParseBulk(s) else ParseLine(t, s);
      if t == DOLLAR { BulkExtend(s, x); } else { LineExtend(t, s, x); }
      if p.Done? {
        AscendExtend(stack, p.value, p.rest, x);
      }
    }
  }

  /** A step that could be taken is still taken, the same way, when more input has arrived. */
  lemma StepExtend(m: State, x: bytes)
    requires Ok(m) && !Step(m).Wait?
    ensures Step(Feed(m, x)) == Extend(Step(m), x)
  {
    if m.typ.Some? {
      TypedExtend(m.stack, m.typ.value, m.input, x);
    } else if IsType(m.input[0]) {
      TypedExtend(m.stack, m.input[0], m.input[1..], x);
      assert (m.input + x)[1..] == m.input[1..] + x;
    }
  }

  /** A step that has to wait consumes at most the type byte, which the next step still knows. */
  lemma WaitExtend(m: State, x: bytes)
    requires TypeKnown(m) && Step(m).Wait?
    ensures Step(Feed(m, x)) == Step(Feed(Step(m).state, x))
  {
    hide ParseHeader, ParseBulk, ParseLine, Ascend;
    if m.typ.None? && m.input != [] {
      assert (m.input + x)[1..] == m.input[1..] + x;
    }
  }

  lemma FreshOk(b: bytes)
    ensures Ok(State([], None, b))
  {
  }

  /** A reader that stopped for want of input resumes as if it had never stopped. */
  lemma {:induction false} RunExtend(m: State, x: bytes)
    requires Ok(m)
    ensures Run(Feed(m, x)) == if Run(m).Wait? then Run(Feed(Run(m).state, x)) else Extend(Run(m), x)
    decreases |m.input|
  {
    StepOk(m);
    var o := Step(m);
    assert TypeKnown(m);
    hide Step, Ok;
    if o.Next? {
      StepExtend(m, x);
      RunExtend(o.state, x);
    } else if o.Wait? {
      WaitExtend(m, x);
    } else {
      StepExtend(m, x);
    }
  }

  function Append(d: Drained, d': Drained): Drained {
    Drained(d.replies + d'.replies, d'.end)
  }

  lemma {:induction false} DrainOk(m: State)
    requires Ok(m)
    ensures Drain(m).end.Live? ==>
              var m' := Drain(m).end.state; Ok(m') && Drain(m') == Drained([], Live(m'))
    decreases |m.input|
  {
    RunOk(m);
    var o := Run(m);
    if o.Out? {
      DrainOk(State([], None, o.rest));
    }
  }

  /** What a drain amounts to once x has arrived after it. */
  function Resume(d: Drained, x: bytes): Drained
    requires d.end.Live? ==> TypeKnown(d.end.state)
  {
    if d.end.Dead? then d else Append(d, Drain(Feed(d.end.state, x)))
  }

  lemma ResumePrefix(r: Reply, d: Drained, x: bytes)
    requires d.end.Live? ==> TypeKnown(d.end.state)
    ensures Resume(Drained([r] + d.replies, d.end), x) ==
            Drained([r] + Resume(d, x).replies, Resume(d, x).end)
  {
    if d.end.Live? {
      var e := Drain(Feed(d.end.state, x));
      assert [r] + (d.replies + e.replies) == ([r] + d.replies) + e.replies;
    }
  }

  /** Draining at a cut and then feeding the rest is draining the whole. */
  lemma {:induction false} DrainSplit(m: State, x: bytes)
    requires Ok(m)
    ensures Drain(Feed(m, x)) == Resume(Drain(m), x)
    decreases |m.input|
  {
    RunExtend(m, x);
    assert TypeKnown(m);
    hide Run, Ok, Step;
    match Run(m)
    case Out(r, rest) =>
      var m' := State([], None, rest);
      FreshOk(rest);
      DrainSplit(m', x);
      assert Feed(m', x) == State([], None, rest + x);
      ResumePrefix(r, Drain(m'), x);
    case Wait(m') =>
      var d := Drain(Feed(m', x));
      assert Drain(m) == Drained([], Live(m')) && Drain(Feed(m, x)) == d;
      assert [] + d.replies == d.replies;
    case Bad(e) =>
      assert Drain(m) == Drained([], Dead(e));
  }

  /** Feeding piece after piece, taking every available reply after each. */
  function DrainPieces(end: End, pieces: seq<bytes>): Drained
    requires end.Live? ==> Ok(end.state)
    decreases |pieces|
  {
    if pieces == [] || end.Dead? then Drained([], end)
    else
      var m := Feed(end.state, pieces[0]);
      var d := Drain(m);
      DrainOk(m);
      Append(d, DrainPieces(d.end, pieces[1..]))
  }

  /** Split independence: the replies and the final error do not depend on where the input is cut. */
  lemma {:induction false} SplitIndependence(m: State, pieces: seq<bytes>)
    requires Ok(m) && Drain(m) == Drained([], Live(m))
    ensures DrainPieces(Live(m), pieces) == Drain(Feed(m, Concat(pieces)))
    decreases |pieces|
  {
    if pieces == [] {
      assert Feed(m, []) == m;
    } else {
      var m1 := Feed(m, pieces[0]);
      var x := Concat(pieces[1..]);
      assert Feed(m1, x) == Feed(m, Concat(pieces));
      DrainSplit(m1, x);
      DrainOk(m1);
      var d := Drain(m1);
      if d.end.Live? {
        SplitIndependence(d.end.state, pieces[1..]);
      } else {
        assert d.replies + [] == d.replies;
      }
    }
  }

  /**
   * The whole client-side law: any sequence of replies written on the wire is read back exactly,
   * with nothing left over, whatever pieces the network delivers it in.
   */
  lemma RepliesSurviveTheWire(rs: seq<Reply>, pieces: seq<bytes>)
    requires forall i :: 0 <= i < |rs| ==> Writable(rs[i], 0)
    requires Concat(pieces) == SerialiseAll(rs)
    ensures DrainPieces(Live(START), pieces) == Drained(rs, Live(START))
  {
    assert Run(START) == Wait(START);
    SplitIndependence(START, pieces);
    DrainSerialised(rs);
    assert Feed(START, SerialiseAll(rs)) == State([], None, SerialiseAll(rs));
  }

  lemma {:induction false} DrainSerialised(rs: seq<Reply>)
    requires forall i :: 0 <= i < |rs| ==> Writable(rs[i], 0)
    ensures Drain(State([], None, SerialiseAll(rs))) == Drained(rs, Live(START))
    decreases rs
  {
    if rs == [] {
      assert Run(START) == Wait(START);
    } else {
      ParseSerialised(rs[0], 0, SerialiseAll(rs[1..]));
      TopLevelIsParse(SerialiseAll(rs));
      DrainSerialised(rs[1..]);
      assert [rs[0]] + rs[1..] == rs;
    }
  }
}
