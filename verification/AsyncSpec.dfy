/**
 * What an asynchronous connection of async.c does, as a function on values: the queue of callbacks,
 * the flags that decide when commands are refused and when the context is torn down, and the
 * history of callbacks called. Callbacks may themselves issue commands, disconnect or free the
 * context; what they do is given by a script. Contexts that enter subscribe or monitor mode are not
 * part of this model.
 */
module AsyncSpec {
  import opened Bytes
  import opened RespSpec

  const ERR_OTHER := 2

  /** A registered callback. The function pointer fn is 0 for NULL. */
  datatype Callback = Callback(fn: nat, privdata: int)

  // ---------------------------------------------------------------- the history

  /** A callback that left the queue, with the reply it got, or None for NULL. */
  datatype Entry = Entry(cb: Callback, reply: Option<Reply>)

  /**
   * The history of a context: the commands accepted, the callbacks that left the queue, those that
   * were called, and the replies that arrived for them.
   */
  datatype Log = Log(accepted: seq<Callback>, taken: seq<Entry>, fired: seq<Entry>, got: seq<Reply>)

  const EMPTY := Log([], [], [], [])

  function Accept(log: Log, cb: Callback): Log {
    log.(accepted := log.accepted + [cb])
  }

  /** A callback leaves the queue with a reply or, once there are no more replies, with NULL. */
  function Take(log: Log, e: Entry): Log {
    log.(taken := log.taken + [e], got := if e.reply.Some? then log.got + [e.reply.value] else log.got)
  }

  // ---------------------------------------------------------------- the context

  /** The bits of redisContext.flags that matter here. */
  datatype Flags = Flags(connected: bool, disconnecting: bool, freeing: bool, inCallback: bool)

  predicate Refuses(f: Flags) {
    f.disconnecting || f.freeing
  }

  /** What a callback, or the program between callbacks, may do with a context. */
  datatype Op = Command(cb: Callback, length: nat) | Disconnect | Free

  /**
   * A context: the error of the connection and its copy that the program sees, the bytes of
   * commands not yet written, what the disconnect callback was called with, what the callbacks
   * still to be called will do, the callbacks pending, and the history.
   */
  datatype State = State(flags: Flags, contextErr: int, err: int, obuf: nat, freed: bool, notified: seq<bool>,
                         onDisconnect: bool, script: seq<seq<Op>>, pending: seq<Callback>, log: Log)

  function Start(connected: bool, onDisconnect: bool, script: seq<seq<Op>>): State {
    State(Flags(connected, false, false, false), 0, 0, 0, false, [], onDisconnect, script, [], EMPTY)
  }

  /** __redisAsyncCommand. */
  function Accepting(s: State, cb: Callback, length: nat): State {
    if Refuses(s.flags) then s
    else s.(obuf := s.obuf + length, pending := s.pending + [cb], log := Accept(s.log, cb))
  }

  /** An operation performed inside a callback, where every teardown is put off. */
  function Inside(s: State, op: Op): State {
    match op
    case Command(cb, length) => Accepting(s, cb, length)
    case Disconnect => s.(flags := s.flags.(disconnecting := true))
    case Free => s.(flags := s.flags.(freeing := true))
  }

  function InsideAll(s: State, ops: seq<Op>): (t: State)
    ensures Refuses(s.flags) ==> Refuses(t.flags) && t.pending == s.pending
    ensures |t.pending| >= |s.pending| && t.freed == s.freed
    decreases |ops|
  {
    if ops == [] then s else InsideAll(Inside(s, ops[0]), ops[1..])
  }

  /** __redisRunCallback, with whatever the callback itself does to the context. */
  function RunCallback(s: State, cb: Callback, reply: Option<Reply>): (t: State)
    ensures Refuses(s.flags) ==> Refuses(t.flags) && t.pending == s.pending
    ensures |t.pending| >= |s.pending| && t.freed == s.freed
  {
    if cb.fn == 0 then s
    else
      var called := s.(flags := s.flags.(inCallback := true), log := s.log.(fired := s.log.fired + [Entry(cb, reply)]));
      var done := if s.script == [] then called else InsideAll(called.(script := s.script[1..]), s.script[0]);
      done.(flags := done.flags.(inCallback := false))
  }

  /** __redisShiftCallback; the callback shifted is to be called with the given reply. */
  function Shift(s: State, reply: Option<Reply>): State
    requires s.pending != []
  {
    s.(pending := s.pending[1..], log := Take(s.log, Entry(s.pending[0], reply)))
  }

  /** The first pending callback leaves the queue and is called. */
  function Serve(s: State, reply: Option<Reply>): (t: State)
    requires s.pending != []
    ensures Refuses(s.flags) ==> Refuses(t.flags) && |t.pending| < |s.pending|
    ensures |t.pending| + 1 >= |s.pending| && t.freed == s.freed
  {
    RunCallback(Shift(s, reply), s.pending[0], reply)
  }

  /** The drain of __redisAsyncFree. It ends because no callback can add to the queue. */
  function Drain(s: State): State
    requires s.pending == [] || Refuses(s.flags)
    decreases |s.pending|
  {
    if s.pending == [] then s else Drain(Serve(s, None))
  }

  /** __redisAsyncFree: every pending callback is called with NULL, then the disconnect callback. */
  function FreeNow(s: State): (t: State)
    requires s.pending == [] || Refuses(s.flags)
    ensures t.freed
  {
    var d := Drain(s);
    d.(notified := d.notified + (if d.onDisconnect && d.flags.connected then [d.flags.freeing || d.err == 0] else []),
       freed := true)
  }

  /** __redisAsyncDisconnect. A disconnect without an error happens only when nothing is pending. */
  function DisconnectNow(s: State): (t: State)
    requires s.contextErr == 0 ==> s.pending == []
    ensures t.freed
  {
    if s.contextErr == 0 then FreeNow(s.(err := 0))
    else FreeNow(s.(err := s.contextErr, flags := s.flags.(disconnecting := true)))
  }

  /** One round of redisProcessCallbacks. */
  function OnReply(s: State, reply: Reply): (t: State)
    ensures t.freed || |t.pending| + 1 >= |s.pending|
  {
    if s.pending == [] then DisconnectNow(s.(contextErr := ERR_OTHER))
    else
      var t := Serve(s, Some(reply));
      if s.pending[0].fn != 0 && t.flags.freeing then FreeNow(t) else t
  }

  function OnReplies(s: State, replies: seq<Reply>): State
    decreases |replies|
  {
    if replies == [] || s.freed then s else OnReplies(OnReply(s, replies[0]), replies[1..])
  }

  /** What redisProcessCallbacks does once there are no more replies. */
  function OnQuiet(s: State, error: int): State {
    if s.freed then s
    else if error != 0 then DisconnectNow(s.(contextErr := error))
    else if s.flags.disconnecting && s.obuf == 0 && s.pending == [] then DisconnectNow(s)
    else s
  }

  // ---------------------------------------------------------------- whole runs

  /** What can happen to a context from outside its callbacks. */
  datatype Event =
    | Act(op: Op)
    /** Bytes written to the socket, or an error of the connection. */
    | Written(count: nat, error: int)
    /** Replies to pending commands, possibly an error the server sends by itself, possibly an error of the connection. */
    | Readable(answers: seq<Reply>, unasked: Option<bytes>, error: int)

  /** At most one answer per pending command. */
  function Arriving(e: Event, pending: nat): seq<Reply>
    requires e.Readable?
  {
    if |e.answers| < pending || e.unasked.None? then e.answers[..if |e.answers| < pending then |e.answers| else pending]
    else e.answers[..pending] + [Err(e.unasked.value)]
  }

  function Apply(s: State, e: Event): State {
    match e
    case Act(Command(cb, length)) => Accepting(s, cb, length)
    case Act(Disconnect) =>
      var t := s.(flags := s.flags.(disconnecting := true));
      if t.pending == [] then DisconnectNow(t) else t
    case Act(Free) => FreeNow(s.(flags := s.flags.(freeing := true)))
    case Written(count, error) =>
      if error != 0 then DisconnectNow(s.(contextErr := error))
      else s.(obuf := if count < s.obuf then s.obuf - count else 0)
    case Readable(_, _, error) => OnQuiet(OnReplies(s, Arriving(e, |s.pending|)), error)
  }

  /** Events on a context, until they end or it is gone. */
  function Replay(s: State, events: seq<Event>): State
    decreases |events|
  {
    if events == [] then s
    else
      var t := Replay(s, events[..|events| - 1]);
      if t.freed then t else Apply(t, events[|events| - 1])
  }

  // ---------------------------------------------------------------- what every state keeps

  function Callbacks(es: seq<Entry>): (cbs: seq<Callback>)
    ensures |cbs| == |es| && forall i :: 0 <= i < |es| ==> cbs[i] == es[i].cb
  {
    seq(|es|, i requires 0 <= i < |es| => es[i].cb)
  }

  /** The entries whose callback is not NULL. */
  function Called(es: seq<Entry>): seq<Entry> {
    if es == [] then []
    else
      var front := Called(es[..|es| - 1]);
      if es[|es| - 1].cb.fn != 0 then front + [es[|es| - 1]] else front
  }

  /**
   * Every accepted command's callback left the queue once, in order, or is still pending; the first
   * got the replies, later ones NULL.
   */
  ghost predicate Accounts(log: Log, pending: seq<Callback>) {
    && log.accepted == Callbacks(log.taken) + pending
    && |log.got| <= |log.taken|
    && forall i :: 0 <= i < |log.taken| ==>
         log.taken[i].reply == if i < |log.got| then Some(log.got[i]) else None
  }

  /** No callback is running, and every callback that left the queue was called. */
  ghost predicate Quiet(s: State) {
    Accounts(s.log, s.pending) && s.log.fired == Called(s.log.taken) && !s.flags.inCallback && s.notified == []
  }

  /** Between events: each callback that left the queue so far got a reply, and nobody asked for the end at once. */
  ghost predicate Idle(s: State) {
    Quiet(s) && !s.freed && |s.log.got| == |s.log.taken| && s.contextErr == 0 && !s.flags.freeing
  }

  /** No callback is left pending, and the disconnect callback was told once whether the end was wanted. */
  ghost predicate Gone(s: State) {
    && s.freed && s.pending == [] && Accounts(s.log, []) && s.log.fired == Called(s.log.taken)
    && s.notified == if s.onDisconnect && s.flags.connected then [s.flags.freeing || s.err == 0] else []
  }

  ghost predicate Sound(s: State) {
    if s.freed then Gone(s) else Idle(s)
  }

  lemma CalledAppend(es: seq<Entry>, e: Entry)
    ensures Called(es + [e]) == if e.cb.fn != 0 then Called(es) + [e] else Called(es)
  {
    assert (es + [e])[..|es|] == es;
  }

  /** What was called are the entries whose callback is not NULL, each where it stands. */
  lemma {:induction false} CalledExactly(before: seq<Entry>, e: Entry, after: seq<Entry>)
    ensures Called(before + [e] + after) == Called(before) + (if e.cb.fn != 0 then [e] else []) + Called(after)
    decreases |after|
  {
    hide *;
    var one := if e.cb.fn != 0 then [e] else [];
    if after == [] {
      CalledAppend(before, e);
      NoneCalled();
      assert before + [e] + after == before + [e];
      assert Called(before) + [] == Called(before) && Called(before) + one + [] == Called(before) + one;
    } else {
      var k := |after| - 1;
      var front, x := after[..k], after[k];
      CalledExactly(before, e, front);
      CalledAppend(before + [e] + front, x);
      CalledAppend(front, x);
      assert before + [e] + after == (before + [e] + front) + [x] && after == front + [x];
      assert Called(before) + one + Called(front) + [x] == Called(before) + one + (Called(front) + [x]);
    }
  }

  lemma NoneCalled()
    ensures Called([]) == []
  {
  }

  lemma TakeAccounts(log: Log, cb: Callback, reply: Option<Reply>, pending: seq<Callback>)
    requires Accounts(log, [cb] + pending) && (reply.Some? ==> |log.got| == |log.taken|)
    ensures Accounts(Take(log, Entry(cb, reply)), pending)
  {
    var log' := Take(log, Entry(cb, reply));
    assert Callbacks(log'.taken) == Callbacks(log.taken) + [cb];
    assert Callbacks(log.taken) + ([cb] + pending) == Callbacks(log'.taken) + pending;
  }

  lemma AcceptAccounts(log: Log, cb: Callback, pending: seq<Callback>)
    requires Accounts(log, pending)
    ensures Accounts(Accept(log, cb), pending + [cb])
  {
    assert Callbacks(log.taken) + (pending + [cb]) == (Callbacks(log.taken) + pending) + [cb];
  }

  /** Of a log only what was accepted changes, and flags are raised, never lowered. */
  ghost predicate Grown(s: State, t: State) {
    && t.log == s.log.(accepted := t.log.accepted) && s.log.accepted <= t.log.accepted
    && t.flags.connected == s.flags.connected && t.flags.inCallback == s.flags.inCallback
    && (s.flags.disconnecting ==> t.flags.disconnecting) && (s.flags.freeing ==> t.flags.freeing)
    && t.contextErr == s.contextErr && t.err == s.err && t.freed == s.freed && t.notified == s.notified
    && t.onDisconnect == s.onDisconnect
  }

  lemma {:induction false} InsideKeeps(s: State, ops: seq<Op>)
    requires Accounts(s.log, s.pending)
    ensures var t := InsideAll(s, ops); Accounts(t.log, t.pending) && Grown(s, t)
    decreases |ops|
  {
    hide Accounts;
    if ops != [] {
      var t := Inside(s, ops[0]);
      if ops[0].Command? {
        AcceptAccounts(s.log, ops[0].cb, s.pending);
      }
      assert Grown(s, t);
      InsideKeeps(t, ops[1..]);
    }
  }

  /** The callback just taken from the queue is the only one not yet called. */
  ghost predicate Due(log: Log, cb: Callback, reply: Option<Reply>) {
    Called(log.taken) == if cb.fn != 0 then log.fired + [Entry(cb, reply)] else log.fired
  }

  /** A callback is called once, and all it does itself is to raise flags and to have commands accepted. */
  lemma RunKeeps(s: State, cb: Callback, reply: Option<Reply>)
    requires Accounts(s.log, s.pending) && !s.flags.inCallback && Due(s.log, cb, reply)
    ensures var t := RunCallback(s, cb, reply);
            && Accounts(t.log, t.pending) && t.log.fired == Called(t.log.taken)
            && Grown(s.(log := s.log.(fired := t.log.fired)), t)
  {
    hide Called;
    var called := s.(flags := s.flags.(inCallback := true), log := s.log.(fired := s.log.fired + [Entry(cb, reply)]));
    assert Accounts(called.log, called.pending);
    hide Accounts;
    if cb.fn != 0 && s.script != [] {
      InsideKeeps(called.(script := s.script[1..]), s.script[0]);
    }
    hide InsideAll;
  }

  /** What serving the first pending callback keeps. */
  lemma ServeKeeps(s: State, reply: Option<Reply>)
    requires Quiet(s) && s.pending != [] && (reply.Some? ==> |s.log.got| == |s.log.taken|)
    ensures var t := Serve(s, reply);
            && Quiet(t) && t.log.taken == s.log.taken + [Entry(s.pending[0], reply)]
            && t.log.got == s.log.got + (if reply.Some? then [reply.value] else [])
            && Grown(s.(log := t.log.(accepted := s.log.accepted)), t)
  {
    var u := Shift(s, reply);
    assert s.pending == [s.pending[0]] + u.pending;
    TakeAccounts(s.log, s.pending[0], reply, u.pending);
    CalledAppend(s.log.taken, Entry(s.pending[0], reply));
    hide Accounts, Called, RunCallback;
    RunKeeps(u, s.pending[0], reply);
  }

  lemma {:induction false} DrainKeeps(s: State)
    requires Quiet(s) && (s.pending == [] || Refuses(s.flags))
    ensures var t := Drain(s);
            && Quiet(t) && t.pending == [] && t.log.got == s.log.got
            && Grown(s.(log := t.log.(accepted := s.log.accepted)), t)
    decreases |s.pending|
  {
    hide Quiet, Serve;
    if s.pending != [] {
      ServeKeeps(s, None);
      assert s.log.got + [] == s.log.got;
      DrainKeeps(Serve(s, None));
    }
  }

  /** A teardown leaves nothing pending, and tells the disconnect callback once. */
  lemma FreeKeeps(s: State)
    requires Quiet(s) && (s.pending == [] || Refuses(s.flags))
    ensures var t := FreeNow(s);
            Gone(t) && t.log.got == s.log.got && s.log.accepted <= t.log.accepted && t.err == s.err
  {
    DrainKeeps(s);
    hide Drain, Called, Accounts;
  }

  lemma DisconnectKeeps(s: State)
    requires Quiet(s) && (s.contextErr == 0 ==> s.pending == [])
    ensures var t := DisconnectNow(s);
            Gone(t) && t.log.got == s.log.got && s.log.accepted <= t.log.accepted && t.err == s.contextErr
  {
    hide Called, Accounts, FreeNow;
    FreeKeeps(if s.contextErr == 0 then s.(err := 0)
              else s.(err := s.contextErr, flags := s.flags.(disconnecting := true)));
  }

  /** A reply goes to the first pending callback; one that nobody waits for ends the connection. */
  lemma ReplyKeeps(s: State, reply: Reply)
    requires Idle(s)
    ensures var t := OnReply(s, reply);
            && Sound(t) && s.log.accepted <= t.log.accepted
            && t.log.got == s.log.got + (if s.pending == [] then [] else [reply])
  {
    hide Called, Accounts;
    if s.pending == [] {
      hide Gone, DisconnectNow;
      DisconnectKeeps(s.(contextErr := ERR_OTHER));
      assert s.log.got + [] == s.log.got;
    } else {
      ServeKeeps(s, Some(reply));
      var t := Serve(s, Some(reply));
      hide Serve;
      if s.pending[0].fn != 0 && t.flags.freeing {
        hide Gone, FreeNow;
        FreeKeeps(t);
      }
    }
  }

  /** Replies are used one by one until they end or the context is gone. */
  lemma {:induction false} RepliesKeep(s: State, replies: seq<Reply>) returns (used: nat)
    requires Sound(s)
    ensures var t := OnReplies(s, replies);
            && Sound(t) && s.log.accepted <= t.log.accepted
            && used <= |replies| && t.log.got == s.log.got + replies[..used]
            && (!t.freed ==> used == |replies|)
    decreases |replies|
  {
    hide Sound, OnReply;
    used := 0;
    assert s.log.got + replies[..0] == s.log.got;
    if replies != [] && !s.freed {
      ReplyFirst(s, replies[0]);
      var t := OnReply(s, replies[0]);
      if s.pending != [] {
        var more := RepliesKeep(t, replies[1..]);
        used := more + 1;
        assert replies[..used] == [replies[0]] + replies[1..][..more];
      }
    }
  }

  lemma ReplyFirst(s: State, reply: Reply)
    requires Sound(s) && !s.freed
    ensures var t := OnReply(s, reply);
            && Sound(t) && s.log.accepted <= t.log.accepted && (s.pending == [] ==> t.freed)
            && t.log.got == s.log.got + (if s.pending == [] then [] else [reply])
            && (!t.freed ==> |t.pending| + 1 >= |s.pending|)
  {
    ReplyKeeps(s, reply);
    hide Called, Accounts, Serve, FreeNow;
  }

  /** When the replies are used up, an error or a wanted disconnect ends the connection. */
  lemma QuietKeeps(s: State, error: int)
    requires Sound(s)
    ensures var t := OnQuiet(s, error);
            && Sound(t) && s.log.accepted <= t.log.accepted && t.log.got == s.log.got
            && (t.freed <==> s.freed || error != 0 || (s.flags.disconnecting && s.obuf == 0 && s.pending == []))
  {
    hide Called, Accounts, DisconnectNow;
    if !s.freed {
      if error != 0 {
        hide Gone;
        DisconnectKeeps(s.(contextErr := error));
      } else if s.flags.disconnecting && s.obuf == 0 && s.pending == [] {
        DisconnectKeeps(s);
      }
    }
  }

  // ---------------------------------------------------------------- laws of events

  /** The replies that a readable event hands to callbacks: those that arrived, all of them unless the context is gone. */
  lemma ReadableKeeps(s: State, e: Event) returns (used: nat)
    requires Idle(s) && e.Readable?
    ensures var t, arrived := Apply(s, e), Arriving(e, |s.pending|);
            && Sound(t) && s.log.accepted <= t.log.accepted
            && used <= |arrived| && t.log.got == s.log.got + arrived[..used] && (!t.freed ==> used == |arrived|)
  {
    hide Quiet, Gone, OnReplies, OnQuiet, Arriving;
    used := RepliesKeep(s, Arriving(e, |s.pending|));
    QuietKeeps(OnReplies(s, Arriving(e, |s.pending|)), e.error);
  }

  /** Every event keeps an idle context idle or leaves it gone, and forgets nothing that was accepted or answered. */
  lemma ApplyKeeps(s: State, e: Event)
    requires Idle(s)
    ensures var t := Apply(s, e); Sound(t) && s.log.accepted <= t.log.accepted && s.log.got <= t.log.got
  {
    hide Called, FreeNow, DisconnectNow, OnReplies, OnQuiet;
    match e
    case Act(Command(cb, length)) =>
      AcceptAccounts(s.log, cb, s.pending);
      hide Accounts;
    case Act(Disconnect) =>
      hide Gone, Accounts;
      if s.pending == [] {
        DisconnectKeeps(s.(flags := s.flags.(disconnecting := true)));
      }
    case Act(Free) =>
      hide Gone, Accounts;
      FreeKeeps(s.(flags := s.flags.(freeing := true)));
    case Written(_, error) =>
      hide Gone, Accounts;
      if error != 0 {
        DisconnectKeeps(s.(contextErr := error));
      }
    case Readable(_, _, _) =>
      var used := ReadableKeeps(s, e);
  }

  lemma {:induction false} ReplayKeeps(s: State, events: seq<Event>)
    requires Idle(s)
    ensures Sound(Replay(s, events))
    decreases |events|
  {
    hide Quiet, Gone, Apply;
    if events != [] {
      var k := |events| - 1;
      ReplayKeeps(s, events[..k]);
      if !Replay(s, events[..k]).freed {
        ApplyKeeps(Replay(s, events[..k]), events[k]);
      }
    }
  }

  lemma StartIdle(connected: bool, onDisconnect: bool, script: seq<seq<Op>>)
    ensures Idle(Start(connected, onDisconnect, script))
  {
  }

  /** The callbacks called are the non-NULL ones of the accepted commands that are no longer pending, in order. */
  ghost predicate InOrder(log: Log, pending: seq<Callback>) {
    var n := |log.accepted| - |pending|;
    && n >= |log.got| && log.accepted[n..] == pending
    && Callbacks(log.fired) == NotNull(log.accepted[..n])
    && log.fired == Called(Answered(log.accepted[..n], log.got))
  }

  /** The commands with their replies, and NULL for those beyond the last reply. */
  function Answered(cbs: seq<Callback>, got: seq<Reply>): (es: seq<Entry>)
    ensures |es| == |cbs|
    ensures forall i :: 0 <= i < |es| ==> es[i] == Entry(cbs[i], if i < |got| then Some(got[i]) else None)
  {
    seq(|cbs|, i requires 0 <= i < |cbs| => Entry(cbs[i], if i < |got| then Some(got[i]) else None))
  }

  function NotNull(cbs: seq<Callback>): seq<Callback> {
    if cbs == [] then []
    else
      var front := NotNull(cbs[..|cbs| - 1]);
      if cbs[|cbs| - 1].fn != 0 then front + [cbs[|cbs| - 1]] else front
  }

  lemma {:induction false} CalledCallbacks(es: seq<Entry>)
    ensures Callbacks(Called(es)) == NotNull(Callbacks(es))
  {
    if es != [] {
      var k := |es| - 1;
      CalledCallbacks(es[..k]);
      assert Callbacks(es)[..k] == Callbacks(es[..k]);
      var front := Called(es[..k]);
      assert Callbacks(front + [es[k]]) == Callbacks(front) + [es[k].cb];
    }
  }

  lemma AccountsInOrder(log: Log, pending: seq<Callback>)
    requires Accounts(log, pending) && log.fired == Called(log.taken)
    ensures InOrder(log, pending)
  {
    var n := |log.taken|;
    assert log.accepted[..n] == Callbacks(log.taken) && log.accepted[n..] == pending;
    assert Answered(log.accepted[..n], log.got) == log.taken;
    CalledCallbacks(log.taken);
  }

  /**
   * Whatever happens to a context and whatever its callbacks do, they are called exactly once each,
   * in the order their commands were accepted: the n-th with the n-th reply, and those left when the
   * context goes with NULL. While it lives, every callback that left the queue has had its reply.
   */
  lemma ExactlyOnceInOrder(connected: bool, onDisconnect: bool, script: seq<seq<Op>>, events: seq<Event>)
    ensures var s := Replay(Start(connected, onDisconnect, script), events);
            && InOrder(s.log, s.pending)
            && (if s.freed then s.pending == [] else |s.log.accepted| == |s.log.got| + |s.pending|)
            && s.notified == if s.freed && s.onDisconnect && s.flags.connected then [s.flags.freeing || s.err == 0] else []
  {
    StartIdle(connected, onDisconnect, script);
    ReplayKeeps(Start(connected, onDisconnect, script), events);
    var s := Replay(Start(connected, onDisconnect, script), events);
    hide Replay, InOrder;
    AccountsInOrder(s.log, s.pending);
  }

  // ---------------------------------------------------------------- what is accepted

  /** The commands among some operations up to the first that asks for the end of the connection. */
  function Offered(ops: seq<Op>): seq<Callback> {
    if ops == [] || !ops[0].Command? then [] else [ops[0].cb] + Offered(ops[1..])
  }

  /** How a state differs from another by what callbacks asked for. */
  predicate Asked(s: State, t: State, more: seq<Callback>, disconnect: bool, free: bool) {
    && t.log.accepted == s.log.accepted + more && t.pending == s.pending + more
    && (t.flags.disconnecting <==> s.flags.disconnecting || disconnect)
    && (t.flags.freeing <==> s.flags.freeing || free)
  }

  lemma AskedFirst(s: State, op: Op)
    ensures var more := if op.Command? && !Refuses(s.flags) then [op.cb] else [];
            Asked(s, Inside(s, op), more, op == Disconnect, op == Free)
  {
    assert s.log.accepted + [] == s.log.accepted && s.pending + [] == s.pending;
  }

  lemma AskedThen(s: State, t: State, u: State, m: seq<Callback>, d: bool, f: bool, m': seq<Callback>, d': bool, f': bool)
    requires Asked(s, t, m, d, f) && Asked(t, u, m', d', f')
    ensures Asked(s, u, m + m', d || d', f || f')
  {
    assert s.log.accepted + m + m' == s.log.accepted + (m + m');
    assert s.pending + m + m' == s.pending + (m + m');
  }

  /**
   * Of what a callback does, exactly the commands before its first disconnect or free are accepted, in
   * order, and none if the context was refusing already.
   */
  lemma {:induction false} InsideAccepts(s: State, ops: seq<Op>)
    ensures Asked(s, InsideAll(s, ops), if Refuses(s.flags) then [] else Offered(ops), Disconnect in ops, Free in ops)
    decreases |ops|
  {
    if ops == [] {
      assert s.log.accepted + [] == s.log.accepted && s.pending + [] == s.pending;
    } else {
      var op, t, rest := ops[0], Inside(s, ops[0]), ops[1..];
      var more := if op.Command? && !Refuses(s.flags) then [op.cb] else [];
      InsideAccepts(t, rest);
      AskedFirst(s, op);
      var after := if Refuses(t.flags) then [] else Offered(rest);
      AskedThen(s, t, InsideAll(t, rest), more, op == Disconnect, op == Free, after, Disconnect in rest, Free in rest);
      assert ops == [op] + rest;
      hide Asked;
    }
  }

  /** Calling a pending callback takes it from the queue and adds what its own entry of the script offers. */
  lemma ServeAccepts(s: State, reply: Option<Reply>)
    requires s.pending != []
    ensures var t := Serve(s, reply);
            var more := if s.pending[0].fn == 0 || s.script == [] || Refuses(s.flags) then [] else Offered(s.script[0]);
            && t.log.accepted == s.log.accepted + more && t.pending == s.pending[1..] + more
            && t.script == if s.pending[0].fn == 0 || s.script == [] then s.script else s.script[1..]
  {
    var called := Shift(s, reply).(flags := s.flags.(inCallback := true));
    hide Offered, InsideAll;
    if s.pending[0].fn != 0 && s.script != [] {
      var u := Shift(s, reply);
      var v := u.(flags := u.flags.(inCallback := true), log := u.log.(fired := u.log.fired + [Entry(s.pending[0], reply)]),
                  script := u.script[1..]);
      InsideAccepts(v, s.script[0]);
      InsideScript(v, s.script[0]);
    }
    assert s.log.accepted + [] == s.log.accepted && s.pending[1..] + [] == s.pending[1..];
  }

  lemma {:induction false} InsideScript(s: State, ops: seq<Op>)
    ensures InsideAll(s, ops).script == s.script
    decreases |ops|
  {
    if ops != [] {
      InsideScript(Inside(s, ops[0]), ops[1..]);
    }
  }

  /**
   * A command from outside is accepted, at the end of the queue, exactly when the context is neither
   * disconnecting nor freeing; its bytes are then to be written.
   */
  lemma CommandAccepted(s: State, cb: Callback, length: nat)
    ensures var t := Apply(s, Act(Command(cb, length)));
            var refuses := s.flags.disconnecting || s.flags.freeing;
            var more := if refuses then [] else [cb];
            && t.log == s.log.(accepted := s.log.accepted + more) && t.pending == s.pending + more
            && t.obuf == s.obuf + (if refuses then 0 else length) && t.freed == s.freed && t.flags == s.flags
  {
    assert s.log.accepted + [] == s.log.accepted && s.pending + [] == s.pending;
  }

  /** The bytes of the commands among some operations up to the first that asks for the end of the connection. */
  function OfferedBytes(ops: seq<Op>): nat {
    if ops == [] || !ops[0].Command? then 0 else ops[0].length + OfferedBytes(ops[1..])
  }

  /** What a callback's accepted commands leave to be written. */
  lemma {:induction false} InsideWrites(s: State, ops: seq<Op>)
    ensures InsideAll(s, ops).obuf == s.obuf + if Refuses(s.flags) then 0 else OfferedBytes(ops)
    decreases |ops|
  {
    if ops != [] {
      InsideWrites(Inside(s, ops[0]), ops[1..]);
    }
  }

  // ---------------------------------------------------------------- a clean disconnect

  /** No callback frees the context. */
  predicate Gentle(script: seq<seq<Op>>) {
    forall i :: 0 <= i < |script| ==> Free !in script[i]
  }

  lemma ServeGently(s: State, reply: Reply)
    requires s.flags.disconnecting && !s.flags.freeing && s.pending != [] && Gentle(s.script)
    ensures var t := Serve(s, Some(reply));
            && t.pending == s.pending[1..] && t.obuf == s.obuf && Gentle(t.script)
            && t.flags.disconnecting && !t.flags.freeing
  {
    ServeAccepts(s, Some(reply));
    assert s.pending[1..] + [] == s.pending[1..];
    hide InsideAll;
    if s.pending[0].fn != 0 && s.script != [] {
      var u := Shift(s, Some(reply));
      var v := u.(flags := u.flags.(inCallback := true),
                  log := u.log.(fired := u.log.fired + [Entry(s.pending[0], Some(reply))]), script := u.script[1..]);
      InsideAccepts(v, s.script[0]);
      InsideWrites(v, s.script[0]);
    }
  }

  lemma ReplyGently(s: State, reply: Reply)
    requires Idle(s) && s.flags.disconnecting && Gentle(s.script) && s.pending != []
    ensures var t := OnReply(s, reply);
            && Idle(t) && t.pending == s.pending[1..] && t.obuf == s.obuf && t.flags.disconnecting && Gentle(t.script)
            && t.log.got == s.log.got + [reply]
  {
    ReplyKeeps(s, reply);
    hide Quiet, Gone, Serve, Gentle;
    ServeGently(s, reply);
    assert OnReply(s, reply) == Serve(s, Some(reply));
  }

  lemma RepliesUnfold(s: State, replies: seq<Reply>)
    requires Idle(s)
    ensures OnReplies(s, replies) == if replies == [] then s else OnReplies(OnReply(s, replies[0]), replies[1..])
  {
    hide Quiet, OnReply;
  }

  /** All pending callbacks were called with these replies, and nothing else happened. */
  ghost predicate AllServed(s: State, replies: seq<Reply>, t: State) {
    Idle(t) && t.pending == [] && t.obuf == s.obuf && t.flags.disconnecting && t.log.got == s.log.got + replies
  }

  lemma NoneServed(s: State)
    requires Idle(s) && s.flags.disconnecting && s.pending == []
    ensures AllServed(s, [], s)
  {
    hide Idle;
    assert s.log.got + [] == s.log.got;
  }

  lemma OneServed(s: State, t: State, u: State, replies: seq<Reply>)
    requires replies != [] && t.obuf == s.obuf && t.log.got == s.log.got + [replies[0]] && AllServed(t, replies[1..], u)
    ensures AllServed(s, replies, u)
  {
    hide Idle;
    assert s.log.got + [replies[0]] + replies[1..] == s.log.got + replies;
  }

  lemma {:induction false} AnsweredGently(s: State, replies: seq<Reply>)
    requires Idle(s) && s.flags.disconnecting && Gentle(s.script) && |replies| == |s.pending|
    ensures AllServed(s, replies, OnReplies(s, replies))
    decreases |replies|
  {
    RepliesUnfold(s, replies);
    hide *;
    if replies == [] {
      NoneServed(s);
    } else {
      var t, rest := OnReply(s, replies[0]), replies[1..];
      ReplyGently(s, replies[0]);
      AnsweredGently(t, rest);
      OneServed(s, t, OnReplies(t, rest), replies);
    }
  }

  /**
   * A disconnect that was asked for ends cleanly: once all commands are written and answered, every
   * callback has had its own reply, and the disconnect callback is told that nothing went wrong.
   */
  lemma CleanDisconnect(s: State, answers: seq<Reply>)
    requires Idle(s) && s.flags.disconnecting && s.obuf == 0 && Gentle(s.script) && |answers| == |s.pending|
    ensures var t := Apply(s, Readable(answers, None, 0));
            && t.freed && t.pending == [] && t.log.got == s.log.got + answers
            && t.notified == if t.onDisconnect && t.flags.connected then [true] else []
  {
    assert Arriving(Readable(answers, None, 0), |s.pending|) == answers;
    AnsweredGently(s, answers);
    var t := OnReplies(s, answers);
    hide Quiet, OnReplies, FreeNow, Arriving;
    assert Quiet(t);
    DisconnectKeeps(t);
  }

  // ---------------------------------------------------------------- how a context ends

  /** Written bytes leave the output buffer; an error of the connection ends the context with that error. */
  lemma WrittenExactly(s: State, count: nat, error: int)
    requires Idle(s)
    ensures var t := Apply(s, Written(count, error));
            if error == 0 then t == s.(obuf := if count < s.obuf then s.obuf - count else 0)
            else Gone(t) && t.err == error
  {
    if error != 0 {
      hide Gone, Accounts, Called;
      DisconnectKeeps(s.(contextErr := error));
    }
  }

  /** A disconnect from outside ends the context at once exactly if nothing is pending, and a free always. */
  lemma AskedOutside(s: State)
    requires Idle(s)
    ensures var t := Apply(s, Act(Disconnect));
            && t.flags.disconnecting && (t.freed <==> s.pending == []) && t.obuf == s.obuf
            && (t.freed ==> Gone(t) && t.err == 0)
            && (!t.freed ==> t == s.(flags := s.flags.(disconnecting := true)))
    ensures var t := Apply(s, Act(Free)); Gone(t) && t.flags.freeing && t.log.got == s.log.got
  {
    FreeKeeps(s.(flags := s.flags.(freeing := true)));
    FreeingStays(s.(flags := s.flags.(freeing := true)));
    hide Gone, Accounts, Called, Drain;
    if s.pending == [] {
      var t := s.(flags := s.flags.(disconnecting := true));
      DisconnectKeeps(t);
      NothingToDrain(t.(err := 0));
    }
  }

  lemma FreeingStays(s: State)
    requires Quiet(s) && s.flags.freeing
    ensures FreeNow(s).flags.freeing
  {
    DrainKeeps(s);
    hide Drain, Quiet;
  }

  lemma NothingToDrain(s: State)
    requires s.pending == []
    ensures Drain(s) == s
  {
  }

  /** A reply that nobody waits for, as an error sent unasked is, ends the context with REDIS_ERR_OTHER. */
  lemma UnaskedReply(s: State, reply: Reply)
    requires Idle(s) && s.pending == []
    ensures var t := OnReply(s, reply); Gone(t) && t.err == 2 && t.log.got == s.log.got
  {
    hide Gone, Accounts, Called, DisconnectNow;
    DisconnectKeeps(s.(contextErr := ERR_OTHER));
  }

  function Sum(counts: seq<nat>): nat {
    if counts == [] then 0 else Sum(counts[..|counts| - 1]) + counts[|counts| - 1]
  }

  function Writes(counts: seq<nat>): (es: seq<Event>)
    ensures |es| == |counts| && forall i :: 0 <= i < |es| ==> es[i] == Written(counts[i], 0)
  {
    seq(|counts|, i requires 0 <= i < |counts| => Written(counts[i], 0))
  }

  /** However the bytes are written, what is left is what there was less their sum. */
  lemma {:induction false} WritesAddUp(s: State, counts: seq<nat>)
    requires Idle(s)
    ensures Replay(s, Writes(counts)) == s.(obuf := if Sum(counts) < s.obuf then s.obuf - Sum(counts) else 0)
    decreases |counts|
  {
    hide Idle;
    if counts != [] {
      var k := |counts| - 1;
      WritesAddUp(s, counts[..k]);
      assert Writes(counts)[..k] == Writes(counts[..k]);
      StillIdle(s, if Sum(counts[..k]) < s.obuf then s.obuf - Sum(counts[..k]) else 0);
      WrittenExactly(Replay(s, Writes(counts[..k])), counts[k], 0);
      hide Apply;
    }
  }

  lemma StillIdle(s: State, n: nat)
    requires Idle(s)
    ensures Idle(s.(obuf := n))
  {
  }

  lemma ReplayOneMore(s: State, events: seq<Event>, e: Event)
    ensures Replay(s, events + [e]) == if Replay(s, events).freed then Replay(s, events) else Apply(Replay(s, events), e)
  {
    assert (events + [e])[..|events|] == events;
  }

  /**
   * A disconnect that was asked for ends, and cleanly, when the answers to all pending commands have
   * come, exactly if by then as many bytes have been written as there were to write.
   */
  lemma AskedDisconnectEnds(s: State, counts: seq<nat>, answers: seq<Reply>)
    requires Idle(s) && s.flags.disconnecting && Gentle(s.script) && |answers| == |s.pending|
    ensures var t := Replay(s, Writes(counts) + [Readable(answers, None, 0)]);
            && (t.freed <==> Sum(counts) >= s.obuf)
            && t.pending == [] && t.log.got == s.log.got + answers
            && (t.freed ==> t.notified == if t.onDisconnect && t.flags.connected then [true] else [])
  {
    var w, e := Replay(s, Writes(counts)), Readable(answers, None, 0);
    WritesAddUp(s, counts);
    ReplayOneMore(s, Writes(counts), e);
    assert Idle(w);
    hide Quiet, Replay, Writes, Sum;
    assert Replay(s, Writes(counts) + [e]) == Apply(w, e);
    if w.obuf == 0 {
      CleanDisconnect(w, answers);
    } else {
      assert Arriving(e, |w.pending|) == answers;
      AnsweredGently(w, answers);
      hide OnReplies, Arriving;
    }
  }
}
