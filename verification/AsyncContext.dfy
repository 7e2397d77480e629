/**
 * The callback queue of async.c on the heap: a linked list of callbacks, one per accepted command,
 * and the context whose methods push, shift and call them. Each method does what AsyncSpec says of
 * its state, teardown inside teardown and calls from within callbacks included.
 */
module AsyncContext {
  import opened AsyncSpec
  import opened Bytes
  import opened RespSpec

  // ---------------------------------------------------------------- the list

  class Node {
    const cb: Callback
    var next: Node?

    constructor (cb: Callback)
      ensures this.cb == cb && next == null
    {
      this.cb := cb;
      next := null;
    }
  }

  ghost function Contents(spine: seq<Node>): (s: seq<Callback>)
    ensures |s| == |spine| && forall i :: 0 <= i < |s| ==> s[i] == spine[i].cb
  {
    seq(|spine|, i requires 0 <= i < |spine| => spine[i].cb)
  }

  ghost function NodeAt(spine: seq<Node>, i: nat): Node? {
    if i < |spine| then spine[i] else null
  }

  /** The nodes of the spine are linked in order, and the last one ends the list. */
  ghost predicate Chained(spine: seq<Node>, nodes: set<object>)
    reads nodes
  {
    && (forall i :: 0 <= i < |spine| ==> spine[i] in nodes)
    && (forall i :: 0 <= i < |spine| ==> spine[i].next == NodeAt(spine, i + 1))
    && (forall i, j :: 0 <= i < j < |spine| ==> spine[i] != spine[j])
  }

  lemma ChainedTail(spine: seq<Node>, nodes: set<object>)
    requires Chained(spine, nodes) && spine != []
    ensures Chained(spine[1..], nodes)
    ensures spine[0].next == NodeAt(spine[1..], 0)
    ensures [spine[0].cb] + Contents(spine[1..]) == Contents(spine)
  {
    var rest := spine[1..];
    forall i | 0 <= i < |rest|
      ensures rest[i] in nodes && rest[i].next == NodeAt(rest, i + 1) {
      assert rest[i] == spine[i + 1];
    }
    assert [spine[0].cb] + Contents(rest) == Contents(spine);
  }

  /** Linking a new node behind the last. */
  method LinkLast(tail: Node, cb: Node, ghost spine: seq<Node>, ghost nodes: set<object>)
    requires Chained(spine, nodes) && spine != [] && tail == spine[|spine| - 1]
    requires cb !in nodes && cb.next == null
    modifies tail
    ensures Chained(spine + [cb], nodes + {cb})
  {
    tail.next := cb;
  }

  /** redisCallbackList. */
  class CallbackList {
    var head: Node?
    var tail: Node?
    ghost var spine: seq<Node>
    ghost var nodes: set<object>

    ghost predicate Valid()
      reads this, nodes
    {
      && this !in nodes && Chained(spine, nodes)
      && head == NodeAt(spine, 0)
      && tail == (if spine == [] then null else spine[|spine| - 1])
    }

    constructor ()
      ensures Valid() && spine == [] && nodes == {}
    {
      head, tail := null, null;
      spine, nodes := [], {};
    }

    /** __redisPushCallback. */
    method Push(source: Callback)
      requires Valid()
      modifies this, nodes
      ensures Valid() && Contents(spine) == Contents(old(spine)) + [source]
      ensures old(nodes) <= nodes && fresh(nodes - old(nodes))
    {
      var cb := new Node(source);
      assert Contents(spine + [cb]) == Contents(spine) + [source];
      hide Contents;
      assert spine == [] ==> Chained([cb], nodes + {cb});
      if tail != null {
        LinkLast(tail, cb, spine, nodes);
      }
      hide Chained;
      if head == null {
        head := cb;
      }
      tail := cb;
      spine, nodes := spine + [cb], nodes + {cb};
    }

    /** The number of callbacks, found by walking the list. */
    method Length() returns (n: nat)
      requires Valid()
      ensures n == |spine|
    {
      n := 0;
      var cb := head;
      while cb != null
        invariant n <= |spine| && cb == NodeAt(spine, n)
        decreases |spine| - n
      {
        cb := cb.next;
        n := n + 1;
      }
    }

    /** __redisShiftCallback. */
    method Shift() returns (target: Option<Callback>)
      requires Valid()
      modifies this
      ensures Valid() && nodes == old(nodes)
      ensures target.None? <==> old(spine) == []
      ensures target.None? ==> spine == old(spine)
      ensures target.Some? ==> [target.value] + Contents(spine) == Contents(old(spine))
    {
      hide Contents;
      target := None;
      var cb := head;
      if cb != null {
        ChainedTail(spine, nodes);
        assert cb == tail <==> |spine| == 1;
        head := cb.next;
        if cb == tail {
          tail := null;
        }
        target := Some(cb.cb);
        spine := spine[1..];
      }
    }
  }

  // ---------------------------------------------------------------- the context

  class AsyncContext {
    const replies: CallbackList
    const onDisconnect: bool
    var flags: Flags
    var contextErr: int
    var err: int
    var obuf: nat
    var freed: bool
    var notified: seq<bool>
    var script: seq<seq<Op>>
    ghost var log: Log

    ghost predicate Valid()
      reads this, replies, replies.nodes
    {
      replies.Valid() && this !in replies.nodes && (this as object) != replies
    }

    /** The state of AsyncSpec that this context stands for. */
    ghost function Abs(): State
      reads this, replies
    {
      State(flags, contextErr, err, obuf, freed, notified, onDisconnect, script, Contents(replies.spine), log)
    }

    constructor (connected: bool, onDisconnect: bool, script: seq<seq<Op>>)
      ensures Valid() && Abs() == Start(connected, onDisconnect, script)
      ensures fresh(replies) && replies.nodes == {}
    {
      replies := new CallbackList();
      this.onDisconnect := onDisconnect;
      flags := Flags(connected, false, false, false);
      contextErr, err, obuf := 0, 0, 0;
      freed, notified := false, [];
      this.script := script;
      log := EMPTY;
      new;
      assert Contents(replies.spine) == [];
    }

    /** __redisAsyncCommand, for commands other than those of subscribe and monitor modes. */
    method AsyncCommand(cb: Callback, length: nat) returns (ok: bool)
      requires Valid()
      modifies this`obuf, this`log, replies, replies.nodes
      ensures Valid() && fresh(replies.nodes - old(replies.nodes))
      ensures Abs() == Accepting(old(Abs()), cb, length) && ok == !Refuses(flags)
    {
      hide Chained, Contents;
      ok := !Refuses(flags);
      if ok {
        replies.Push(cb);
        obuf := obuf + length;
        log := Accept(log, cb);
      }
    }

    /** redisAsyncFree: at once, or, inside a callback, once the callback has returned. */
    method AsyncFree()
      requires Valid()
      modifies this`flags, this`freed, this`notified, this`script, this`log, this`obuf, this`err, replies, replies.nodes
      ensures Valid() && fresh(replies.nodes - old(replies.nodes))
      ensures var s := old(Abs()).(flags := old(flags).(freeing := true));
              Abs() == if old(flags).inCallback then s else AsyncSpec.FreeNow(s)
      decreases !flags.inCallback, 3
    {
      hide Chained, Contents, AsyncSpec.FreeNow;
      flags := flags.(freeing := true);
      if !flags.inCallback {
        FreeNow();
      }
    }

    /** redisAsyncDisconnect: no further commands; at once only outside callbacks, when nothing is pending. */
    method AsyncDisconnect()
      requires Valid()
      modifies this`flags, this`freed, this`notified, this`script, this`log, this`obuf, this`err, replies, replies.nodes
      ensures Valid() && fresh(replies.nodes - old(replies.nodes))
      ensures var s := old(Abs()).(flags := old(flags).(disconnecting := true));
              Abs() == if old(flags).inCallback || s.pending != [] then s else AsyncSpec.DisconnectNow(s)
      decreases !flags.inCallback, 4
    {
      hide Chained, AsyncSpec.DisconnectNow;
      flags := flags.(disconnecting := true);
      if !flags.inCallback && replies.head == null {
        DisconnectNow();
      }
    }

    /** __redisAsyncDisconnect, with its assertion that a disconnect without an error finds nothing pending. */
    method DisconnectNow()
      requires Valid() && !flags.inCallback && (contextErr == 0 ==> Contents(replies.spine) == [])
      modifies this`flags, this`freed, this`notified, this`script, this`log, this`obuf, this`err, replies, replies.nodes
      ensures Valid() && fresh(replies.nodes - old(replies.nodes))
      ensures Abs() == AsyncSpec.DisconnectNow(old(Abs())) && !flags.inCallback
      decreases !flags.inCallback, 3
    {
      hide Chained, AsyncSpec.FreeNow;
      err := contextErr;
      if err == 0 {
        var ret := replies.Shift();
        assert ret == None;
      } else {
        flags := flags.(disconnecting := true);
      }
      FreeNow();
    }

    /** __redisAsyncFree: every pending callback is called with NULL, then the disconnect callback. */
    method FreeNow()
      requires Valid() && !flags.inCallback && (Contents(replies.spine) == [] || Refuses(flags))
      modifies this`flags, this`freed, this`notified, this`script, this`log, this`obuf, this`err, replies, replies.nodes
      ensures Valid() && fresh(replies.nodes - old(replies.nodes))
      ensures Abs() == AsyncSpec.FreeNow(old(Abs())) && !flags.inCallback
      decreases !flags.inCallback, 2
    {
      hide Chained, Contents, Drain;
      Flush();
      if onDisconnect && flags.connected {
        if flags.freeing {
          notified := notified + [true];
        } else {
          notified := notified + [err == 0];
        }
      }
      freed := true;
    }

    /** The drain of __redisAsyncFree. */
    method Flush()
      requires Valid() && !flags.inCallback && (Contents(replies.spine) == [] || Refuses(flags))
      modifies this`flags, this`freed, this`notified, this`script, this`log, this`obuf, this`err, replies, replies.nodes
      ensures Valid() && fresh(replies.nodes - old(replies.nodes))
      ensures Abs() == Drain(old(Abs())) && !flags.inCallback
      decreases !flags.inCallback, 1
    {
      hide Chained, Contents, AsyncSpec.RunCallback;
      var more := true;
      while more
        invariant Valid() && !flags.inCallback && fresh(replies.nodes - old(replies.nodes))
        invariant Contents(replies.spine) == [] || Refuses(flags)
        invariant more || Contents(replies.spine) == []
        invariant Drain(Abs()) == Drain(old(Abs()))
        decreases more, |Contents(replies.spine)|
      {
        var cb := ShiftFor(None);
        more := cb.Some?;
        if more {
          RunCallback(cb.value, None);
        }
      }
    }

    /** __redisShiftCallback on the queue; the callback shifted is to be called with the given reply. */
    method ShiftFor(reply: Option<Reply>) returns (cb: Option<Callback>)
      requires Valid()
      modifies this`log, replies
      ensures Valid() && replies.nodes == old(replies.nodes)
      ensures if old(Contents(replies.spine)) == [] then cb == None && Abs() == old(Abs())
              else cb == Some(old(Contents(replies.spine))[0]) && Abs() == Shift(old(Abs()), reply)
    {
      hide Chained, Contents;
      cb := replies.Shift();
      if cb.Some? {
        log := Take(log, Entry(cb.value, reply));
      }
    }

    /** __redisRunCallback, with whatever the callback itself does to the context. */
    method RunCallback(cb: Callback, reply: Option<Reply>)
      requires Valid() && !flags.inCallback
      modifies this`flags, this`freed, this`notified, this`script, this`log, this`obuf, this`err, replies, replies.nodes
      ensures Valid() && fresh(replies.nodes - old(replies.nodes))
      ensures Abs() == AsyncSpec.RunCallback(old(Abs()), cb, reply) && !flags.inCallback
      decreases !flags.inCallback, 0
    {
      hide Chained, Contents, InsideAll;
      if cb.fn != 0 {
        flags := flags.(inCallback := true);
        log := log.(fired := log.fired + [Entry(cb, reply)]);
        if script != [] {
          var ops := script[0];
          script := script[1..];
          InCallback(ops);
        }
        flags := flags.(inCallback := false);
      }
    }

    /** What a callback does, operation by operation. */
    method InCallback(ops: seq<Op>)
      requires Valid() && flags.inCallback
      modifies this`flags, this`freed, this`notified, this`script, this`log, this`obuf, this`err, replies, replies.nodes
      ensures Valid() && fresh(replies.nodes - old(replies.nodes))
      ensures Abs() == InsideAll(old(Abs()), ops) && flags.inCallback
      decreases !flags.inCallback, 5, |ops|
    {
      hide Chained, Contents;
      if ops != [] {
        match ops[0] {
          case Command(cb, length) => var ok := AsyncCommand(cb, length);
          case Disconnect => AsyncDisconnect();
          case Free => AsyncFree();
        }
        InCallback(ops[1..]);
      }
    }

    /**
     * redisProcessCallbacks: the replies that can be read now, and then the error of the
     * connection if it is not 0. A server answers each command once, so a reply that finds
     * nothing pending is an error the server sends by itself, as when it refuses a connection.
     */
    method ProcessCallbacks(incoming: seq<Reply>, error: int)
      requires Valid() && !flags.inCallback && !freed
      requires forall i :: |Contents(replies.spine)| <= i < |incoming| ==> incoming[i].Err?
      modifies this, replies, replies.nodes
      ensures Valid() && !flags.inCallback && fresh(replies.nodes - old(replies.nodes))
      ensures Abs() == OnQuiet(OnReplies(old(Abs()), incoming), error)
    {
      hide Chained, Contents, OnReply, AsyncSpec.DisconnectNow;
      ghost var n := |Contents(replies.spine)|;
      var i := 0;
      while i < |incoming| && !freed
        invariant 0 <= i <= |incoming| && (freed || n <= |Contents(replies.spine)| + i)
        invariant Valid() && !flags.inCallback && fresh(replies.nodes - old(replies.nodes))
        invariant OnReplies(Abs(), incoming[i..]) == OnReplies(old(Abs()), incoming)
      {
        HandleReply(incoming[i]);
        assert incoming[i..][1..] == incoming[i + 1..];
        i := i + 1;
      }
      if !freed {
        if error != 0 {
          contextErr := error;
          DisconnectNow();
        } else if flags.disconnecting && obuf == 0 && replies.head == null {
          DisconnectNow();
        }
      }
    }

    /** One round of redisProcessCallbacks. */
    method HandleReply(reply: Reply)
      requires Valid() && !flags.inCallback && (Contents(replies.spine) == [] ==> reply.Err?)
      modifies this, replies, replies.nodes
      ensures Valid() && !flags.inCallback && fresh(replies.nodes - old(replies.nodes))
      ensures Abs() == OnReply(old(Abs()), reply)
    {
      hide Chained, Contents, AsyncSpec.RunCallback, AsyncSpec.FreeNow, AsyncSpec.DisconnectNow;
      var cb := ShiftFor(Some(reply));
      if cb == None {
        // whatever finds nothing pending is an error that the server sent by itself
        assert reply.Err?;
        contextErr := ERR_OTHER;
        DisconnectNow();
        return;
      }
      RunCallback(cb.value, Some(reply));
      if cb.value.fn != 0 && flags.freeing {
        FreeNow();
      }
    }
  }

  // ---------------------------------------------------------------- whole runs

  /** One event on a context that still exists. */
  method Handle(ac: AsyncContext, e: Event)
    requires ac.Valid() && !ac.flags.inCallback && !ac.freed
    modifies ac, ac.replies, ac.replies.nodes
    ensures ac.Valid() && fresh(ac.replies.nodes - old(ac.replies.nodes))
    ensures ac.Abs() == Apply(old(ac.Abs()), e)
  {
    hide Chained, Contents, AsyncSpec.FreeNow, AsyncSpec.DisconnectNow, OnReplies, OnQuiet;
    match e
    case Act(Command(cb, length)) =>
      var ok := ac.AsyncCommand(cb, length);
    case Act(Disconnect) =>
      ac.AsyncDisconnect();
    case Act(Free) =>
      ac.AsyncFree();
    case Written(count, error) =>
      if error != 0 {
        ac.contextErr := error;
        ac.DisconnectNow();
      } else {
        ac.obuf := if count < ac.obuf then ac.obuf - count else 0;
      }
    case Readable(_, _, error) =>
      var pending := ac.replies.Length();
      ac.ProcessCallbacks(Arriving(e, pending), error);
  }

  /** A context's whole life, until the events end or it is gone, is the run that AsyncSpec speaks of. */
  method Run(connected: bool, onDisconnect: bool, script: seq<seq<Op>>, events: seq<Event>)
    returns (ac: AsyncContext)
    ensures ac.Valid() && ac.Abs() == Replay(Start(connected, onDisconnect, script), events)
  {
    hide Chained, Contents, Apply;
    ac := new AsyncContext(connected, onDisconnect, script);
    ghost var s := ac.Abs();
    var i := 0;
    while i < |events|
      invariant 0 <= i <= |events| && ac.Valid() && ac.Abs() == Replay(s, events[..i])
      invariant fresh(ac) && fresh(ac.replies) && fresh(ac.replies.nodes)
    {
      assert events[..i + 1][..i] == events[..i];
      IdleBetween(connected, onDisconnect, script, events[..i]);
      if !ac.freed {
        Handle(ac, events[i]);
      }
      i := i + 1;
    }
    assert events[..i] == events;
  }

  lemma IdleBetween(connected: bool, onDisconnect: bool, script: seq<seq<Op>>, events: seq<Event>)
    ensures var s := Replay(Start(connected, onDisconnect, script), events);
            !s.freed ==> !s.flags.inCallback && s.contextErr == 0
  {
    StartIdle(connected, onDisconnect, script);
    ReplayKeeps(Start(connected, onDisconnect, script), events);
    hide Replay, Accounts, Called;
  }
}
