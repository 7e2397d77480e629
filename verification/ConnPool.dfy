/**
 * The connection pools of db_pool.cc and cache_pool.cc: one monitor with a condition variable.
 * Each critical section is one step; a waiting caller sleeps, is notified, times out or wakes up
 * by itself, and only then takes its next step. Connections are numbered in order of creation.
 */
module ConnPool {
  type Conn = nat

  /** A blocked call, and whether it gave a timeout. */
  datatype Waiter = Waiter(id: nat, timed: bool)

  /**
   * The pool as seen between critical sections. Sleepers are blocked and not notified; woken ones
   * were notified and have not run yet.
   */
  datatype Pool = Pool(free: seq<Conn>, cur: nat, max: int, lent: set<Conn>, sleeping: set<Waiter>, woken: set<Waiter>)

  datatype Result = Given(conn: Conn) | Asleep | Nothing

  /** Handing out the first free connection. */
  function Lend(p: Pool): (Pool, Result)
    requires p.free != []
  {
    (p.(free := p.free[1..], lent := p.lent + {p.free[0]}), Given(p.free[0]))
  }

  /** GetDBConn up to the point where it returns or blocks; canOpen tells whether a new connection can be opened. */
  function Enter(p: Pool, w: Waiter, canOpen: bool): (Pool, Result) {
    if p.free != [] then Lend(p)
    else if p.cur >= p.max then (p.(sleeping := p.sleeping + {w}), Asleep)
    else if canOpen then Lend(p.(free := p.free + [p.cur], cur := p.cur + 1))
    else (p, Nothing)
  }

  /** A blocked call that holds the mutex again: its predicate is looked at once more. */
  function Resume(p: Pool, w: Waiter, timedOut: bool): (Pool, Result) {
    var p' := p.(sleeping := p.sleeping - {w}, woken := p.woken - {w});
    if p.free != [] then Lend(p')
    else if timedOut then (p', Nothing)
    else (p'.(sleeping := p'.sleeping + {w}), Asleep)
  }

  /** RelDBConn; w is the sleeper that the notification reaches, if there is one. */
  function Release(p: Pool, c: Conn, w: Waiter): Pool {
    if c in p.free then p
    else
      var p' := p.(free := p.free + [c], lent := p.lent - {c});
      if w in p.sleeping then p'.(sleeping := p.sleeping - {w}, woken := p.woken + {w}) else p'
  }

  // ---------------------------------------------------------------- invariants

  ghost predicate Distinct(s: seq<Conn>) {
    forall i, j :: 0 <= i < j < |s| ==> s[i] != s[j]
  }

  /** Every connection made is either free, once, or lent. */
  ghost predicate Sound(p: Pool) {
    && Distinct(p.free)
    && (forall c :: c in p.free ==> c !in p.lent)
    && (forall c :: c in p.free || c in p.lent ==> c < p.cur)
    && p.cur == |p.free| + |p.lent|
  }

  /** While anyone sleeps without a notification, the free connections are spoken for. */
  ghost predicate NoLostWakeUp(p: Pool) {
    p.sleeping !! p.woken && (p.sleeping != {} ==> |p.free| <= |p.woken|)
  }

  ghost predicate Inv(p: Pool) {
    Sound(p) && NoLostWakeUp(p)
  }

  lemma LendKeeps(p: Pool)
    requires Sound(p) && p.free != []
    ensures Sound(Lend(p).0) && p.free[0] !in p.lent
  {
    var c, rest := p.free[0], p.free[1..];
    assert forall i :: 0 <= i < |rest| ==> rest[i] == p.free[i + 1];
    assert forall d :: d in rest ==> d in p.free && d != c;
  }

  lemma EnterKeeps(p: Pool, w: Waiter, canOpen: bool)
    requires Inv(p) && w !in p.sleeping && w !in p.woken
    ensures var (p', r) := Enter(p, w, canOpen);
            && Inv(p') && (r.Given? ==> r.conn !in p.lent && r.conn in p'.lent)
            && p'.cur <= if p.cur > p.max then p.cur else p.max
  {
    if p.free != [] {
      LendKeeps(p);
    } else if p.cur < p.max && canOpen {
      LendKeeps(p.(free := p.free + [p.cur], cur := p.cur + 1));
    }
  }

  lemma ResumeKeeps(p: Pool, w: Waiter, timedOut: bool)
    requires Inv(p) && (w in p.sleeping || w in p.woken)
    ensures var (p', r) := Resume(p, w, timedOut);
            Inv(p') && (r.Given? ==> r.conn !in p.lent && r.conn in p'.lent) && (r.Given? <==> p.free != [])
  {
    var p' := p.(sleeping := p.sleeping - {w}, woken := p.woken - {w});
    assert w in p.woken ==> |p'.woken| == |p.woken| - 1;
    assert w !in p.woken ==> p'.woken == p.woken;
    assert Sound(p');
    if p.free != [] {
      LendKeeps(p');
    }
  }

  lemma ReleaseKeeps(p: Pool, c: Conn, w: Waiter)
    requires Inv(p) && c in p.lent && (p.sleeping != {} ==> w in p.sleeping)
    ensures Inv(Release(p, c, w))
    ensures p.sleeping != {} ==> |Release(p, c, w).sleeping| == |p.sleeping| - 1
  {
  }

  /** Giving back a connection keeps the pool sound exactly when it was lent or is already free. */
  lemma ReleaseIffHeld(p: Pool, c: Conn, w: Waiter)
    requires Sound(p)
    ensures Sound(Release(p, c, w)) <==> c in p.lent || c in p.free
  {
    if c !in p.free && c in p.lent {
      assert Distinct(p.free + [c]);
    }
  }

  // ---------------------------------------------------------------- whole runs

  datatype Action =
    | Get(w: Waiter, canOpen: bool)
    | Wake(w: Waiter, timedOut: bool)
    | Put(conn: Conn, notified: Waiter)

  /** A caller enters once, only blocked callers wake, only lent connections come back, and a notification reaches a sleeper. */
  predicate Enabled(p: Pool, a: Action) {
    match a
    case Get(w, _) => w !in p.sleeping && w !in p.woken
    case Wake(w, timedOut) => (w in p.sleeping || w in p.woken) && (timedOut ==> w.timed)
    case Put(c, w) => c in p.lent && (p.sleeping != {} ==> w in p.sleeping)
  }

  function Do(p: Pool, a: Action): (Pool, Result) {
    match a
    case Get(w, canOpen) => Enter(p, w, canOpen)
    case Wake(w, timedOut) => Resume(p, w, timedOut)
    case Put(c, w) => (Release(p, c, w), Nothing)
  }

  function Run(p: Pool, actions: seq<Action>): Pool {
    if actions == [] then p else Do(Run(p, actions[..|actions| - 1]), actions[|actions| - 1]).0
  }

  ghost predicate Legal(p: Pool, actions: seq<Action>) {
    actions == [] ||
    (Legal(p, actions[..|actions| - 1]) && Enabled(Run(p, actions[..|actions| - 1]), actions[|actions| - 1]))
  }

  /** A pool of n open connections, as Init leaves it. */
  function Fresh(n: nat, max: int): Pool {
    Pool(seq(n, i => i), n, max, {}, {}, {})
  }

  /** Conservation and no lost wake-up in every run of borrowers that give back only what they hold. */
  lemma {:induction false} RunKeeps(n: nat, max: int, actions: seq<Action>)
    requires Legal(Fresh(n, max), actions)
    ensures var p := Run(Fresh(n, max), actions);
            Inv(p) && p.max == max && p.cur <= if n > max then n else max
    decreases |actions|
  {
    if actions == [] {
      assert forall i :: 0 <= i < n ==> Fresh(n, max).free[i] == i;
    } else {
      RunKeeps(n, max, actions[..|actions| - 1]);
      var p := Run(Fresh(n, max), actions[..|actions| - 1]);
      hide Inv, Legal;
      match actions[|actions| - 1]
      case Get(w, canOpen) => EnterKeeps(p, w, canOpen);
      case Wake(w, timedOut) => ResumeKeeps(p, w, timedOut);
      case Put(c, w) => ReleaseKeeps(p, c, w);
    }
  }

  /** No connection is ever handed to two borrowers. */
  lemma NeverLentTwice(n: nat, max: int, actions: seq<Action>, a: Action)
    requires Legal(Fresh(n, max), actions) && Enabled(Run(Fresh(n, max), actions), a)
    ensures var p := Run(Fresh(n, max), actions);
            var (p', r) := Do(p, a);
            r.Given? ==> r.conn !in p.lent && p'.lent == p.lent + {r.conn}
  {
    RunKeeps(n, max, actions);
    var p := Run(Fresh(n, max), actions);
    if p.free != [] {
      LendKeeps(p);
    }
  }

  /** When all notified callers have run and some still sleep, every connection is out. */
  lemma SleepersMeanAllLent(n: nat, max: int, actions: seq<Action>)
    requires Legal(Fresh(n, max), actions)
    ensures var p := Run(Fresh(n, max), actions);
            p.woken == {} && p.sleeping != {} ==> p.free == [] && |p.lent| == p.cur
  {
    RunKeeps(n, max, actions);
  }

  // ---------------------------------------------------------------- who gets what

  /**
   * A caller gets a connection exactly if one is free, the first of them, or a new one can be opened below
   * the maximum. It sleeps exactly if the pool is at its maximum, and leaves with nothing otherwise.
   */
  lemma EnterExactly(p: Pool, w: Waiter, canOpen: bool)
    ensures var (p', r) := Enter(p, w, canOpen);
            && (r.Given? <==> p.free != [] || (p.cur < p.max && canOpen))
            && (r.Given? ==> r.conn == if p.free != [] then p.free[0] else p.cur)
            && (r.Asleep? <==> p.free == [] && p.cur >= p.max)
            && p'.sleeping == (if r.Asleep? then p.sleeping + {w} else p.sleeping) && p'.woken == p.woken
            && p'.cur == p.cur + (if p.free == [] && r.Given? then 1 else 0) && p'.max == p.max
            && (!r.Given? ==> p'.free == p.free && p'.lent == p.lent)
            && (r.Given? ==> p'.lent == p.lent + {r.conn} && p'.free == if p.free != [] then p.free[1..] else [])
  {
  }

  /** A caller that has slept gets the first free connection; without one it leaves if its time is up, and else sleeps on. */
  lemma ResumeExactly(p: Pool, w: Waiter, timedOut: bool)
    ensures var (p', r) := Resume(p, w, timedOut);
            && (r.Given? <==> p.free != []) && (r.Given? ==> r.conn == p.free[0])
            && (r.Nothing? <==> p.free == [] && timedOut)
            && p'.sleeping == (if r.Asleep? then p.sleeping + {w} else p.sleeping - {w}) && p'.woken == p.woken - {w}
            && p'.cur == p.cur && p'.max == p.max
  {
  }

  /** The connections that one action adds behind the free ones: one that comes back, or a new one. */
  function Supply(p: Pool, a: Action): seq<Conn> {
    match a
    case Put(c, _) => [c]
    case Get(_, canOpen) => if p.free == [] && p.cur < p.max && canOpen then [p.cur] else []
    case Wake(_, _) => []
  }

  function Supplied(p: Pool, actions: seq<Action>): seq<Conn> {
    if actions == [] then []
    else
      var k := |actions| - 1;
      Supplied(p, actions[..k]) + Supply(Run(p, actions[..k]), actions[k])
  }

  /** The connections handed out, in order. */
  function Taken(p: Pool, actions: seq<Action>): seq<Conn> {
    if actions == [] then []
    else
      var k := |actions| - 1;
      var r := Do(Run(p, actions[..k]), actions[k]).1;
      Taken(p, actions[..k]) + if r.Given? then [r.conn] else []
  }

  lemma OneInOneOut(p: Pool, a: Action)
    requires Enabled(p, a) && (a.Put? ==> a.conn !in p.free)
    ensures var (p', r) := Do(p, a);
            (if r.Given? then [r.conn] else []) + p'.free == p.free + Supply(p, a)
  {
  }

  /**
   * Connections are handed out in the order in which they became free: those of the start, then those that
   * came back or were opened. One that comes back is behind all that were free before.
   */
  lemma {:induction false} FirstInFirstOut(n: nat, max: int, actions: seq<Action>)
    requires Legal(Fresh(n, max), actions)
    ensures var p := Fresh(n, max);
            Taken(p, actions) + Run(p, actions).free == p.free + Supplied(p, actions)
    decreases |actions|
  {
    var p := Fresh(n, max);
    if actions == [] {
      assert [] + p.free == p.free + [];
    } else {
      var k := |actions| - 1;
      var q, a := Run(p, actions[..k]), actions[k];
      FirstInFirstOut(n, max, actions[..k]);
      RunKeeps(n, max, actions[..k]);
      assert Enabled(q, a) && (a.Put? ==> a.conn !in q.free);
      OneInOneOut(q, a);
      hide *;
      var (q', r) := Do(q, a);
      Regroup(Taken(p, actions[..k]), if r.Given? then [r.conn] else [], q'.free, q.free, Supply(q, a),
              p.free, Supplied(p, actions[..k]));
      OneActionMore(p, actions);
    }
  }

  lemma Regroup(taken: seq<Conn>, given: seq<Conn>, left: seq<Conn>, free: seq<Conn>, more: seq<Conn>,
                start: seq<Conn>, supplied: seq<Conn>)
    requires taken + free == start + supplied && given + left == free + more
    ensures (taken + given) + left == start + (supplied + more)
  {
    assert (taken + given) + left == taken + (given + left) == (taken + free) + more;
  }

  lemma OneActionMore(p: Pool, actions: seq<Action>)
    requires actions != []
    ensures var k := |actions| - 1;
            var q, a := Run(p, actions[..k]), actions[k];
            var (q', r) := Do(q, a);
            && Run(p, actions) == q' && Supplied(p, actions) == Supplied(p, actions[..k]) + Supply(q, a)
            && Taken(p, actions) == Taken(p, actions[..k]) + if r.Given? then [r.conn] else []
  {
    hide Do, Supply;
  }

  // ---------------------------------------------------------------- the monitor

  /** CDBPool, and CachePool alike: the critical sections of its methods. */
  class CDBPool {
    var freeList: seq<Conn>
    var curConnCnt: nat
    const maxConnCnt: int
    ghost var lent: set<Conn>
    ghost var sleeping: set<Waiter>
    ghost var woken: set<Waiter>

    ghost function Abs(): Pool
      reads this
    {
      Pool(freeList, curConnCnt, maxConnCnt, lent, sleeping, woken)
    }

    /** The minimum is 1 for CDBPool and 2 for CachePool. */
    constructor (minimum: nat, maxConnCnt: int)
      ensures freeList == [] && curConnCnt == minimum && this.maxConnCnt == maxConnCnt
      ensures lent == {} && sleeping == {} && woken == {}
    {
      this.maxConnCnt := maxConnCnt;
      curConnCnt := minimum;
      freeList := [];
      lent, sleeping, woken := {}, {}, {};
    }

    /** Init, when every connection can be opened. */
    method Init()
      requires freeList == [] && lent == {} && sleeping == {} && woken == {}
      modifies this`freeList
      ensures Abs() == Fresh(curConnCnt, maxConnCnt)
    {
      for i := 0 to curConnCnt
        invariant freeList == seq(i, k => k)
      {
        freeList := freeList + [i];
      }
    }

    /** The first critical section of GetDBConn. */
    method GetDBConn(w: Waiter, canOpen: bool) returns (r: Result)
      modifies this
      ensures (Abs(), r) == Enter(old(Abs()), w, canOpen)
    {
      if freeList == [] {
        if curConnCnt >= maxConnCnt {
          sleeping := sleeping + {w};
          return Asleep;
        }
        if !canOpen {
          return Nothing;
        }
        freeList := freeList + [curConnCnt];
        curConnCnt := curConnCnt + 1;
      }
      r := PopFront();
    }

    method PopFront() returns (r: Result)
      requires freeList != []
      modifies this`freeList, this`lent
      ensures (Abs(), r) == Lend(old(Abs()))
    {
      var conn := freeList[0];
      freeList := freeList[1..];
      lent := lent + {conn};
      r := Given(conn);
    }

    /** What a blocked GetDBConn does when it has the mutex again. */
    method Awake(w: Waiter, timedOut: bool) returns (r: Result)
      modifies this
      ensures (Abs(), r) == Resume(old(Abs()), w, timedOut)
    {
      sleeping, woken := sleeping - {w}, woken - {w};
      if freeList == [] {
        if timedOut {
          return Nothing;
        }
        sleeping := sleeping + {w};
        return Asleep;
      }
      r := PopFront();
    }

    /** RelDBConn, with the scan that refuses a connection already in the list. */
    method RelDBConn(conn: Conn, ghost w: Waiter)
      modifies this
      ensures Abs() == Release(old(Abs()), conn, w)
    {
      var it := 0;
      while it < |freeList|
        invariant 0 <= it <= |freeList| && conn !in freeList[..it] && Abs() == old(Abs())
      {
        if freeList[it] == conn {
          return;
        }
        it := it + 1;
      }
      freeList := freeList + [conn];
      lent := lent - {conn};
      if w in sleeping {
        sleeping, woken := sleeping - {w}, woken + {w};
      }
    }
  }

  /** A pool under any legal schedule does what the state machine does, so every law above holds of it. */
  method RunPool(minimum: nat, max: int, actions: seq<Action>) returns (pool: CDBPool)
    requires Legal(Fresh(minimum, max), actions)
    ensures pool.Abs() == Run(Fresh(minimum, max), actions)
  {
    pool := new CDBPool(minimum, max);
    pool.Init();
    for k := 0 to |actions|
      invariant fresh(pool) && pool.Abs() == Run(Fresh(minimum, max), actions[..k])
    {
      hide Enter, Resume, Release;
      assert actions[..k + 1][..k] == actions[..k];
      match actions[k]
      case Get(w, canOpen) => var r := pool.GetDBConn(w, canOpen);
      case Wake(w, timedOut) => var r := pool.Awake(w, timedOut);
      case Put(conn, w) => pool.RelDBConn(conn, w);
    }
    assert actions[..|actions|] == actions;
  }
}
