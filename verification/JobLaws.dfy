/**
 * Laws of whole runs of the Job process: how many messages the gates let through in a window of
 * time, how often one message can pass, that no broadcast goes around the gates, and the runs in
 * which the guarantees end.
 */
module JobLaws {
  import opened Bytes
  import opened RespSpec
  import opened JobKeys
  import opened JobRouting
  import opened JobProtocol

  // ---------------------------------------------------------------- windows of time

  /** The visits within a window of time that set the mark of a gate. */
  function Within(visits: seq<Visit>, key: Key, from: nat, span: nat): seq<Visit> {
    if visits == [] then []
    else
      var v, front := visits[|visits| - 1], Within(visits[..|visits| - 1], key, from, span);
      if v.marked && v.key == key && from <= v.time < from + span then front + [v] else front
  }

  lemma {:induction false} WithinFrom(visits: seq<Visit>, key: Key, from: nat, span: nat)
    ensures forall v :: v in Within(visits, key, from, span) ==>
                    v in visits && v.marked && v.key == key && from <= v.time < from + span
  {
    if visits != [] {
      WithinFrom(visits[..|visits| - 1], key, from, span);
    }
  }

  /** Visits d milliseconds apart, the first not before from: k of them take at least k - 1 times that long. */
  ghost predicate Spread(w: seq<Visit>, d: nat, from: nat) {
    w != [] ==> from + (|w| - 1) * d <= w[|w| - 1].time
  }

  lemma SpreadMore(w: seq<Visit>, v: Visit, d: nat, from: nat)
    requires Spread(w, d, from) && from <= v.time && (w != [] ==> w[|w| - 1].time + d <= v.time)
    ensures Spread(w + [v], d, from)
  {
    if w != [] {
      Further(|w|, d, from, w[|w| - 1].time, v.time);
    }
  }

  lemma Further(k: nat, d: nat, from: nat, before: nat, now: nat)
    requires from + (k - 1) * d <= before && before + d <= now
    ensures from + k * d <= now
  {
    assert k * d == (k - 1) * d + d;
  }

  lemma {:induction false} WithinSpread(visits: seq<Visit>, key: Key, d: nat, from: nat, span: nat)
    requires Spaced(visits) && forall v :: v in visits && v.key == key ==> v.ttl * SECOND == d
    ensures Spread(Within(visits, key, from, span), d, from)
    decreases |visits|
  {
    if visits != [] {
      var k := |visits| - 1;
      var v, front := visits[k], Within(visits[..k], key, from, span);
      WithinSpread(visits[..k], key, d, from, span);
      WithinFrom(visits[..k], key, from, span);
      WithinStep(visits, key, from, span);
      if v.marked && v.key == key && from <= v.time < from + span {
        hide Within, Spread;
        if front != [] {
          assert front[|front| - 1] in front;
          SpacedLast(visits, front[|front| - 1], d);
        }
        SpreadMore(front, v, d, from);
      }
    }
  }

  lemma WithinStep(visits: seq<Visit>, key: Key, from: nat, span: nat)
    requires visits != []
    ensures var v, front := visits[|visits| - 1], Within(visits[..|visits| - 1], key, from, span);
            Within(visits, key, from, span) ==
            if v.marked && v.key == key && from <= v.time < from + span then front + [v] else front
  {
  }

  lemma SpacedLast(visits: seq<Visit>, u: Visit, d: nat)
    requires Spaced(visits) && visits != [] && u in visits[..|visits| - 1] && u.ttl * SECOND == d
    requires u.marked && visits[|visits| - 1].marked && u.key == visits[|visits| - 1].key
    ensures u.time + d <= visits[|visits| - 1].time
  {
    var a :| 0 <= a < |visits| - 1 && visits[..|visits| - 1][a] == u;
  }

  /** A window of n seconds admits at most n visits that set a room's cooldown, and so at most n that Redis let pass. */
  lemma CooldownWindow(n: nat, actions: seq<Action>, room: bytes, from: nat, seconds: nat)
    ensures |Within(Run(Start(n), actions).visits, CooldownKey(room), from, seconds * SECOND)| <= seconds
  {
    var s, key := Run(Start(n), actions), CooldownKey(room);
    RunKeeps(n, actions);
    CooldownIsNoLock(room);
    hide Run, CooldownKey;
    forall v | v in s.visits && v.key == key ensures v.ttl * SECOND == SECOND {
      assert VisitOk(s.store, s.now, v);
    }
    WithinFrom(s.visits, key, from, seconds * SECOND);
    WithinSpread(s.visits, key, SECOND, from, seconds * SECOND);
    var w := Within(s.visits, key, from, seconds * SECOND);
    hide Within;
    if w != [] {
      assert w[|w| - 1] in w;
    }
  }

  // ---------------------------------------------------------------- clocks

  /** The consumers' clock shows the seconds of the store's clock. */
  ghost predicate ClocksAgree(n: nat, actions: seq<Action>)
    decreases |actions|
  {
    actions != [] ==>
      var k := |actions| - 1;
      && ClocksAgree(n, actions[..k])
      && (actions[k].Turn? ==> actions[k].second == Run(Start(n), actions[..k]).now / SECOND)
  }

  lemma {:induction false} VisitsStamped(n: nat, actions: seq<Action>)
    requires ClocksAgree(n, actions)
    ensures forall v :: v in Run(Start(n), actions).visits ==> v.time / SECOND == v.second
    decreases |actions|
  {
    if actions != [] {
      var k := |actions| - 1;
      var s := Run(Start(n), actions[..k]);
      VisitsStamped(n, actions[..k]);
      OneVisit(s, actions[k]);
      hide Do;
    }
  }

  /** A turn makes at most one visit, in its own second. */
  lemma OneVisit(s: System, a: Action)
    ensures var t := Do(s, a);
            t.visits == s.visits
            || (a.Turn? && |t.visits| == |s.visits| + 1 && t.visits[..|s.visits|] == s.visits
                && t.visits[|s.visits|].time == s.now && t.visits[|s.visits|].second == a.second)
  {
    hide Attempt, Served, Released, MarkKey, CooldownKey, LockValue, SetLockKey, LockKey, CompareAndDelete;
  }

  /**
   * With agreeing clocks no room, second and consumer passes the deduplication gate twice. As the
   * message id names nothing else, of several messages of a room that one consumer takes within a
   * second all but the first are dropped as duplicates.
   */
  lemma OncePerSecond(n: nat, actions: seq<Action>, a: nat, b: nat)
    requires ClocksAgree(n, actions)
    requires var visits := Run(Start(n), actions).visits;
             && a < |visits| && b < |visits| && IsMark(visits[a].key) && IsMark(visits[b].key)
             && visits[a].passed && visits[b].passed && visits[a].message.room == visits[b].message.room
             && visits[a].second == visits[b].second && visits[a].i == visits[b].i
    ensures a == b
  {
    var s := Run(Start(n), actions);
    VisitsStamped(n, actions);
    RunKeeps(n, actions);
    hide Run, ClocksAgree, MarkKey, CooldownKey;
    var u, v := s.visits[a], s.visits[b];
    assert VisitOk(s.store, s.now, u) && VisitOk(s.store, s.now, v);
    assert u in s.visits && v in s.visits;
    MarkIsNoLock(u.message.room, u.second, u.i);
    assert u.key == v.key;
  }

  /** A message that passes twice within 60 seconds is taken by another consumer or in another second, and its room's name holds no NUL byte. */
  lemma PassedTwice(n: nat, actions: seq<Action>, a: nat, b: nat)
    requires var visits := Run(Start(n), actions).visits;
             && a < b < |visits| && IsMark(visits[a].key) && IsMark(visits[b].key)
             && visits[a].passed && visits[b].passed && visits[a].message == visits[b].message
             && visits[b].time < visits[a].time + DEDUP_TTL * SECOND
    ensures var visits := Run(Start(n), actions).visits;
            0 !in visits[a].message.room && (visits[a].second != visits[b].second || visits[a].i != visits[b].i)
  {
    var s := Run(Start(n), actions);
    RunKeeps(n, actions);
    hide Run, MarkKey, CooldownKey;
    var u, v := s.visits[a], s.visits[b];
    assert VisitOk(s.store, s.now, u) && VisitOk(s.store, s.now, v);
    SameMark(u.message.room, u.second, u.i, v.message.room, v.second, v.i);
  }

  // ---------------------------------------------------------------- no broadcast goes around the gates

  /** How often a message passed the deduplication gate, visited the cooldown, and passed it. */
  function Admitted(visits: seq<Visit>, m: Message): nat {
    if visits == [] then 0
    else
      var v, front := visits[|visits| - 1], Admitted(visits[..|visits| - 1], m);
      if v.message == m && IsMark(v.key) && v.passed then front + 1 else front
  }

  function Cooled(visits: seq<Visit>, m: Message): nat {
    if visits == [] then 0
    else
      var v, front := visits[|visits| - 1], Cooled(visits[..|visits| - 1], m);
      if v.message == m && !IsMark(v.key) then front + 1 else front
  }

  function Cleared(visits: seq<Visit>, m: Message): nat {
    if visits == [] then 0
    else
      var v, front := visits[|visits| - 1], Cleared(visits[..|visits| - 1], m);
      if v.message == m && !IsMark(v.key) && v.passed then front + 1 else front
  }

  function Broadcasts(reports: seq<Report>, m: Message): nat {
    if reports == [] then 0
    else
      var front := Broadcasts(reports[..|reports| - 1], m);
      if reports[|reports| - 1].message == m then front + 1 else front
  }

  predicate AtCooldown(stage: Stage, m: Message) {
    stage.Cooling? && stage.message == m
  }

  predicate BeforeBroadcast(stage: Stage, m: Message) {
    (stage.Locking? || stage.Holding?) && stage.message == m
  }

  /** How many consumers stand at the cooldown gate, or between it and the broadcast, with a message. */
  function Standing(stages: seq<Stage>, m: Message, cooldown: bool): nat {
    if stages == [] then 0
    else
      var stage, front := stages[|stages| - 1], Standing(stages[..|stages| - 1], m, cooldown);
      if if cooldown then AtCooldown(stage, m) else BeforeBroadcast(stage, m) then front + 1 else front
  }

  lemma {:induction false} StandingChanges(stages: seq<Stage>, i: nat, stage: Stage, m: Message, cooldown: bool)
    requires i < |stages|
    ensures var counts := (st: Stage) => if cooldown then AtCooldown(st, m) else BeforeBroadcast(st, m);
            Standing(stages[i := stage], m, cooldown) + (if counts(stages[i]) then 1 else 0) ==
            Standing(stages, m, cooldown) + if counts(stage) then 1 else 0
  {
    var k := |stages| - 1;
    var changed := stages[i := stage];
    if i < k {
      StandingChanges(stages[..k], i, stage, m, cooldown);
      assert changed[..k] == stages[..k][i := stage];
    } else {
      assert changed[..k] == stages[..k];
    }
  }

  /** Each broadcast is paid for by a pass through the cooldown, and each of these by one through deduplication. */
  ghost predicate Paid(s: System, m: Message) {
    && Standing(s.stages, m, true) + Cooled(s.visits, m) == Admitted(s.visits, m)
    && Standing(s.stages, m, false) + Broadcasts(s.reports, m) <= Cleared(s.visits, m)
  }

  lemma CountVisit(visits: seq<Visit>, v: Visit, m: Message)
    ensures Admitted(visits + [v], m) == Admitted(visits, m) + if v.message == m && IsMark(v.key) && v.passed then 1 else 0
    ensures Cooled(visits + [v], m) == Cooled(visits, m) + if v.message == m && !IsMark(v.key) then 1 else 0
    ensures Cleared(visits + [v], m) == Cleared(visits, m) + if v.message == m && !IsMark(v.key) && v.passed then 1 else 0
  {
    assert (visits + [v])[..|visits|] == visits;
  }

  lemma CountReport(reports: seq<Report>, r: Report, m: Message)
    ensures Broadcasts(reports + [r], m) == Broadcasts(reports, m) + if r.message == m then 1 else 0
  {
    assert (reports + [r])[..|reports|] == reports;
  }

  lemma IdlePays(s: System, a: Action, m: Message)
    requires Takes(s, a) && s.stages[a.i].Idle? && Paid(s, m)
    ensures Paid(Do(s, a), m)
  {
    var t := Do(s, a);
    MarkIsNoLock(a.message.room, a.second, a.i);
    hide Attempt, MarkKey, FateOf, Connects;
    CountVisit(s.visits, t.visits[|s.visits|], m);
    if t.visits[|s.visits|].passed {
      StandingChanges(s.stages, a.i, Cooling(a.message), m, true);
      StandingChanges(s.stages, a.i, Cooling(a.message), m, false);
    }
    hide Standing, Admitted, Cooled, Cleared, Broadcasts;
  }

  lemma CoolingPays(s: System, a: Action, m: Message)
    requires Takes(s, a) && s.stages[a.i].Cooling? && Paid(s, m)
    ensures Paid(Do(s, a), m)
  {
    var t, r := Do(s, a), s.stages[a.i].message;
    CooldownIsNoLock(r.room);
    hide Attempt, CooldownKey, FateOf, Connects;
    CountVisit(s.visits, t.visits[|s.visits|], m);
    StandingChanges(s.stages, a.i, t.stages[a.i], m, true);
    StandingChanges(s.stages, a.i, t.stages[a.i], m, false);
    hide Standing, Admitted, Cooled, Cleared, Broadcasts;
  }

  /** From the lock on a turn visits no gate; it broadcasts at most once, with the lock in hand, and goes on. */
  lemma LaterTurn(s: System, a: Action)
    requires Takes(s, a) && !s.stages[a.i].Idle? && !s.stages[a.i].Cooling?
    ensures var t, stage := Do(s, a), s.stages[a.i];
            && |t.stages| == |s.stages| && t.stages == s.stages[a.i := t.stages[a.i]] && t.visits == s.visits
            && !t.stages[a.i].Cooling? && !t.stages[a.i].Locking?
            && (t.stages[a.i].Holding? ==> stage.Locking? && t.stages[a.i].message == stage.message)
            && (t.reports == s.reports
                || (stage.Holding? && |t.reports| == |s.reports| + 1
                    && var r := t.reports[|s.reports|];
                       t.reports == s.reports + [r] && r.message == stage.message && r.i == a.i && r.time == s.now
                       && r.after == |s.visits|))
  {
    hide Attempt, SetLockKey, LockKey, LockValue, FateOf, Connects, Served, Released, CompareAndDelete;
  }

  lemma LaterPays(s: System, a: Action, m: Message)
    requires Takes(s, a) && !s.stages[a.i].Idle? && !s.stages[a.i].Cooling? && Paid(s, m)
    ensures Paid(Do(s, a), m)
  {
    var t := Do(s, a);
    LaterTurn(s, a);
    hide Do, Act, Standing, Admitted, Cooled, Cleared, Broadcasts;
    StandingChanges(s.stages, a.i, t.stages[a.i], m, true);
    StandingChanges(s.stages, a.i, t.stages[a.i], m, false);
    if t.reports != s.reports {
      CountReport(s.reports, t.reports[|s.reports|], m);
    }
  }

  lemma {:induction false} NobodyStands(n: nat, m: Message, cooldown: bool)
    ensures Standing(seq(n, _ => Idle), m, cooldown) == 0
  {
    if n > 0 {
      NobodyStands(n - 1, m, cooldown);
      assert seq(n, _ => Idle)[..n - 1] == seq(n - 1, _ => Idle);
    }
  }

  lemma {:induction false} RunPays(n: nat, actions: seq<Action>, m: Message)
    ensures Paid(Run(Start(n), actions), m)
    decreases |actions|
  {
    if actions == [] {
      NobodyStands(n, m, true);
      NobodyStands(n, m, false);
    } else {
      var k := |actions| - 1;
      RunPays(n, actions[..k], m);
      hide Paid, Do;
      var s, a := Run(Start(n), actions[..k]), actions[k];
      DoPays(s, a, m);
    }
  }

  lemma DoPays(s: System, a: Action, m: Message)
    requires Paid(s, m)
    ensures Paid(Do(s, a), m)
  {
    if Takes(s, a) {
      hide Paid, Do;
      if s.stages[a.i].Idle? { IdlePays(s, a, m); }
      else if s.stages[a.i].Cooling? { CoolingPays(s, a, m); }
      else { LaterPays(s, a, m); }
    }
  }

  /** In every run a message is broadcast at most as often as the cooldown cleared it, and cleared at most as often as it was admitted. */
  lemma NoWayAround(n: nat, actions: seq<Action>, m: Message)
    ensures var s := Run(Start(n), actions);
            Broadcasts(s.reports, m) <= Cleared(s.visits, m) <= Admitted(s.visits, m)
  {
    RunPays(n, actions, m);
    var s := Run(Start(n), actions);
    hide Run;
    ClearedCooled(s.visits, m);
  }

  lemma {:induction false} ClearedCooled(visits: seq<Visit>, m: Message)
    ensures Cleared(visits, m) <= Cooled(visits, m)
  {
    if visits != [] {
      ClearedCooled(visits[..|visits| - 1], m);
    }
  }

  // ---------------------------------------------------------------- where the guarantees end

  /** A turn whose commands all fare alike, in a room without connections. */
  function Plain(i: nat, m: Message, second: nat, fate: Fate): Action {
    var net := Net(true, true, fate);
    Turn(i, m, second, Calls(net, net, net, Arr([]), map[], {}))
  }

  lemma RunStep(s: System, actions: seq<Action>, a: Action)
    ensures Run(s, actions + [a]) == Do(Run(s, actions), a)
  {
    assert (actions + [a])[..|actions|] == actions;
  }

  /** Going on with a run at the second of its clock. */
  lemma ClocksStep(n: nat, actions: seq<Action>, a: Action)
    requires ClocksAgree(n, actions) && (a.Turn? ==> a.second == Run(Start(n), actions).now / SECOND)
    ensures ClocksAgree(n, actions + [a])
  {
    assert (actions + [a])[..|actions|] == actions;
  }

  /** Every key in the store has run out by then. */
  ghost predicate AllBy(store: Store, time: nat) {
    forall key :: key in store ==> store[key].expires <= time
  }

  /** The keys of the three gates are different. */
  lemma KeysApart(room: bytes, second: nat, i: nat)
    ensures MarkKey(room, second, i) != CooldownKey(room) && MarkKey(room, second, i) != SetLockKey(room)
    ensures CooldownKey(room) != SetLockKey(room)
  {
    KeyKinds(room, MsgId(room, second, i));
  }

  /** Consumer i, idle and answered, takes a message through all three gates when none of their keys is live. */
  lemma AllOpen(s: System, i: nat, m: Message, second: nat)
    requires i < |s.stages| && s.stages[i].Idle? && s.connected
    requires !Live(s.store, s.now, MarkKey(m.room, second, i))
    requires !Live(s.store, s.now, CooldownKey(m.room)) && !Live(s.store, s.now, SetLockKey(m.room))
    ensures var a := Plain(i, m, second, Answered);
            var s' := Do(Do(Do(s, a), a), a);
            && Do(s, a).now == Do(Do(s, a), a).now == s'.now == s.now && s'.connected
            && s'.stages == s.stages[i := Holding(m, LockValue(i, second), s.now + LOCK_TTL * SECOND)]
            && (AllBy(s.store, s.now + DEDUP_TTL * SECOND) ==> AllBy(s'.store, s.now + DEDUP_TTL * SECOND))
  {
    KeysApart(m.room, second, i);
    hide MarkKey, CooldownKey, SetLockKey, LockKey, LockValue, Served, Released, CompareAndDelete;
    var a := Plain(i, m, second, Answered);
    var s1 := Do(s, a);
    assert s1.stages[i] == Cooling(m) && s1.connected && s1.now == s.now;
    var s2 := Do(s1, a);
    assert s2.stages[i] == Locking(m) && s2.connected && s2.now == s.now;
  }

  /** Three turns at the second of the clock, which stands still meanwhile. */
  lemma ThreeTurns(n: nat, actions: seq<Action>, a: Action)
    requires ClocksAgree(n, actions) && a.Turn?
    requires var s := Run(Start(n), actions);
             a.second == s.now / SECOND && Do(s, a).now == s.now && Do(Do(s, a), a).now == s.now
    ensures ClocksAgree(n, actions + [a] + [a] + [a])
    ensures Run(Start(n), actions + [a] + [a] + [a]) == Do(Do(Do(Run(Start(n), actions), a), a), a)
  {
    hide Run, Do, ClocksAgree;
    RunStep(Start(n), actions, a);
    RunStep(Start(n), actions + [a], a);
    RunStep(Start(n), actions + [a] + [a], a);
    ClocksStep(n, actions, a);
    ClocksStep(n, actions + [a], a);
    ClocksStep(n, actions + [a] + [a], a);
  }

  const MINUTE := Tick(DEDUP_TTL * SECOND)

  /** Consumer 0 takes the lock and stays; a minute later consumer 1 comes. */
  function Overstay(m: Message, m': Message): seq<Action> {
    var first, second := Plain(0, m, 0, Answered), Plain(1, m', DEDUP_TTL, Answered);
    [] + [first] + [first] + [first] + [MINUTE] + [second] + [second] + [second]
  }

  /** A holder that overstays its time to live is joined by another, with all clocks agreeing. */
  lemma OverstayedLock(m: Message, m': Message)
    requires m.room == m'.room
    ensures var s := Run(Start(2), Overstay(m, m'));
            && ClocksAgree(2, Overstay(m, m')) && Holds(s, 0, m.room) && Holds(s, 1, m.room)
            && s.now >= s.stages[0].until && s.now < s.stages[1].until
  {
    var first, second := Plain(0, m, 0, Answered), Plain(1, m', DEDUP_TTL, Answered);
    var s0, r3 := Start(2), [] + [first] + [first] + [first];
    var r4 := r3 + [MINUTE];
    assert Run(s0, []) == s0 && ClocksAgree(2, []);
    hide Run, ClocksAgree, MarkKey, CooldownKey, SetLockKey, Act, LockValue;
    AllOpen(s0, 0, m, 0);
    ThreeTurns(2, [], first);
    var s3 := Run(s0, r3);
    RunStep(s0, r3, MINUTE);
    ClocksStep(2, r3, MINUTE);
    var s4 := Run(s0, r4);
    assert s4 == s3.(now := DEDUP_TTL * SECOND);
    assert AllBy(s4.store, s4.now);
    AllOpen(s4, 1, m', DEDUP_TTL);
    ThreeTurns(2, r4, second);
  }

  /** Two consumers pass deduplication, and then Redis is not heard. */
  function Unanswered(m: Message, m': Message): seq<Action> {
    [] + [Plain(0, m, 0, Answered)] + [Plain(0, m, 0, NotSent)] + [Plain(1, m', 0, Answered)] + [Plain(1, m', 0, NotSent)]
  }

  /** Two turns of one consumer: deduplication is passed, and the cooldown unheard. */
  lemma PassUnheard(n: nat, actions: seq<Action>, i: nat, m: Message)
    requires ClocksAgree(n, actions)
    requires var s := Run(Start(n), actions);
             i < |s.stages| && s.stages[i].Idle? && s.connected && s.now == 0 && !Live(s.store, 0, MarkKey(m.room, 0, i))
    ensures var s, s' := Run(Start(n), actions), Run(Start(n), actions + [Plain(i, m, 0, Answered)] + [Plain(i, m, 0, NotSent)]);
            && ClocksAgree(n, actions + [Plain(i, m, 0, Answered)] + [Plain(i, m, 0, NotSent)])
            && s'.now == 0 && s'.connected && s'.stages == s.stages[i := Locking(m)] && |s'.visits| == |s.visits| + 2
            && s'.visits[..|s.visits|] == s.visits && s'.store == s.store[MarkKey(m.room, 0, i) := Entry(MARK, DEDUP_TTL * SECOND, i)]
            && var v := s'.visits[|s.visits| + 1];
               v.key == CooldownKey(m.room) && v.message == m && v.time == 0 && v.passed && !v.heard
  {
    var a, b := Plain(i, m, 0, Answered), Plain(i, m, 0, NotSent);
    hide Run, ClocksAgree, MarkKey, CooldownKey, SetLockKey, LockKey, LockValue, Served, Released;
    RunStep(Start(n), actions, a);
    RunStep(Start(n), actions + [a], b);
    ClocksStep(n, actions, a);
    var s1 := Run(Start(n), actions + [a]);
    assert s1.stages[i] == Cooling(m) && s1.now == 0 && s1.connected;
    ClocksStep(n, actions + [a], b);
  }

  /** While Redis is not heard, the cooldown lets two messages of a room through at once, with all clocks agreeing. */
  lemma UnansweredCooldown(m: Message, m': Message)
    requires m.room == m'.room && 0 !in m.room
    ensures var s := Run(Start(2), Unanswered(m, m'));
            && ClocksAgree(2, Unanswered(m, m')) && s.stages == [Locking(m), Locking(m')]
            && |s.visits| == 4 && s.visits[1].key == CooldownKey(m.room) == s.visits[3].key
            && s.visits[1].passed && s.visits[3].passed && s.visits[1].time == s.visits[3].time
  {
    var s0 := Start(2);
    assert Run(s0, []) == s0 && ClocksAgree(2, []);
    SameMark(m.room, 0, 0, m.room, 0, 1);
    hide Run, ClocksAgree, MarkKey, CooldownKey;
    PassUnheard(2, [], 0, m);
    PassUnheard(2, [] + [Plain(0, m, 0, Answered)] + [Plain(0, m, 0, NotSent)], 1, m');
    hide Plain;
  }

  /** One message, delivered to one consumer and a second later to another. */
  function Redelivered(m: Message): seq<Action> {
    [] + [Plain(0, m, 0, Answered)] + [Tick(SECOND)] + [Plain(1, m, 1, Answered)]
  }

  /** One turn of an idle consumer that is answered and finds no mark. */
  lemma Admits(s: System, i: nat, m: Message, second: nat)
    requires i < |s.stages| && s.stages[i].Idle? && s.connected && !Live(s.store, s.now, MarkKey(m.room, second, i))
    ensures var t := Do(s, Plain(i, m, second, Answered));
            && t.now == s.now && t.connected && t.stages == s.stages[i := Cooling(m)]
            && t.store == s.store[MarkKey(m.room, second, i) := Entry(MARK, s.now + DEDUP_TTL * SECOND, i)]
            && Admitted(t.visits, m) == Admitted(s.visits, m) + 1
  {
    MarkIsNoLock(m.room, second, i);
    hide MarkKey, CooldownKey, SetLockKey, LockKey, LockValue, Served, Released, Admitted;
    var t := Do(s, Plain(i, m, second, Answered));
    CountVisit(s.visits, t.visits[|s.visits|], m);
  }

  /** A message delivered again passes deduplication twice within the minute, with all clocks agreeing. */
  lemma RedeliveredPasses(m: Message)
    requires 0 !in m.room
    ensures var s := Run(Start(2), Redelivered(m));
            && ClocksAgree(2, Redelivered(m)) && s.stages == [Cooling(m), Cooling(m)] && Admitted(s.visits, m) == 2
            && s.now < DEDUP_TTL * SECOND
  {
    var s0, a, tick, b := Start(2), Plain(0, m, 0, Answered), Tick(SECOND), Plain(1, m, 1, Answered);
    assert Run(s0, []) == s0 && ClocksAgree(2, []) && Admitted(s0.visits, m) == 0;
    SameMark(m.room, 0, 0, m.room, 1, 1);
    hide Run, ClocksAgree, MarkKey, Admitted, Act;
    Admits(s0, 0, m, 0);
    RunStep(s0, [], a);
    ClocksStep(2, [], a);
    var s1 := Run(s0, [] + [a]);
    RunStep(s0, [] + [a], tick);
    ClocksStep(2, [] + [a], tick);
    var s2 := Run(s0, [] + [a] + [tick]);
    assert s2 == s1.(now := SECOND);
    Admits(s2, 1, m, 1);
    RunStep(s0, [] + [a] + [tick], b);
    ClocksStep(2, [] + [a] + [tick], b);
  }
}
