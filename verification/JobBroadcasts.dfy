/**
 * How often a room is broadcast to: how many broadcasts a window of time can hold, that each has a
 * pass through the cooldown of its own, and exactly how close two of them can come.
 */
module JobBroadcasts {
  import opened Bytes
  import opened RespSpec
  import opened JobKeys
  import opened JobRouting
  import opened JobProtocol
  import opened JobLaws

  // ---------------------------------------------------------------- counting

  function Count<T>(s: seq<T>, p: T -> bool): nat {
    if s == [] then 0
    else
      var front := Count(s[..|s| - 1], p);
      if p(s[|s| - 1]) then front + 1 else front
  }

  lemma CountMore<T>(s: seq<T>, x: T, p: T -> bool)
    ensures Count(s + [x], p) == Count(s, p) + if p(x) then 1 else 0
  {
    assert (s + [x])[..|s|] == s;
  }

  lemma {:induction false} CountBound<T>(s: seq<T>, p: T -> bool)
    ensures Count(s, p) <= |s|
  {
    if s != [] {
      CountBound(s[..|s| - 1], p);
    }
  }

  lemma {:induction false} CountChanged<T>(s: seq<T>, i: nat, x: T, p: T -> bool)
    requires i < |s|
    ensures Count(s[i := x], p) + (if p(s[i]) then 1 else 0) == Count(s, p) + if p(x) then 1 else 0
  {
    var k := |s| - 1;
    if i < k {
      CountChanged(s[..k], i, x, p);
      assert s[i := x][..k] == s[..k][i := x];
    } else {
      assert s[i := x][..k] == s[..k];
    }
  }

  // ---------------------------------------------------------------- broadcasts in a window of time

  /** A window of time, seen from the rooms with one cooldown key. */
  datatype Window = Window(key: Key, from: nat, span: nat) {
    predicate Has(time: nat) {
      from <= time < from + span
    }
  }

  predicate IsSent(w: Window, r: Report) {
    CooldownKey(r.message.room) == w.key && w.Has(r.time)
  }

  predicate IsPass(w: Window, v: Visit) {
    v.key == w.key && v.passed && w.Has(v.time)
  }

  /** A consumer between the cooldown and the broadcast. */
  predicate IsBehind(key: Key, stage: Stage) {
    (stage.Locking? || stage.Holding?) && CooldownKey(stage.message.room) == key
  }

  function Sent(w: Window, reports: seq<Report>): nat {
    Count(reports, (r: Report) => IsSent(w, r))
  }

  function Passes(w: Window, visits: seq<Visit>): nat {
    Count(visits, (v: Visit) => IsPass(w, v))
  }

  /** Those of the passes for which Redis was not heard. */
  function Unheard(w: Window, visits: seq<Visit>): nat {
    Count(visits, (v: Visit) => IsPass(w, v) && !v.heard)
  }

  function Behind(key: Key, stages: seq<Stage>): nat {
    Count(stages, (stage: Stage) => IsBehind(key, stage))
  }

  /**
   * Before the window nothing has been sent in it; during it what was sent, and those who may still
   * send, are covered by the passes in it and one for each consumer that came into it already behind
   * the gate; later nothing is added.
   */
  ghost predicate Covered(s: System, w: Window) {
    && (s.now < w.from ==> Sent(w, s.reports) == 0)
    && (s.now < w.from + w.span ==> Sent(w, s.reports) + Behind(w.key, s.stages) <= Passes(w, s.visits) + |s.stages|)
    && Sent(w, s.reports) <= Passes(w, s.visits) + |s.stages|
  }

  lemma IdleCovered(s: System, a: Action, w: Window)
    requires Takes(s, a) && s.stages[a.i].Idle? && Covered(s, w) && IsCooldown(w.key)
    ensures Covered(Do(s, a), w)
  {
    var t := Do(s, a);
    MarkIsNoLock(a.message.room, a.second, a.i);
    hide Attempt, MarkKey, FateOf, Connects, CooldownKey;
    CountMore(s.visits, t.visits[|s.visits|], (v: Visit) => IsPass(w, v));
    if t.visits[|s.visits|].passed {
      CountChanged(s.stages, a.i, Cooling(a.message), (stage: Stage) => IsBehind(w.key, stage));
    }
    hide Count;
  }

  lemma CoolingCovered(s: System, a: Action, w: Window)
    requires Takes(s, a) && s.stages[a.i].Cooling? && Covered(s, w)
    ensures Covered(Do(s, a), w)
  {
    var t := Do(s, a);
    hide Attempt, CooldownKey, FateOf, Connects;
    CountMore(s.visits, t.visits[|s.visits|], (v: Visit) => IsPass(w, v));
    CountChanged(s.stages, a.i, t.stages[a.i], (stage: Stage) => IsBehind(w.key, stage));
    CountBound(t.stages, (stage: Stage) => IsBehind(w.key, stage));
    hide Count;
  }

  lemma LaterCovered(s: System, a: Action, w: Window)
    requires Takes(s, a) && !s.stages[a.i].Idle? && !s.stages[a.i].Cooling? && Covered(s, w)
    ensures Covered(Do(s, a), w)
  {
    var t := Do(s, a);
    LaterTurn(s, a);
    hide Do, CooldownKey;
    CountChanged(s.stages, a.i, t.stages[a.i], (stage: Stage) => IsBehind(w.key, stage));
    if t.reports != s.reports {
      CountMore(s.reports, t.reports[|s.reports|], (r: Report) => IsSent(w, r));
    }
    hide Count;
  }

  lemma DoCovered(s: System, a: Action, w: Window)
    requires Covered(s, w) && IsCooldown(w.key)
    ensures Covered(Do(s, a), w) && |Do(s, a).stages| == |s.stages|
  {
    if Takes(s, a) {
      hide Covered;
      if s.stages[a.i].Idle? { IdleCovered(s, a, w); }
      else if s.stages[a.i].Cooling? { CoolingCovered(s, a, w); }
      else { LaterCovered(s, a, w); }
    } else {
      CountBound(s.stages, (stage: Stage) => IsBehind(w.key, stage));
      hide Count;
    }
  }

  lemma {:induction false} RunCovered(n: nat, actions: seq<Action>, w: Window)
    requires IsCooldown(w.key)
    ensures Covered(Run(Start(n), actions), w) && |Run(Start(n), actions).stages| == n
    decreases |actions|
  {
    if actions == [] {
      CountBound(Start(n).stages, (stage: Stage) => IsBehind(w.key, stage));
    } else {
      hide Covered, Do;
      RunCovered(n, actions[..|actions| - 1], w);
      DoCovered(Run(Start(n), actions[..|actions| - 1]), actions[|actions| - 1], w);
    }
  }

  /** A pass that was heard set the mark. */
  lemma {:induction false} PassesWithin(visits: seq<Visit>, w: Window)
    requires IsCooldown(w.key) && forall v :: v in visits ==> Faithful(v)
    ensures Passes(w, visits) <= |Within(visits, w.key, w.from, w.span)| + Unheard(w, visits)
  {
    if visits != [] {
      var k := |visits| - 1;
      var v := visits[k];
      PassesWithin(visits[..k], w);
      assert v in visits && visits[..k] + [v] == visits;
      assert IsPass(w, v) ==> v.marked || !v.heard;
      hide Faithful, IsCooldown, CooldownKey, MarkKey;
    }
  }

  /**
   * A window of some seconds holds at most as many broadcasts of a room as messages passed its
   * cooldown in the window and one for each consumer; and of those passes there is at most one a
   * second, and those for which Redis was not heard.
   */
  lemma BroadcastWindow(n: nat, actions: seq<Action>, room: bytes, from: nat, seconds: nat)
    ensures var s, w := Run(Start(n), actions), Window(CooldownKey(room), from, seconds * SECOND);
            Sent(w, s.reports) <= Passes(w, s.visits) + n <= seconds + Unheard(w, s.visits) + n
  {
    var s, w := Run(Start(n), actions), Window(CooldownKey(room), from, seconds * SECOND);
    CooldownIsNoLock(room);
    RunCovered(n, actions, w);
    RunKeeps(n, actions);
    CooldownWindow(n, actions, room, from, seconds);
    hide Run, CooldownKey, Sent, Passes, Unheard, Within;
    forall v | v in s.visits ensures Faithful(v) {
      assert VisitOk(s.store, s.now, v);
    }
    PassesWithin(s.visits, w);
  }

  // ---------------------------------------------------------------- each broadcast has a pass of its own

  /** Where the latest visit of a consumer is, or -1. */
  function LastVisit(visits: seq<Visit>, i: nat): (k: int)
    ensures -1 <= k < |visits| && (k >= 0 ==> visits[k].i == i)
    ensures forall j :: k < j < |visits| ==> visits[j].i != i
  {
    var k := |visits| - 1;
    if visits == [] then -1 else if visits[k].i == i then k else LastVisit(visits[..k], i)
  }

  /** The visit after which a broadcast was sent: the latest of its consumer at that time. */
  function PassOf(visits: seq<Visit>, r: Report): (k: int)
    ensures -1 <= k < |visits| && k < r.after
  {
    LastVisit(visits[..if r.after < |visits| then r.after else |visits|], r.i)
  }

  /** A pass of some message through the cooldown. */
  ghost predicate LetThrough(v: Visit, m: Message, i: nat, now: nat) {
    v.passed && v.key == CooldownKey(m.room) && v.message == m && v.i == i && v.time <= now
  }

  /** A consumer behind the gate last passed it, with its message, and has not broadcast since. */
  ghost predicate StageLinked(s: System, i: nat) {
    i < |s.stages| && (s.stages[i].Locking? || s.stages[i].Holding?) ==>
      var k := LastVisit(s.visits, i);
      && 0 <= k && LetThrough(s.visits[k], s.stages[i].message, i, s.now)
      && forall a :: 0 <= a < |s.reports| && s.reports[a].i == i ==> s.reports[a].after <= k
  }

  ghost predicate ReportLinked(visits: seq<Visit>, r: Report) {
    r.after <= |visits| && 0 <= PassOf(visits, r) && LetThrough(visits[PassOf(visits, r)], r.message, r.i, r.time)
  }

  /** The broadcasts of one consumer come after different visits. */
  ghost predicate Ordered(visits: seq<Visit>, reports: seq<Report>) {
    forall a, b :: 0 <= a < b < |reports| && reports[a].i == reports[b].i ==> reports[a].after <= PassOf(visits, reports[b])
  }

  ghost predicate Linked(s: System) {
    && (forall i :: 0 <= i < |s.stages| ==> StageLinked(s, i))
    && (forall a :: 0 <= a < |s.reports| ==> ReportLinked(s.visits, s.reports[a]))
    && Ordered(s.visits, s.reports)
  }

  /** Later visits do not matter to a broadcast. */
  lemma PassKept(visits: seq<Visit>, v: Visit, r: Report)
    requires r.after <= |visits|
    ensures PassOf(visits + [v], r) == PassOf(visits, r)
  {
    assert (visits + [v])[..r.after] == visits[..r.after];
  }

  lemma LastMore(visits: seq<Visit>, v: Visit, i: nat)
    ensures LastVisit(visits + [v], i) == if v.i == i then |visits| else LastVisit(visits, i)
  {
    assert (visits + [v])[..|visits|] == visits;
  }

  /** A visit to a gate, and the change of stage it causes. */
  lemma VisitLinks(s: System, t: System, i: nat, v: Visit)
    requires Linked(s) && i < |s.stages| && v.i == i && v.time == s.now == t.now
    requires t.visits == s.visits + [v] && t.reports == s.reports
    requires |t.stages| == |s.stages| && t.stages == s.stages[i := t.stages[i]] && !t.stages[i].Holding?
    requires t.stages[i].Locking? ==> LetThrough(v, t.stages[i].message, i, s.now)
    ensures Linked(t)
  {
    hide LetThrough, PassOf, LastVisit;
    forall a | 0 <= a < |t.reports| ensures ReportLinked(t.visits, t.reports[a]) {
      assert ReportLinked(s.visits, s.reports[a]);
      PassKept(s.visits, v, s.reports[a]);
    }
    forall j | 0 <= j < |t.stages| ensures StageLinked(t, j) {
      assert StageLinked(s, j);
      LastMore(s.visits, v, j);
    }
    forall a, b | 0 <= a < b < |t.reports| && t.reports[a].i == t.reports[b].i
      ensures t.reports[a].after <= PassOf(t.visits, t.reports[b])
    {
      assert ReportLinked(s.visits, s.reports[b]);
      PassKept(s.visits, v, s.reports[b]);
    }
  }

  lemma IdleLinks(s: System, a: Action)
    requires Takes(s, a) && s.stages[a.i].Idle? && Linked(s)
    ensures Linked(Do(s, a))
  {
    var t := Do(s, a);
    hide Attempt, MarkKey, FateOf, Connects, Linked, LetThrough;
    VisitLinks(s, t, a.i, t.visits[|s.visits|]);
  }

  lemma CoolingLinks(s: System, a: Action)
    requires Takes(s, a) && s.stages[a.i].Cooling? && Linked(s)
    ensures Linked(Do(s, a))
  {
    var t := Do(s, a);
    hide Attempt, CooldownKey, FateOf, Connects, Linked;
    VisitLinks(s, t, a.i, t.visits[|s.visits|]);
  }

  lemma LaterLinks(s: System, a: Action)
    requires Takes(s, a) && !s.stages[a.i].Idle? && !s.stages[a.i].Cooling? && Linked(s)
    ensures Linked(Do(s, a))
  {
    var t := Do(s, a);
    LaterTurn(s, a);
    assert t.now == s.now by {
      hide Served, Released, Attempt;
    }
    hide Do, LetThrough, LastVisit;
    assert StageLinked(s, a.i);
    forall j | 0 <= j < |t.stages| ensures StageLinked(t, j) {
      assert StageLinked(s, j);
    }
    if t.reports != s.reports {
      var r := t.reports[|s.reports|];
      assert s.visits[..|s.visits|] == s.visits;
      assert PassOf(s.visits, r) == LastVisit(s.visits, a.i);
      assert ReportLinked(t.visits, r);
    }
  }

  lemma {:induction false} RunLinks(n: nat, actions: seq<Action>)
    ensures Linked(Run(Start(n), actions))
    decreases |actions|
  {
    if actions != [] {
      var s, a := Run(Start(n), actions[..|actions| - 1]), actions[|actions| - 1];
      RunLinks(n, actions[..|actions| - 1]);
      DoLinks(s, a);
      hide Linked, Do;
    }
  }

  lemma DoLinks(s: System, a: Action)
    requires Linked(s)
    ensures Linked(Do(s, a))
  {
    if Takes(s, a) {
      hide Linked, Do;
      if s.stages[a.i].Idle? { IdleLinks(s, a); }
      else if s.stages[a.i].Cooling? { CoolingLinks(s, a); }
      else { LaterLinks(s, a); }
    } else {
      hide LastVisit, PassOf;
      forall j | 0 <= j < |s.stages| ensures StageLinked(Do(s, a), j) {
        assert StageLinked(s, j);
      }
    }
  }

  /** Every broadcast of a run had a pass through its room's cooldown, and no two had the same. */
  lemma OwnPass(n: nat, actions: seq<Action>, a: nat, b: nat)
    requires var s := Run(Start(n), actions); a < |s.reports| && b < |s.reports|
    ensures var s := Run(Start(n), actions);
            var k := PassOf(s.visits, s.reports[a]);
            && 0 <= k && LetThrough(s.visits[k], s.reports[a].message, s.reports[a].i, s.reports[a].time)
            && (k == PassOf(s.visits, s.reports[b]) ==> a == b)
  {
    RunLinks(n, actions);
    var s := Run(Start(n), actions);
    hide Run, LastVisit, PassOf, CooldownKey;
    assert ReportLinked(s.visits, s.reports[a]) && ReportLinked(s.visits, s.reports[b]);
  }

  // ---------------------------------------------------------------- how close two broadcasts can come

  /** How long a consumer took from its pass through the cooldown to the broadcast. */
  function Delay(visits: seq<Visit>, r: Report): nat {
    var k := PassOf(visits, r);
    if k >= 0 && visits[k].time <= r.time then r.time - visits[k].time else 0
  }

  /** Two broadcasts of a room whose passes set the mark are apart, but for the delay of the first. */
  lemma BroadcastsApart(n: nat, actions: seq<Action>, a: nat, b: nat)
    requires var s := Run(Start(n), actions);
             && a < |s.reports| && b < |s.reports|
             && CooldownKey(s.reports[a].message.room) == CooldownKey(s.reports[b].message.room)
             && var k, l := PassOf(s.visits, s.reports[a]), PassOf(s.visits, s.reports[b]);
                0 <= k < l && s.visits[k].marked && s.visits[l].marked
    ensures var s := Run(Start(n), actions);
            s.reports[a].time + COOLDOWN * SECOND + Delay(s.visits, s.reports[b]) <=
            s.reports[b].time + Delay(s.visits, s.reports[a])
  {
    var s := Run(Start(n), actions);
    var k, l := PassOf(s.visits, s.reports[a]), PassOf(s.visits, s.reports[b]);
    OwnPass(n, actions, a, a);
    OwnPass(n, actions, b, b);
    GateSpacing(n, actions, k, l);
    RunKeeps(n, actions);
    CooldownIsNoLock(s.reports[a].message.room);
    hide Run, CooldownKey, LastVisit, PassOf;
    assert VisitOk(s.store, s.now, s.visits[k]);
  }

  /** Exactly when two such broadcasts are closer than the cooldown: by what their delays make of the time between their passes. */
  lemma CloseIff(n: nat, actions: seq<Action>, a: nat, b: nat)
    requires var s := Run(Start(n), actions);
             && a < |s.reports| && b < |s.reports|
             && CooldownKey(s.reports[a].message.room) == CooldownKey(s.reports[b].message.room)
             && var k, l := PassOf(s.visits, s.reports[a]), PassOf(s.visits, s.reports[b]);
                0 <= k < l && s.visits[k].marked && s.visits[l].marked
    ensures var s := Run(Start(n), actions);
            var r, r' := s.reports[a], s.reports[b];
            var between := s.visits[PassOf(s.visits, r')].time - s.visits[PassOf(s.visits, r)].time;
            && between >= COOLDOWN * SECOND
            && (-COOLDOWN * SECOND < r'.time - r.time < COOLDOWN * SECOND <==>
                between + Delay(s.visits, r') - COOLDOWN * SECOND < Delay(s.visits, r)
                < between + Delay(s.visits, r') + COOLDOWN * SECOND)
  {
    var s := Run(Start(n), actions);
    OwnPass(n, actions, a, a);
    OwnPass(n, actions, b, b);
    BroadcastsApart(n, actions, a, b);
    hide Run, CooldownKey, LastVisit, PassOf;
  }

  /** Every message that passed the cooldown set its mark, as it does whenever Redis is heard. */
  ghost predicate AllMarked(visits: seq<Visit>) {
    forall k :: 0 <= k < |visits| && IsCooldown(visits[k].key) && visits[k].passed ==> visits[k].marked
  }

  /** Nobody takes longer than some time from the cooldown to the broadcast. */
  ghost predicate Prompt(s: System, delay: nat) {
    forall a :: 0 <= a < |s.reports| ==> Delay(s.visits, s.reports[a]) <= delay
  }

  ghost predicate Apart(reports: seq<Report>, gap: nat) {
    forall a, b :: 0 <= a < b < |reports| && CooldownKey(reports[a].message.room) == CooldownKey(reports[b].message.room) ==>
                   reports[a].time + gap <= reports[b].time || reports[b].time + gap <= reports[a].time
  }

  /** In every run with agreeing clocks, Redis heard and such delays, the broadcasts of a room are that far apart. */
  ghost predicate KeepsApart(delay: nat, gap: nat) {
    forall n: nat, actions: seq<Action> :: ClocksAgree(n, actions) ==>
      var s := Run(Start(n), actions);
      AllMarked(s.visits) && Prompt(s, delay) ==> Apart(s.reports, gap)
  }

  lemma PromptMeansApart(n: nat, actions: seq<Action>, delay: nat, gap: nat)
    requires gap + delay <= COOLDOWN * SECOND
    requires var s := Run(Start(n), actions); AllMarked(s.visits) && Prompt(s, delay)
    ensures Apart(Run(Start(n), actions).reports, gap)
  {
    var s := Run(Start(n), actions);
    hide Run, CooldownKey, Delay, PassOf, LastVisit;
    forall a, b | 0 <= a < b < |s.reports| && CooldownKey(s.reports[a].message.room) == CooldownKey(s.reports[b].message.room)
      ensures s.reports[a].time + gap <= s.reports[b].time || s.reports[b].time + gap <= s.reports[a].time
    {
      OwnPass(n, actions, a, b);
      OwnPass(n, actions, b, a);
      CooldownIsNoLock(s.reports[a].message.room);
      if PassOf(s.visits, s.reports[a]) < PassOf(s.visits, s.reports[b]) { BroadcastsApart(n, actions, a, b); }
      else { BroadcastsApart(n, actions, b, a); }
    }
  }

  // ---------------------------------------------------------------- what a broadcast counts

  /** CheckConnection succeeds at once, or by reconnecting. */
  predicate IsUp(connected: bool, net: Net) {
    (connected && net.ping) || net.reconnect
  }

  /**
   * A room is broadcast to exactly if Redis can be reached for all the lookups, SMEMBERS is answered with
   * an array, and some member names a Comet. Each such member is then counted once: as sent if its Comet
   * accepts requests, and as failed otherwise.
   */
  lemma ServedExactly(connected: bool, calls: Calls)
    requires AreHashes(calls.answers)
    ensures var counts := Served(connected, calls).1;
            && (counts.Some? <==>
                  && IsUp(connected, calls.net) && IsUp(true, calls.next) && IsUp(true, calls.last)
                  && calls.net.fate == Answered && calls.members.Arr?
                  && Reachable(calls.members.items, calls.answers) != {})
            && (counts.Some? ==>
                  && counts.value.0 == |ReachableAt(calls.members.items, calls.answers, calls.up)|
                  && counts.value.0 + counts.value.1 == |Reachable(calls.members.items, calls.answers)|)
  {
    if calls.members.Arr? {
      FoundExactly(calls.members.items, calls.answers, calls.up);
      NobodyFound(calls.answers);
    }
    hide Infos, Members, Reachable, ReachableAt, CountAt, AreHashes;
  }

  lemma NobodyFound(answers: Answers)
    requires AreHashes(answers)
    ensures Infos([], answers) == []
  {
  }

  /** A report and the turn it comes from. */
  predicate CountedIn(r: Report, a: Action) {
    && a.Turn? && a.i == r.i && AreHashes(a.calls.answers) && a.calls.members.Arr?
    && r.sent == |ReachableAt(a.calls.members.items, a.calls.answers, a.calls.up)|
    && r.sent + r.failed == |Reachable(a.calls.members.items, a.calls.answers)|
    && r.sent + r.failed > 0
  }

  lemma TurnCounts(s: System, a: Action)
    ensures var t := Do(s, a); s.reports <= t.reports && |t.reports| <= |s.reports| + 1
    ensures var t := Do(s, a); |t.reports| > |s.reports| ==> CountedIn(t.reports[|s.reports|], a)
  {
    if Takes(s, a) && s.stages[a.i].Holding? {
      ServedExactly(s.connected, a.calls);
    }
    hide Served, Released, Attempt, Reachable, ReachableAt, AreHashes, IsUp;
  }

  /**
   * Every report of every run accounts for the members of its room: sent and failed together are the
   * members whose hash, as answered in that turn, names a Comet.
   */
  lemma {:induction false} ReportsCount(n: nat, actions: seq<Action>, b: nat)
    requires b < |Run(Start(n), actions).reports|
    ensures exists k :: 0 <= k < |actions| && CountedIn(Run(Start(n), actions).reports[b], actions[k])
  {
    if actions != [] {
      var k := |actions| - 1;
      var s, a := Run(Start(n), actions[..k]), actions[k];
      TurnCounts(s, a);
      hide CountedIn, Do;
      if b < |s.reports| {
        ReportsCount(n, actions[..k], b);
        var j :| 0 <= j < k && CountedIn(s.reports[b], actions[..k][j]);
        assert CountedIn(Run(Start(n), actions).reports[b], actions[j]);
      } else {
        assert CountedIn(Run(Start(n), actions).reports[b], actions[k]);
      }
    }
  }

  // ---------------------------------------------------------------- the run in which they come closest

  const CONN: bytes := [1]
  const FIELDS: seq<Reply> := [Str(COMET_ID), Str(CONN)]
  const ANSWERS: Answers := map[CONN := Arr(FIELDS)]

  /** A turn whose commands are all answered, in a room with one connection. */
  function Full(i: nat, m: Message, second: nat): Action {
    var net := Net(true, true, Answered);
    Turn(i, m, second, Calls(net, net, net, Arr([Str(CONN)]), ANSWERS, {CONN}))
  }

  lemma OneField()
    ensures IsHash(FIELDS) && Field(FIELDS, COMET_ID) == CONN
  {
    UpToNulWhole(CONN);
    UpToNulWhole(COMET_ID);
    hide UpToNul;
    assert ValueIn(FIELDS, 1, COMET_ID) == CONN;
  }

  lemma OneInfo()
    ensures AreHashes(ANSWERS) && |Infos([CONN], ANSWERS)| == 1 && CountAt(Infos([CONN], ANSWERS), {CONN}) == 1
  {
    OneField();
    hide Field;
    assert Infos([CONN], ANSWERS) == [InfoOf(CONN, FIELDS)] by {
      assert [CONN][..0] == [] && Infos([], ANSWERS) == [];
    }
    var infos := [InfoOf(CONN, FIELDS)];
    hide Infos;
    assert infos[..0] == [] && CountAt([], {CONN}) == 0;
  }

  lemma OneMember()
    ensures Members([Str(CONN)]) == [CONN]
  {
    UpToNulWhole(CONN);
    assert [Str(CONN)][..0] == [] && Members([]) == [];
  }

  lemma FullServes(i: nat, m: Message, second: nat)
    ensures var calls := Full(i, m, second).calls; AreHashes(calls.answers) && Served(true, calls) == (true, Some((1, 0)))
  {
    OneInfo();
    OneMember();
    hide Members, Infos, CountAt, AreHashes;
  }

  /** An idle consumer that finds both gates open. */
  lemma GatesOpen(s: System, i: nat, m: Message, second: nat)
    requires i < |s.stages| && s.stages[i].Idle? && s.connected
    requires !Live(s.store, s.now, MarkKey(m.room, second, i)) && !Live(s.store, s.now, CooldownKey(m.room))
    ensures var a, mark, cool := Full(i, m, second), MarkKey(m.room, second, i), CooldownKey(m.room);
            && Do(s, a).now == s.now
            && Do(Do(s, a), a) ==
               s.(store := s.store[mark := Entry(MARK, s.now + DEDUP_TTL * SECOND, i)][cool := Entry(MARK, s.now + COOLDOWN * SECOND, i)],
                  stages := s.stages[i := Locking(m)],
                  visits := s.visits + [Visit(mark, DEDUP_TTL, s.now, true, true, true, m, second, i)]
                                     + [Visit(cool, COOLDOWN, s.now, true, true, true, m, second, i)])
  {
    KeysApart(m.room, second, i);
    FullServes(i, m, second);
    hide MarkKey, CooldownKey, SetLockKey, LockKey, LockValue, Served, Released, AreHashes;
    var a := Full(i, m, second);
    var s1 := Do(s, a);
    assert s1.stages[i] == Cooling(m) && s1.connected && s1.now == s.now;
  }

  /** A consumer behind the gates that finds the lock free: it locks, broadcasts and releases. */
  lemma LockBroadcast(s: System, i: nat, m: Message, second: nat)
    requires i < |s.stages| && s.stages[i] == Locking(m) && s.connected && 0 !in m.room
    requires SetLockKey(m.room) !in s.store
    ensures var a := Full(i, m, second);
            && Do(s, a).now == Do(Do(s, a), a).now == s.now
            && Do(Do(Do(s, a), a), a) ==
               s.(stages := s.stages[i := Idle], reports := s.reports + [Report(m, i, s.now, 1, 0, |s.visits|)])
  {
    ReleaseFindsLock(m.room);
    FullServes(i, m, second);
    hide MarkKey, CooldownKey, SetLockKey, LockKey, LockValue, Served, AreHashes;
    var a, key, value := Full(i, m, second), SetLockKey(m.room), LockValue(i, second);
    var until := s.now + LOCK_TTL * SECOND;
    var s1 := Do(s, a);
    assert s1 == s.(store := s.store[key := Entry(value, until, i)], stages := s.stages[i := Holding(m, value, until)]);
    var s2 := Do(s1, a);
    assert s2 == s1.(stages := s1.stages[i := Releasing(m, value, until)],
                     reports := s.reports + [Report(m, i, s.now, 1, 0, |s.visits|)]);
    assert s.store[key := Entry(value, until, i)] - {key} == s.store;
  }

  lemma TwoTurns(n: nat, actions: seq<Action>, a: Action)
    requires ClocksAgree(n, actions) && a.Turn?
    requires var s := Run(Start(n), actions); a.second == s.now / SECOND && Do(s, a).now == s.now
    ensures ClocksAgree(n, actions + [a] + [a]) && Run(Start(n), actions + [a] + [a]) == Do(Do(Run(Start(n), actions), a), a)
  {
    hide Run, Do, ClocksAgree;
    RunStep(Start(n), actions, a);
    RunStep(Start(n), actions + [a], a);
    ClocksStep(n, actions, a);
    ClocksStep(n, actions + [a], a);
  }

  function Visits(m: Message, time: nat): seq<Visit> {
    var second := time / SECOND;
    [Visit(MarkKey(m.room, second, 0), DEDUP_TTL, time, true, true, true, m, second, 0),
     Visit(CooldownKey(m.room), COOLDOWN, time, true, true, true, m, second, 0)]
  }

  /** A consumer passes both gates at once and broadcasts after a delay. */
  function Late(m: Message, delay: nat): seq<Action> {
    var a, b := Full(0, m, 0), Full(0, m, delay / SECOND);
    [] + [a] + [a] + [Tick(delay)] + [b] + [b] + [b]
  }

  /** A second after its pass the same consumer takes another message through without delay. */
  function LateThenPrompt(m: Message, m': Message, delay: nat): seq<Action>
    requires delay <= SECOND
  {
    var c := Full(0, m', 1);
    Late(m, delay) + [Tick(SECOND - delay)] + [c] + [c] + [c] + [c] + [c]
  }

  lemma LateRun(m: Message, delay: nat)
    requires 0 !in m.room
    ensures ClocksAgree(1, Late(m, delay))
    ensures Run(Start(1), Late(m, delay)) ==
            System(delay, true,
                   map[MarkKey(m.room, 0, 0) := Entry(MARK, DEDUP_TTL * SECOND, 0), CooldownKey(m.room) := Entry(MARK, COOLDOWN * SECOND, 0)],
                   [Idle], Visits(m, 0), [Report(m, 0, delay, 1, 0, 2)])
  {
    var s0, a, tick, b := Start(1), Full(0, m, 0), Tick(delay), Full(0, m, delay / SECOND);
    assert Run(s0, []) == s0 && ClocksAgree(1, []) && s0.stages == [Idle];
    KeysApart(m.room, 0, 0);
    hide Run, ClocksAgree, MarkKey, CooldownKey, SetLockKey, Act, Full;
    GatesOpen(s0, 0, m, 0);
    TwoTurns(1, [], a);
    var r2 := [] + [a] + [a];
    var s2 := Run(s0, r2);
    RunStep(s0, r2, tick);
    ClocksStep(1, r2, tick);
    var s3 := Run(s0, r2 + [tick]);
    assert s3 == s2.(now := delay);
    LockBroadcast(s3, 0, m, delay / SECOND);
    ThreeTurns(1, r2 + [tick], b);
    assert s3.visits == Visits(m, 0);
  }

  lemma LateThenPromptRun(m: Message, m': Message, delay: nat)
    requires m.room == m'.room && 0 !in m.room && delay <= SECOND
    ensures var s := Run(Start(1), LateThenPrompt(m, m', delay));
            && ClocksAgree(1, LateThenPrompt(m, m', delay))
            && s.visits == Visits(m, 0) + Visits(m', SECOND)
            && s.reports == [Report(m, 0, delay, 1, 0, 2)] + [Report(m', 0, SECOND, 1, 0, 4)]
  {
    var s0, r, tick, c := Start(1), Late(m, delay), Tick(SECOND - delay), Full(0, m', 1);
    LateRun(m, delay);
    KeysApart(m.room, 0, 0);
    KeysApart(m.room, 1, 0);
    SameMark(m.room, 0, 0, m.room, 1, 0);
    hide Run, ClocksAgree, MarkKey, CooldownKey, SetLockKey, Act, Full, Late, Visits;
    RunStep(s0, r, tick);
    ClocksStep(1, r, tick);
    var s1 := Run(s0, r + [tick]);
    assert s1 == Run(s0, r).(now := SECOND);
    GatesOpen(s1, 0, m', 1);
    TwoTurns(1, r + [tick], c);
    var s2 := Run(s0, r + [tick] + [c] + [c]);
    LockBroadcast(s2, 0, m', 1);
    ThreeTurns(1, r + [tick] + [c] + [c], c);
    SecondVisits(m', s1.visits);
  }

  lemma SecondVisits(m: Message, visits: seq<Visit>)
    ensures visits + [Visit(MarkKey(m.room, 1, 0), DEDUP_TTL, SECOND, true, true, true, m, 1, 0)]
                   + [Visit(CooldownKey(m.room), COOLDOWN, SECOND, true, true, true, m, 1, 0)] ==
            visits + Visits(m, SECOND)
    ensures |Visits(m, 0)| == 2
  {
  }

  /**
   * While Redis is heard throughout, one consumer broadcasts to a room twice in a second: the first
   * time late after its pass, the second time at once. So a second can hold two broadcasts, as many
   * as BroadcastWindow allows; and without a limit on the delay they can fall on the same instant.
   */
  lemma TwoBroadcasts(m: Message, m': Message, delay: nat)
    requires m.room == m'.room && 0 !in m.room && delay <= SECOND
    ensures var s := Run(Start(1), LateThenPrompt(m, m', delay));
            && ClocksAgree(1, LateThenPrompt(m, m', delay)) && AllMarked(s.visits) && Prompt(s, delay)
            && (forall v :: v in s.visits ==> v.heard)
            && |s.reports| == 2 && s.reports[0].message == m && s.reports[1].message == m'
            && s.reports[0].time == delay && s.reports[1].time == SECOND
            && (delay > 0 ==> Sent(Window(CooldownKey(m.room), delay, SECOND), s.reports) == 2)
  {
    hide Run, ClocksAgree, MarkKey, CooldownKey, LateThenPrompt, Count, LastVisit, PassOf, Delay;
    LateThenPromptRun(m, m', delay);
    TheirDelays(m, m', delay);
    if delay > 0 {
      SentBoth(m, m', delay);
    }
  }

  lemma TheirDelays(m: Message, m': Message, delay: nat)
    requires delay <= SECOND
    ensures var visits := Visits(m, 0) + Visits(m', SECOND);
            && Delay(visits, Report(m, 0, delay, 1, 0, 2)) == delay && Delay(visits, Report(m', 0, SECOND, 1, 0, 4)) == 0
  {
    var visits := Visits(m, 0) + Visits(m', SECOND);
    assert visits[..2] == Visits(m, 0) && visits[..4] == visits;
    LatestIsLast(Visits(m, 0));
    LatestIsLast(visits);
    hide LastVisit, MarkKey, CooldownKey;
  }

  lemma SentBoth(m: Message, m': Message, delay: nat)
    requires m.room == m'.room && 0 < delay <= SECOND
    ensures Sent(Window(CooldownKey(m.room), delay, SECOND), [Report(m, 0, delay, 1, 0, 2)] + [Report(m', 0, SECOND, 1, 0, 4)]) == 2
  {
    hide CooldownKey;
    var r, r' := Report(m, 0, delay, 1, 0, 2), Report(m', 0, SECOND, 1, 0, 4);
    var sent := (x: Report) => IsSent(Window(CooldownKey(m.room), delay, SECOND), x);
    CountMore([], r, sent);
    CountMore([r], r', sent);
    assert [] + [r] == [r] && Count([], sent) == 0;
  }

  lemma LatestIsLast(visits: seq<Visit>)
    requires visits != [] && visits[|visits| - 1].i == 0
    ensures LastVisit(visits, 0) == |visits| - 1
  {
  }

  /**
   * Exactly how far apart the broadcasts of a room are sure to be while Redis is heard: the second of
   * the cooldown less the longest time a consumer takes from the cooldown to the broadcast.
   */
  lemma KeepsApartIff(delay: nat, gap: nat)
    ensures KeepsApart(delay, gap) <==> gap == 0 || gap + delay <= COOLDOWN * SECOND
  {
    hide Run, ClocksAgree, AllMarked, Prompt, CooldownKey;
    if gap + delay <= COOLDOWN * SECOND {
      forall n: nat, actions: seq<Action> | ClocksAgree(n, actions)
        ensures var s := Run(Start(n), actions); AllMarked(s.visits) && Prompt(s, delay) ==> Apart(s.reports, gap)
      {
        var s := Run(Start(n), actions);
        if AllMarked(s.visits) && Prompt(s, delay) { PromptMeansApart(n, actions, delay, gap); }
      }
    } else if gap > 0 {
      var m, d := Message(0, []), if delay <= SECOND then delay else SECOND;
      TwoBroadcasts(m, m, d);
      var s := Run(Start(1), LateThenPrompt(m, m, d));
      PromptMore(s, d, delay);
      assert !Apart(s.reports, gap);
    }
  }

  lemma PromptMore(s: System, d: nat, delay: nat)
    requires Prompt(s, d) && d <= delay
    ensures Prompt(s, delay)
  {
    hide Delay;
  }

  /** So a room is broadcast to only once within a second, as the cooldown means to ensure, exactly if nobody waits after it. */
  lemma OncePerCooldownIff(delay: nat)
    ensures KeepsApart(delay, COOLDOWN * SECOND) <==> delay == 0
  {
    KeepsApartIff(delay, COOLDOWN * SECOND);
  }
}
