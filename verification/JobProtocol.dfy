/**
 * The consumers of the Job process and the three Redis gates a message passes before its room is
 * broadcast to: the deduplication mark, the cooldown mark and the broadcast lock. Every Redis
 * command is one atomic step on a store of keys with expiry times; the turns of the consumers
 * interleave in any order, and any command may stay unsent, be refused or lose its reply.
 */
module JobProtocol {
  import opened Bytes
  import opened RespSpec
  import opened JobKeys
  import opened JobRouting

  /** Times are in milliseconds. */
  const SECOND := 1000
  const DEDUP_TTL := 60
  const COOLDOWN := 1
  const LOCK_TTL := 5

  const MARK: bytes := [ZERO + 1]

  // ---------------------------------------------------------------- Redis

  /** A key's value, when it expires, and which consumer set it. */
  datatype Entry = Entry(value: bytes, expires: nat, writer: nat)

  type Store = map<Key, Entry>

  predicate Live(store: Store, now: nat, key: Key) {
    key in store && now < store[key].expires
  }

  /** SET key value NX EX ttl. */
  function SetNxEx(store: Store, now: nat, key: Key, value: bytes, ttl: nat, writer: nat): (Store, bool) {
    if Live(store, now, key) then (store, false)
    else (store[key := Entry(value, now + ttl * SECOND, writer)], true)
  }

  /** The script of ReleaseLock: get, compare, delete. */
  function CompareAndDelete(store: Store, now: nat, key: Key, value: bytes): (Store, bool) {
    if Live(store, now, key) && store[key].value == value then (store - {key}, true) else (store, false)
  }

  /** What becomes of a command: carried out and answered, refused with an error, carried out without an answer, or never sent. */
  datatype Fate = Answered | Refused | ReplyLost | NotSent

  predicate CarriedOut(fate: Fate) {
    fate == Answered || fate == ReplyLost
  }

  predicate Heard(fate: Fate) {
    fate == Answered || fate == Refused
  }

  /** The network during one command: the PING before it, a reconnection if one is needed, and the command itself. */
  datatype Net = Net(ping: bool, reconnect: bool, fate: Fate)

  /** CheckConnection. */
  predicate Connects(connected: bool, net: Net) {
    if connected && net.ping then true else net.reconnect
  }

  function FateOf(connected: bool, net: Net): Fate {
    if Connects(connected, net) then net.fate else NotSent
  }

  /** A SET NX as it reaches the store, and whether it took effect. */
  function Attempt(store: Store, now: nat, fate: Fate, key: Key, value: bytes, ttl: nat, i: nat): (Store, bool) {
    if CarriedOut(fate) then SetNxEx(store, now, key, value, ttl, i) else (store, false)
  }

  // ---------------------------------------------------------------- the consumers

  /** A message as Kafka delivers it; delivered again it is the same message. */
  datatype Message = Message(id: nat, room: bytes)

  /** Where a consumer stands in its loop. */
  datatype Stage =
    | Idle
    | Cooling(message: Message)
    | Locking(message: Message)
    | Holding(message: Message, value: bytes, until: nat)
    | Releasing(message: Message, value: bytes, until: nat)

  /**
   * A visit to the deduplication or the cooldown gate: whether the mark was set, whether Redis was
   * heard, and whether the message went on.
   */
  datatype Visit = Visit(key: Key, ttl: nat, time: nat, marked: bool, heard: bool, passed: bool,
                         message: Message, second: nat, i: nat)

  /** A broadcast: how many connections it was sent to, for how many it failed, and after how many visits to the gates. */
  datatype Report = Report(message: Message, i: nat, time: nat, sent: nat, failed: nat, after: nat)

  datatype System = System(now: nat, connected: bool, store: Store, stages: seq<Stage>, visits: seq<Visit>, reports: seq<Report>)

  /** What a turn meets: up to three commands, the replies about the room's connections, and the Comets that accept requests. */
  datatype Calls = Calls(net: Net, next: Net, last: Net, members: Reply, answers: Answers, up: set<bytes>)

  datatype Action = Tick(delta: nat) | Turn(i: nat, message: Message, second: nat, calls: Calls)

  function Start(n: nat): System {
    System(0, true, map[], seq(n, _ => Idle), [], [])
  }

  /** GetRoomConnections: nothing if Redis was not heard, and no connections after an error. */
  function RoomConnections(connected: bool, net: Net, members: Reply): Option<seq<bytes>> {
    match FateOf(connected, net)
    case Answered => Some(if members.Arr? then Members(members.items) else [])
    case Refused => Some([])
    case _ => None
  }

  /** Step 4: look the room's connections up, group them, and send one request to each Comet. */
  function Served(connected: bool, calls: Calls): (bool, Option<(nat, nat)>)
    requires AreHashes(calls.answers)
  {
    var one := Connects(connected, calls.net);
    var connIds := RoomConnections(connected, calls.net, calls.members);
    if connIds == None || connIds == Some([]) then (one, None)
    else if !Connects(one, calls.next) then (false, None)
    else if !Connects(true, calls.last) then (false, None)
    else
      var infos := Infos(connIds.value, calls.answers);
      (true, if infos == [] then None else Some((CountAt(infos, calls.up), |infos| - CountAt(infos, calls.up))))
  }

  /** The release: whether the connection is up afterwards, and what became of the script. */
  function Released(connected: bool, calls: Calls): (bool, Fate) {
    if !Connects(connected, calls.net) then (false, NotSent)
    else (Connects(true, calls.next), FateOf(true, calls.next))
  }

  /** One turn of consumer i: its next Redis commands, on the given message if it is idle. */
  function Act(s: System, i: nat, message: Message, second: nat, calls: Calls): System
    requires i < |s.stages| && AreHashes(calls.answers)
  {
    var fate, up := FateOf(s.connected, calls.net), Connects(s.connected, calls.net);
    match s.stages[i]
    case Idle =>
      // step 1: deduplication; without an answer the message is dropped
      var key := MarkKey(message.room, second, i);
      var (store, marked) := Attempt(s.store, s.now, fate, key, MARK, DEDUP_TTL, i);
      var passed := marked && fate == Answered;
      s.(connected := up, store := store, stages := if passed then s.stages[i := Cooling(message)] else s.stages,
         visits := s.visits + [Visit(key, DEDUP_TTL, s.now, marked, Heard(fate), passed, message, second, i)])
    case Cooling(m) =>
      // step 2: cooldown; without an answer the consumer goes on
      var key := CooldownKey(m.room);
      var (store, marked) := Attempt(s.store, s.now, fate, key, MARK, COOLDOWN, i);
      var passed := !Heard(fate) || (marked && fate == Answered);
      s.(connected := up, store := store, stages := s.stages[i := if passed then Locking(m) else Idle],
         visits := s.visits + [Visit(key, COOLDOWN, s.now, marked, Heard(fate), passed, m, second, i)])
    case Locking(m) =>
      // step 3: the lock
      var value := LockValue(i, second);
      var (store, marked) := Attempt(s.store, s.now, fate, SetLockKey(m.room), value, LOCK_TTL, i);
      s.(connected := up, store := store,
         stages := s.stages[i := if marked && fate == Answered then Holding(m, value, s.now + LOCK_TTL * SECOND) else Idle])
    case Holding(m, value, until) =>
      // step 4: the broadcast; whatever it did, the lock is released next
      var (connected, counts) := Served(s.connected, calls);
      s.(connected := connected, stages := s.stages[i := Releasing(m, value, until)],
         reports := if counts == None then s.reports
                    else s.reports + [Report(m, i, s.now, counts.value.0, counts.value.1, |s.visits|)])
    case Releasing(m, value, until) =>
      // step 5: the release
      var (connected, outcome) := Released(s.connected, calls);
      var store := if CarriedOut(outcome) then CompareAndDelete(s.store, s.now, LockKey(m.room), value).0 else s.store;
      s.(connected := connected, store := store, stages := s.stages[i := Idle])
  }

  /** A turn of a consumer there is, with replies as Redis gives them; other turns do nothing. */
  predicate Takes(s: System, a: Action) {
    a.Turn? && a.i < |s.stages| && AreHashes(a.calls.answers)
  }

  function Do(s: System, a: Action): System {
    if a.Tick? then s.(now := s.now + a.delta)
    else if Takes(s, a) then Act(s, a.i, a.message, a.second, a.calls) else s
  }

  /** Any interleaving of turns and passing time. */
  function Run(s: System, actions: seq<Action>): System {
    if actions == [] then s else Do(Run(s, actions[..|actions| - 1]), actions[|actions| - 1])
  }

  /**
   * What a command that reaches Redis leaves there, in milliseconds: a deduplication mark for a minute, a
   * cooldown mark for a second, a lock for five, unless the key is live. Marks have the value "1".
   */
  lemma MarksSet(s: System, a: Action)
    requires Takes(s, a) && ((s.connected && a.calls.net.ping) || a.calls.net.reconnect)
    requires a.calls.net.fate == Answered || a.calls.net.fate == ReplyLost
    requires var stage := s.stages[a.i]; stage.Idle? || stage.Cooling? || stage.Locking?
    ensures var t, stage := Do(s, a), s.stages[a.i];
            var key := if stage.Idle? then MarkKey(a.message.room, a.second, a.i)
                       else if stage.Cooling? then CooldownKey(stage.message.room) else SetLockKey(stage.message.room);
            var lasts := if stage.Idle? then 60000 else if stage.Cooling? then 1000 else 5000;
            var value := if stage.Locking? then LockValue(a.i, a.second) else [49];
            && t.now == s.now && t.connected
            && t.store == (if key in s.store && s.now < s.store[key].expires then s.store
                           else s.store[key := Entry(value, s.now + lasts, a.i)])
            && (t.stages[a.i].Holding? ==> t.stages[a.i].until == s.now + 5000)
  {
    hide MarkKey, CooldownKey, SetLockKey, LockValue, AreHashes;
  }

  // ---------------------------------------------------------------- what every run keeps

  predicate HasLock(stage: Stage) {
    stage.Holding? || stage.Releasing?
  }

  /** A value that consumer i gives to a lock. */
  ghost predicate ValueOf(value: bytes, i: nat) {
    exists t: nat :: value == LockValue(i, t)
  }

  /** Every lock in the store carries a value of the consumer that set it. */
  ghost predicate LocksSigned(store: Store) {
    forall key :: key in store && IsLockKey(key) ==> ValueOf(store[key].value, store[key].writer)
  }

  /** A holder's value is its own, and until its time is up the store holds exactly its entry. */
  ghost predicate HolderOk(store: Store, now: nat, i: nat, stage: Stage) {
    HasLock(stage) ==>
      && ValueOf(stage.value, i)
      && (now < stage.until ==>
            var key := SetLockKey(stage.message.room); key in store && store[key] == Entry(stage.value, stage.until, i))
  }

  predicate IsMark(key: Key) {
    |key| > 0 && key[0] == 'm' as int
  }

  predicate IsCooldown(key: Key) {
    |key| > 0 && key[0] == 'r' as int
  }

  /** What a visit to a gate means: which key, and when the message goes on. */
  ghost predicate Faithful(v: Visit) {
    && (v.key == MarkKey(v.message.room, v.second, v.i) || v.key == CooldownKey(v.message.room))
    && (IsMark(v.key) || IsCooldown(v.key))
    && (IsMark(v.key) ==> v.key == MarkKey(v.message.room, v.second, v.i))
    && (IsCooldown(v.key) ==> v.key == CooldownKey(v.message.room))
    && v.ttl == (if IsCooldown(v.key) then COOLDOWN else DEDUP_TTL)
    && (v.passed <==> if IsMark(v.key) then v.marked && v.heard else !v.heard || v.marked)
  }

  /** A mark that was set stays for its time. */
  ghost predicate VisitOk(store: Store, now: nat, v: Visit) {
    && Faithful(v) && v.time <= now
    && (v.marked ==> v.key in store && v.time + v.ttl * SECOND <= store[v.key].expires)
  }

  /** Some visit set the mark that expires then. */
  ghost predicate SetBy(visits: seq<Visit>, key: Key, expires: nat) {
    exists a :: 0 <= a < |visits| && visits[a].marked && visits[a].key == key
                && visits[a].time + visits[a].ttl * SECOND == expires
  }

  /** No mark comes from nowhere. */
  ghost predicate MarksExplained(store: Store, visits: seq<Visit>) {
    forall key :: key in store && !IsLockKey(key) ==> SetBy(visits, key, store[key].expires)
  }

  ghost predicate Spaced(visits: seq<Visit>) {
    forall a, b :: 0 <= a < b < |visits| && visits[a].marked && visits[b].marked && visits[a].key == visits[b].key ==>
                visits[a].time + visits[a].ttl * SECOND <= visits[b].time
  }

  ghost predicate HoldersOk(store: Store, now: nat, stages: seq<Stage>) {
    forall i :: 0 <= i < |stages| ==> HolderOk(store, now, i, stages[i])
  }

  ghost predicate VisitsOk(store: Store, now: nat, visits: seq<Visit>) {
    forall a :: 0 <= a < |visits| ==> VisitOk(store, now, visits[a])
  }

  ghost predicate Inv(s: System) {
    && LocksSigned(s.store) && HoldersOk(s.store, s.now, s.stages) && VisitsOk(s.store, s.now, s.visits)
    && MarksExplained(s.store, s.visits) && Spaced(s.visits)
  }

  lemma OwnerUnique(value: bytes, i: nat, j: nat)
    requires ValueOf(value, i) && ValueOf(value, j)
    ensures i == j
  {
    var t: nat :| value == LockValue(i, t);
    var u: nat :| value == LockValue(j, u);
    LockValueInjective(i, t, j, u);
  }

  /** A SET NX that finds its key taken changes nothing; otherwise only its own key, which had run out. */
  lemma AttemptEffect(store: Store, now: nat, fate: Fate, key: Key, value: bytes, ttl: nat, i: nat)
    ensures var (store', marked) := Attempt(store, now, fate, key, value, ttl, i);
            && (marked <==> CarriedOut(fate) && !Live(store, now, key))
            && store' == if marked then store[key := Entry(value, now + ttl * SECOND, i)] else store
  {
  }

  /** An entry that had run out is written anew. */
  lemma VisitsKept(store: Store, now: nat, visits: seq<Visit>, key: Key, e: Entry)
    requires VisitsOk(store, now, visits) && !Live(store, now, key) && now <= e.expires
    ensures VisitsOk(store[key := e], now, visits)
  {
    forall a | 0 <= a < |visits| ensures VisitOk(store[key := e], now, visits[a]) {
      assert VisitOk(store, now, visits[a]);
      hide Faithful;
    }
  }

  lemma HoldersKept(store: Store, now: nat, stages: seq<Stage>, key: Key, e: Entry)
    requires HoldersOk(store, now, stages) && !Live(store, now, key)
    ensures HoldersOk(store[key := e], now, stages)
  {
    hide ValueOf, SetLockKey;
    forall j | 0 <= j < |stages| ensures HolderOk(store[key := e], now, j, stages[j]) {
      assert HolderOk(store, now, j, stages[j]);
    }
  }

  lemma StageKeeps(s: System, i: nat, stage: Stage)
    requires Inv(s) && i < |s.stages| && HolderOk(s.store, s.now, i, stage)
    ensures Inv(s.(stages := s.stages[i := stage]))
  {
    hide HolderOk, VisitsOk, Spaced, LocksSigned, MarksExplained;
  }

  /** Setting a lock whose key has run out. */
  lemma LockKeeps(s: System, key: Key, value: bytes, i: nat)
    requires Inv(s) && IsLockKey(key) && ValueOf(value, i) && !Live(s.store, s.now, key)
    ensures Inv(s.(store := s.store[key := Entry(value, s.now + LOCK_TTL * SECOND, i)]))
  {
    var e := Entry(value, s.now + LOCK_TTL * SECOND, i);
    HoldersKept(s.store, s.now, s.stages, key, e);
    VisitsKept(s.store, s.now, s.visits, key, e);
    hide HoldersOk, VisitsOk, SetBy, ValueOf, IsLockKey, Spaced;
  }

  lemma VisitsMore(store: Store, now: nat, visits: seq<Visit>, v: Visit)
    requires VisitsOk(store, now, visits) && VisitOk(store, now, v)
    ensures VisitsOk(store, now, visits + [v])
  {
    hide VisitOk;
  }

  lemma ExplainedMore(store: Store, visits: seq<Visit>, v: Visit)
    requires MarksExplained(store, visits)
    ensures MarksExplained(store, visits + [v])
  {
    forall key | key in store && !IsLockKey(key) ensures SetBy(visits + [v], key, store[key].expires) {
      SetByMore(visits, v, key, store[key].expires);
    }
  }

  lemma SetByMore(visits: seq<Visit>, v: Visit, key: Key, expires: nat)
    requires SetBy(visits, key, expires)
    ensures SetBy(visits + [v], key, expires)
  {
    var a :| 0 <= a < |visits| && visits[a].marked && visits[a].key == key && visits[a].time + visits[a].ttl * SECOND == expires;
    assert (visits + [v])[a] == visits[a];
  }

  /** A visit that did not set its mark. */
  lemma VisitKeeps(s: System, v: Visit)
    requires Inv(s) && Faithful(v) && v.time == s.now && !v.marked
    ensures Inv(s.(visits := s.visits + [v]))
  {
    assert VisitOk(s.store, s.now, v);
    ExplainedMore(s.store, s.visits, v);
    VisitsMore(s.store, s.now, s.visits, v);
    assert Spaced(s.visits + [v]) by {
      hide VisitOk, VisitsOk, MarksExplained, HoldersOk, LocksSigned;
    }
    hide VisitsOk, MarksExplained, Spaced, HoldersOk, LocksSigned, VisitOk, Faithful;
  }

  /** A visit that set its mark: the mark before it was set long enough ago. */
  lemma MarkKeeps(s: System, v: Visit, i: nat)
    requires Inv(s) && Faithful(v) && v.time == s.now && v.marked && !Live(s.store, s.now, v.key)
    ensures Inv(s.(store := s.store[v.key := Entry(MARK, s.now + v.ttl * SECOND, i)], visits := s.visits + [v]))
  {
    var e := Entry(MARK, s.now + v.ttl * SECOND, i);
    var store := s.store[v.key := e];
    NoLock(v);
    HoldersKept(s.store, s.now, s.stages, v.key, e);
    VisitsKept(s.store, s.now, s.visits, v.key, e);
    assert VisitOk(store, s.now, v);
    VisitsMore(store, s.now, s.visits, v);
    MarkExplained(s.store, s.visits, v, e);
    MarkSpaced(s, v);
    hide HoldersOk, VisitsOk, MarksExplained, Faithful, ValueOf, IsLockKey, Spaced, Live;
  }

  lemma NoLock(v: Visit)
    requires Faithful(v)
    ensures !IsLockKey(v.key)
  {
  }

  lemma MarkExplained(store: Store, visits: seq<Visit>, v: Visit, e: Entry)
    requires MarksExplained(store, visits) && v.marked && e.expires == v.time + v.ttl * SECOND
    ensures MarksExplained(store[v.key := e], visits + [v])
  {
    ExplainedMore(store, visits, v);
    assert (visits + [v])[|visits|] == v;
    assert SetBy(visits + [v], v.key, e.expires);
    hide SetBy, IsLockKey;
  }

  lemma MarkSpaced(s: System, v: Visit)
    requires Inv(s) && v.time == s.now && !Live(s.store, s.now, v.key)
    ensures Spaced(s.visits + [v])
  {
    hide Faithful, HoldersOk, LocksSigned, MarksExplained;
    forall a | 0 <= a < |s.visits| && s.visits[a].marked && s.visits[a].key == v.key
      ensures s.visits[a].time + s.visits[a].ttl * SECOND <= v.time {
      assert VisitOk(s.store, s.now, s.visits[a]);
    }
  }

  /** Either kind of visit, in one step with the change of stage it causes. */
  lemma GateKeeps(s: System, fate: Fate, v: Visit, i: nat, stage: Stage)
    requires Inv(s) && i < |s.stages| && Faithful(v) && v.time == s.now && !HasLock(stage)
    requires v.marked == Attempt(s.store, s.now, fate, v.key, MARK, v.ttl, i).1
    ensures Inv(s.(store := Attempt(s.store, s.now, fate, v.key, MARK, v.ttl, i).0,
                   stages := s.stages[i := stage], visits := s.visits + [v]))
  {
    AttemptEffect(s.store, s.now, fate, v.key, MARK, v.ttl, i);
    hide Attempt, Inv, Faithful;
    var t := s.(store := Attempt(s.store, s.now, fate, v.key, MARK, v.ttl, i).0, visits := s.visits + [v]);
    if v.marked { MarkKeeps(s, v, i); } else { VisitKeeps(s, v); }
    assert Inv(t);
    StageKeeps(t, i, stage);
  }

  lemma MarkFaithful(room: bytes, v: Visit)
    requires v.key == MarkKey(room, v.second, v.i) && v.message.room == room && v.ttl == DEDUP_TTL
    requires v.passed <==> v.marked && v.heard
    ensures Faithful(v) && IsMark(v.key) && !IsCooldown(v.key)
  {
    KeyKinds(room, MsgId(room, v.second, v.i));
  }

  lemma CooldownFaithful(room: bytes, v: Visit)
    requires v.key == CooldownKey(room) && v.message.room == room && v.ttl == COOLDOWN
    requires v.passed <==> !v.heard || v.marked
    ensures Faithful(v) && IsCooldown(v.key) && !IsMark(v.key)
  {
    KeyKinds(room, []);
  }

  lemma LockStep(s: System, i: nat, m: Message, second: nat, fate: Fate)
    requires Inv(s) && i < |s.stages|
    ensures var value := LockValue(i, second);
            var (store, marked) := Attempt(s.store, s.now, fate, SetLockKey(m.room), value, LOCK_TTL, i);
            Inv(s.(store := store,
                   stages := s.stages[i := if marked && fate == Answered then Holding(m, value, s.now + LOCK_TTL * SECOND) else Idle]))
  {
    var value, key := LockValue(i, second), SetLockKey(m.room);
    AttemptEffect(s.store, s.now, fate, key, value, LOCK_TTL, i);
    KeyKinds(m.room, []);
    assert ValueOf(value, i);
    hide *;
    var (store, marked) := Attempt(s.store, s.now, fate, key, value, LOCK_TTL, i);
    if marked {
      LockKeeps(s, key, value, i);
      FreshHold(s.store, s.now, i, m, value);
    }
    NoHold(store, s.now, i);
    StageKeeps(s.(store := store), i, if marked && fate == Answered then Holding(m, value, s.now + LOCK_TTL * SECOND) else Idle);
  }

  lemma FreshHold(store: Store, now: nat, i: nat, m: Message, value: bytes)
    requires ValueOf(value, i)
    ensures var until := now + LOCK_TTL * SECOND;
            HolderOk(store[SetLockKey(m.room) := Entry(value, until, i)], now, i, Holding(m, value, until))
  {
    hide ValueOf, SetLockKey;
  }

  lemma SameHold(store: Store, now: nat, i: nat, m: Message, value: bytes, until: nat)
    requires HolderOk(store, now, i, Holding(m, value, until))
    ensures HolderOk(store, now, i, Releasing(m, value, until))
  {
  }

  lemma NoHold(store: Store, now: nat, i: nat)
    ensures HolderOk(store, now, i, Idle)
  {
  }

  /** The release script removes a lock only from the consumer that set it. */
  lemma DeleteOwn(s: System, room: bytes, value: bytes, i: nat)
    requires LocksSigned(s.store) && ValueOf(value, i)
    ensures var key := LockKey(room);
            var store := CompareAndDelete(s.store, s.now, key, value).0;
            store == s.store || (Live(s.store, s.now, key) && s.store[key].writer == i && store == s.store - {key})
  {
    var key := LockKey(room);
    KeyKinds(room, []);
    if Live(s.store, s.now, key) && s.store[key].value == value {
      OwnerUnique(value, i, s.store[key].writer);
    }
  }

  lemma DeleteKeeps(s: System, room: bytes, value: bytes, i: nat)
    requires Inv(s) && ValueOf(value, i) && i < |s.stages| && !HasLock(s.stages[i])
    ensures Inv(s.(store := CompareAndDelete(s.store, s.now, LockKey(room), value).0))
  {
    var key := LockKey(room);
    DeleteOwn(s, room, value, i);
    KeyKinds(room, []);
    hide CompareAndDelete, ValueOf, SetBy, SetLockKey, LockKey, HoldersOk, VisitsOk, Spaced, IsLockKey;
    if CompareAndDelete(s.store, s.now, key, value).0 != s.store {
      HoldersWithout(s, key, i);
      VisitsWithout(s.store, s.now, s.visits, key);
    }
  }

  lemma HoldersWithout(s: System, key: Key, i: nat)
    requires HoldersOk(s.store, s.now, s.stages) && key in s.store && s.store[key].writer == i
    requires i < |s.stages| && !HasLock(s.stages[i])
    ensures HoldersOk(s.store - {key}, s.now, s.stages)
  {
    hide ValueOf, SetLockKey;
    forall j | 0 <= j < |s.stages| ensures HolderOk(s.store - {key}, s.now, j, s.stages[j]) {
      assert HolderOk(s.store, s.now, j, s.stages[j]);
    }
  }

  lemma VisitsWithout(store: Store, now: nat, visits: seq<Visit>, key: Key)
    requires VisitsOk(store, now, visits) && IsLockKey(key)
    ensures VisitsOk(store - {key}, now, visits)
  {
    forall a | 0 <= a < |visits| ensures VisitOk(store - {key}, now, visits[a]) {
      assert VisitOk(store, now, visits[a]);
      NoLock(visits[a]);
      hide Faithful, IsLockKey;
    }
  }

  lemma TickKeeps(s: System, delta: nat)
    requires Inv(s)
    ensures Inv(s.(now := s.now + delta))
  {
    hide Faithful, LocksSigned, MarksExplained, Spaced;
    forall j | 0 <= j < |s.stages| ensures HolderOk(s.store, s.now + delta, j, s.stages[j]) {
      assert HolderOk(s.store, s.now, j, s.stages[j]);
    }
    forall a | 0 <= a < |s.visits| ensures VisitOk(s.store, s.now + delta, s.visits[a]) {
      assert VisitOk(s.store, s.now, s.visits[a]);
    }
  }

  lemma HolderSigned(s: System, i: nat)
    requires Inv(s) && i < |s.stages| && HasLock(s.stages[i])
    ensures HolderOk(s.store, s.now, i, s.stages[i]) && ValueOf(s.stages[i].value, i)
  {
  }

  /** The parts of a state that the invariant does not look at. */
  lemma InvFree(s: System, connected: bool, reports: seq<Report>)
    requires Inv(s)
    ensures Inv(s.(connected := connected, reports := reports))
  {
  }

  lemma IdleKeeps(s: System, i: nat, message: Message, second: nat, calls: Calls)
    requires Inv(s) && i < |s.stages| && s.stages[i].Idle? && AreHashes(calls.answers)
    ensures Inv(Act(s, i, message, second, calls).(connected := s.connected, reports := s.reports))
  {
    var t := Act(s, i, message, second, calls);
    hide Inv, Attempt, MarkKey, Faithful, Connects, FateOf;
    var v := t.visits[|s.visits|];
    MarkFaithful(message.room, v);
    GateKeeps(s, FateOf(s.connected, calls.net), v, i, if v.passed then Cooling(message) else Idle);
    assert s.stages[i := Idle] == s.stages;
  }

  lemma CoolingKeeps(s: System, i: nat, message: Message, second: nat, calls: Calls)
    requires Inv(s) && i < |s.stages| && s.stages[i].Cooling? && AreHashes(calls.answers)
    ensures Inv(Act(s, i, message, second, calls).(connected := s.connected, reports := s.reports))
  {
    var t := Act(s, i, message, second, calls);
    hide Inv, Attempt, CooldownKey, Faithful, Connects, FateOf;
    var v := t.visits[|s.visits|];
    CooldownFaithful(v.message.room, v);
    GateKeeps(s, FateOf(s.connected, calls.net), v, i, if v.passed then Locking(v.message) else Idle);
  }

  lemma ReleasingKeeps(s: System, i: nat, message: Message, second: nat, calls: Calls)
    requires Inv(s) && i < |s.stages| && s.stages[i].Releasing? && AreHashes(calls.answers)
    ensures Inv(Act(s, i, message, second, calls).(connected := s.connected, reports := s.reports))
  {
    HolderSigned(s, i);
    NoHold(s.store, s.now, i);
    hide Inv, ValueOf, CompareAndDelete, HolderOk, LockKey, Released;
    StageKeeps(s, i, Idle);
    DeleteKeeps(s.(stages := s.stages[i := Idle]), s.stages[i].message.room, s.stages[i].value, i);
  }

  lemma LockingKeeps(s: System, i: nat, message: Message, second: nat, calls: Calls)
    requires Inv(s) && i < |s.stages| && s.stages[i].Locking? && AreHashes(calls.answers)
    ensures Inv(Act(s, i, message, second, calls).(connected := s.connected, reports := s.reports))
  {
    hide Inv, Attempt, SetLockKey, LockValue, Connects, FateOf;
    LockStep(s, i, s.stages[i].message, second, FateOf(s.connected, calls.net));
  }

  lemma HoldingKeeps(s: System, i: nat, message: Message, second: nat, calls: Calls)
    requires Inv(s) && i < |s.stages| && s.stages[i].Holding? && AreHashes(calls.answers)
    ensures Inv(Act(s, i, message, second, calls).(connected := s.connected, reports := s.reports))
  {
    HolderSigned(s, i);
    hide Inv, HolderOk, Served;
    var h := s.stages[i];
    SameHold(s.store, s.now, i, h.message, h.value, h.until);
    StageKeeps(s, i, Releasing(h.message, h.value, h.until));
  }

  lemma ActKeeps(s: System, i: nat, message: Message, second: nat, calls: Calls)
    requires Inv(s) && i < |s.stages| && AreHashes(calls.answers)
    ensures Inv(Act(s, i, message, second, calls))
  {
    hide *;
    match s.stages[i] {
      case Idle => IdleKeeps(s, i, message, second, calls);
      case Cooling(_) => CoolingKeeps(s, i, message, second, calls);
      case Locking(_) => LockingKeeps(s, i, message, second, calls);
      case Holding(_, _, _) => HoldingKeeps(s, i, message, second, calls);
      case Releasing(_, _, _) => ReleasingKeeps(s, i, message, second, calls);
    }
    var t := Act(s, i, message, second, calls);
    InvFree(t.(connected := s.connected, reports := s.reports), t.connected, t.reports);
  }

  lemma DoKeeps(s: System, a: Action)
    requires Inv(s)
    ensures Inv(Do(s, a))
  {
    hide Inv, Act;
    if a.Tick? { TickKeeps(s, a.delta); }
    else if Takes(s, a) { ActKeeps(s, a.i, a.message, a.second, a.calls); }
  }

  /** The invariant holds in every state that any number of consumers can reach. */
  lemma {:induction false} RunKeeps(n: nat, actions: seq<Action>)
    ensures Inv(Run(Start(n), actions))
    decreases |actions|
  {
    if actions != [] {
      hide Inv, Do;
      RunKeeps(n, actions[..|actions| - 1]);
      DoKeeps(Run(Start(n), actions[..|actions| - 1]), actions[|actions| - 1]);
    }
  }

  // ---------------------------------------------------------------- the lock

  /**
   * In every run, whatever is lost or late, a live lock leaves the store only by the release of
   * the consumer that set it (or by running out of time).
   */
  lemma LocksLeaveByOwner(n: nat, actions: seq<Action>, a: Action, room: bytes)
    requires var s := Run(Start(n), actions); Live(s.store, s.now, SetLockKey(room))
    ensures var s, key := Run(Start(n), actions), SetLockKey(room);
            var s' := Do(s, a);
            || (key in s'.store && s'.store[key] == s.store[key])
            || (Takes(s, a) && a.i == s.store[key].writer && s.stages[a.i].Releasing? && LockKey(s.stages[a.i].message.room) == key)
  {
    var s, key := Run(Start(n), actions), SetLockKey(room);
    RunKeeps(n, actions);
    KeyKinds(room, []);
    hide Run, SetLockKey, LockKey, MarkKey, CooldownKey, IsLockKey, VisitsOk, MarksExplained, Spaced;
    if Takes(s, a) {
      match s.stages[a.i]
      case Idle => KeyKinds(a.message.room, MsgId(a.message.room, a.second, a.i));
        assert MarkKey(a.message.room, a.second, a.i) != key by { MarkIsNoLock(a.message.room, a.second, a.i); }
      case Cooling(m) => KeyKinds(m.room, []);
        assert CooldownKey(m.room) != key by { CooldownIsNoLock(m.room); }
      case Locking(_) =>
      case Holding(_, _, _) =>
      case Releasing(m, value, _) =>
        HolderSigned(s, a.i);
        DeleteOwn(s, m.room, value, a.i);
    }
  }

  lemma MarkIsNoLock(room: bytes, second: nat, i: nat)
    ensures !IsLockKey(MarkKey(room, second, i)) && IsMark(MarkKey(room, second, i)) && !IsCooldown(MarkKey(room, second, i))
  {
    KeyKinds(room, MsgId(room, second, i));
  }

  lemma CooldownIsNoLock(room: bytes)
    ensures !IsLockKey(CooldownKey(room)) && IsCooldown(CooldownKey(room)) && !IsMark(CooldownKey(room))
  {
    KeyKinds(room, []);
  }

  /** Between acquire and release, with a lock that is also that of the given room. */
  ghost predicate Holds(s: System, i: nat, room: bytes) {
    i < |s.stages| && HasLock(s.stages[i]) && SetLockKey(s.stages[i].message.room) == SetLockKey(room)
  }

  /** Two consumers are between acquire and release of one room only if one of them has overstayed its time to live. */
  lemma MutualExclusion(n: nat, actions: seq<Action>, i: nat, j: nat, room: bytes)
    requires var s := Run(Start(n), actions);
             && Holds(s, i, room) && Holds(s, j, room)
             && s.now < s.stages[i].until && s.now < s.stages[j].until
    ensures i == j
  {
    RunKeeps(n, actions);
    var s := Run(Start(n), actions);
    hide Run, SetLockKey;
    assert HolderOk(s.store, s.now, i, s.stages[i]) && HolderOk(s.store, s.now, j, s.stages[j]);
  }

  /**
   * Exactly when a consumer joins another that holds the room's lock: its command is carried out and
   * answered, and no lock is live; and then the other has overstayed.
   */
  lemma JoinsIffOverstayed(n: nat, actions: seq<Action>, i: nat, a: Action, room: bytes)
    requires var s := Run(Start(n), actions);
             && Takes(s, a) && Holds(s, i, room) && s.stages[a.i].Locking?
             && SetLockKey(s.stages[a.i].message.room) == SetLockKey(room)
    ensures var s := Run(Start(n), actions);
            var s', live := Do(s, a), Live(s.store, s.now, SetLockKey(room));
            && (Holds(s', i, room) && Holds(s', a.i, room) <==> FateOf(s.connected, a.calls.net) == Answered && !live)
            && (!live ==> s.now >= s.stages[i].until)
  {
    RunKeeps(n, actions);
    var s := Run(Start(n), actions);
    hide Run, SetLockKey, LockValue;
    assert HolderOk(s.store, s.now, i, s.stages[i]);
  }

  /** A release that is carried out in time frees the room exactly when its name holds no NUL byte. */
  lemma FreedIffWhole(n: nat, actions: seq<Action>, a: Action)
    requires var s := Run(Start(n), actions);
             && Takes(s, a) && s.stages[a.i].Releasing? && s.now < s.stages[a.i].until
             && CarriedOut(Released(s.connected, a.calls).1)
    ensures var s := Run(Start(n), actions);
            var room := s.stages[a.i].message.room;
            SetLockKey(room) !in Do(s, a).store <==> 0 !in room
  {
    RunKeeps(n, actions);
    var s := Run(Start(n), actions);
    hide Run, Released;
    assert HolderOk(s.store, s.now, a.i, s.stages[a.i]);
    ReleaseFindsLock(s.stages[a.i].message.room);
    hide SetLockKey, LockKey;
  }

  // ---------------------------------------------------------------- the gates

  /** Two visits that set the mark of one gate are at least its time to live apart. */
  lemma GateSpacing(n: nat, actions: seq<Action>, a: nat, b: nat)
    requires var visits := Run(Start(n), actions).visits;
             a < b < |visits| && visits[a].marked && visits[b].marked && visits[a].key == visits[b].key
    ensures var visits := Run(Start(n), actions).visits;
            visits[a].time + visits[a].ttl * SECOND <= visits[b].time
  {
    RunKeeps(n, actions);
  }

  /** Some visit set this mark, and its time is not over. */
  ghost predicate Recent(visits: seq<Visit>, key: Key, now: nat) {
    exists a :: 0 <= a < |visits| && visits[a].marked && visits[a].key == key && now < visits[a].time + visits[a].ttl * SECOND
  }

  /** In every reachable state a mark is live exactly when some visit set it recently. */
  lemma LiveIffRecent(n: nat, actions: seq<Action>, key: Key)
    requires !IsLockKey(key)
    ensures var s := Run(Start(n), actions); Live(s.store, s.now, key) <==> Recent(s.visits, key, s.now)
  {
    RunKeeps(n, actions);
    var s := Run(Start(n), actions);
    hide Run, Faithful, HoldersOk, LocksSigned, Spaced;
    if Live(s.store, s.now, key) {
      assert SetBy(s.visits, key, s.store[key].expires);
      var a :| 0 <= a < |s.visits| && s.visits[a].marked && s.visits[a].key == key
               && s.visits[a].time + s.visits[a].ttl * SECOND == s.store[key].expires;
    }
    if Recent(s.visits, key, s.now) {
      var a :| 0 <= a < |s.visits| && s.visits[a].marked && s.visits[a].key == key
               && s.now < s.visits[a].time + s.visits[a].ttl * SECOND;
      assert VisitOk(s.store, s.now, s.visits[a]);
    }
  }

  /**
   * Exactly when an idle consumer lets a message through: Redis answers, and nobody has set the mark
   * of this room, second and consumer within the last 60 seconds, whatever became of the message before.
   */
  lemma DedupPassesIff(n: nat, actions: seq<Action>, a: Action)
    requires var s := Run(Start(n), actions); Takes(s, a) && s.stages[a.i].Idle?
    ensures var s := Run(Start(n), actions);
            Do(s, a).stages[a.i] == Cooling(a.message) <==>
            FateOf(s.connected, a.calls.net) == Answered && !Recent(s.visits, MarkKey(a.message.room, a.second, a.i), s.now)
  {
    MarkIsNoLock(a.message.room, a.second, a.i);
    LiveIffRecent(n, actions, MarkKey(a.message.room, a.second, a.i));
    hide Run, MarkKey, Recent;
  }

  /**
   * Exactly when the cooldown lets a message on: Redis was not heard, or it answered and no visit has
   * set the room's mark within the last second.
   */
  lemma CooldownPassesIff(n: nat, actions: seq<Action>, a: Action)
    requires var s := Run(Start(n), actions); Takes(s, a) && s.stages[a.i].Cooling?
    ensures var s := Run(Start(n), actions);
            var m, fate := s.stages[a.i].message, FateOf(s.connected, a.calls.net);
            Do(s, a).stages[a.i] == Locking(m) <==>
            !Heard(fate) || (fate == Answered && !Recent(s.visits, CooldownKey(m.room), s.now))
  {
    var s := Run(Start(n), actions);
    CooldownIsNoLock(s.stages[a.i].message.room);
    LiveIffRecent(n, actions, CooldownKey(s.stages[a.i].message.room));
    hide Run, CooldownKey, Recent;
  }

  /** Less than a second after a visit that set the mark, a message passes only unheard. */
  lemma TooCloseMeansUnheard(n: nat, actions: seq<Action>, a: nat, b: nat)
    requires var visits := Run(Start(n), actions).visits;
             && a < b < |visits| && IsCooldown(visits[a].key) && visits[a].key == visits[b].key
             && visits[a].marked && visits[b].passed
    ensures var visits := Run(Start(n), actions).visits;
            visits[b].time < visits[a].time + COOLDOWN * SECOND ==> !visits[b].heard && !visits[b].marked
  {
    RunKeeps(n, actions);
    var s := Run(Start(n), actions);
    hide Run, MarkKey, CooldownKey;
    assert VisitOk(s.store, s.now, s.visits[a]) && VisitOk(s.store, s.now, s.visits[b]);
  }
}
