/**
 * RouteService and the consumer threads of main.cc, each stopped between two turns. Whatever the
 * schedule, they do what JobProtocol says, so all its laws hold of them.
 */
module JobProgram {
  import opened Bytes
  import opened RespSpec
  import opened JobKeys
  import opened JobRouting
  import opened JobProtocol

  /** RouteService, together with the Redis store it talks to. */
  class RouteService {
    var now: nat
    var store: Store
    /** Whether there is a Redis context. */
    var connected: bool

    constructor ()
      ensures now == 0 && store == map[] && connected
    {
      now, store, connected := 0, map[], true;
    }

    /** CheckConnection: PING, and reconnect if that fails. */
    method CheckConnection(net: Net) returns (ok: bool)
      modifies this`connected
      ensures ok == connected == Connects(old(connected), net)
    {
      if !connected {
        connected := net.reconnect;
        return connected;
      }
      if !net.ping {
        connected := net.reconnect;
        return connected;
      }
      return true;
    }

    /**
     * SET key value NX EX ttl, with key and value passed as C strings: the reply, if one is heard, and
     * whether it says OK.
     */
    method SetNx(key: bytes, value: bytes, ttl: nat, fate: Fate, i: nat) returns (reply: Option<bool>)
      modifies this`store
      ensures var (after, marked) := Attempt(old(store), now, fate, UpToNul(key), UpToNul(value), ttl, i);
              && store == after
              && reply == if Heard(fate) then Some(marked && fate == Answered) else None
    {
      var sent, taken := UpToNul(key), true;
      if fate == Answered || fate == ReplyLost {
        taken := sent in store && now < store[sent].expires;
        if !taken {
          store := store[sent := Entry(UpToNul(value), now + ttl * SECOND, i)];
        }
      }
      if fate == Answered || fate == Refused {
        reply := Some(!taken);
      } else {
        reply := None;
      }
    }

    /** True only when the lock was set and the answer says so. */
    method AcquireLock(lockKey: bytes, lockValue: bytes, ttl: nat, net: Net, i: nat) returns (acquired: bool)
      modifies this`store, this`connected
      ensures connected == Connects(old(connected), net)
      ensures var fate := FateOf(old(connected), net);
              var (after, marked) := Attempt(old(store), now, fate, UpToNul(lockKey), UpToNul(lockValue), ttl, i);
              store == after && acquired == (marked && fate == Answered)
    {
      hide Attempt, UpToNul;
      var ok := CheckConnection(net);
      var reply := SetNx(lockKey, lockValue, ttl, if ok then net.fate else NotSent, i);
      acquired := reply.Some? && reply.value;
    }

    /** The connection is looked at twice, by ReleaseLock and by ExecuteLuaScript; the script gets the whole key. */
    method ReleaseLock(lockKey: bytes, lockValue: bytes, net: Net, next: Net) returns (released: bool)
      modifies this`store, this`connected
      ensures var one := Connects(old(connected), net);
              var fate := if one then FateOf(true, next) else NotSent;
              var (after, deleted) := CompareAndDelete(old(store), now, lockKey, lockValue);
              && connected == (one && Connects(true, next))
              && store == (if CarriedOut(fate) then after else old(store))
              && released == (deleted && fate == Answered)
    {
      released := false;
      var ok := CheckConnection(net);
      if ok {
        ok := CheckConnection(next);
        if ok && (next.fate == Answered || next.fate == ReplyLost) {
          if lockKey in store && now < store[lockKey].expires && store[lockKey].value == lockValue {
            store := store - {lockKey};
            released := next.fate == Answered;
          }
        }
      }
    }

    /** True for a message not yet marked; without an answer false, so that the message is skipped. */
    method CheckAndMarkMessageProcessed(msgId: bytes, room: bytes, ttl: nat, net: Net, i: nat) returns (isNew: bool)
      modifies this`store, this`connected
      ensures connected == Connects(old(connected), net)
      ensures var fate := FateOf(old(connected), net);
              var (after, marked) := Attempt(old(store), now, fate, DedupKey(room, msgId), MARK, ttl, i);
              store == after && isNew == (marked && fate == Answered)
    {
      MarkWhole();
      hide Attempt, UpToNul;
      var ok := CheckConnection(net);
      var reply := SetNx(DEDUP_PREFIX + (room + [JobKeys.COLON] + msgId), MARK, ttl, if ok then net.fate else NotSent, i);
      isNew := reply.Some? && reply.value;
    }

    /** False when the mark could be set, and also when Redis is not heard; an error counts as being in cooldown. */
    method IsRoomInCooldown(room: bytes, cooldown: nat, net: Net, i: nat) returns (inCooldown: bool)
      modifies this`store, this`connected
      ensures connected == Connects(old(connected), net)
      ensures var fate := FateOf(old(connected), net);
              var (after, marked) := Attempt(old(store), now, fate, CooldownKey(room), MARK, cooldown, i);
              store == after && inCooldown == (Heard(fate) && !(marked && fate == Answered))
    {
      MarkWhole();
      hide Attempt, UpToNul;
      var ok := CheckConnection(net);
      var reply := SetNx(COOLDOWN_PREFIX + room, MARK, cooldown, if ok then net.fate else NotSent, i);
      inCooldown := reply.Some? && !reply.value;
    }

    /** GetRoomConnections, with the reply to SMEMBERS if it is answered. */
    method GetRoomConnections(net: Net, members: Reply) returns (ok: bool, connIds: seq<bytes>)
      modifies this`connected
      ensures connected == Connects(old(connected), net)
      ensures var found := RoomConnections(old(connected), net, members);
              ok == found.Some? && (ok ==> connIds == found.value)
    {
      connIds := [];
      ok := CheckConnection(net);
      if ok {
        match net.fate
        case Answered =>
          if members.Arr? {
            connIds := ReadMembers(members.items);
          }
        case Refused =>
        case _ => ok := false;
      }
    }

    /** GetConnectionInfoBatch. */
    method GetConnectionInfoBatch(connIds: seq<bytes>, answers: Answers, net: Net)
      returns (found: bool, infos: seq<ConnectionInfo>)
      requires AreHashes(answers)
      modifies this`connected
      ensures connected == Connects(old(connected), net)
      ensures infos == (if connected then Infos(connIds, answers) else []) && found == (infos != [])
    {
      infos := [];
      found := CheckConnection(net);
      if found {
        infos := ReadInfos(connIds, answers);
        found := infos != [];
      }
    }

    /** GroupConnectionsByComet. */
    method GroupConnectionsByComet(connIds: seq<bytes>, answers: Answers, net: Net, next: Net)
      returns (ok: bool, groups: Groups, ghost infos: seq<ConnectionInfo>)
      requires AreHashes(answers)
      modifies this`connected
      ensures connected == (Connects(old(connected), net) && Connects(true, next))
      ensures infos == (if connected then Infos(connIds, answers) else [])
      ensures ok == (infos != []) && Grouped(infos, groups)
    {
      groups, infos := map[], [];
      ok := CheckConnection(net);
      if ok {
        var found, list := GetConnectionInfoBatch(connIds, answers, next);
        infos := list;
        ok := found;
        if found {
          groups := GroupConnections(list);
        }
      }
    }
  }

  lemma MarkWhole()
    ensures UpToNul(MARK) == MARK
  {
    UpToNulWhole(MARK);
  }

  /** The consumer threads of main.cc. */
  class Job {
    const service: RouteService
    var stages: seq<Stage>
    ghost var visits: seq<Visit>
    ghost var reports: seq<Report>

    ghost function Abs(): System
      reads this, service
    {
      System(service.now, service.connected, service.store, stages, visits, reports)
    }

    constructor (n: nat)
      ensures Abs() == Start(n) && fresh(service)
    {
      service := new RouteService();
      stages := seq(n, _ => Idle);
      visits, reports := [], [];
    }

    /** What consumer i does up to its next turn. */
    method TakeTurn(i: nat, message: Message, second: nat, calls: Calls)
      requires i < |stages| && AreHashes(calls.answers)
      modifies this, service
      ensures Abs() == Act(old(Abs()), i, message, second, calls)
    {
      hide Act;
      match stages[i]
      case Idle => Deduplicate(i, message, second, calls);
      case Cooling(m) => CoolDown(i, m, message, second, calls);
      case Locking(m) => Lock(i, m, message, second, calls);
      case Holding(m, value, until) => Serve(i, m, value, until, message, second, calls);
      case Releasing(m, value, until) => Release(i, m, value, message, second, calls);
    }

    /** Step 1. */
    method Deduplicate(i: nat, message: Message, second: nat, calls: Calls)
      requires i < |stages| && stages[i].Idle? && AreHashes(calls.answers)
      modifies this, service
      ensures Abs() == Act(old(Abs()), i, message, second, calls)
    {
      hide Attempt, DedupKey, MsgId, Connects;
      ghost var fate, now, before := FateOf(service.connected, calls.net), service.now, service.store;
      var isNew := service.CheckAndMarkMessageProcessed(MsgId(message.room, second, i), message.room, DEDUP_TTL, calls.net, i);
      ghost var key := MarkKey(message.room, second, i);
      ghost var marked := Attempt(before, now, fate, key, MARK, DEDUP_TTL, i).1;
      visits := visits + [Visit(key, DEDUP_TTL, now, marked, Heard(fate), isNew, message, second, i)];
      if isNew {
        stages := stages[i := Cooling(message)];
      }
    }

    /** Step 2. */
    method CoolDown(i: nat, m: Message, ghost message: Message, second: nat, calls: Calls)
      requires i < |stages| && stages[i] == Cooling(m) && AreHashes(calls.answers)
      modifies this, service
      ensures Abs() == Act(old(Abs()), i, message, second, calls)
    {
      hide Attempt, CooldownKey, Connects;
      ghost var fate, now, before := FateOf(service.connected, calls.net), service.now, service.store;
      var inCooldown := service.IsRoomInCooldown(m.room, COOLDOWN, calls.net, i);
      ghost var key := CooldownKey(m.room);
      ghost var marked := Attempt(before, now, fate, key, MARK, COOLDOWN, i).1;
      visits := visits + [Visit(key, COOLDOWN, now, marked, Heard(fate), !inCooldown, m, second, i)];
      stages := stages[i := if inCooldown then Idle else Locking(m)];
    }

    /** Step 3. */
    method Lock(i: nat, m: Message, ghost message: Message, second: nat, calls: Calls)
      requires i < |stages| && stages[i] == Locking(m) && AreHashes(calls.answers)
      modifies this, service
      ensures Abs() == Act(old(Abs()), i, message, second, calls)
    {
      LockValueWhole(i, second);
      hide Attempt, LockKey, LockValue, Connects, UpToNul;
      var value := LockValue(i, second);
      var acquired := service.AcquireLock(LockKey(m.room), value, LOCK_TTL, calls.net, i);
      stages := stages[i := if acquired then Holding(m, value, service.now + LOCK_TTL * SECOND) else Idle];
    }

    /** Step 4: look up, group, and broadcast. */
    method Serve(i: nat, m: Message, value: bytes, until: nat, ghost message: Message, second: nat, calls: Calls)
      requires i < |stages| && stages[i] == Holding(m, value, until) && AreHashes(calls.answers)
      modifies this, service
      ensures Abs() == Act(old(Abs()), i, message, second, calls)
    {
      hide Infos, RoomConnections, CountAt, At, Connects;
      var ok, connIds := service.GetRoomConnections(calls.net, calls.members);
      if ok && connIds != [] {
        var grouped, groups, infos := service.GroupConnectionsByComet(connIds, calls.answers, calls.next, calls.last);
        if grouped {
          var totalSent, failedCount := Broadcast(infos, groups, calls.up);
          reports := reports + [Report(m, i, service.now, totalSent, failedCount, |visits|)];
        }
      }
      stages := stages[i := Releasing(m, value, until)];
    }

    /** Step 5. */
    method Release(i: nat, m: Message, value: bytes, ghost message: Message, second: nat, calls: Calls)
      requires i < |stages| && stages[i].Releasing? && stages[i].message == m && stages[i].value == value
      requires AreHashes(calls.answers)
      modifies this, service
      ensures Abs() == Act(old(Abs()), i, message, second, calls)
    {
      hide CompareAndDelete, LockKey, Connects;
      var released := service.ReleaseLock(LockKey(m.room), value, calls.net, calls.next);
      stages := stages[i := Idle];
    }
  }

  /** The program under any schedule does what the state machine does, so every law holds of it. */
  method RunJob(n: nat, actions: seq<Action>) returns (job: Job)
    ensures job.Abs() == Run(Start(n), actions)
  {
    job := new Job(n);
    for k := 0 to |actions|
      invariant job.Abs() == Run(Start(n), actions[..k]) && fresh(job) && fresh(job.service)
    {
      hide Act, AreHashes;
      assert actions[..k + 1][..k] == actions[..k];
      match actions[k]
      case Tick(delta) =>
        job.service.now := job.service.now + delta;
      case Turn(i, message, second, calls) =>
        if i < |job.stages| && AreHashes(calls.answers) {
          job.TakeTurn(i, message, second, calls);
        }
    }
    assert actions[..|actions|] == actions;
  }
}
