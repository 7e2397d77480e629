/**
 * What the Job process does with the connections of a room: read their Comet addresses from the
 * replies of Redis, group them by address, and send one request to each address.
 */
module JobRouting {
  import opened Bytes
  import opened RespSpec

  const COMET_ID: bytes := Ascii("comet_id")
  const USER_ID: bytes := Ascii("user_id")
  const ROOM_ID: bytes := Ascii("room_id")

  // ---------------------------------------------------------------- replies

  /** The strings among the elements of a reply to SMEMBERS, each up to its first NUL byte. */
  function Members(items: seq<Reply>): seq<bytes> {
    if items == [] then []
    else
      var k := |items| - 1;
      if items[k].Str? then Members(items[..k]) + [UpToNul(items[k].text)] else Members(items[..k])
  }

  /** The loop of GetRoomConnections over the elements of a reply. */
  method ReadMembers(items: seq<Reply>) returns (connIds: seq<bytes>)
    ensures connIds == Members(items)
  {
    connIds := [];
    for i := 0 to |items|
      invariant connIds == Members(items[..i])
    {
      assert items[..i + 1][..i] == items[..i];
      if items[i].Str? {
        connIds := connIds + [UpToNul(items[i].text)];
      }
    }
    assert items[..|items|] == items;
  }

  datatype ConnectionInfo = ConnectionInfo(connId: bytes, cometAddr: bytes, userId: bytes, roomId: bytes)

  /** Redis answers HGETALL with strings. */
  predicate IsHash(items: seq<Reply>) {
    forall i :: 0 <= i < |items| ==> items[i].Str?
  }

  /** The value that the last of the first n pairs of field and value with some name gives to it. */
  function ValueIn(items: seq<Reply>, n: nat, name: bytes): bytes
    requires IsHash(items) && 2 * n <= |items|
  {
    if n == 0 then []
    else if UpToNul(items[2 * n - 2].text) == name then UpToNul(items[2 * n - 1].text)
    else ValueIn(items, n - 1, name)
  }

  /** The value of a field; an element without another one behind it is not looked at. */
  function Field(items: seq<Reply>, name: bytes): bytes
    requires IsHash(items)
  {
    ValueIn(items, |items| / 2, name)
  }

  function InfoOf(connId: bytes, items: seq<Reply>): ConnectionInfo
    requires IsHash(items)
  {
    ConnectionInfo(connId, Field(items, COMET_ID), Field(items, USER_ID), Field(items, ROOM_ID))
  }

  /** The loop over the fields of one connection. */
  method ReadInfo(connId: bytes, items: seq<Reply>) returns (info: ConnectionInfo)
    requires IsHash(items)
    ensures info == InfoOf(connId, items)
  {
    info := ConnectionInfo(connId, [], [], []);
    FieldNames();
    hide *;
    NoPairs(items);
    var n := 0;
    while 2 * n + 1 < |items|
      invariant 2 * n <= |items| && IsHash(items) && info.connId == connId
      invariant info.cometAddr == ValueIn(items, n, COMET_ID) && info.userId == ValueIn(items, n, USER_ID)
      invariant info.roomId == ValueIn(items, n, ROOM_ID)
    {
      OnePair(items, n, COMET_ID);
      OnePair(items, n, USER_ID);
      OnePair(items, n, ROOM_ID);
      var field, value := UpToNul(items[2 * n].text), UpToNul(items[2 * n + 1].text);
      if field == COMET_ID {
        info := info.(cometAddr := value);
      } else if field == USER_ID {
        info := info.(userId := value);
      } else if field == ROOM_ID {
        info := info.(roomId := value);
      }
      n := n + 1;
    }
    AllPairs(connId, items, n);
  }

  lemma NoPairs(items: seq<Reply>)
    requires IsHash(items)
    ensures IsHash(items) && forall name :: ValueIn(items, 0, name) == []
  {
  }

  lemma OnePair(items: seq<Reply>, n: nat, name: bytes)
    requires IsHash(items) && 2 * n + 1 < |items|
    ensures items[2 * n].Str? && items[2 * n + 1].Str?
    ensures ValueIn(items, n + 1, name) ==
            if UpToNul(items[2 * n].text) == name then UpToNul(items[2 * n + 1].text) else ValueIn(items, n, name)
  {
    hide UpToNul;
    var m := n + 1;
    assert 2 * m - 2 == 2 * n && 2 * m - 1 == 2 * n + 1;
    assert ValueIn(items, m, name) ==
           if UpToNul(items[2 * m - 2].text) == name then UpToNul(items[2 * m - 1].text) else ValueIn(items, m - 1, name);
  }

  lemma AllPairs(connId: bytes, items: seq<Reply>, n: nat)
    requires IsHash(items) && 2 * n <= |items| <= 2 * n + 1
    ensures InfoOf(connId, items) ==
            ConnectionInfo(connId, ValueIn(items, n, COMET_ID), ValueIn(items, n, USER_ID), ValueIn(items, n, ROOM_ID))
  {
    assert |items| / 2 == n;
  }

  lemma FieldNames()
    ensures COMET_ID != USER_ID && USER_ID != ROOM_ID && COMET_ID != ROOM_ID
  {
    assert COMET_ID[0] == 'c' as int && USER_ID[0] == 'u' as int && ROOM_ID[0] == 'r' as int;
  }

  /** The replies to HGETALL by connection; a connection without one got no answer. */
  type Answers = map<bytes, Reply>

  predicate AreHashes(answers: Answers) {
    forall connId :: connId in answers && answers[connId].Arr? ==> IsHash(answers[connId].items)
  }

  /** The connections whose lookup was answered with an address, in order. */
  function Infos(connIds: seq<bytes>, answers: Answers): seq<ConnectionInfo>
    requires AreHashes(answers)
  {
    if connIds == [] then []
    else
      var k := |connIds| - 1;
      var connId, front := connIds[k], Infos(connIds[..k], answers);
      if connId in answers && answers[connId].Arr? && Field(answers[connId].items, COMET_ID) != []
      then front + [InfoOf(connId, answers[connId].items)] else front
  }

  /** Exactly the answered connections with an address are kept, each with its own address. */
  lemma {:induction false} InfosExactly(connIds: seq<bytes>, answers: Answers, info: ConnectionInfo)
    requires AreHashes(answers)
    ensures info in Infos(connIds, answers) <==>
            && info.connId in connIds && info.connId in answers && answers[info.connId].Arr?
            && info == InfoOf(info.connId, answers[info.connId].items) && info.cometAddr != []
  {
    if connIds != [] {
      var k := |connIds| - 1;
      InfosExactly(connIds[..k], answers, info);
      assert connIds == connIds[..k] + [connIds[k]];
      hide ValueIn;
    }
  }

  /** The loop of GetConnectionInfoBatch. */
  method ReadInfos(connIds: seq<bytes>, answers: Answers) returns (infos: seq<ConnectionInfo>)
    requires AreHashes(answers)
    ensures infos == Infos(connIds, answers)
  {
    infos := [];
    for k := 0 to |connIds|
      invariant infos == Infos(connIds[..k], answers)
    {
      hide ValueIn;
      var connId := connIds[k];
      assert connIds[..k + 1][..k] == connIds[..k];
      if connId in answers && answers[connId].Arr? && answers[connId].items != [] {
        var info := ReadInfo(connId, answers[connId].items);
        if info.cometAddr != [] {
          infos := infos + [info];
        }
      } else if connId in answers && answers[connId].Arr? {
        assert Field([], COMET_ID) == [] by { NoField(COMET_ID); }
      }
    }
    assert connIds[..|connIds|] == connIds;
  }

  lemma NoField(name: bytes)
    ensures Field([], name) == []
  {
  }

  // ---------------------------------------------------------------- grouping and counting

  type Groups = map<bytes, seq<bytes>>

  /** The connections at one address, in order. */
  function At(infos: seq<ConnectionInfo>, addr: bytes): seq<bytes> {
    if infos == [] then []
    else
      var k := |infos| - 1;
      if infos[k].cometAddr == addr then At(infos[..k], addr) + [infos[k].connId] else At(infos[..k], addr)
  }

  /** The number of connections at some addresses. */
  function CountAt(infos: seq<ConnectionInfo>, addrs: set<bytes>): (n: nat)
    ensures n <= |infos|
  {
    if infos == [] then 0
    else
      var k := |infos| - 1;
      CountAt(infos[..k], addrs) + if infos[k].cometAddr in addrs then 1 else 0
  }

  ghost predicate Grouped(infos: seq<ConnectionInfo>, groups: Groups) {
    && (forall addr :: addr in groups ==> groups[addr] == At(infos, addr) != [])
    && (forall i :: 0 <= i < |infos| ==> infos[i].cometAddr in groups)
  }

  /** The grouping loop: every connection ends up in the group of its address and in no other. */
  method GroupConnections(infos: seq<ConnectionInfo>) returns (groups: Groups)
    ensures Grouped(infos, groups)
  {
    groups := map[];
    for k := 0 to |infos|
      invariant Grouped(infos[..k], groups)
      invariant forall addr :: addr !in groups ==> At(infos[..k], addr) == []
    {
      assert infos[..k + 1][..k] == infos[..k];
      var addr := infos[k].cometAddr;
      groups := groups[addr := (if addr in groups then groups[addr] else []) + [infos[k].connId]];
    }
    assert infos[..|infos|] == infos;
  }

  lemma {:induction false} CountMore(infos: seq<ConnectionInfo>, addrs: set<bytes>, addr: bytes)
    requires addr !in addrs
    ensures CountAt(infos, addrs + {addr}) == CountAt(infos, addrs) + |At(infos, addr)|
  {
    if infos != [] {
      CountMore(infos[..|infos| - 1], addrs, addr);
    }
  }

  lemma CountGroup(infos: seq<ConnectionInfo>, done: set<bytes>, up: set<bytes>, addr: bytes)
    requires addr !in done
    ensures CountAt(infos, done + {addr}) == CountAt(infos, done) + |At(infos, addr)|
    ensures CountAt(infos, (done + {addr}) * up) ==
            CountAt(infos, done * up) + if addr in up then |At(infos, addr)| else 0
  {
    CountMore(infos, done, addr);
    if addr in up {
      CountMore(infos, done * up, addr);
      assert (done + {addr}) * up == done * up + {addr};
    } else {
      assert (done + {addr}) * up == done * up;
    }
  }

  lemma {:induction false} CountAll(infos: seq<ConnectionInfo>, addrs: set<bytes>)
    ensures (forall i :: 0 <= i < |infos| ==> infos[i].cometAddr in addrs) ==> CountAt(infos, addrs) == |infos|
  {
    if infos != [] {
      CountAll(infos[..|infos| - 1], addrs);
    }
  }

  lemma {:induction false} CountOnly(infos: seq<ConnectionInfo>, addrs: set<bytes>, up: set<bytes>)
    requires forall i :: 0 <= i < |infos| ==> infos[i].cometAddr in addrs
    ensures CountAt(infos, addrs * up) == CountAt(infos, up)
  {
    if infos != [] {
      CountOnly(infos[..|infos| - 1], addrs, up);
    }
  }

  /**
   * The broadcast loop: one request per address; up are the addresses that accept it. Every grouped
   * connection is counted once, as sent or as failed.
   */
  method Broadcast(ghost infos: seq<ConnectionInfo>, groups: Groups, up: set<bytes>)
    returns (totalSent: nat, failedCount: nat)
    requires Grouped(infos, groups)
    ensures totalSent == CountAt(infos, up) && totalSent + failedCount == |infos|
  {
    hide *;
    totalSent, failedCount := 0, 0;
    var rest := groups.Keys;
    ghost var done := {};
    NoneAt(infos);
    assert done * up == {};
    while rest != {}
      invariant done !! rest && done + rest == groups.Keys
      invariant totalSent == CountAt(infos, done * up) && totalSent + failedCount == CountAt(infos, done)
      decreases |rest|
    {
      var addr :| addr in rest;
      CountGroup(infos, done, up, addr);
      GroupIs(infos, groups, addr);
      if addr in up {
        totalSent := totalSent + |groups[addr]|;
      } else {
        failedCount := failedCount + |groups[addr]|;
      }
      done, rest := done + {addr}, rest - {addr};
    }
    assert done == groups.Keys;
    AllGrouped(infos, groups);
    CountAll(infos, done);
    CountOnly(infos, done, up);
  }

  lemma GroupIs(infos: seq<ConnectionInfo>, groups: Groups, addr: bytes)
    requires Grouped(infos, groups) && addr in groups
    ensures groups[addr] == At(infos, addr)
  {
    hide At;
  }

  lemma AllGrouped(infos: seq<ConnectionInfo>, groups: Groups)
    requires Grouped(infos, groups)
    ensures forall i :: 0 <= i < |infos| ==> infos[i].cometAddr in groups.Keys
  {
    hide At;
  }

  lemma {:induction false} NoneAt(infos: seq<ConnectionInfo>)
    ensures CountAt(infos, {}) == 0
  {
    if infos != [] {
      NoneAt(infos[..|infos| - 1]);
    }
  }

  // ---------------------------------------------------------------- what the replies say

  lemma {:induction false} MembersConcat(a: seq<Reply>, b: seq<Reply>)
    ensures Members(a + b) == Members(a) + Members(b)
  {
    if b == [] {
      assert a + b == a;
    } else {
      var k := |b| - 1;
      MembersConcat(a, b[..k]);
      assert (a + b)[..|a| + k] == a + b[..k];
    }
  }

  /** Strings are kept in order, each up to its first NUL byte; anything else is skipped where it stands. */
  lemma {:induction false} MembersExactly(items: seq<Reply>, before: seq<Reply>, x: Reply, after: seq<Reply>)
    ensures (forall i :: 0 <= i < |items| ==> items[i].Str?) ==>
              && |Members(items)| == |items|
              && forall i :: 0 <= i < |items| ==> Members(items)[i] == UpToNul(items[i].text)
    ensures Members(before + [x] + after) ==
            Members(before) + (if x.Str? then [UpToNul(x.text)] else []) + Members(after)
  {
    if items != [] {
      MembersExactly(items[..|items| - 1], before, x, after);
    }
    MembersConcat(before + [x], after);
    MembersConcat(before, [x]);
    assert [x][..0] == [] && Members([]) == [];
  }

  /** Pair p is the last one with a name. */
  predicate IsLastPair(items: seq<Reply>, name: bytes, p: nat)
    requires IsHash(items)
  {
    && 2 * p + 1 < |items| && UpToNul(items[2 * p].text) == name
    && forall q :: p < q < |items| / 2 ==> UpToNul(items[2 * q].text) != name
  }

  /** A field has the value of the last pair with its name, and is empty if there is none. */
  lemma FieldExactly(items: seq<Reply>, name: bytes)
    requires IsHash(items)
    ensures forall p: nat :: IsLastPair(items, name, p) ==> Field(items, name) == UpToNul(items[2 * p + 1].text)
    ensures (forall p :: 0 <= p < |items| / 2 ==> UpToNul(items[2 * p].text) != name) ==> Field(items, name) == []
  {
    hide UpToNul;
    forall p: nat | IsLastPair(items, name, p) ensures Field(items, name) == UpToNul(items[2 * p + 1].text) {
      assert p < |items| / 2;
      ValueOfLast(items, |items| / 2, name, p);
    }
    if forall p :: 0 <= p < |items| / 2 ==> UpToNul(items[2 * p].text) != name {
      ValueOfNone(items, |items| / 2, name);
    }
  }

  lemma {:induction false} ValueOfLast(items: seq<Reply>, n: nat, name: bytes, p: nat)
    requires IsHash(items) && p < n && 2 * n <= |items| && UpToNul(items[2 * p].text) == name
    requires forall q :: p < q < n ==> UpToNul(items[2 * q].text) != name
    ensures ValueIn(items, n, name) == UpToNul(items[2 * p + 1].text)
  {
    OnePair(items, n - 1, name);
    hide ValueIn, UpToNul;
    if n > p + 1 {
      assert UpToNul(items[2 * (n - 1)].text) != name;
      ValueOfLast(items, n - 1, name, p);
    }
  }

  lemma {:induction false} ValueOfNone(items: seq<Reply>, n: nat, name: bytes)
    requires IsHash(items) && 2 * n <= |items|
    requires forall q :: 0 <= q < n ==> UpToNul(items[2 * q].text) != name
    ensures ValueIn(items, n, name) == []
  {
    if n > 0 {
      OnePair(items, n - 1, name);
      hide UpToNul;
      assert UpToNul(items[2 * (n - 1)].text) != name;
      ValueOfNone(items, n - 1, name);
    }
  }

  /** The names under which a connection's hash is read, byte for byte. */
  lemma InfoExactly(connId: bytes, items: seq<Reply>)
    requires IsHash(items)
    ensures var info := InfoOf(connId, items);
            && info.connId == connId
            && info.cometAddr == Field(items, [99, 111, 109, 101, 116, 95, 105, 100])
            && info.userId == Field(items, [117, 115, 101, 114, 95, 105, 100])
            && info.roomId == Field(items, [114, 111, 111, 109, 95, 105, 100])
  {
    hide Field;
    assert COMET_ID == [99, 111, 109, 101, 116, 95, 105, 100];
    assert USER_ID == [117, 115, 101, 114, 95, 105, 100];
    assert ROOM_ID == [114, 111, 111, 109, 95, 105, 100];
  }

  /** The address a member's hash names: none if it is no string, is not answered, or is answered without one. */
  function CometOf(item: Reply, answers: Answers): bytes
    requires AreHashes(answers)
  {
    if !item.Str? then []
    else
      var connId := UpToNul(item.text);
      if connId in answers && answers[connId].Arr?
      then Field(answers[connId].items, [99, 111, 109, 101, 116, 95, 105, 100]) else []
  }

  /** The places of the members that can be sent to. */
  function Reachable(items: seq<Reply>, answers: Answers): set<nat>
    requires AreHashes(answers)
  {
    set k: nat | k < |items| && CometOf(items[k], answers) != []
  }

  /** The places of those whose Comet is among the given addresses. */
  function ReachableAt(items: seq<Reply>, answers: Answers, addrs: set<bytes>): set<nat>
    requires AreHashes(answers)
  {
    set k: nat | k < |items| && CometOf(items[k], answers) != [] && CometOf(items[k], answers) in addrs
  }

  /** One connection more. */
  lemma OneMore(front: seq<bytes>, connId: bytes, answers: Answers, addrs: set<bytes>)
    requires AreHashes(answers)
    ensures var infos, addr := Infos(front, answers), CometOf(Str(connId), answers);
            var longer := Infos(front + [connId], answers);
            0 !in connId ==>
              && |longer| == |infos| + (if addr != [] then 1 else 0)
              && CountAt(longer, addrs) == CountAt(infos, addrs) + if addr != [] && addr in addrs then 1 else 0
  {
    if 0 !in connId {
      UpToNulWhole(connId);
      assert (front + [connId])[..|front|] == front;
      assert COMET_ID == [99, 111, 109, 101, 116, 95, 105, 100];
      hide UpToNul, Field;
      var infos := Infos(front, answers);
      if connId in answers && answers[connId].Arr? {
        var info := InfoOf(connId, answers[connId].items);
        assert (infos + [info])[..|infos|] == infos;
      }
    }
  }

  lemma OnePlace(places: set<nat>, fewer: set<nat>, k: nat, more: bool)
    requires k !in fewer && forall i :: i in places <==> i in fewer || (more && i == k)
    ensures |places| == |fewer| + if more then 1 else 0
  {
    assert places == fewer + if more then {k} else {};
  }

  /** One place more. */
  lemma PlacesMore(items: seq<Reply>, answers: Answers, addrs: set<bytes>)
    requires AreHashes(answers) && items != []
    ensures var k := |items| - 1;
            var front, addr := items[..k], CometOf(items[k], answers);
            && |Reachable(items, answers)| == |Reachable(front, answers)| + (if addr != [] then 1 else 0)
            && |ReachableAt(items, answers, addrs)| ==
               |ReachableAt(front, answers, addrs)| + if addr != [] && addr in addrs then 1 else 0
  {
    hide CometOf, AreHashes;
    var k := |items| - 1;
    var front, addr := items[..k], CometOf(items[k], answers);
    OnePlace(Reachable(items, answers), Reachable(front, answers), k, addr != []);
    OnePlace(ReachableAt(items, answers, addrs), ReachableAt(front, answers, addrs), k, addr != [] && addr in addrs);
  }

  lemma MembersMore(items: seq<Reply>, answers: Answers)
    requires AreHashes(answers) && items != []
    ensures var k := |items| - 1;
            var front, x := Members(items[..k]), items[k];
            && Members(items) == (if x.Str? then front + [UpToNul(x.text)] else front)
            && (if x.Str? then CometOf(Str(UpToNul(x.text)), answers) == CometOf(x, answers) else CometOf(x, answers) == [])
  {
    if items[|items| - 1].Str? {
      UpToNulWhole(UpToNul(items[|items| - 1].text));
    }
  }

  /** As many connections are found as members name a Comet, and each counts at its own address. */
  lemma {:induction false} FoundExactly(items: seq<Reply>, answers: Answers, addrs: set<bytes>)
    requires AreHashes(answers)
    ensures |Infos(Members(items), answers)| == |Reachable(items, answers)|
    ensures CountAt(Infos(Members(items), answers), addrs) == |ReachableAt(items, answers, addrs)|
  {
    if items == [] {
      assert Reachable(items, answers) == {} && ReachableAt(items, answers, addrs) == {};
    } else {
      var k := |items| - 1;
      FoundExactly(items[..k], answers, addrs);
      PlacesMore(items, answers, addrs);
      MembersMore(items, answers);
      hide *;
      if items[k].Str? {
        OneMore(Members(items[..k]), UpToNul(items[k].text), answers, addrs);
      }
    }
  }

  /** A group keeps the connections of its address in order, and no others. */
  lemma {:induction false} AtExactly(before: seq<ConnectionInfo>, info: ConnectionInfo, after: seq<ConnectionInfo>, addr: bytes)
    ensures At(before + [info] + after, addr) ==
            At(before, addr) + (if info.cometAddr == addr then [info.connId] else []) + At(after, addr)
  {
    if after == [] {
      assert before + [info] + after == before + [info] && (before + [info])[..|before|] == before;
    } else {
      var k, all := |after| - 1, before + [info] + after;
      AtExactly(before, info, after[..k], addr);
      assert all[..|all| - 1] == before + [info] + after[..k] && all[|all| - 1] == after[k];
    }
  }
}
