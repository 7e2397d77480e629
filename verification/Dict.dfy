/**
 * The chained hash table of dict.c: buckets of linked entries that are relinked in place when the
 * table grows. Through every operation it stands for a finite map.
 */
module Dict {
  import opened Bytes

  /** Keys are sds strings, compared byte by byte; values are pointers the table never looks into. */
  type Key = bytes
  type Value = int

  const INITIAL_SIZE: nat := 4
  const LONG_MAX: nat := 0x7fff_ffff_ffff_ffff
  const ULONG_MAX: nat := 0xffff_ffff_ffff_ffff
  /** Bucket indices are C ints, so this is the largest table that works. */
  const MAX_SIZE: nat := 0x4000_0000

  // ---------------------------------------------------------------- sizes and masks

  ghost predicate IsPow2(n: nat) {
    exists k :: n == Pow2(k)
  }

  function BitAnd(a: nat, b: nat): nat {
    if b == 0 then 0 else 2 * BitAnd(a / 2, b / 2) + (if a % 2 == 1 && b % 2 == 1 then 1 else 0)
  }

  lemma {:induction false} BitAndBound(a: nat, b: nat)
    ensures BitAnd(a, b) <= b
  {
    if b > 0 {
      BitAndBound(a / 2, b / 2);
    }
  }

  /** The bucket of a hash in a table of the given size: hash & sizemask. */
  function Bucket(hash: nat, size: nat): (i: nat)
    requires size > 0
    ensures i < size
  {
    BitAndBound(hash, size - 1);
    BitAnd(hash, size - 1)
  }

  /** In a table whose size is a power of two, the mask takes the remainder of the hash. */
  lemma BucketExactly(hash: nat, k: nat)
    ensures Pow2(k) > 0 && Bucket(hash, Pow2(k)) == hash % Pow2(k)
  {
    MaskIsMod(hash, k);
  }

  lemma {:induction false} MaskIsMod(a: nat, k: nat)
    ensures BitAnd(a, Pow2(k) - 1) == a % Pow2(k)
  {
    if k > 0 {
      var half := Pow2(k - 1);
      MaskIsMod(a / 2, k - 1);
      assert (Pow2(k) - 1) / 2 == half - 1 && (Pow2(k) - 1) % 2 == 1;
      DoubledMod(a, half);
    }
  }

  lemma DoubledMod(a: nat, half: nat)
    requires half > 0
    ensures a % (2 * half) == 2 * (a / 2 % half) + a % 2
  {
    var q, r := a / 2 / half, a / 2 % half;
    assert a == (2 * half) * q + (2 * r + a % 2);
    RemainderIs(a, 2 * half, q, 2 * r + a % 2);
  }

  lemma RemainderIs(a: nat, n: nat, q: nat, r: nat)
    requires n > 0 && r < n && a == n * q + r
    ensures a % n == r
  {
    var q' := a / n;
    if q' > q {
      OneMoreTime(n, q, q');
    } else if q' < q {
      OneMoreTime(n, q', q);
    }
  }

  lemma OneMoreTime(n: nat, q: nat, q': nat)
    requires q < q'
    ensures n * q + n <= n * q'
  {
    var d: nat := q' - q - 1;
    assert n * (q + 1 + d) == n * q + n + n * d;
  }

  /** _dictNextPower: below LONG_MAX the least power of two that is at least size and at least 4. */
  method NextPower(size: nat) returns (i: nat)
    requires size <= ULONG_MAX
    ensures i <= ULONG_MAX
    ensures if size >= LONG_MAX then i == LONG_MAX
            else IsPow2(i) && i >= INITIAL_SIZE && i >= size
                 && forall k :: Pow2(k) >= INITIAL_SIZE && Pow2(k) >= size ==> i <= Pow2(k)
  {
    i := INITIAL_SIZE;
    if size >= LONG_MAX {
      return LONG_MAX;
    }
    ghost var e := 2;
    assert Pow2(2) == 4;
    while i < size
      invariant i == Pow2(e) && i >= INITIAL_SIZE && i <= ULONG_MAX
      invariant forall k :: Pow2(k) >= INITIAL_SIZE && Pow2(k) >= size ==> i <= Pow2(k)
      decreases size - i
    {
      forall k | Pow2(k) >= INITIAL_SIZE && Pow2(k) >= size ensures 2 * i <= Pow2(k) {
        Pow2Gap(e, k);
      }
      i := i * 2;
      e := e + 1;
    }
  }

  lemma MaxIsPow2()
    ensures Pow2(30) == MAX_SIZE
  {
    assert Pow2(10) == 1024 && Pow2(20) == 1024 * 1024;
  }

  lemma {:induction false} Pow2Gap(j: nat, k: nat)
    requires Pow2(j) < Pow2(k)
    ensures 2 * Pow2(j) <= Pow2(k)
  {
    if j > 0 && k > 0 {
      Pow2Gap(j - 1, k - 1);
    }
  }

  // ---------------------------------------------------------------- chains

  class Entry {
    const key: Key
    var val: Value
    var next: Entry?

    constructor (key: Key, val: Value, next: Entry?)
      ensures this.key == key && this.val == val && this.next == next
    {
      this.key, this.val, this.next := key, val, next;
    }
  }

  function HeadOf(es: seq<Entry>): Entry? {
    if es == [] then null else es[0]
  }

  type Chains = seq<seq<Entry>>

  function NextOf(es: seq<Entry>, j: nat): Entry?
    requires j < |es|
  {
    if j + 1 < |es| then es[j + 1] else null
  }

  /** From position j on, every entry links to the one after it. */
  ghost predicate Linked(es: seq<Entry>, from: nat, nodes: set<object>)
    reads nodes
  {
    forall j :: from <= j < |es| ==> es[j] in nodes && es[j].next == NextOf(es, j)
  }

  ghost predicate AllLinked(chains: Chains, from: nat, nodes: set<object>)
    reads nodes
  {
    forall i :: from <= i < |chains| ==> Linked(chains[i], 0, nodes)
  }

  ghost predicate Heads(table: array<Entry?>, chains: Chains)
    reads table
  {
    |chains| == table.Length && forall i :: 0 <= i < |chains| ==> table[i] == HeadOf(chains[i])
  }

  /** Every entry sits in the bucket of its key, and no key occurs twice. Keys never change: no heap is read. */
  ghost predicate Placed(hash: Key -> nat, chains: Chains) {
    && (forall i, j :: 0 <= i < |chains| && 0 <= j < |chains[i]| ==> Bucket(hash(chains[i][j].key), |chains|) == i)
    && (forall i, j, k :: 0 <= i < |chains| && 0 <= j < k < |chains[i]| ==> chains[i][j].key != chains[i][k].key)
  }

  ghost predicate Has(es: seq<Entry>, key: Key) {
    exists j :: 0 <= j < |es| && es[j].key == key
  }

  /** Every key of the map is in its chain. */
  ghost predicate Covers(hash: Key -> nat, chains: Chains, m: map<Key, Value>) {
    forall k :: k in m ==> |chains| > 0 && Has(chains[Bucket(hash(k), |chains|)], k)
  }

  /** Every entry is a pair of the map. */
  ghost predicate Values(chains: Chains, m: map<Key, Value>, nodes: set<object>)
    reads nodes
  {
    forall a, b :: 0 <= a < |chains| && 0 <= b < |chains[a]| ==>
      chains[a][b] in nodes && chains[a][b].key in m && m[chains[a][b].key] == chains[a][b].val
  }

  /** The entries hold exactly the pairs of the map. */
  ghost predicate Holds(hash: Key -> nat, chains: Chains, m: map<Key, Value>, nodes: set<object>)
    reads nodes
  {
    Values(chains, m, nodes) && Covers(hash, chains, m)
  }

  function Flatten(chains: Chains): seq<Entry> {
    if chains == [] then [] else Flatten(chains[..|chains| - 1]) + chains[|chains| - 1]
  }

  lemma {:induction false} FlattenAt(chains: Chains, i: nat, j: nat)
    requires i < |chains| && j < |chains[i]|
    ensures var p := |Flatten(chains[..i])| + j;
            p < |Flatten(chains)| && Flatten(chains)[p] == chains[i][j]
    decreases |chains|
  {
    var k := |chains| - 1;
    if i < k {
      FlattenAt(chains[..k], i, j);
      assert chains[..k][..i] == chains[..i];
    }
  }

  lemma FlattenStep(chains: Chains, i: nat)
    requires i < |chains|
    ensures Flatten(chains[..i + 1]) == Flatten(chains[..i]) + chains[i]
  {
    assert chains[..i + 1][..i] == chains[..i];
  }

  /** Changing one chain changes the number of entries by the difference. */
  lemma {:induction false} FlattenUpdate(chains: Chains, h: nat, es: seq<Entry>)
    requires h < |chains|
    ensures |Flatten(chains[h := es])| == |Flatten(chains)| - |chains[h]| + |es|
    decreases |chains|
  {
    var k := |chains| - 1;
    if h < k {
      assert chains[h := es][..k] == chains[..k][h := es];
      FlattenUpdate(chains[..k], h, es);
    } else {
      assert chains[h := es][..k] == chains[..k];
    }
  }

  lemma {:induction false} FlattenEmpty(n: nat)
    ensures Flatten(seq(n, _ => [])) == []
  {
    if n > 0 {
      assert seq<seq<Entry>>(n, _ => [])[..n - 1] == seq(n - 1, _ => []);
      FlattenEmpty(n - 1);
    }
  }

  lemma PlacedPush(hash: Key -> nat, chains: Chains, h: nat, e: Entry)
    requires Placed(hash, chains) && h < |chains| && h == Bucket(hash(e.key), |chains|)
    requires !Has(chains[h], e.key)
    ensures Placed(hash, chains[h := [e] + chains[h]])
  {
  }

  lemma LinkedPush(chains: Chains, h: nat, e: Entry, nodes: set<object>)
    requires h < |chains| && AllLinked(chains, 0, nodes) && e in nodes && e.next == HeadOf(chains[h])
    ensures AllLinked(chains[h := [e] + chains[h]], 0, nodes)
  {
    var es := [e] + chains[h];
    assert Linked(chains[h], 0, nodes);
    forall j | 0 <= j < |es| ensures es[j] in nodes && es[j].next == NextOf(es, j) {
      assert j > 0 ==> es[j] == chains[h][j - 1];
    }
    var chains': Chains := chains[h := es];
    forall i | 0 <= i < |chains'| ensures Linked(chains'[i], 0, nodes) {
      assert i != h ==> Linked(chains[i], 0, nodes);
    }
  }

  lemma HoldsPush(hash: Key -> nat, chains: Chains, h: nat, e: Entry, m: map<Key, Value>, nodes: set<object>)
    requires Holds(hash, chains, m, nodes) && h < |chains| && h == Bucket(hash(e.key), |chains|)
    requires e in nodes && e.key !in m
    ensures Holds(hash, chains[h := [e] + chains[h]], m[e.key := e.val], nodes)
  {
    var es := [e] + chains[h];
    assert Has(es, e.key) by {
      assert es[0].key == e.key;
    }
    forall k | k in m ensures Has(chains[h := es][Bucket(hash(k), |chains|)], k) {
      var b := Bucket(hash(k), |chains|);
      var j :| 0 <= j < |chains[b]| && chains[b][j].key == k;
      if b == h {
        assert es[j + 1].key == k;
      }
    }
  }

  /** Entries that lie beyond position j of chain i when the old table is walked. */
  ghost predicate Beyond(chains: Chains, i: nat, j: nat, key: Key) {
    && (forall b :: i < |chains| && j <= b < |chains[i]| ==> chains[i][b].key != key)
    && (forall a, b :: i < a < |chains| && 0 <= b < |chains[a]| ==> chains[a][b].key != key)
  }

  /** The walk of the old chains stands at entry j of chain i; from there on they are still linked. */
  ghost predicate Walk(chains: Chains, i: nat, j: nat, nodes: set<object>)
    reads nodes
  {
    && i <= |chains|
    && (if i < |chains| then j <= |chains[i]| && Linked(chains[i], j, nodes) else j == 0)
    && AllLinked(chains, i + 1, nodes)
  }

  /** The new chains nc hold exactly the keys passed so far, each in its new bucket. */
  ghost predicate Passed(hash: Key -> nat, chains: Chains, i: nat, j: nat, nc: Chains, m: map<Key, Value>) {
    && |nc| > 0 && Placed(hash, nc)
    && (forall a, b :: 0 <= a < |nc| && 0 <= b < |nc[a]| ==> nc[a][b].key in m && Beyond(chains, i, j, nc[a][b].key))
    && (forall k :: k in m && Beyond(chains, i, j, k) ==> Has(nc[Bucket(hash(k), |nc|)], k))
  }

  /** The entries still to come. */
  ghost function Left(chains: Chains, i: nat, j: nat): int
    requires i <= |chains|
  {
    |Flatten(chains)| - |Flatten(chains[..i])| - j
  }

  /** A rehash under way; left counts the entries to come. */
  ghost predicate Moving(hash: Key -> nat, chains: Chains, i: nat, j: nat, nc: Chains, left: int,
                               m: map<Key, Value>, nodes: set<object>)
    reads nodes
  {
    && Walk(chains, i, j, nodes) && Passed(hash, chains, i, j, nc, m)
    && AllLinked(nc, 0, nodes) && Values(nc, m, nodes)
    && left == Left(chains, i, j) == |Flatten(chains)| - |Flatten(nc)|
  }

  /** With nothing left to move, the new chains hold the map. */
  lemma MovedAll(hash: Key -> nat, chains: Chains, i: nat, j: nat, nc: Chains,
                       m: map<Key, Value>, nodes: set<object>)
    requires Moving(hash, chains, i, j, nc, 0, m, nodes)
    ensures AllLinked(nc, 0, nodes) && Placed(hash, nc)
    ensures Holds(hash, nc, m, nodes) && |Flatten(nc)| == |Flatten(chains)|
  {
    if i < |chains| && j < |chains[i]| {
      FlattenAt(chains, i, j);
      assert false;
    }
    forall a | i < a < |chains| ensures |chains[a]| == 0 {
      FlattenGrows(chains, i, a);
      FlattenStep(chains, a);
      FlattenFits(chains, a + 1);
    }
    forall k | k in m ensures Beyond(chains, i, j, k) {
    }
  }

  /** Passing the entry at j of chain i moves exactly its key from the entries to come to those passed. */
  lemma PassKey(hash: Key -> nat, chains: Chains, i: nat, j: nat)
    requires Placed(hash, chains) && i < |chains| && j < |chains[i]|
    ensures var key := chains[i][j].key;
            && !Beyond(chains, i, j, key) && Beyond(chains, i, j + 1, key)
            && (forall b :: j < b < |chains[i]| ==> chains[i][b].key != key)
            && (forall a, b :: i < a < |chains| && 0 <= b < |chains[a]| ==> chains[a][b].key != key)
    ensures forall k :: Beyond(chains, i, j + 1, k) && k != chains[i][j].key ==> Beyond(chains, i, j, k)
    ensures forall k :: Beyond(chains, i, j, k) ==> Beyond(chains, i, j + 1, k)
  {
    var key := chains[i][j].key;
    forall a, b | i < a < |chains| && 0 <= b < |chains[a]| ensures chains[a][b].key != key {
      assert Bucket(hash(chains[a][b].key), |chains|) == a && Bucket(hash(key), |chains|) == i;
    }
  }

  lemma MoveStart(hash: Key -> nat, chains: Chains, nc: Chains, m: map<Key, Value>, nodes: set<object>)
    requires AllLinked(chains, 0, nodes) && Holds(hash, chains, m, nodes)
    requires |nc| > 0 && nc == seq(|nc|, _ => [])
    ensures Moving(hash, chains, 0, 0, nc, |Flatten(chains)|, m, nodes)
  {
    FlattenEmpty(|nc|);
    AtStart(hash, chains, nc, m, nodes);
  }

  lemma AtStart(hash: Key -> nat, chains: Chains, nc: Chains, m: map<Key, Value>, nodes: set<object>)
    requires AllLinked(chains, 0, nodes) && Covers(hash, chains, m)
    requires |nc| > 0 && Flatten(nc) == [] && forall a :: 0 <= a < |nc| ==> nc[a] == []
    ensures Moving(hash, chains, 0, 0, nc, |Flatten(chains)|, m, nodes)
  {
    PassedNone(hash, chains, nc, m);
    assert Left(chains, 0, 0) == |Flatten(chains)| by {
      assert chains[..0] == [];
    }
    hide Passed, Flatten, Left, Covers;
    assert |chains| > 0 ==> Linked(chains[0], 0, nodes);
    assert AllLinked(nc, 0, nodes);
    assert Values(nc, m, nodes);
    hide Linked, Values;
  }

  lemma PassedNone(hash: Key -> nat, chains: Chains, nc: Chains, m: map<Key, Value>)
    requires Covers(hash, chains, m) && |nc| > 0 && forall a :: 0 <= a < |nc| ==> nc[a] == []
    ensures Passed(hash, chains, 0, 0, nc, m)
  {
    forall k | k in m ensures !Beyond(chains, 0, 0, k) {
      var b := Bucket(hash(k), |chains|);
      var j :| 0 <= j < |chains[b]| && chains[b][j].key == k;
    }
  }

  lemma MoveEnd(hash: Key -> nat, chains: Chains, i: nat, nc: Chains, left: int,
                      m: map<Key, Value>, nodes: set<object>)
    requires Moving(hash, chains, i, 0, nc, left, m, nodes) && (i == |chains| || left <= 0)
    ensures left == 0
  {
    FlattenFits(chains, i);
    if i == |chains| {
      assert chains[..i] == chains;
    }
  }

  lemma StillLeft(chains: Chains, i: nat, j: nat)
    requires i < |chains| && j <= |chains[i]|
    ensures j < |chains[i]| ==> Left(chains, i, j) > 0
  {
    FlattenStep(chains, i);
    FlattenFits(chains, i + 1);
  }

  lemma {:induction false} FlattenFits(chains: Chains, i: nat)
    requires i <= |chains|
    ensures |Flatten(chains[..i])| <= |Flatten(chains)|
    decreases |chains| - i
  {
    if i < |chains| {
      FlattenStep(chains, i);
      FlattenFits(chains, i + 1);
    } else {
      assert chains[..i] == chains;
    }
  }

  lemma {:induction false} FlattenGrows(chains: Chains, i: nat, a: nat)
    requires i < a <= |chains|
    ensures |Flatten(chains[..i])| + |chains[i]| <= |Flatten(chains[..a])|
    decreases a
  {
    FlattenStep(chains, a - 1);
    if i < a - 1 {
      FlattenGrows(chains, i, a - 1);
    }
  }

  /** An entry in the bucket of its key is the only one with that key. */
  lemma OnlyEntry(hash: Key -> nat, chains: Chains, e: Entry)
    requires |chains| > 0 && Placed(hash, chains) && e in chains[Bucket(hash(e.key), |chains|)]
    ensures forall i, j :: 0 <= i < |chains| && 0 <= j < |chains[i]| && chains[i][j].key == e.key ==> chains[i][j] == e
  {
    var h := Bucket(hash(e.key), |chains|);
    var k :| 0 <= k < |chains[h]| && chains[h][k] == e;
    forall i, j | 0 <= i < |chains| && 0 <= j < |chains[i]| && chains[i][j].key == e.key
      ensures chains[i][j] == e {
      assert i == h;
    }
  }

  /** From the end of one chain to the start of the next. */
  lemma NextChain(hash: Key -> nat, chains: Chains, i: nat, nc: Chains, left: int,
                        m: map<Key, Value>, nodes: set<object>)
    requires i < |chains| && Moving(hash, chains, i, |chains[i]|, nc, left, m, nodes)
    ensures Moving(hash, chains, i + 1, 0, nc, left, m, nodes)
  {
    FlattenStep(chains, i);
    forall k ensures Beyond(chains, i, |chains[i]|, k) <==> Beyond(chains, i + 1, 0, k) {
    }
    assert i + 1 < |chains| ==> Linked(chains[i + 1], 0, nodes);
  }

  /** The entry now moved joins the keys passed. */
  lemma PassEntry(hash: Key -> nat, chains: Chains, i: nat, j: nat, nc: Chains, m: map<Key, Value>)
    requires Placed(hash, chains) && i < |chains| && j < |chains[i]| && chains[i][j].key in m
    requires Passed(hash, chains, i, j, nc, m)
    ensures var he := chains[i][j];
            var h := Bucket(hash(he.key), |nc|);
            Passed(hash, chains, i, j + 1, nc[h := [he] + nc[h]], m)
  {
    PassKey(hash, chains, i, j);
    var he := chains[i][j];
    var h := Bucket(hash(he.key), |nc|);
    var es := [he] + nc[h];
    var nc': Chains := nc[h := es];
    PlacedPush(hash, nc, h, he);
    forall a, b | 0 <= a < |nc'| && 0 <= b < |nc'[a]|
      ensures nc'[a][b].key in m && Beyond(chains, i, j + 1, nc'[a][b].key) {
      if a == h && b > 0 {
        assert nc'[a][b] == nc[a][b - 1];
      } else if a != h {
        assert nc'[a][b] == nc[a][b];
      }
    }
    forall k | k in m && Beyond(chains, i, j + 1, k) ensures Has(nc'[Bucket(hash(k), |nc'|)], k) {
      if k == he.key {
        assert es[0].key == k;
      } else {
        var b := Bucket(hash(k), |nc|);
        var x :| 0 <= x < |nc[b]| && nc[b][x].key == k;
        assert b == h ==> es[x + 1].key == k;
      }
    }
  }

  /** Everything but the bucket array after a new entry went to the front of its chain. */
  lemma Inserted(hash: Key -> nat, g: Shape, h: nat, e: Entry)
    requires AllLinked(g.chains, 0, g.nodes) && Placed(hash, g.chains) && Holds(hash, g.chains, g.m, g.nodes)
    requires h < |g.chains| && h == Bucket(hash(e.key), |g.chains|) && e.key !in g.m && e.next == HeadOf(g.chains[h])
    ensures var chains, nodes := g.chains[h := [e] + g.chains[h]], g.nodes + {e};
            && AllLinked(chains, 0, nodes) && Placed(hash, chains)
            && Holds(hash, chains, g.m[e.key := e.val], nodes) && |Flatten(chains)| == |Flatten(g.chains)| + 1
  {
    var nodes := g.nodes + {e};
    forall i | 0 <= i < |g.chains| ensures Linked(g.chains[i], 0, nodes) {
      assert Linked(g.chains[i], 0, g.nodes);
    }
    assert !Has(g.chains[h], e.key);
    LinkedPush(g.chains, h, e, nodes);
    PlacedPush(hash, g.chains, h, e);
    HoldsPush(hash, g.chains, h, e, g.m, nodes);
    FlattenUpdate(g.chains, h, [e] + g.chains[h]);
  }

  /** Dropping entry j of chain h. */
  function Without<T>(es: seq<T>, j: nat): seq<T>
    requires j < |es|
  {
    es[..j] + es[j + 1..]
  }

  lemma PlacedDrop(hash: Key -> nat, chains: Chains, h: nat, j: nat)
    requires Placed(hash, chains) && h < |chains| && j < |chains[h]|
    ensures Placed(hash, chains[h := Without(chains[h], j)])
  {
  }

  lemma HoldsDrop(hash: Key -> nat, chains: Chains, h: nat, j: nat, m: map<Key, Value>, nodes: set<object>)
    requires Placed(hash, chains) && Holds(hash, chains, m, nodes) && h < |chains| && j < |chains[h]|
    ensures Holds(hash, chains[h := Without(chains[h], j)], m - {chains[h][j].key}, nodes)
  {
    DropCovers(hash, chains, h, j, m);
    DropValues(hash, chains, h, j, m, nodes);
  }

  lemma DropCovers(hash: Key -> nat, chains: Chains, h: nat, j: nat, m: map<Key, Value>)
    requires Covers(hash, chains, m) && h < |chains| && j < |chains[h]|
    ensures Covers(hash, chains[h := Without(chains[h], j)], m - {chains[h][j].key})
  {
    var key, es := chains[h][j].key, Without(chains[h], j);
    hide Bucket;
    forall k | k in m && k != key ensures Has(chains[h := es][Bucket(hash(k), |chains|)], k) {
      var b := Bucket(hash(k), |chains|);
      var a :| 0 <= a < |chains[b]| && chains[b][a].key == k;
      if b == h {
        assert es[if a < j then a else a - 1].key == k;
      }
    }
  }

  lemma DropValues(hash: Key -> nat, chains: Chains, h: nat, j: nat, m: map<Key, Value>, nodes: set<object>)
    requires Placed(hash, chains) && Values(chains, m, nodes) && h < |chains| && j < |chains[h]|
    ensures Values(chains[h := Without(chains[h], j)], m - {chains[h][j].key}, nodes)
  {
    var key, es := chains[h][j].key, Without(chains[h], j);
    var chains': Chains := chains[h := es];
    OnlyPlace(hash, chains, h, j);
    hide Bucket, Placed;
    forall a, b | 0 <= a < |chains'| && 0 <= b < |chains'[a]| ensures chains'[a][b].key != key {
      if a == h {
        assert es[b] == chains[h][if b < j then b else b + 1];
      } else {
        assert chains'[a][b] == chains[a][b];
      }
    }
  }

  /** A key is found in one place only. */
  lemma OnlyPlace(hash: Key -> nat, chains: Chains, h: nat, j: nat)
    requires Placed(hash, chains) && h < |chains| && j < |chains[h]|
    ensures forall a, b :: 0 <= a < |chains| && 0 <= b < |chains[a]| && chains[a][b].key == chains[h][j].key ==>
                      a == h && b == j
  {
    forall a, b | 0 <= a < |chains| && 0 <= b < |chains[a]| && chains[a][b].key == chains[h][j].key
      ensures a == h && b == j {
      assert Bucket(hash(chains[h][j].key), |chains|) == h && Bucket(hash(chains[a][b].key), |chains|) == a;
    }
  }

  lemma LinkedDrop(chains: Chains, h: nat, j: nat, nodes: set<object>)
    requires h < |chains| && j < |chains[h]|
    requires forall i :: 0 <= i < |chains| && i != h ==> Linked(chains[i], 0, nodes)
    requires forall b :: 0 <= b < |chains[h]| && b != j ==>
                    var e := chains[h][b];
                    e in nodes && e.next == if b + 1 == j then NextOf(chains[h], j) else NextOf(chains[h], b)
    ensures AllLinked(chains[h := Without(chains[h], j)], 0, nodes)
  {
    var es := Without(chains[h], j);
    forall b | 0 <= b < |es| ensures es[b] in nodes && es[b].next == NextOf(es, b) {
      assert es[b] == chains[h][if b < j then b else b + 1];
    }
    assert Linked(es, 0, nodes);
  }

  /** The unlinking step of dictDelete: no link but the one to the entry changes, and no value. */
  method Unlink(table: array<Entry?>, h: nat, prevde: Entry?, de: Entry, ghost hash: Key -> nat, ghost g: Shape,
                ghost j: nat)
    requires (table as object) !in g.nodes && Heads(table, g.chains) && AllLinked(g.chains, 0, g.nodes)
    requires Placed(hash, g.chains) && Values(g.chains, g.m, g.nodes)
    requires h < |g.chains| && j < |g.chains[h]| && de == g.chains[h][j]
    requires prevde == if j > 0 then g.chains[h][j - 1] else null
    modifies table, if prevde == null then {} else {prevde}
    ensures var chains := g.chains[h := Without(g.chains[h], j)];
            Heads(table, chains) && AllLinked(chains, 0, g.nodes)
    ensures Values(g.chains, g.m, g.nodes)
  {
    hide Placed, Values, AllLinked, Bucket, Heads;
    if prevde != null {
      UnlinkAfter(h, prevde, de, hash, g, j);
      SameHeads(table, g.chains, h, j);
    } else {
      UnlinkFirst(table, h, de, g);
    }
  }

  lemma SameHeads(table: array<Entry?>, chains: Chains, h: nat, j: nat)
    requires Heads(table, chains) && h < |chains| && 0 < j < |chains[h]|
    ensures Heads(table, chains[h := Without(chains[h], j)])
  {
  }

  method UnlinkFirst(table: array<Entry?>, h: nat, de: Entry, ghost g: Shape)
    requires (table as object) !in g.nodes && Heads(table, g.chains) && AllLinked(g.chains, 0, g.nodes)
    requires h < |g.chains| && |g.chains[h]| > 0 && de == g.chains[h][0]
    modifies table
    ensures var chains := g.chains[h := Without(g.chains[h], 0)];
            Heads(table, chains) && AllLinked(chains, 0, g.nodes)
  {
    assert Linked(g.chains[h], 0, g.nodes);
    table[h] := de.next;
    assert AllLinked(g.chains, 0, g.nodes);
    LinkedDrop(g.chains, h, 0, g.nodes);
    hide AllLinked, Linked;
  }

  method UnlinkAfter(h: nat, prevde: Entry, de: Entry, ghost hash: Key -> nat, ghost g: Shape, ghost j: nat)
    requires AllLinked(g.chains, 0, g.nodes) && Placed(hash, g.chains) && Values(g.chains, g.m, g.nodes)
    requires h < |g.chains| && 0 < j < |g.chains[h]| && prevde == g.chains[h][j - 1] && de == g.chains[h][j]
    modifies prevde
    ensures AllLinked(g.chains[h := Without(g.chains[h], j)], 0, g.nodes)
    ensures Values(g.chains, g.m, g.nodes)
  {
    assert Linked(g.chains[h], 0, g.nodes);
    OnlyPlace(hash, g.chains, h, j - 1);
    hide Placed, Bucket;
    prevde.next := de.next;
    assert AllLinked(g.chains[h := Without(g.chains[h], j)], 0, g.nodes) by {
      hide Values;
      forall i | 0 <= i < |g.chains| && i != h ensures Linked(g.chains[i], 0, g.nodes) {
        assert old(Linked(g.chains[i], 0, g.nodes));
      }
      LinkedDrop(g.chains, h, j, g.nodes);
    }
    hide AllLinked, Linked;
  }

  /** What a deletion leaves, apart from the links. */
  lemma Removed(hash: Key -> nat, g: Shape, h: nat, j: nat)
    requires Placed(hash, g.chains) && Holds(hash, g.chains, g.m, g.nodes)
    requires h < |g.chains| && j < |g.chains[h]|
    ensures var chains := g.chains[h := Without(g.chains[h], j)];
            && Placed(hash, chains) && Holds(hash, chains, g.m - {g.chains[h][j].key}, g.nodes)
            && |Flatten(chains)| == |Flatten(g.chains)| - 1
  {
    PlacedDrop(hash, g.chains, h, j);
    HoldsDrop(hash, g.chains, h, j, g.m, g.nodes);
    FlattenUpdate(g.chains, h, Without(g.chains[h], j));
  }

  /** The entry about to be moved is none of those already moved, and none of those still to come. */
  lemma NotElsewhere(hash: Key -> nat, chains: Chains, i: nat, j: nat, nc: Chains, m: map<Key, Value>)
    requires Placed(hash, chains) && i < |chains| && j < |chains[i]| && Passed(hash, chains, i, j, nc, m)
    ensures var he := chains[i][j];
            && (forall a, b :: 0 <= a < |nc| && 0 <= b < |nc[a]| ==> nc[a][b] != he)
            && (forall b :: j < b < |chains[i]| ==> chains[i][b] != he)
            && (forall a, b :: i < a < |chains| && 0 <= b < |chains[a]| ==> chains[a][b] != he)
  {
    PassKey(hash, chains, i, j);
    hide Bucket, Placed;
    forall a, b | 0 <= a < |nc| && 0 <= b < |nc[a]| ensures nc[a][b] != chains[i][j] {
      assert Beyond(chains, i, j, nc[a][b].key);
    }
  }

  /** The links of a rehash: the walk of the old chains, the new chains, and their values. */
  ghost predicate Links(chains: Chains, i: nat, j: nat, nc: Chains, m: map<Key, Value>, nodes: set<object>)
    reads nodes
  {
    Walk(chains, i, j, nodes) && AllLinked(nc, 0, nodes) && Values(nc, m, nodes)
  }

  /** Relinking one entry at the front of its new chain. */
  method Relink(n: array<Entry?>, h: nat, he: Entry, ghost chains: Chains, ghost i: nat, ghost j: nat,
                      ghost nc: Chains, ghost m: map<Key, Value>, ghost nodes: set<object>)
    requires n !in nodes && Heads(n, nc) && h < n.Length && i < |chains| && j < |chains[i]| && he == chains[i][j]
    requires Links(chains, i, j, nc, m, nodes) && he.key in m && he.val == m[he.key]
    requires forall a, b :: 0 <= a < |nc| && 0 <= b < |nc[a]| ==> nc[a][b] != he
    requires forall b :: j < b < |chains[i]| ==> chains[i][b] != he
    requires forall a, b :: i < a < |chains| && 0 <= b < |chains[a]| ==> chains[a][b] != he
    modifies n, he`next
    ensures Heads(n, nc[h := [he] + nc[h]])
    ensures Links(chains, i, j + 1, nc[h := [he] + nc[h]], m, nodes)
    ensures old(Values(chains, m, nodes)) ==> Values(chains, m, nodes)
  {
    ghost var nc' := nc[h := [he] + nc[h]];
    assert he in nodes by {
      assert Linked(chains[i], j, nodes);
    }
    he.next := n[h];
    n[h] := he;
    assert AllLinked(nc', 0, nodes) by {
      hide Values;
      assert AllLinked(nc, 0, nodes);
      LinkedPush(nc, h, he, nodes);
    }
    assert Walk(chains, i, j + 1, nodes) by {
      hide Values;
    }
    hide Walk, AllLinked, Linked;
    assert Values(nc', m, nodes);
  }

  /** One entry of dictExpand. */
  method MoveEntry(hash: Key -> nat, n: array<Entry?>, he: Entry, ghost chains: Chains,
                         ghost i: nat, ghost j: nat, ghost nc: Chains, ghost left: int,
                         ghost m: map<Key, Value>, ghost nodes: set<object>)
    returns (ghost nc': Chains)
    requires n !in nodes && Heads(n, nc) && Placed(hash, chains)
    requires Moving(hash, chains, i, j, nc, left, m, nodes)
    requires i < |chains| && j < |chains[i]| && he == chains[i][j] && he.key in m && he.val == m[he.key]
    modifies n, he`next
    ensures Heads(n, nc') && |nc'| == |nc|
    ensures Moving(hash, chains, i, j + 1, nc', left - 1, m, nodes)
    ensures old(Values(chains, m, nodes)) ==> Values(chains, m, nodes)
  {
    var h := Bucket(hash(he.key), n.Length);
    NotElsewhere(hash, chains, i, j, nc, m);
    PassEntry(hash, chains, i, j, nc, m);
    FlattenUpdate(nc, h, [he] + nc[h]);
    hide Walk, AllLinked, Values, Passed, Placed, Flatten, Bucket;
    Relink(n, h, he, chains, i, j, nc, m, nodes);
    nc' := nc[h := [he] + nc[h]];
  }

  /** What the walk finds at its current entry. */
  lemma AtEntry(hash: Key -> nat, chains: Chains, i: nat, j: nat, nc: Chains, left: int,
                      m: map<Key, Value>, nodes: set<object>)
    requires Moving(hash, chains, i, j, nc, left, m, nodes) && Values(chains, m, nodes)
    requires i < |chains| && j < |chains[i]|
    ensures var he := chains[i][j];
            he.next == NextOf(chains[i], j) && he.key in m && he.val == m[he.key] && he in nodes && left > 0
  {
    hide Passed;
    StillLeft(chains, i, j);
  }

  /** The inner loop of dictExpand: all entries of chain i. */
  method MoveChain(hash: Key -> nat, table: array<Entry?>, n: array<Entry?>, i: nat, left: nat,
                         ghost chains: Chains, ghost nc: Chains,
                         ghost m: map<Key, Value>, ghost nodes: set<object>)
    returns (ghost nc': Chains, left': nat)
    requires n != table && n !in nodes && table !in nodes
    requires Heads(table, chains) && Placed(hash, chains) && Values(chains, m, nodes)
    requires Heads(n, nc) && i < table.Length && Moving(hash, chains, i, 0, nc, left, m, nodes)
    modifies n, nodes
    ensures Heads(n, nc') && |nc'| == |nc| && Values(chains, m, nodes)
    ensures Moving(hash, chains, i + 1, 0, nc', left', m, nodes)
  {
    hide Moving, Values, Placed;
    nc', left' := nc, left;
    var he := table[i];
    ghost var j := 0;
    while he != null
      invariant 0 <= j <= |chains[i]| && he == (if j < |chains[i]| then chains[i][j] else null)
      invariant Heads(n, nc') && |nc'| == |nc| && Values(chains, m, nodes)
      invariant Moving(hash, chains, i, j, nc', left', m, nodes)
      decreases |chains[i]| - j
    {
      var nextHe := he.next;
      AtEntry(hash, chains, i, j, nc', left', m, nodes);
      nc' := MoveEntry(hash, n, he, chains, i, j, nc', left', m, nodes);
      left' := left' - 1;
      j := j + 1;
      he := nextHe;
    }
    NextChain(hash, chains, i, nc', left', m, nodes);
  }

  /** The outer loop of dictExpand, up to the assertion that nothing is left. */
  method MoveAll(hash: Key -> nat, table: array<Entry?>, n: array<Entry?>, used: nat,
                       ghost chains: Chains, ghost nc: Chains,
                       ghost m: map<Key, Value>, ghost nodes: set<object>)
    returns (ghost nc': Chains)
    requires n != table && n !in nodes && table !in nodes
    requires Heads(table, chains) && AllLinked(chains, 0, nodes) && Placed(hash, chains)
    requires Holds(hash, chains, m, nodes) && used == |Flatten(chains)|
    requires Heads(n, nc) && |nc| > 0 && nc == seq(|nc|, _ => [])
    modifies n, nodes
    ensures Heads(n, nc') && |nc'| == |nc| && AllLinked(nc', 0, nodes) && Placed(hash, nc')
    ensures Holds(hash, nc', m, nodes) && |Flatten(nc')| == used
  {
    nc' := nc;
    var left, i := used, 0;
    MoveStart(hash, chains, nc, m, nodes);
    hide Moving, Holds, AllLinked, Placed, Values, Flatten;
    while i < table.Length && left > 0
      invariant 0 <= i <= table.Length && Heads(n, nc') && Heads(table, chains) && |nc'| == |nc|
      invariant Values(chains, m, nodes) && Moving(hash, chains, i, 0, nc', left, m, nodes)
    {
      nc', left := MoveChain(hash, table, n, i, left, chains, nc', m, nodes);
      i := i + 1;
    }
    MoveEnd(hash, chains, i, nc', left, m, nodes);
    assert left == 0;
    MovedAll(hash, chains, i, 0, nc', m, nodes);
  }

  lemma CoversChanged(hash: Key -> nat, chains: Chains, m: map<Key, Value>, key: Key, val: Value)
    requires Covers(hash, chains, m) && key in m
    ensures Covers(hash, chains, m[key := val])
  {
  }

  /** What a table's search finds at position j of chain h. */
  lemma AtChain(hash: Key -> nat, g: Shape, h: nat, j: nat)
    requires AllLinked(g.chains, 0, g.nodes) && Holds(hash, g.chains, g.m, g.nodes)
    requires h < |g.chains| && j < |g.chains[h]|
    ensures var e := g.chains[h][j];
            e in g.nodes && e.next == NextOf(g.chains[h], j) && e.key in g.m && g.m[e.key] == e.val
  {
    assert Linked(g.chains[h], 0, g.nodes);
  }

  lemma NotFound(hash: Key -> nat, g: Shape, key: Key)
    requires Holds(hash, g.chains, g.m, g.nodes)
    requires |g.chains| > 0 ==>
               var es := g.chains[Bucket(hash(key), |g.chains|)];
               forall k :: 0 <= k < |es| ==> es[k].key != key
    ensures key !in g.m
  {
    hide Bucket, Values;
    assert |g.chains| > 0 ==> !Has(g.chains[Bucket(hash(key), |g.chains|)], key);
  }

  /** Overwriting the value of an entry changes the map at its key and nothing else. */
  method StoreVal(entry: Entry, val: Value, ghost hash: Key -> nat, ghost g: Shape)
    requires AllLinked(g.chains, 0, g.nodes) && Placed(hash, g.chains) && Holds(hash, g.chains, g.m, g.nodes)
    requires |g.chains| > 0 && entry in g.chains[Bucket(hash(entry.key), |g.chains|)] && entry.key in g.m
    modifies entry`val
    ensures AllLinked(g.chains, 0, g.nodes) && Holds(hash, g.chains, g.m[entry.key := val], g.nodes)
  {
    hide Covers, Bucket, Placed, Flatten;
    CoversChanged(hash, g.chains, g.m, entry.key, val);
    entry.val := val;
    assert AllLinked(g.chains, 0, g.nodes) by {
      hide Values;
      forall i | 0 <= i < |g.chains| ensures Linked(g.chains[i], 0, g.nodes) {
        assert old(Linked(g.chains[i], 0, g.nodes));
      }
    }
    hide AllLinked, Linked;
    assert Values(g.chains, g.m[entry.key := val], g.nodes) by {
      OnlyEntry(hash, g.chains, entry);
    }
    hide Values;
  }

  /** What a table stands for: its chains, all entry objects ever used in it, and the map. */
  datatype Shape = Shape(chains: Chains, nodes: set<object>, m: map<Key, Value>)

  /** A table of the given size laid out as g says. */
  ghost predicate Table(hash: Key -> nat, table: array<Entry?>, size: nat, used: nat, g: Shape)
    reads table, g.nodes
  {
    && table.Length == size && (size == 0 || (IsPow2(size) && size >= INITIAL_SIZE))
    && Heads(table, g.chains) && AllLinked(g.chains, 0, g.nodes)
    && Placed(hash, g.chains) && Holds(hash, g.chains, g.m, g.nodes)
    && used == |Flatten(g.chains)|
  }

  /** The body of dictExpand: a bucket array of the new size with every entry moved into it. */
  method Rebuild(hash: Key -> nat, table: array<Entry?>, size: nat, used: nat, realsize: nat, ghost g: Shape)
    returns (n: array<Entry?>, ghost g': Shape)
    requires Table(hash, table, size, used, g) && (table as object) !in g.nodes
    requires IsPow2(realsize) && realsize >= INITIAL_SIZE
    modifies g.nodes
    ensures fresh(n) && Table(hash, n, realsize, used, g') && g'.m == g.m && g'.nodes == g.nodes
  {
    hide AllLinked, Placed, Values, Covers, Holds, Flatten, IsPow2;
    n := new Entry?[realsize](_ => null);
    ghost var nc: Chains := seq(realsize, _ => []);
    nc := MoveAll(hash, table, n, used, g.chains, nc, g.m, g.nodes);
    g' := g.(chains := nc);
  }

  lemma TwicePower(n: nat)
    requires IsPow2(n)
    ensures IsPow2(2 * n)
  {
    var k: nat :| n == Pow2(k);
    assert Pow2(k + 1) == 2 * n;
  }

  /** The size of a table before an entry is added: 4 at first, and doubled whenever the table is full. */
  function Grown(size: nat, used: nat): nat {
    if size == 0 then 4 else if used == size then 2 * size else size
  }

  /** dict. The size mask is size - 1 throughout. */
  class Dict {
    const hash: Key -> nat
    var table: array<Entry?>
    var size: nat
    var used: nat
    ghost var g: Shape

    ghost predicate Valid()
      reads this, table, g.nodes
    {
      && this !in g.nodes && (table as object) !in g.nodes && size <= MAX_SIZE
      && Table(hash, table, size, used, g)
    }

    constructor (hash: Key -> nat)
      ensures Valid() && g.m == map[] && used == 0 && this.hash == hash && fresh(table) && g.nodes == {}
      ensures size == 0
    {
      this.hash := hash;
      table := new Entry?[0];
      size, used := 0, 0;
      g := Shape([], {}, map[]);
    }

    /** dictFind. */
    method Find(key: Key) returns (he: Entry?)
      requires Valid()
      ensures he != null <==> key in g.m
      ensures he != null ==> he in g.nodes && he.key == key && he.val == g.m[key]
      ensures he != null ==> size > 0 && he in g.chains[Bucket(hash(key), size)]
    {
      hide AllLinked, Holds, Placed, Flatten, Bucket, IsPow2;
      he := null;
      if size > 0 {
        ghost var h, j := Bucket(hash(key), size), 0;
        he := table[Bucket(hash(key), size)];
        while he != null && he.key != key
          invariant 0 <= j <= |g.chains[h]|
          invariant he == if j < |g.chains[h]| then g.chains[h][j] else null
          invariant forall k :: 0 <= k < j ==> g.chains[h][k].key != key
          decreases |g.chains[h]| - j
        {
          AtChain(hash, g, h, j);
          he := he.next;
          j := j + 1;
        }
        if he != null {
          AtChain(hash, g, h, j);
        }
      }
      if he == null {
        NotFound(hash, g, key);
      }
    }

    /** dictExpand. */
    method Expand(request: nat) returns (ok: bool)
      requires Valid() && request <= MAX_SIZE
      modifies this, g.nodes
      ensures ok == (old(used) <= request)
      ensures Valid() && g.m == old(g.m) && g.nodes == old(g.nodes)
      ensures ok ==> size >= request && size > 0 && fresh(table)
      ensures ok ==> forall k :: Pow2(k) >= 4 && Pow2(k) >= request ==> 4 <= size <= Pow2(k)
      ensures !ok ==> table == old(table) && size == old(size)
      ensures used == old(used)
    {
      hide Table, IsPow2;
      var realsize := NextPower(request);
      MaxIsPow2();
      ok := used <= request;
      if ok {
        var n;
        ghost var g';
        n, g' := Rebuild(hash, table, size, used, realsize, g);
        table, size, g := n, realsize, g';
      }
    }

    /** _dictExpandIfNeeded: a table without room is created or doubled. */
    method ExpandIfNeeded()
      requires Valid() && used <= MAX_SIZE / 2
      modifies this, g.nodes
      ensures Valid() && g.m == old(g.m) && g.nodes == old(g.nodes) && size > 0
      ensures (table == old(table) || fresh(table)) && used == old(used)
      ensures size == Grown(old(size), old(used))
    {
      if size > 0 {
        TwicePower(size);
      }
      assert Pow2(2) == 4;
      hide Table;
      if size == 0 {
        var grown := Expand(INITIAL_SIZE);
      } else if used == size {
        var grown := Expand(size * 2);
      }
    }

    /** dictAdd. */
    method Add(key: Key, val: Value) returns (ok: bool)
      requires Valid() && used <= MAX_SIZE / 2
      modifies this, table, g.nodes
      ensures Valid() && ok == (key !in old(g.m))
      ensures g.m == if ok then old(g.m)[key := val] else old(g.m)
      ensures (table == old(table) || fresh(table)) && fresh(g.nodes - old(g.nodes))
      ensures used <= old(used) + 1 && size == Grown(old(size), old(used))
    {
      ExpandIfNeeded();
      var index := KeyIndex(key);
      ok := index != -1;
      if ok {
        Insert(index, key, val);
      }
    }

    /** The second half of dictAdd: a new entry at the front of its chain. */
    method Insert(index: nat, key: Key, val: Value)
      requires Valid() && size > 0 && key !in g.m && index == Bucket(hash(key), size)
      modifies this`used, this`g, table
      ensures Valid() && g.m == old(g.m)[key := val] && fresh(g.nodes - old(g.nodes))
      ensures used == old(used) + 1
    {
      hide AllLinked, Placed, Holds, Flatten, Bucket, IsPow2;
      var entry := new Entry(key, val, table[index]);
      ghost var g0, es, nodes' := g, [entry] + g.chains[index], g.nodes + {entry};
      assert (table as object) !in nodes' && this !in nodes';
      table[index] := entry;
      used := used + 1;
      g := Shape(g.chains[index := es], nodes', g.m[key := val]);
      Inserted(hash, g0, index, entry);
    }

    /** _dictKeyIndex: the bucket for a new key, or -1 when the key is there already. */
    method KeyIndex(key: Key) returns (index: int)
      requires Valid() && size > 0
      ensures index == if key in g.m then -1 else Bucket(hash(key), size)
    {
      var he := Find(key);
      index := if he != null then -1 else Bucket(hash(key), size);
    }

    /** dictReplace. */
    method Replace(key: Key, val: Value) returns (added: bool)
      requires Valid() && used <= MAX_SIZE / 2
      modifies this, table, g.nodes
      ensures Valid() && g.m == old(g.m)[key := val] && added == (key !in old(g.m))
      ensures (table == old(table) || fresh(table)) && fresh(g.nodes - old(g.nodes))
      ensures used <= old(used) + 1 && size == Grown(old(size), old(used))
    {
      hide Table;
      added := Add(key, val);
      if !added {
        var entry := Find(key);
        SetVal(entry, val);
      }
    }

    /** dictDelete. */
    method Delete(key: Key) returns (ok: bool)
      requires Valid()
      modifies this, table, g.nodes
      ensures Valid() && ok == (key in old(g.m)) && g.m == old(g.m) - {key}
      ensures table == old(table) && g.nodes == old(g.nodes) && used <= old(used) && size == old(size)
      ensures ok ==> exists h, j :: 0 <= h < |old(g.chains)| && 0 <= j < |old(g.chains)[h]|
                               && old(g.chains)[h][j].key == key
                               && g.chains == old(g.chains)[h := Without(old(g.chains)[h], j)]
    {
      hide Placed, Values, Covers, AllLinked, Flatten, IsPow2, Bucket;
      var de, prevde;
      ghost var j;
      prevde, de, j := Search(key);
      ok := de != null;
      if ok {
        var h := Bucket(hash(key), size);
        Unlink(table, h, prevde, de, hash, g, j);
        Removed(hash, g, h, j);
        used, g := used - 1, Shape(g.chains[h := Without(g.chains[h], j)], g.nodes, g.m - {key});
      }
    }

    /** The search loop of dictDelete, which also remembers the entry before. */
    method Search(key: Key) returns (prevde: Entry?, de: Entry?, ghost j: nat)
      requires Valid()
      ensures de != null <==> key in g.m
      ensures de != null ==>
                var h := Bucket(hash(key), |g.chains|);
                && h < |g.chains| == size && j < |g.chains[h]| && de == g.chains[h][j]
                && de.key == key && prevde == (if j > 0 then g.chains[h][j - 1] else null)
                && (prevde != null ==> prevde in g.nodes)
    {
      hide AllLinked, Holds, Placed, Flatten, Bucket, IsPow2;
      prevde, de, j := null, null, 0;
      if size > 0 {
        ghost var h := Bucket(hash(key), size);
        de := table[Bucket(hash(key), size)];
        while de != null && de.key != key
          invariant 0 <= j <= |g.chains[h]|
          invariant de == if j < |g.chains[h]| then g.chains[h][j] else null
          invariant prevde == if j > 0 then g.chains[h][j - 1] else null
          invariant prevde != null ==> prevde in g.nodes
          invariant forall k :: 0 <= k < j ==> g.chains[h][k].key != key
          decreases |g.chains[h]| - j
        {
          AtChain(hash, g, h, j);
          prevde, de := de, de.next;
          j := j + 1;
        }
        if de != null {
          AtChain(hash, g, h, j);
        }
      }
      if de == null {
        NotFound(hash, g, key);
      }
    }

    /** dictSetHashVal on an entry of the table. */
    method SetVal(entry: Entry, val: Value)
      requires Valid() && entry in g.nodes && entry.key in g.m
      requires size > 0 && entry in g.chains[Bucket(hash(entry.key), size)]
      modifies this`g, entry`val
      ensures Valid() && g == old(g).(m := old(g.m)[entry.key := val])
    {
      hide Placed, Flatten, Bucket, IsPow2, AllLinked, Holds;
      StoreVal(entry, val, hash, g);
      g := g.(m := g.m[entry.key := val]);
    }
  }

  // ---------------------------------------------------------------- walking the table

  lemma {:induction false} FlattenFront(chains: Chains, i: nat)
    requires i < |chains|
    ensures Flatten(chains[i..]) == chains[i] + Flatten(chains[i + 1..])
    decreases |chains|
  {
    var k := |chains| - 1;
    if i < k {
      FlattenFront(chains[..k], i);
      assert chains[i..][..k - i] == chains[..k][i..] && chains[i + 1..][..k - i - 1] == chains[..k][i + 1..];
      assert chains[i + 1..][k - i - 1] == chains[k] == chains[i..][k - i];
    } else {
      assert chains[i..] == [chains[i]] && chains[i + 1..] == [] && chains[i..][..0] == [];
    }
  }

  /**
   * An iterator with the entries rest still to return. Of its current entry only what comes after
   * it matters, so that entry may have been deleted.
   */
  ghost predicate Stands(chains: Chains, index: int, entry: Entry?, nextEntry: Entry?, rest: seq<Entry>) {
    && index >= -1
    && if entry == null then rest == if index + 1 <= |chains| then Flatten(chains[index + 1..]) else []
       else
         && 0 <= index < |chains|
         && exists k | 0 <= k <= |chains[index]| ::
              HeadOf(chains[index][k..]) == nextEntry && rest == chains[index][k..] + Flatten(chains[index + 1..])
  }

  /** The next entry to return is e, at position j of chain i. */
  ghost predicate At(chains: Chains, i: int, j: int, e: Entry, rest: seq<Entry>) {
    && 0 <= i < |chains| && 0 <= j < |chains[i]| && e == chains[i][j]
    && rest == chains[i][j..] + Flatten(chains[i + 1..])
  }

  lemma OpenChain(chains: Chains, i: nat, e: Entry?, next: Entry?, rest: seq<Entry>)
    requires i < |chains| && Stands(chains, i - 1, null, next, rest) && e == HeadOf(chains[i])
    ensures if e == null then Stands(chains, i, null, next, rest) else At(chains, i, 0, e, rest)
  {
    FlattenFront(chains, i);
    hide Flatten;
    assert chains[i][0..] == chains[i];
    assert e == null ==> rest == Flatten(chains[i + 1..]);
  }

  lemma FollowChain(chains: Chains, i: int, entry: Entry, nextEntry: Entry?, rest: seq<Entry>)
    returns (j: nat)
    requires Stands(chains, i, entry, nextEntry, rest)
    ensures 0 <= i < |chains| && if nextEntry == null then Stands(chains, i, null, null, rest) else At(chains, i, j, nextEntry, rest)
  {
    hide Flatten;
    j :| j <= |chains[i]| && HeadOf(chains[i][j..]) == nextEntry && rest == chains[i][j..] + Flatten(chains[i + 1..]);
    if nextEntry == null {
      assert rest == Flatten(chains[i + 1..]);
    }
  }

  /** Returning the entry e leaves the iterator behind it. */
  lemma Take(hash: Key -> nat, g: Shape, i: nat, j: nat, e: Entry, rest: seq<Entry>)
    requires AllLinked(g.chains, 0, g.nodes) && Holds(hash, g.chains, g.m, g.nodes)
    requires At(g.chains, i, j, e, rest)
    ensures rest != [] && rest[0] == e && e in g.nodes && e.next == NextOf(g.chains[i], j)
    ensures Stands(g.chains, i, e, e.next, rest[1..]) && Returned(g.chains, i, j, e, e.next, rest[1..])
  {
    hide AllLinked, Holds;
    AtChain(hash, g, i, j);
    Behind(g.chains, i, j, e, rest);
    hide Stands;
  }

  lemma Behind(chains: Chains, i: nat, j: nat, e: Entry, rest: seq<Entry>)
    requires At(chains, i, j, e, rest)
    ensures rest != [] && rest[0] == e && Stands(chains, i, e, NextOf(chains[i], j), rest[1..])
    ensures Returned(chains, i, j, e, NextOf(chains[i], j), rest[1..])
  {
    hide Flatten;
    var k := j + 1;
    assert HeadOf(chains[i][k..]) == NextOf(chains[i], j);
    assert rest[1..] == chains[i][k..] + Flatten(chains[i + 1..]);
  }

  lemma AtFirst(chains: Chains)
    ensures Stands(chains, -1, null, null, Flatten(chains))
  {
    assert chains[0..] == chains;
  }

  /** dictIterator. */
  class Iterator {
    const ht: Dict
    var index: int
    var entry: Entry?
    var nextEntry: Entry?
    /** The entries still to return. */
    ghost var rest: seq<Entry>

    ghost predicate Valid()
      reads this, ht, ht.table, ht.g.nodes
    {
      ht.Valid() && this !in ht.g.nodes && index >= -1 && Stands(ht.g.chains, index, entry, nextEntry, rest)
    }

    /** dictGetIterator. */
    constructor (ht: Dict)
      requires ht.Valid()
      ensures Valid() && this.ht == ht && rest == Flatten(ht.g.chains)
    {
      hide Table;
      this.ht := ht;
      index := -1;
      entry, nextEntry := null, null;
      rest := Flatten(ht.g.chains);
      new;
      AtFirst(ht.g.chains);
      hide Stands;
    }

    /** dictNext: the entries come one by one, each once, then null for ever. */
    method Next() returns (e: Entry?)
      requires Valid()
      modifies this
      ensures Valid() && e == HeadOf(old(rest))
      ensures rest == if old(rest) == [] then [] else old(rest)[1..]
      ensures entry == e && (e != null ==> exists j :: Returned(ht.g.chains, index, j, e, nextEntry, rest))
    {
      hide Flatten, AllLinked, Holds, Placed, IsPow2, Stands, At;
      ghost var j := 0;
      while true
        invariant Valid() && rest == old(rest)
        decreases ht.size - index, entry != null
      {
        if entry == null {
          index := index + 1;
          if index >= ht.size {
            NothingLeft(ht.g.chains, index, nextEntry, rest);
            return null;
          }
          entry := ht.table[index];
          OpenChain(ht.g.chains, index, entry, nextEntry, rest);
          j := 0;
        } else {
          j := FollowChain(ht.g.chains, index, entry, nextEntry, rest);
          entry := nextEntry;
        }
        if entry != null {
          Take(ht.hash, ht.g, index, j, entry, rest);
          nextEntry := entry.next;
          rest := rest[1..];
          return entry;
        }
      }
    }

    /** dictDelete of the entry that Next returned: what is still to come stays the same. */
    method DeleteReturned()
      requires Valid() && entry != null && exists j :: Returned(ht.g.chains, index, j, entry, nextEntry, rest)
      modifies ht, ht.table, ht.g.nodes
      ensures Valid() && rest == old(rest) && ht.g.m == old(ht.g.m) - {entry.key} && ht.g.nodes == old(ht.g.nodes)
      ensures ht.table == old(ht.table)
    {
      hide Flatten, AllLinked, Holds, Placed, IsPow2, Stands, Heads;
      ghost var j :| Returned(ht.g.chains, index, j, entry, nextEntry, rest);
      ghost var before := ht.g;
      KeyPresent(ht.hash, before, index, j);
      var ok := ht.Delete(entry.key);
      DeletedPlace(ht.hash, before.chains, ht.g.chains, index, j);
      DeletedCurrent(before.chains, index, j, entry, nextEntry, rest);
    }
  }

  /** The entry e of chain i was just returned: next is behind it, and rest is all that follows. */
  ghost predicate Returned(chains: Chains, i: int, j: int, e: Entry, next: Entry?, rest: seq<Entry>) {
    && 0 <= i < |chains| && 0 <= j < |chains[i]| && e == chains[i][j] && next == NextOf(chains[i], j)
    && rest == chains[i][j + 1..] + Flatten(chains[i + 1..])
  }

  lemma KeyPresent(hash: Key -> nat, g: Shape, i: nat, j: nat)
    requires Holds(hash, g.chains, g.m, g.nodes) && i < |g.chains| && j < |g.chains[i]|
    ensures g.chains[i][j].key in g.m
  {
    hide Covers;
  }

  /** Where a key was dropped is where it was. */
  lemma DeletedPlace(hash: Key -> nat, chains: Chains, after: Chains, i: nat, j: nat)
    requires Placed(hash, chains) && i < |chains| && j < |chains[i]|
    requires exists h, k :: 0 <= h < |chains| && 0 <= k < |chains[h]| && chains[h][k].key == chains[i][j].key
                            && after == chains[h := Without(chains[h], k)]
    ensures after == chains[i := Without(chains[i], j)]
  {
    OnlyPlace(hash, chains, i, j);
    hide Placed, Without;
  }

  /** Deleting the entry just returned leaves the entries still to come unchanged. */
  lemma DeletedCurrent(chains: Chains, i: nat, j: nat, e: Entry, next: Entry?, rest: seq<Entry>)
    requires Returned(chains, i, j, e, next, rest)
    ensures Stands(chains[i := Without(chains[i], j)], i, e, next, rest)
  {
    hide Flatten;
    var chains': Chains := chains[i := Without(chains[i], j)];
    assert chains'[i][j..] == chains[i][j + 1..] && chains'[i + 1..] == chains[i + 1..];
    assert HeadOf(chains'[i][j..]) == next;
  }

  lemma NothingLeft(chains: Chains, index: int, next: Entry?, rest: seq<Entry>)
    requires index >= |chains| && Stands(chains, index - 1, null, next, rest)
    ensures rest == [] && Stands(chains, index, null, next, rest)
  {
    assert index <= |chains| ==> chains[index..] == [];
  }

  /** The loop around dictNext. */
  method Collect(it: Iterator) returns (es: seq<Entry>)
    requires it.Valid()
    modifies it
    ensures es == old(it.rest)
  {
    hide Table, Flatten, Stands, At, Iterator.Valid;
    es := [];
    ghost var all := it.rest;
    var more := true;
    while more
      invariant it.Valid() && all == es + it.rest && (!more ==> it.rest == [])
      decreases more, |it.rest|
    {
      var e := it.Next();
      more := e != null;
      if more {
        es := es + [e];
      }
    }
  }

  /** A full walk of a table gives each of its pairs exactly once. */
  method Entries(ht: Dict) returns (es: seq<Entry>)
    requires ht.Valid()
    ensures es == Flatten(ht.g.chains)
    ensures Lists(es, ht.g.m) && |es| == ht.used
  {
    hide Table, Flatten, Stands, Lists;
    var it := new Iterator(ht);
    es := Collect(it);
    TableIsMap(ht.hash, ht.table, ht.size, ht.used, ht.g);
  }

  /** One round: the next entry is returned and deleted. */
  method DeleteNext(it: Iterator) returns (e: Entry?)
    requires it.Valid()
    modifies it, it.ht, it.ht.table, it.ht.g.nodes
    ensures it.Valid() && it.ht.table == old(it.ht.table) && it.ht.g.nodes == old(it.ht.g.nodes)
    ensures e == HeadOf(old(it.rest)) && it.rest == if e == null then [] else old(it.rest)[1..]
    ensures it.ht.g.m == if e == null then old(it.ht.g.m) else old(it.ht.g.m) - {e.key}
  {
    hide Table, Flatten, Stands, Returned;
    e := it.Next();
    if e != null {
      it.DeleteReturned();
    }
  }

  /** Returning and deleting until nothing is left. */
  method Sweep(it: Iterator) returns (es: seq<Entry>)
    requires it.Valid()
    modifies it, it.ht, it.ht.table, it.ht.g.nodes
    ensures it.ht.Valid() && es == old(it.rest) && it.ht.g.m == old(it.ht.g.m) - KeysOf(es)
  {
    hide Table, Flatten, Stands, Iterator.Valid, Distinct, KeysOf;
    ghost var m, all := it.ht.g.m, it.rest;
    es := [];
    NoKeys(m);
    var more := true;
    while more
      invariant it.Valid() && all == es + it.rest && (!more ==> it.rest == [])
      invariant it.ht.table == old(it.ht.table) && it.ht.g.nodes == old(it.ht.g.nodes) && it.ht.g.m == m - KeysOf(es)
      decreases more, |it.rest|
    {
      ghost var rest := it.rest;
      var e := DeleteNext(it);
      more := e != null;
      if more {
        var f: Entry := e;
        KeysMore(es, f, m);
        OneMore(all, es, rest, f);
        es := es + [f];
      }
    }
    assert all == es;
    ItsTable(it);
  }

  /** Deleting every entry as it is returned: each pair comes up exactly once, and the table is empty afterwards. */
  method DeleteAll(ht: Dict) returns (es: seq<Entry>)
    requires ht.Valid()
    modifies ht, ht.table, ht.g.nodes
    ensures ht.Valid() && ht.g.m == map[] && es == old(Flatten(ht.g.chains)) && |es| == old(ht.used)
    ensures Distinct(es) && KeysOf(es) == old(ht.g.m.Keys)
  {
    ghost var m := ht.g.m;
    TableIsMap(ht.hash, ht.table, ht.size, ht.used, ht.g);
    TableKeys(Flatten(ht.g.chains), m);
    hide Table, Flatten, Stands, Iterator.Valid, Distinct, KeysOf, Lists;
    var it := new Iterator(ht);
    es := Sweep(it);
    assert m - m.Keys == map[];
  }

  lemma ItsTable(it: Iterator)
    requires it.Valid()
    ensures it.ht.Valid()
  {
  }

  lemma NoKeys(m: map<Key, Value>)
    ensures m - KeysOf([]) == m
  {
  }

  lemma OneMore(all: seq<Entry>, es: seq<Entry>, rest: seq<Entry>, e: Entry)
    requires all == es + rest && rest != [] && rest[0] == e
    ensures all == (es + [e]) + rest[1..]
  {
  }

  lemma KeysMore(es: seq<Entry>, e: Entry, m: map<Key, Value>)
    ensures m - KeysOf(es) - {e.key} == m - KeysOf(es + [e])
  {
    assert KeysOf(es + [e]) == KeysOf(es) + {e.key};
  }

  lemma TableKeys(es: seq<Entry>, m: map<Key, Value>)
    requires Lists(es, m)
    ensures KeysOf(es) == m.Keys && Distinct(es)
  {
  }

  lemma TableIsMap(hash: Key -> nat, table: array<Entry?>, size: nat, used: nat, g: Shape)
    requires Table(hash, table, size, used, g)
    ensures Lists(Flatten(g.chains), g.m) && |Flatten(g.chains)| == used
  {
    FlattenIsMap(hash, g);
  }

  ghost predicate Distinct(es: seq<Entry>) {
    forall i, j :: 0 <= i < j < |es| ==> es[i].key != es[j].key
  }

  /** The entries are the pairs of the map, each once. */
  ghost predicate Lists(es: seq<Entry>, m: map<Key, Value>)
    reads es
  {
    && Distinct(es) && |es| == |m|
    && (forall k :: k in m ==> exists i :: 0 <= i < |es| && es[i].key == k)
    && (forall i :: 0 <= i < |es| ==> es[i].key in m && es[i].val == m[es[i].key])
  }

  /** Every entry of a table comes up in the walk, each key once. */
  lemma FlattenIsMap(hash: Key -> nat, g: Shape)
    requires Placed(hash, g.chains) && Holds(hash, g.chains, g.m, g.nodes)
    ensures Lists(Flatten(g.chains), g.m)
  {
    hide Values;
    var es, n := Flatten(g.chains), |g.chains|;
    assert g.chains[..n] == g.chains;
    FlattenDistinct(hash, g.chains, n);
    forall i | 0 <= i < |es| ensures es[i].key in g.m && es[i].val == g.m[es[i].key] {
      var a, b := FlattenFrom(g.chains, n, i);
      ValueAt(g, a, b);
    }
    forall k | k in g.m ensures exists i :: 0 <= i < |es| && es[i].key == k {
      var h := Bucket(hash(k), n);
      var j :| 0 <= j < |g.chains[h]| && g.chains[h][j].key == k;
      FlattenAt(g.chains, h, j);
      assert es[|Flatten(g.chains[..h])| + j].key == k;
    }
    hide Flatten, Placed, Holds;
    assert KeysOf(es) == g.m.Keys;
    KeysCounted(es);
  }

  lemma ValueAt(g: Shape, a: nat, b: nat)
    requires Values(g.chains, g.m, g.nodes) && a < |g.chains| && b < |g.chains[a]|
    ensures var e := g.chains[a][b]; e.key in g.m && e.val == g.m[e.key]
  {
  }

  ghost function KeysOf(es: seq<Entry>): set<Key> {
    set e | e in es :: e.key
  }

  lemma {:induction false} KeysCounted(es: seq<Entry>)
    requires Distinct(es)
    ensures |KeysOf(es)| == |es|
  {
    if es != [] {
      var k := |es| - 1;
      KeysCounted(es[..k]);
      assert KeysOf(es) == KeysOf(es[..k]) + {es[k].key};
    }
  }

  /** Where in the chains an entry of the walk sits. */
  lemma {:induction false} FlattenFrom(chains: Chains, n: nat, i: nat) returns (a: nat, b: nat)
    requires n <= |chains| && i < |Flatten(chains[..n])|
    ensures a < n && b < |chains[a]| && Flatten(chains[..n])[i] == chains[a][b]
    decreases n
  {
    FlattenStep(chains, n - 1);
    var before := |Flatten(chains[..n - 1])|;
    if i < before {
      a, b := FlattenFrom(chains, n - 1, i);
    } else {
      a, b := n - 1, i - before;
    }
  }

  lemma {:induction false} FlattenDistinct(hash: Key -> nat, chains: Chains, n: nat)
    requires Placed(hash, chains) && n <= |chains|
    ensures Distinct(Flatten(chains[..n]))
    decreases n
  {
    if n > 0 {
      FlattenDistinct(hash, chains, n - 1);
      FlattenStep(chains, n - 1);
      var front, last := Flatten(chains[..n - 1]), chains[n - 1];
      forall i, j | 0 <= i < |front| && 0 <= j < |last| ensures front[i].key != last[j].key {
        var a, b := FlattenFrom(chains, n - 1, i);
        OnlyPlace(hash, chains, n - 1, j);
      }
    }
  }

  // ---------------------------------------------------------------- runs of operations

  datatype Op = Add(key: Key, val: Value) | Replace(key: Key, val: Value) | Delete(key: Key) | Find(key: Key)

  datatype Answer = Status(ok: bool) | Looked(val: Option<Value>)

  /** What an operation does to a map, and what it answers. */
  function Apply(m: map<Key, Value>, op: Op): (map<Key, Value>, Answer) {
    match op
    case Add(k, v) => (if k in m then m else m[k := v], Status(k !in m))
    case Replace(k, v) => (m[k := v], Status(k !in m))
    case Delete(k) => (m - {k}, Status(k in m))
    case Find(k) => (m, Looked(if k in m then Some(m[k]) else None))
  }

  function Replay(m: map<Key, Value>, ops: seq<Op>): (map<Key, Value>, seq<Answer>)
    decreases |ops|
  {
    if ops == [] then (m, [])
    else
      var (m1, answers) := Replay(m, ops[..|ops| - 1]);
      var (m2, answer) := Apply(m1, ops[|ops| - 1]);
      (m2, answers + [answer])
  }

  /** The size of the table after some operations: it never shrinks, and grows only when an entry is added to a full one. */
  function SizeAfter(ops: seq<Op>): nat
    decreases |ops|
  {
    if ops == [] then 0
    else
      var k := |ops| - 1;
      NextSize(SizeAfter(ops[..k]), |Replay(map[], ops[..k]).0|, ops[k])
  }

  function NextSize(size: nat, used: nat, op: Op): nat {
    if op.Add? || op.Replace? then Grown(size, used) else size
  }

  /** There are never more entries than buckets; the size is a power of two, at most 4 or less than twice the number of operations. */
  lemma {:induction false} NeverOverfull(ops: seq<Op>)
    ensures |Replay(map[], ops).0| <= SizeAfter(ops) && |Replay(map[], ops).0| <= |ops|
    ensures SizeAfter(ops) == 0 || IsPow2(SizeAfter(ops))
    ensures SizeAfter(ops) <= 4 || SizeAfter(ops) < 2 * |ops|
    decreases |ops|
  {
    hide *;
    if ops == [] {
      NothingYet();
    } else {
      var k := |ops| - 1;
      NeverOverfull(ops[..k]);
      MapGrows(Replay(map[], ops[..k]).0, ops[k]);
      OneOpMore(ops);
      SizeGrows(SizeAfter(ops[..k]), |Replay(map[], ops[..k]).0|, ops[k]);
    }
  }

  lemma NothingYet()
    ensures Replay(map[], []) == (map[], []) && SizeAfter([]) == 0
  {
  }

  lemma OneOpMore(ops: seq<Op>)
    requires ops != []
    ensures var k := |ops| - 1;
            && Replay(map[], ops).0 == Apply(Replay(map[], ops[..k]).0, ops[k]).0
            && SizeAfter(ops) == NextSize(SizeAfter(ops[..k]), |Replay(map[], ops[..k]).0|, ops[k])
  {
    hide Apply, NextSize;
  }

  lemma SizeGrows(size: nat, used: nat, op: Op)
    requires used <= size && (size == 0 || IsPow2(size))
    ensures var size' := NextSize(size, used, op);
            && (size' == 0 || IsPow2(size')) && size' >= size
            && (op.Add? || op.Replace? ==> used + 1 <= size')
            && (size' == size || size' == 4 || (size' == 2 * size && used == size))
  {
    assert Pow2(2) == 4;
    if size > 0 {
      TwicePower(size);
    }
    hide IsPow2;
  }

  lemma MapGrows(m: map<Key, Value>, op: Op)
    ensures var m' := Apply(m, op).0;
            |m'| <= |m| + 1 && (op.Delete? || op.Find? ==> |m'| <= |m|)
  {
    if op.Add? || op.Replace? {
      if op.key in m {
        assert m[op.key := op.val].Keys == m.Keys;
      } else {
        assert m[op.key := op.val].Keys == m.Keys + {op.key};
      }
    } else if op.Delete? {
      assert (m - {op.key}).Keys == m.Keys - {op.key};
    }
  }

  /** One operation on a table. */
  method Perform(ht: Dict, op: Op) returns (answer: Answer)
    requires ht.Valid() && ht.used <= MAX_SIZE / 2
    modifies ht, ht.table, ht.g.nodes
    ensures ht.Valid() && (ht.g.m, answer) == Apply(old(ht.g.m), op)
    ensures (ht.table == old(ht.table) || fresh(ht.table)) && fresh(ht.g.nodes - old(ht.g.nodes))
    ensures ht.used <= old(ht.used) + 1 && ht.size == NextSize(old(ht.size), old(ht.used), op)
  {
    hide Table;
    var ok;
    match op
    case Add(k, v) => ok := ht.Add(k, v); answer := Status(ok);
    case Replace(k, v) => ok := ht.Replace(k, v); answer := Status(ok);
    case Delete(k) => ok := ht.Delete(k); answer := Status(ok);
    case Find(k) =>
      var he := ht.Find(k);
      answer := Looked(if he == null then None else Some(he.val));
  }

  /** A new table answers any sequence of operations as a finite map does, through every rehash. */
  method Run(hash: Key -> nat, ops: seq<Op>) returns (ht: Dict, answers: seq<Answer>)
    requires |ops| <= MAX_SIZE / 2
    ensures ht.Valid() && (ht.g.m, answers) == Replay(map[], ops)
    ensures ht.size == SizeAfter(ops) && ht.used == |ht.g.m|
  {
    hide Table, Apply;
    ht := new Dict(hash);
    answers := [];
    for i := 0 to |ops|
      invariant ht.Valid() && ht.used <= i && fresh(ht) && fresh(ht.table) && fresh(ht.g.nodes)
      invariant (ht.g.m, answers) == Replay(map[], ops[..i]) && ht.size == SizeAfter(ops[..i])
    {
      TableIsMap(ht.hash, ht.table, ht.size, ht.used, ht.g);
      var answer := Perform(ht, ops[i]);
      answers := answers + [answer];
      assert ops[..i + 1][..i] == ops[..i];
    }
    assert ops[..|ops|] == ops;
    TableIsMap(ht.hash, ht.table, ht.size, ht.used, ht.g);
  }
}
