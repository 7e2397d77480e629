/**
 * The reader of read.c as it runs: a nine-slot task stack, a cursor into a buffer that is
 * compacted, and reply objects whose children are written into their parent's array in place.
 * Every method is tied to the machine of RespMachine, so its laws hold of the objects built here.
 */
module RespReader {
  import opened Bytes
  import opened Decimal
  import opened RespSpec
  import opened RespMachine

  const REPLY_STRING := 1
  const REPLY_ARRAY := 2
  const REPLY_INTEGER := 3
  const REPLY_NIL := 4
  const REPLY_STATUS := 5
  const REPLY_ERROR := 6

  const ERR_PROTOCOL := 4
  /** A consumed prefix of this many bytes is cut off the buffer. */
  const COMPACT := 1024

  type Slots = array<ReplyObject?>

  /** A reply as handed to the caller. Only the element array is written after creation. */
  class ReplyObject {
    const typ: int
    const integer: int
    const str: bytes
    const element: Slots

    constructor (typ: int, integer: int, str: bytes, elements: nat)
      ensures this.typ == typ && this.integer == integer && this.str == str
      ensures fresh(element) && element.Length == elements
      ensures forall i :: 0 <= i < elements ==> element[i] == null
    {
      this.typ := typ;
      this.integer := integer;
      this.str := str;
      this.element := new ReplyObject?[elements](_ => null);
    }
  }

  /** The object o and everything below it show the reply r; sealed holds arrays no longer written to. */
  ghost predicate Shows(o: ReplyObject, r: Reply, sealed: set<object>)
    reads sealed
    decreases r
  {
    match r
    case Str(text) => o.typ == REPLY_STRING && o.str == text
    case Status(text) => o.typ == REPLY_STATUS && o.str == text
    case Err(text) => o.typ == REPLY_ERROR && o.str == text
    case Int(value) => o.typ == REPLY_INTEGER && o.integer == value
    case Nil => o.typ == REPLY_NIL
    case Arr(items) =>
      && o.typ == REPLY_ARRAY && o.element in sealed && o.element.Length == |items|
      && forall i :: 0 <= i < |items| ==> o.element[i] != null && Shows(o.element[i], items[i], sealed)
  }

  /** The type codes of hiredis.h. */
  lemma TypeCodes(o: ReplyObject, r: Reply, sealed: set<object>)
    requires Shows(o, r, sealed)
    ensures r.Str? ==> o.typ == 1 && o.str == r.text
    ensures r.Arr? ==> o.typ == 2 && o.element.Length == |r.items|
    ensures r.Int? ==> o.typ == 3 && o.integer == r.value
    ensures r.Nil? ==> o.typ == 4
    ensures r.Status? ==> o.typ == 5 && o.str == r.text
    ensures r.Err? ==> o.typ == 6 && o.str == r.text
  {
  }

  lemma {:induction false} ShowsMore(o: ReplyObject, r: Reply, small: set<object>, large: set<object>)
    requires Shows(o, r, small) && small <= large
    ensures Shows(o, r, large)
    decreases r
  {
    match r
    case Arr(items) =>
      forall i | 0 <= i < |items| ensures Shows(o.element[i], items[i], large) {
        ShowsMore(o.element[i], items[i], small, large);
      }
    case _ =>
  }

  /** One slot of the task stack; parent is the index of the slot below, or -1. */
  datatype Task = Task(typ: int, elements: int, idx: int, obj: ReplyObject?, parent: int)

  function TypeCode(t: byte): int
    requires IsType(t)
  {
    if t == PLUS then REPLY_STATUS
    else if t == DASH then REPLY_ERROR
    else if t == COLON then REPLY_INTEGER
    else if t == DOLLAR then REPLY_STRING
    else REPLY_ARRAY
  }

  ghost function TypeOf(code: int): Option<byte> {
    if code == REPLY_STATUS then Some(PLUS)
    else if code == REPLY_ERROR then Some(DASH)
    else if code == REPLY_INTEGER then Some(COLON)
    else if code == REPLY_STRING then Some(DOLLAR)
    else if code == REPLY_ARRAY then Some(STAR)
    else None
  }

  /** What the task stack holds: the frames, their objects, their element arrays, and finished arrays. */
  datatype Tower = Tower(stack: seq<Frame>, path: seq<ReplyObject>, open: set<object>, sealed: set<object>)

  /** The element of array object o that is next to be filled holds obj. */
  ghost predicate Placed(f: Frame, o: ReplyObject, obj: ReplyObject)
    reads o.element
  {
    |f.filled| < o.element.Length && o.element[|f.filled|] == obj
  }

  /** A slot, the slot above it and its object o: the filled elements show what was read so far. */
  ghost predicate SlotOk(slot: Task, above: Task, f: Frame, o: ReplyObject, k: nat, sealed: set<object>)
    reads {o.element as object} + sealed
  {
    && slot.typ == REPLY_ARRAY && slot.elements == f.n && slot.obj == o
    && above.idx == |f.filled| < f.n <= INT_MAX && above.parent == k
    && o.typ == REPLY_ARRAY && o.element.Length == f.n
    && (forall j :: 0 <= j < |f.filled| ==> o.element[j] != null && Shows(o.element[j], f.filled[j], sealed))
  }

  /**
   * Every array on the task stack is in order and is linked into the array below it. The set open
   * holds exactly their element arrays, all distinct.
   */
  ghost predicate SlotsOk(tasks: seq<Task>, stack: seq<Frame>, path: seq<ReplyObject>,
                          open: set<object>, sealed: set<object>)
    requires |path| == |stack| < |tasks|
    reads open, sealed
    decreases |stack|
  {
    if stack == [] then open == {}
    else
      var k := |stack| - 1;
      var e: object := path[k].element;
      && e in open
      && SlotOk(tasks[k], tasks[k + 1], stack[k], path[k], k, sealed)
      && (k > 0 ==> path[k - 1].element in open - {e} && Placed(stack[k - 1], path[k - 1], path[k]))
      && SlotsOk(tasks, stack[..k], path[..k], open - {e}, sealed)
  }

  lemma {:induction false} SlotsTasks(tasks: seq<Task>, tasks': seq<Task>, stack: seq<Frame>,
                                      path: seq<ReplyObject>, open: set<object>, sealed: set<object>)
    requires |path| == |stack| < |tasks| && |stack| < |tasks'| && SlotsOk(tasks, stack, path, open, sealed)
    requires forall k :: 0 <= k < |stack| ==> tasks[k] == tasks'[k]
    requires tasks[|stack|].idx == tasks'[|stack|].idx && tasks[|stack|].parent == tasks'[|stack|].parent
    ensures SlotsOk(tasks', stack, path, open, sealed)
    decreases |stack|
  {
    if stack != [] {
      var k := |stack| - 1;
      SlotsTasks(tasks, tasks', stack[..k], path[..k], open - {path[k].element}, sealed);
    }
  }

  lemma {:induction false} SlotsSealed(tasks: seq<Task>, stack: seq<Frame>, path: seq<ReplyObject>,
                                       open: set<object>, small: set<object>, large: set<object>)
    requires |path| == |stack| < |tasks| && SlotsOk(tasks, stack, path, open, small) && small <= large
    ensures SlotsOk(tasks, stack, path, open, large)
    decreases |stack|
  {
    if stack != [] {
      var k := |stack| - 1;
      var f, o := stack[k], path[k];
      forall j | 0 <= j < |f.filled| ensures Shows(o.element[j], f.filled[j], large) {
        ShowsMore(o.element[j], f.filled[j], small, large);
      }
      SlotsSealed(tasks, stack[..k], path[..k], open - {o.element}, small, large);
    }
  }

  /** The task stack with ridx as its top and what it holds. */
  ghost predicate TowerOk(tasks: seq<Task>, ridx: int, t: Tower)
    reads t.open, t.sealed
  {
    && |tasks| == 9 && -1 <= ridx <= MAX_DEPTH
    && |t.path| == |t.stack| == (if ridx == -1 then 0 else ridx)
    && t.open !! t.sealed
    && SlotsOk(tasks, t.stack, t.path, t.open, t.sealed)
    && (ridx >= 0 ==> tasks[0].parent == -1 && (tasks[ridx].typ < 0 || TypeOf(tasks[ridx].typ).Some?))
  }

  lemma TowerApart(tasks: seq<Task>, ridx: int, t: Tower)
    requires TowerOk(tasks, ridx, t)
    ensures t.open !! t.sealed
  {
    hide SlotsOk;
  }

  lemma {:induction false} TowerStackOk(tasks: seq<Task>, stack: seq<Frame>, path: seq<ReplyObject>,
                                        open: set<object>, sealed: set<object>)
    requires |path| == |stack| < |tasks| && |stack| <= MAX_DEPTH && SlotsOk(tasks, stack, path, open, sealed)
    ensures Ok(State(stack, None, []))
    decreases |stack|
  {
    if stack != [] {
      var k := |stack| - 1;
      TowerStackOk(tasks, stack[..k], path[..k], open - {path[k].element}, sealed);
      assert stack == stack[..k] + [stack[k]];
    }
  }

  /** The element being read, if there is an array around it, holds obj, and obj shows r. */
  ghost predicate Holds(t: Tower, obj: ReplyObject, r: Reply)
    requires |t.path| == |t.stack|
    reads t.open, t.sealed
  {
    && Shows(obj, r, t.sealed)
    && (t.path != [] ==>
          var k := |t.path| - 1;
          t.path[k].element in t.open && Placed(t.stack[k], t.path[k], obj))
  }

  /** An innermost array that is now full is sealed and becomes the finished element itself. */
  lemma PopTower(tasks: seq<Task>, ridx: int, t: Tower, obj: ReplyObject, r: Reply)
    returns (t': Tower, o: ReplyObject, v: Reply)
    requires TowerOk(tasks, ridx, t) && ridx > 0 && Holds(t, obj, r)
    requires |t.stack[ridx - 1].filled| + 1 == t.stack[ridx - 1].n
    ensures TowerOk(tasks, ridx - 1, t') && Holds(t', o, v)
    ensures t'.stack == t.stack[..ridx - 1] && t'.path == t.path[..ridx - 1] && o == t.path[ridx - 1]
    ensures v == Arr(t.stack[ridx - 1].filled + [r])
    ensures t.sealed <= t'.sealed && t'.open + t'.sealed == t.open + t.sealed
  {
    var k, f := ridx - 1, t.stack[ridx - 1];
    o, v := t.path[k], Arr(f.filled + [r]);
    t' := Tower(t.stack[..k], t.path[..k], t.open - {o.element}, t.sealed + {o.element});
    var items := f.filled + [r];
    forall i | 0 <= i < |items| ensures o.element[i] != null && Shows(o.element[i], items[i], t'.sealed) {
      ShowsMore(o.element[i], items[i], t.sealed, t'.sealed);
    }
    SlotsSealed(tasks, t'.stack, t'.path, t'.open, t.sealed, t'.sealed);
    assert k > 0 ==> SlotOk(tasks[k - 1], tasks[k], t'.stack[k - 1], t'.path[k - 1], k - 1, t'.sealed);
  }

  /** An innermost array that misses further elements takes the finished one. */
  lemma NextTower(tasks: seq<Task>, ridx: int, t: Tower, obj: ReplyObject, r: Reply, next: Task)
    returns (t': Tower)
    requires TowerOk(tasks, ridx, t) && ridx > 0 && Holds(t, obj, r)
    requires |t.stack[ridx - 1].filled| + 1 < t.stack[ridx - 1].n
    requires next == tasks[ridx].(typ := -1, elements := -1, idx := tasks[ridx].idx + 1)
    ensures TowerOk(tasks[ridx := next], ridx, t')
    ensures var f := t.stack[ridx - 1];
            t' == t.(stack := t.stack[..ridx - 1] + [Frame(f.n, f.filled + [r])])
  {
    var k, f := ridx - 1, t.stack[ridx - 1];
    var f', tasks' := Frame(f.n, f.filled + [r]), tasks[ridx := next];
    t' := t.(stack := t.stack[..k] + [f']);
    SlotsTasks(tasks, tasks', t.stack[..k], t.path[..k], t.open - {t.path[k].element}, t.sealed);
    assert t'.stack[..k] == t.stack[..k];
    assert SlotOk(tasks'[k], tasks'[k + 1], f', t.path[k], k, t.sealed);
  }

  /** Opening a new innermost array of n elements, none of them read yet. */
  lemma PushTower(tasks: seq<Task>, ridx: int, t: Tower, obj: ReplyObject, n: int, below: Task, above: Task)
    returns (t': Tower)
    requires TowerOk(tasks, ridx, t) && 0 <= ridx < MAX_DEPTH
    requires t.path != [] ==> t.path[ridx - 1].element in t.open && Placed(t.stack[ridx - 1], t.path[ridx - 1], obj)
    requires obj.typ == REPLY_ARRAY && 0 < n == obj.element.Length && n <= INT_MAX
    requires obj.element !in t.open + t.sealed
    requires below == tasks[ridx].(elements := n, obj := obj) && below.typ == REPLY_ARRAY
    requires above == Task(-1, -1, 0, null, ridx)
    ensures TowerOk(tasks[ridx := below][ridx + 1 := above], ridx + 1, t')
    ensures t' == Tower(t.stack + [Frame(n, [])], t.path + [obj], t.open + {obj.element}, t.sealed)
  {
    var tasks' := tasks[ridx := below][ridx + 1 := above];
    t' := Tower(t.stack + [Frame(n, [])], t.path + [obj], t.open + {obj.element}, t.sealed);
    SlotsTasks(tasks, tasks', t.stack, t.path, t.open, t.sealed);
    assert t'.stack[..ridx] == t.stack && t'.path[..ridx] == t.path && t'.open - {obj.element} == t.open;
    assert SlotOk(below, above, t'.stack[ridx], obj, ridx, t.sealed);
  }

  /** The type and list position of the top slot may change without touching what the stack holds. */
  lemma TypeTower(tasks: seq<Task>, ridx: int, t: Tower, code: int)
    requires TowerOk(tasks, ridx, t) && ridx >= 0 && TypeOf(code).Some?
    ensures TowerOk(tasks[ridx := tasks[ridx].(typ := code)], ridx, t)
  {
    SlotsTasks(tasks, tasks[ridx := tasks[ridx].(typ := code)], t.stack, t.path, t.open, t.sealed);
  }

  /** An empty array has nothing to write to and is sealed at once. */
  lemma SealTower(tasks: seq<Task>, ridx: int, t: Tower, obj: ReplyObject)
    returns (t': Tower)
    requires TowerOk(tasks, ridx, t) && obj.typ == REPLY_ARRAY && obj.element.Length == 0
    requires obj.element !in t.open
    ensures t' == t.(sealed := t.sealed + {obj.element})
    ensures TowerOk(tasks, ridx, t') && Shows(obj, Arr([]), t'.sealed)
  {
    t' := t.(sealed := t.sealed + {obj.element});
    SlotsSealed(tasks, t.stack, t.path, t.open, t.sealed, t'.sealed);
  }

  /** The object at the bottom of the task stack, or the finished object itself. */
  ghost function BaseOf(t: Tower, obj: ReplyObject): ReplyObject {
    if t.path == [] then obj else t.path[0]
  }

  /** A task stack after a finished item was passed up it. */
  ghost predicate Climbed(o: Outcome, tasks: seq<Task>, ridx: int, t: Tower, base: ReplyObject)
    reads t.sealed
  {
    match o
    case Next(m) =>
      0 < ridx < |tasks| && tasks[ridx].typ == -1 && t.stack == m.stack && t.path != [] && t.path[0] == base
    case Out(v, _) => ridx == -1 && Shows(base, v, t.sealed)
    case _ => false
  }

  /** The loop of moveToNextTask. */
  method Climb(tasks0: seq<Task>, i0: int, ghost t0: Tower, ghost obj: ReplyObject, ghost r: Reply)
    returns (i: int, tasks: seq<Task>, ghost t: Tower)
    requires TowerOk(tasks0, i0, t0) && i0 >= 0 && Holds(t0, obj, r)
    ensures TowerOk(tasks, i, t) && Climbed(Ascend(t0.stack, r, []), tasks, i, t, BaseOf(t0, obj))
    ensures t0.sealed <= t.sealed && t.open + t.sealed == t0.open + t0.sealed
  {
    i, tasks, t := i0, tasks0, t0;
    ghost var o, v := obj, r;
    while i >= 0
      invariant i >= 0 && TowerOk(tasks, i, t) && Holds(t, o, v)
      invariant Ascend(t.stack, v, []) == Ascend(t0.stack, r, [])
      invariant BaseOf(t, o) == BaseOf(t0, obj)
      invariant t0.sealed <= t.sealed && t.open + t.sealed == t0.open + t0.sealed
      decreases i
    {
      if i == 0 {
        return -1, tasks, t;
      }
      var cur, prv := tasks[i], tasks[i - 1];
      assert prv.typ == REPLY_ARRAY;
      if cur.idx == prv.elements - 1 {
        t, o, v := PopTower(tasks, i, t, o, v);
        i := i - 1;
      } else {
        assert cur.idx < prv.elements;
        var next := cur.(typ := -1, elements := -1, idx := cur.idx + 1);
        t := NextTower(tasks, i, t, o, v, next);
        return i, tasks[i := next], t;
      }
    }
  }

  class RedisReader {
    var err: int
    var error: Option<ProtocolError>
    var buf: bytes
    var pos: nat
    var len: nat
    var rstack: seq<Task>
    var ridx: int
    var reply: ReplyObject?

    /** What the task stack holds. */
    ghost var tower: Tower

    ghost predicate Core()
      reads this, tower.open, tower.sealed
    {
      && pos <= len == |buf|
      && (if err == 0 then error == None else err == ERR_PROTOCOL && error.Some? && ridx == -1 && buf == [])
      && this !in tower.open && this !in tower.sealed
      && TowerOk(rstack, ridx, tower)
    }

    /** The array at the bottom of the task stack, if there is one. */
    ghost function Root(): ReplyObject?
      requires Core()
      reads this, tower.open, tower.sealed
    {
      if ridx > 0 then tower.path[0] else null
    }

    /** Between calls the root object is kept only while it is being filled. */
    ghost predicate Valid()
      reads this, tower.open, tower.sealed
    {
      Core() && reply == Root()
    }

    /** The machine state this reader stands for. */
    ghost function Abs(): State
      requires Core()
      reads this, tower.open, tower.sealed
    {
      State(tower.stack, if ridx == -1 then None else TypeOf(rstack[ridx].typ), buf[pos..])
    }

    /** The reader and the result it returned realise the machine's outcome. */
    ghost predicate Reached(o: Outcome, ok: bool)
      reads this, tower.open, tower.sealed
    {
      && Core()
      && match o
         case Next(m) => ok && err == 0 && ridx >= 0 && Abs() == m && reply == Root()
         case Out(r, rest) =>
           ok && err == 0 && ridx == -1 && Abs() == State([], None, rest) && reply != null && Shows(reply, r, tower.sealed)
         case Wait(m) => !ok && err == 0 && ridx >= 0 && Abs() == m && reply == Root()
         case Bad(e) => !ok && err != 0 && error == Some(e) && reply == null
    }

    /** redisReaderCreateWithFunctions. */
    constructor ()
      ensures Valid() && err == 0 && Abs() == START
      ensures tower.open == {} && tower.sealed == {}
    {
      err, error := 0, None;
      buf, pos, len := [], 0, 0;
      rstack := seq(9, _ => Task(0, 0, 0, null, 0));
      ridx, reply := -1, null;
      tower := Tower([], [], {}, {});
    }

    /** __redisReaderSetError: the error sticks, input and task stack are dropped. */
    method SetError(e: ProtocolError)
      requires Core()
      modifies this
      ensures Reached(Bad(e), false)
      ensures tower.sealed == old(tower.sealed) && tower.open == {}
    {
      reply := null;
      buf, pos, len := [], 0, 0;
      ridx := -1;
      err, error := ERR_PROTOCOL, Some(e);
      tower := Tower([], [], {}, tower.sealed);
    }

    /** The part of every create*Object function that links the new object into its parent. */
    method Attach(obj: ReplyObject)
      requires TowerOk(rstack, ridx, tower) && ridx >= 0
      modifies tower.open
      ensures TowerOk(rstack, ridx, tower)
      ensures ridx > 0 ==> tower.path[ridx - 1].element in tower.open
      ensures ridx > 0 ==> Placed(tower.stack[ridx - 1], tower.path[ridx - 1], obj)
    {
      var task := rstack[ridx];
      if task.parent >= 0 {
        ghost var k := ridx - 1;
        ghost var below := tower.open - {tower.path[k].element};
        var parent := rstack[task.parent].obj;
        assert parent.typ == REPLY_ARRAY;
        parent.element[task.idx] := obj;
        assert SlotsOk(rstack, tower.stack[..k], tower.path[..k], below, tower.sealed);
        assert SlotOk(rstack[k], task, tower.stack[k], tower.path[k], k, tower.sealed);
      }
    }

    /** moveToNextTask, after the object obj showing r was completed in the current slot. */
    method MoveToNextTask(ghost obj: ReplyObject, ghost r: Reply)
      requires TowerOk(rstack, ridx, tower) && ridx >= 0 && Holds(tower, obj, r)
      requires this !in tower.open && this !in tower.sealed
      modifies this`ridx, this`tower, this`rstack
      ensures TowerOk(rstack, ridx, tower)
      ensures Climbed(Ascend(old(tower).stack, r, []), rstack, ridx, tower, BaseOf(old(tower), obj))
      ensures old(tower).sealed <= tower.sealed
      ensures tower.open + tower.sealed == old(tower).open + old(tower).sealed
    {
      hide SlotsOk, Ascend, TowerOk;
      var i, tasks;
      ghost var t;
      i, tasks, t := Climb(rstack, ridx, tower, obj, r);
      ridx, rstack, tower := i, tasks, t;
    }

    /** Completing the current item with a new object: link it, keep it if it is the root, move on. */
    method Finish(obj: ReplyObject, ghost r: Reply)
      requires Valid() && ridx >= 0 && err == 0 && Shows(obj, r, tower.sealed)
      modifies this`ridx, this`reply, this`tower, this`rstack, tower.open
      ensures Reached(Ascend(old(tower).stack, r, buf[pos..]), true)
      ensures old(tower).sealed <= tower.sealed
      ensures tower.open + tower.sealed == old(tower).open + old(tower).sealed
    {
      hide SlotsOk, Ascend, Shows;
      Attach(obj);
      if ridx == 0 {
        reply := obj;
      }
      ghost var rest, o := buf[pos..], Ascend(tower.stack, r, []);
      AscendExtend(tower.stack, r, [], rest);
      assert [] + rest == rest;
      MoveToNextTask(obj, r);
      assert Ascend(old(tower).stack, r, rest) == Extend(o, rest);
      assert o.Next? ==> Abs() == RespMachine.Feed(o.state, rest);
    }

    /** A decoded item takes its bytes and becomes an object. */
    method FinishLeaf(obj: ReplyObject, ghost r: Reply, used: nat)
      requires Valid() && ridx >= 0 && err == 0 && Shows(obj, r, tower.sealed) && used <= len - pos
      modifies this, tower.open
      ensures Reached(Ascend(old(tower).stack, r, old(buf[pos..])[used..]), true)
      ensures old(tower).sealed <= tower.sealed
      ensures tower.open + tower.sealed == old(tower).open + old(tower).sealed
    {
      hide SlotsOk, TowerOk, Ascend, Shows, Reached;
      pos := pos + used;
      Finish(obj, r);
    }

    /** processLineItem and processBulkItem: decode the item, then either stop, fail or finish it. */
    method ProcessLeafItem(t: byte) returns (ok: bool)
      requires Valid() && ridx >= 0 && err == 0
      requires IsType(t) && t != STAR && rstack[ridx].typ == TypeCode(t)
      modifies this, tower.open
      ensures Reached(Typed(old(tower).stack, t, old(buf[pos..])), ok)
      ensures old(tower.sealed) <= tower.sealed
      ensures fresh(tower.open + tower.sealed - old(tower.open + tower.sealed))
    {
      hide SlotsOk, TowerOk, ParseBulk, ParseLine, Ascend, Typed, Shows;
      var p, used := DecodeLeaf(t, buf[pos..]);
      TypedLeaf(tower.stack, t, buf[pos..], p);
      ok := p.Done?;
      if p.Fail? {
        SetError(p.error);
      } else if p.Done? {
        var obj := NewLeaf(p.value, tower.sealed);
        FinishLeaf(obj, p.value, used);
      }
    }

    method ProcessMultiBulkItem() returns (ok: bool)
      requires Valid() && ridx >= 0 && err == 0 && rstack[ridx].typ == REPLY_ARRAY
      modifies this, tower.open
      ensures Reached(Typed(old(tower).stack, STAR, old(buf[pos..])), ok)
      ensures old(tower.sealed) <= tower.sealed
      ensures fresh(tower.open + tower.sealed - old(tower.open + tower.sealed))
    {
      hide SlotsOk, Shows, ParseHeader, Ascend;
      var p, used := DecodeHeader(buf[pos..], ridx);
      ok := p.Done?;
      if p.Fail? {
        SetError(p.error);
      } else if p.Done? {
        Advance(used);
        var elements := p.value;
        if elements > 0 {
          var obj := new ReplyObject(REPLY_ARRAY, 0, [], elements);
          PushTask(obj, elements);
        } else {
          FinishEmpty(elements);
        }
      }
    }

    /** The nil array and the empty array are complete at once. */
    method FinishEmpty(elements: int)
      requires Valid() && ridx >= 0 && err == 0 && -1 <= elements <= 0
      modifies this, tower.open
      ensures Reached(Ascend(old(tower).stack, if elements == -1 then Nil else Arr([]), old(buf[pos..])), true)
      ensures old(tower.sealed) <= tower.sealed
      ensures fresh(tower.open + tower.sealed - old(tower.open + tower.sealed))
    {
      hide SlotsOk, Ascend;
      if elements == -1 {
        var obj := NewLeaf(Nil, tower.sealed);
        Finish(obj, Nil);
      } else {
        var obj := new ReplyObject(REPLY_ARRAY, 0, [], elements);
        ghost var t := SealTower(rstack, ridx, tower, obj);
        tower := t;
        Finish(obj, Arr([]));
      }
    }

    method Advance(used: nat)
      requires Valid() && ridx >= 0 && err == 0 && used <= len - pos
      modifies this`pos
      ensures Valid() && buf[pos..] == old(buf[pos..])[used..]
    {
      pos := pos + used;
    }

    /** A non-empty array opens a slot above its own. */
    method PushTask(obj: ReplyObject, elements: int)
      requires Valid() && 0 <= ridx < MAX_DEPTH && err == 0 && rstack[ridx].typ == REPLY_ARRAY
      requires obj.typ == REPLY_ARRAY && 0 < elements == obj.element.Length && elements <= INT_MAX
      requires obj.element !in tower.open && obj.element !in tower.sealed
      requires var e: object := obj.element; e != this
      modifies this`ridx, this`reply, this`tower, this`rstack, tower.open
      ensures Valid() && ridx > 0
      ensures Abs() == State(old(tower).stack + [Frame(elements, [])], None, buf[pos..])
      ensures tower.open == old(tower).open + {obj.element} && tower.sealed == old(tower).sealed
    {
      hide SlotsOk;
      Attach(obj);
      if ridx == 0 {
        reply := obj;
      }
      WriteTasks(obj, elements);
    }

    method WriteTasks(obj: ReplyObject, elements: int)
      requires TowerOk(rstack, ridx, tower) && 0 <= ridx < MAX_DEPTH && rstack[ridx].typ == REPLY_ARRAY
      requires this !in tower.open && this !in tower.sealed
      requires ridx > 0 ==> tower.path[ridx - 1].element in tower.open
      requires ridx > 0 ==> Placed(tower.stack[ridx - 1], tower.path[ridx - 1], obj)
      requires obj.typ == REPLY_ARRAY && 0 < elements == obj.element.Length && elements <= INT_MAX
      requires obj.element !in tower.open && obj.element !in tower.sealed
      requires var e: object := obj.element; e != this
      modifies this`ridx, this`tower, this`rstack
      ensures TowerOk(rstack, ridx, tower) && ridx == old(ridx) + 1 && rstack[ridx].typ == -1
      ensures tower == Tower(old(tower).stack + [Frame(elements, [])], old(tower).path + [obj],
                             old(tower).open + {obj.element}, old(tower).sealed)
    {
      hide SlotsOk;
      var below, above := rstack[ridx].(elements := elements, obj := obj), Task(-1, -1, 0, null, ridx);
      ghost var t := PushTower(rstack, ridx, tower, obj, elements, below, above);
      ridx, rstack, tower := ridx + 1, rstack[ridx := below][ridx + 1 := above], t;
    }

    method ProcessItem() returns (ok: bool)
      requires Valid() && ridx >= 0 && err == 0
      modifies this, tower.open
      ensures Reached(Step(old(Abs())), ok)
      ensures old(tower.sealed) <= tower.sealed
      ensures fresh(tower.open + tower.sealed - old(tower.open + tower.sealed))
    {
      hide SlotsOk, Typed, Shows;
      ok := true;
      if rstack[ridx].typ < 0 {
        ok := ReadType();
      }
      if ok {
        ok := ProcessTyped();
      }
    }

    /** The first half of processItem: consume the type byte. */
    method ReadType() returns (ok: bool)
      requires Valid() && ridx >= 0 && err == 0 && rstack[ridx].typ < 0
      modifies this
      ensures !ok ==> Reached(Step(old(Abs())), ok)
      ensures tower.sealed == old(tower).sealed && tower.open <= old(tower).open
      ensures ok ==>
                && Valid() && ridx >= 0 && err == 0 && tower == old(tower) && TypeOf(rstack[ridx].typ).Some?
                && Step(old(Abs())) == Typed(tower.stack, TypeOf(rstack[ridx].typ).value, buf[pos..])
    {
      hide SlotsOk, Typed;
      if pos == len {
        return false;
      }
      var t := buf[pos];
      if !IsType(t) {
        SetError(UnknownType(t));
        return false;
      }
      Advance(1);
      SetType(TypeCode(t));
      return true;
    }

    /** The second half of processItem: dispatch on the type of the current task. */
    method ProcessTyped() returns (ok: bool)
      requires Valid() && ridx >= 0 && err == 0 && TypeOf(rstack[ridx].typ).Some?
      modifies this, tower.open
      ensures Reached(Typed(old(tower).stack, old(TypeOf(rstack[ridx].typ).value), old(buf[pos..])), ok)
      ensures old(tower.sealed) <= tower.sealed
      ensures fresh(tower.open + tower.sealed - old(tower.open + tower.sealed))
    {
      hide SlotsOk, Typed, Shows;
      var typ := rstack[ridx].typ;
      if typ == REPLY_ERROR {
        ok := ProcessLeafItem(DASH);
      } else if typ == REPLY_STATUS {
        ok := ProcessLeafItem(PLUS);
      } else if typ == REPLY_INTEGER {
        ok := ProcessLeafItem(COLON);
      } else if typ == REPLY_STRING {
        ok := ProcessLeafItem(DOLLAR);
      } else {
        ok := ProcessMultiBulkItem();
      }
    }

    method SetType(code: int)
      requires Valid() && ridx >= 0 && TypeOf(code).Some?
      modifies this`rstack
      ensures Valid() && rstack[ridx].typ == code
    {
      TypeTower(rstack, ridx, tower, code);
      rstack := rstack[ridx := rstack[ridx].(typ := code)];
    }

    /** The reader as it is between calls: valid, and never waiting inside an array it must refuse. */
    ghost predicate Settled()
      reads this, tower.open, tower.sealed
    {
      Valid() && Ok(Abs())
    }

    /** redisReaderFeed. */
    method Feed(data: bytes) returns (ok: bool)
      requires Settled()
      modifies this
      ensures Settled() && ok == (old(err) == 0) && err == old(err) && error == old(error)
      ensures tower == old(tower)
      ensures ok ==> Abs() == RespMachine.Feed(old(Abs()), data)
    {
      if err != 0 {
        return false;
      }
      if |data| >= 1 {
        assert (buf + data)[pos..] == buf[pos..] + data;
        buf := buf + data;
        len := |buf|;
      } else {
        assert buf[pos..] + data == buf[pos..];
      }
      return true;
    }

    /** Starting on a new reply when the task stack is empty. */
    method StartReply()
      requires Valid() && err == 0
      modifies this`rstack, this`ridx
      ensures Valid() && ridx >= 0 && Abs() == old(Abs())
    {
      if ridx == -1 {
        rstack, ridx := rstack[0 := Task(-1, -1, -1, null, -1)], 0;
      }
    }

    /** The loop of redisReaderGetReply. */
    method ProcessItems() returns (ok: bool)
      requires Valid() && ridx >= 0 && err == 0
      modifies this, tower.open
      ensures Reached(Run(old(Abs())), ok)
      ensures old(tower).sealed <= tower.sealed
      ensures fresh(tower.open + tower.sealed - old(tower.open + tower.sealed))
    {
      hide SlotsOk, Step, Shows;
      ghost var target := Run(Abs());
      ok := true;
      while ridx >= 0 && ok
        invariant if ridx >= 0 && ok then Valid() && err == 0 && Run(Abs()) == target else Reached(target, ok)
        invariant old(tower).sealed <= tower.sealed
        invariant fresh(tower.open - old(tower.open + tower.sealed))
        invariant fresh(tower.sealed - old(tower.open + tower.sealed))
        decreases ok, |buf| - pos
      {
        ghost var left := |buf| - pos;
        ok := ProcessItem();
        assert ridx >= 0 && ok ==> |buf[pos..]| < left;
      }
    }

    /** Cutting the consumed prefix off the buffer. */
    method Compact()
      requires Core()
      modifies this`buf, this`pos, this`len
      ensures Core() && Abs() == old(Abs())
    {
      if pos >= COMPACT {
        ghost var rest := buf[pos..];
        buf := SdsRange(buf, pos, -1);
        assert buf == rest;
        pos := 0;
        len := |buf|;
        assert buf[0..] == buf;
      }
    }

    /** A call with outcome o answered ok, handed out the object out, and left the reader as o says. */
    ghost predicate Answered(o: Outcome, ok: bool, out: ReplyObject?)
      reads this, tower.open, tower.sealed
    {
      && Core()
      && match o
         case Out(r, rest) =>
           ok && err == 0 && Abs() == State([], None, rest) && out != null && Shows(out, r, tower.sealed)
         case Wait(m) => ok && err == 0 && Abs() == m && out == null
         case Bad(e) => !ok && err == ERR_PROTOCOL && error == Some(e) && out == null
         case _ => false
    }

    /** redisReaderGetReply: what it returns and leaves behind is the machine's run. */
    method GetReply() returns (ok: bool, out: ReplyObject?)
      requires Settled()
      modifies this, tower.open
      ensures Settled()
      ensures old(err) != 0 ==> !ok && out == null && err == old(err) && error == old(error) && tower == old(tower)
      ensures old(err) == 0 ==> Answered(Run(old(Abs())), ok, out)
      ensures old(tower).sealed <= tower.sealed && tower.open !! tower.sealed
      ensures fresh(tower.open + tower.sealed - old(tower.open + tower.sealed))
    {
      hide SlotsOk, Shows, Run, Step, TowerOk, Answered, Ok;
      out := null;
      TowerApart(rstack, ridx, tower);
      if err != 0 {
        return false, null;
      }
      RunOk(Abs());
      if len == 0 {
        RunOfNothing(Abs());
        Waiting(Abs());
        return true, null;
      }
      ok, out := ReadOn(Run(Abs()));
    }

    /** The rest of redisReaderGetReply, when there is input. */
    method ReadOn(ghost o: Outcome) returns (ok: bool, out: ReplyObject?)
      requires Valid() && err == 0 && o == Run(Abs()) && (o.Wait? ==> Ok(o.state))
      modifies this, tower.open
      ensures Settled() && Answered(o, ok, out)
      ensures old(tower).sealed <= tower.sealed && tower.open !! tower.sealed
      ensures fresh(tower.open + tower.sealed - old(tower.open + tower.sealed))
    {
      hide SlotsOk, Shows, Run, Step, TowerOk, Reached, Answered, Ok;
      out := null;
      StartReply();
      ok := ProcessItems();
      if err == 0 {
        out := Conclude(o, ok);
        ok := true;
      } else {
        Failed(o, ok);
      }
      TowerApart(rstack, ridx, tower);
    }

    lemma Waiting(m: State)
      requires Settled() && err == 0 && Abs() == m
      ensures Answered(Wait(m), true, null) && tower.open !! tower.sealed
    {
      hide SlotsOk, Shows, Ok;
    }

    lemma Failed(o: Outcome, ok: bool)
      requires Reached(o, ok) && err != 0
      ensures Settled() && Answered(o, ok, null)
    {
      hide SlotsOk, Shows;
    }

    /** A fresh reader hands out the reply that the bytes denote. */
    lemma FirstReply(b: bytes, r: Reply, rest: bytes, ok: bool, out: ReplyObject?)
      requires ParseItem(b, 0) == Done(r, rest) && Answered(FromFresh(b), ok, out)
      ensures ok && err == 0 && out != null && Shows(out, r, tower.sealed) && Abs() == State([], None, rest)
    {
      TopLevelIsParse(b);
      hide Run, ParseItem, Shows, SlotsOk;
    }

    /** What GetReply hands out for a status and for an error: the type code goes by the first byte. */
    lemma LineHandedOut(line: bytes, rest: bytes, ok: bool, out: ReplyObject?)
      requires OneLine(line)
      ensures Answered(FromFresh([43] + line + [13, 10] + rest), ok, out) ==>
                ok && out != null && out.typ == 5 && out.str == line
      ensures Answered(FromFresh([45] + line + [13, 10] + rest), ok, out) ==>
                ok && out != null && out.typ == 6 && out.str == line
      ensures Answered(FromFresh([58] + line + [13, 10] + rest), ok, out) && ParseLL(line).Some? ==>
                ok && out != null && out.typ == 3 && out.integer == ParseLL(line).value
    {
      hide *;
      LinesOnTheWire(line, rest, 0);
      if Answered(FromFresh([43] + line + [13, 10] + rest), ok, out) {
        HandedOut([43] + line + [13, 10] + rest, Status(line), rest, ok, out);
      }
      if Answered(FromFresh([45] + line + [13, 10] + rest), ok, out) {
        HandedOut([45] + line + [13, 10] + rest, Err(line), rest, ok, out);
      }
      if Answered(FromFresh([58] + line + [13, 10] + rest), ok, out) && ParseLL(line).Some? {
        HandedOut([58] + line + [13, 10] + rest, Int(ParseLL(line).value), rest, ok, out);
      }
    }

    lemma HandedOut(b: bytes, r: Reply, rest: bytes, ok: bool, out: ReplyObject?)
      requires ParseItem(b, 0) == Done(r, rest) && Answered(FromFresh(b), ok, out)
      ensures ok && out != null
      ensures r.Str? ==> out.typ == 1 && out.str == r.text
      ensures r.Arr? ==> out.typ == 2 && out.element.Length == |r.items|
      ensures r.Int? ==> out.typ == 3 && out.integer == r.value
      ensures r.Nil? ==> out.typ == 4
      ensures r.Status? ==> out.typ == 5 && out.str == r.text
      ensures r.Err? ==> out.typ == 6 && out.str == r.text
    {
      hide *;
      FirstReply(b, r, rest, ok, out);
      TypeCodes(out, r, tower.sealed);
    }

    /** The same for a bulk string, an array and nil. */
    lemma CountHandedOut(line: bytes, rest: bytes, ok: bool, out: ReplyObject?)
      requires OneLine(line) && ParseLL(line).Some?
      ensures var n := ParseLL(line).value;
              Answered(FromFresh([36] + line + [13, 10] + rest), ok, out) ==>
                && (0 <= n && n + 2 <= |rest| ==> ok && out != null && out.typ == 1 && out.str == rest[..n])
                && (n == -1 ==> ok && out != null && out.typ == 4)
      ensures var n := ParseLL(line).value;
              Answered(FromFresh([42] + line + [13, 10] + rest), ok, out) ==>
                && (0 <= n <= 2147483647 && ParseItems(rest, n, 1).Done? ==>
                      ok && out != null && out.typ == 2 && out.element.Length == n)
                && (n == -1 ==> ok && out != null && out.typ == 4)
    {
      hide *;
      var n, b, a := ParseLL(line).value, [36] + line + [13, 10] + rest, [42] + line + [13, 10] + rest;
      BulkOnTheWire(line, rest, 0);
      ArrayOnTheWire(line, rest, 0);
      if Answered(FromFresh(b), ok, out) {
        if n == -1 { HandedOut(b, Nil, rest, ok, out); }
        else if 0 <= n && n + 2 <= |rest| { HandedOut(b, Str(rest[..n]), rest[n + 2..], ok, out); }
      }
      if Answered(FromFresh(a), ok, out) {
        if n == -1 { HandedOut(a, Nil, rest, ok, out); }
        else if 0 <= n <= 2147483647 {
          var p := ParseItems(rest, n, 1);
          if p.Done? { HandedOut(a, Arr(p.value), p.rest, ok, out); }
        }
      }
    }

    /** The tail of redisReaderGetReply when no error occurred: compact, and hand out a finished reply. */
    method Conclude(ghost o: Outcome, ghost ok: bool) returns (out: ReplyObject?)
      requires Reached(o, ok) && err == 0 && !o.Next? && (o.Wait? ==> Ok(o.state))
      modifies this`buf, this`pos, this`len, this`reply
      ensures Settled() && Answered(o, true, out)
    {
      hide SlotsOk, Shows, Run, Step;
      Compact();
      out := null;
      if ridx == -1 {
        out := reply;
        reply := null;
      }
    }
  }

  /** An sds index: negative ones count from the end, and none lies before the start. */
  function SdsIndex(i: int, n: nat): nat {
    if i >= 0 then i else if n + i < 0 then 0 else n + i
  }

  /** sdsrange: the bytes from start to end inclusive. */
  method SdsRange(s: bytes, start: int, end: int) returns (r: bytes)
    ensures var a, b := SdsIndex(start, |s|), SdsIndex(end, |s|);
            r == if a > b || a >= |s| then [] else if b < |s| then s[a..b + 1] else s[a..]
  {
    var n, first, last := |s|, start, end;
    if n == 0 {
      return s;
    }
    if first < 0 {
      first := if n + first < 0 then 0 else n + first;
    }
    if last < 0 {
      last := if n + last < 0 then 0 else n + last;
    }
    var newlen := if first > last then 0 else last - first + 1;
    if newlen != 0 {
      if first >= n {
        newlen := 0;
      } else if last >= n {
        last := n - 1;
        newlen := if first > last then 0 else last - first + 1;
      }
    } else {
      first := 0;
    }
    r := if newlen == 0 then [] else s[first..first + newlen];
  }

  /** The objects show the replies, one for one. */
  ghost predicate ShowsAll(os: seq<ReplyObject>, rs: seq<Reply>, sealed: set<object>)
    reads sealed
  {
    |os| == |rs| && forall i :: 0 <= i < |os| ==> Shows(os[i], rs[i], sealed)
  }

  lemma ShowsAllMore(os: seq<ReplyObject>, rs: seq<Reply>, small: set<object>, large: set<object>)
    requires ShowsAll(os, rs, small) && small <= large
    ensures ShowsAll(os, rs, large)
  {
    forall i | 0 <= i < |os| ensures Shows(os[i], rs[i], large) {
      ShowsMore(os[i], rs[i], small, large);
    }
  }

  lemma ShowsNone(sealed: set<object>)
    ensures ShowsAll([], [], sealed)
  {
  }

  lemma ShowsOneMore(os: seq<ReplyObject>, rs: seq<Reply>, o: ReplyObject, r: Reply,
                     small: set<object>, large: set<object>)
    requires ShowsAll(os, rs, small) && small <= large && Shows(o, r, large)
    ensures ShowsAll(os + [o], rs + [r], large)
  {
    ShowsAllMore(os, rs, small, large);
  }

  ghost predicate AtEnd(r: RedisReader, end: End)
    reads r, r.tower.open, r.tower.sealed
  {
    && r.Settled()
    && match end
       case Live(m) => r.err == 0 && r.Abs() == m
       case Dead(e) => r.err == ERR_PROTOCOL && r.error == Some(e)
  }

  /** The reader and the arrays still written to lie apart from what was handed out. */
  lemma Apart(r: RedisReader, end: End)
    requires AtEnd(r, end)
    ensures r !in r.tower.sealed && r.tower.open !! r.tower.sealed
  {
    hide SlotsOk, Ok;
  }

  lemma DrainStart(m: State)
    requires Ok(m)
    ensures Drain(m) == Append(Drained([], Live(m)), Drain(m))
  {
    hide Drain;
    assert [] + Drain(m).replies == Drain(m).replies;
  }

  /** Where a run leaves the reader. */
  ghost function After(o: Outcome): End
    requires !o.Next?
  {
    match o
    case Out(_, rest) => Live(State([], None, rest))
    case Wait(m) => Live(m)
    case Bad(e) => Dead(e)
  }

  /** Taking one reply, or none, off what a drain will give. */
  lemma DrainStep(m: State, shown: seq<Reply>, d: Drained)
    requires Ok(m) && d == Append(Drained(shown, Live(m)), Drain(m))
    ensures var o := Run(m);
            if o.Out? then
              var m' := State([], None, o.rest);
              && d == Append(Drained(shown + [o.reply], Live(m')), Drain(m')) && |o.rest| < |m.input|
              && After(o) == Live(m') && Ok(m')
            else d == Drained(shown, After(o))
  {
    hide Step;
    var o := Run(m);
    if o.Out? {
      var rest := Drain(State([], None, o.rest));
      assert shown + ([o.reply] + rest.replies) == (shown + [o.reply]) + rest.replies;
    }
  }

  /** One call of redisReaderGetReply on a live reader. */
  method TakeReply(r: RedisReader, ghost m: State) returns (reply: ReplyObject?)
    requires AtEnd(r, Live(m)) && Ok(m)
    modifies r, r.tower.open
    ensures AtEnd(r, After(Run(m))) && (reply != null <==> Run(m).Out?)
    ensures reply != null ==> Shows(reply, Run(m).reply, r.tower.sealed)
    ensures old(r.tower).sealed <= r.tower.sealed && r.tower.open !! r.tower.sealed && r !in r.tower.sealed
    ensures fresh(r.tower.open + r.tower.sealed - old(r.tower.open + r.tower.sealed))
  {
    hide SlotsOk, Shows, Run, Ok;
    var ok;
    ok, reply := r.GetReply();
  }

  /** Part of what a drain d gives has been taken; the reader stands at m. */
  ghost predicate Draining(r: RedisReader, m: State, out: seq<ReplyObject>, shown: seq<Reply>, d: Drained)
    reads r, r.tower.open, r.tower.sealed
  {
    && AtEnd(r, Live(m)) && Ok(m) && r.tower.open !! r.tower.sealed && r !in r.tower.sealed
    && ShowsAll(out, shown, r.tower.sealed) && d == Append(Drained(shown, Live(m)), Drain(m))
  }

  /** One round of the drain. */
  method DrainOne(r: RedisReader, out: seq<ReplyObject>, ghost m: State, ghost shown: seq<Reply>, ghost d: Drained)
    returns (more: bool, out': seq<ReplyObject>, ghost m': State, ghost shown': seq<Reply>)
    requires Draining(r, m, out, shown, d)
    modifies r, r.tower.open
    ensures if more then Draining(r, m', out', shown', d) && |m'.input| < |m.input|
            else ShowsAll(out', d.replies, r.tower.sealed) && AtEnd(r, d.end)
    ensures old(r.tower).sealed <= r.tower.sealed && r.tower.open !! r.tower.sealed
    ensures fresh(r.tower.open + r.tower.sealed - old(r.tower.open + r.tower.sealed))
  {
    ghost var before, o := r.tower.sealed, Run(m);
    hide AtEnd, Ok, ShowsAll, Drain, Append, Shows, Run, After;
    DrainStep(m, shown, d);
    m', shown' := m, shown;
    var reply := TakeReply(r, m);
    more := reply != null;
    if more {
      ShowsOneMore(out, shown, reply, o.reply, before, r.tower.sealed);
      out' := out + [reply];
      m', shown' := State([], None, o.rest), shown + [o.reply];
    } else {
      ShowsAllMore(out, shown, before, r.tower.sealed);
      out' := out;
    }
  }

  /** Taking every available reply, as redisProcessCallbacks does. */
  method DrainReader(r: RedisReader, ghost m0: State) returns (out: seq<ReplyObject>)
    requires AtEnd(r, Live(m0)) && Ok(m0)
    modifies r, r.tower.open
    ensures var d := Drain(m0);
            ShowsAll(out, d.replies, r.tower.sealed) && AtEnd(r, d.end)
    ensures old(r.tower).sealed <= r.tower.sealed && r.tower.open !! r.tower.sealed
    ensures fresh(r.tower.open + r.tower.sealed - old(r.tower.open + r.tower.sealed))
  {
    out := [];
    ghost var m, shown, d := m0, [], Drain(m0);
    ShowsNone(r.tower.sealed);
    DrainStart(m);
    Apart(r, Live(m));
    assert Draining(r, m, out, shown, d);
    hide *;
    var more := true;
    while more
      invariant if more then Draining(r, m, out, shown, d)
                else ShowsAll(out, d.replies, r.tower.sealed) && AtEnd(r, d.end)
      invariant old(r.tower).sealed <= r.tower.sealed && r.tower.open !! r.tower.sealed
      invariant fresh(r.tower.open + r.tower.sealed - old(r.tower.open + r.tower.sealed))
      decreases more, |m.input|
    {
      more, out, m, shown := DrainOne(r, out, m, shown, d);
    }
  }

  /** What a readable event gives: everything the new piece completes, or nothing on a dead reader. */
  ghost function Delivered(end: End, piece: bytes): Drained
    requires end.Live? ==> Ok(end.state)
  {
    if end.Live? then Drain(RespMachine.Feed(end.state, piece)) else Drained([], end)
  }

  /** One readable event: feed what arrived and take every reply it completes. */
  method Deliver(r: RedisReader, piece: bytes, ghost end: End) returns (out: seq<ReplyObject>)
    requires AtEnd(r, end) && (end.Live? ==> Ok(end.state))
    modifies r, r.tower.open
    ensures var d := Delivered(end, piece);
            ShowsAll(out, d.replies, r.tower.sealed) && AtEnd(r, d.end)
    ensures old(r.tower).sealed <= r.tower.sealed && r.tower.open !! r.tower.sealed
    ensures fresh(r.tower.open + r.tower.sealed - old(r.tower.open + r.tower.sealed))
  {
    hide SlotsOk, Shows, Drain;
    var ok := r.Feed(piece);
    if !ok {
      return [];
    }
    out := DrainReader(r, RespMachine.Feed(end.state, piece));
  }

  lemma ShowsAllJoin(os: seq<ReplyObject>, rs: seq<Reply>, os': seq<ReplyObject>, rs': seq<Reply>,
                     small: set<object>, large: set<object>)
    requires ShowsAll(os, rs, small) && ShowsAll(os', rs', large) && small <= large
    ensures ShowsAll(os + os', rs + rs', large)
  {
    ShowsAllMore(os, rs, small, large);
  }

  lemma PiecesStep(end: End, pieces: seq<bytes>)
    requires pieces != [] && (end.Live? ==> Ok(end.state))
    ensures var d := Delivered(end, pieces[0]);
            && (d.end.Live? ==> Ok(d.end.state))
            && DrainPieces(end, pieces) == Append(d, DrainPieces(d.end, pieces[1..]))
  {
    hide Drain;
    if end.Live? {
      DrainOk(RespMachine.Feed(end.state, pieces[0]));
    }
  }

  /** A run of readable events. */
  method DeliverAll(r: RedisReader, pieces: seq<bytes>, ghost end: End) returns (out: seq<ReplyObject>)
    requires AtEnd(r, end) && (end.Live? ==> Ok(end.state))
    modifies r, r.tower.open
    ensures var d := DrainPieces(end, pieces);
            ShowsAll(out, d.replies, r.tower.sealed) && AtEnd(r, d.end)
    ensures old(r.tower).sealed <= r.tower.sealed && r.tower.open !! r.tower.sealed
    ensures fresh(r.tower.open + r.tower.sealed - old(r.tower.open + r.tower.sealed))
    decreases |pieces|
  {
    hide SlotsOk, Shows, ShowsAll, Ok, Drain, Delivered, AtEnd;
    out := [];
    ShowsNone(r.tower.sealed);
    Apart(r, end);
    if pieces != [] {
      PiecesStep(end, pieces);
      ghost var d := Delivered(end, pieces[0]);
      var first := Deliver(r, pieces[0], end);
      Apart(r, d.end);
      ghost var before := r.tower.sealed;
      var rest := DeliverAll(r, pieces[1..], d.end);
      ShowsAllJoin(first, d.replies, rest, DrainPieces(d.end, pieces[1..]).replies, before, r.tower.sealed);
      out := first + rest;
    }
  }

  /**
   * A connection's whole life: pieces arrive, each is fed and every available reply is taken. The
   * objects handed out show exactly the replies the joined input denotes, and the reader ends as
   * if it had been given everything at once.
   */
  method ReadStream(pieces: seq<bytes>) returns (r: RedisReader, out: seq<ReplyObject>)
    ensures var d := Drain(State([], None, Concat(pieces)));
            ShowsAll(out, d.replies, r.tower.sealed) && AtEnd(r, d.end)
  {
    r := new RedisReader();
    SplitIndependence(START, pieces);
    assert RespMachine.Feed(START, Concat(pieces)) == State([], None, Concat(pieces));
    out := DeliverAll(r, pieces, Live(START));
  }

  /** A reply object without children, with its type and payload. */
  method NewLeaf(r: Reply, ghost sealed: set<object>) returns (obj: ReplyObject)
    requires !r.Arr?
    ensures fresh(obj) && fresh(obj.element) && Shows(obj, r, sealed)
  {
    match r
    case Str(text) => obj := new ReplyObject(REPLY_STRING, 0, text, 0);
    case Status(text) => obj := new ReplyObject(REPLY_STATUS, 0, text, 0);
    case Err(text) => obj := new ReplyObject(REPLY_ERROR, 0, text, 0);
    case Int(value) => obj := new ReplyObject(REPLY_INTEGER, value, [], 0);
    case Nil => obj := new ReplyObject(REPLY_NIL, 0, [], 0);
  }

  /** A step on a line or bulk item, by what its decoding gives. */
  lemma TypedLeaf(stack: seq<Frame>, t: byte, s: bytes, p: Parsed<Reply>)
    requires IsType(t) && t != STAR && p == if t == DOLLAR then ParseBulk(s) else ParseLine(t, s)
    ensures p.More? ==> Typed(stack, t, s) == Wait(State(stack, Some(t), s))
    ensures p.Fail? ==> Typed(stack, t, s) == Bad(p.error)
    ensures p.Done? ==> Typed(stack, t, s) == Ascend(stack, p.value, p.rest)
  {
    hide ParseBulk, ParseLine, Ascend;
  }

  /** Decoding a line or bulk item at the head of s; used counts the bytes it takes. */
  method DecodeLeaf(t: byte, s: bytes) returns (p: Parsed<Reply>, used: nat)
    requires IsType(t) && t != STAR
    ensures p == if t == DOLLAR then ParseBulk(s) else ParseLine(t, s)
    ensures p.Done? ==> used <= |s| && p.rest == s[used..] && !p.value.Arr?
  {
    var k := SeekNewline(s);
    if k < 0 {
      return More, 0;
    }
    used := k + 2;
    if t == DOLLAR {
      var n := String2ll(s[..k]);
      if n == None {
        return Fail(BadBulkLength), 0;
      }
      if n.value < -1 {
        return Fail(BulkOutOfRange), 0;
      }
      if n.value == -1 {
        return Done(Nil, s[used..]), used;
      }
      used := used + n.value + 2;
      if used > |s| {
        return More, 0;
      }
      p := Done(Str(s[k + 2..k + 2 + n.value]), s[used..]);
    } else if t == COLON {
      var n := String2ll(s[..k]);
      if n == None {
        return Fail(BadInteger), 0;
      }
      p := Done(Int(n.value), s[used..]);
    } else {
      p := Done(if t == PLUS then Status(s[..k]) else Err(s[..k]), s[used..]);
    }
  }

  /** Decoding an array's element count for task index d. */
  method DecodeHeader(s: bytes, d: nat) returns (p: Parsed<int>, used: nat)
    ensures p == ParseHeader(s, d)
    ensures p.Done? ==> used <= |s| && p.rest == s[used..]
  {
    used := 0;
    if d == MAX_DEPTH {
      return Fail(NestedTooDeep), 0;
    }
    var k := SeekNewline(s);
    if k < 0 {
      return More, 0;
    }
    var n := String2ll(s[..k]);
    if n == None {
      return Fail(BadMultiBulkLength), 0;
    }
    if n.value < -1 || n.value > INT_MAX {
      return Fail(MultiBulkOutOfRange), 0;
    }
    used := k + 2;
    p := Done(n.value, s[used..]);
  }

  /** seekNewline: the offset of the first CR LF, or -1. */
  method SeekNewline(s: bytes) returns (k: int)
    ensures k == if FindCRLF(s) == |s| then -1 else FindCRLF(s)
  {
    var pos, last := 0, |s| - 1;
    while pos < last
      invariant 0 <= pos && (pos <= last || |s| == 0)
      invariant forall i: nat :: i < pos ==> !CRLFAt(s, i)
    {
      while pos < last && s[pos] != CR
        invariant 0 <= pos <= last
        invariant forall i: nat :: i < pos ==> !CRLFAt(s, i)
      {
        pos := pos + 1;
      }
      if pos == last {
        return -1;
      }
      if s[pos + 1] == LF {
        FindCRLFUnique(s, pos);
        return pos;
      }
      pos := pos + 1;
    }
    return -1;
  }
}
