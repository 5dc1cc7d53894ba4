/** The life of a task on the parent's side of the bridge (src/bridge/bridge_in/yf_bridge_in.c):
    sent, then completed by a result or by its timer, with a count of running tasks per child. */
module Bridge {
  import opened Counting
  import opened Seqs
  import opened IdSeed
  import opened NodePool

  /** The timer event of a task: none, registered with a timeout, or expired and waiting on
      timeout_list for its handler to be called. */
  datatype TaskTimer = Off | Armed(ms: int) | Waiting

  /** yf_task_ctx_t */
  datatype Ctx = Ctx(child: int, timer: TaskTimer)

  /** yf_free_tm_evt does not take a waiting timer off timeout_list: its handler is still called. */
  function Freed(t: TaskTimer): TaskTimer { if t == Waiting then Waiting else Off }

  const FAILED := -1

  /** The 20-bit timeout field of task_info_t, as line 230 fills it. */
  function TimeoutField(ms: int): int
    requires ms >= 0
  {
    (if 0x100000 < ms then 0x100000 else ms) % 0x100000
  }

  /** The child checks the timeout that was asked for only below 2^20 ms; from there on it checks none. */
  lemma ChildTimeout(ms: int)
    requires ms >= 0
    ensures TimeoutField(ms) == ms <==> ms < 0x100000
    ensures ms >= 0x100000 ==> TimeoutField(ms) == 0
  {
  }

  /** Tasks that child `c` has not answered: nodes in use whose completion has not begun. */
  ghost function Running(heads: seq<Head>, ctxs: seq<Ctx>, inCallback: set<int>, c: int): set<int> {
    set n | 0 <= n < |heads| && n < |ctxs| && heads[n].used && n !in inCallback && ctxs[n].child == c
  }

  ghost predicate Counted(execut: seq<int>, heads: seq<Head>, ctxs: seq<Ctx>, inCallback: set<int>) {
    forall c :: 0 <= c < |execut| ==> execut[c] == |Running(heads, ctxs, inCallback, c)|
  }

  lemma AddOne(s: set<int>, s': set<int>, n: int, more: bool)
    requires n !in s && s' == if more then s + {n} else s
    ensures |s'| == |s| + if more then 1 else 0
  {
  }

  lemma RunningSent(heads: seq<Head>, ctxs: seq<Ctx>, cb: set<int>, n: int, h: Head, x: Ctx, c: int)
    requires |heads| == |ctxs| && 0 <= n < |heads| && !heads[n].used && n !in cb && h.used
    ensures n !in Running(heads, ctxs, cb, c)
    ensures Running(heads[n := h], ctxs[n := x], cb, c)
         == if c == x.child then Running(heads, ctxs, cb, c) + {n} else Running(heads, ctxs, cb, c)
  {
  }

  /** A node handed to child `c` adds one to its count and to no other. */
  lemma SentCount(execut: seq<int>, heads: seq<Head>, ctxs: seq<Ctx>, cb: set<int>, n: int, h: Head, x: Ctx)
    requires Counted(execut, heads, ctxs, cb) && |heads| == |ctxs| && 0 <= n < |heads| && !heads[n].used && n !in cb
    requires h.used && 0 <= x.child < |execut|
    ensures Counted(execut[x.child := execut[x.child] + 1], heads[n := h], ctxs[n := x], cb)
  {
    hide Running;
    forall c {:trigger Running(heads[n := h], ctxs[n := x], cb, c)} | 0 <= c < |execut|
      ensures execut[x.child := execut[x.child] + 1][c] == |Running(heads[n := h], ctxs[n := x], cb, c)|
    {
      RunningSent(heads, ctxs, cb, n, h, x, c);
      AddOne(Running(heads, ctxs, cb, c), Running(heads[n := h], ctxs[n := x], cb, c), n, c == x.child);
    }
  }

  lemma RunningBegun(heads: seq<Head>, ctxs: seq<Ctx>, cb: set<int>, n: int, x: Ctx, c: int)
    requires |heads| == |ctxs| && 0 <= n < |heads| && heads[n].used && n !in cb && x.child == ctxs[n].child
    ensures n !in Running(heads, ctxs[n := x], cb + {n}, c)
    ensures var s := Running(heads, ctxs[n := x], cb + {n}, c);
      Running(heads, ctxs, cb, c) == if c == x.child then s + {n} else s
  {
  }

  lemma BegunCount(execut: seq<int>, heads: seq<Head>, ctxs: seq<Ctx>, cb: set<int>, n: int, x: Ctx)
    requires Counted(execut, heads, ctxs, cb) && |heads| == |ctxs| && 0 <= n < |heads| && heads[n].used && n !in cb
    requires 0 <= ctxs[n].child < |execut| && x.child == ctxs[n].child
    ensures Counted(execut[x.child := execut[x.child] - 1], heads, ctxs[n := x], cb + {n})
  {
    hide Running;
    forall c {:trigger Running(heads, ctxs[n := x], cb + {n}, c)} | 0 <= c < |execut|
      ensures execut[x.child := execut[x.child] - 1][c] == |Running(heads, ctxs[n := x], cb + {n}, c)|
    {
      RunningBegun(heads, ctxs, cb, n, x, c);
      AddOne(Running(heads, ctxs[n := x], cb + {n}, c), Running(heads, ctxs, cb, c), n, c == x.child);
    }
  }

  lemma EndedCount(execut: seq<int>, heads: seq<Head>, ctxs: seq<Ctx>, cb: set<int>, n: int, h: Head)
    requires Counted(execut, heads, ctxs, cb) && |heads| == |ctxs| && 0 <= n < |heads| && !h.used
    requires (n in cb || !heads[n].used)
    ensures Counted(execut, heads[n := h], ctxs, cb - {n})
  {
    forall c
      ensures Running(heads[n := h], ctxs, cb - {n}, c) == Running(heads, ctxs, cb, c)
    {
    }
  }

  /** The ids: those accepted are running, in their callback, or completed; no completed one is running. */
  ghost predicate Ledger(pool: Pool, cb: set<int>, accepted: set<int>, completed: seq<int>)
    requires Chunks([pool], |pool.heads|)
  {
    && NoDup(completed)
    && (forall n :: 0 <= n < |pool.heads| && pool.heads[n].used ==> IdOf(pool, n) in accepted)
    && (forall id :: id in completed ==> id in accepted)
    && (forall id :: id in accepted ==>
          (id in completed <==> !(LiveIn([pool], |pool.heads|, id) && OffsetOf(id) !in cb)))
  }

  function HashChild(hash: nat, children: int): (r: int)
    requires children > 0
    ensures 0 <= r < children
  {
    hash % children
  }

  /** The parent's books: the fields of yf_bridge_in_t that tasks move, and what has happened so far. */
  datatype Book = Book(pool: Pool, ctxs: seq<Ctx>, execut: seq<int>, inCallback: set<int>,
                       issued: set<int>, accepted: set<int>, completed: seq<int>)

  ghost predicate Places(ids: set<int>, n: int) {
    forall id :: id in ids ==> 0 <= id && ChunkOf(id) == 0 && OffsetOf(id) < n
  }

  ghost predicate BookShape(b: Book, children: int, groups: int) {
    && |b.execut| == children && b.pool.group < groups
    && PoolOk(b.pool) && b.pool.index == 0 && |b.ctxs| == |b.pool.heads|
    && (forall n :: n in b.inCallback ==> 0 <= n < |b.pool.heads| && b.pool.heads[n].used)
    && (forall n :: 0 <= n < |b.ctxs| && b.pool.heads[n].used ==> 0 <= b.ctxs[n].child < children)
    && (forall n :: 0 <= n < |b.ctxs| && b.pool.heads[n].used && b.ctxs[n].timer != Off ==> n !in b.inCallback)
    && b.accepted <= b.issued && Places(b.accepted, |b.pool.heads|)
  }

  /** The books are right; what they say of ids holds until seeds have rolled over. */
  ghost predicate BookOk(b: Book, children: int, groups: int, rolled: bool, handed: set<int>) {
    && BookShape(b, children, groups)
    && Counted(b.execut, b.pool.heads, b.ctxs, b.inCallback)
    && (!rolled ==> Told([b.pool], |b.pool.heads|, b.issued, handed)
                    && Ledger(b.pool, b.inCallback, b.accepted, b.completed))
  }

  /** The books after a task was sent with the seed drawn, and after one was refused. */
  function SentBook(b: Book, seed: int, x: Ctx): Book
    requires b.pool.free != [] && 0 <= b.pool.free[0] < |b.pool.heads| == |b.ctxs| && 0 <= x.child < |b.execut|
  {
    var p, n := TakeNode(b.pool, seed), b.pool.free[0];
    b.(pool := p, ctxs := b.ctxs[n := x], execut := b.execut[x.child := b.execut[x.child] + 1],
       issued := b.issued + {IdOf(p, n)}, accepted := b.accepted + {IdOf(p, n)})
  }

  function RefusedBook(b: Book, seed: int): Book
    requires b.pool.free != [] && 0 <= b.pool.free[0] < |b.pool.heads|
  {
    var p, n := TakeNode(b.pool, seed), b.pool.free[0];
    b.(pool := GiveNode(p, n), issued := b.issued + {IdOf(p, n)})
  }

  ghost predicate LiveNow(pool: Pool, id: int) {
    Chunks([pool], |pool.heads|) && LiveIn([pool], |pool.heads|, id)
  }

  class Bridge {
    const childNum: int
    const hashed: bool       // task_dispatch_type is YF_TASK_DISTPATCH_HASH_MOD
    const procs: bool        // children are processes
    const maxTask: int
    const seeds: SeedSpace
    var pool: Pool
    var ctxs: seq<Ctx>
    var execut: seq<int>     // task_execut
    var inCallback: set<int>         // nodes whose result handler is running: the call stack
    ghost var issued: set<int>       // every id drawn
    ghost var accepted: set<int>     // ids returned to callers
    ghost var completed: seq<int>    // ids passed to the result handler, in order

    ghost function Now(): Book
      reads this
    {
      Book(pool, ctxs, execut, inCallback, issued, accepted, completed)
    }

    ghost predicate Valid()
      reads this, seeds
    {
      0 < childNum && seeds.Valid() && BookOk(Now(), childNum, |seeds.groups|, seeds.rolled, seeds.handed)
    }

    /** The id's task has not been freed. */
    ghost predicate Live(id: int)
      reads this
    {
      LiveNow(pool, id)
    }

    /** yf_bridge_create, as far as tasks go. */
    constructor (children: int, byHash: bool, inProcs: bool, maxTasks: int, maxSize: int, space: SeedSpace, now: int)
      requires 0 < children && 0 < maxTasks < MAX_NODES && space.Valid() && ClockOk(now)
      modifies space
      ensures Valid() && issued == accepted == {} && completed == [] && inCallback == {} && seeds == space
      ensures space.Advances() && space.handed == old(space.handed)
      ensures old(space.used) > 0 ==> space.Reach() == old(space.Reach()) + SLICE
      ensures old(space.used) == 0 ==> space.Reach() < now + 2 * SLICE
      ensures execut == seq(children, _ => 0) && childNum == children && hashed == byHash && procs == inProcs
      ensures maxTask == maxSize && |pool.heads| == |ctxs| == pool.freeSize == maxTasks
    {
      childNum, hashed, procs, maxTask, seeds := children, byHash, inProcs, maxSize, space;
      execut, ctxs := seq(children, _ => 0), seq(maxTasks, _ => Ctx(0, Off));
      inCallback, issued, accepted, completed := {}, {}, {}, [];
      pool := NewPool(maxTasks, 0, 0);
      new;
      var ok := space.GroupInit(0, now);
      pool := NewPool(maxTasks, 0, |space.groups| - 1);
      NewPoolOk(maxTasks, 0, |space.groups| - 1);
    }

    /** yf_bridge_get_idle_tq: the first of the children with the fewest running tasks. */
    method IdleChild() returns (r: int)
      requires |execut| == childNum > 0 && forall c :: 0 <= c < childNum ==> 0 <= execut[c] < 0xfffffffe
      ensures 0 <= r < childNum && (forall j :: 0 <= j < childNum ==> execut[r] <= execut[j])
      ensures forall j :: 0 <= j < r ==> execut[j] > execut[r]
    {
      var cnt := 0xfffffffe;
      r := 0;
      for i := 0 to childNum
        invariant i == 0 ==> r == 0 && cnt == 0xfffffffe
        invariant i > 0 ==> 0 <= r < i && cnt == execut[r]
        invariant forall j :: 0 <= j < i ==> execut[j] >= cnt && (j < r ==> execut[j] > cnt)
      {
        if execut[i] < cnt {
          cnt, r := execut[i], i;
        }
      }
    }

    /** Lines 167-175 and the choice made when the queue is locked: the child a task goes to. */
    method ChildFor(hash: nat) returns (r: int)
      requires |execut| == childNum > 0 && forall c :: 0 <= c < childNum ==> 0 <= execut[c] < 0xfffffffe
      ensures 0 <= r < childNum
      ensures hashed ==> r == HashChild(hash, childNum)
      ensures !hashed ==> forall j :: 0 <= j < childNum ==> execut[r] <= execut[j]
    {
      if hashed {
        return HashChild(hash, childNum);
      }
      r := IdleChild();
    }

    lemma CountsSmall()
      requires Valid()
      ensures forall c :: 0 <= c < childNum ==> 0 <= execut[c] < 0xfffffffe
    {
      forall c | 0 <= c < childNum
        ensures 0 <= execut[c] < 0xfffffffe
      {
        forall x | x in Running(pool.heads, ctxs, inCallback, c)
          ensures x in Range(|pool.heads|)
        {
          InRange(|pool.heads|, x);
        }
        RangeCard(Running(pool.heads, ctxs, inCallback, c), |pool.heads|);
      }
    }

    /** Lines 177-188: a node with a new id. */
    method Draw(now: int) returns (node: int, id: int, ghost drawn: int)
      requires ClockOk(now) && seeds.Valid() && pool.group < |seeds.groups|
      requires pool.free != [] && 0 <= pool.free[0] < |pool.heads|
      modifies this`pool, this`issued, seeds
      ensures seeds.Advances() && |seeds.groups| == old(|seeds.groups|) && seeds.Reach() == old(seeds.Reach()) + 1
      ensures seeds.handed == old(seeds.handed) + {drawn} && drawn >= 0
      ensures !old(seeds.rolled) ==> drawn !in old(seeds.handed) && drawn < LIMIT
      ensures node == old(pool).free[0] && pool == TakeNode(old(pool), drawn % LIMIT)
      ensures id == IdOf(pool, node) && issued == old(issued) + {id} && pool.freeSize == old(pool.freeSize) - 1
    {
      hide SeedSpace.Valid, MakeId, Drew, Multis;
      var seed := seeds.Alloc(pool.group, now);
      drawn := seed;
      node := pool.free[0];
      pool := TakeNode(pool, seed % LIMIT);    // id_pre has 31 bits
      id := IdOf(pool, node);
      issued := issued + {id};
    }

    /** yf_send_task. The flags say whether the queue can be locked, a timer event is left and the
        push succeeds. A refused task leaves no trace but the seed it drew. */
    method SendTask(len: int, hash: nat, timeoutMs: int, driver: bool, lockOk: bool, tmOk: bool, pushOk: bool, now: int)
      returns (id: int, childMs: int)
      requires Valid() && ClockOk(now) && 0 <= timeoutMs
      modifies this, seeds
      ensures Valid() && seeds.Advances() && old(seeds.Reach()) <= seeds.Reach() <= old(seeds.Reach()) + 1
      ensures var armed := driver && (timeoutMs > 0 || procs);
        id == FAILED <==> len > maxTask || old(pool.freeSize) == 0 || !lockOk || (armed && !tmOk) || !pushOk
      ensures |ctxs| == |old(ctxs)|
      ensures forall n :: 0 <= n < |ctxs| && (id != FAILED ==> n != OffsetOf(id)) ==> ctxs[n] == old(ctxs)[n]
      ensures !seeds.rolled ==> forall other :: other in old(accepted) ==> (Live(other) <==> old(Live(other)))
      ensures if id == FAILED then SameNodes(old(pool), pool) else OneTaken(old(pool), pool, OffsetOf(id))
      ensures id == FAILED ==> ctxs == old(ctxs) && execut == old(execut) && accepted == old(accepted)
      ensures id == FAILED ==> completed == old(completed) && pool.freeSize == old(pool.freeSize)
      ensures id != FAILED ==> Live(id) && accepted == old(accepted) + {id} && completed == old(completed)
      ensures id != FAILED ==> pool.freeSize == old(pool.freeSize) - 1
      ensures id != FAILED && !seeds.rolled ==> id !in old(accepted)
      ensures id != FAILED ==> 0 <= OffsetOf(id) < |ctxs| && 0 <= ctxs[OffsetOf(id)].child < childNum == |old(execut)|
      ensures id != FAILED ==> var c := ctxs[OffsetOf(id)].child;
        execut == old(execut)[c := old(execut)[c] + 1] && (if hashed then c == HashChild(hash, childNum) else
          forall j :: 0 <= j < childNum ==> old(execut)[c] <= old(execut)[j])
      // the parent's timer comes a second after the timeout asked for, which is what the child is told
      ensures id != FAILED && driver && timeoutMs > 0 ==> ctxs[OffsetOf(id)].timer == Armed(timeoutMs + 1000)
      ensures id != FAILED && driver && timeoutMs == 0 && procs ==> ctxs[OffsetOf(id)].timer == Armed(7201000)
      ensures id != FAILED && (!driver || (timeoutMs == 0 && !procs)) ==> ctxs[OffsetOf(id)].timer == Off
      ensures id != FAILED ==> childMs == if timeoutMs < 0x100000 then timeoutMs else 0
      ensures inCallback == old(inCallback)
    {
      hide MakeId, OffsetOf, PreOf, BookOk, LiveNow, IdOf, HashChild, SeedSpace.Valid, SentBook, RefusedBook,
        SeedSpace.Reach, SameNodes, OneTaken, TimeoutField;
      SameSelf(pool);
      if len > maxTask {
        return FAILED, 0;
      }
      CountsSmall();
      FreeFacts(Now(), childNum, |seeds.groups|, seeds.rolled, seeds.handed);
      if pool.freeSize == 0 {
        return FAILED, 0;
      }
      ghost var b, handed, rolled := Now(), seeds.handed, seeds.rolled;
      ghost var drawn;
      var node;
      node, id, drawn := Draw(now);
      var child := ChildFor(hash);
      var timeout := if timeoutMs == 0 && procs then 7200 * 1000 else timeoutMs;
      var armed := timeout > 0 && driver;
      if !lockOk || (armed && !tmOk) || !pushOk {
        Refuse(b, rolled, handed, drawn, node);
        TakenBack(b, childNum, |seeds.groups|, rolled, handed, drawn % LIMIT);
        return FAILED, 0;
      }
      ChildTimeout(timeout);
      childMs := TimeoutField(timeout);
      Accept(b, rolled, handed, drawn, node, id, Ctx(child, if armed then Armed(timeout + 1000) else Off));
      TakenBack(b, childNum, |seeds.groups|, rolled, handed, drawn % LIMIT);
    }

    /** The books `b` are those of before the draw. */
    ghost predicate Drawn(b: Book, rolled: bool, handed: set<int>, drawn: int)
      reads this, seeds
    {
      && 0 < childNum && seeds.Valid() && BookOk(b, childNum, |seeds.groups|, rolled, handed) && b.pool.freeSize != 0
      && b.pool.free != [] && 0 <= b.pool.free[0] < |b.pool.heads|
      && |b.execut| == childNum && |b.ctxs| == |b.pool.heads|
      && drawn >= 0 && seeds.handed == handed + {drawn} && (rolled ==> seeds.rolled)
      && (!rolled ==> drawn !in handed && drawn < LIMIT)
      && var p := TakeNode(b.pool, drawn % LIMIT);
         Now() == b.(pool := p, issued := b.issued + {IdOf(p, b.pool.free[0])})
    }

    /** Lines 254-263: the node goes back. */
    method Refuse(ghost b: Book, ghost rolled: bool, ghost handed: set<int>, ghost drawn: int, node: int)
      requires Drawn(b, rolled, handed, drawn) && node == b.pool.free[0]
      modifies this`pool
      ensures Valid() && pool.freeSize == b.pool.freeSize && pool == GiveNode(old(pool), node)
      ensures !rolled ==> forall id :: id in b.accepted ==> (Live(id) <==> LiveNow(b.pool, id))
    {
      hide MakeId, OffsetOf, PreOf, BookOk, LiveNow, IdOf, SeedSpace.Valid;
      RefusedOk(b, childNum, |seeds.groups|, rolled, handed, drawn, seeds.rolled);
      pool := GiveNode(pool, node);
    }

    method Accept(ghost b: Book, ghost rolled: bool, ghost handed: set<int>, ghost drawn: int, node: int, id: int,
                  x: Ctx)
      requires Drawn(b, rolled, handed, drawn) && node == b.pool.free[0] && 0 <= node < |pool.heads|
      requires id == IdOf(pool, node)
      requires 0 <= x.child < childNum
      modifies this`ctxs, this`execut, this`accepted
      ensures Valid() && Live(id) && OffsetOf(id) == node && id >= 0 && 0 <= node < |old(ctxs)|
      ensures ctxs == old(ctxs)[node := x] && accepted == old(accepted) + {id}
      ensures |old(execut)| == childNum && execut == old(execut)[x.child := old(execut)[x.child] + 1]
      ensures !rolled ==> id !in old(accepted)
      ensures !rolled ==> forall other :: other in b.accepted ==> (Live(other) <==> LiveNow(b.pool, other))
    {
      hide MakeId, OffsetOf, PreOf, BookOk, LiveNow, IdOf, SeedSpace.Valid;
      SentOk(b, childNum, |seeds.groups|, rolled, handed, drawn, seeds.rolled, x);
      ctxs := ctxs[node := x];
      execut := execut[x.child := execut[x.child] + 1];
      accepted := accepted + {id};
    }

    /** The driver's poll moves the timer of a task to timeout_list. */
    method TimerExpires(node: int)
      requires Valid() && 0 <= node < |ctxs| && pool.heads[node].used && ctxs[node].timer.Armed?
      modifies this`ctxs
      ensures Valid() && ctxs == old(ctxs)[node := old(ctxs)[node].(timer := Waiting)]
    {
      hide Told, PoolOk, Ledger, Chunks;
      OtherTimer(execut, pool.heads, ctxs, inCallback, node, Waiting);
      ctxs := ctxs[node := ctxs[node].(timer := Waiting)];
    }

    /** Lines 548-577, for one result popped: an id that no longer resolves is dropped, otherwise the
        task is counted off, its timer freed and the result handler called. The books stay right
        unless that handler is running already, and polls for results itself, or the task's timer has
        expired and waits for its own handler to be called, in a run of callbacks one of which polls. */
    method BeginResult(id: int, childNo: int) returns (hit: bool)
      requires Valid() && id in accepted && 0 <= childNo < childNum
      requires Live(id) ==> ctxs[OffsetOf(id)].child == childNo
      modifies this`ctxs, this`execut, this`inCallback, this`completed
      ensures hit <==> old(Live(id))
      ensures !hit ==> Valid() && ctxs == old(ctxs) && execut == old(execut) && inCallback == old(inCallback)
      ensures !hit ==> completed == old(completed)
      ensures hit ==> completed == old(completed) + [id] && inCallback == old(inCallback) + {OffsetOf(id)}
      ensures hit ==> execut == old(execut)[childNo := old(execut)[childNo] - 1]
      ensures hit ==> 0 <= OffsetOf(id) < |old(ctxs)| && childNo < |old(execut)|
      ensures hit ==> var n := OffsetOf(id); ctxs == old(ctxs)[n := Ctx(childNo, Freed(old(ctxs)[n].timer))]
      ensures hit ==> var n := OffsetOf(id); Valid() <==> n !in old(inCallback) && old(ctxs)[n].timer != Waiting
    {
      hide MakeId, ChunkOf, OffsetOf, PreOf, Told, PoolOk, Counted, Ledger, Running;
      PoolFacts(pool);
      OneOwner([pool], |pool.heads|, id);
      var node := NodeById(pool, id);
      if node == NULL {
        return false;
      }
      BegunOk(pool, ctxs, execut, inCallback, accepted, completed, id, childNo, Freed(ctxs[node].timer));
      Complete(node, id, childNo, Freed(ctxs[node].timer));
      hit := true;
    }

    /** Lines 286-305: the handler of a task's timer is called. No result handler of it is running,
        and none has run. */
    method BeginTimeout(node: int)
      requires Valid() && 0 <= node < |ctxs| && pool.heads[node].used && ctxs[node].timer == Waiting
      modifies this`ctxs, this`execut, this`inCallback, this`completed
      ensures Valid() && completed == old(completed) + [IdOf(pool, node)]
      ensures !seeds.rolled ==> IdOf(pool, node) !in old(completed)
      ensures inCallback == old(inCallback) + {node} && ctxs == old(ctxs)[node := old(ctxs)[node].(timer := Off)]
      ensures 0 <= ctxs[node].child < |old(execut)|
      ensures var c := ctxs[node].child; execut == old(execut)[c := old(execut)[c] - 1]
    {
      hide MakeId, ChunkOf, OffsetOf, PreOf, Told, PoolOk, Counted, Ledger, Running, LiveIn;
      PoolFacts(pool);
      IdIn(pool, node);
      if !seeds.rolled {
        UsedFacts(pool, inCallback, accepted, completed, node);
      }
      UsedLive(pool, node);
      BegunOk(pool, ctxs, execut, inCallback, accepted, completed, IdOf(pool, node), ctxs[node].child, Off);
      Complete(node, IdOf(pool, node), ctxs[node].child, Off);
    }

    /** What a result and a timeout have in common. */
    method Complete(node: int, id: int, childNo: int, timer: TaskTimer)
      requires 0 <= node < |ctxs| && 0 <= childNo < |execut|
      modifies this`ctxs, this`execut, this`inCallback, this`completed
      ensures execut == old(execut)[childNo := old(execut)[childNo] - 1]
      ensures ctxs == old(ctxs)[node := old(ctxs)[node].(timer := timer)]
      ensures completed == old(completed) + [id] && inCallback == old(inCallback) + {node}
    {
      execut := execut[childNo := execut[childNo] - 1];
      ctxs := ctxs[node := ctxs[node].(timer := timer)];
      completed := completed + [id];
      inCallback := inCallback + {node};
    }

    /** Lines 581 and 307: the handler has returned and the node goes back to the pool. */
    method EndCallback(node: int)
      requires Valid() && node in inCallback
      modifies this`pool, this`inCallback
      ensures Valid() && inCallback == old(inCallback) - {node} && pool.freeSize == old(pool.freeSize) + 1
      ensures 0 <= node < |old(pool.heads)| && pool == GiveNode(old(pool), node)
      ensures !Live(old(IdOf(pool, node)))
    {
      hide MakeId, ChunkOf, OffsetOf, PreOf, Told, PoolOk, Counted, Ledger, Running, LiveIn;
      PoolFacts(pool);
      EndedOk(pool, ctxs, execut, inCallback, issued, seeds.handed, accepted, completed, node);
      pool := GiveNode(pool, node);
      inCallback := inCallback - {node};
    }

    lemma LiveCounts(id: int)
      requires Valid() && Live(id) && OffsetOf(id) !in inCallback
      ensures var n := OffsetOf(id);
        0 <= n < |ctxs| && 0 <= ctxs[n].child < childNum && execut[ctxs[n].child] > 0
    {
      var n := OffsetOf(id);
      assert n in Running(pool.heads, ctxs, inCallback, ctxs[n].child);
    }

    /** No task is running exactly when every task accepted has been completed. */
    lemma QuietIff()
      requires Valid() && !seeds.rolled
      ensures (forall c :: 0 <= c < childNum ==> execut[c] == 0) <==> forall id :: id in accepted ==> id in completed
    {
      hide MakeId, ChunkOf, OffsetOf, PreOf, PoolOk, Told;
      PoolFacts(pool);
      if forall c :: 0 <= c < childNum ==> execut[c] == 0 {
        forall id | id in accepted
          ensures id in completed
        {
          if Live(id) && OffsetOf(id) !in inCallback {
            LiveCounts(id);
          }
        }
      }
      if forall id :: id in accepted ==> id in completed {
        forall c | 0 <= c < childNum
          ensures Running(pool.heads, ctxs, inCallback, c) == {}
        {
          forall n | n in Running(pool.heads, ctxs, inCallback, c)
            ensures false
          {
            UsedFacts(pool, inCallback, accepted, completed, n);
          }
        }
      }
    }
  }

  // ----- whole runs -----

  datatype Op =
    | Send(len: int, hash: nat, timeoutMs: nat, driver: bool, lockOk: bool, tmOk: bool, pushOk: bool, now: int)
    | Expire(node: int)
    | Result(k: nat, childNo: int)
    | Timeout(node: int)
    | Return(node: int)

  predicate Busy(b: Bridge, node: int)
    reads b
  {
    0 <= node < |b.ctxs| && node < |b.pool.heads| && b.pool.heads[node].used
  }

  /** When an event can come: results are of the `k`-th task accepted, from the child it went to, and
      neither while its handler runs nor while its timer waits. */
  predicate Allowed(b: Bridge, ids: seq<int>, op: Op)
    reads b
  {
    match op
    case Send(len, hash, timeoutMs, driver, lockOk, tmOk, pushOk, now) => ClockOk(now)
    case Expire(node) => Busy(b, node) && b.ctxs[node].timer.Armed?
    case Timeout(node) => Busy(b, node) && b.ctxs[node].timer == Waiting
    case Return(node) => node in b.inCallback
    case Result(k, childNo) =>
      && k < |ids| && 0 <= childNo < b.childNum && OffsetOf(ids[k]) < |b.pool.heads|
      && var n := NodeById(b.pool, ids[k]);
         n != NULL ==> Busy(b, n) && b.ctxs[n].child == childNo && n !in b.inCallback && b.ctxs[n].timer != Waiting
  }

  lemma ResultComes(b: Bridge, ids: seq<int>, k: nat, childNo: int)
    requires b.Valid() && Allowed(b, ids, Result(k, childNo)) && ids[k] in b.accepted
    ensures b.Live(ids[k]) ==> var n := OffsetOf(ids[k]);
      0 <= n < |b.ctxs| && b.ctxs[n].child == childNo && n !in b.inCallback && b.ctxs[n].timer != Waiting
  {
    hide MakeId, ChunkOf, OffsetOf, PreOf, Told, Counted, Ledger;
    PoolFacts(b.pool);
    OneOwner([b.pool], |b.pool.heads|, ids[k]);
  }

  /** When yf_send_task refuses. */
  predicate Refuses(b: Bridge, m: Book, op: Op)
    requires op.Send?
  {
    var armed := op.driver && (op.timeoutMs > 0 || b.procs);
    op.len > b.maxTask || m.pool.freeSize == 0 || !op.lockOk || (armed && !op.tmOk) || !op.pushOk
  }

  /** What an event does to the books, and to the ids given out so far. */
  ghost predicate Happened(b: Bridge, m: Book, ids: seq<int>, op: Op, m': Book, ids': seq<int>) {
    match op
    case Send(len, hash, timeoutMs, driver, lockOk, tmOk, pushOk, now) =>
      if Refuses(b, m, op) then
        ids' == ids && m' == m.(pool := m'.pool, issued := m'.issued) && m'.pool.freeSize == m.pool.freeSize
        && SameNodes(m.pool, m'.pool)
      else
        && |ids'| == |ids| + 1 && ids' == ids + [ids'[|ids|]] && Sent(b, m, op, m', ids'[|ids|])
    case Expire(node) =>
      && ids' == ids && 0 <= node < |m.ctxs| && m.ctxs[node].timer.Armed?
      && m' == m.(ctxs := m.ctxs[node := m.ctxs[node].(timer := Waiting)])
    case Result(k, childNo) =>
      && ids' == ids && k < |ids|
      && if LiveNow(m.pool, ids[k]) then Completed(m, OffsetOf(ids[k]), ids[k], m') else m' == m
    case Timeout(node) =>
      && ids' == ids && 0 <= node < |m.pool.heads| && m.pool.heads[node].used
      && Completed(m, node, IdOf(m.pool, node), m')
    case Return(node) =>
      && ids' == ids && node in m.inCallback && 0 <= node < |m.pool.heads|
      && m' == m.(pool := GiveNode(m.pool, node), inCallback := m.inCallback - {node})
  }

  /** A task sent: a node with the new id, one more task on a child, its timer set. */
  ghost predicate Sent(b: Bridge, m: Book, op: Op, m': Book, id: int)
    requires op.Send?
  {
    var n := OffsetOf(id);
    && LiveNow(m'.pool, id) && OneTaken(m.pool, m'.pool, n) && m'.pool.freeSize == m.pool.freeSize - 1
    && 0 <= n < |m'.ctxs| == |m.ctxs|
    && var x := m'.ctxs[n];
       && 0 <= x.child < |m.execut| == b.childNum
       && (if b.hashed then x.child == op.hash % b.childNum
           else forall j :: 0 <= j < b.childNum ==> m.execut[x.child] <= m.execut[j])
       && x.timer == (if !op.driver || (op.timeoutMs == 0 && !b.procs) then Off
                      else Armed(1000 + if op.timeoutMs > 0 then op.timeoutMs else 7200000))
       && m' == m.(pool := m'.pool, issued := m'.issued, accepted := m.accepted + {id}, ctxs := m.ctxs[n := x],
                   execut := m.execut[x.child := m.execut[x.child] + 1])
  }

  /** A task counted off its child, its handler running. */
  ghost predicate Completed(m: Book, n: int, id: int, m': Book) {
    && 0 <= n < |m.ctxs| && 0 <= m.ctxs[n].child < |m.execut|
    && var c := m.ctxs[n].child;
       m' == m.(completed := m.completed + [id], inCallback := m.inCallback + {n},
                execut := m.execut[c := m.execut[c] - 1], ctxs := m.ctxs[n := Ctx(c, Off)])
  }

  method Exec(b: Bridge, ids: seq<int>, op: Op) returns (ids': seq<int>)
    requires b.Valid() && Allowed(b, ids, op) && forall id :: id in ids <==> id in b.accepted
    modifies b, b.seeds
    ensures b.Valid() && b.seeds.Advances() && forall id :: id in ids' <==> id in b.accepted
    ensures ids <= ids' && (!b.seeds.rolled && NoDup(ids) ==> NoDup(ids'))
    ensures b.seeds.Reach() <= old(b.seeds.Reach()) + 1
    ensures Happened(b, old(b.Now()), ids, op, b.Now(), ids')
  {
    hide MakeId, ChunkOf, OffsetOf, PreOf, BookOk, LiveNow, IdOf, SeedSpace.Valid, SeedSpace.Reach;
    ids' := ids;
    match op
    case Send(len, hash, timeoutMs, driver, lockOk, tmOk, pushOk, now) =>
      var id, childMs := b.SendTask(len, hash, timeoutMs, driver, lockOk, tmOk, pushOk, now);
      if id != FAILED {
        ids' := ids + [id];
        assert b.ctxs == old(b.ctxs)[OffsetOf(id) := b.ctxs[OffsetOf(id)]];
      }
    case Expire(node) =>
      b.TimerExpires(node);
    case Result(k, childNo) =>
      ResultComes(b, ids, k, childNo);
      var hit := b.BeginResult(ids[k], childNo);
    case Timeout(node) =>
      b.BeginTimeout(node);
    case Return(node) =>
      b.EndCallback(node);
  }

  /** The books at one moment of a run, and the ids given out so far. */
  datatype Moment = Moment(book: Book, ids: seq<int>)

  /** The moments before and after each of the events. */
  ghost predicate Trace(b: Bridge, ops: seq<Op>, ms: seq<Moment>) {
    && |ms| == |ops| + 1
    && forall i :: 0 <= i < |ops| ==> Happened(b, ms[i].book, ms[i].ids, ops[i], ms[i + 1].book, ms[i + 1].ids)
  }

  lemma TraceOn(b: Bridge, ops: seq<Op>, done: nat, ms: seq<Moment>, m: Moment)
    requires done < |ops| && Trace(b, ops[..done], ms)
    requires Happened(b, ms[done].book, ms[done].ids, ops[done], m.book, m.ids)
    ensures Trace(b, ops[..done + 1], ms + [m])
  {
    hide Happened;
    assert ops[..done + 1][..done] == ops[..done];
    forall i | 0 <= i < done + 1
      ensures var ms' := ms + [m];
        Happened(b, ms'[i].book, ms'[i].ids, ops[..done + 1][i], ms'[i + 1].book, ms'[i + 1].ids)
    {
      if i < done {
        assert ops[..done][i] == ops[i];
      }
    }
  }

  /** Any events on a new bridge, up to the first that cannot come. The books go from moment to moment
      as these events say, the counts are those of the tasks running, no task is completed twice, and
      those not completed are the ones in use whose handler has not been called. What is said of ids
      holds until the counter of their seeds rolls over, for which there have to be as many events as its
      limit leaves. */
  method RunBridge(b: Bridge, ops: seq<Op>) returns (ids: seq<int>, done: nat, ghost ms: seq<Moment>)
    requires b.Valid() && b.accepted == {} && b.completed == []
    modifies b, b.seeds
    ensures b.Valid() && done <= |ops| && (done < |ops| ==> !Allowed(b, ids, ops[done]))
    ensures Trace(b, ops[..done], ms) && ms[0] == Moment(old(b.Now()), []) && ms[done] == Moment(b.Now(), ids)
    ensures Counted(b.execut, b.pool.heads, b.ctxs, b.inCallback) && forall id :: id in ids <==> id in b.accepted
    ensures !b.seeds.rolled ==> NoDup(ids) && NoDup(b.completed) && forall id :: id in b.completed ==> id in ids
    ensures !b.seeds.rolled ==> forall id :: id in ids ==>
      (id in b.completed <==> !(b.Live(id) && OffsetOf(id) !in b.inCallback))
    ensures !b.seeds.rolled ==>
      ((forall c :: 0 <= c < b.childNum ==> b.execut[c] == 0) <==> forall id :: id in ids ==> id in b.completed)
    ensures old(b.seeds.Reach()) + |ops| < LIMIT ==> !b.seeds.rolled
  {
    hide Happened, Allowed;
    ids, done, ms := [], 0, [Moment(b.Now(), [])];
    assert ops[..0] == [];
    while done < |ops| && Allowed(b, ids, ops[done])
      invariant b.Valid() && done <= |ops| && forall id :: id in ids <==> id in b.accepted
      invariant !b.seeds.rolled ==> NoDup(ids)
      invariant b.seeds.Reach() <= old(b.seeds.Reach()) + done
      invariant Trace(b, ops[..done], ms) && ms[0] == Moment(old(b.Now()), []) && ms[done] == Moment(b.Now(), ids)
      decreases |ops| - done
    {
      hide *;
      ids := Exec(b, ids, ops[done]);
      TraceOn(b, ops, done, ms, Moment(b.Now(), ids));
      ms := ms + [Moment(b.Now(), ids)];
      done := done + 1;
    }
    if !b.seeds.rolled {
      b.QuietIff();
    }
  }

  /** The result handler of a task that polls for results again and finds a second one for it: the
      task is completed twice, and the books are wrong from there on. */
  method ResultInItsHandler(b: Bridge, id: int, childNo: int)
    requires b.Valid() && id in b.accepted && b.Live(id) && OffsetOf(id) !in b.inCallback
    requires childNo == b.ctxs[OffsetOf(id)].child && b.ctxs[OffsetOf(id)].timer != Waiting
    modifies b`ctxs, b`execut, b`inCallback, b`completed
    ensures b.completed == old(b.completed) + [id, id] && !b.Valid()
  {
    hide OffsetOf, ChunkOf, PreOf, MakeId, Told, Counted, Ledger;
    var hit := b.BeginResult(id, childNo);
    hit := b.BeginResult(id, childNo);
  }

  /** A result polled for by a callback while the task's expired timer waits for its own handler: the
      task is completed, and the timer still waits for a handler that will find the node freed or reused. */
  method ResultBeforeItsTimeout(b: Bridge, id: int, childNo: int)
    requires b.Valid() && id in b.accepted && b.Live(id)
    requires childNo == b.ctxs[OffsetOf(id)].child && b.ctxs[OffsetOf(id)].timer == Waiting
    modifies b`ctxs, b`execut, b`inCallback, b`completed
    ensures b.completed == old(b.completed) + [id] && !b.Valid()
    ensures 0 <= OffsetOf(id) < |b.ctxs| && b.ctxs[OffsetOf(id)].timer == Waiting
  {
    hide OffsetOf, ChunkOf, PreOf, MakeId, Told, Counted, Ledger;
    var hit := b.BeginResult(id, childNo);
  }

  lemma OtherTimer(execut: seq<int>, heads: seq<Head>, ctxs: seq<Ctx>, cb: set<int>, n: int, t: TaskTimer)
    requires Counted(execut, heads, ctxs, cb) && 0 <= n < |ctxs|
    ensures Counted(execut, heads, ctxs[n := ctxs[n].(timer := t)], cb)
  {
    forall c | 0 <= c < |execut|
      ensures Running(heads, ctxs[n := ctxs[n].(timer := t)], cb, c) == Running(heads, ctxs, cb, c)
    {
    }
  }

  lemma PoolFacts(pool: Pool)
    requires PoolOk(pool) && pool.index == 0
    ensures |pool.heads| < MAX_NODES && pool.freeSize >= 0 && Chunks([pool], |pool.heads|)
    ensures pool.freeSize != 0 ==> pool.free != [] && 0 <= pool.free[0] < |pool.heads| && !pool.heads[pool.free[0]].used
  {
    if pool.freeSize != 0 {
      TakeNodeOk(pool, 0);
    }
  }

  lemma UsedLive(pool: Pool, node: int)
    requires PoolOk(pool) && pool.index == 0 && 0 <= node < |pool.heads| && pool.heads[node].used
    ensures LiveIn([pool], |pool.heads|, IdOf(pool, node)) && OffsetOf(IdOf(pool, node)) == node
  {
    hide MakeId, ChunkOf, OffsetOf, PreOf;
    IdIn(pool, node);
  }

  lemma UsedFacts(pool: Pool, cb: set<int>, accepted: set<int>, completed: seq<int>, node: int)
    requires PoolOk(pool) && pool.index == 0 && Ledger(pool, cb, accepted, completed)
    requires 0 <= node < |pool.heads| && pool.heads[node].used
    ensures var id := IdOf(pool, node);
      id in accepted && OffsetOf(id) == node && LiveIn([pool], |pool.heads|, id) && (node !in cb ==> id !in completed)
  {
    hide MakeId, ChunkOf, OffsetOf, PreOf;
    IdParts(0, node, pool.heads[node].idPre);
  }

  /** The same nodes are in use, with the same seeds. */
  ghost predicate SameNodes(p: Pool, p': Pool) {
    |p'.heads| == |p.heads| && forall k :: 0 <= k < |p.heads| ==>
      p'.heads[k].used == p.heads[k].used && (p.heads[k].used ==> p'.heads[k] == p.heads[k])
  }

  /** One node that was free is in use, and no other changed. */
  ghost predicate OneTaken(p: Pool, p': Pool, n: int) {
    && |p'.heads| == |p.heads| && 0 <= n < |p.heads| && !p.heads[n].used && p'.heads[n].used
    && forall k :: 0 <= k < |p.heads| && k != n ==> p'.heads[k] == p.heads[k]
  }

  lemma SameSelf(p: Pool)
    ensures SameNodes(p, p)
  {
  }

  /** A node taken, and given back. */
  lemma TakenBack(b: Book, childNum: int, groups: nat, rolled: bool, handed: set<int>, seed: int)
    requires BookOk(b, childNum, groups, rolled, handed) && b.pool.freeSize != 0 && 0 <= seed < LIMIT
    ensures b.pool.free != [] && 0 <= b.pool.free[0] < |b.pool.heads|
    ensures var p', n := TakeNode(b.pool, seed), b.pool.free[0];
      OneTaken(b.pool, p', n) && SameNodes(b.pool, GiveNode(p', n))
  {
    hide Told, Counted, Ledger, LiveNow, MakeId, OffsetOf, PreOf;
    assert PoolOk(b.pool);
    TakeNodeOk(b.pool, seed);
  }

  lemma FreeFacts(b: Book, children: int, groups: int, rolled: bool, handed: set<int>)
    requires BookOk(b, children, groups, rolled, handed)
    ensures b.pool.freeSize != 0 ==> b.pool.free != [] && 0 <= b.pool.free[0] < |b.pool.heads|
    ensures |b.ctxs| == |b.pool.heads| && |b.execut| == children && b.pool.group < groups
  {
    PoolFacts(b.pool);
  }

  /** A task sent: one more live id, one more running task. */
  lemma SentOk(b: Book, children: int, groups: int, rolled: bool, handed: set<int>, drawn: int, rolled': bool, x: Ctx)
    requires BookOk(b, children, groups, rolled, handed) && b.pool.freeSize != 0 && 0 <= x.child < children
    requires drawn >= 0 && (rolled ==> rolled') && (!rolled ==> drawn !in handed && drawn < LIMIT)
    ensures b.pool.free != [] && 0 <= b.pool.free[0] < |b.pool.heads| == |b.ctxs| && children == |b.execut|
    ensures BookOk(SentBook(b, drawn % LIMIT, x), children, groups, rolled', handed + {drawn})
    ensures !rolled ==> forall id :: id in b.accepted ==>
      (LiveNow(SentBook(b, drawn % LIMIT, x).pool, id) <==> LiveNow(b.pool, id))
    ensures var n, p := b.pool.free[0], TakeNode(b.pool, drawn % LIMIT); var id := IdOf(p, n);
      OffsetOf(id) == n && LiveNow(p, id) && id >= 0 && (!rolled ==> id !in b.issued && id !in b.accepted)
  {
    hide MakeId, ChunkOf, OffsetOf, PreOf, Told, Counted, Ledger;
    var pool, seed := b.pool, drawn % LIMIT;
    TakeNodeOk(pool, seed);
    TakenTold([pool], |pool.heads|, b.issued, handed, 0, seed);
    SentCount(b.execut, pool.heads, b.ctxs, b.inCallback, pool.free[0], Head(true, seed), x);
    IdParts(0, pool.free[0], seed);
    assert [pool][0 := TakeNode(pool, seed)] == [TakeNode(pool, seed)];
    if !rolled {
      SentLedger(pool, b.inCallback, b.issued, b.accepted, b.completed, handed, seed);
    }
  }

  lemma SentLedger(pool: Pool, cb: set<int>, issued: set<int>, accepted: set<int>, completed: seq<int>,
                   handed: set<int>, seed: int)
    requires PoolOk(pool) && pool.index == 0 && pool.freeSize != 0 && 0 <= seed < LIMIT
    requires forall n :: n in cb ==> 0 <= n < |pool.heads| && pool.heads[n].used
    requires Told([pool], |pool.heads|, issued, handed) && seed !in handed && accepted <= issued
    requires Ledger(pool, cb, accepted, completed)
    ensures pool.free != [] && 0 <= pool.free[0] < |pool.heads| && PoolOk(TakeNode(pool, seed))
    ensures Ledger(TakeNode(pool, seed), cb, accepted + {IdOf(TakeNode(pool, seed), pool.free[0])}, completed)
  {
    hide MakeId, ChunkOf, OffsetOf, PreOf, Told;
    TakeNodeOk(pool, seed);
    TakenTold([pool], |pool.heads|, issued, handed, 0, seed);
    assert [pool][0 := TakeNode(pool, seed)] == [TakeNode(pool, seed)];
  }

  /** A task refused after its node was taken: all is as before but for the id drawn. */
  lemma RefusedOk(b: Book, children: int, groups: int, rolled: bool, handed: set<int>, drawn: int, rolled': bool)
    requires BookOk(b, children, groups, rolled, handed) && b.pool.freeSize != 0
    requires drawn >= 0 && (rolled ==> rolled') && (!rolled ==> drawn !in handed && drawn < LIMIT)
    ensures b.pool.free != [] && 0 <= b.pool.free[0] < |b.pool.heads|
    ensures BookOk(RefusedBook(b, drawn % LIMIT), children, groups, rolled', handed + {drawn})
    ensures RefusedBook(b, drawn % LIMIT).pool.freeSize == b.pool.freeSize
    ensures !rolled ==> forall id :: id in b.accepted ==>
      (LiveNow(RefusedBook(b, drawn % LIMIT).pool, id) <==> LiveNow(b.pool, id))
  {
    hide MakeId, ChunkOf, OffsetOf, PreOf, Told, Counted, Ledger;
    var pool, seed := b.pool, drawn % LIMIT;
    TakeNodeOk(pool, seed);
    var p, n := TakeNode(pool, seed), pool.free[0];
    GiveNodeOk(p, n);
    TakenTold([pool], |pool.heads|, b.issued, handed, 0, seed);
    assert [pool][0 := p] == [p] && [p][0 := GiveNode(p, n)] == [GiveNode(p, n)];
    EndedCount(b.execut, pool.heads, b.ctxs, b.inCallback, n, Head(false, 0));
    assert b.inCallback - {n} == b.inCallback;
    assert p.heads[n := Head(false, 0)] == pool.heads[n := Head(false, 0)];
    if !rolled {
      GivenTold([p], |p.heads|, b.issued + {IdOf(p, n)}, handed + {seed}, 0, n);
      RefusedLedger(pool, b.inCallback, b.issued, b.accepted, b.completed, handed, seed);
    }
  }

  lemma RefusedLedger(pool: Pool, cb: set<int>, issued: set<int>, accepted: set<int>, completed: seq<int>,
                      handed: set<int>, seed: int)
    requires PoolOk(pool) && pool.index == 0 && pool.freeSize != 0 && 0 <= seed < LIMIT
    requires Told([pool], |pool.heads|, issued, handed) && seed !in handed && accepted <= issued
    requires Ledger(pool, cb, accepted, completed)
    ensures pool.free != [] && 0 <= pool.free[0] < |pool.heads| && PoolOk(GiveNode(TakeNode(pool, seed), pool.free[0]))
    ensures Ledger(GiveNode(TakeNode(pool, seed), pool.free[0]), cb, accepted, completed)
  {
    hide MakeId, ChunkOf, OffsetOf, PreOf, Told;
    TakeNodeOk(pool, seed);
    var p, n := TakeNode(pool, seed), pool.free[0];
    GiveNodeOk(p, n);
    TakenTold([pool], |pool.heads|, issued, handed, 0, seed);
    assert [pool][0 := p] == [p] && [p][0 := GiveNode(p, n)] == [GiveNode(p, n)];
    GivenTold([p], |p.heads|, issued + {IdOf(p, n)}, handed + {seed}, 0, n);
  }

  /** A completion begun: counted off once, and the books stay right unless it had begun before. */
  lemma BegunOk(pool: Pool, ctxs: seq<Ctx>, execut: seq<int>, cb: set<int>, accepted: set<int>, completed: seq<int>,
                id: int, childNo: int, t: TaskTimer)
    requires PoolOk(pool) && pool.index == 0 && |ctxs| == |pool.heads| && LiveIn([pool], |pool.heads|, id)
    requires Counted(execut, pool.heads, ctxs, cb) && 0 <= childNo < |execut| && ctxs[OffsetOf(id)].child == childNo
    ensures var n, less := OffsetOf(id), execut[childNo := execut[childNo] - 1];
      Counted(less, pool.heads, ctxs[n := ctxs[n].(timer := t)], cb + {n}) <==> n !in cb
    ensures Ledger(pool, cb, accepted, completed) && id in accepted ==>
      (Ledger(pool, cb + {OffsetOf(id)}, accepted, completed + [id]) <==> OffsetOf(id) !in cb)
    ensures Ledger(pool, cb, accepted, completed) && id in accepted ==> (OffsetOf(id) !in cb <==> id !in completed)
  {
    hide MakeId, ChunkOf, OffsetOf, PreOf, PoolOk, Running, Ledger;
    var n := OffsetOf(id);
    if n !in cb {
      BegunCount(execut, pool.heads, ctxs, cb, n, ctxs[n].(timer := t));
    } else {
      assert cb + {n} == cb;
      OtherTimer(execut, pool.heads, ctxs, cb, n, t);
      var less := execut[childNo := execut[childNo] - 1];
      assert less[childNo] != |Running(pool.heads, ctxs[n := ctxs[n].(timer := t)], cb, childNo)|;
    }
    if Ledger(pool, cb, accepted, completed) && id in accepted {
      BegunLedger(pool, cb, accepted, completed, id);
    }
  }

  lemma BegunLedger(pool: Pool, cb: set<int>, accepted: set<int>, completed: seq<int>, id: int)
    requires PoolOk(pool) && pool.index == 0 && LiveIn([pool], |pool.heads|, id)
    requires Ledger(pool, cb, accepted, completed) && id in accepted
    ensures Ledger(pool, cb + {OffsetOf(id)}, accepted, completed + [id]) <==> OffsetOf(id) !in cb
    ensures OffsetOf(id) !in cb <==> id !in completed
  {
    hide MakeId, ChunkOf, OffsetOf, PreOf, PoolOk;
    var n := OffsetOf(id);
    if n !in cb {
      forall other | other in accepted
        ensures other in completed + [id] <==> !(LiveIn([pool], |pool.heads|, other) && OffsetOf(other) !in cb + {n})
      {
      }
    } else {
      var i :| 0 <= i < |completed| && completed[i] == id;
      assert (completed + [id])[i] == (completed + [id])[|completed|];
    }
  }

  /** A node given back after its callback. */
  lemma EndedOk(pool: Pool, ctxs: seq<Ctx>, execut: seq<int>, cb: set<int>, issued: set<int>, handed: set<int>,
                accepted: set<int>, completed: seq<int>, node: int)
    requires PoolOk(pool) && pool.index == 0 && |ctxs| == |pool.heads| && node in cb
    requires forall n :: n in cb ==> 0 <= n < |pool.heads| && pool.heads[n].used
    requires Counted(execut, pool.heads, ctxs, cb)
    ensures var q := GiveNode(pool, node);
      && PoolOk(q) && Counted(execut, q.heads, ctxs, cb - {node}) && !LiveIn([q], |q.heads|, IdOf(pool, node))
      && (forall k :: k in cb - {node} ==> q.heads[k].used)
      && (Told([pool], |pool.heads|, issued, handed) ==> Told([q], |q.heads|, issued, handed))
      && (Ledger(pool, cb, accepted, completed) ==> Ledger(q, cb - {node}, accepted, completed))
  {
    hide MakeId, ChunkOf, OffsetOf, PreOf, Told, Counted;
    GiveNodeOk(pool, node);
    GivenTold([pool], |pool.heads|, issued, handed, 0, node);
    EndedCount(execut, pool.heads, ctxs, cb, node, Head(false, 0));
    assert [pool][0 := GiveNode(pool, node)] == [GiveNode(pool, node)];
    if Ledger(pool, cb, accepted, completed) {
      UsedFacts(pool, cb, accepted, completed, node);
    }
  }
}
