/** Pools of nodes addressed by ids (src/base_struct/yf_node_pool.c). An id names a chunk, an
    offset in it and the seed drawn when the node was handed out. */
module NodePool {
  import opened Arith
  import opened Seqs
  import opened IdSeed

  const NULL := -1
  const MAX_NODES := 0x100_0000       // total_num has 24 bits
  const WORD := 0x1_0000_0000

  datatype Head = Head(used: bool, idPre: int)

  /** yf_node_pool_t. The free list holds node numbers, its first element on top. */
  datatype Pool = Pool(heads: seq<Head>, free: seq<int>, freeSize: int, index: int, group: nat)

  // ----- ids -----

  /** The offset and the pool index are or-ed into the upper half, the seed into the lower. */
  function MakeId(index: int, offset: int, pre: int): int { (offset + index * MAX_NODES) * WORD + pre }

  function ChunkOf(id: int): int { id / WORD / MAX_NODES }
  function OffsetOf(id: int): int { id / WORD % MAX_NODES }
  function PreOf(id: int): int { id % WORD }

  lemma IdParts(index: int, offset: int, pre: int)
    requires 0 <= index && 0 <= offset < MAX_NODES && 0 <= pre < WORD
    ensures var id := MakeId(index, offset, pre);
      ChunkOf(id) == index && OffsetOf(id) == offset && PreOf(id) == pre && id >= 0
  {
    DivIs(MakeId(index, offset, pre), WORD, offset + index * MAX_NODES, pre);
    DivIs(offset + index * MAX_NODES, MAX_NODES, index, offset);
  }

  // ----- one pool -----

  ghost predicate PoolOk(p: Pool) {
    && |p.heads| < MAX_NODES && p.freeSize == |p.free| && 0 <= p.index < 256
    && NoDup(p.free)
    && (forall n :: n in p.free <==> 0 <= n < |p.heads| && !p.heads[n].used)
    && (forall n :: 0 <= n < |p.heads| && p.heads[n].used ==> 0 <= p.heads[n].idPre < LIMIT)
  }

  /** yf_init_node_pool: every node is pushed on the free list. */
  function NewPool(total: nat, index: int, group: nat): Pool {
    Pool(seq(total, _ => Head(false, 0)), seq(total, i => total - 1 - i), total, index, group)
  }

  lemma NewPoolOk(total: nat, index: int, group: nat)
    requires total < MAX_NODES && 0 <= index < 256
    ensures PoolOk(NewPool(total, index, group))
    ensures forall n :: 0 <= n < total ==> !NewPool(total, index, group).heads[n].used
  {
    var p := NewPool(total, index, group);
    forall n
      ensures n in p.free <==> 0 <= n < total
    {
      if 0 <= n < total {
        assert p.free[total - 1 - n] == n;
      }
    }
  }

  /** yf_alloc_node_from_pool with the seed drawn: takes the top of the free list. */
  function TakeNode(p: Pool, seed: int): Pool
    requires p.free != [] && 0 <= p.free[0] < |p.heads|
  {
    p.(heads := p.heads[p.free[0] := Head(true, seed)], free := p.free[1..], freeSize := p.freeSize - 1)
  }

  /** yf_free_node_to_pool */
  function GiveNode(p: Pool, node: int): Pool
    requires 0 <= node < |p.heads|
  {
    p.(heads := p.heads[node := Head(false, 0)], free := [node] + p.free, freeSize := p.freeSize + 1)
  }

  lemma TakeNodeOk(p: Pool, seed: int)
    requires PoolOk(p) && p.freeSize != 0 && 0 <= seed < LIMIT
    ensures p.free != [] && 0 <= p.free[0] < |p.heads| && !p.heads[p.free[0]].used
    ensures PoolOk(TakeNode(p, seed))
  {
    assert p.free[0] in p.free;
    var p' := TakeNode(p, seed);
    forall n
      ensures n in p'.free <==> 0 <= n < |p'.heads| && !p'.heads[n].used
    {
      assert n in p.free <==> n == p.free[0] || n in p.free[1..];
    }
  }

  lemma GiveNodeOk(p: Pool, node: int)
    requires PoolOk(p) && 0 <= node < |p.heads| && p.heads[node].used
    ensures PoolOk(GiveNode(p, node))
  {
    var p' := GiveNode(p, node);
    assert node !in p.free;
    forall n
      ensures n in p'.free <==> 0 <= n < |p'.heads| && !p'.heads[n].used
    {
    }
  }

  /** yf_get_id_by_node */
  function IdOf(p: Pool, node: int): int
    requires 0 <= node < |p.heads|
  {
    MakeId(p.index, node, p.heads[node].idPre)
  }

  /** yf_get_node_by_id, for an id whose offset is inside the pool. */
  function NodeById(p: Pool, id: int): int
    requires OffsetOf(id) < |p.heads|
  {
    var h := p.heads[OffsetOf(id)];
    if h.used && h.idPre == PreOf(id) then OffsetOf(id) else NULL
  }

  // ----- pools of chunks -----

  /** The chunks of a table, each of `per` nodes. */
  ghost predicate Chunks(pools: seq<Pool>, per: int) {
    forall c :: 0 <= c < |pools| ==> PoolOk(pools[c]) && pools[c].index == c && |pools[c].heads| == per
  }

  /** The id belongs to a node that is in use. */
  ghost predicate LiveIn(pools: seq<Pool>, per: int, id: int)
    requires Chunks(pools, per)
  {
    && 0 <= ChunkOf(id) < |pools| && 0 <= OffsetOf(id) < per
    && pools[ChunkOf(id)].heads[OffsetOf(id)].used && IdOf(pools[ChunkOf(id)], OffsetOf(id)) == id
  }

  /** Every id ever given out: no two share a seed, and every used node has one. */
  ghost predicate Told(pools: seq<Pool>, per: int, issued: set<int>, handed: set<int>) {
    && (forall id :: id in issued ==> 0 <= ChunkOf(id) < |pools| && 0 <= OffsetOf(id) < per && PreOf(id) in handed)
    && (forall a, b :: a in issued && b in issued && PreOf(a) == PreOf(b) ==> a == b)
    && (forall c, n ::
         0 <= c < |pools| && 0 <= n < |pools[c].heads| && pools[c].heads[n].used ==> IdOf(pools[c], n) in issued)
  }

  /** The node with this id was free, or in a chunk that was not there, and no other node changed. */
  ghost predicate Took(pools: seq<Pool>, pools': seq<Pool>, per: int, id: int)
    requires Chunks(pools, per) && Chunks(pools', per)
  {
    var c, n := ChunkOf(id), OffsetOf(id);
    && 0 <= c < |pools'| && 0 <= n < per && |pools| <= |pools'| && (c < |pools| ==> !pools[c].heads[n].used)
    && forall k, m :: 0 <= k < |pools| && 0 <= m < per && (k != c || m != n) ==> pools'[k].heads[m] == pools[k].heads[m]
  }

  lemma TookOne(pools: seq<Pool>, per: int, c: int, seed: int)
    requires Chunks(pools, per) && 0 <= c < |pools| && pools[c].freeSize != 0 && per < MAX_NODES && 0 <= seed < LIMIT
    ensures pools[c].free != [] && 0 <= pools[c].free[0] < per
    ensures var pools', id := pools[c := TakeNode(pools[c], seed)], MakeId(c, pools[c].free[0], seed);
      Chunks(pools', per) && Took(pools, pools', per, id)
  {
    hide MakeId, ChunkOf, OffsetOf, PreOf, PoolOk;
    TakeNodeOk(pools[c], seed);
    IdParts(c, pools[c].free[0], seed);
  }

  lemma TookGrown(pools: seq<Pool>, grown: seq<Pool>, pools': seq<Pool>, per: int, id: int)
    requires Chunks(pools, per) && Chunks(grown, per) && Chunks(pools', per) && Took(grown, pools', per, id)
    requires |pools| <= |grown| && grown[..|pools|] == pools
    ensures Took(pools, pools', per, id)
  {
    hide ChunkOf, OffsetOf, PoolOk;
    assert forall k :: 0 <= k < |pools| ==> pools[k] == grown[..|pools|][k] == grown[k];
  }

  lemma TakenTold(pools: seq<Pool>, per: int, issued: set<int>, handed: set<int>, c: int, seed: int)
    requires Chunks(pools, per) && 0 <= c < |pools| && pools[c].freeSize != 0 && per < MAX_NODES && 0 <= seed < LIMIT
    ensures pools[c].free != [] && 0 <= pools[c].free[0] < per
    ensures var pools', n := pools[c := TakeNode(pools[c], seed)], pools[c].free[0]; var id := MakeId(c, n, seed);
      && Chunks(pools', per) && LiveIn(pools', per, id) && OffsetOf(id) == n && PreOf(id) == seed && ChunkOf(id) == c
      && IdOf(pools'[c], n) == id
      && (Told(pools, per, issued, handed) && seed !in handed ==>
            id !in issued && Told(pools', per, issued + {id}, handed + {seed})
            && forall other :: other in issued ==> (LiveIn(pools', per, other) <==> LiveIn(pools, per, other)))
  {
    hide MakeId, ChunkOf, OffsetOf, PreOf, PoolOk;
    TakeNodeOk(pools[c], seed);
    IdParts(c, pools[c].free[0], seed);
  }

  lemma AddedTold(pools: seq<Pool>, per: int, issued: set<int>, handed: set<int>, g: nat)
    requires Chunks(pools, per) && |pools| < 256 && 0 <= per < MAX_NODES
    ensures var pools' := pools + [NewPool(per, |pools|, g)];
      && Chunks(pools', per)
      && (Told(pools, per, issued, handed) ==> Told(pools', per, issued, handed))
      && (Told(pools, per, issued, handed) ==>
            forall id :: id in issued ==> (LiveIn(pools', per, id) <==> LiveIn(pools, per, id)))
  {
    hide MakeId, ChunkOf, OffsetOf, PreOf, PoolOk;
    NewPoolOk(per, |pools|, g);
  }

  lemma GivenTold(pools: seq<Pool>, per: int, issued: set<int>, handed: set<int>, c: int, n: int)
    requires Chunks(pools, per) && 0 <= c < |pools| && 0 <= n < per < MAX_NODES && pools[c].heads[n].used
    ensures var pools', id := pools[c := GiveNode(pools[c], n)], IdOf(pools[c], n);
      && Chunks(pools', per) && LiveIn(pools, per, id) && !LiveIn(pools', per, id)
      && (forall other :: other != id ==> (LiveIn(pools', per, other) <==> LiveIn(pools, per, other)))
      && (Told(pools, per, issued, handed) ==> Told(pools', per, issued, handed))
  {
    hide MakeId, ChunkOf, OffsetOf, PreOf, PoolOk;
    GiveNodeOk(pools[c], n);
    assert PoolOk(pools[c]);
    IdIn(pools[c], n);
  }

  lemma IdIn(p: Pool, n: int)
    requires PoolOk(p) && 0 <= n < |p.heads| && p.heads[n].used
    ensures var id := IdOf(p, n);
      id >= 0 && ChunkOf(id) == p.index && OffsetOf(id) == n && PreOf(id) == p.heads[n].idPre
  {
    IdParts(p.index, n, p.heads[n].idPre);
  }

  /** An id whose place exists resolves exactly as long as it is the id of a node in use. */
  lemma OneOwner(pools: seq<Pool>, per: int, id: int)
    requires Chunks(pools, per) && per < MAX_NODES && 0 <= id && ChunkOf(id) < |pools| && OffsetOf(id) < per
    ensures 0 <= ChunkOf(id) && 0 <= OffsetOf(id)
    ensures NodeById(pools[ChunkOf(id)], id) == if LiveIn(pools, per, id) then OffsetOf(id) else NULL
  {
    var c, n, h := ChunkOf(id), OffsetOf(id), id / WORD;
    assert id == h * WORD + PreOf(id) && h == c * MAX_NODES + n;
    assert PoolOk(pools[c]);
    if pools[c].heads[n].used {
      IdIn(pools[c], n);
    }
  }

  /** yf_hnpool_t */
  class HnPool {
    const perChunk: int
    const maxChunk: int
    const seeds: SeedSpace
    var pools: seq<Pool>    // node_pools; used_chunk is its length
    var infos: seq<int>     // node_pool_infos, the order in which chunks are tried
    var allocChunk: int
    ghost var issued: set<int>

    ghost predicate Valid()
      reads this, seeds
    {
      && 0 <= perChunk < MAX_NODES && 0 < maxChunk <= 255 && seeds.Valid()
      && 0 < |pools| <= maxChunk && Ordered(infos, |pools|) && 0 <= allocChunk < |pools|
      && Chunks(pools, perChunk) && (forall c :: 0 <= c < |pools| ==> pools[c].group < |seeds.groups|)
      && (!seeds.rolled ==> Told(pools, perChunk, issued, seeds.handed))
    }

    ghost predicate Live(id: int)
      requires Chunks(pools, perChunk)
      reads this
    {
      LiveIn(pools, perChunk, id)
    }

    ghost predicate AllFull()
      reads this
    {
      forall c :: 0 <= c < |pools| ==> pools[c].freeSize == 0
    }

    /** yf_hnpool_create, for sizes it accepts. total_num has 24 bits: of the nodes asked for, a chunk
        has what is left of them there. */
    constructor (n: int, chunks: int, space: SeedSpace, now: int)
      requires 0 < n && 0 < chunks <= 255 && space.Valid() && ClockOk(now)
      modifies space
      ensures Valid() && issued == {} && |pools| == 1 && pools[0].freeSize == perChunk && perChunk == n % MAX_NODES
      ensures maxChunk == chunks && seeds == space
      ensures space.Advances() && space.handed == old(space.handed)
      ensures old(space.used) > 0 ==> space.Reach() == old(space.Reach()) + SLICE
      ensures old(space.used) == 0 ==> space.Reach() < now + 2 * SLICE
    {
      perChunk, maxChunk, seeds, infos, allocChunk, issued := n % MAX_NODES, chunks, space, [0], 0, {};
      pools := [];
      new;
      var ok := space.GroupInit(0, now);
      NewPoolOk(perChunk, 0, |space.groups| - 1);
      pools := [NewPool(perChunk, 0, |space.groups| - 1)];
    }

    /** Lines 232-238: a node of chunk `c`. */
    method TakeFrom(c: int, now: int) returns (node: int, id: int)
      requires Valid() && ClockOk(now) && 0 <= c < |pools| && pools[c].freeSize != 0
      modifies this`pools, this`issued, seeds
      ensures Valid() && node == OffsetOf(id) >= 0 && Live(id) && issued == old(issued) + {id}
      ensures |pools| == |old(pools)| && seeds.Advances() && seeds.Reach() == old(seeds.Reach()) + 1
      ensures Took(old(pools), pools, perChunk, id)
      ensures !seeds.rolled ==> id !in old(issued) && PreOf(id) !in old(seeds.handed)
      ensures !seeds.rolled ==> forall other :: other in old(issued) ==> (Live(other) <==> old(Live(other)))
    {
      hide MakeId, ChunkOf, OffsetOf, PreOf, Told, PoolOk, LiveIn, Ordered, Drew, Multis, Took;
      var p := pools[c];
      ghost var handed := seeds.handed;
      var seed := seeds.Alloc(p.group, now);
      seed := seed % LIMIT;    // id_pre has 31 bits
      TakenTold(pools, perChunk, issued, handed, c, seed);
      TookOne(pools, perChunk, c, seed);
      node := p.free[0];
      pools := pools[c := TakeNode(p, seed)];
      id := IdOf(pools[c], node);
      issued := issued + {id};
    }

    /** Lines 261-270: one more chunk. */
    method AddChunk(now: int)
      requires Valid() && ClockOk(now) && |pools| < maxChunk
      modifies this`pools, this`infos, this`allocChunk, seeds
      ensures Valid() && |pools| == |old(pools)| + 1 && pools[..|old(pools)|] == old(pools)
      ensures seeds.Advances() && seeds.handed == old(seeds.handed) && seeds.Reach() == old(seeds.Reach()) + SLICE
      ensures infos == old(infos) + [|old(pools)|] && pools[|pools| - 1].freeSize == perChunk
      ensures allocChunk == old(allocChunk) + 1
      ensures !seeds.rolled ==> forall id :: id in issued ==> (Live(id) <==> old(Live(id)))
    {
      hide MakeId, ChunkOf, OffsetOf, PreOf, Told, PoolOk, LiveIn, Opened, Multis;
      assert pools[0].group < |seeds.groups|;
      var ok := seeds.GroupInit(0, now);
      NewPoolOk(perChunk, |pools|, |seeds.groups| - 1);
      AddedTold(pools, perChunk, issued, seeds.handed, |seeds.groups| - 1);
      infos := infos + [|pools|];
      pools := pools + [NewPool(perChunk, |pools|, |seeds.groups| - 1)];
      allocChunk := allocChunk + 1;
    }

    /** yf_hnpool_alloc. `order` is what yf_sort makes of the chunk table, most free nodes first;
        `memOk` says whether one more chunk can be allocated. */
    method Alloc(order: seq<int>, memOk: bool, now: int) returns (node: int, id: int)
      requires Valid() && ClockOk(now) && Ordered(order, |pools|)
      requires forall k :: 0 <= k < |order| ==> pools[order[k]].freeSize <= pools[order[0]].freeSize
      modifies this, seeds
      ensures Valid() && seeds.Advances()
      ensures node == NULL <==> old(AllFull()) && (perChunk == 0 || old(|pools|) == maxChunk || !memOk)
      ensures node == NULL ==> issued == old(issued) && (perChunk > 0 ==> pools == old(pools))
      ensures node != NULL ==> node == OffsetOf(id) && Live(id) && issued == old(issued) + {id}
      ensures node != NULL ==> Took(old(pools), pools, perChunk, id)
      ensures perChunk > 0 ==> |pools| == |old(pools)| + if old(AllFull()) && node != NULL then 1 else 0
      ensures |pools| >= |old(pools)|
      ensures seeds.Reach() ==
        old(seeds.Reach()) + SLICE * (|pools| - |old(pools)|) + if node == NULL then 0 else 1
      ensures node != NULL && !seeds.rolled ==> id !in old(issued) && PreOf(id) !in old(seeds.handed)
      ensures !seeds.rolled ==> forall other :: other in old(issued) ==> (Live(other) <==> old(Live(other)))
    {
      hide MakeId, ChunkOf, OffsetOf, PreOf, Told, PoolOk, LiveIn, Chunks, SeedSpace.Valid, Took, SeedSpace.Reach;
      var sorted := false;
      ghost var grown := false;
      NoNodes();
      while true
        invariant Valid() && ClockOk(now) && issued == old(issued) && seeds.Advances()
        invariant seeds.handed == old(seeds.handed) && |pools| >= |old(pools)|
        invariant seeds.Reach() == old(seeds.Reach()) + SLICE * (|pools| - |old(pools)|)
        invariant perChunk == 0 ==> AllFull()
        invariant grown ==> pools[infos[allocChunk]].freeSize == perChunk && old(AllFull()) && old(|pools|) < maxChunk
        invariant grown ==> memOk && sorted
        invariant if grown then perChunk > 0 ==> |pools| == |old(pools)| + 1 else pools == old(pools)
        invariant pools[..|old(pools)|] == old(pools)
        invariant sorted && !grown ==> pools[infos[allocChunk]].freeSize != 0
        invariant !seeds.rolled ==> forall other :: other in old(issued) ==> (Live(other) <==> old(Live(other)))
        decreases maxChunk - |pools|, if sorted then 0 else 1, |pools| - allocChunk
      {
        var c := infos[allocChunk];
        if pools[c].freeSize != 0 {
          ghost var grownTo := pools;
          node, id := TakeFrom(c, now);
          TookGrown(old(pools), grownTo, pools, perChunk, id);
          return;
        }
        if allocChunk + 1 == |pools| {
          if !sorted {
            infos := order;
            sorted := true;
            if pools[infos[0]].freeSize != 0 {
              allocChunk := 0;
              continue;
            }
            NoneFree(order);
          }
          if |pools| < maxChunk {
            if !memOk {
              return NULL, 0;
            }
            AddChunk(now);
            NoNodes();
            grown := true;
          } else {
            return NULL, 0;
          }
        } else {
          allocChunk := allocChunk + 1;
        }
      }
    }

    lemma NoneFree(order: seq<int>)
      requires Valid() && Ordered(order, |pools|) && pools[order[0]].freeSize == 0
      requires forall k :: 0 <= k < |order| ==> pools[order[k]].freeSize <= pools[order[0]].freeSize
      ensures AllFull()
    {
      forall c | 0 <= c < |pools|
        ensures pools[c].freeSize == 0
      {
        assert c in order;
        var k :| 0 <= k < |order| && order[k] == c;
      }
    }

    lemma NoNodes()
      requires Valid()
      ensures perChunk == 0 ==> AllFull()
    {
      forall c | 0 <= c < |pools| && perChunk == 0
        ensures pools[c].freeSize == 0
      {
        if pools[c].freeSize != 0 {
          TakeNodeOk(pools[c], 0);
        }
      }
    }

    /** yf_hnpool_free, by id or with the node itself, which lines 85-89 demand to be in use: one id
        stops resolving, all others are unharmed; freeing an id again does nothing. */
    method Free(id: int, given: int)
      requires Valid() && 0 <= id && ChunkOf(id) < |pools| && OffsetOf(id) < perChunk
      requires given != NULL ==> 0 <= ChunkOf(id) && 0 <= given < perChunk && pools[ChunkOf(id)].heads[given].used
      modifies this`pools
      ensures Valid() && issued == old(issued) && |pools| == |old(pools)|
      ensures var gone := if given == NULL then id else IdOf(old(pools)[ChunkOf(id)], given);
        && !Live(gone) && (given != NULL ==> old(Live(gone)))
        && (forall other :: other != gone ==> (Live(other) <==> old(Live(other))))
        && (!old(Live(gone)) ==> pools == old(pools))
    {
      hide MakeId, OffsetOf, PreOf, Told;
      var node := given;
      if node == NULL {
        node := Id2Node(id);
        if node == NULL {
          return;
        }
      }
      var c := ChunkOf(id);
      OneOwner(pools, perChunk, id);
      GivenTold(pools, perChunk, issued, seeds.handed, c, node);
      pools := pools[c := GiveNode(pools[c], node)];
    }

    /** yf_hnpool_id2node: an id resolves exactly as long as it is the id of a node in use. */
    method Id2Node(id: int) returns (node: int)
      requires Valid() && 0 <= id && ChunkOf(id) < |pools| && OffsetOf(id) < perChunk
      ensures node == if Live(id) then OffsetOf(id) else NULL
    {
      OneOwner(pools, perChunk, id);
      node := NodeById(pools[ChunkOf(id)], id);
    }
  }

  /** 2^24 nodes a chunk are none: the table gives out nothing, and never will. */
  method NoNodesAtAll(space: SeedSpace, now: int) returns (pool: HnPool, node: int)
    requires space.Valid() && ClockOk(now)
    modifies space
    ensures fresh(pool) && pool.Valid() && pool.perChunk == 0 && node == NULL
  {
    hide Told, SeedSpace.Valid;
    var id;
    pool := new HnPool(MAX_NODES, 1, space, now);
    node, id := pool.Alloc([0], true, now);
  }

  // ----- several pools on the one counter -----

  /** A pool is none the worse for what others draw from the counter. */
  twostate lemma OthersDraw(b: HnPool)
    requires old(b.Valid()) && b.seeds.Advances() && unchanged(b)
    ensures b.Valid() && forall id :: b.Live(id) <==> old(b.Live(id))
  {
  }

  /** What a pool's user got, in order, and what it has given back. */
  datatype User = User(ids: seq<int>, back: set<int>)

  ghost predicate PlacesExist(n: int, per: int, u: User) {
    forall k :: 0 <= k < |u.ids| ==> 0 <= u.ids[k] && ChunkOf(u.ids[k]) < n && OffsetOf(u.ids[k]) < per
  }

  /** No id was given twice, and those that resolve are the ones not given back. */
  ghost predicate Kept(pools: seq<Pool>, per: int, issued: set<int>, u: User)
    requires Chunks(pools, per)
  {
    && NoDup(u.ids) && (forall id :: id in issued <==> id in u.ids) && u.back <= issued
    && (forall id :: id in issued ==> (LiveIn(pools, per, id) <==> id !in u.back))
  }

  ghost predicate SeedsApart(a: set<int>, b: set<int>) {
    forall x, y :: x in a && y in b ==> PreOf(x) != PreOf(y)
  }

  /** Two pools with the one counter, and their users. */
  ghost predicate Side(p: HnPool, q: HnPool, u: User, v: User)
    reads p, q, p.seeds
  {
    && p != q && p.seeds == q.seeds && p.Valid() && q.Valid()
    && PlacesExist(|p.pools|, p.perChunk, u) && PlacesExist(|q.pools|, q.perChunk, v)
    && (!p.seeds.rolled ==> Kept(p.pools, p.perChunk, p.issued, u) && Kept(q.pools, q.perChunk, q.issued, v)
                            && SeedsApart(p.issued, q.issued))
  }

  lemma DrawnKept(pools: seq<Pool>, pools': seq<Pool>, per: int, issued: set<int>, u: User, id: int)
    requires Chunks(pools, per) && Chunks(pools', per) && Kept(pools, per, issued, u) && id !in issued
    requires LiveIn(pools', per, id)
    requires forall other :: other in issued ==> (LiveIn(pools', per, other) <==> LiveIn(pools, per, other))
    ensures Kept(pools', per, issued + {id}, u.(ids := u.ids + [id]))
  {
    hide LiveIn, Chunks;
  }

  lemma NullKept(pools: seq<Pool>, pools': seq<Pool>, per: int, issued: set<int>, u: User)
    requires Chunks(pools, per) && Chunks(pools', per)
    requires forall other :: other in issued ==> (LiveIn(pools', per, other) <==> LiveIn(pools, per, other))
    ensures Kept(pools, per, issued, u) ==> Kept(pools', per, issued, u)
  {
    hide LiveIn, Chunks;
  }

  lemma PlacesGrow(n: int, n': int, per: int, u: User)
    requires PlacesExist(n, per, u) && n <= n'
    ensures PlacesExist(n', per, u)
  {
  }

  lemma DrawnPlace(pools: seq<Pool>, per: int, u: User, id: int)
    requires Chunks(pools, per) && LiveIn(pools, per, id) && PlacesExist(|pools|, per, u)
    ensures PlacesExist(|pools|, per, u.(ids := u.ids + [id]))
  {
    hide ChunkOf, OffsetOf, PreOf, MakeId;
    assert PoolOk(pools[ChunkOf(id)]);
    IdIn(pools[ChunkOf(id)], OffsetOf(id));
  }

  lemma DrawnApart(pools: seq<Pool>, per: int, a: set<int>, b: set<int>, handed: set<int>, id: int)
    requires SeedsApart(a, b) && Told(pools, per, b, handed) && PreOf(id) !in handed
    ensures SeedsApart(a + {id}, b)
  {
  }

  lemma ReturnedKept(pools: seq<Pool>, pools': seq<Pool>, per: int, issued: set<int>, u: User, id: int)
    requires Chunks(pools, per) && Chunks(pools', per) && Kept(pools, per, issued, u) && id in issued
    requires !LiveIn(pools', per, id)
    requires forall other :: other != id ==> (LiveIn(pools', per, other) <==> LiveIn(pools, per, other))
    ensures Kept(pools', per, issued, u.(back := u.back + {id}))
  {
    hide LiveIn, Chunks;
  }

  ghost predicate Sorts(order: seq<Pool> -> seq<int>) {
    forall ps: seq<Pool> :: |ps| > 0 ==>
      Ordered(order(ps), |ps|) && forall k :: 0 <= k < |ps| ==> ps[order(ps)[k]].freeSize <= ps[order(ps)[0]].freeSize
  }

  /** A pool's chunks and what its user has. */
  datatype Table = Table(pools: seq<Pool>, user: User)

  /** A draw adds nothing exactly when every chunk is full and none with a node can be added. */
  ghost predicate DrewFrom(p: HnPool, t: Table, memOk: bool, t': Table) {
    && Chunks(t.pools, p.perChunk) && Chunks(t'.pools, p.perChunk)
    && if (forall c :: 0 <= c < |t.pools| ==> t.pools[c].freeSize == 0)
          && (p.perChunk == 0 || |t.pools| == p.maxChunk || !memOk) then
         t'.user == t.user && (p.perChunk > 0 ==> t'.pools == t.pools)
       else
         var n := |t.user.ids|;
         && |t'.user.ids| == n + 1 && t'.user == t.user.(ids := t.user.ids + [t'.user.ids[n]])
         && LiveIn(t'.pools, p.perChunk, t'.user.ids[n]) && Took(t.pools, t'.pools, p.perChunk, t'.user.ids[n])
  }

  /** A return makes the id stop resolving, and no other; of an id that does not resolve it changes no node. */
  ghost predicate GaveTo(p: HnPool, t: Table, k: nat, t': Table) {
    && Chunks(t.pools, p.perChunk) && Chunks(t'.pools, p.perChunk)
    && if k < |t.user.ids| then
         var id := t.user.ids[k];
         && t'.user == t.user.(back := t.user.back + {id}) && !LiveIn(t'.pools, p.perChunk, id)
         && (forall other ::
              other != id ==> (LiveIn(t'.pools, p.perChunk, other) <==> LiveIn(t.pools, p.perChunk, other)))
         && (!LiveIn(t.pools, p.perChunk, id) ==> t'.pools == t.pools)
       else
         t' == t
  }

  method DrawBeside(p: HnPool, q: HnPool, u: User, ghost v: User, order: seq<Pool> -> seq<int>, memOk: bool, now: int)
    returns (u': User)
    requires Side(p, q, u, v) && Sorts(order) && ClockOk(now)
    modifies p, p.seeds
    ensures Side(p, q, u', v) && DrewFrom(p, Table(old(p.pools), u), memOk, Table(p.pools, u'))
    ensures p.seeds.Reach() <= old(p.seeds.Reach()) + 1 + SLICE * (|p.pools| - |old(p.pools)|)
  {
    hide MakeId, ChunkOf, OffsetOf, PreOf, PoolOk, LiveIn, Told, Kept, PlacesExist, SeedsApart, Took;
    ghost var pools, issued, handed := p.pools, p.issued, p.seeds.handed;
    var node, id := p.Alloc(order(p.pools), memOk, now);
    OthersDraw(q);
    PlacesGrow(|pools|, |p.pools|, p.perChunk, u);
    if node == NULL {
      if !p.seeds.rolled {
        NullKept(pools, p.pools, p.perChunk, issued, u);
      }
      return u;
    }
    u' := u.(ids := u.ids + [id]);
    DrawnPlace(p.pools, p.perChunk, u, id);
    if !p.seeds.rolled {
      DrawnKept(pools, p.pools, p.perChunk, issued, u, id);
      DrawnApart(q.pools, q.perChunk, issued, q.issued, handed, id);
    }
  }

  method GiveBack(p: HnPool, ghost q: HnPool, u: User, ghost v: User, k: nat) returns (u': User)
    requires Side(p, q, u, v) && k < |u.ids|
    modifies p`pools
    ensures Side(p, q, u', v) && GaveTo(p, Table(old(p.pools), u), k, Table(p.pools, u')) && |p.pools| == |old(p.pools)|
  {
    hide MakeId, ChunkOf, OffsetOf, PreOf, PoolOk, LiveIn, Told, SeedsApart;
    ghost var pools := p.pools;
    p.Free(u.ids[k], NULL);
    u' := u.(back := u.back + {u.ids[k]});
    forall id | id != u.ids[k]
      ensures LiveIn(p.pools, p.perChunk, id) <==> LiveIn(pools, p.perChunk, id)
    {
      assert p.Live(id) <==> old(p.Live(id));
    }
    if !p.seeds.rolled {
      ReturnedKept(pools, p.pools, p.perChunk, p.issued, u, u.ids[k]);
    }
  }

  /** What the users do: draw a node, or give back the one they got as their k-th, perhaps once more. */
  datatype PoolOp = Draw(first: bool, memOk: bool, now: int) | Return(first: bool, k: nat)

  datatype Tables = Tables(first: Table, second: Table)

  /** What one operation does to the two pools and their users. */
  ghost predicate TwoStep(p: HnPool, q: HnPool, m: Tables, op: PoolOp, m': Tables) {
    match op
    case Draw(first, memOk, now) =>
      if first then m'.second == m.second && DrewFrom(p, m.first, memOk, m'.first)
      else m'.first == m.first && DrewFrom(q, m.second, memOk, m'.second)
    case Return(first, k) =>
      if first then m'.second == m.second && GaveTo(p, m.first, k, m'.first)
      else m'.first == m.first && GaveTo(q, m.second, k, m'.second)
  }

  ghost predicate TwoTrace(p: HnPool, q: HnPool, ops: seq<PoolOp>, n: nat, ms: seq<Tables>)
    requires n <= |ops|
  {
    |ms| == n + 1 && forall i :: 0 <= i < n ==> TwoStep(p, q, ms[i], ops[i], ms[i + 1])
  }

  lemma TwoTraceOn(p: HnPool, q: HnPool, ops: seq<PoolOp>, n: nat, ms: seq<Tables>, m: Tables)
    requires n < |ops| && TwoTrace(p, q, ops, n, ms) && TwoStep(p, q, ms[n], ops[n], m)
    ensures TwoTrace(p, q, ops, n + 1, ms + [m])
  {
    hide TwoStep;
  }

  method ExecTwo(p: HnPool, q: HnPool, u: User, v: User, op: PoolOp, order: seq<Pool> -> seq<int>)
    returns (u': User, v': User)
    requires Side(p, q, u, v) && Sorts(order) && (op.Draw? ==> ClockOk(op.now))
    modifies p, q, p.seeds
    ensures Side(p, q, u', v')
    ensures TwoStep(p, q, Tables(Table(old(p.pools), u), Table(old(q.pools), v)), op,
                    Tables(Table(p.pools, u'), Table(q.pools, v')))
    ensures p.seeds.Reach() <=
      old(p.seeds.Reach()) + 1 + SLICE * (|p.pools| - |old(p.pools)| + |q.pools| - |old(q.pools)|)
  {
    hide Sorts, Kept, PlacesExist, ClockOk, DrewFrom, LiveIn;
    u', v' := u, v;
    match op
    case Draw(first, memOk, now) =>
      if first {
        u' := DrawBeside(p, q, u, v, order, memOk, now);
      } else {
        v' := DrawBeside(q, p, v, u, order, memOk, now);
      }
    case Return(first, k) =>
      if first && k < |u.ids| {
        u' := GiveBack(p, q, u, v, k);
      } else if !first && k < |v.ids| {
        v' := GiveBack(q, p, v, u, k);
      }
  }

  /** Pools that draw on one counter, in any order: each operation does what it says, and until the
      counter first rolls over no id is given twice, no two ids of different pools share a seed, and an id
      given back never resolves again. It does not roll over while operations, and chunks that can still
      be added, leave it below its limit. */
  method RunTwo(p: HnPool, q: HnPool, ops: seq<PoolOp>, order: seq<Pool> -> seq<int>)
    returns (u: User, v: User, ghost ms: seq<Tables>)
    requires Side(p, q, User([], {}), User([], {})) && Sorts(order)
    requires forall i :: 0 <= i < |ops| && ops[i].Draw? ==> ClockOk(ops[i].now)
    modifies p, q, p.seeds
    ensures p.Valid() && q.Valid() && TwoTrace(p, q, ops, |ops|, ms)
    ensures ms[0] == Tables(Table(old(p.pools), User([], {})), Table(old(q.pools), User([], {})))
    ensures ms[|ops|] == Tables(Table(p.pools, u), Table(q.pools, v))
    ensures !p.seeds.rolled ==> Kept(p.pools, p.perChunk, p.issued, u) && Kept(q.pools, q.perChunk, q.issued, v)
    ensures !p.seeds.rolled ==> SeedsApart(p.issued, q.issued)
    ensures var chunks := p.maxChunk - |old(p.pools)| + q.maxChunk - |old(q.pools)|;
      old(p.seeds.Reach()) + |ops| + SLICE * chunks < LIMIT ==> !p.seeds.rolled
  {
    hide Sorts, Kept, PlacesExist, ClockOk, TwoStep;
    u, v := User([], {}), User([], {});
    ms := [Tables(Table(p.pools, u), Table(q.pools, v))];
    for i := 0 to |ops|
      invariant Side(p, q, u, v) && TwoTrace(p, q, ops, i, ms)
      invariant ms[0] == Tables(Table(old(p.pools), User([], {})), Table(old(q.pools), User([], {})))
      invariant ms[i] == Tables(Table(p.pools, u), Table(q.pools, v))
      invariant p.seeds.Reach() <=
        old(p.seeds.Reach()) + i + SLICE * (|p.pools| - |old(p.pools)| + |q.pools| - |old(q.pools)|)
    {
      u, v := ExecTwo(p, q, u, v, ops[i], order);
      TwoTraceOn(p, q, ops, i, ms, Tables(Table(p.pools, u), Table(q.pools, v)));
      ms := ms + [Tables(Table(p.pools, u), Table(q.pools, v))];
    }
  }

  /** A reordering of the numbers below `n`. */
  ghost predicate Ordered(infos: seq<int>, n: int) {
    && |infos| == n && (forall k :: 0 <= k < n ==> 0 <= infos[k] < n)
    && (forall c :: 0 <= c < n ==> c in infos)
  }
}
