/** The pool allocator (src/base_struct/yf_mem_pool.c) on addresses: blocks that are bumped, a list
    of large areas, and the regions handed out. */
module MemPool {
  import opened Arith

  const NULL := -1
  const ALIGN := 8              // YF_ALIGNMENT
  const BLOCK_ALIGN := 16       // YF_POOL_ALIGNMENT
  const DATA_HEAD := 32         // sizeof(yf_pool_data_t)
  const POOL_HEAD := 80         // sizeof(yf_pool_t)
  const LARGE_HEAD := 16        // sizeof(yf_pool_large_t)
  const PAGE_MAX := 4095        // YF_MAX_ALLOC_FROM_POOL

  /** Addresses from `lo` up to, not including, `hi`. */
  datatype Region = Region(lo: int, hi: int)

  /** yf_pool_data_t of the block at `lo`. */
  datatype Block = Block(lo: int, last: int, hi: int, failed: int)

  ghost predicate Apart(a: Region, b: Region) { a.lo >= a.hi || b.lo >= b.hi || a.hi <= b.lo || b.hi <= a.lo }

  function Whole(b: Block): Region { Region(b.lo, b.hi) }

  /** yf_align_ptr */
  function AlignUp(x: int): (r: int)
    ensures x <= r < x + ALIGN && r % ALIGN == 0
  {
    RoundUp(x, ALIGN)
  }

  const WORD := 0x1_0000_0000_0000_0000

  /** A pointer difference as the size_t it is compared as. */
  function SizeDiff(hi: int, m: int): int { if hi >= m then hi - m else hi - m + WORD }

  /** The test at lines 147 and 177 keeps the region inside the block if and only if the aligned
      start is not beyond the end already. */
  lemma TestExact(last: int, hi: int, size: nat)
    requires last <= hi && 0 < size < WORD / 2 && SizeDiff(hi, AlignUp(last)) >= size
    ensures AlignUp(last) + size <= hi <==> AlignUp(last) <= hi
  {
  }

  /** Eight bytes with three left: the start moves up beyond the end and the difference wraps. */
  lemma PassesBeyondEnd()
    ensures SizeDiff(20, AlignUp(17)) >= 8 && AlignUp(17) + 8 > 20
  {
  }

  /** Aligned ends stay aligned: bumping to a multiple never passes a multiple. */
  lemma AlignBelow(x: int, hi: int)
    requires x <= hi && hi % ALIGN == 0
    ensures AlignUp(x) <= hi
  {
  }

  ghost predicate BlockOk(b: Block, psize: int) {
    b.lo > 0 && b.lo % BLOCK_ALIGN == 0 && b.hi == b.lo + psize && b.lo + DATA_HEAD <= b.last <= b.hi
  }

  ghost predicate BlocksOk(bs: seq<Block>, psize: int) {
    && bs != [] && bs[0].lo + POOL_HEAD <= bs[0].last
    && (forall i :: 0 <= i < |bs| ==> BlockOk(bs[i], psize))
    && (forall i, j :: 0 <= i < j < |bs| ==> Apart(Whole(bs[i]), Whole(bs[j])))
  }

  /** Regions of one block: behind its header, before `last`, and pairwise apart. Empty ones may be
      anywhere. */
  ghost predicate Filled(b: Block, rs: set<Region>) {
    && (forall r :: r in rs ==> r.lo == r.hi || (b.lo + DATA_HEAD <= r.lo < r.hi <= b.last))
    && (forall a, c :: a in rs && c in rs && a != c ==> Apart(a, c))
  }

  ghost predicate AllFilled(bs: seq<Block>, live: seq<set<Region>>) {
    && |live| == |bs| > 0 && (forall i :: 0 <= i < |bs| ==> Filled(bs[i], live[i]))
    && forall r :: r in live[0] ==> r.lo == r.hi || bs[0].lo + POOL_HEAD <= r.lo
  }

  /** Large areas: apart from each other and from every block. */
  ghost predicate AreasOk(bs: seq<Block>, areas: set<Region>) {
    && (forall a, c :: a in areas && c in areas && a != c ==> Apart(a, c))
    && (forall a, i :: a in areas && 0 <= i < |bs| ==> Apart(a, Whole(bs[i])))
    && (forall a :: a in areas ==> a.lo < a.hi)
  }

  /** An address range the system allocator may hand out next. */
  ghost predicate Unclaimed(bs: seq<Block>, areas: set<Region>, r: Region) {
    && r.lo > 0 && (forall i :: 0 <= i < |bs| ==> Apart(r, Whole(bs[i])))
    && (forall a :: a in areas ==> Apart(r, a))
  }

  ghost predicate Handed(bs: seq<Block>, live: seq<set<Region>>, areas: set<Region>, r: Region) {
    r in areas || exists i :: 0 <= i < |live| && r in live[i]
  }

  lemma AreasApart(bs: seq<Block>, areas: set<Region>, r: Region, s: Region)
    requires AreasOk(bs, areas) && r in areas && s in areas && r != s
    ensures Apart(r, s)
  {
  }

  lemma AreaAndBlock(bs: seq<Block>, psize: int, live: seq<set<Region>>, areas: set<Region>, r: Region, s: Region,
                     j: nat)
    requires BlocksOk(bs, psize) && AllFilled(bs, live) && AreasOk(bs, areas) && r in areas && j < |live|
    requires s in live[j]
    ensures Apart(r, s) && Apart(s, r)
  {
    assert BlockOk(bs[j], psize) && Filled(bs[j], live[j]) && Apart(r, Whole(bs[j]));
  }

  lemma BlocksApart(bs: seq<Block>, psize: int, live: seq<set<Region>>, r: Region, s: Region, i: nat, j: nat)
    requires BlocksOk(bs, psize) && AllFilled(bs, live) && i <= j < |live| && r in live[i] && s in live[j] && r != s
    ensures Apart(r, s) && Apart(s, r)
  {
    assert BlockOk(bs[i], psize) && BlockOk(bs[j], psize) && Filled(bs[i], live[i]) && Filled(bs[j], live[j]);
    if i < j {
      assert Apart(Whole(bs[i]), Whole(bs[j]));
    }
  }

  /** Any two regions handed out are apart. */
  lemma HandedApart(bs: seq<Block>, psize: int, live: seq<set<Region>>, areas: set<Region>, r: Region, s: Region)
    requires BlocksOk(bs, psize) && AllFilled(bs, live) && AreasOk(bs, areas)
    requires Handed(bs, live, areas, r) && Handed(bs, live, areas, s) && r != s
    ensures Apart(r, s)
  {
    hide BlocksOk, AllFilled, AreasOk, Apart;
    if r in areas && s in areas {
      AreasApart(bs, areas, r, s);
    } else if r in areas {
      var j :| 0 <= j < |live| && s in live[j];
      AreaAndBlock(bs, psize, live, areas, r, s, j);
    } else {
      var i :| 0 <= i < |live| && r in live[i];
      if s in areas {
        AreaAndBlock(bs, psize, live, areas, s, r, i);
      } else {
        var j :| 0 <= j < |live| && s in live[j];
        if i <= j {
          BlocksApart(bs, psize, live, r, s, i, j);
        } else {
          BlocksApart(bs, psize, live, s, r, j, i);
        }
      }
    }
  }

  lemma FilledMore(b: Block, rs: set<Region>, m: int, size: nat)
    requires Filled(b, rs) && b.lo + DATA_HEAD <= b.last <= m
    ensures Filled(b.(last := m + size), rs + {Region(m, m + size)})
  {
  }

  lemma BumpBlocks(bs: seq<Block>, psize: int, i: nat, last: int)
    requires BlocksOk(bs, psize) && i < |bs| && bs[i].last <= last <= bs[i].hi
    ensures BlocksOk(bs[i := bs[i].(last := last)], psize)
  {
    var bs' := bs[i := bs[i].(last := last)];
    forall k, l | 0 <= k < l < |bs'|
      ensures Apart(Whole(bs'[k]), Whole(bs'[l]))
    {
      assert Apart(Whole(bs[k]), Whole(bs[l]));
    }
  }

  lemma BumpOk(bs: seq<Block>, psize: int, live: seq<set<Region>>, areas: set<Region>, i: nat, m: int, size: nat)
    requires BlocksOk(bs, psize) && AllFilled(bs, live) && AreasOk(bs, areas) && i < |bs|
    requires bs[i].last <= m && m + size <= bs[i].hi
    ensures var bs', live' := bs[i := bs[i].(last := m + size)], live[i := live[i] + {Region(m, m + size)}];
      BlocksOk(bs', psize) && AllFilled(bs', live') && AreasOk(bs', areas)
  {
    hide Filled, Apart;
    BumpBlocks(bs, psize, i, m + size);
    assert BlockOk(bs[i], psize);
    FilledMore(bs[i], live[i], m, size);
    var bs' := bs[i := bs[i].(last := m + size)];
    assert forall k :: 0 <= k < |bs| ==> Whole(bs'[k]) == Whole(bs[k]);
  }

  lemma AddedBlock(bs: seq<Block>, psize: int, b: Block)
    requires BlocksOk(bs, psize) && BlockOk(b, psize) && forall k :: 0 <= k < |bs| ==> Apart(Whole(b), Whole(bs[k]))
    ensures BlocksOk(bs + [b], psize)
  {
    var bs' := bs + [b];
    forall k, l | 0 <= k < l < |bs'|
      ensures Apart(Whole(bs'[k]), Whole(bs'[l]))
    {
      if l == |bs| {
        assert Apart(Whole(b), Whole(bs[k]));
      } else {
        assert Apart(Whole(bs[k]), Whole(bs[l]));
      }
    }
  }

  lemma HeadAligned(at: int)
    requires at % BLOCK_ALIGN == 0
    ensures AlignUp(at + DATA_HEAD) == at + DATA_HEAD
  {
    var k := at / BLOCK_ALIGN;
    assert at == k * BLOCK_ALIGN;
    DivIs(at + DATA_HEAD + (ALIGN - 1), ALIGN, 2 * k + 4, 7);
  }

  lemma AddedFilled(bs: seq<Block>, live: seq<set<Region>>, b: Block, rs: set<Region>)
    requires AllFilled(bs, live) && Filled(b, rs)
    ensures AllFilled(bs + [b], live + [rs])
  {
    hide Filled;
  }

  lemma NewBlockOk(bs: seq<Block>, psize: int, live: seq<set<Region>>, areas: set<Region>, at: int, size: nat)
    requires BlocksOk(bs, psize) && AllFilled(bs, live) && AreasOk(bs, areas)
    requires Unclaimed(bs, areas, Region(at, at + psize)) && at % BLOCK_ALIGN == 0 && DATA_HEAD + size <= psize
    ensures var m := AlignUp(at + DATA_HEAD);
      var bs', live' := bs + [Block(at, m + size, at + psize, 0)], live + [{Region(m, m + size)}];
      m == at + DATA_HEAD > 0 && BlocksOk(bs', psize) && AllFilled(bs', live') && AreasOk(bs', areas)
  {
    hide BlocksOk, AllFilled, AreasOk, Filled, Apart, AlignUp;
    var b := Block(at, at + DATA_HEAD + size, at + psize, 0);
    HeadAligned(at);
    AddedBlock(bs, psize, b);
    OneFilled(b, at + DATA_HEAD, at + DATA_HEAD + size);
    AddedFilled(bs, live, b, {Region(at + DATA_HEAD, at + DATA_HEAD + size)});
    AddedAreas(bs, b, areas);
  }

  lemma OneFilled(b: Block, lo: int, hi: int)
    requires b.lo + DATA_HEAD <= lo <= hi <= b.last
    ensures Filled(b, {Region(lo, hi)})
  {
  }

  lemma AddedAreas(bs: seq<Block>, b: Block, areas: set<Region>)
    requires AreasOk(bs, areas) && Unclaimed(bs, areas, Whole(b))
    ensures AreasOk(bs + [b], areas)
  {
    var bs' := bs + [b];
    forall a, i | a in areas && 0 <= i < |bs'|
      ensures Apart(a, Whole(bs'[i]))
    {
      if i == |bs| {
        assert Apart(Whole(b), a);
      } else {
        assert Apart(a, Whole(bs[i]));
      }
    }
  }

  /** What an allocation promises of the region it hands out: everything handed out before still
      is, and apart from it. */
  ghost predicate Gave(bs: seq<Block>, live: seq<set<Region>>, areas: set<Region>,
                       bs': seq<Block>, live': seq<set<Region>>, areas': set<Region>, r: Region) {
    && r.lo > 0 && Handed(bs', live', areas', r)
    && forall s :: Handed(bs, live, areas, s) ==> Handed(bs', live', areas', s) && Apart(s, r)
  }

  /** The blocks there were stay where they are, and at most the one asked for is added. */
  ghost predicate Grew(bs: seq<Block>, bs': seq<Block>, got: int, psize: int) {
    && |bs| <= |bs'| <= |bs| + 1 && (forall k :: 0 <= k < |bs| ==> Whole(bs'[k]) == Whole(bs[k]))
    && (|bs'| == |bs| + 1 ==> got != NULL && Whole(bs'[|bs|]) == Region(got, got + psize))
  }

  /** Where a region would start in a block, and whether it fits. */
  function StartIn(b: Block, aligned: bool): int { if aligned then AlignUp(b.last) else b.last }

  predicate HasRoom(b: Block, size: int, aligned: bool) { StartIn(b, aligned) + size <= b.hi }

  /** No block from the current one on has room. */
  ghost predicate NoRoom(bs: seq<Block>, cur: int, size: int, aligned: bool) {
    forall k :: 0 <= cur <= k < |bs| ==> !HasRoom(bs[k], size, aligned)
  }

  /** The region is the next of the first block with room, and only that block is filled further. */
  ghost predicate Placed(bs: seq<Block>, cur: int, size: int, aligned: bool, m: int, bs': seq<Block>) {
    exists p :: PlacedAt(bs, cur, size, aligned, m, bs', p)
  }

  ghost predicate PlacedAt(bs: seq<Block>, cur: int, size: int, aligned: bool, m: int, bs': seq<Block>, p: int) {
    && 0 <= cur <= p < |bs| && HasRoom(bs[p], size, aligned) && m == StartIn(bs[p], aligned)
    && (forall k :: cur <= k < p ==> !HasRoom(bs[k], size, aligned))
    && bs' == bs[p := bs[p].(last := m + size)]
  }

  /** A failure counted on every block from `cur` on but the last; the search will start behind the last
      of those that had failed five times before. */
  ghost predicate Tallied(bs: seq<Block>, cur: int, bs': seq<Block>, cur': int) {
    && |bs'| == |bs| && 0 <= cur <= cur' < |bs|
    && (forall k :: 0 <= k < |bs| ==>
          bs'[k] == bs[k].(failed := bs[k].failed + if cur <= k < |bs| - 1 then 1 else 0))
    && (cur' > cur ==> bs[cur' - 1].failed > 4) && forall k :: cur' <= k < |bs| - 1 ==> bs[k].failed <= 4
  }

  /** A new block at `got`, with the region at its start. */
  ghost predicate Added(bs: seq<Block>, cur: int, size: int, got: int, psize: int, m: int, bs': seq<Block>, cur': int) {
    && |bs'| == |bs| + 1 && Tallied(bs, cur, bs'[..|bs|], cur')
    && m == got + DATA_HEAD && bs'[|bs|] == Block(got, m + size, got + psize, 0)
  }

  /** What an allocation from the blocks comes to: room found, a new block, or nothing. */
  ghost predicate FromBlocks(bs: seq<Block>, cur: int, size: int, aligned: bool, got: int, psize: int, m: int,
                             bs': seq<Block>, cur': int) {
    if !NoRoom(bs, cur, size, aligned) then m != NULL && Placed(bs, cur, size, aligned, m, bs') && cur' == cur
    else if got == NULL then m == NULL && bs' == bs && cur' == cur
    else m != NULL && Added(bs, cur, size, got, psize, m, bs', cur')
  }

  /** None of the first five entries of the list is free. */
  ghost predicate NoSlot(larges: seq<int>) { forall j :: 0 <= j < |larges| && j < 5 ==> larges[j] != NULL }

  /** The area's address goes into the first free one of those entries, or in front of all. */
  ghost predicate Entered(larges: seq<int>, area: int, larges': seq<int>) {
    if NoSlot(larges) then larges' == [area] + larges
    else exists k :: EnteredAt(larges, area, larges', k)
  }

  ghost predicate EnteredAt(larges: seq<int>, area: int, larges': seq<int>, k: int) {
    && 0 <= k < |larges| && k < 5 && larges[k] == NULL && (forall j :: 0 <= j < k ==> larges[j] != NULL)
    && larges' == larges[k := area]
  }

  /** There is a large area at the address. */
  ghost predicate Area(areas: set<Region>, at: int) {
    exists r :: r in areas && r.lo == at
  }

  class Pool {
    const psize: int           // block size
    const most: int            // pool->max
    var blocks: seq<Block>     // in the order of d.next
    var current: nat
    var larges: seq<int>       // pool->large, newest first: addresses, or NULL once freed
    ghost var live: seq<set<Region>>    // handed out, block by block
    ghost var areas: set<Region>        // large areas

    ghost predicate Valid()
      reads this
    {
      && psize % ALIGN == 0 && POOL_HEAD + LARGE_HEAD <= psize && LARGE_HEAD <= most <= psize - POOL_HEAD
      && BlocksOk(blocks, psize) && AllFilled(blocks, live) && AreasOk(blocks, areas)
      && current < |blocks|
      && (forall r :: r in areas ==> r.lo > 0 && r.lo in larges)
      && (forall k :: 0 <= k < |larges| && larges[k] != NULL ==> Area(areas, larges[k]))
      && (forall j, k :: 0 <= j < k < |larges| && larges[j] == larges[k] ==> larges[j] == NULL)
    }

    /** The region is handed out and not freed. */
    ghost predicate Live(r: Region)
      reads this
    {
      Handed(blocks, live, areas, r)
    }

    /** yf_create_pool, for block sizes that hold the headers and keep the alignment. */
    constructor (size: int, at: int)
      requires size % ALIGN == 0 && POOL_HEAD + LARGE_HEAD <= size && at > 0 && at % BLOCK_ALIGN == 0
      ensures Valid() && areas == {} && live == [{}] && psize == size
      ensures blocks == [Block(at, at + POOL_HEAD, at + size, 0)] && current == 0 && larges == []
      ensures most == if size - POOL_HEAD < PAGE_MAX then size - POOL_HEAD else PAGE_MAX
    {
      psize := size;
      most := if size - POOL_HEAD < PAGE_MAX then size - POOL_HEAD else PAGE_MAX;
      blocks, current, larges := [Block(at, at + POOL_HEAD, at + size, 0)], 0, [];
      live, areas := [{}], {};
    }

    ghost predicate Inside(m: int, size: nat)
      reads this
    {
      exists i :: 0 <= i < |blocks| && blocks[i].lo + DATA_HEAD <= m && m + size <= blocks[i].hi
    }

    /** When there is no memory to hand out: a small region finds no room in any block from the current
        one on, and there is no new block; a large area is not there, or its list entry finds no room. */
    ghost predicate Refuses(size: nat, aligned: bool, area: int, got: int)
      reads this
    {
      if size <= most then got == NULL && NoRoom(blocks, current, size, aligned)
      else RefusesLarge(area, got)
    }

    ghost predicate RefusesLarge(area: int, got: int)
      reads this
    {
      area == NULL || (got == NULL && NoSlot(larges) && NoRoom(blocks, current, LARGE_HEAD, true))
    }

    /** yf_palloc_block. `got` is what yf_memalign gives. */
    method AllocBlock(size: nat, got: int) returns (m: int)
      requires Valid() && size <= most
      requires got != NULL ==> got % BLOCK_ALIGN == 0 && Unclaimed(blocks, areas, Region(got, got + psize))
      modifies this`blocks, this`current, this`live
      ensures Valid() && (m == NULL <==> got == NULL)
      ensures m == NULL ==> blocks == old(blocks) && live == old(live) && current == old(current)
      ensures m != NULL ==> Added(old(blocks), old(current), size, got, psize, m, blocks, current)
      ensures m != NULL ==> Gave(old(blocks), old(live), old(areas), blocks, live, areas, Region(m, m + size))
      ensures m != NULL ==> m % ALIGN == 0 && Inside(m, size)
      ensures Grew(old(blocks), blocks, got, psize)
    {
      hide BlocksOk, AllFilled, AreasOk, Apart, Handed, Unclaimed, Tallied;
      if got == NULL {
        return NULL;
      }
      m := AlignUp(got + DATA_HEAD);
      LiveLen(blocks, live, psize, areas);
      NewBlockOk(blocks, psize, live, areas, got, size);
      if size > 0 {
        FreshOut(blocks, psize, live, areas, Region(got, got + psize), Region(m, m + size));
      }
      var new', cur, bs' := Block(got, m + size, got + psize, 0), 0, [];
      bs', cur := CountFailures();
      TalliedSame(blocks, current, bs', cur);
      CountsOnly(blocks + [new'], bs' + [new'], psize, live + [{Region(m, m + size)}], areas);
      blocks := bs' + [new'];
      live := live + [{Region(m, m + size)}];
      current := cur;
      HandedMore(old(blocks), old(live), areas, blocks, live, Region(m, m + size), psize, |blocks| - 1);
      assert blocks[|blocks| - 1].lo + DATA_HEAD <= m && m + size <= blocks[|blocks| - 1].hi;
    }

    /** Lines 219-231: count a failure on every block from the current one on but the last, and move
        on from those that failed too often. */
    method CountFailures() returns (bs: seq<Block>, cur: nat)
      requires current < |blocks|
      ensures Tallied(blocks, current, bs, cur)
    {
      cur, bs := current, blocks;
      var p := current;
      while p + 1 < |bs|
        invariant current <= cur <= p < |bs| == |blocks|
        invariant forall k ::
          0 <= k < |blocks| ==> bs[k] == blocks[k].(failed := blocks[k].failed + if current <= k < p then 1 else 0)
        invariant (cur > current ==> blocks[cur - 1].failed > 4) && forall k :: cur <= k < p ==> blocks[k].failed <= 4
      {
        if bs[p].failed > 4 {
          cur := p + 1;
        }
        bs := bs[p := bs[p].(failed := bs[p].failed + 1)];
        p := p + 1;
      }
    }

    /** yf_palloc (`aligned`) and yf_pnalloc for sizes up to pool->max. */
    method AllocSmall(size: nat, aligned: bool, got: int) returns (m: int)
      requires Valid() && size <= most
      requires got != NULL ==> got % BLOCK_ALIGN == 0 && Unclaimed(blocks, areas, Region(got, got + psize))
      modifies this`blocks, this`current, this`live
      ensures Valid()
      ensures FromBlocks(old(blocks), old(current), size, aligned, got, psize, m, blocks, current)
      ensures m == NULL ==> live == old(live)
      ensures m != NULL ==> Gave(old(blocks), old(live), old(areas), blocks, live, areas, Region(m, m + size))
      ensures m != NULL ==> (aligned ==> m % ALIGN == 0) && Inside(m, size)
      ensures Grew(old(blocks), blocks, got, psize)
    {
      hide BlocksOk, AllFilled, AreasOk, Apart, Handed, Unclaimed, AlignUp, Added, Gave;
      var p := current;
      while p < |blocks|
        invariant current <= p <= |blocks| && forall k :: current <= k < p ==> !HasRoom(blocks[k], size, aligned)
        invariant blocks == old(blocks) && live == old(live) && current == old(current) && Valid()
      {
        m := if aligned then AlignUp(blocks[p].last) else blocks[p].last;
        SpanOf(blocks, psize, p);
        AlignBelow(blocks[p].last, blocks[p].hi);
        if SizeDiff(blocks[p].hi, m) >= size {
          Bump(p, m, size);
          assert PlacedAt(old(blocks), old(current), size, aligned, m, blocks, p);
          return;
        }
        p := p + 1;
      }
      m := AllocBlock(size, got);
    }

    /** Lines 149 and 179 */
    method Bump(p: int, m: int, size: nat)
      requires Valid() && 0 <= p < |blocks| && blocks[p].last <= m && m + size <= blocks[p].hi
      modifies this`blocks, this`live
      ensures Valid() && Gave(old(blocks), old(live), old(areas), blocks, live, areas, Region(m, m + size))
      ensures Inside(m, size) && blocks == old(blocks)[p := old(blocks)[p].(last := m + size)]
    {
      hide BlocksOk, AllFilled, AreasOk, Apart, Handed;
      SpanOf(blocks, psize, p);
      LiveLen(blocks, live, psize, areas);
      BumpOk(blocks, psize, live, areas, p, m, size);
      if size > 0 {
        FreshIn(blocks, psize, live, areas, p, Region(m, m + size));
      }
      blocks := blocks[p := blocks[p].(last := m + size)];
      live := live[p := live[p] + {Region(m, m + size)}];
      HandedMore(old(blocks), old(live), areas, blocks, live, Region(m, m + size), psize, p);
      assert blocks[p].lo + DATA_HEAD <= m && m + size <= blocks[p].hi;
    }

    /** yf_palloc_large. `area` is what yf_alloc gives for the area, `got` a block for the list entry. */
    method AllocLarge(size: nat, area: int, got: int) returns (m: int)
      requires Valid() && size > 0
      requires area != NULL ==> Unclaimed(blocks, areas, Region(area, area + size))
      requires got != NULL ==> got % BLOCK_ALIGN == 0 && Unclaimed(blocks, areas, Region(got, got + psize))
      requires area != NULL && got != NULL ==> Apart(Region(area, area + size), Region(got, got + psize))
      modifies this
      ensures Valid() && (m == NULL || m == area)
      ensures m == NULL <==> old(RefusesLarge(area, got))
      ensures m == NULL ==> blocks == old(blocks) && live == old(live) && areas == old(areas) && larges == old(larges)
      ensures m != NULL ==> Entered(old(larges), area, larges)
      ensures m != NULL && !NoSlot(old(larges)) ==> blocks == old(blocks) && current == old(current)
      ensures m != NULL && NoSlot(old(larges)) ==> exists head ::
        FromBlocks(old(blocks), old(current), LARGE_HEAD, true, got, psize, head, blocks, current)
      ensures m != NULL ==> Gave(old(blocks), old(live), old(areas), blocks, live, areas, Region(m, m + size))
      ensures m != NULL ==> areas == old(areas) + {Region(m, m + size)} && !Area(old(areas), m)
    {
      hide BlocksOk, AllFilled, AreasOk, Apart, Handed, Unclaimed, Gave, Grew, Area, NoRoom, Placed, Added;
      if area == NULL {
        return NULL;
      }
      var k := FreeSlot();
      NotAnArea(blocks, areas, area, size);
      AreaOk(blocks, psize, live, areas, area, size);
      AreaMore(areas, Region(area, area + size));
      if k < |larges| {
        larges := larges[k := area];
        areas := areas + {Region(area, area + size)};
        SlotsKept(old(larges), larges, k, area);
        assert EnteredAt(old(larges), area, larges, k);
        return area;
      }
      var head := AllocSmall(LARGE_HEAD, true, got);
      if head == NULL {
        return NULL;
      }
      StillUnclaimed(old(blocks), blocks, areas, area, size, got, psize);
      AreaOk(blocks, psize, live, areas, area, size);
      GaveTwice(old(blocks), old(live), areas, blocks, live, Region(head, head + LARGE_HEAD),
                Region(area, area + size));
      larges := [area] + larges;
      areas := areas + {Region(area, area + size)};
      SlotsPushed(old(larges), larges, area);
      m := area;
    }

    /** Lines 250-264: one of the first five entries whose area was freed. */
    method FreeSlot() returns (k: nat)
      ensures k <= |larges| && (k == |larges| <==> NoSlot(larges))
      ensures k < |larges| ==> k < 5 && larges[k] == NULL && forall j :: 0 <= j < k ==> larges[j] != NULL
    {
      var n := 0;
      k := 0;
      while k < |larges|
        invariant k == n <= |larges| && n <= 4 + 1 && forall j :: 0 <= j < k ==> larges[j] != NULL
        invariant n <= 4
      {
        if larges[k] == NULL {
          return;
        }
        if n > 3 {
          return |larges|;
        }
        n := n + 1;
        k := k + 1;
      }
    }

    /** yf_palloc and yf_pnalloc. */
    method Alloc(size: nat, aligned: bool, area: int, got: int) returns (m: int)
      requires Valid()
      requires area != NULL && size > most ==> area % ALIGN == 0 && Unclaimed(blocks, areas, Region(area, area + size))
      requires got != NULL ==> got % BLOCK_ALIGN == 0 && Unclaimed(blocks, areas, Region(got, got + psize))
      requires area != NULL && size > most && got != NULL ==> Apart(Region(area, area + size), Region(got, got + psize))
      modifies this
      ensures Valid()
      ensures m == NULL <==> old(Refuses(size, aligned, area, got))
      ensures m == NULL ==> blocks == old(blocks) && live == old(live) && areas == old(areas)
      ensures size <= most ==> FromBlocks(old(blocks), old(current), size, aligned, got, psize, m, blocks, current)
      ensures size > most && m != NULL ==> Entered(old(larges), area, larges)
      ensures size > most && m != NULL && !NoSlot(old(larges)) ==> blocks == old(blocks) && current == old(current)
      ensures size > most && m != NULL && NoSlot(old(larges)) ==> exists head ::
        FromBlocks(old(blocks), old(current), LARGE_HEAD, true, got, psize, head, blocks, current)
      ensures m != NULL ==> Gave(old(blocks), old(live), old(areas), blocks, live, areas, Region(m, m + size))
      ensures m != NULL ==> (aligned ==> m % ALIGN == 0) && if size <= most then Inside(m, size) else m == area
      ensures size <= most ==> areas == old(areas) && Grew(old(blocks), blocks, got, psize)
    {
      hide BlocksOk, AllFilled, AreasOk, Apart, Handed, Unclaimed, Gave, AlignUp, NoRoom, Placed, Added, Entered,
        NoSlot;
      if size <= most {
        m := AllocSmall(size, aligned, got);
      } else {
        m := AllocLarge(size, area, got);
      }
    }

    /** yf_pfree: the first entry with that address; what was handed out from blocks is declined. */
    method Free(p: int) returns (ok: bool)
      requires Valid()
      modifies this`larges, this`areas
      ensures Valid() && (p != NULL ==> (ok <==> Area(old(areas), p))) && (ok <==> p in old(larges))
      ensures if ok then exists k :: 0 <= k < |old(larges)| && old(larges)[k] == p && larges == old(larges)[k := NULL]
        else larges == old(larges)
      ensures forall r :: Live(r) <==> old(Live(r)) && !(r in old(areas) && r.lo == p && ok && !InBlocks(live, r))
    {
      hide BlocksOk, AllFilled, Apart;
      var k := 0;
      while k < |larges|
        invariant k <= |larges| && larges == old(larges) && areas == old(areas)
        invariant forall j :: 0 <= j < k ==> larges[j] != p
        invariant Valid()
      {
        if larges[k] == p {
          var left := larges[k := NULL];
          FreedSlots(larges, left, k, p);
          larges := left;
          areas := set r | r in areas && r.lo != p;
          assert forall a :: a != p && Area(old(areas), a) ==> Area(areas, a) by {
            AreaLess(old(areas), areas, p);
          }
          return true;
        }
        k := k + 1;
      }
      ok := false;
    }

    /** yf_reset_pool: nothing is handed out any more, and every block is empty again. */
    method Reset()
      requires Valid()
      modifies this`blocks, this`live, this`larges, this`areas
      ensures Valid() && (forall r :: !Live(r)) && |blocks| == |old(blocks)|
      ensures forall i :: 0 <= i < |blocks| ==> blocks[i] == old(blocks)[i].(last := old(blocks)[i].lo + POOL_HEAD)
    {
      larges, areas := [], {};
      ghost var bs := blocks;
      var i := 0;
      while i < |blocks|
        invariant i <= |blocks| == |bs| && larges == [] && areas == {}
        invariant forall k ::
          0 <= k < |bs| ==> blocks[k] == if k < i then bs[k].(last := bs[k].lo + POOL_HEAD) else bs[k]
      {
        blocks := blocks[i := blocks[i].(last := blocks[i].lo + POOL_HEAD)];
        i := i + 1;
      }
      live := seq(|blocks|, _ => {});
      ResetOk(bs, blocks, psize, live);
    }

    /** Lines 70 and 116 of yf_array.c: the region at the very end of the first block gets longer. */
    method GrowLast(r: Region, more: nat)
      requires Valid() && Live(r) && r.lo <= r.hi == blocks[0].last && r.hi + more <= blocks[0].hi
      modifies this`blocks, this`live
      ensures Valid() && Live(Region(r.lo, r.hi + more))
      ensures blocks == old(blocks)[0 := old(blocks)[0].(last := r.hi + more)]
      ensures forall s :: old(Live(s)) && s != r ==> Live(s) && Apart(s, Region(r.lo, r.hi + more))
      ensures areas == old(areas)
    {
      hide BlocksOk, AllFilled, AreasOk, Apart, Handed;
      LiveLen(blocks, live, psize, areas);
      GrownOk(blocks, psize, live, areas, r, more);
      blocks := blocks[0 := blocks[0].(last := r.hi + more)];
      live := live[0 := live[0] - {r} + {Region(r.lo, r.hi + more)}];
    }

    /** Lines 37-45 of yf_array.c: the region at the very end of the first block is given back. */
    method GiveBack(r: Region)
      requires Valid() && Live(r) && r.lo <= r.hi == blocks[0].last
      modifies this`blocks, this`live
      ensures Valid() && blocks == old(blocks)[0 := old(blocks)[0].(last := r.lo)] && (r.lo < r.hi ==> !Live(r))
      ensures forall s :: if s == r then Live(s) ==> old(Live(s)) else Live(s) <==> old(Live(s))
    {
      hide BlocksOk, AllFilled, AreasOk, Apart, Handed;
      LiveLen(blocks, live, psize, areas);
      GivenBackOk(blocks, psize, live, areas, r);
      NoneNew(blocks, live, areas, r);
      if r.lo < r.hi {
        Gone(blocks, psize, live, areas, r);
      }
      blocks := blocks[0 := blocks[0].(last := r.lo)];
      live := live[0 := live[0] - {r}];
    }
  }

  /** The region that ends where the first block is filled to is one of the first block's. */
  lemma LastIsFirst(bs: seq<Block>, psize: int, live: seq<set<Region>>, areas: set<Region>, r: Region)
    requires BlocksOk(bs, psize) && AllFilled(bs, live) && AreasOk(bs, areas) && psize >= POOL_HEAD
    requires Handed(bs, live, areas, r) && r.lo < r.hi == bs[0].last
    ensures r in live[0] && r !in areas && bs[0].lo + POOL_HEAD <= r.lo
    ensures forall k :: 0 < k < |live| ==> r !in live[k]
  {
    assert BlockOk(bs[0], psize) && Filled(bs[0], live[0]);
    assert r in areas ==> Apart(r, Whole(bs[0]));
    forall k | 0 < k < |live|
      ensures r !in live[k]
    {
      assert Filled(bs[k], live[k]) && BlockOk(bs[k], psize) && Apart(Whole(bs[0]), Whole(bs[k]));
    }
  }

  /** A block's regions after the last of them grew or went. */
  lemma LastFilled(b: Block, rs: set<Region>, r: Region, more: nat)
    requires Filled(b, rs) && r.lo <= r.hi == b.last && b.lo + DATA_HEAD <= r.lo && (r.lo < r.hi ==> r in rs)
    ensures Filled(b.(last := r.hi + more), rs - {r} + {Region(r.lo, r.hi + more)})
    ensures Filled(b.(last := r.lo), rs - {r})
    ensures forall s :: s in rs && s != r ==> Apart(s, Region(r.lo, r.hi + more))
  {
  }

  lemma OtherKept(bs: seq<Block>, live: seq<set<Region>>, bs': seq<Block>, live': seq<set<Region>>,
                  areas: set<Region>, r: Region)
    requires live != [] && |live'| == |live| && live[0] - {r} <= live'[0]
    requires forall k :: 0 < k < |live| ==> live'[k] == live[k]
    ensures forall s :: Handed(bs, live, areas, s) && s != r ==> Handed(bs', live', areas, s)
  {
    forall s | Handed(bs, live, areas, s) && s != r
      ensures Handed(bs', live', areas, s)
    {
      if s !in areas {
        var k :| 0 <= k < |live| && s in live[k];
        assert s in live'[k];
      }
    }
  }

  lemma FirstOf(bs: seq<Block>, psize: int, live: seq<set<Region>>)
    requires BlocksOk(bs, psize) && AllFilled(bs, live)
    ensures |bs| == |live| > 0 && BlockOk(bs[0], psize) && Filled(bs[0], live[0])
    ensures bs[0].lo + POOL_HEAD <= bs[0].last
    ensures forall x :: x in live[0] ==> x.lo == x.hi || bs[0].lo + POOL_HEAD <= x.lo
  {
  }

  lemma GrownOk(bs: seq<Block>, psize: int, live: seq<set<Region>>, areas: set<Region>, r: Region, more: nat)
    requires BlocksOk(bs, psize) && AllFilled(bs, live) && AreasOk(bs, areas) && psize >= POOL_HEAD
    requires Handed(bs, live, areas, r) && r.lo <= r.hi == bs[0].last && r.hi + more <= bs[0].hi
    ensures var r' := Region(r.lo, r.hi + more);
      var bs', live' := bs[0 := bs[0].(last := r.hi + more)], live[0 := live[0] - {r} + {r'}];
      && BlocksOk(bs', psize) && AllFilled(bs', live') && AreasOk(bs', areas) && Handed(bs', live', areas, r')
      && forall s :: Handed(bs, live, areas, s) && s != r ==> Handed(bs', live', areas, s) && Apart(s, r')
  {
    hide AllFilled, BlocksOk, AreasOk, Filled, Apart;
    FirstOf(bs, psize, live);
    var r' := Region(r.lo, r.hi + more);
    var bs', live' := bs[0 := bs[0].(last := r.hi + more)], live[0 := live[0] - {r} + {r'}];
    if r.lo < r.hi {
      LastIsFirst(bs, psize, live, areas, r);
    }
    LastFilled(bs[0], live[0], r, more);
    BumpBlocks(bs, psize, 0, r.hi + more);
    FirstFilled(bs, live, bs', live');
    FirstAreas(bs, bs', areas);
    assert r' in live'[0];
    OtherKept(bs, live, bs', live', areas, r);
    if more > 0 {
      NotYetHanded(bs, psize, live, areas, r, more);
    }
    forall s | Handed(bs, live, areas, s) && s != r
      ensures Apart(s, r')
    {
      HandedApart(bs', psize, live', areas, s, r');
    }
  }

  /** The longer region was not handed out before. */
  lemma NotYetHanded(bs: seq<Block>, psize: int, live: seq<set<Region>>, areas: set<Region>, r: Region, more: nat)
    requires BlocksOk(bs, psize) && AllFilled(bs, live) && AreasOk(bs, areas) && psize >= POOL_HEAD
    requires Handed(bs, live, areas, r) && r.lo <= r.hi == bs[0].last && r.hi + more <= bs[0].hi && more > 0
    ensures !Handed(bs, live, areas, Region(r.lo, r.hi + more))
  {
    var r' := Region(r.lo, r.hi + more);
    if r.lo == r.hi {
      FreshIn(bs, psize, live, areas, 0, r');
    } else if Handed(bs, live, areas, r') {
      HandedApart(bs, psize, live, areas, r, r');
    }
  }

  lemma FirstFilled(bs: seq<Block>, live: seq<set<Region>>, bs': seq<Block>, live': seq<set<Region>>)
    requires AllFilled(bs, live) && |bs'| == |bs| == |live'| && Filled(bs'[0], live'[0]) && bs'[0].lo == bs[0].lo
    requires forall k :: 0 < k < |bs| ==> bs'[k] == bs[k] && live'[k] == live[k]
    requires forall r :: r in live'[0] ==> r.lo == r.hi || bs[0].lo + POOL_HEAD <= r.lo
    ensures AllFilled(bs', live')
  {
    hide Filled;
  }

  lemma FirstAreas(bs: seq<Block>, bs': seq<Block>, areas: set<Region>)
    requires AreasOk(bs, areas) && |bs'| == |bs| && forall k :: 0 <= k < |bs| ==> Whole(bs'[k]) == Whole(bs[k])
    ensures AreasOk(bs', areas)
  {
    hide Apart;
  }

  lemma GivenBackOk(bs: seq<Block>, psize: int, live: seq<set<Region>>, areas: set<Region>, r: Region)
    requires BlocksOk(bs, psize) && AllFilled(bs, live) && AreasOk(bs, areas) && psize >= POOL_HEAD
    requires Handed(bs, live, areas, r) && r.lo <= r.hi == bs[0].last
    ensures var bs', live' := bs[0 := bs[0].(last := r.lo)], live[0 := live[0] - {r}];
      && BlocksOk(bs', psize) && AllFilled(bs', live') && AreasOk(bs', areas)
      && forall s :: Handed(bs, live, areas, s) && s != r ==> Handed(bs', live', areas, s)
  {
    var bs', live' := bs[0 := bs[0].(last := r.lo)], live[0 := live[0] - {r}];
    if r.lo < r.hi {
      LastIsFirst(bs, psize, live, areas, r);
    }
    assert BlockOk(bs[0], psize);
    LastFilled(bs[0], live[0], r, 0);
    Lowered(bs, psize, r.lo);
    FirstFilled(bs, live, bs', live');
    FirstAreas(bs, bs', areas);
    OtherKept(bs, live, bs', live', areas, r);
  }

  lemma NoneNew(bs: seq<Block>, live: seq<set<Region>>, areas: set<Region>, r: Region)
    requires live != [] && bs != []
    ensures var bs', live' := bs[0 := bs[0].(last := r.lo)], live[0 := live[0] - {r}];
      forall s :: Handed(bs', live', areas, s) ==> Handed(bs, live, areas, s)
  {
    var bs', live' := bs[0 := bs[0].(last := r.lo)], live[0 := live[0] - {r}];
    forall s | Handed(bs', live', areas, s)
      ensures Handed(bs, live, areas, s)
    {
      if s !in areas {
        var k :| 0 <= k < |live'| && s in live'[k];
        assert s in live[k];
      }
    }
  }

  lemma Gone(bs: seq<Block>, psize: int, live: seq<set<Region>>, areas: set<Region>, r: Region)
    requires BlocksOk(bs, psize) && AllFilled(bs, live) && AreasOk(bs, areas) && psize >= POOL_HEAD
    requires Handed(bs, live, areas, r) && r.lo < r.hi == bs[0].last
    ensures !Handed(bs[0 := bs[0].(last := r.lo)], live[0 := live[0] - {r}], areas, r)
  {
    hide BlocksOk, AllFilled, AreasOk;
    LastIsFirst(bs, psize, live, areas, r);
  }

  lemma Lowered(bs: seq<Block>, psize: int, last: int)
    requires BlocksOk(bs, psize) && bs[0].lo + POOL_HEAD <= last <= bs[0].last
    ensures BlocksOk(bs[0 := bs[0].(last := last)], psize)
  {
    var bs' := bs[0 := bs[0].(last := last)];
    forall k, l | 0 <= k < l < |bs'|
      ensures Apart(Whole(bs'[k]), Whole(bs'[l]))
    {
      assert Apart(Whole(bs[k]), Whole(bs[l]));
    }
  }

  ghost predicate InBlocks(live: seq<set<Region>>, r: Region) {
    exists i :: 0 <= i < |live| && r in live[i]
  }

  lemma FreedSlots(ls: seq<int>, ls': seq<int>, k: int, p: int)
    requires 0 <= k < |ls| && ls' == ls[k := NULL] && ls[k] == p
    ensures forall a :: a in ls && a != p ==> a in ls'
  {
    forall a | a in ls && a != p
      ensures a in ls'
    {
      var j :| 0 <= j < |ls| && ls[j] == a;
      assert ls'[j] == a;
    }
  }

  lemma AreaLess(areas: set<Region>, areas': set<Region>, p: int)
    requires forall r :: r in areas' <==> r in areas && r.lo != p
    ensures forall a :: a != p && Area(areas, a) ==> Area(areas', a)
  {
    forall a | a != p && Area(areas, a)
      ensures Area(areas', a)
    {
      var r :| r in areas && r.lo == a;
      assert r in areas';
    }
  }

  lemma ResetOk(bs: seq<Block>, bs': seq<Block>, psize: int, live: seq<set<Region>>)
    requires BlocksOk(bs, psize) && psize >= POOL_HEAD && |bs'| == |bs| == |live|
    requires forall k :: 0 <= k < |bs| ==> bs'[k] == bs[k].(last := bs[k].lo + POOL_HEAD) && live[k] == {}
    ensures BlocksOk(bs', psize) && AllFilled(bs', live) && AreasOk(bs', {})
  {
    assert forall k :: 0 <= k < |bs| ==> Whole(bs'[k]) == Whole(bs[k]);
    forall k, l | 0 <= k < l < |bs'|
      ensures Apart(Whole(bs'[k]), Whole(bs'[l]))
    {
      assert Apart(Whole(bs[k]), Whole(bs[l]));
    }
  }

  lemma SlotsKept(ls: seq<int>, ls': seq<int>, k: int, area: int)
    requires 0 <= k < |ls| && ls' == ls[k := area] && ls[k] == NULL
    ensures area in ls' && forall a :: a in ls && a != NULL ==> a in ls'
  {
    assert ls'[k] == area;
    forall a | a in ls && a != NULL
      ensures a in ls'
    {
      var j :| 0 <= j < |ls| && ls[j] == a;
      assert ls'[j] == a;
    }
  }

  lemma SlotsPushed(ls: seq<int>, ls': seq<int>, area: int)
    requires ls' == [area] + ls
    ensures area in ls' && (forall a :: a in ls ==> a in ls') && forall j :: 0 <= j < |ls| ==> ls'[j + 1] == ls[j]
  {
    assert ls'[0] == area;
  }

  lemma AreaMore(areas: set<Region>, r: Region)
    ensures Area(areas + {r}, r.lo) && forall a :: Area(areas, a) ==> Area(areas + {r}, a)
  {
    assert r in areas + {r};
    forall a | Area(areas, a)
      ensures Area(areas + {r}, a)
    {
      var s :| s in areas && s.lo == a;
      assert s in areas + {r};
    }
  }

  lemma NotAnArea(bs: seq<Block>, areas: set<Region>, area: int, size: nat)
    requires Unclaimed(bs, areas, Region(area, area + size)) && size > 0 && AreasOk(bs, areas)
    ensures !Area(areas, area) && area > 0
  {
    forall r | r in areas
      ensures r.lo != area
    {
      assert Apart(Region(area, area + size), r);
    }
  }

  lemma AreaOk(bs: seq<Block>, psize: int, live: seq<set<Region>>, areas: set<Region>, area: int, size: nat)
    requires BlocksOk(bs, psize) && AllFilled(bs, live) && AreasOk(bs, areas)
    requires Unclaimed(bs, areas, Region(area, area + size)) && size > 0
    ensures AreasOk(bs, areas + {Region(area, area + size)})
    ensures Gave(bs, live, areas, bs, live, areas + {Region(area, area + size)}, Region(area, area + size))
  {
    var r := Region(area, area + size);
    FreshOut(bs, psize, live, areas, r, r);
    forall s | Handed(bs, live, areas, s)
      ensures Handed(bs, live, areas + {r}, s) && Apart(s, r)
    {
      HandedApart(bs, psize, live, areas + {r}, s, r);
    }
  }

  lemma GaveTwice(bs: seq<Block>, live: seq<set<Region>>, areas: set<Region>, bs': seq<Block>, live': seq<set<Region>>,
                  h: Region, r: Region)
    requires Gave(bs, live, areas, bs', live', areas, h) && Gave(bs', live', areas, bs', live', areas + {r}, r)
    ensures Gave(bs, live, areas, bs', live', areas + {r}, r)
  {
  }

  /** The entry's own allocation leaves the area unclaimed. */
  lemma StillUnclaimed(bs: seq<Block>, bs': seq<Block>, areas: set<Region>, area: int, size: nat, got: int, psize: int)
    requires Unclaimed(bs, areas, Region(area, area + size)) && Grew(bs, bs', got, psize)
    requires got != NULL ==> Apart(Region(area, area + size), Region(got, got + psize))
    ensures Unclaimed(bs', areas, Region(area, area + size))
  {
    forall k | 0 <= k < |bs'|
      ensures Apart(Region(area, area + size), Whole(bs'[k]))
    {
      if k < |bs| {
        assert Apart(Region(area, area + size), Whole(bs[k]));
      }
    }
  }

  lemma LiveLen(bs: seq<Block>, live: seq<set<Region>>, psize: int, areas: set<Region>)
    requires AllFilled(bs, live)
    ensures |live| == |bs|
  {
  }

  lemma SpanOf(bs: seq<Block>, psize: int, p: int)
    requires BlocksOk(bs, psize) && 0 <= p < |bs|
    ensures 0 < bs[p].lo && bs[p].lo + DATA_HEAD <= bs[p].last <= bs[p].hi == bs[p].lo + psize
    ensures psize % ALIGN == 0 ==> bs[p].hi % ALIGN == 0
  {
    assert BlockOk(bs[p], psize);
  }

  lemma TalliedSame(bs: seq<Block>, cur: int, bs': seq<Block>, cur': int)
    requires Tallied(bs, cur, bs', cur')
    ensures |bs'| == |bs| && cur' < |bs| && forall k :: 0 <= k < |bs| ==> bs'[k] == bs[k].(failed := bs'[k].failed)
    ensures forall b :: (bs' + [b])[..|bs|] == bs'
  {
  }

  lemma CountsOnly(bs: seq<Block>, bs': seq<Block>, psize: int, live: seq<set<Region>>, areas: set<Region>)
    requires BlocksOk(bs, psize) && AllFilled(bs, live) && AreasOk(bs, areas)
    requires |bs'| == |bs| && forall k :: 0 <= k < |bs| ==> bs'[k] == bs[k].(failed := bs'[k].failed)
    ensures BlocksOk(bs', psize) && AllFilled(bs', live) && AreasOk(bs', areas)
  {
    hide Apart;
    assert forall k :: 0 <= k < |bs| ==> Whole(bs'[k]) == Whole(bs[k]);
    forall k | 0 <= k < |bs'|
      ensures BlockOk(bs'[k], psize) && Filled(bs'[k], live[k])
    {
      assert BlockOk(bs[k], psize) && Filled(bs[k], live[k]);
    }
    forall k, l | 0 <= k < l < |bs'|
      ensures Apart(Whole(bs'[k]), Whole(bs'[l]))
    {
      assert Apart(Whole(bs[k]), Whole(bs[l]));
    }
  }

  /** Space behind `last` is not handed out. */
  lemma FreshIn(bs: seq<Block>, psize: int, live: seq<set<Region>>, areas: set<Region>, i: nat, r: Region)
    requires BlocksOk(bs, psize) && AllFilled(bs, live) && AreasOk(bs, areas) && i < |bs|
    requires bs[i].last <= r.lo < r.hi <= bs[i].hi
    ensures !Handed(bs, live, areas, r)
  {
    assert BlockOk(bs[i], psize);
    assert r in areas ==> Apart(r, Whole(bs[i]));
    forall k | 0 <= k < |live|
      ensures r !in live[k]
    {
      assert Filled(bs[k], live[k]) && BlockOk(bs[k], psize);
      if k < i {
        assert Apart(Whole(bs[k]), Whole(bs[i]));
      } else if i < k {
        assert Apart(Whole(bs[i]), Whole(bs[k]));
      }
    }
  }

  /** Nor is what the system allocator gives. */
  lemma FreshOut(bs: seq<Block>, psize: int, live: seq<set<Region>>, areas: set<Region>, w: Region, r: Region)
    requires BlocksOk(bs, psize) && AllFilled(bs, live) && Unclaimed(bs, areas, w) && w.lo <= r.lo < r.hi <= w.hi
    ensures !Handed(bs, live, areas, r)
  {
    assert r in areas ==> Apart(w, r);
    forall k | 0 <= k < |live|
      ensures r !in live[k]
    {
      assert Filled(bs[k], live[k]) && BlockOk(bs[k], psize);
      assert Apart(w, Whole(bs[k]));
    }
  }

  /** One region more in block `i`: the others are still handed out, and apart from it. */
  lemma HandedMore(bs: seq<Block>, live: seq<set<Region>>, areas: set<Region>, bs': seq<Block>, live': seq<set<Region>>,
                   r: Region, psize: int, i: int)
    requires BlocksOk(bs', psize) && AllFilled(bs', live') && AreasOk(bs', areas) && |live| <= |live'|
    requires 0 <= i < |live'|
    requires forall k :: 0 <= k < |live| ==> live[k] <= live'[k]
    requires r in live'[i] && (!Handed(bs, live, areas, r) || r.lo == r.hi)
    ensures Handed(bs', live', areas, r)
    ensures forall s :: Handed(bs, live, areas, s) ==> Handed(bs', live', areas, s) && Apart(s, r)
  {
    forall s | Handed(bs, live, areas, s)
      ensures Handed(bs', live', areas, s) && Apart(s, r)
    {
      if s !in areas {
        var k :| 0 <= k < |live| && s in live[k];
        assert s in live'[k];
      }
      if s != r {
        HandedApart(bs', psize, live', areas, s, r);
      }
    }
  }
}
