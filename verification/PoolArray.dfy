/** Arrays that grow inside a pool (src/base_struct/yf_array.c). */
module PoolArray {
  import opened Arith
  import opened Bytes
  import opened MemPool

  const HEAD := 40   // sizeof(yf_array_t)

  /** What memory holds at an address. */
  function At(mem: map<int, byte>, a: int): byte { if a in mem then mem[a] else 0 }

  /** Memory is the same outside of the region. */
  ghost predicate OnlyThere(mem: map<int, byte>, mem': map<int, byte>, r: Region) {
    forall a :: !(r.lo <= a < r.hi) ==> At(mem', a) == At(mem, a)
  }

  ghost function Stored(mem: map<int, byte>, at: int, n: int): (r: seq<byte>)
    requires n >= 0
    ensures |r| == n && forall k :: 0 <= k < n ==> r[k] == At(mem, at + k)
  {
    seq(n, k => At(mem, at + k))
  }

  function PutBytes(mem: map<int, byte>, to: int, d: seq<byte>): (r: map<int, byte>)
    ensures forall a {:trigger At(r, a)} :: At(r, a) == if to <= a < to + |d| then d[a - to] else At(mem, a)
    decreases |d|
  {
    if d == [] then mem else
      var last := to + |d| - 1;
      var most := PutBytes(mem, to, d[..|d| - 1]);
      assert forall a {:trigger At(most[last := d[|d| - 1]], a)} ::
        At(most[last := d[|d| - 1]], a) == if a == last then d[|d| - 1] else At(most, a);
      most[last := d[|d| - 1]]
  }

  function Load(mem: map<int, byte>, at: int, n: nat): (r: seq<byte>)
    ensures r == Stored(mem, at, n)
  {
    if n == 0 then [] else
      assert Stored(mem, at, n) == Stored(mem, at, n - 1) + [At(mem, at + n - 1)];
      Load(mem, at, n - 1) + [At(mem, at + n - 1)]
  }

  lemma CopiedBytes(mem: map<int, byte>, to: int, from: int, n: nat)
    ensures Stored(PutBytes(mem, to, Load(mem, from, n)), to, n) == Stored(mem, from, n)
  {
  }

  /** Where a block is filled to once a region at its very end is given back. */
  function TopWithout(top: int, r: Region): int { if r.hi == top then r.lo else top }

  function Extent(size: int, n: int): int { size * n }

  lemma ExtentStep(size: int, n: int, k: int)
    ensures Extent(size, n + k) == Extent(size, n) + Extent(size, k)
    ensures Extent(size, 0) == 0 && Extent(size, 1) == size
  {
  }

  lemma ExtentOrder(size: int, n: int, k: int)
    requires size > 0
    ensures n <= k <==> Extent(size, n) <= Extent(size, k)
  {
    Multiple(k - n, size);
    ExtentStep(size, n, k - n);
  }

  /** yf_array_t */
  class Array {
    const pool: Pool
    const size: int
    var elts: int
    var nelts: int
    var nalloc: int
    var mem: map<int, byte>

    ghost predicate Valid()
      reads this, pool
    {
      && pool.Valid() && size > 0 && elts > 0 && 0 <= nelts <= nalloc && pool.Live(Mine())
    }

    /** The memory the array may use. */
    function Mine(): Region
      reads this
    {
      Region(elts, elts + Extent(size, nalloc))
    }

    /** The array's memory is the last thing in the first block, with room for `n` more elements. */
    predicate InPlace(n: nat)
      reads this, pool
    {
      && pool.blocks != [] && elts + Extent(size, nalloc) == pool.blocks[0].last
      && pool.blocks[0].last + Extent(size, n) <= pool.blocks[0].hi
    }

    /** yf_array_init, `at` being what yf_palloc gave. */
    constructor (p: Pool, n: nat, elemSize: int, at: int, memory: map<int, byte>)
      requires p.Valid() && elemSize > 0 && at > 0 && p.Live(Region(at, at + Extent(elemSize, n)))
      ensures Valid() && pool == p && size == elemSize && elts == at && nelts == 0 && nalloc == n && mem == memory
    {
      pool, size, elts, nelts, nalloc, mem := p, elemSize, at, 0, n, memory;
      new;
      ExtentOrder(size, 0, n);
    }

    /** Lines 75-83 and 122-132: move to new memory for `count` elements. `area` and `got` are what
        the system gives if the pool asks for a large area or a block. */
    method Move(count: nat, keep: nat, area: int, got: int) returns (ok: bool)
      requires Valid() && keep <= Extent(size, nalloc) && Supplied(count, area, got)
      modifies this, pool
      ensures pool.Valid() && nelts == old(nelts)
      ensures ok <==> !old(Denied(count, area, got))
      ensures !ok ==> elts == old(elts) && nalloc == old(nalloc) && mem == old(mem)
      ensures !ok ==> forall s :: old(pool.Live(s)) ==> pool.Live(s)
      ensures OnlyThere(old(mem), mem, Region(elts, elts + keep))
      ensures ok ==> elts > 0 && nalloc == count && Stored(mem, elts, keep) == old(Stored(mem, elts, keep))
      ensures ok ==> pool.Live(Mine())
      ensures ok ==> forall s :: old(pool.Live(s)) ==> pool.Live(s) && Apart(s, Mine())
    {
      hide Extent, Stored, Unclaimed, Handed, BlocksOk, AllFilled, AreasOk, Apart, PutBytes, Load, Grew;
      ExtentStep(size, 0, 0);
      ExtentOrder(size, 0, count);
      var room := pool.Alloc(Extent(size, count), true, area, got);
      if room == NULL {
        return false;
      }
      assert Apart(old(Mine()), Region(room, room + Extent(size, count)));
      CopiedBytes(mem, room, elts, keep);
      mem := PutBytes(mem, room, Load(mem, elts, keep));
      elts, nalloc := room, count;
      ok := true;
    }

    /** The pool has no memory for `count` elements. */
    ghost predicate Denied(count: nat, area: int, got: int)
      reads this, pool
    {
      0 <= Extent(size, count) && pool.Refuses(Extent(size, count), true, area, got)
    }

    ghost predicate Supplied(count: nat, area: int, got: int)
      reads this, pool
    {
      var n := Extent(size, count);
      && (area != NULL && n > pool.most ==>
           area % ALIGN == 0 && Unclaimed(pool.blocks, pool.areas, Region(area, area + n)))
      && (got != NULL ==> got % BLOCK_ALIGN == 0 && Unclaimed(pool.blocks, pool.areas, Region(got, got + pool.psize)))
      && (area != NULL && n > pool.most && got != NULL ==> Apart(Region(area, area + n), Region(got, got + pool.psize)))
    }

    /** Lines 63-71 and 109-117: take room for `n` more elements where the array is. */
    method Extend(n: nat)
      requires Valid() && InPlace(n)
      modifies this`nalloc, pool
      ensures pool.Valid() && nalloc == old(nalloc) + n && elts == old(elts) && pool.Live(Mine())
      ensures forall s :: old(pool.Live(s)) && s != old(Mine()) ==> pool.Live(s) && Apart(s, Mine())
    {
      hide Extent, Handed;
      ExtentOrder(size, 0, nalloc);
      ExtentOrder(size, 0, n);
      ExtentStep(size, nalloc, n);
      ExtentStep(size, 0, 0);
      pool.GrowLast(Mine(), Extent(size, n));
      nalloc := nalloc + n;
    }

    lemma OthersApart()
      requires Valid()
      ensures forall s :: pool.Live(s) && s != Mine() ==> Apart(s, Mine())
    {
      forall s | pool.Live(s) && s != Mine()
        ensures Apart(s, Mine())
      {
        HandedApart(pool.blocks, pool.psize, pool.live, pool.areas, s, Mine());
      }
    }

    /** yf_array_push. What was there keeps its bytes wherever the array now is, and everything else
        handed out stays apart from it. The array stays inside memory of its own if and only if it
        was made for some elements or can grow where it is: twice nothing is nothing. */
    method Push(area: int, got: int) returns (elt: int)
      requires Valid() && Supplied(2 * nalloc, area, got)
      modifies this, pool
      ensures pool.Valid()
      ensures elt == NULL ==> nelts == old(nelts) && nalloc == old(nalloc) && elts == old(elts) && mem == old(mem)
      ensures elt == NULL <==> old(nelts == nalloc && !InPlace(1) && Denied(2 * nalloc, area, got))
      ensures elt != NULL && old(nelts < nalloc) ==> elts == old(elts) && nalloc == old(nalloc)
      ensures elt != NULL && old(nelts == nalloc) ==>
        if old(InPlace(1)) then elts == old(elts) && nalloc == old(nalloc) + 1 else nalloc == 2 * old(nalloc)
      ensures elt != NULL ==> nelts == old(nelts) + 1 && elt == elts + Extent(size, old(nelts))
      ensures 0 <= Extent(size, old(nelts))
      ensures Stored(mem, elts, Extent(size, old(nelts))) == old(Stored(mem, elts, Extent(size, nelts)))
      ensures OnlyThere(old(mem), mem, Region(elts, elts + Extent(size, old(nelts))))
      ensures elt != NULL ==> (Valid() <==> old(nalloc) > 0 || old(InPlace(1)))
      ensures forall s :: old(pool.Live(s)) && s != old(Mine()) ==> pool.Live(s) && Apart(s, Mine())
    {
      hide Extent, Stored, Handed, Unclaimed, Apart, BlocksOk, AllFilled, AreasOk;
      ExtentStep(size, 0, 0);
      ExtentOrder(size, 0, nelts);
      ExtentOrder(size, nelts, nalloc);
      OthersApart();
      if nelts == nalloc {
        if InPlace(1) {
          Extend(1);
        } else {
          var ok := Move(2 * nalloc, Extent(size, nalloc), area, got);
          if !ok {
            return NULL;
          }
        }
      }
      elt := elts + Extent(size, nelts);
      nelts := nelts + 1;
    }

    /** yf_array_push_n */
    method PushN(n: nat, area: int, got: int) returns (elt: int)
      requires Valid() && Supplied(2 * (if n >= nalloc then n else nalloc), area, got)
      modifies this, pool
      ensures pool.Valid()
      ensures elt == NULL ==> nelts == old(nelts) && nalloc == old(nalloc) && elts == old(elts) && mem == old(mem)
      ensures elt == NULL <==>
        old(nelts + n > nalloc && !InPlace(n) && Denied(2 * (if n >= nalloc then n else nalloc), area, got))
      ensures elt != NULL && old(nelts) + n <= old(nalloc) ==> elts == old(elts) && nalloc == old(nalloc)
      ensures elt != NULL && old(nelts) + n > old(nalloc) ==>
        if old(InPlace(n)) then elts == old(elts) && nalloc == old(nalloc) + n
        else nalloc == 2 * if n >= old(nalloc) then n else old(nalloc)
      ensures elt != NULL ==> Valid() && nelts == old(nelts) + n && elt == elts + Extent(size, old(nelts))
      ensures 0 <= Extent(size, old(nelts))
      ensures Stored(mem, elts, Extent(size, old(nelts))) == old(Stored(mem, elts, Extent(size, nelts)))
      ensures OnlyThere(old(mem), mem, Region(elts, elts + Extent(size, old(nelts))))
      ensures forall s :: old(pool.Live(s)) && s != old(Mine()) ==> pool.Live(s) && Apart(s, Mine())
    {
      hide Extent, Stored, Handed, Unclaimed, Apart, BlocksOk, AllFilled, AreasOk;
      ExtentStep(size, 0, 0);
      ExtentOrder(size, 0, nelts);
      ExtentOrder(size, nelts, nalloc);
      OthersApart();
      if nelts + n > nalloc {
        if InPlace(n) {
          Extend(n);
        } else {
          var ok := Move(2 * (if n >= nalloc then n else nalloc), Extent(size, nelts), area, got);
          if !ok {
            return NULL;
          }
        }
      }
      elt := elts + Extent(size, nelts);
      nelts := nelts + n;
    }

    /** yf_array_destroy; `header` is where the yf_array_t itself was allocated. Both go back to the
        pool as far as they are the last thing in its first block, and nothing else is touched. */
    method Destroy(header: int)
      requires Valid() && pool.Live(Region(header, header + HEAD)) && Mine() != Region(header, header + HEAD)
      modifies pool
      ensures pool.Valid()
      ensures var top, b := TopWithout(old(pool.blocks[0].last), Mine()), old(pool.blocks[0]);
        pool.blocks == old(pool.blocks)[0 := b.(last := TopWithout(top, Region(header, header + HEAD)))]
      ensures Mine().lo < Mine().hi == old(pool.blocks[0].last) ==> !pool.Live(Mine())
      ensures header + HEAD == TopWithout(old(pool.blocks[0].last), Mine()) ==>
        !pool.Live(Region(header, header + HEAD))
      ensures forall s :: old(pool.Live(s)) && s != Mine() && s != Region(header, header + HEAD) ==> pool.Live(s)
    {
      hide Extent, Handed;
      ExtentStep(size, 0, 0);
      ExtentOrder(size, 0, nalloc);
      if elts + Extent(size, nalloc) == pool.blocks[0].last {
        pool.GiveBack(Mine());
      }
      if header + HEAD == pool.blocks[0].last {
        pool.GiveBack(Region(header, header + HEAD));
      }
    }
  }

  lemma FarFrom(p: Pool)
    requires p.Valid() && Grew([Block(4096, 4176, 5120, 0)], p.blocks, 8192, 1024) && p.areas == {}
    ensures Unclaimed(p.blocks, p.areas, Region(16384, 17408))
  {
    hide BlocksOk, AllFilled, AreasOk;
  }

  lemma TooLarge(a: Array)
    requires a.Valid() && a.size > a.pool.psize
    ensures !a.InPlace(1)
  {
    hide AllFilled, AreasOk;
    ExtentStep(a.size, 0, 0);
    assert a.pool.blocks != [] ==> BlockOk(a.pool.blocks[0], a.pool.psize);
  }

  /** An array made for no elements, of elements larger than a block: the first push hands out memory
      for one, and has none. */
  method PushesOnNothing() returns (a: Array, elt: int)
    ensures elt != NULL && a.nelts == 1 && !a.Valid()
  {
    hide Extent, Stored, BlocksOk, AllFilled, AreasOk, Handed;
    ExtentStep(5000, 0, 0);
    var p := new Pool(1024, 4096);
    var at := p.Alloc(0, true, NULL, 8192);
    FarFrom(p);
    a := new Array(p, 0, 5000, at, map[]);
    TooLarge(a);
    elt := a.Push(NULL, 16384);
  }
}
