/** Seeds for ids, handed to groups in slices (src/base_struct/yf_id_seed.c). */
module IdSeed {
  import opened Arith

  const SLICE := 16384          // _ID_SEED_SLICE_SIZE
  const LIMIT := 0x8000_0000    // the counter rolls over here

  /** yf_id_seed_group_t */
  datatype Group = Group(seed: int, multi: int, usedSlice: int)

  /** yf_align to a multiple of the slice size. */
  function Align(x: int): (r: int)
    requires x >= 0
    ensures r % SLICE == 0 && x <= r < x + SLICE
  {
    RoundUp(x, SLICE)
  }

  /** One past the last seed the group can hand out before it asks for a new slice. */
  function End(g: Group): int { g.seed - g.seed % SLICE + (g.multi - g.usedSlice) * SLICE }

  ghost predicate GroupOk(g: Group) {
    1 <= g.multi <= 255 && 0 <= g.usedSlice < g.multi && 0 <= g.seed
  }

  ghost predicate Below(g: Group, used: int) { End(g) <= used }

  ghost predicate Disjoint(g: Group, g': Group) { End(g) <= g'.seed || End(g') <= g.seed }

  ghost predicate Unused(g: Group, handed: set<int>) { forall x :: x in handed ==> !(g.seed <= x < End(g)) }

  /** The seeds that groups still have, and the slices they take at a time. */
  ghost function Rest(gs: seq<Group>): int {
    if gs == [] then 0 else Rest(gs[..|gs| - 1]) + End(gs[|gs| - 1]) - gs[|gs| - 1].seed
  }

  ghost function Multis(gs: seq<Group>): int {
    if gs == [] then 0 else Multis(gs[..|gs| - 1]) + gs[|gs| - 1].multi
  }

  /** The counter and all groups. */
  datatype Counter = Counter(used: int, factor: int, groups: seq<Group>, rolled: bool)

  /** The counter after `multi` slices are taken: beyond them, or restarted from the clock. */
  ghost predicate MovedOn(c: Counter, multi: int, now: int, c': Counter) {
    var next := c.used + SLICE * multi;
    if next < LIMIT then c'.used == next && c'.factor == c.factor && c'.rolled == c.rolled
    else
      && c'.rolled && c'.used % SLICE == 0 && c.factor > 0 && now / c.factor <= c'.used < now / c.factor + SLICE
      && c'.factor == if c.factor < 64 then 2 * c.factor else 128
  }

  /** Group `i` gives its next seed; behind its last one it goes to new slices. */
  ghost predicate Drew(c: Counter, i: nat, now: int, x: int, c': Counter) {
    && i < |c.groups| == |c'.groups| && x == c.groups[i].seed
    && (forall j :: 0 <= j < |c.groups| && j != i ==> c'.groups[j] == c.groups[j])
    && var g, g' := c.groups[i], c'.groups[i];
       && g'.multi == g.multi
       && if x + 1 == End(g) then
            g'.seed == c.used && End(g') == c.used + SLICE * g.multi && MovedOn(c, g.multi, now, c')
          else
            g'.seed == x + 1 && End(g') == End(g) && c' == c.(groups := c'.groups)
  }

  /** A new group has the next slices, as few as hold `sliceSize`; the first one starts the counter. */
  ghost predicate Opened(c: Counter, sliceSize: int, now: int, c': Counter) {
    if sliceSize > SLICE * 255 then c' == c
    else
      && |c'.groups| == |c.groups| + 1 && c'.groups[..|c.groups|] == c.groups
      && var g := c'.groups[|c.groups|];
         && g.multi >= 1 && SLICE * g.multi >= sliceSize && (g.multi > 1 ==> SLICE * (g.multi - 1) < sliceSize)
         && End(g) == g.seed + SLICE * g.multi
         && (if c.used == 0 then g.seed % SLICE == 0 && now <= g.seed < now + SLICE else g.seed == c.used)
         && MovedOn(c.(used := g.seed), g.multi, now, c')
  }

  /** Before the first roll: nothing a group still has was ever handed out, or is another's. */
  ghost predicate Fresh(used: int, groups: seq<Group>, handed: set<int>) {
    && (forall i ::
         0 <= i < |groups| ==> groups[i].seed > 12345 && Unused(groups[i], handed) && Below(groups[i], used))
    && AllDisjoint(groups) && (forall x :: x in handed ==> 12345 < x < used)
  }

  ghost predicate GroupsOk(gs: seq<Group>) { forall i :: 0 <= i < |gs| ==> GroupOk(gs[i]) }

  /** How far the seeds given, and the slices that groups hold at a time, can have taken the counter
      from where it started. */
  ghost function ReachOf(first: int, drawn: int, gs: seq<Group>): int { first + drawn + SLICE * Multis(gs) }

  /** Until it rolls over, the counter stands where the seeds given and those that groups still have
      take it. */
  ghost predicate SpaceOk(c: Counter, handed: set<int>, first: int, drawn: int) {
    && 0 <= c.used < LIMIT && c.used % SLICE == 0 && 2 <= c.factor <= 128 && drawn >= 0 && GroupsOk(c.groups)
    && (c.used == 0 ==> c.groups == [] && !c.rolled && handed == {} && drawn == 0)
    && (!c.rolled ==> Fresh(c.used, c.groups, handed))
    && (!c.rolled && c.used > 0 ==> c.used == first + drawn + Rest(c.groups))
    && (c.rolled ==> ReachOf(first, drawn, c.groups) >= LIMIT)
  }

  class SeedSpace {
    var used: int           // _id_seed_group_used
    var factor: int         // _id_seed_start_factor
    var groups: seq<Group>  // every group initialised so far, by whoever
    ghost var rolled: bool  // the counter has rolled over
    ghost var handed: set<int>
    ghost var first: int    // where the counter started
    ghost var drawn: nat    // how many seeds were given

    ghost predicate Valid()
      reads this
    {
      SpaceOk(Now(), handed, first, drawn)
    }

    ghost function Reach(): int
      reads this
    {
      ReachOf(first, drawn, groups)
    }

    ghost function Now(): Counter
      reads this
    {
      Counter(used, factor, groups, rolled)
    }

    /** What every call leaves to the other users of the counter. */
    twostate predicate Advances()
      reads this
    {
      Valid() && old(handed) <= handed && |groups| >= |old(groups)| && (old(rolled) ==> rolled)
    }

    constructor ()
      ensures Valid() && Now() == Counter(0, 2, [], false) && handed == {} && drawn == 0
    {
      used, factor, groups, rolled, handed, first, drawn := 0, 2, [], false, {}, 0, 0;
    }

    /** _id_seed_group_update: the next slices of the counter; at the limit it restarts from the clock. */
    method GroupUpdate(g: Group, now: int) returns (g': Group)
      requires ClockOk(now) && 0 < used < LIMIT && used % SLICE == 0 && 2 <= factor <= 128 && 1 <= g.multi <= 255
      modifies this`used, this`factor, this`rolled
      ensures g' == g.(seed := old(used))
      ensures 0 < used < LIMIT && used % SLICE == 0 && 2 <= factor <= 128
      ensures MovedOn(old(Now()), g.multi, now, Now())
    {
      hide Align, RoundUp;
      g' := g.(seed := used);
      used := used + SLICE * g.multi;
      if used >= LIMIT {
        Restart(now, factor);
        used := Align(now / factor);
        factor := if 2 * factor < 128 then 2 * factor else 128;
        rolled := true;
      }
    }

    /** yf_id_seed_group_init */
    method GroupInit(sliceSize: int, now: int) returns (ok: bool)
      requires Valid() && ClockOk(now) && sliceSize >= 0
      modifies this
      ensures Valid() && handed == old(handed) && drawn == old(drawn) && (ok <==> sliceSize <= SLICE * 255)
      ensures Opened(old(Now()), sliceSize, now, Now()) && (old(rolled) ==> rolled)
      ensures first == if ok && old(used) == 0 then groups[|groups| - 1].seed else old(first)
      ensures |groups| == |old(groups)| + if ok then 1 else 0
      ensures ok ==> Reach() == (if old(used) > 0 then old(Reach()) else first) + SLICE * groups[|groups| - 1].multi
      ensures sliceSize == 0 ==> ok && groups[|groups| - 1].multi == 1
    {
      hide Unused, Disjoint, Rest, Multis, AllDisjoint, Fresh;
      if sliceSize > SLICE * 255 {
        return false;
      }
      ghost var before := Now();
      if used == 0 {
        used := Align(now);
        first := used;
      }
      var multi := if sliceSize == 0 then 1 else Align(if sliceSize < SLICE then SLICE else sliceSize) / SLICE;
      var g := GroupUpdate(Group(0, multi, 0), now);
      groups := groups + [g];
      ok := true;
      OneMore(before.groups, g);
      RestNone();
      OpenedOk(before, sliceSize, now, Now(), handed, first, drawn);
    }

    /** yf_id_seed_alloc. Until the counter first rolls over, no group is ever given a seed that
        this or another group was given before. */
    method Alloc(i: nat, now: int) returns (x: int)
      requires Valid() && ClockOk(now) && i < |groups|
      modifies this
      ensures Valid() && handed == old(handed) + {x} && x >= 0 && (old(rolled) ==> rolled)
      ensures Drew(old(Now()), i, now, x, Now()) && |groups| == |old(groups)|
      ensures !old(rolled) ==> x !in old(handed) && 12345 < x < LIMIT
      ensures first == old(first) && drawn == old(drawn) + 1 && Reach() == old(Reach()) + 1
    {
      hide End, Unused, Disjoint, Rest, Multis, AllDisjoint;
      ghost var before := Now();
      var g := groups[i];
      x := g.seed;
      if !rolled {
        SeedNew(g, used, handed);
      }
      SeedStep(g);
      g := g.(seed := g.seed + 1);
      if g.seed % SLICE == 0 {
        g := g.(usedSlice := g.usedSlice + 1);
        if g.usedSlice == g.multi {
          ghost var start := used;
          g := GroupUpdate(g, now);
          g := g.(usedSlice := 0);
          Sliced(start, g.multi);
        }
      }
      groups := groups[i := g];
      DrewOk(before, i, now, x, Now(), handed, first, drawn);
      handed, drawn := handed + {x}, drawn + 1;
    }
  }

  /** Wall-clock seconds for which the counter restarts above 12345 and below its limit. */
  predicate ClockOk(now: int) { 12346 * 128 <= now < LIMIT - SLICE }

  lemma ClockFits(now: int, factor: int)
    requires ClockOk(now) && 2 <= factor <= 128
    ensures 12345 < now / factor <= now
  {
    MulMono(12346, 12346, factor, 128);
    DivBounds(now, factor, 12346);
  }

  lemma Restart(now: int, factor: int)
    requires ClockOk(now) && 2 <= factor <= 128
    ensures now / factor >= 0 && 12345 < Align(now / factor) < LIMIT && Align(now / factor) % SLICE == 0
  {
    ClockFits(now, factor);
  }

  lemma Sliced(start: int, multi: int)
    requires start % SLICE == 0
    ensures (start + SLICE * multi) % SLICE == 0
    ensures forall u :: End(Group(start, multi, u)) == start + (multi - u) * SLICE
  {
  }

  lemma OpenedOk(c: Counter, sliceSize: int, now: int, c': Counter, handed: set<int>, first: int, drawn: int)
    requires SpaceOk(c, handed, if c.used == 0 then drawn else first, drawn)
    requires ClockOk(now) && 0 <= sliceSize <= SLICE * 255 && Opened(c, sliceSize, now, c')
    requires 0 < c'.used < LIMIT && c'.used % SLICE == 0 && 2 <= c'.factor <= 128 && GroupOk(c'.groups[|c.groups|])
    requires c.used == 0 ==> first == c'.groups[|c.groups|].seed
    ensures SpaceOk(c', handed, first, drawn)
  {
    hide End, Unused, Disjoint, Rest, Multis;
    var g := c'.groups[|c.groups|];
    assert c'.groups == c.groups + [g];
    Joined(c.groups, g, g.seed, handed);
    OneMore(c.groups, g);
    RestBound(c'.groups);
    RestNone();
  }

  lemma DrewOk(c: Counter, i: nat, now: int, x: int, c': Counter, handed: set<int>, first: int, drawn: int)
    requires SpaceOk(c, handed, first, drawn) && ClockOk(now) && i < |c.groups| && Drew(c, i, now, x, c')
    requires 0 < c'.used < LIMIT && c'.used % SLICE == 0 && 2 <= c'.factor <= 128 && GroupOk(c'.groups[i])
    ensures SpaceOk(c', handed + {x}, first, drawn + 1) && x >= 0
    ensures ReachOf(first, drawn + 1, c'.groups) == ReachOf(first, drawn, c.groups) + 1
  {
    hide End, Unused, Disjoint, Rest, Multis;
    var g := c'.groups[i];
    assert c'.groups == c.groups[i := g];
    assert GroupOk(c.groups[i]);
    SeedStep(c.groups[i]);
    Exchanged(c.groups, i, g);
    RestBound(c'.groups);
    if !c'.rolled {
      DrewFresh(c, i, g, c'.used, x, handed);
    }
  }

  lemma DrewFresh(c: Counter, i: nat, g: Group, used: int, x: int, handed: set<int>)
    requires i < |c.groups| && x == c.groups[i].seed && GroupOk(c.groups[i]) && c.used <= used
    requires (g.seed == x + 1 && End(g) == End(c.groups[i])) || (g.seed == c.used && End(g) == used)
    requires Fresh(c.used, c.groups, handed)
    ensures Fresh(used, c.groups[i := g], handed + {x})
  {
    hide End, Disjoint, Unused;
    SeedStep(c.groups[i]);
    SeedNew(c.groups[i], c.used, handed);
    Given(c.groups, i, g, c.used, x, handed);
    forall k | 0 <= k < |c.groups| && k != i
      ensures Unused(c.groups[k], handed + {x})
    {
      StillUnused(c.groups[k], x, handed);
    }
  }

  /** The next seed of a group was not handed out, and is below the limit of the counter. */
  lemma SeedNew(g: Group, used: int, handed: set<int>)
    requires GroupOk(g) && Unused(g, handed) && Below(g, used)
    ensures g.seed !in handed && g.seed < used
  {
    SeedStep(g);
  }

  lemma StillUnused(g: Group, x: int, handed: set<int>)
    requires Unused(g, handed) && !(g.seed <= x < End(g))
    ensures Unused(g, handed + {x})
  {
  }

  lemma RestNone()
    ensures Rest([]) == 0 && Multis([]) == 0
  {
  }

  lemma OneMore(gs: seq<Group>, g: Group)
    ensures Rest(gs + [g]) == Rest(gs) + End(g) - g.seed && Multis(gs + [g]) == Multis(gs) + g.multi
  {
    assert (gs + [g])[..|gs|] == gs;
  }

  lemma {:induction false} Exchanged(gs: seq<Group>, i: nat, g: Group)
    requires i < |gs|
    ensures Rest(gs[i := g]) == Rest(gs) - (End(gs[i]) - gs[i].seed) + End(g) - g.seed
    ensures Multis(gs[i := g]) == Multis(gs) - gs[i].multi + g.multi
  {
    hide End;
    var n := |gs| - 1;
    if i < n {
      Exchanged(gs[..n], i, g);
      assert gs[i := g][..n] == gs[..n][i := g];
    } else {
      assert gs[i := g][..n] == gs[..n];
    }
  }

  lemma {:induction false} RestBound(gs: seq<Group>)
    requires forall i :: 0 <= i < |gs| ==> GroupOk(gs[i])
    ensures Rest(gs) <= SLICE * Multis(gs)
  {
    if gs != [] {
      RestBound(gs[..|gs| - 1]);
      assert GroupOk(gs[|gs| - 1]);
    }
  }

  /** One seed taken from a group's slice: the rest of the slice stays. */
  lemma SeedStep(g: Group)
    requires GroupOk(g)
    ensures g.seed < End(g)
    ensures var g' := g.(seed := g.seed + 1);
      if g'.seed % SLICE != 0 then End(g') == End(g)
      else End(g'.(usedSlice := g.usedSlice + 1)) == End(g)
    ensures g.seed + 1 == End(g) <==> (g.seed + 1) % SLICE == 0 && g.usedSlice + 1 == g.multi
  {
  }

  /** A new slice beyond all others. */
  lemma Joined(gs: seq<Group>, g: Group, start: int, handed: set<int>)
    requires g.seed == start
    ensures AllBelow(gs, start) ==>
      forall i :: 0 <= i < |gs| ==> Disjoint(gs[i], g)
    ensures (forall x :: x in handed ==> x < start) ==> Unused(g, handed)
  {
  }

  ghost predicate AllBelow(gs: seq<Group>, start: int) { forall k :: 0 <= k < |gs| ==> Below(gs[k], start) }

  ghost predicate AllDisjoint(gs: seq<Group>) { forall j, k :: 0 <= j < k < |gs| ==> Disjoint(gs[j], gs[k]) }

  /** Group `i` gives `x` away and goes on, in its slice or in a new one from `start` on. */
  lemma Given(gs: seq<Group>, i: nat, g: Group, start: int, x: int, handed: set<int>)
    requires i < |gs| && x == gs[i].seed && GroupOk(gs[i])
    requires (g.seed == x + 1 && End(g) == End(gs[i])) || g.seed == start
    ensures AllBelow(gs, start) && AllDisjoint(gs) ==>
      forall k ::
        0 <= k < |gs| && k != i ==> Disjoint(gs[k], g) && Disjoint(g, gs[k]) && !(gs[k].seed <= x < End(gs[k]))
    ensures (forall y :: y in handed ==> y < start) && Unused(gs[i], handed) && x < start ==> Unused(g, handed + {x})
  {
    SeedStep(gs[i]);
    if AllDisjoint(gs) {
      forall k | 0 <= k < |gs| && k != i
        ensures Disjoint(gs[k], gs[i])
      {
        if k < i {
          assert Disjoint(gs[k], gs[i]);
        } else {
          assert Disjoint(gs[i], gs[k]);
        }
      }
    }
  }

  // ----- runs -----

  const NONE := -1

  /** What users of the counter do: open a group, or draw a seed from the `i`-th one. */
  datatype SeedOp = Open(sliceSize: int, now: int) | Draw(i: nat, now: int)

  ghost predicate OpsOk(ops: seq<SeedOp>, latest: int) {
    forall k :: 0 <= k < |ops| ==>
      ClockOk(ops[k].now) && ops[k].now <= latest && (ops[k].Open? ==> ops[k].sliceSize >= 0)
  }

  /** What an operation does, and the seed it gives; a draw from a group that is not there gives none. */
  ghost predicate Went(c: Counter, op: SeedOp, x: int, c': Counter) {
    match op
    case Open(sliceSize, now) => x == NONE && Opened(c, sliceSize, now, c')
    case Draw(i, now) => if i < |c.groups| then x >= 0 && Drew(c, i, now, x, c') else x == NONE && c' == c
  }

  ghost predicate Walk(ops: seq<SeedOp>, xs: seq<int>, cs: seq<Counter>) {
    |xs| == |ops| && |cs| == |ops| + 1 && forall k :: 0 <= k < |ops| ==> Went(cs[k], ops[k], xs[k], cs[k + 1])
  }

  lemma WalkOn(ops: seq<SeedOp>, n: nat, xs: seq<int>, cs: seq<Counter>, x: int, c: Counter)
    requires n < |ops| && Walk(ops[..n], xs, cs) && Went(cs[n], ops[n], x, c)
    ensures Walk(ops[..n + 1], xs + [x], cs + [c])
  {
    hide Went;
    var xs', cs' := xs + [x], cs + [c];
    forall k | 0 <= k <= n
      ensures Went(cs'[k], ops[..n + 1][k], xs'[k], cs'[k + 1])
    {
      assert k < n ==> Went(cs[k], ops[..n][k], xs[k], cs[k + 1]);
    }
  }

  /** The slices a group of this size takes. */
  function Slices(sliceSize: int): int {
    if sliceSize <= SLICE then 1 else (sliceSize - 1) / SLICE + 1
  }

  /** What the operations can take from the counter. */
  function Demand(ops: seq<SeedOp>): int {
    if ops == [] then 0 else
      var op := ops[|ops| - 1];
      Demand(ops[..|ops| - 1])
      + if op.Draw? then 1 else if op.sliceSize > SLICE * 255 then 0 else SLICE * Slices(op.sliceSize)
  }

  ghost predicate Different(xs: seq<int>) {
    forall j, k :: 0 <= j < k < |xs| && xs[j] != NONE ==> xs[j] != xs[k]
  }

  lemma DemandOn(ops: seq<SeedOp>, n: nat)
    requires n < |ops|
    ensures Demand(ops[..n + 1]) == Demand(ops[..n]) +
      if ops[n].Draw? then 1 else if ops[n].sliceSize > SLICE * 255 then 0 else SLICE * Slices(ops[n].sliceSize)
  {
    assert ops[..n + 1][..n] == ops[..n];
  }

  lemma {:induction false} DemandGrows(ops: seq<SeedOp>, n: nat)
    requires n <= |ops|
    ensures 0 <= Demand(ops[..n]) <= Demand(ops)
    decreases |ops|
  {
    if n < |ops| {
      DemandGrows(ops[..|ops| - 1], n);
      assert ops[..|ops| - 1][..n] == ops[..n];
    } else if ops != [] {
      assert ops[..n] == ops;
      DemandGrows(ops[..|ops| - 1], |ops| - 1);
    }
  }

  lemma SlicesIs(sliceSize: int, multi: int)
    requires multi >= 1 && SLICE * multi >= sliceSize && (multi > 1 ==> SLICE * (multi - 1) < sliceSize)
    ensures multi == Slices(sliceSize)
  {
  }

  /** Any use of a new counter: until the demand takes it from the clock to its limit it does not roll
      over, and no two draws give the same seed, from whatever groups. */
  method RunSeeds(ops: seq<SeedOp>, ghost latest: int) returns (s: SeedSpace, xs: seq<int>, ghost cs: seq<Counter>)
    requires OpsOk(ops, latest)
    ensures fresh(s) && s.Valid() && Walk(ops, xs, cs) && cs[0] == Counter(0, 2, [], false) && cs[|ops|] == s.Now()
    ensures latest + SLICE + Demand(ops) <= LIMIT ==> !s.rolled && Different(xs)
    ensures !s.rolled ==> Different(xs)
  {
    hide Went, Opened, Drew, Slices, Demand, Rest, Multis;
    s := new SeedSpace();
    xs, cs := [], [s.Now()];
    assert ops[..0] == [];
    for n := 0 to |ops|
      invariant fresh(s) && s.Valid() && Walk(ops[..n], xs, cs) && cs[0] == Counter(0, 2, [], false) && cs[n] == s.Now()
      invariant s.used > 0 ==> s.Reach() < latest + SLICE + Demand(ops[..n])
      invariant forall k :: 0 <= k < n && xs[k] != NONE ==> xs[k] in s.handed
      invariant !s.rolled ==> Different(xs)
    {
      var x := Use(s, ops[n], latest);
      DemandOn(ops, n);
      DemandGrows(ops, n);
      WalkOn(ops, n, xs, cs, x, s.Now());
      xs, cs := xs + [x], cs + [s.Now()];
    }
    assert ops[..|ops|] == ops;
  }

  method Use(s: SeedSpace, op: SeedOp, ghost latest: int) returns (x: int)
    requires s.Valid() && ClockOk(op.now) && op.now <= latest && (op.Open? ==> op.sliceSize >= 0)
    modifies s
    ensures s.Valid() && Went(old(s.Now()), op, x, s.Now()) && old(s.handed) <= s.handed && (old(s.rolled) ==> s.rolled)
    ensures x != NONE ==> x in s.handed && (!s.rolled ==> x !in old(s.handed))
    ensures var more := if op.Draw? then 1 else if op.sliceSize > SLICE * 255 then 0 else SLICE * Slices(op.sliceSize);
      s.used > 0 ==> s.Reach() <= (if old(s.used) > 0 then old(s.Reach()) else latest + SLICE - 1) + more
  {
    hide Rest, Multis, End;
    RestNone();
    x := NONE;
    match op
    case Open(sliceSize, now) =>
      var ok := s.GroupInit(sliceSize, now);
      if ok {
        SlicesIs(sliceSize, s.groups[|s.groups| - 1].multi);
      }
    case Draw(i, now) =>
      if i < |s.groups| {
        x := s.Alloc(i, now);
      }
  }
}
