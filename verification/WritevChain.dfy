/** Gathered writes of a buffer chain (yf_writev_chain in src/mio_driver/yf_send_recv.c), against a
    kernel that may take any part of what it is offered, or interrupt, or refuse. */
module WritevChain {
  import opened Bytes

  /** yf_buf_t: the bytes of memory from `pos` to `last`. */
  datatype Buf = Buf(pos: int, last: int)
  datatype Iovec = Iovec(base: int, len: int)

  /** What one writev call answers. */
  datatype Answer = Wrote(n: nat) | Again | Interrupted | Broken

  /** The link returned, by its place in the chain; its length stands for NULL. `Spins` is no return
      at all: the rounds from there on repeat with nothing offered and nothing sent. */
  datatype Outcome = Rest(from: int) | ChainError | Spins(at: int)

  ghost predicate InMem(m: seq<byte>, bufs: seq<Buf>) {
    forall k :: 0 <= k < |bufs| ==> 0 <= bufs[k].pos <= bufs[k].last <= |m|
  }

  ghost predicate IovsIn(m: seq<byte>, iovs: seq<Iovec>) {
    forall k :: 0 <= k < |iovs| ==> 0 <= iovs[k].base && 0 <= iovs[k].len && iovs[k].base + iovs[k].len <= |m|
  }

  ghost function Content(m: seq<byte>, bufs: seq<Buf>): seq<byte>
    requires InMem(m, bufs)
  {
    if bufs == [] then [] else m[bufs[0].pos..bufs[0].last] + Content(m, bufs[1..])
  }

  /** The bytes a list of iovecs denotes. */
  ghost function Denoted(m: seq<byte>, iovs: seq<Iovec>): seq<byte>
    requires IovsIn(m, iovs)
  {
    if iovs == [] then [] else
      var i := |iovs| - 1;
      Denoted(m, iovs[..i]) + m[iovs[i].base..iovs[i].base + iovs[i].len]
  }

  lemma Assoc(x: seq<byte>, y: seq<byte>, z: seq<byte>)
    ensures x + (y + z) == (x + y) + z
  {
  }

  lemma InMemCat(m: seq<byte>, a: seq<Buf>, b: seq<Buf>)
    requires InMem(m, a) && InMem(m, b)
    ensures InMem(m, a + b) && (a != [] ==> InMem(m, a[1..]) && 0 <= a[0].pos <= a[0].last <= |m|)
  {
  }

  lemma ContentNone(m: seq<byte>)
    ensures InMem(m, []) && Content(m, []) == []
  {
  }

  lemma ContentFirst(m: seq<byte>, bufs: seq<Buf>)
    requires InMem(m, bufs) && bufs != [] && InMem(m, bufs[1..]) && 0 <= bufs[0].pos <= bufs[0].last <= |m|
    ensures Content(m, bufs) == m[bufs[0].pos..bufs[0].last] + Content(m, bufs[1..])
  {
  }

  lemma {:induction false} ContentCat(m: seq<byte>, a: seq<Buf>, b: seq<Buf>)
    requires InMem(m, a) && InMem(m, b)
    ensures InMem(m, a + b) && Content(m, a + b) == Content(m, a) + Content(m, b)
    decreases |a|, 1
  {
    hide Content, InMem;
    InMemCat(m, a, b);
    if a == [] {
      ContentNone(m);
      assert a + b == b;
    } else {
      ContentRest(m, a, b);
    }
  }

  lemma {:induction false} ContentRest(m: seq<byte>, a: seq<Buf>, b: seq<Buf>)
    requires InMem(m, a) && InMem(m, b) && a != [] && InMem(m, a + b)
    ensures Content(m, a + b) == Content(m, a) + Content(m, b)
    decreases |a|, 0
  {
    hide Content, InMem;
    InMemCat(m, a, b);
    InMemCat(m, a[1..], b);
    assert (a + b)[1..] == a[1..] + b && (a + b)[0] == a[0];
    ContentFirst(m, a);
    ContentFirst(m, a + b);
    ContentCat(m, a[1..], b);
    Assoc(m[a[0].pos..a[0].last], Content(m, a[1..]), Content(m, b));
  }

  lemma InMemFrom(m: seq<byte>, bufs: seq<Buf>, k: int)
    requires InMem(m, bufs) && 0 <= k < |bufs|
    ensures InMem(m, bufs[k..]) && InMem(m, bufs[k + 1..]) && 0 <= bufs[k].pos <= bufs[k].last <= |m|
  {
  }

  lemma ContentAt(m: seq<byte>, bufs: seq<Buf>, k: int)
    requires InMem(m, bufs) && 0 <= k < |bufs|
    ensures InMem(m, bufs[k..]) && InMem(m, bufs[k + 1..]) && 0 <= bufs[k].pos <= bufs[k].last <= |m|
    ensures Content(m, bufs[k..]) == m[bufs[k].pos..bufs[k].last] + Content(m, bufs[k + 1..])
  {
    hide Content, InMem;
    InMemFrom(m, bufs, k);
    assert bufs[k..][1..] == bufs[k + 1..] && bufs[k..][0] == bufs[k];
    ContentFirst(m, bufs[k..]);
  }

  lemma ContentSplit(m: seq<byte>, bufs: seq<Buf>, k: int)
    requires InMem(m, bufs) && 0 <= k <= |bufs|
    ensures InMem(m, bufs[..k]) && InMem(m, bufs[k..])
    ensures Content(m, bufs) == Content(m, bufs[..k]) + Content(m, bufs[k..])
  {
    ContentCat(m, bufs[..k], bufs[k..]);
    assert bufs[..k] + bufs[k..] == bufs;
  }

  /** One more iovec, or a longer last one, adds the bytes at its end. */
  lemma Pushed(m: seq<byte>, iovs: seq<Iovec>, base: int, len: int)
    requires IovsIn(m, iovs) && 0 <= base && 0 <= len && base + len <= |m|
    ensures IovsIn(m, iovs + [Iovec(base, len)])
    ensures Denoted(m, iovs + [Iovec(base, len)]) == Denoted(m, iovs) + m[base..base + len]
  {
    assert (iovs + [Iovec(base, len)])[..|iovs|] == iovs;
  }

  lemma Lengthened(m: seq<byte>, iovs: seq<Iovec>, len: int)
    requires IovsIn(m, iovs) && iovs != [] && 0 <= len
    requires iovs[|iovs| - 1].base + iovs[|iovs| - 1].len + len <= |m|
    ensures var i := |iovs| - 1; var v := iovs[i]; var iovs' := iovs[i := Iovec(v.base, v.len + len)];
      IovsIn(m, iovs') && Denoted(m, iovs') == Denoted(m, iovs) + m[v.base + v.len..v.base + v.len + len]
  {
    hide Denoted, IovsIn;
    var i := |iovs| - 1;
    var v := iovs[i];
    var iovs' := iovs[i := Iovec(v.base, v.len + len)];
    IovsLonger(m, iovs, len);
    DenotedLast(m, iovs);
    DenotedLast(m, iovs');
    assert iovs'[..i] == iovs[..i];
    Slices(m, v.base, v.base + v.len, v.base + v.len + len);
    Assoc(Denoted(m, iovs[..i]), m[v.base..v.base + v.len], m[v.base + v.len..v.base + v.len + len]);
  }

  lemma IovsLonger(m: seq<byte>, iovs: seq<Iovec>, len: int)
    requires IovsIn(m, iovs) && iovs != [] && 0 <= len
    requires iovs[|iovs| - 1].base + iovs[|iovs| - 1].len + len <= |m|
    ensures var v := iovs[|iovs| - 1]; 0 <= v.base && 0 <= v.len && IovsIn(m, iovs[..|iovs| - 1])
    ensures var i := |iovs| - 1; var v := iovs[i]; IovsIn(m, iovs[i := Iovec(v.base, v.len + len)])
  {
  }

  lemma DenotedLast(m: seq<byte>, iovs: seq<Iovec>)
    requires IovsIn(m, iovs) && iovs != []
    ensures var i := |iovs| - 1; 0 <= iovs[i].base <= iovs[i].base + iovs[i].len <= |m| && IovsIn(m, iovs[..i])
    ensures var i := |iovs| - 1; Denoted(m, iovs) == Denoted(m, iovs[..i]) + m[iovs[i].base..iovs[i].base + iovs[i].len]
  {
  }

  lemma Slices(m: seq<byte>, a: int, b: int, c: int)
    requires 0 <= a <= b <= c <= |m|
    ensures m[a..c] == m[a..b] + m[b..c]
  {
  }

  ghost predicate Full(b: Buf) { b.pos < b.last }

  /** The bytes in the links from `k` on, and in those before it. */
  ghost function Left(bufs: seq<Buf>, k: int): int
    requires 0 <= k <= |bufs|
    decreases |bufs| - k
  {
    if k == |bufs| then 0 else bufs[k].last - bufs[k].pos + Left(bufs, k + 1)
  }

  ghost function Before(bufs: seq<Buf>, k: int): int
    requires 0 <= k <= |bufs|
  {
    Left(bufs, 0) - Left(bufs, k)
  }

  /** The iovecs that the links from `lo` up to `hi` take when neighbours are joined. */
  ghost function IovCount(bufs: seq<Buf>, lo: int, hi: int): int
    requires 0 <= lo <= hi <= |bufs|
    decreases hi - lo
  {
    if lo == hi then 0
    else IovCount(bufs, lo, hi - 1) + if hi - 1 == lo || bufs[hi - 1].pos != bufs[hi - 2].last then 1 else 0
  }

  /** A round that starts at link `k` offers nothing: empty links use up the iovecs, or the chain. */
  ghost predicate Stuck(bufs: seq<Buf>, k: int, most: int) {
    0 <= k < |bufs| && forall j :: k <= j < |bufs| && Full(bufs[j]) ==> IovCount(bufs, k, j) >= most
  }

  /** What a round at link `k` offers with `room` left of the limit: all there is up to where the iovecs
      are used up, or the room if that is less. */
  ghost predicate Offers(bufs: seq<Buf>, k: int, most: int, room: int, size: int) {
    exists cl :: Fills(bufs, k, cl, most, room, size)
  }

  ghost predicate Fills(bufs: seq<Buf>, k: int, cl: int, most: int, room: int, size: int) {
    && 0 <= k <= cl <= |bufs| && (forall i :: k <= i < cl ==> IovCount(bufs, k, i) < most)
    && size == (if Left(bufs, k) - Left(bufs, cl) < room then Left(bufs, k) - Left(bufs, cl) else room)
    && (cl == |bufs| || IovCount(bufs, k, cl) >= most || size == room)
  }

  /** Such a link where a round can come to start: the first, or one right behind a byte. */
  ghost predicate Trap(bufs: seq<Buf>, k: int, most: int) {
    Stuck(bufs, k, most) && (k == 0 || Full(bufs[k - 1]))
  }

  /** Some answers of the kernel lead to such a link with part of the limit left. */
  ghost predicate Trapped(bufs: seq<Buf>, most: int, limit: int) {
    exists k :: Trap(bufs, k, most) && Before(bufs, k) < limit
  }

  /** `sent` bytes taken off `bufs` from link `from` on leave `bufs'`, and the place is `cl`: right
      behind the last byte sent if that ended its link, the link itself if not. */
  ghost predicate Stops(bufs: seq<Buf>, from: int, bufs': seq<Buf>, cl: int, sent: int) {
    && 0 <= from <= cl <= |bufs| == |bufs'| && sent + Left(bufs', cl) == Left(bufs, from)
    && (forall k :: cl < k < |bufs| ==> bufs'[k] == bufs[k])
    && (cl < |bufs| ==> bufs'[cl] == bufs[cl] || (bufs[cl].pos < bufs'[cl].pos < bufs'[cl].last == bufs[cl].last))
    && (cl == from || Full(bufs[cl - 1]) || (cl < |bufs| && bufs'[cl].pos > bufs[cl].pos))
  }

  /** A writev call: how much it was offered, and the kernel's answer. */
  datatype Call = Call(offered: int, answer: Answer)

  predicate Short(c: Call) { !c.answer.Wrote? || c.answer.n < c.offered }

  ghost function Taken(c: Call): int {
    if !c.answer.Wrote? then 0 else if c.answer.n < c.offered then c.answer.n else c.offered
  }

  ghost function Offered(calls: seq<Call>): int {
    if calls == [] then 0 else Offered(calls[..|calls| - 1]) + calls[|calls| - 1].offered
  }

  ghost function Sent(calls: seq<Call>): int {
    if calls == [] then 0 else Sent(calls[..|calls| - 1]) + Taken(calls[|calls| - 1])
  }

  ghost predicate CallOk(c: Call) { c.offered >= 0 && (c.offered == 0 ==> c.answer == Wrote(0)) }

  ghost predicate CallsOk(calls: seq<Call>) { forall k :: 0 <= k < |calls| ==> CallOk(calls[k]) }

  ghost predicate AnyWhole(calls: seq<Call>) { exists k :: 0 <= k < |calls| && !Short(calls[k]) }

  /** The calls made, in order. Of the first `n`, one that fell short was interrupted, or one before
      it was not short: that is what lets the loop go on. */
  ghost predicate Log(calls: seq<Call>, answers: nat -> Answer, n: int) {
    && CallsOk(calls)
    && (forall k :: 0 <= k < |calls| && calls[k].offered > 0 ==> calls[k].answer == answers(k))
    && (forall k ::
         0 <= k < n && k < |calls| && Short(calls[k]) ==> calls[k].answer.Interrupted? || AnyWhole(calls[..k]))
  }

  /** Where a round starts: the chain, the link, and what is left of the limit. */
  datatype Mark = Mark(bufs: seq<Buf>, at: int, room: int)

  /** One round: its call offers what a round from here does, and what it took is taken off the chain. */
  ghost predicate RoundFrom(x: Mark, c: Call, y: Mark, most: int) {
    && Offers(x.bufs, x.at, most, x.room, c.offered) && y.room == x.room - c.offered
    && Stops(x.bufs, x.at, y.bufs, y.at, Taken(c))
  }

  /** The calls are those of the rounds from mark to mark. */
  ghost predicate Rounds(marks: seq<Mark>, calls: seq<Call>, most: int) {
    |marks| == |calls| + 1 && forall k :: 0 <= k < |calls| ==> RoundFrom(marks[k], calls[k], marks[k + 1], most)
  }

  lemma RoundsOn(marks: seq<Mark>, calls: seq<Call>, c: Call, y: Mark, most: int)
    requires Rounds(marks, calls, most) && RoundFrom(marks[|calls|], c, y, most)
    ensures Rounds(marks + [y], calls + [c], most)
  {
    hide RoundFrom;
    forall k | 0 <= k <= |calls|
      ensures RoundFrom((marks + [y])[k], (calls + [c])[k], (marks + [y])[k + 1], most)
    {
      assert k < |calls| ==> RoundFrom(marks[k], calls[k], marks[k + 1], most);
    }
  }

  /** The books of a run so far: calls, marks, and what was offered and sent from `x` to `y`. */
  ghost predicate Ledger(marks: seq<Mark>, calls: seq<Call>, answers: nat -> Answer, most: int, x: Mark, y: Mark,
                         sent: int) {
    && Log(calls, answers, |calls|) && Offered(calls) == x.room - y.room && Sent(calls) == sent
    && Rounds(marks, calls, most) && marks[0] == x && marks[|calls|] == y
  }

  lemma LedgerStart(x: Mark, answers: nat -> Answer, most: int)
    ensures Ledger([x], [], answers, most, x, x, 0) && Rounds([x], [], most) && Offered([]) == 0 == Sent([])
    ensures Log([], answers, -1) && !AnyWhole([])
  {
  }

  lemma LedgerNext(marks: seq<Mark>, calls: seq<Call>, answers: nat -> Answer, most: int, x: Mark, z: Mark, sent: int,
                   c: Call, y: Mark)
    requires Ledger(marks, calls, answers, most, x, z, sent)
    requires CallOk(c) && (c.offered > 0 ==> c.answer == answers(|calls|))
    requires Offers(z.bufs, z.at, most, z.room, c.offered) && y.room == z.room - c.offered
    requires Stops(z.bufs, z.at, y.bufs, y.at, Taken(c))
    ensures var all, ms := calls + [c], marks + [y];
      && Rounds(ms, all, most) && ms[0] == x && ms[|all|] == y && Log(all, answers, |calls|)
      && Offered(all) == x.room - y.room && Sent(all) == sent + Taken(c)
      && (AnyWhole(all) <==> AnyWhole(calls) || !Short(c))
      && (Sent(all) <= Offered(all))
      && (Sent(all) == Offered(all) <==> forall k :: 0 <= k < |all| ==> !Short(all[k]))
      && (c.answer.Interrupted? || AnyWhole(all) ==> Ledger(ms, all, answers, most, x, y, sent + Taken(c)))
  {
    hide Offers, Stops, Taken, CallOk, Short, AnyWhole, CallsOk;
    LogStep(calls, c, answers);
    WholeStep(calls, c);
    SumStep(calls, c);
    CountExact(calls + [c]);
    RoundsOn(marks, calls, c, y, most);
  }

  lemma LogStep(calls: seq<Call>, call: Call, answers: nat -> Answer)
    requires Log(calls, answers, |calls|) && CallOk(call) && (call.offered > 0 ==> call.answer == answers(|calls|))
    ensures Log(calls + [call], answers, |calls|) && CallsOk(calls + [call])
    ensures call.answer.Interrupted? || AnyWhole(calls + [call]) ==> Log(calls + [call], answers, |calls| + 1)
  {
    hide AnyWhole, CallOk, Short;
    var more := calls + [call];
    WholeStep(calls, call);
    assert more[|calls|] == call && more[..|calls|] == calls;
    forall k | 0 <= k < |calls|
      ensures more[k] == calls[k] && more[..k] == calls[..k]
    {
    }
  }

  lemma WholeStep(calls: seq<Call>, call: Call)
    ensures AnyWhole(calls + [call]) <==> AnyWhole(calls) || !Short(call)
  {
    hide Short;
    assert (calls + [call])[|calls|] == call;
    assert forall k :: 0 <= k < |calls| ==> (calls + [call])[k] == calls[k];
  }

  lemma SumStep(calls: seq<Call>, call: Call)
    ensures Offered(calls + [call]) == Offered(calls) + call.offered
    ensures Sent(calls + [call]) == Sent(calls) + Taken(call)
  {
    assert (calls + [call])[..|calls|] == calls;
  }

  /** What counts against the limit is what was sent if and only if no call fell short. */
  lemma {:induction false} CountExact(calls: seq<Call>)
    requires CallsOk(calls)
    ensures Sent(calls) <= Offered(calls)
    ensures Sent(calls) == Offered(calls) <==> forall k :: 0 <= k < |calls| ==> !Short(calls[k])
  {
    if calls != [] {
      var n := |calls| - 1;
      CountExact(calls[..n]);
      assert forall k :: 0 <= k < n ==> calls[..n][k] == calls[k];
      assert CallOk(calls[n]);
    }
  }

  ghost predicate AllInterrupted(answers: nat -> Answer) { forall k: nat :: answers(k).Interrupted? }

  ghost predicate TakesAll(answers: nat -> Answer, limit: int) {
    forall k: nat :: answers(k).Wrote? && answers(k).n >= limit
  }

  /** The link at which the call ends, or spins. */
  ghost function Place(out: Outcome): int {
    match out
    case Rest(from) => from
    case ChainError => -1
    case Spins(at) => at
  }

  /** Lines 304-307: a limit of 0 stands for none but the largest there is. */
  function Limit(limit: int, maxLimit: int): int { if limit == 0 || limit > maxLimit then maxLimit else limit }

  /** Never beyond what is allowed or asked for, and no less than one of the two. */
  lemma LimitIs(limit: nat, maxLimit: int)
    requires 0 < maxLimit
    ensures var r := Limit(limit, maxLimit);
      0 < r <= maxLimit && (0 < limit ==> r <= limit) && (r == maxLimit || r == limit)
  {
  }

  class Writer {
    const mem: seq<byte>
    const iovMax: int         // YF_IOVS: 64, or less where the system takes less
    var bufs: seq<Buf>        // the chain, from the link passed in
    var rwCnt: int
    var ready: bool
    ghost var wire: seq<byte> // every byte the kernel has taken

    ghost predicate Valid()
      reads this
    {
      InMem(mem, bufs) && 1 <= iovMax <= 64
    }

    constructor (m: seq<byte>, chain: seq<Buf>, most: int)
      requires InMem(m, chain) && 1 <= most <= 64
      ensures Valid() && mem == m && bufs == chain && iovMax == most && rwCnt == 0 && ready && wire == []
    {
      mem, bufs, iovMax, rwCnt, ready, wire := m, chain, most, 0, true, [];
    }

    /** Lines 337-350: join the bytes to the last iovec if they follow it in memory. */
    method Offer(iovs: seq<Iovec>, prev: int, base: int, size: int) returns (iovs': seq<Iovec>)
      requires IovsIn(mem, iovs) && 0 <= base && 0 <= size && base + size <= |mem|
      requires prev != -1 ==> iovs != [] && prev == iovs[|iovs| - 1].base + iovs[|iovs| - 1].len
      ensures IovsIn(mem, iovs') && Denoted(mem, iovs') == Denoted(mem, iovs) + mem[base..base + size]
      ensures |iovs'| == |iovs| + if prev == base then 0 else 1
      ensures iovs' != [] && iovs'[|iovs'| - 1].base + iovs'[|iovs'| - 1].len == base + size
    {
      if prev == base {
        Lengthened(mem, iovs, size);
        var i := |iovs| - 1;
        iovs' := iovs[i := Iovec(iovs[i].base, iovs[i].len + size)];
      } else {
        Pushed(mem, iovs, base, size);
        iovs' := iovs + [Iovec(base, size)];
      }
    }

    /** Lines 328-354: offer the chain from `from` on, neighbouring buffers joined, up to the limit. */
    method Gather(from: int, send0: int, limit: int) returns (iovs: seq<Iovec>, send: int)
      requires Valid() && 0 <= from <= |bufs|
      ensures send0 <= send && (send0 <= limit ==> send <= limit) && |iovs| <= iovMax
      ensures IovsIn(mem, iovs) && InMem(mem, bufs[from..]) && send - send0 <= |Content(mem, bufs[from..])|
      ensures Denoted(mem, iovs) == Content(mem, bufs[from..])[..send - send0]
      ensures send0 <= limit ==> Offers(bufs, from, iovMax, limit - send0, send - send0)
      ensures send0 < limit && from < |bufs| ==> (send == send0 <==> Stuck(bufs, from, iovMax))
      ensures forall k :: from <= k && Stuck(bufs, k, iovMax) ==> send - send0 <= Left(bufs, from) - Left(bufs, k)
    {
      hide Content, Denoted, IovsIn, Stuck, Left, Over, InMem, Gathered, Offers;
      iovs, send := [], send0;
      var cl, prev := from, -1;
      GatheredNone(mem, bufs, from);
      OverStart(bufs, from, iovMax, limit - send0);
      while cl < |bufs| && |iovs| < iovMax && send < limit
        invariant from <= cl <= |bufs| && |iovs| <= iovMax && IovsIn(mem, iovs)
        invariant 0 <= send - send0 && (send0 <= limit ==> send <= limit)
        invariant prev != -1 ==> iovs != [] && prev == iovs[|iovs| - 1].base + iovs[|iovs| - 1].len
        invariant send < limit ==> prev == if cl == from then -1 else bufs[cl - 1].last
        invariant Gathered(mem, bufs, from, cl, iovs, send - send0, send < limit)
        invariant Over(bufs, from, cl, |iovs|, send - send0, iovMax, limit - send0)
      {
        ContentAt(mem, bufs, cl);
        var b := bufs[cl];
        var size := b.last - b.pos;
        if send + size > limit {
          size := limit - send;
        }
        OverNext(mem, bufs, from, cl, |iovs|, send - send0, iovMax, limit - send0);
        ghost var was := iovs;
        iovs := Offer(iovs, prev, b.pos, size);
        GatheredOne(mem, bufs, from, cl, was, iovs, send - send0, size, send + size < limit);
        prev := b.pos + size;
        send := send + size;
        cl := cl + 1;
      }
      GatheredIs(mem, bufs, from, cl, iovs, send - send0, send < limit);
      Visited(mem, bufs, from, cl, |iovs|, send - send0, iovMax, limit - send0);
    }

    /** Lines 392-412: what was sent is taken off the chain; the link it stops at. */
    method Consume(from: int, sent0: int) returns (cl: int)
      requires Valid() && 0 <= from <= |bufs| && 0 <= sent0
      requires InMem(mem, bufs[from..]) && sent0 <= |Content(mem, bufs[from..])|
      modifies this`bufs
      ensures Valid() && |bufs| == |old(bufs)| && bufs[..from] == old(bufs)[..from] && from <= cl <= |bufs|
      ensures Content(mem, bufs[from..]) == Content(mem, old(bufs)[from..])[sent0..]
      ensures forall k :: from <= k < cl ==> bufs[k].pos == bufs[k].last
      ensures sent0 == 0 ==> cl == from && bufs == old(bufs)
      ensures Stops(old(bufs), from, bufs, cl, sent0)
    {
      hide Content, Left, Stops, Denoted, IovsIn, InMem, Full, Sending, Sentoff;
      var sent := sent0;
      cl := from;
      ghost var orig := bufs;
      SendingStart(mem, bufs, from, sent0);
      while cl < |bufs| && sent > 0
        invariant from <= cl <= |bufs| == |orig| && 0 <= sent <= sent0 && Valid()
        invariant Sending(mem, orig, bufs, from, cl, sent0, sent)
      {
        var size := bufs[cl].last - bufs[cl].pos;
        if sent >= size {
          SendingOne(mem, orig, bufs, from, cl, sent0, sent);
          sent := sent - size;
          bufs := bufs[cl := bufs[cl].(pos := bufs[cl].last)];
          cl := cl + 1;
          continue;
        }
        SentInside(mem, orig, bufs, from, cl, sent0, sent);
        bufs := bufs[cl := bufs[cl].(pos := bufs[cl].pos + sent)];
        SentoffIs(mem, orig, bufs, from, cl, sent0);
        return;
      }
      SentBehind(mem, orig, bufs, from, cl, sent0, sent);
      SentoffIs(mem, orig, bufs, from, cl, sent0);
    }

    /** One round, lines 319-412: offer, call, take what was sent off the chain. A call that offers
        nothing is answered 0. */
    method Round(chain: int, send0: int, limit: int, kernel: Answer)
      returns (answer: Answer, send: int, sent: int, cl: int)
      requires Valid() && 0 <= chain <= |bufs| && 0 <= send0 <= limit
      modifies this`bufs, this`rwCnt, this`wire
      ensures Valid() && |bufs| == |old(bufs)| && send0 <= send <= limit && 0 <= sent <= send - send0
      ensures answer == if send == send0 then Wrote(0) else kernel
      ensures !answer.Wrote? ==> sent == 0
      ensures answer.Wrote? ==> sent == if answer.n < send - send0 then answer.n else send - send0
      ensures sent == 0 ==> bufs == old(bufs) && wire == old(wire) && cl == chain
      ensures chain <= cl <= |bufs| && rwCnt == old(rwCnt) + sent && |wire| == |old(wire)| + sent
      ensures InMem(mem, bufs[cl..]) && InMem(mem, old(bufs)[chain..])
      ensures wire + Content(mem, bufs[cl..]) == old(wire) + Content(mem, old(bufs)[chain..])
      ensures send - send0 <= |Content(mem, old(bufs)[chain..])|
      ensures bufs[..chain] == old(bufs)[..chain] && forall k :: chain <= k < cl ==> bufs[k].pos == bufs[k].last
      ensures Stops(old(bufs), chain, bufs, cl, sent)
      ensures Offers(old(bufs), chain, iovMax, limit - send0, send - send0)
      ensures send0 < limit && chain < |bufs| ==> (send == send0 <==> Stuck(old(bufs), chain, iovMax))
      ensures forall k :: chain <= k && Stuck(old(bufs), k, iovMax) ==>
        send - send0 <= Left(old(bufs), chain) - Left(old(bufs), k)
    {
      hide Content, Denoted, IovsIn, Stuck, Left, Stops, Offers;
      var iovs;
      iovs, send := Gather(chain, send0, limit);
      answer := if send == send0 then Wrote(0) else kernel;
      sent := if answer.Wrote? then (if answer.n < send - send0 then answer.n else send - send0) else 0;
      ghost var rest, was := Content(mem, bufs[chain..]), bufs;
      rwCnt := rwCnt + sent;
      wire := wire + Denoted(mem, iovs)[..sent];
      Moved(rest, Denoted(mem, iovs), sent, wire);
      cl := Consume(chain, sent);
      AllSent(mem, bufs, chain, cl);
    }

    /** yf_writev_chain. `answers(k)` is what the kernel answers to the k-th call. `counted` is what
        the limit is measured against: bytes offered, whether they were sent or not. The flag that
        all was sent, once set, stays set. */
    method WritevChain(limit0: nat, maxLimit: int, answers: nat -> Answer)
      returns (out: Outcome, ghost counted: int, ghost calls: seq<Call>, ghost marks: seq<Mark>)
      requires Valid() && 0 < maxLimit
      modifies this
      ensures Valid() && |bufs| == |old(bufs)|
      ensures wire + Content(mem, bufs) == old(wire) + old(Content(mem, bufs))
      ensures |wire| >= |old(wire)| && rwCnt - old(rwCnt) == |wire| - |old(wire)| <= counted
      ensures counted <= Limit(limit0, maxLimit)
      ensures !old(ready) ==> out == Rest(0) && bufs == old(bufs) && wire == old(wire) && !ready
      ensures out.Rest? ==> 0 <= out.from <= |bufs| && forall k :: 0 <= k < out.from ==> bufs[k].pos == bufs[k].last
      ensures out.Rest? && out.from < |bufs| && ready ==> counted == Limit(limit0, maxLimit)
      // when the call does not return: in this run, and for some answers
      ensures out.Spins? ==> Trap(old(bufs), out.at, iovMax) && Before(old(bufs), out.at) == |wire| - |old(wire)|
      ensures out.Spins? ==> 0 <= out.at < |bufs| && !Full(bufs[out.at])
      ensures out.Spins? ==> forall k :: 0 <= k < out.at ==> bufs[k].pos == bufs[k].last
      ensures out.Spins? <==> (old(ready) && ready && out != ChainError && counted < Limit(limit0, maxLimit)
        && exists k :: Trap(old(bufs), k, iovMax) && Before(old(bufs), k) == |wire| - |old(wire)|)
      ensures out.Spins? ==> Trapped(old(bufs), iovMax, Limit(limit0, maxLimit))
      ensures var limit := Limit(limit0, maxLimit);
        old(ready) && TakesAll(answers, limit) && Trapped(old(bufs), iovMax, limit) ==> out.Spins?
      ensures old(ready) && Stuck(old(bufs), 0, iovMax) ==> out.Spins?
      // the calls made, round by round: what they took is what was sent, and which one was the last
      ensures Rounds(marks, calls, iovMax) && marks[0] == Mark(old(bufs), 0, Limit(limit0, maxLimit))
      ensures var end := marks[|calls|]; end.bufs == bufs && (!out.ChainError? ==> end.at == Place(out))
      ensures Offered(calls) == counted && Sent(calls) == |wire| - |old(wire)|
      ensures calls != [] <==> old(ready)
      ensures old(ready) ==> !calls[|calls| - 1].answer.Interrupted?
      ensures out.ChainError? <==> calls != [] && calls[|calls| - 1].answer.Broken?
      ensures old(ready) ==> (!ready <==> out.Rest? && !AnyWhole(calls))
      // what counts against the limit
      ensures counted == |wire| - |old(wire)| <==> forall k :: 0 <= k < |calls| ==> !Short(calls[k])
      ensures Log(calls, answers, |calls| - 1)
      ensures AllInterrupted(answers) ==>
        wire == old(wire) && bufs == old(bufs) && ready == old(ready) && !out.ChainError? && (out.Rest? ==>
          out.from == 0)
    {
      hide Content, Denoted, IovsIn, Stops, Left, Stuck, Trap, Trapped, Offered, Sent, TakesAll, Log, AllInterrupted,
        AnyWhole, Reached, Before, InMem, Full, CallsOk, Taken, Flow, Offers, Rounds, Ledger, Short;
      ghost var orig := bufs;
      var limit := Limit(limit0, maxLimit);
      ghost var start := Mark(bufs, 0, limit);
      counted, calls, marks := 0, [], [start];
      LedgerStart(start, answers, iovMax);
      if !ready {
        return Rest(0), 0, [], marks;
      }
      var chain, send, complete, round := 0, 0, false, 0;
      Whole(mem, bufs);
      FlowStart(mem, bufs, wire);
      ghost var trap := ReachedStart(mem, bufs, limit, iovMax, answers);
      while true
        invariant Valid() && 0 <= chain <= |bufs| == |orig| && 0 <= send <= limit && ready
        invariant chain == |bufs| ==> bufs == []
        invariant Flow(mem, orig, old(wire), bufs, wire, chain)
        invariant |wire| >= |old(wire)| && rwCnt - old(rwCnt) == |wire| - |old(wire)| <= send
        invariant Reached(mem, orig, bufs, chain, |wire| - |old(wire)|, send, limit, iovMax, answers, trap)
        invariant |calls| == round
        invariant Ledger(marks, calls, answers, iovMax, start, Mark(bufs, chain, limit - send), |wire| - |old(wire)|)
        invariant complete <==> AnyWhole(calls)
        invariant AllInterrupted(answers) ==> wire == old(wire) && bufs == old(bufs) && chain == 0
        invariant AllInterrupted(answers) && send < limit ==> !complete
        decreases limit - send
      {
        var prevSend, was, answer, sent, cl := send, chain, Wrote(0), 0, 0;
        ghost var bufs1, wire1, taken1 := bufs, wire, |wire| - |old(wire)|;
        answer, send, sent, cl := Round(chain, send, limit, answers(round));
        ghost var call, taken := Call(send - prevSend, answer), |wire| - |old(wire)|;
        ghost var mark := Mark(bufs, cl, limit - send);
        TakenIs(call, sent);
        LedgerNext(marks, calls, answers, iovMax, start, Mark(bufs1, was, limit - prevSend), taken1, call, mark);
        calls, marks := calls + [call], marks + [mark];
        Answers(answers, limit, round);
        round := round + 1;
        FlowNext(mem, orig, old(wire), bufs1, wire1, was, bufs, wire, cl);
        ReachedNext(mem, orig, bufs1, was, taken1, prevSend, limit, iovMax, answers, trap, bufs, cl, sent, send);
        ReachedEnds(mem, orig, bufs, cl, taken, send, limit, iovMax, answers, trap);
        if answer.Broken? {
          return ChainError, send, calls, marks;
        }
        if send - prevSend == sent {
          complete := true;
        }
        if answer.Interrupted? {
          continue;
        }
        if !complete {
          ready := false;
          return Rest(cl), send, calls, marks;
        }
        if send >= limit || cl == |bufs| {
          return Rest(cl), send, calls, marks;
        }
        if send == prevSend {
          // nothing offered, nothing sent: every further round is this one again
          assert bufs == bufs1 && Stuck(bufs, cl, iovMax);
          return Spins(cl), send, calls, marks;
        }
        chain := cl;
      }
    }
  }

  lemma TakenIs(call: Call, sent: int)
    requires !call.answer.Wrote? ==> sent == 0
    requires call.answer.Wrote? ==> sent == if call.answer.n < call.offered then call.answer.n else call.offered
    ensures Taken(call) == sent && (!Short(call) <==> call.answer.Wrote? && call.offered <= call.answer.n)
  {
  }

  /** The links before `chain` are sent; the wire and the rest of the chain make up what there was. */
  ghost predicate Flow(m: seq<byte>, orig: seq<Buf>, wire0: seq<byte>, bufs: seq<Buf>, wire: seq<byte>, chain: int) {
    && InMem(m, orig) && InMem(m, bufs) && 0 <= chain <= |bufs| && InMem(m, bufs[chain..])
    && wire + Content(m, bufs[chain..]) == wire0 + Content(m, orig)
    && forall k :: 0 <= k < chain ==> bufs[k].pos == bufs[k].last
  }

  lemma FlowStart(m: seq<byte>, orig: seq<Buf>, wire: seq<byte>)
    requires InMem(m, orig)
    ensures Flow(m, orig, wire, orig, wire, 0)
  {
    hide Content;
    Whole(m, orig);
  }

  lemma FlowNext(m: seq<byte>, orig: seq<Buf>, wire0: seq<byte>, bufs: seq<Buf>, wire: seq<byte>, chain: int,
                 bufs': seq<Buf>, wire': seq<byte>, cl: int)
    requires Flow(m, orig, wire0, bufs, wire, chain) && InMem(m, bufs') && InMem(m, bufs[chain..])
    requires 0 <= chain <= cl <= |bufs'| == |bufs| && InMem(m, bufs'[cl..])
    requires bufs'[..chain] == bufs[..chain] && forall k :: chain <= k < cl ==> bufs'[k].pos == bufs'[k].last
    requires wire' + Content(m, bufs'[cl..]) == wire + Content(m, bufs[chain..])
    ensures Flow(m, orig, wire0, bufs', wire', cl) && wire' + Content(m, bufs') == wire0 + Content(m, orig)
    ensures forall k :: 0 <= k < cl ==> bufs'[k].pos == bufs'[k].last
  {
    hide Content;
    assert forall k :: 0 <= k < chain ==> bufs'[..chain][k] == bufs[..chain][k];
    AllSent(m, bufs', 0, cl);
    Whole(m, bufs');
  }

  // ----- where a round can start, and what it then offers -----

  lemma LeftAt(bufs: seq<Buf>, k: int)
    requires 0 <= k < |bufs|
    ensures Left(bufs, k) == bufs[k].last - bufs[k].pos + Left(bufs, k + 1)
  {
  }

  lemma {:induction false} LeftSame(bufs: seq<Buf>, bufs': seq<Buf>, k: int)
    requires 0 <= k <= |bufs| == |bufs'| && forall i :: k <= i < |bufs| ==> bufs'[i] == bufs[i]
    ensures Left(bufs', k) == Left(bufs, k)
    decreases |bufs| - k
  {
    if k < |bufs| {
      LeftSame(bufs, bufs', k + 1);
    }
  }

  /** Further on less is left, and just as much only across empty links. */
  lemma {:induction false} LeftDown(m: seq<byte>, bufs: seq<Buf>, j: int, k: int)
    requires InMem(m, bufs) && 0 <= j <= k <= |bufs|
    ensures Left(bufs, k) <= Left(bufs, j)
    ensures Left(bufs, k) == Left(bufs, j) <==> forall i :: j <= i < k ==> !Full(bufs[i])
    decreases k - j
  {
    if j < k {
      LeftDown(m, bufs, j + 1, k);
    }
  }

  lemma {:induction false} IovMore(bufs: seq<Buf>, from: int, j: int, k: int)
    requires 0 <= from <= j <= k <= |bufs|
    ensures IovCount(bufs, from, j) <= IovCount(bufs, from, k)
    decreases k - j
  {
    if j < k {
      IovMore(bufs, from, j, k - 1);
    }
  }

  lemma {:induction false} IovEarlier(bufs: seq<Buf>, from: int, k: int, j: int)
    requires 0 <= from <= k <= j <= |bufs|
    ensures IovCount(bufs, from, j) >= IovCount(bufs, k, j)
    decreases j - k
  {
    if k + 1 < j {
      IovEarlier(bufs, from, k, j - 1);
    } else {
      IovMore(bufs, from, from, j);
      if k < j {
        IovMore(bufs, from, from + 1, j);
        assert IovCount(bufs, from, from) == 0 && IovCount(bufs, from, from + 1) == 1;
        assert IovCount(bufs, k, k) == 0 && IovCount(bufs, k, k + 1) == 1;
      }
    }
  }

  /** A round went over the links from `from` up to `cl`, `n` iovecs and `size` bytes, with `room` bytes
      of the limit left at its start. */
  ghost predicate Over(bufs: seq<Buf>, from: int, cl: int, n: int, size: int, most: int, room: int) {
    && 0 <= from <= cl <= |bufs| && n == IovCount(bufs, from, cl) && size <= Left(bufs, from) - Left(bufs, cl)
    && (forall i :: from <= i < cl ==> IovCount(bufs, from, i) < most)
    && (room > 0 ==> (size == 0 <==> forall i :: from <= i < cl ==> !Full(bufs[i])))
    && (room >= 0 ==>
          size == if Left(bufs, from) - Left(bufs, cl) < room then Left(bufs, from) - Left(bufs, cl) else room)
  }

  lemma OverStart(bufs: seq<Buf>, from: int, most: int, room: int)
    requires 0 <= from <= |bufs|
    ensures Over(bufs, from, from, 0, 0, most, room)
  {
  }

  lemma OverNext(m: seq<byte>, bufs: seq<Buf>, from: int, cl: int, n: int, size: int, most: int, room: int)
    requires InMem(m, bufs) && Over(bufs, from, cl, n, size, most, room) && cl < |bufs| && n < most && 0 <= size < room
    ensures var b := bufs[cl];
      Over(bufs, from, cl + 1, n + if cl == from || b.pos != bufs[cl - 1].last then 1 else 0,
           size + if size + (b.last - b.pos) > room then room - size else b.last - b.pos, most, room)
  {
    hide Left;
    LeftAt(bufs, cl);
  }

  lemma Visited(m: seq<byte>, bufs: seq<Buf>, from: int, cl: int, n: int, size: int, most: int, room: int)
    requires InMem(m, bufs) && Over(bufs, from, cl, n, size, most, room) && (cl == |bufs| || n >= most || size >= room)
    ensures room > 0 && from < |bufs| ==> (size == 0 <==> Stuck(bufs, from, most))
    ensures forall k :: from <= k && Stuck(bufs, k, most) ==> size <= Left(bufs, from) - Left(bufs, k)
    ensures room >= 0 ==> Offers(bufs, from, most, room, size)
  {
    hide Left, IovCount;
    assert room >= 0 ==> Fills(bufs, from, cl, most, room, size);
    Overed(m, bufs, from, cl, most);
  }

  lemma Overed(m: seq<byte>, bufs: seq<Buf>, from: int, cl: int, most: int)
    requires InMem(m, bufs) && 0 <= from <= cl <= |bufs|
    requires forall i :: from <= i < cl ==> IovCount(bufs, from, i) < most
    ensures from < |bufs| && (cl == |bufs| || IovCount(bufs, from, cl) >= most) ==>
      (Stuck(bufs, from, most) <==> forall i :: from <= i < cl ==> !Full(bufs[i]))
    ensures Stuck(bufs, from, most) ==> forall i :: from <= i < cl ==> !Full(bufs[i])
    ensures forall k :: from <= k && Stuck(bufs, k, most) ==> Left(bufs, k) <= Left(bufs, cl)
  {
    hide IovCount;
    if cl < |bufs| && IovCount(bufs, from, cl) >= most {
      forall j | cl <= j < |bufs|
        ensures IovCount(bufs, from, j) >= most
      {
        IovMore(bufs, from, cl, j);
      }
    }
    forall k | from <= k && Stuck(bufs, k, most)
      ensures Left(bufs, k) <= Left(bufs, cl)
    {
      if cl <= k {
        LeftDown(m, bufs, cl, k);
      } else {
        forall i | k <= i < cl
          ensures !Full(bufs[i])
        {
          IovEarlier(bufs, from, k, i);
        }
        LeftDown(m, bufs, k, cl);
      }
    }
  }

  lemma Answers(answers: nat -> Answer, limit: int, k: nat)
    ensures AllInterrupted(answers) ==> answers(k).Interrupted?
    ensures TakesAll(answers, limit) ==> answers(k).Wrote? && answers(k).n >= limit
  {
  }

  /** The loop that takes what was sent off the chain, with `sent` bytes still to take. */
  ghost predicate Sending(m: seq<byte>, orig: seq<Buf>, bufs: seq<Buf>, from: int, cl: int, sent0: int, sent: int) {
    && InMem(m, orig) && InMem(m, bufs) && 0 <= from <= cl <= |bufs| == |orig| && 0 <= sent <= sent0
    && (forall k :: 0 <= k < from || cl <= k < |bufs| ==> bufs[k] == orig[k])
    && (forall k :: from <= k < cl ==> bufs[k] == Buf(orig[k].last, orig[k].last))
    && InMem(m, orig[cl..]) && InMem(m, orig[from..])
    && sent <= |Content(m, orig[cl..])| && sent0 <= |Content(m, orig[from..])|
    && Content(m, orig[cl..])[sent..] == Content(m, orig[from..])[sent0..]
    && (sent0 == 0 ==> bufs == orig && cl == from)
    && sent0 - sent + Left(orig, cl) == Left(orig, from) && (sent == 0 ==> cl == from || Full(orig[cl - 1]))
  }

  /** And after it. */
  ghost predicate Sentoff(m: seq<byte>, orig: seq<Buf>, bufs: seq<Buf>, from: int, cl: int, sent0: int) {
    && InMem(m, bufs) && 0 <= from <= cl <= |bufs| == |orig| && 0 <= sent0
    && (forall k ::
         0 <= k < from ==> bufs[k] == orig[k]) && (forall k :: from <= k < cl ==> bufs[k].pos == bufs[k].last)
    && InMem(m, bufs[from..]) && InMem(m, orig[from..]) && sent0 <= |Content(m, orig[from..])|
    && Content(m, bufs[from..]) == Content(m, orig[from..])[sent0..]
    && (sent0 == 0 ==> cl == from && bufs == orig) && Stops(orig, from, bufs, cl, sent0)
  }

  lemma SentoffIs(m: seq<byte>, orig: seq<Buf>, bufs: seq<Buf>, from: int, cl: int, sent0: int)
    requires Sentoff(m, orig, bufs, from, cl, sent0)
    ensures InMem(m, bufs) && 0 <= from <= cl <= |bufs| == |orig| && 0 <= sent0 && bufs[..from] == orig[..from]
    ensures forall k :: from <= k < cl ==> bufs[k].pos == bufs[k].last
    ensures InMem(m, bufs[from..]) && InMem(m, orig[from..]) && sent0 <= |Content(m, orig[from..])|
    ensures Content(m, bufs[from..]) == Content(m, orig[from..])[sent0..]
    ensures sent0 == 0 ==> cl == from && bufs == orig
    ensures Stops(orig, from, bufs, cl, sent0)
  {
  }

  lemma SendingStart(m: seq<byte>, orig: seq<Buf>, from: int, sent0: int)
    requires InMem(m, orig) && 0 <= from <= |orig| && InMem(m, orig[from..]) && 0 <= sent0 <= |Content(m, orig[from..])|
    ensures Sending(m, orig, orig, from, from, sent0, sent0)
  {
    hide Content, Left, Full;
  }

  lemma SendingOne(m: seq<byte>, orig: seq<Buf>, bufs: seq<Buf>, from: int, cl: int, sent0: int, sent: int)
    requires Sending(m, orig, bufs, from, cl, sent0, sent) && cl < |bufs| && sent > 0
    requires sent >= bufs[cl].last - bufs[cl].pos
    ensures bufs[cl].last >= bufs[cl].pos
    ensures var bufs' := bufs[cl := bufs[cl].(pos := bufs[cl].last)];
      InMem(m, bufs') && Sending(m, orig, bufs', from, cl + 1, sent0, sent - (bufs[cl].last - bufs[cl].pos))
  {
    hide Content, Left;
    ContentAt(m, orig, cl);
    LeftAt(orig, cl);
    DropsOff(m[orig[cl].pos..orig[cl].last], Content(m, orig[cl + 1..]), sent);
    Emptied(m, orig, bufs, cl);
  }

  lemma SentInside(m: seq<byte>, orig: seq<Buf>, bufs: seq<Buf>, from: int, cl: int, sent0: int, sent: int)
    requires Sending(m, orig, bufs, from, cl, sent0, sent) && cl < |bufs| && 0 < sent < bufs[cl].last - bufs[cl].pos
    ensures Sentoff(m, orig, bufs[cl := bufs[cl].(pos := bufs[cl].pos + sent)], from, cl, sent0)
  {
    hide Content, Left, Stops;
    var bufs' := bufs[cl := bufs[cl].(pos := bufs[cl].pos + sent)];
    PartSent(m, orig, bufs, cl, sent);
    AllSent(m, bufs', from, cl);
    StopsInside(orig, from, bufs', cl, sent0, sent);
  }

  lemma SentBehind(m: seq<byte>, orig: seq<Buf>, bufs: seq<Buf>, from: int, cl: int, sent0: int, sent: int)
    requires Sending(m, orig, bufs, from, cl, sent0, sent) && (cl == |bufs| || sent == 0)
    ensures Sentoff(m, orig, bufs, from, cl, sent0)
  {
    hide Content, Left, Stops, Full;
    ContentAtEnd(m, orig, cl, sent);
    assert bufs[cl..] == orig[cl..];
    assert Content(m, orig[cl..])[0..] == Content(m, orig[cl..]);
    AllSent(m, bufs, from, cl);
    StopsBehind(orig, from, bufs, cl, sent0);
  }

  lemma StopsInside(bufs: seq<Buf>, from: int, bufs': seq<Buf>, cl: int, sent0: int, sent: int)
    requires 0 <= from <= cl < |bufs| == |bufs'| && forall k :: cl < k < |bufs| ==> bufs'[k] == bufs[k]
    requires sent0 - sent + Left(bufs, cl) == Left(bufs, from)
    requires 0 < sent < bufs[cl].last - bufs[cl].pos && bufs'[cl] == Buf(bufs[cl].pos + sent, bufs[cl].last)
    ensures Stops(bufs, from, bufs', cl, sent0)
  {
    LeftAt(bufs, cl);
    LeftAt(bufs', cl);
    LeftSame(bufs, bufs', cl + 1);
  }

  lemma StopsBehind(bufs: seq<Buf>, from: int, bufs': seq<Buf>, cl: int, sent0: int)
    requires 0 <= from <= cl <= |bufs| == |bufs'| && forall k :: cl <= k < |bufs| ==> bufs'[k] == bufs[k]
    requires sent0 + Left(bufs, cl) == Left(bufs, from) && (cl == from || Full(bufs[cl - 1]))
    ensures Stops(bufs, from, bufs', cl, sent0)
  {
    LeftSame(bufs, bufs', cl);
  }

  lemma StopsNext(bufs0: seq<Buf>, bufs1: seq<Buf>, c: int, sent1: int, bufs2: seq<Buf>, d: int, sent2: int)
    requires Stops(bufs0, 0, bufs1, c, sent1) && Stops(bufs1, c, bufs2, d, sent2)
    ensures Stops(bufs0, 0, bufs2, d, sent1 + sent2)
  {
    hide Left;
  }

  /** From the place reached on, the links still are what they were. */
  lemma StuckSame(bufs: seq<Buf>, bufs': seq<Buf>, c: int, sent: int, most: int)
    requires Stops(bufs, 0, bufs', c, sent) && most > 0
    ensures forall k :: c <= k ==> (Stuck(bufs', k, most) <==> Stuck(bufs, k, most))
    ensures forall k :: c < k <= |bufs| ==> Left(bufs', k) == Left(bufs, k)
  {
    hide Left;
    forall k | c < k <= |bufs|
      ensures Left(bufs', k) == Left(bufs, k)
    {
      LeftSame(bufs, bufs', k);
    }
    forall k, j | c <= k <= j < |bufs| && (k == c ==> bufs'[c] == bufs[c])
      ensures IovCount(bufs', k, j) == IovCount(bufs, k, j)
    {
      IovSame(bufs, bufs', k, j);
    }
    assert c < |bufs| && bufs'[c] != bufs[c] ==> IovCount(bufs, c, c) == IovCount(bufs', c, c) == 0;
  }

  lemma {:induction false} IovSame(bufs: seq<Buf>, bufs': seq<Buf>, lo: int, hi: int)
    requires 0 <= lo <= hi <= |bufs| == |bufs'| && forall i :: lo <= i < hi ==> bufs'[i] == bufs[i]
    ensures IovCount(bufs', lo, hi) == IovCount(bufs, lo, hi)
    decreases hi - lo
  {
    if lo < hi {
      IovSame(bufs, bufs', lo, hi - 1);
    }
  }

  /** Taking what is offered and no more never passes a stuck link. */
  lemma Unpassed(m: seq<byte>, bufs: seq<Buf>, c: int, bufs': seq<Buf>, d: int, sent: int, k: int, most: int)
    requires InMem(m, bufs) && InMem(m, bufs') && Stops(bufs, c, bufs', d, sent)
    requires c <= k && Stuck(bufs, k, most) && sent <= Left(bufs, c) - Left(bufs, k)
    ensures d <= k
  {
    hide Left, IovCount;
    if k < d {
      LeftDown(m, bufs, k, d);
      if d < |bufs| {
        LeftAt(bufs, d);
        LeftAt(bufs', d);
        LeftSame(bufs, bufs', d + 1);
      } else {
        LeftSame(bufs, bufs', d);
      }
    }
  }

  /** Before a stuck link part of the limit is left. */
  lemma BelowLimit(m: seq<byte>, bufs: seq<Buf>, bufs': seq<Buf>, c: int, sent: int, k: int, most: int)
    requires InMem(m, bufs) && InMem(m, bufs') && Stops(bufs, 0, bufs', c, sent) && c <= k && Stuck(bufs, k, most)
    requires most > 0
    ensures sent <= Before(bufs, k)
  {
    hide Left;
    assert k == c ==> IovCount(bufs, c, c) == 0;
    LeftSame(bufs, bufs', k);
    LeftDown(m, bufs', c, k);
  }

  /** Where nothing more is offered: a trap, with everything before it sent. */
  lemma TrapHere(bufs: seq<Buf>, bufs': seq<Buf>, c: int, sent: int, most: int)
    requires Stops(bufs, 0, bufs', c, sent) && Stuck(bufs', c, most) && most > 0
    ensures Trap(bufs, c, most) && Before(bufs, c) == sent && !Full(bufs'[c])
  {
    StuckSame(bufs, bufs', c, sent, most);
    assert IovCount(bufs', c, c) == 0;
    assert bufs'[c] == bufs[c];
    LeftSame(bufs, bufs', c);
  }

  /** A run that sent the whole chain ended behind a byte, not before a trap. */
  lemma NoTrapAtEnd(m: seq<byte>, bufs: seq<Buf>, bufs': seq<Buf>, sent: int, most: int)
    requires InMem(m, bufs) && Stops(bufs, 0, bufs', |bufs|, sent)
    ensures forall k :: Trap(bufs, k, most) ==> Before(bufs, k) != sent
  {
    hide Left, IovCount;
    forall k | Trap(bufs, k, most)
      ensures Before(bufs, k) != sent
    {
      LeftSame(bufs, bufs', |bufs|);
      LeftDown(m, bufs, k, |bufs|);
      LeftDown(m, bufs, 0, |bufs|);
    }
  }

  /** Part of the loop's invariant: the place reached, and that a kernel that takes all it is
      offered does not get past the trap at `trap`. */
  ghost predicate Reached(m: seq<byte>, bufs: seq<Buf>, bufs': seq<Buf>, chain: int, taken: int, send: int, limit: int,
                          most: int, answers: nat -> Answer, trap: int) {
    && InMem(m, bufs) && InMem(m, bufs') && 0 < most && 0 < limit && Stops(bufs, 0, bufs', chain, taken)
    && (Stuck(bufs, 0, most) ==> chain == 0 && send == 0)
    && (TakesAll(answers, limit) && Trapped(bufs, most, limit) ==>
          0 <= chain <= trap < |bufs| && Stuck(bufs, trap, most) && Before(bufs, trap) < limit && send == taken)
  }

  lemma ReachedStart(m: seq<byte>, bufs: seq<Buf>, limit: int, most: int, answers: nat -> Answer) returns (trap: int)
    requires InMem(m, bufs) && 0 < most && 0 < limit
    ensures Reached(m, bufs, bufs, 0, 0, 0, limit, most, answers, trap)
  {
    hide Left;
    trap := 0;
    if Trapped(bufs, most, limit) {
      trap :| Trap(bufs, trap, most) && Before(bufs, trap) < limit;
    }
  }

  lemma ReachedNext(m: seq<byte>, bufs: seq<Buf>, bufs1: seq<Buf>, chain: int, taken: int, send1: int, limit: int,
                    most: int,
                    answers: nat -> Answer, trap: int, bufs2: seq<Buf>, cl: int, sent: int, send2: int)
    requires Reached(m, bufs, bufs1, chain, taken, send1, limit, most, answers, trap)
    requires InMem(m, bufs2) && Stops(bufs1, chain, bufs2, cl, sent) && 0 <= sent <= send2 - send1
    requires sent == 0 ==> cl == chain
    requires send1 < limit && chain < |bufs1| ==> (send2 == send1 <==> Stuck(bufs1, chain, most))
    requires forall k :: chain <= k && Stuck(bufs1, k, most) ==> send2 - send1 <= Left(bufs1, chain) - Left(bufs1, k)
    requires TakesAll(answers, limit) ==> sent == send2 - send1
    ensures Reached(m, bufs, bufs2, cl, taken + sent, send2, limit, most, answers, trap)
  {
    hide Left, IovCount;
    StuckSame(bufs, bufs1, chain, taken, most);
    StopsNext(bufs, bufs1, chain, taken, bufs2, cl, sent);
    if TakesAll(answers, limit) && Trapped(bufs, most, limit) {
      Unpassed(m, bufs1, chain, bufs2, cl, sent, trap, most);
    }
  }

  lemma ReachedEnds(m: seq<byte>, bufs: seq<Buf>, bufs': seq<Buf>, cl: int, taken: int, send: int, limit: int,
                    most: int,
                    answers: nat -> Answer, trap: int)
    requires Reached(m, bufs, bufs', cl, taken, send, limit, most, answers, trap)
    ensures TakesAll(answers, limit) && Trapped(bufs, most, limit) ==> cl < |bufs| && send < limit
    ensures Stuck(bufs, 0, most) ==> cl < |bufs| && send == 0 < limit
    ensures cl == |bufs| ==> forall k :: Trap(bufs, k, most) ==> Before(bufs, k) != taken
    ensures Stuck(bufs', cl, most) ==> Trap(bufs, cl, most) && Before(bufs, cl) == taken && !Full(bufs'[cl])
    ensures Stuck(bufs', cl, most) && taken < limit ==> Trapped(bufs, most, limit)
  {
    hide Left, IovCount;
    if TakesAll(answers, limit) && Trapped(bufs, most, limit) {
      BelowLimit(m, bufs, bufs', cl, taken, trap, most);
    }
    if cl == |bufs| {
      NoTrapAtEnd(m, bufs, bufs', taken, most);
    }
    if Stuck(bufs', cl, most) {
      TrapHere(bufs, bufs', cl, taken, most);
    }
  }

  // ----- which chains are trapped -----

  lemma FullNotTrapped(bufs: seq<Buf>, most: int, limit: int)
    requires 0 < most && forall k :: 0 <= k < |bufs| ==> Full(bufs[k])
    ensures !Trapped(bufs, most, limit)
  {
    hide Left;
    forall k | 0 <= k < |bufs|
      ensures !Stuck(bufs, k, most)
    {
      assert Full(bufs[k]) && IovCount(bufs, k, k) == 0;
    }
  }

  /** A chain without a byte: the call does not return, whatever the answers. */
  lemma {:induction false} NoByteStuck(m: seq<byte>, bufs: seq<Buf>, most: int)
    requires InMem(m, bufs) && bufs != [] && Content(m, bufs) == []
    ensures Stuck(bufs, 0, most)
  {
    hide Content;
    forall j | 0 <= j < |bufs|
      ensures !Full(bufs[j])
    {
      ContentSplit(m, bufs, j);
      ContentAt(m, bufs, j);
    }
  }

  /** A chain that ends in an empty link, whatever it holds before. */
  lemma {:induction false} EmptyEndTrapped(m: seq<byte>, bufs: seq<Buf>, k: int, most: int, limit: int)
    requires InMem(m, bufs) && 0 < most && Left(bufs, 0) < limit && 0 <= k < |bufs|
    requires forall i :: k <= i < |bufs| ==> !Full(bufs[i])
    ensures Trapped(bufs, most, limit)
    decreases k
  {
    hide Left, IovCount;
    LeftDown(m, bufs, k, |bufs|);
    if k == 0 || Full(bufs[k - 1]) {
      assert Trap(bufs, k, most);
      assert Before(bufs, k) < limit by {
        LeftDown(m, bufs, k, |bufs|);
        LeftEnd(bufs);
      }
    } else {
      EmptyEndTrapped(m, bufs, k - 1, most, limit);
    }
  }

  lemma LeftEnd(bufs: seq<Buf>)
    ensures Left(bufs, |bufs|) == 0
  {
  }

  /** As many empty links in front of all others as there are iovecs, none beginning where the one
      before it ends. */
  lemma {:induction false} EmptyFrontTrapped(bufs: seq<Buf>, most: int, limit: int)
    requires 0 < most < |bufs| && 0 < limit
    requires forall k :: 0 <= k < most ==> !Full(bufs[k]) && (k > 0 ==> bufs[k].pos != bufs[k - 1].last)
    ensures Trapped(bufs, most, limit) && Stuck(bufs, 0, most)
  {
    hide Left, IovCount;
    Apart(bufs, most);
    forall j | 0 <= j < |bufs| && Full(bufs[j])
      ensures IovCount(bufs, 0, j) >= most
    {
      IovMore(bufs, 0, most, j);
    }
    assert Trap(bufs, 0, most) && Before(bufs, 0) == 0;
  }

  lemma {:induction false} Apart(bufs: seq<Buf>, n: int)
    requires 0 <= n <= |bufs| && forall k :: 0 < k < n ==> bufs[k].pos != bufs[k - 1].last
    ensures IovCount(bufs, 0, n) == n
    decreases n
  {
    if n > 0 {
      Apart(bufs, n - 1);
    }
  }

  /** One byte and an empty link behind it: the byte is sent and the call does not return. */
  lemma ByteThenEmpty(x: byte)
    ensures InMem([x], [Buf(0, 1), Buf(1, 1)])
    ensures Trapped([Buf(0, 1), Buf(1, 1)], 64, 10) && Before([Buf(0, 1), Buf(1, 1)], 1) == 1
    ensures forall k :: Trap([Buf(0, 1), Buf(1, 1)], k, 64) ==> k == 1
  {
    var chain := [Buf(0, 1), Buf(1, 1)];
    assert Left(chain, 2) == 0 && Left(chain, 1) == 0 && Left(chain, 0) == 1;
    assert Full(chain[0]) && IovCount(chain, 0, 0) == 0;
    EmptyEndTrapped([x], chain, 1, 64, 10);
  }

  method SpinsBehindAByte(x: byte) returns (w: Writer, out: Outcome)
    ensures out == Spins(1) && |w.wire| == 1
  {
    hide Content, Trap, Trapped, Before, Stuck, Left, Log, InMem, IovCount;
    ByteThenEmpty(x);
    w := new Writer([x], [Buf(0, 1), Buf(1, 1)], 64);
    ghost var counted, calls, marks;
    out, counted, calls, marks := w.WritevChain(10, 4096, k => Wrote(10));
  }

  lemma Whole(m: seq<byte>, bufs: seq<Buf>)
    requires InMem(m, bufs)
    ensures bufs[0..] == bufs && InMem(m, bufs[0..])
  {
  }

  /** Bytes on the wire and bytes still in the chain make up the same whole after a call. */
  lemma Moved(rest: seq<byte>, offered: seq<byte>, sent: int, wire: seq<byte>)
    requires 0 <= sent <= |offered| <= |rest| && offered == rest[..|offered|] && |wire| >= sent
    requires wire[|wire| - sent..] == offered[..sent]
    ensures wire + rest[sent..] == wire[..|wire| - sent] + rest
  {
    assert rest == rest[..sent] + rest[sent..];
    assert offered[..sent] == rest[..sent];
    assert wire == wire[..|wire| - sent] + offered[..sent];
  }

  lemma NoneDenoted(m: seq<byte>)
    ensures IovsIn(m, []) && Denoted(m, []) == []
  {
  }

  lemma Grows(all: seq<byte>, k: int, b: seq<byte>, rest: seq<byte>, size: int)
    requires 0 <= k <= |all| && all[k..] == b + rest && 0 <= size <= |b|
    ensures k + size <= |all| && all[..k] + b[..size] == all[..k + size] && (size == |b| ==> all[k + size..] == rest)
  {
    assert all == all[..k] + (b + rest);
  }

  /** The iovecs so far denote the first `size` bytes from `from` on; `more` tells that all of the links
      before `cl` are among them. */
  ghost predicate Gathered(m: seq<byte>, bufs: seq<Buf>, from: int, cl: int, iovs: seq<Iovec>, size: int, more: bool) {
    && InMem(m, bufs) && 0 <= from <= cl <= |bufs| && InMem(m, bufs[from..]) && InMem(m, bufs[cl..]) && IovsIn(m, iovs)
    && 0 <= size <= |Content(m, bufs[from..])| && Denoted(m, iovs) == Content(m, bufs[from..])[..size]
    && (more ==> Content(m, bufs[from..])[size..] == Content(m, bufs[cl..]))
  }

  lemma GatheredNone(m: seq<byte>, bufs: seq<Buf>, from: int)
    requires InMem(m, bufs) && 0 <= from <= |bufs|
    ensures IovsIn(m, []) && Gathered(m, bufs, from, from, [], 0, true) && Gathered(m, bufs, from, from, [], 0, false)
  {
    hide Content;
    ContentSplit(m, bufs, from);
    NoneDenoted(m);
  }

  lemma GatheredOne(m: seq<byte>, bufs: seq<Buf>, from: int, cl: int, iovs: seq<Iovec>, iovs': seq<Iovec>, size: int,
                    k: int, more: bool)
    requires Gathered(m, bufs, from, cl, iovs, size, true) && cl < |bufs|
    requires 0 <= k <= bufs[cl].last - bufs[cl].pos && (more ==> k == bufs[cl].last - bufs[cl].pos)
    requires IovsIn(m, iovs') && 0 <= bufs[cl].pos && bufs[cl].pos + k <= |m|
    requires Denoted(m, iovs') == Denoted(m, iovs) + m[bufs[cl].pos..bufs[cl].pos + k]
    ensures Gathered(m, bufs, from, cl + 1, iovs', size + k, more)
  {
    hide Content, Denoted, IovsIn;
    var b := bufs[cl];
    ContentAt(m, bufs, cl);
    Grows(Content(m, bufs[from..]), size, m[b.pos..b.last], Content(m, bufs[cl + 1..]), k);
    Cropped(m, b.pos, b.last, k);
  }

  lemma GatheredIs(m: seq<byte>, bufs: seq<Buf>, from: int, cl: int, iovs: seq<Iovec>, size: int, more: bool)
    requires Gathered(m, bufs, from, cl, iovs, size, more)
    ensures 0 <= from <= |bufs| && IovsIn(m, iovs) && InMem(m, bufs[from..]) && 0 <= size <= |Content(m, bufs[from..])|
    ensures Denoted(m, iovs) == Content(m, bufs[from..])[..size]
  {
  }

  lemma Cropped(m: seq<byte>, pos: int, last: int, size: int)
    requires 0 <= pos <= last <= |m| && 0 <= size <= last - pos
    ensures m[pos..last][..size] == m[pos..pos + size]
  {
  }

  lemma DropsOff(b: seq<byte>, rest: seq<byte>, sent: int)
    requires 0 <= sent <= |b + rest|
    ensures sent >= |b| ==> (b + rest)[sent..] == rest[sent - |b|..]
    ensures sent <= |b| ==> (b + rest)[sent..] == b[sent..] + rest
  {
  }

  /** A link that is sent in part. */
  lemma PartSent(m: seq<byte>, orig: seq<Buf>, bufs: seq<Buf>, cl: int, sent: int)
    requires InMem(m, orig) && InMem(m, bufs) && 0 <= cl < |bufs| == |orig|
    requires forall k :: cl <= k < |bufs| ==> bufs[k] == orig[k]
    requires 0 <= sent < orig[cl].last - orig[cl].pos
    ensures var bufs' := bufs[cl := bufs[cl].(pos := bufs[cl].pos + sent)];
      && InMem(m, bufs') && InMem(m, bufs'[cl..]) && InMem(m, orig[cl..]) && sent <= |Content(m, orig[cl..])|
      && Content(m, bufs'[cl..]) == Content(m, orig[cl..])[sent..]
  {
    hide Content;
    var bufs' := bufs[cl := bufs[cl].(pos := bufs[cl].pos + sent)];
    ContentAt(m, orig, cl);
    ContentAt(m, bufs', cl);
    assert bufs'[cl + 1..] == orig[cl + 1..];
    DropsOff(m[orig[cl].pos..orig[cl].last], Content(m, orig[cl + 1..]), sent);
    assert m[orig[cl].pos..orig[cl].last][sent..] == m[orig[cl].pos + sent..orig[cl].last];
  }

  lemma Emptied(m: seq<byte>, orig: seq<Buf>, bufs: seq<Buf>, k: int)
    requires InMem(m, bufs) && InMem(m, orig) && 0 <= k < |bufs| == |orig| && bufs[k] == orig[k]
    ensures InMem(m, bufs[k := bufs[k].(pos := bufs[k].last)])
    ensures Full(orig[k]) <==> bufs[k].last - bufs[k].pos > 0
  {
  }

  lemma ContentAtEnd(m: seq<byte>, bufs: seq<Buf>, cl: int, sent: int)
    requires InMem(m, bufs) && 0 <= cl <= |bufs| && InMem(m, bufs[cl..]) && 0 <= sent <= |Content(m, bufs[cl..])|
    ensures cl == |bufs| ==> sent == 0
  {
  }

  /** Links that are sent hold nothing. */
  lemma {:induction false} AllSent(m: seq<byte>, bufs: seq<Buf>, from: int, cl: int)
    requires InMem(m, bufs) && 0 <= from <= cl <= |bufs|
    requires forall k :: from <= k < cl ==> bufs[k].pos == bufs[k].last
    ensures InMem(m, bufs[from..]) && InMem(m, bufs[cl..]) && Content(m, bufs[from..]) == Content(m, bufs[cl..])
    decreases cl - from
  {
    if from < cl {
      ContentAt(m, bufs, from);
      AllSent(m, bufs, from + 1, cl);
    }
  }
}
