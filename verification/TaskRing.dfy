/** The task ring with its two sides at work at once and no lock, as the threads of
    src/bridge/bridge_in/yf_bridge_thr.c use it. Every read or write of an offset and every byte
    copied is a step of its own, copies go in any order, and steps of the two sides interleave in
    any way, under sequential consistency. */
module TaskRing {
  import opened Bytes
  import opened TaskCodec

  /** Where the producer is in yf_task_push. */
  datatype Producer =
    | PIdle
    | PSaw(t: Task, empty: bool)            // has compared read_offset with write_offset once
    | PCopy(t: Task, done: set<nat>)        // is copying; `done` are the bytes already there

  /** Where the consumer is in yf_task_pop. */
  datatype Consumer =
    | CIdle
    | CHead(room: int, got: map<nat, byte>)           // is copying the header
    | CBody(got: map<nat, byte>, len: int)            // is copying the payload

  datatype State = State(n: nat, ring: seq<byte>, r: int, w: int, prod: Producer, cons: Consumer,
                         sent: seq<Task>, popped: seq<Task>)

  datatype Act = Offer(t: Task) | Decide | PutByte(j: nat) | Publish
               | Ask(room: int) | GetByte(j: nat) | SizeUp | Finish

  ghost predicate Done(done: set<nat>, k: int) { forall j: nat :: j < k ==> j in done }
  ghost predicate Got(got: map<nat, byte>, k: int) { forall j: nat :: j < k ==> j in got }

  ghost function Taken(got: map<nat, byte>, lo: nat, hi: nat): seq<byte>
    requires lo <= hi && Got(got, hi)
  {
    seq(hi - lo, k requires 0 <= k < hi - lo => got[lo + k])
  }

  ghost predicate Sound(s: State) {
    && |s.ring| > 0 && 0 <= s.r < |s.ring| && 0 <= s.w < |s.ring|
    && (s.prod.PSaw? || s.prod.PCopy? ==> Fits(s.prod.t, s.n))
    && (s.cons.CBody? ==> 0 <= s.cons.len && Got(s.cons.got, HeadLen(s.n)))
  }

  /** When an action can be the next step. */
  ghost predicate Can(s: State, a: Act)
    requires Sound(s)
  {
    match a
    case Offer(t) => s.prod.PIdle? && Fits(t, s.n)
    case Decide => s.prod.PSaw?
    case PutByte(j) => s.prod.PCopy? && j < |Encode(s.prod.t)| && j !in s.prod.done
    case Publish => s.prod.PCopy? && Done(s.prod.done, |Encode(s.prod.t)|)
    case Ask(room) => s.cons.CIdle?
    case GetByte(j) =>
      if s.cons.CHead? then j < HeadLen(s.n) && j !in s.cons.got
      else s.cons.CBody? && j < HeadLen(s.n) + s.cons.len && j !in s.cons.got
    case SizeUp => s.cons.CHead? && Got(s.cons.got, HeadLen(s.n))
    case Finish => s.cons.CBody? && Got(s.cons.got, HeadLen(s.n) + s.cons.len)
  }

  /** The step itself. Offsets wrap and copies index the ring modulo its size. */
  ghost function Step(s: State, a: Act): State
    requires Sound(s) && Can(s, a)
  {
    var cap := |s.ring|;
    match a
    case Offer(t) => s.(prod := PSaw(t, s.r == s.w))
    case Decide =>
      // the second read of read_offset, skipped if the first already matched
      var free := if s.prod.empty then cap else (s.r + cap - s.w) % cap;
      s.(prod := if free <= |Encode(s.prod.t)| then PIdle else PCopy(s.prod.t, {}))
    case PutByte(j) =>
      s.(ring := s.ring[(s.w + j) % cap := Encode(s.prod.t)[j]], prod := PCopy(s.prod.t, s.prod.done + {j}))
    case Publish =>
      s.(w := (s.w + |Encode(s.prod.t)|) % cap, sent := s.sent + [s.prod.t], prod := PIdle)
    case Ask(room) =>
      s.(cons := if BufSize(s.r, s.w, cap) < HeadLen(s.n) then CIdle else CHead(room, map[]))
    case GetByte(j) =>
      var b := s.ring[(s.r + j) % cap];
      s.(cons := if s.cons.CHead? then CHead(s.cons.room, s.cons.got[j := b])
                 else CBody(s.cons.got[j := b], s.cons.len))
    case SizeUp =>
      var len := LenOf(Taken(s.cons.got, 0, HeadLen(s.n)));
      s.(cons := if 0 <= s.cons.room < len then CIdle
                 else if len > 0 && BufSize((s.r + HeadLen(s.n)) % cap, s.w, cap) < len then CIdle
                 else CBody(s.cons.got, len))
    case Finish =>
      var h := HeadLen(s.n);
      s.(r := (s.r + h + s.cons.len) % cap, cons := CIdle,
         popped := s.popped + [Decode(Taken(s.cons.got, 0, h), Taken(s.cons.got, h, h + s.cons.len))])
  }

  ghost predicate Init(s: State) {
    |s.ring| > 0 && s.r == s.w == 0 && s.prod == PIdle && s.cons == CIdle && s.sent == s.popped == []
  }

  // ----- the invariant -----

  ghost function Waiting(s: State): seq<Task>
    requires |s.popped| <= |s.sent|
  {
    s.sent[|s.popped|..]
  }

  ghost predicate Written(ring: seq<byte>, w: int, e: seq<byte>, done: set<nat>) {
    0 <= w < |ring| && |e| <= |ring| && forall j :: j in done ==> j < |e| && ring[CellAt(w, j, |ring|)] == e[j]
  }

  ghost predicate Copied(got: map<nat, byte>, e: seq<byte>, k: int) {
    forall j :: j in got ==> j < k <= |e| && got[j] == e[j]
  }

  /** Order and contents: what was popped is the front of what was sent, the ring holds the rest. */
  ghost predicate Fifo(s: State)
    requires Sound(s)
  {
    && AllFit(s.sent, s.n) && |s.popped| <= |s.sent| && s.popped == s.sent[..|s.popped|]
    && |Records(Waiting(s), s.n)| == BufSize(s.r, s.w, |s.ring|)
    && RingHolds(s.ring, s.r, Records(Waiting(s), s.n))
  }

  ghost predicate ProducerOk(s: State)
    requires Sound(s) && Fifo(s)
  {
    match s.prod
    case PIdle => true
    case PSaw(t, empty) => empty ==> s.r == s.w
    case PCopy(t, done) =>
      BufSize(s.r, s.w, |s.ring|) + |Encode(t)| < |s.ring| && Written(s.ring, s.w, Encode(t), done)
  }

  ghost predicate ConsumerOk(s: State)
    requires Sound(s) && Fifo(s)
  {
    && (!s.cons.CIdle? ==> Waiting(s) != [])
    && (s.cons.CHead? ==> Copied(s.cons.got, Encode(Waiting(s)[0]), HeadLen(s.n)))
    && (s.cons.CBody? ==> s.cons.len == |Waiting(s)[0].payload|
                          && Copied(s.cons.got, Encode(Waiting(s)[0]), HeadLen(s.n) + s.cons.len))
  }

  ghost predicate Inv(s: State) {
    Sound(s) && Fifo(s) && ProducerOk(s) && ConsumerOk(s)
  }

  lemma InitInv(s: State)
    requires Init(s)
    ensures Inv(s)
  {
    BufSizeIs(0, 0, |s.ring|);
  }

  lemma CellIs(off: int, k: int, cap: int)
    requires 0 <= off < cap && 0 <= k <= cap
    ensures (off + k) % cap == CellAt(off, k, cap) && 0 <= CellAt(off, k, cap) < cap
  {
    ModTwice(off + k, cap);
  }

  /** The cell the producer writes is never one that holds an unread byte. */
  lemma NeverOverwrites(s: State, j: nat, k: nat)
    requires Inv(s) && s.prod.PCopy? && j < |Encode(s.prod.t)| && k < |Records(Waiting(s), s.n)|
    ensures (s.w + j) % |s.ring| != (s.r + k) % |s.ring|
  {
    var cap := |s.ring|;
    BufSizeIs(s.r, s.w, cap);
    CellIs(s.w, j, cap);
    CellIs(s.r, k, cap);
  }

  /** Two cells less than a turn apart are different. */
  lemma Apart(off: int, j: int, k: int, cap: int)
    requires 0 <= off < cap && 0 <= j < cap && 0 <= k < cap && j != k
    ensures CellAt(off, j, cap) != CellAt(off, k, cap)
  {
  }

  lemma PutByteInv(s: State, j: nat)
    requires Inv(s) && Can(s, PutByte(j))
    ensures Inv(Step(s, PutByte(j)))
  {
    hide Encode, EncodeHead, Records, BufSize, FreeCapacity;
    var s', cap, e := Step(s, PutByte(j)), |s.ring|, Encode(s.prod.t);
    BufSizeIs(s.r, s.w, cap);
    CellIs(s.w, j, cap);
    forall k | 0 <= k < |Records(Waiting(s), s.n)|
      ensures s'.ring[CellAt(s.r, k, cap)] == Records(Waiting(s), s.n)[k]
    {
      NeverOverwrites(s, j, k);
      CellIs(s.r, k, cap);
    }
    forall k | k in s'.prod.done
      ensures k < |e| && s'.ring[CellAt(s.w, k, cap)] == e[k]
    {
      if k != j {
        Apart(s.w, j, k, cap);
        CellIs(s.w, k, cap);
      }
    }
    assert Waiting(s') == Waiting(s);
  }

  lemma WholeWritten(ring: seq<byte>, w: int, e: seq<byte>, done: set<nat>)
    requires Written(ring, w, e, done) && Done(done, |e|)
    ensures RingHolds(ring, w, e)
  {
  }

  lemma PublishInv(s: State)
    requires Inv(s) && Can(s, Publish)
    ensures Inv(Step(s, Publish))
  {
    hide Encode, EncodeHead, Records, BufSize, FreeCapacity, CellAt, RingHolds, Written, Done, Copied;
    var s', cap, e, u := Step(s, Publish), |s.ring|, Encode(s.prod.t), Records(Waiting(s), s.n);
    BufSizeIs(s.r, s.w, cap);
    CellIs(s.w, |e|, cap);
    WholeWritten(s.ring, s.w, e, s.prod.done);
    WrittenFits(s.ring, s.r, s.w, u, e);
    HoldsPart(s.ring, s.r, u, e);
    assert Waiting(s') == Waiting(s) + [s.prod.t];
    FitParts(s.sent, |s.popped|, s.prod.t, s.n);
    RecordsAppend(Waiting(s), s.prod.t, s.n);
    assert s'.popped == s'.sent[..|s'.popped|];
  }

  lemma FitParts(q: seq<Task>, k: nat, t: Task, n: nat)
    requires AllFit(q, n) && k <= |q|
    ensures AllFit(q[k..], n) && (Fits(t, n) ==> AllFit(q + [t], n))
    ensures k < |q| ==> Fits(q[k], n)
  {
  }

  lemma WrittenFits(ring: seq<byte>, r: int, w: int, u: seq<byte>, e: seq<byte>)
    requires 0 <= r < |ring| && 0 <= w < |ring| && |u| == BufSize(r, w, |ring|) && |u| + |e| < |ring|
    ensures |u + e| == BufSize(r, CellAt(w, |e|, |ring|), |ring|) && CellAt(r, |u|, |ring|) == w
  {
    BufSizeIs(r, w, |ring|);
    BufSizeIs(r, CellAt(w, |e|, |ring|), |ring|);
  }

  /** The first record waiting, as the ring holds it. */
  lemma Front(s: State)
    requires Sound(s) && Fifo(s) && Waiting(s) != []
    ensures var q := Waiting(s); Fits(q[0], s.n) && AllFit(q[1..], s.n) && HeadLen(s.n) <= |Encode(q[0])|
    ensures var e := Encode(Waiting(s)[0]);
      && |e| <= |Records(Waiting(s), s.n)| < |s.ring|
      && RingHolds(s.ring, s.r, e)
      && RingHolds(s.ring, CellAt(s.r, |e|, |s.ring|), Records(Waiting(s)[1..], s.n))
      && |Records(Waiting(s), s.n)| == |e| + |Records(Waiting(s)[1..], s.n)|
  {
    hide Encode, EncodeHead, RingHolds, CellAt;
    BufSizeIs(s.r, s.w, |s.ring|);
    var q := Waiting(s);
    FitParts(s.sent, |s.popped|, q[0], s.n);
    FitParts(q, 1, q[0], s.n);
    HoldsPart(s.ring, s.r, Encode(q[0]), Records(q[1..], s.n));
  }

  lemma GetByteInv(s: State, j: nat)
    requires Inv(s) && Can(s, GetByte(j))
    ensures Inv(Step(s, GetByte(j)))
  {
    hide EncodeHead, Records, BufSize, FreeCapacity, Written, Done;
    Front(s);
    var e := Encode(Waiting(s)[0]);
    CellIs(s.r, j, |s.ring|);
    assert s.ring[CellAt(s.r, j, |s.ring|)] == e[j];
    assert Waiting(Step(s, GetByte(j))) == Waiting(s);
  }

  lemma TakenIs(got: map<nat, byte>, e: seq<byte>, lo: nat, hi: nat)
    requires lo <= hi <= |e| && Got(got, hi) && Copied(got, e, |e|)
    ensures Taken(got, lo, hi) == e[lo..hi]
  {
  }

  /** A header that is complete gives the length of the task waiting, and the payload is there too. */
  lemma Sized(s: State)
    requires Inv(s) && Can(s, SizeUp)
    ensures var len := LenOf(Taken(s.cons.got, 0, HeadLen(s.n)));
      len == |Waiting(s)[0].payload| && BufSize((s.r + HeadLen(s.n)) % |s.ring|, s.w, |s.ring|) >= len
  {
    hide EncodeHead, Records, RingHolds;
    Front(s);
    var t := Waiting(s)[0];
    DecodeEncode(t);
    TakenIs(s.cons.got, Encode(t), 0, HeadLen(s.n));
    CellIs(s.r, HeadLen(s.n), |s.ring|);
    BufSizeIs(s.r, s.w, |s.ring|);
    BufSizeIs(CellAt(s.r, HeadLen(s.n), |s.ring|), s.w, |s.ring|);
  }

  lemma SizeUpInv(s: State)
    requires Inv(s) && Can(s, SizeUp)
    ensures Inv(Step(s, SizeUp))
  {
    hide EncodeHead, Records, BufSize, FreeCapacity, Written, Done, RingHolds, LenOf, Taken;
    Sized(s);
    Front(s);
    assert Waiting(Step(s, SizeUp)) == Waiting(s);
  }

  /** What a pop hands over is the oldest task sent and not popped, whole. */
  lemma FinishTakes(s: State)
    requires Inv(s) && Can(s, Finish)
    ensures Step(s, Finish).popped == s.popped + [s.sent[|s.popped|]]
  {
    hide Encode, EncodeHead, Records, RingHolds, BufSize, LenOf, Decode, Taken;
    Front(s);
    var t, h := Waiting(s)[0], HeadLen(s.n);
    DecodeEncode(t);
    TakenIs(s.cons.got, Encode(t), 0, h);
    TakenIs(s.cons.got, Encode(t), h, h + s.cons.len);
    assert Encode(t)[0..h] == Encode(t)[..h] && Encode(t)[h..h + s.cons.len] == Encode(t)[h..];
  }

  lemma FinishInv(s: State)
    requires Inv(s) && Can(s, Finish)
    ensures Inv(Step(s, Finish))
  {
    hide Encode, EncodeHead, Records, BufSize, FreeCapacity, Done, RingHolds, LenOf, TimeOf, Taken, Decode, CellAt,
      Got, Copied, Written;
    FinishTakes(s);
    Front(s);
    var s', e := Step(s, Finish), Encode(Waiting(s)[0]);
    CellIs(s.r, |e|, |s.ring|);
    Consumed(s.r, s.w, |Records(Waiting(s), s.n)|, |e|, |s.ring|);
    assert Waiting(s') == Waiting(s)[1..];
  }

  lemma Consumed(r: int, w: int, u: int, e: int, cap: int)
    requires 0 <= r < cap && 0 <= w < cap && u == BufSize(r, w, cap) && 0 <= e <= u
    ensures BufSize(CellAt(r, e, cap), w, cap) == u - e && 0 <= CellAt(r, e, cap) < cap && (e > 0 ==> r != w)
  {
    BufSizeIs(r, w, cap);
    BufSizeIs(CellAt(r, e, cap), w, cap);
  }

  lemma DecideInv(s: State)
    requires Inv(s) && Can(s, Decide)
    ensures Inv(Step(s, Decide))
  {
    hide Encode, Records, RingHolds, BufSize;
    BufSizeIs(s.r, s.w, |s.ring|);
    ModTwice(s.r + |s.ring| - s.w, |s.ring|);
    assert Waiting(Step(s, Decide)) == Waiting(s);
  }

  lemma AskInv(s: State, room: int)
    requires Inv(s) && Can(s, Ask(room))
    ensures Inv(Step(s, Ask(room)))
    ensures Step(s, Ask(room)).cons.CIdle? <==> s.popped == s.sent
  {
    hide Encode, Records, RingHolds, BufSize;
    FitParts(s.sent, |s.popped|, Task(0, [], []), s.n);
    RecordsEmpty(Waiting(s), s.n);
    assert Waiting(Step(s, Ask(room))) == Waiting(s);
  }

  lemma StepInv(s: State, a: Act)
    requires Inv(s) && Can(s, a)
    ensures Inv(Step(s, a))
  {
    hide Inv, Fifo, ProducerOk, ConsumerOk, Can, Step;
    match a
    case Offer(t) => OfferInv(s, t);
    case Decide => DecideInv(s);
    case PutByte(j) => PutByteInv(s, j);
    case Publish => PublishInv(s);
    case Ask(room) => AskInv(s, room);
    case GetByte(j) => GetByteInv(s, j);
    case SizeUp => SizeUpInv(s);
    case Finish => FinishInv(s);
  }

  lemma OfferInv(s: State, t: Task)
    requires Inv(s) && Can(s, Offer(t))
    ensures Inv(Step(s, Offer(t)))
  {
    hide Encode, Records, RingHolds, BufSize;
    assert Waiting(Step(s, Offer(t))) == Waiting(s);
  }

  // ----- runs -----

  ghost predicate Run(s: State, acts: seq<Act>, s': State)
    decreases |acts|
  {
    if acts == [] then s' == s
    else Sound(s) && Can(s, acts[0]) && Run(Step(s, acts[0]), acts[1..], s')
  }

  /** In every interleaving, what the consumer has got is what the producer has sent, whole and in
      order, up to tasks still in the ring. */
  lemma {:induction false} FifoAlways(s: State, acts: seq<Act>, s': State)
    requires Inv(s) && Run(s, acts, s')
    ensures Inv(s') && s'.popped == s'.sent[..|s'.popped|]
    decreases |acts|
  {
    if acts != [] {
      StepInv(s, acts[0]);
      FifoAlways(Step(s, acts[0]), acts[1..], s');
    }
  }

  /** From the empty ring on, then: whatever the sides do, tasks come out as they went in, and the ring
      is empty exactly when all that was sent has come out. */
  lemma FifoFromStart(s: State, acts: seq<Act>, s': State)
    requires Init(s) && Run(s, acts, s')
    ensures Inv(s') && s'.popped == s'.sent[..|s'.popped|]
    ensures s'.r == s'.w <==> s'.popped == s'.sent
  {
    InitInv(s);
    FifoAlways(s, acts, s');
    Emptied(s');
  }

  /** A pop finds nothing exactly when nothing is waiting; one that has seen the header fails only
      for a buffer that is too small, and then consumes nothing. */
  lemma PopFailsOnly(s: State, a: Act)
    requires Inv(s) && Can(s, a) && (a.Ask? || a.SizeUp?)
    ensures Step(s, a).popped == s.popped && Step(s, a).r == s.r
    ensures a.Ask? ==> (Step(s, a).cons.CIdle? <==> s.popped == s.sent)
    ensures a.SizeUp? ==> (Step(s, a).cons.CIdle? <==> 0 <= s.cons.room < |Waiting(s)[0].payload|)
  {
    if a.Ask? {
      AskInv(s, a.room);
    } else {
      Sized(s);
    }
  }

  /** A push is refused when the space is short, or, from the two reads of read_offset, when the
      consumer emptied the ring between them: then a push into an empty ring is refused. */
  lemma RefusedExactly(s: State)
    requires Inv(s) && Can(s, Decide)
    ensures Step(s, Decide).prod.PIdle? <==>
      |s.ring| - |Records(Waiting(s), s.n)| <= |Encode(s.prod.t)| || (s.r == s.w && !s.prod.empty)
  {
    BufSizeIs(s.r, s.w, |s.ring|);
    ModTwice(s.r + |s.ring| - s.w, |s.ring|);
  }

  // ----- no step of the other side is ever waited for -----

  lemma {:induction false} RunJoin(s: State, a: seq<Act>, m: State, b: seq<Act>, s': State)
    requires Run(s, a, m) && Run(m, b, s')
    ensures Run(s, a + b, s')
    decreases |a|
  {
    if a == [] {
      assert a + b == b;
    } else {
      RunJoin(Step(s, a[0]), a[1..], m, b, s');
      assert (a + b)[1..] == a[1..] + b;
    }
  }

  lemma RunOne(s: State, a: Act)
    requires Inv(s) && Can(s, a)
    ensures Run(s, [a], Step(s, a)) && Inv(Step(s, a))
  {
    StepInv(s, a);
    assert Run(Step(s, a), [], Step(s, a));
  }

  ghost predicate Upto(c: Consumer, k: int) {
    !c.CIdle? && Got(c.got, k) && forall j :: j in c.got ==> j < k
  }

  ghost predicate SameBut(c: Consumer, c': Consumer) {
    if c.CHead? then c'.CHead? && c'.room == c.room else c.CBody? && c'.CBody? && c'.len == c.len
  }

  lemma CopyOne(s: State, k: nat)
    requires Inv(s) && Upto(s.cons, k) && k < HeadLen(s.n) + if s.cons.CBody? then s.cons.len else 0
    ensures Can(s, GetByte(k))
    ensures var m := Step(s, GetByte(k));
      && Inv(m) && m == s.(cons := m.cons) && Upto(m.cons, k + 1) && SameBut(s.cons, m.cons) && Run(s, [GetByte(k)], m)
  {
    hide Fifo, ProducerOk, ConsumerOk, Run;
    assert Can(s, GetByte(k));
    RunOne(s, GetByte(k));
  }

  /** The consumer can copy on, byte after byte. */
  lemma {:induction false} CopiesOn(s: State, lo: nat, hi: nat) returns (acts: seq<Act>, s': State)
    requires Inv(s) && Upto(s.cons, lo) && lo <= hi
    requires hi <= HeadLen(s.n) + if s.cons.CBody? then s.cons.len else 0
    ensures Run(s, acts, s') && Inv(s') && s' == s.(cons := s'.cons)
    ensures Upto(s'.cons, hi) && SameBut(s.cons, s'.cons)
    decreases hi - lo
  {
    hide Fifo, ProducerOk, ConsumerOk, Step;
    if lo == hi {
      acts, s' := [], s;
    } else {
      CopyOne(s, lo);
      var m := Step(s, GetByte(lo));
      acts, s' := CopiesOn(m, lo + 1, hi);
      RunJoin(s, [GetByte(lo)], m, acts, s');
      acts := [GetByte(lo)] + acts;
    }
  }

  /** Wherever the producer is, a pop of a waiting task into a large enough buffer completes by
      the consumer's own steps. */
  lemma PopCompletes(s: State, room: int) returns (acts: seq<Act>, s': State)
    requires Inv(s) && s.cons.CIdle? && s.popped != s.sent
    requires room < 0 || room >= |Waiting(s)[0].payload|
    ensures Run(s, acts, s') && Inv(s')
    ensures s'.popped == s.popped + [s.sent[|s.popped|]] && s'.sent == s.sent && s'.prod == s.prod && s'.cons == CIdle
    ensures s'.w == s.w
  {
    hide Inv, Fifo, ProducerOk, ConsumerOk, Run;
    RunOne(s, Ask(room));
    PopFailsOnly(s, Ask(room));
    var s1 := Step(s, Ask(room));
    var a, s2 := CopiesOn(s1, 0, HeadLen(s.n));
    RunJoin(s, [Ask(room)], s1, a, s2);
    StillWaiting(s, s2);
    HeadThen(s2);
    var s3 := Step(s2, SizeUp);
    RunJoin(s, [Ask(room)] + a, s2, [SizeUp], s3);
    var b, s4 := CopiesOn(s3, HeadLen(s.n), HeadLen(s.n) + s3.cons.len);
    RunJoin(s, [Ask(room)] + a + [SizeUp], s3, b, s4);
    RunOne(s4, Finish);
    FinishTakes(s4);
    s' := Step(s4, Finish);
    RunJoin(s, [Ask(room)] + a + [SizeUp] + b, s4, [Finish], s');
    acts := [Ask(room)] + a + [SizeUp] + b + [Finish];
  }

  lemma StillWaiting(s: State, s': State)
    requires Inv(s) && Inv(s') && s'.sent == s.sent && s'.popped == s.popped
    ensures Waiting(s') == Waiting(s)
  {
  }

  lemma HeadThen(s: State)
    requires Inv(s) && s.cons.CHead? && Upto(s.cons, HeadLen(s.n))
    requires s.cons.room < 0 || s.cons.room >= |Waiting(s)[0].payload|
    ensures Can(s, SizeUp) && Run(s, [SizeUp], Step(s, SizeUp)) && Inv(Step(s, SizeUp))
    ensures var s' := Step(s, SizeUp); s'.cons.CBody? && s'.cons.got == s.cons.got && s' == s.(cons := s'.cons)
  {
    RunOne(s, SizeUp);
    PopFailsOnly(s, SizeUp);
  }

  ghost predicate Put(p: Producer, t: Task, k: int) {
    p.PCopy? && p.t == t && Done(p.done, k) && forall j :: j in p.done ==> j < k
  }

  lemma PutOne(s: State, t: Task, k: nat)
    requires Inv(s) && Put(s.prod, t, k) && Fits(t, s.n) && k < |Encode(t)|
    ensures Can(s, PutByte(k))
    ensures var m := Step(s, PutByte(k));
      && Inv(m) && m == s.(prod := m.prod, ring := m.ring) && |m.ring| == |s.ring| && Put(m.prod, t, k + 1)
      && Run(s, [PutByte(k)], m)
  {
    hide Fifo, ProducerOk, ConsumerOk, Run, Encode, EncodeHead;
    assert Can(s, PutByte(k));
    RunOne(s, PutByte(k));
  }

  /** The producer can copy on, byte after byte. */
  lemma {:induction false} PutsOn(s: State, t: Task, k: nat) returns (acts: seq<Act>, s': State)
    requires Inv(s) && Put(s.prod, t, k) && Fits(t, s.n) && k <= |Encode(t)|
    ensures Run(s, acts, s') && Inv(s') && s' == s.(prod := s'.prod, ring := s'.ring) && |s'.ring| == |s.ring|
    ensures Put(s'.prod, t, |Encode(t)|)
    decreases |Encode(t)| - k
  {
    hide Inv, Step, Can, Encode, Put;
    if k == |Encode(t)| {
      acts, s' := [], s;
    } else {
      PutOne(s, t, k);
      var m := Step(s, PutByte(k));
      acts, s' := PutsOn(m, t, k + 1);
      RunJoin(s, [PutByte(k)], m, acts, s');
      acts := [PutByte(k)] + acts;
    }
  }

  /** Wherever the consumer is, a push with room for its task completes by the producer's own steps. */
  lemma PushCompletes(s: State, t: Task) returns (acts: seq<Act>, s': State)
    requires Inv(s) && s.prod.PIdle? && Fits(t, s.n)
    requires |s.ring| - |Records(Waiting(s), s.n)| > |Encode(t)|
    ensures Run(s, acts, s') && Inv(s')
    ensures s'.sent == s.sent + [t] && s'.popped == s.popped && s'.prod == PIdle && s'.cons == s.cons && s'.r == s.r
  {
    hide Inv, Run, Encode, Put, Fits, Records;
    var s2 := Accepted(s, t);
    var a, s3 := PutsOn(s2, t, 0);
    RunJoin(s, [Offer(t), Decide], s2, a, s3);
    s' := Handed(s3, t);
    RunJoin(s, [Offer(t), Decide] + a, s3, [Publish], s');
    acts := [Offer(t), Decide] + a + [Publish];
  }

  lemma Accepted(s: State, t: Task) returns (s': State)
    requires Inv(s) && s.prod.PIdle? && Fits(t, s.n)
    requires |s.ring| - |Records(Waiting(s), s.n)| > |Encode(t)|
    ensures Run(s, [Offer(t), Decide], s') && Inv(s') && s' == s.(prod := PCopy(t, {})) && Put(s'.prod, t, 0)
  {
    hide Fifo, ProducerOk, ConsumerOk, Run, Encode, Records;
    RunOne(s, Offer(t));
    var m := Step(s, Offer(t));
    StillWaiting(s, m);
    RunOne(m, Decide);
    RefusedExactly(m);
    s' := Step(m, Decide);
    RunJoin(s, [Offer(t)], m, [Decide], s');
    assert [Offer(t)] + [Decide] == [Offer(t), Decide];
  }

  lemma Handed(s: State, t: Task) returns (s': State)
    requires Inv(s) && Fits(t, s.n) && Put(s.prod, t, |Encode(t)|)
    ensures Run(s, [Publish], s') && Inv(s')
    ensures s'.sent == s.sent + [t] && s'.popped == s.popped && s'.prod == PIdle && s'.cons == s.cons && s'.r == s.r
  {
    hide Fifo, ProducerOk, ConsumerOk, Run, Encode;
    RunOne(s, Publish);
    s' := Step(s, Publish);
  }

  /** An interleaving that refuses a push into an empty ring: the producer compares the offsets
      while one task is waiting, and the consumer takes it before the second read. */
  lemma RefusedThoughEmpty(s: State) returns (acts: seq<Act>, s': State)
    requires Inv(s) && s.prod.PSaw? && !s.prod.empty && s.cons.CIdle? && |Waiting(s)| == 1
    ensures Inv(s') && Run(s, acts, s') && s'.popped == s'.sent && s'.prod == s.prod && Can(s', Decide)
    ensures Step(s', Decide).prod.PIdle? && s'.r == s'.w
  {
    acts, s' := PopCompletes(s, -1);
    AskInv(s', -1);
    Emptied(s');
    RefusedExactly(s');
  }

  lemma Emptied(s: State)
    requires Inv(s)
    ensures s.r == s.w <==> s.popped == s.sent
  {
    BufSizeIs(s.r, s.w, |s.ring|);
    if Waiting(s) != [] {
      Front(s);
    } else {
      assert |s.popped| == |s.sent|;
    }
  }
}
