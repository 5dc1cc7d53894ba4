/** The task queue of src/bridge/bridge_in/yf_bridge_task.c as one side sees it with nobody else
    at work: a bounded FIFO of tasks in a ring of bytes. */
module TaskQueue {
  import opened Bytes
  import opened TaskCodec

  datatype PopResult = Popped(task: Task) | Again | TooSmall

  /** Nothing changed in the cells from the `n`-th after `w` on, round to `w` itself. */
  ghost predicate KeptFrom(ring: seq<byte>, ring': seq<byte>, w: int, n: int) {
    && |ring'| == |ring| && 0 <= w < |ring| && 0 <= n
    && forall k {:trigger CellAt(w, k, |ring|)} :: n <= k < |ring| ==>
         ring'[CellAt(w, k, |ring|)] == ring[CellAt(w, k, |ring|)]
  }

  class TaskQueue {
    const infoLen: nat      // bytes of a task_info_t in the header
    const capacity: int
    const ring: array<byte>
    var readOffset: int
    var writeOffset: int
    ghost var queued: seq<Task>

    ghost predicate Shaped()
      reads this
    {
      ring.Length == capacity && 0 <= readOffset < capacity && 0 <= writeOffset < capacity
    }

    ghost predicate Valid()
      reads this, ring
    {
      && Shaped() && AllFit(queued, infoLen)
      && |Records(queued, infoLen)| == BufSize(readOffset, writeOffset, capacity)
      && RingHolds(ring[..], readOffset, Records(queued, infoLen))
    }

    /** yf_init_task_queue, for a buffer larger than the queue's own header. */
    constructor (size: int, n: nat)
      requires size > 0
      ensures Valid() && fresh(ring) && queued == [] && capacity == size && infoLen == n
    {
      capacity, infoLen, readOffset, writeOffset, queued := size, n, 0, 0, [];
      ring := new byte[size](_ => 0);
      new;
      BufSizeIs(0, 0, size);
    }

    /** yf_tq_buf_add: at most two copies, the second from the start of the ring. */
    method BufAdd(off: int, d: seq<byte>) returns (off': int)
      requires Shaped() && 0 <= off < capacity && |d| <= capacity
      modifies ring
      ensures off' == CellAt(off, |d|, capacity) && 0 <= off' < capacity && RingHolds(ring[..], off, d)
      ensures KeptFrom(old(ring[..]), ring[..], off, |d|)
    {
      var tailCap := capacity - off;
      var restLen := |d| - tailCap;
      var first := if restLen > 0 then tailCap else |d|;
      forall i | 0 <= i < first {
        ring[off + i] := d[i];
      }
      if restLen < 0 {
        off' := off + |d|;
      } else if restLen == 0 {
        off' := 0;
      } else {
        forall i | 0 <= i < restLen {
          ring[i] := d[tailCap + i];
        }
        off' := restLen;
      }
    }

    /** yf_tq_buf_get */
    method BufGet(off: int, len: int) returns (ok: bool, off': int, d: seq<byte>)
      requires Shaped() && 0 <= off < capacity && 0 <= len
      ensures ok <==> len <= BufSize(off, writeOffset, capacity)
      ensures ok ==> |d| == len <= capacity && off' == CellAt(off, len, capacity) && RingHolds(ring[..], off, d)
    {
      BufSizeIs(off, writeOffset, capacity);
      var bufSize := BufSize(off, writeOffset, capacity);
      if bufSize < len {
        return false, off, [];
      }
      var tailCap := capacity - off;
      var restLen := len - tailCap;
      d := ring[off..off + if restLen > 0 then tailCap else len];
      if restLen < 0 {
        off' := off + len;
      } else if restLen == 0 {
        off' := 0;
      } else {
        d := d + ring[..restLen];
        off' := restLen;
      }
      ok := true;
    }

    /** yf_task_push: the task is queued exactly when strictly more bytes are free than it takes. */
    method Push(t: Task) returns (ok: bool)
      requires Valid() && Fits(t, infoLen)
      modifies this`writeOffset, this`queued, ring
      ensures Valid()
      ensures ok <==> capacity - |Records(old(queued), infoLen)| > |Encode(t)|
      ensures queued == if ok then old(queued) + [t] else old(queued)
      ensures !ok ==> ring[..] == old(ring[..]) && writeOffset == old(writeOffset)
    {
      hide Encode, EncodeHead, RingHolds, KeptFrom, CellAt, BufSize, Records;
      BufSizeIs(readOffset, writeOffset, capacity);
      var freeCap := FreeCapacity(readOffset, readOffset, writeOffset, capacity);
      var h := EncodeHead(t);
      if freeCap <= |t.payload| + |h| {
        return false;
      }
      ghost var u, ring0 := Records(queued, infoLen), ring[..];
      var off := BufAdd(writeOffset, h);
      KeptBefore(ring0, ring[..], readOffset, u, writeOffset, h);
      HoldsPart(ring[..], readOffset, u, h);
      if |t.payload| > 0 {
        ghost var ring1, off1 := ring[..], off;
        CellAfter(readOffset, |u|, |h|, capacity);
        off := BufAdd(off, t.payload);
        KeptBefore(ring1, ring[..], readOffset, u + h, off1, t.payload);
        HoldsPart(ring[..], readOffset, u + h, t.payload);
      }
      Pushed(readOffset, writeOffset, off, u, t, capacity);
      RecordsAppend(queued, t, infoLen);
      queued := queued + [t];
      writeOffset := off;
      ok := true;
    }

    /** yf_task_pop. `room` is the caller's buffer size, negative for a caller that does not say.
        A buffer that is too small leaves the task where it is. */
    method Pop(room: int) returns (res: PopResult)
      requires Valid()
      modifies this`readOffset, this`queued
      ensures Valid()
      ensures res == if old(queued) == [] then Again
                     else if 0 <= room < |old(queued)[0].payload| then TooSmall else Popped(old(queued)[0])
      ensures queued == if res.Popped? then old(queued)[1..] else old(queued)
      ensures !res.Popped? ==> readOffset == old(readOffset)
    {
      hide EncodeHead, RingHolds, CellAt, BufSize, Records, LenOf, MagicOf, TimeOf, Fits;
      BufSizeIs(readOffset, writeOffset, capacity);
      RecordsEmpty(queued, infoLen);
      var ok, off, h := BufGet(readOffset, HeadLen(infoLen));
      if !ok {
        return Again;
      }
      FrontRecord(ring[..], readOffset, writeOffset, queued, infoLen, h);
      assert MagicOf(h) == MAGIC;
      var len := LenOf(h);
      if 0 <= room < len {
        return TooSmall;
      }
      var payload := [];
      if len > 0 {
        ghost var off1 := off;
        ok, off, payload := BufGet(off, len);
        FrontPayload(ring[..], off1, queued[0], infoLen, payload);
      }
      res := Popped(Decode(h, payload));
      readOffset := off;
      queued := queued[1..];
    }
  }

  /** Copying behind `u` does not touch it. */
  lemma KeptBefore(ring: seq<byte>, ring': seq<byte>, r: int, u: seq<byte>, w: int, d: seq<byte>)
    requires RingHolds(ring, r, u) && |ring'| == |ring| && |u| + |d| < |ring| && w == CellAt(r, |u|, |ring|)
    requires KeptFrom(ring, ring', w, |d|)
    ensures RingHolds(ring', r, u)
  {
    forall j | 0 <= j < |u|
      ensures ring'[CellAt(r, j, |ring|)] == u[j]
    {
      assert CellAt(w, |ring| - |u| + j, |ring|) == CellAt(r, j, |ring|);
    }
  }

  lemma CellAfter(r: int, a: int, b: int, cap: int)
    requires 0 <= r < cap && 0 <= a && 0 <= b && a + b <= cap
    ensures CellAt(CellAt(r, a, cap), b, cap) == CellAt(r, a + b, cap)
  {
  }

  lemma Pushed(r: int, w: int, w': int, u: seq<byte>, t: Task, cap: int)
    requires 0 <= t.time < U32 && |t.payload| < U32 && 0 <= r < cap && 0 <= w < cap
    requires |u| == BufSize(r, w, cap) && |u| + |Encode(t)| < cap
    requires var p := CellAt(w, |EncodeHead(t)|, cap);
      w' == if t.payload == [] then p else CellAt(p, |t.payload|, cap)
    ensures 0 <= w' < cap && BufSize(r, w', cap) == |u + Encode(t)|
    ensures u + EncodeHead(t) + t.payload == u + Encode(t) && (t.payload == [] ==> u + EncodeHead(t) == u + Encode(t))
  {
    hide EncodeHead;
    BufSizeIs(r, w, cap);
    BufSizeIs(r, w', cap);
  }

  /** The header read at the front, when a queue is not empty. */
  lemma FrontRecord(ring: seq<byte>, r: int, w: int, q: seq<Task>, n: nat, h: seq<byte>)
    requires AllFit(q, n) && q != [] && 0 <= r < |ring| && 0 <= w < |ring|
    requires |Records(q, n)| == BufSize(r, w, |ring|) && RingHolds(ring, r, Records(q, n))
    requires |h| == HeadLen(n) && RingHolds(ring, r, h)
    ensures h == EncodeHead(q[0]) && MagicOf(h) == MAGIC && LenOf(h) == |q[0].payload|
    ensures AllFit(q[1..], n) && |q[0].payload| < U32
    ensures 0 <= CellAt(r, |h|, |ring|) < |ring| && RingHolds(ring, CellAt(r, |h|, |ring|), q[0].payload)
    ensures |q[0].payload| <= BufSize(CellAt(r, |h|, |ring|), w, |ring|)
    ensures 0 <= CellAt(r, |Encode(q[0])|, |ring|) < |ring|
    ensures RingHolds(ring, CellAt(r, |Encode(q[0])|, |ring|), Records(q[1..], n))
    ensures |Records(q[1..], n)| == BufSize(CellAt(r, |Encode(q[0])|, |ring|), w, |ring|)
    ensures forall payload :: Decode(h, payload) == q[0].(payload := payload)
    ensures CellAt(CellAt(r, |h|, |ring|), |q[0].payload|, |ring|) == CellAt(r, |Encode(q[0])|, |ring|)
  {
    hide LenOf, MagicOf, TimeOf, RingHolds, BufSize, EncodeHead, Get32, Decode;
    var t, e, rest := q[0], Encode(q[0]), Records(q[1..], n);
    DecodeEncode(t);
    BufSizeIs(r, w, |ring|);
    BufSizeIs(CellAt(r, |h|, |ring|), w, |ring|);
    BufSizeIs(CellAt(r, |e|, |ring|), w, |ring|);
    HoldsPart(ring, r, e, rest);
    HoldsPart(ring, r, EncodeHead(t), t.payload);
    SameBytes(ring, r, h, EncodeHead(t));
    DecodesTo(h, t);
  }

  lemma DecodesTo(h: seq<byte>, t: Task)
    requires 0 <= t.time < U32 && |t.payload| < U32 && h == EncodeHead(t)
    ensures forall payload :: Decode(h, payload) == t.(payload := payload)
  {
    DecodeEncode(t);
  }

  lemma SameBytes(ring: seq<byte>, r: int, d: seq<byte>, e: seq<byte>)
    requires RingHolds(ring, r, d) && RingHolds(ring, r, e) && |d| == |e|
    ensures d == e
  {
    assert forall k :: 0 <= k < |d| ==> ring[CellAt(r, k, |ring|)] == d[k] && ring[CellAt(r, k, |ring|)] == e[k];
  }

  lemma FrontPayload(ring: seq<byte>, p: int, t: Task, n: nat, payload: seq<byte>)
    requires RingHolds(ring, p, t.payload) && RingHolds(ring, p, payload) && |payload| == |t.payload|
    ensures payload == t.payload
  {
    SameBytes(ring, p, payload, t.payload);
  }
}
