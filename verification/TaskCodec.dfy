/** The record a task takes in the ring of src/bridge/bridge_in/yf_bridge_task.c: a header with
    magic, payload length, time and task info, then the payload. */
module TaskCodec {
  import opened Arith
  import opened Bytes

  const MAGIC := 0x5897A7CB
  const U32 := 0x1_0000_0000

  /** `info` is the task_info_t as bytes, padding of the header included. */
  datatype Task = Task(time: int, info: seq<byte>, payload: seq<byte>)

  /** A task as a queue with `n` bytes of task info takes it; its length fits the header field. */
  ghost predicate Fits(t: Task, n: nat) {
    |t.info| == n && 0 <= t.time < U32 && |t.payload| < U32
  }

  function HeadLen(n: nat): nat { 12 + n }

  /** A 32-bit field, low byte first. */
  function Put32(x: int): (r: seq<byte>)
    requires 0 <= x < U32
    ensures |r| == 4
  {
    [(x % 256) as byte, (x / 256 % 256) as byte, (x / 65536 % 256) as byte, (x / 16777216) as byte]
  }

  function Get32(s: seq<byte>): (r: int)
    requires |s| == 4
    ensures 0 <= r < U32
  {
    s[0] as int + 256 * (s[1] as int) + 65536 * (s[2] as int) + 16777216 * (s[3] as int)
  }

  lemma Get32Put32(x: int)
    requires 0 <= x < U32
    ensures Get32(Put32(x)) == x
  {
    var a, b, c := x / 256, x / 65536, x / 16777216;
    assert x == 256 * a + x % 256 && a == 256 * (a / 256) + a % 256 && b == 256 * (b / 256) + b % 256;
    assert a / 256 == b && b / 256 == c;
  }

  function EncodeHead(t: Task): (r: seq<byte>)
    requires 0 <= t.time < U32 && |t.payload| < U32
    ensures |r| == HeadLen(|t.info|)
  {
    Put32(MAGIC) + Put32(|t.payload|) + Put32(t.time) + t.info
  }

  function Encode(t: Task): (r: seq<byte>)
    requires 0 <= t.time < U32 && |t.payload| < U32
    ensures |r| == HeadLen(|t.info|) + |t.payload|
  {
    EncodeHead(t) + t.payload
  }

  function MagicOf(h: seq<byte>): int requires |h| >= 12 { Get32(h[..4]) }
  function LenOf(h: seq<byte>): int requires |h| >= 12 { Get32(h[4..8]) }
  function TimeOf(h: seq<byte>): int requires |h| >= 12 { Get32(h[8..12]) }

  /** What a pop makes of a header and the bytes after it. */
  function Decode(h: seq<byte>, payload: seq<byte>): Task
    requires |h| >= 12
  {
    Task(TimeOf(h), h[12..], payload)
  }

  /** Decoding what was encoded gives the task back, and the header tells its length. */
  lemma DecodeEncode(t: Task)
    requires 0 <= t.time < U32 && |t.payload| < U32
    ensures MagicOf(EncodeHead(t)) == MAGIC && LenOf(EncodeHead(t)) == |t.payload|
    ensures Decode(EncodeHead(t), t.payload) == t
    ensures Encode(t)[..HeadLen(|t.info|)] == EncodeHead(t) && Encode(t)[HeadLen(|t.info|)..] == t.payload
  {
    hide Get32, Put32;
    Get32Put32(MAGIC);
    Get32Put32(|t.payload|);
    Get32Put32(t.time);
    var h := EncodeHead(t);
    assert h[..4] == Put32(MAGIC) && h[4..8] == Put32(|t.payload|) && h[8..12] == Put32(t.time) && h[12..] == t.info;
  }

  ghost predicate AllFit(q: seq<Task>, n: nat) { forall i :: 0 <= i < |q| ==> Fits(q[i], n) }

  /** The records of a queue of tasks, one after the other. */
  ghost function Records(q: seq<Task>, n: nat): seq<byte>
    requires AllFit(q, n)
  {
    if q == [] then [] else Encode(q[0]) + Records(q[1..], n)
  }

  lemma {:induction false} RecordsAppend(q: seq<Task>, t: Task, n: nat)
    requires AllFit(q, n) && Fits(t, n)
    ensures AllFit(q + [t], n) && Records(q + [t], n) == Records(q, n) + Encode(t)
  {
    if q == [] {
      assert q + [t] == [t];
      assert Records([t][1..], n) == [];
    } else {
      RecordsAppend(q[1..], t, n);
      assert (q + [t])[1..] == q[1..] + [t];
    }
  }

  lemma RecordsEmpty(q: seq<Task>, n: nat)
    requires AllFit(q, n)
    ensures Records(q, n) == [] <==> q == []
    ensures q != [] ==> |Records(q, n)| >= |Encode(q[0])| >= HeadLen(n)
  {
  }

  // ----- ring cells -----

  /** The cell `k` places after `off`. */
  function CellAt(off: int, k: int, cap: int): int { if off + k < cap then off + k else off + k - cap }

  /** The ring holds `d` from `off` on. */
  ghost predicate RingHolds(ring: seq<byte>, off: int, d: seq<byte>) {
    0 <= off < |ring| && |d| <= |ring| && forall k :: 0 <= k < |d| ==> ring[CellAt(off, k, |ring|)] == d[k]
  }

  /** Bytes from `r` up to `w`. */
  function BufSize(r: int, w: int, cap: int): int
    requires cap > 0
  {
    (w + cap - r) % cap
  }

  /** yf_tq_free_capacity, when `r1` and `r2` are what its two reads of read_offset give. */
  function FreeCapacity(r1: int, r2: int, w: int, cap: int): int
    requires cap > 0
  {
    if r1 == w then cap else (r2 + cap - w) % cap
  }

  lemma BufSizeIs(r: int, w: int, cap: int)
    requires 0 <= r < cap && 0 <= w < cap
    ensures BufSize(r, w, cap) == if w >= r then w - r else w + cap - r
    ensures FreeCapacity(r, r, w, cap) == cap - BufSize(r, w, cap)
    ensures CellAt(r, BufSize(r, w, cap), cap) == w
  {
    ModTwice(w + cap - r, cap);
    ModTwice(r + cap - w, cap);
  }

  lemma ModTwice(x: int, cap: int)
    requires 0 < cap && 0 <= x < 2 * cap
    ensures x % cap == if x < cap then x else x - cap
  {
    if x < cap {
      DivIs(x, cap, 0, x);
    } else {
      DivIs(x, cap, 1, x - cap);
    }
  }

  lemma HoldsPart(ring: seq<byte>, off: int, d: seq<byte>, e: seq<byte>)
    requires |d| < |ring| && |d + e| <= |ring|
    ensures RingHolds(ring, off, d + e) <==> RingHolds(ring, off, d) && RingHolds(ring, CellAt(off, |d|, |ring|), e)
  {
    var cap := |ring|;
    if 0 <= off < cap {
      assert forall k :: 0 <= k < |e| ==> CellAt(CellAt(off, |d|, cap), k, cap) == CellAt(off, |d| + k, cap);
      if RingHolds(ring, off, d + e) {
        assert forall k :: 0 <= k < |d| ==> (d + e)[k] == d[k];
        assert forall k :: 0 <= k < |e| ==> ring[CellAt(off, |d| + k, cap)] == (d + e)[|d| + k] == e[k];
      }
      if RingHolds(ring, off, d) && RingHolds(ring, CellAt(off, |d|, cap), e) {
        forall k | 0 <= k < |d + e|
          ensures ring[CellAt(off, k, cap)] == (d + e)[k]
        {
          if k >= |d| {
            assert ring[CellAt(CellAt(off, |d|, cap), k - |d|, cap)] == e[k - |d|];
          }
        }
      }
    }
  }
}
