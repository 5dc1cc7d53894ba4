/** The index arithmetic of src/base_struct/yf_circular_buf.h: places in a rotating table of
    equal chunks, and how far apart they are. */
module ChunkIndex {
  import opened Arith

  const MAX_CHUNKS := 256

  /** A place in the table. One byte position may have two spellings, (i, size) and (i + 1, 0). */
  datatype Spot = Spot(i: int, o: int)

  /** Bytes in `k` chunks of size `b`. */
  function Span(b: int, k: int): int { k * b }

  /** yf_cb_diff, with `>` for `strict` and `>=` otherwise */
  function Diff(m: int, n: int, cap: int, strict: bool): int {
    if (if strict then m > n else m >= n) then m - n else m + cap - n
  }

  function CbAdd(i: int, n: int, cap: int): int { i + if n < cap - i then n else n - cap }
  function CbSub(i: int, n: int, cap: int): int { i - if n > i then n - cap else n }
  function Increase(i: int, cap: int): int { if i == cap - 1 then 0 else i + 1 }

  /** yf_cb_rest_mod: bytes used in the last of the chunks that `x` bytes take. */
  function RestMod(x: int, b: int): int
    requires b > 0
  {
    if x % b == 0 then b else x % b
  }

  /** yf_circular_buf_bsize: how many chunks `x` bytes take. */
  function BSize(x: int, b: int): int
    requires b > 0
  {
    (x + b - 1) / b
  }

  /** __yf_circular_index_offset */
  function IndexOffset(a: Spot, z: Spot, n: int, b: int, strict: bool): int {
    Span(b, Diff(a.i, z.i, n, strict)) + a.o - z.o
  }

  /** __yf_circular_buf_advance_front */
  function AdvanceFront(p: Spot, diff: int, n: int, b: int): Spot
    requires b > 0
  {
    var w := b - p.o;
    if diff <= w then Spot(p.i, p.o + diff)
    else Spot(CbAdd(p.i, BSize(diff - w, b), n), RestMod(diff - w, b))
  }

  /** __yf_circular_buf_advance_back */
  function AdvanceBack(p: Spot, diff: int, n: int, b: int): Spot
    requires b > 0
  {
    var o := p.o - diff;
    if o >= 0 then Spot(p.i, o)
    else Spot(CbSub(p.i, BSize(-o, b), n), b - RestMod(-o, b))
  }

  /** The chunk boundary counts as the start of the next chunk (_yf_cb_preprocess_cursor). */
  function Normal(p: Spot, n: int, b: int): Spot {
    if p.o == b then Spot(Increase(p.i, n), 0) else p
  }

  // ----- distances from the head chunk -----

  /** Chunk `i`, counted from the head chunk. */
  function Rel(i: int, h: int, n: int): int { if i >= h then i - h else i + n - h }

  /** Bytes from the start of the head chunk. */
  function Lin(p: Spot, h: int, n: int, b: int): int { Span(b, Rel(p.i, h, n)) + p.o }

  ghost predicate SpotOk(p: Spot, n: int, b: int) { 0 <= p.i < n && 0 <= p.o <= b }

  lemma SpanStep(b: int, x: int, y: int)
    ensures Span(b, x + y) == Span(b, x) + Span(b, y)
    ensures Span(b, 0) == 0 && Span(b, 1) == b
  {
  }

  lemma SpanOrder(b: int, x: int, y: int)
    requires b > 0
    ensures x < y ==> Span(b, x) + b <= Span(b, y)
    ensures x <= y <==> Span(b, x) <= Span(b, y)
  {
    SpanStep(b, x, y - x);
    if x < y {
      SpanStep(b, 1, y - x - 1);
      assert Span(b, y - x - 1) >= 0;
    } else {
      assert Span(b, y - x) <= 0;
      if y < x {
        SpanStep(b, 1, x - y - 1);
        SpanStep(b, y, x - y);
        assert Span(b, x - y - 1) >= 0;
      }
    }
  }

  /** BSize and RestMod describe the same bytes: full chunks, then a last one that is not empty. */
  lemma RestSplit(x: int, b: int)
    requires x > 0 && b > 0
    ensures x == Span(b, BSize(x, b) - 1) + RestMod(x, b)
    ensures 1 <= RestMod(x, b) <= b && BSize(x, b) >= 1
  {
    var q, r := x / b, x % b;
    assert x == q * b + r;
    if r == 0 {
      assert x + b - 1 == q * b + (b - 1);
      DivIs(x + b - 1, b, q, b - 1);
      assert q >= 1;
      assert (q - 1) * b + b == q * b;
    } else {
      assert x + b - 1 == (q + 1) * b + (r - 1);
      DivIs(x + b - 1, b, q + 1, r - 1);
      assert q >= 0;
    }
  }

  /** Of two places in order of bytes, the chunks are in order too unless the spellings differ. */
  lemma ChunkOrder(p: Spot, q: Spot, h: int, n: int, b: int)
    requires b > 0 && SpotOk(p, n, b) && SpotOk(q, n, b) && 0 <= h < n
    requires Lin(p, h, n, b) <= Lin(q, h, n, b) && (p.o > 0 || q.o < b || p.i == h)
    ensures Rel(p.i, h, n) <= Rel(q.i, h, n)
  {
    hide Span;
    SpanOrder(b, Rel(q.i, h, n), Rel(p.i, h, n));
  }

  lemma LinRange(p: Spot, h: int, n: int, b: int)
    requires b > 0 && SpotOk(p, n, b) && 0 <= h < n
    ensures 0 <= Rel(p.i, h, n) < n
    ensures 0 <= Lin(p, h, n, b) <= Span(b, n)
    ensures Lin(p, h, n, b) + b - p.o <= Span(b, n)
    ensures Lin(p, h, n, b) == Span(b, n) ==> p.o == b && Rel(p.i, h, n) == n - 1
  {
    hide Span;
    SpanOrder(b, Rel(p.i, h, n), n);
    SpanOrder(b, 0, Rel(p.i, h, n));
    SpanStep(b, 0, 0);
    if Rel(p.i, h, n) < n - 1 {
      SpanOrder(b, Rel(p.i, h, n) + 1, n);
      SpanStep(b, Rel(p.i, h, n), 1);
    }
  }

  /** Moving forward by `diff` bytes, as long as that many follow in the table. */
  lemma FrontMoves(p: Spot, diff: int, h: int, n: int, b: int)
    requires b > 0 && SpotOk(p, n, b) && 0 <= h < n && diff >= 0 && Lin(p, h, n, b) + diff <= Span(b, n)
    ensures var p' := AdvanceFront(p, diff, n, b);
      && SpotOk(p', n, b) && Lin(p', h, n, b) == Lin(p, h, n, b) + diff
      && Rel(p'.i, h, n) >= Rel(p.i, h, n) && (diff > 0 ==> p'.o > 0) && (diff == 0 ==> p' == p)
      && (diff <= b - p.o <==> p'.i == p.i)
  {
    hide Span, BSize, RestMod;
    var w, r := b - p.o, Rel(p.i, h, n);
    if diff > w {
      var k := BSize(diff - w, b);
      RestSplit(diff - w, b);
      SpanStep(b, r, k);
      SpanStep(b, k - 1, 1);
      SpanOrder(b, n, r + k);
    }
  }

  /** Moving back by `diff` bytes, at most to the start of the head chunk. */
  lemma BackMoves(p: Spot, diff: int, h: int, n: int, b: int)
    requires b > 0 && SpotOk(p, n, b) && 0 <= h < n && 0 < diff <= Lin(p, h, n, b)
    ensures var p' := AdvanceBack(p, diff, n, b);
      SpotOk(p', n, b) && Lin(p', h, n, b) == Lin(p, h, n, b) - diff && p'.o < b
  {
    hide Span, BSize, RestMod;
    var o, r := p.o - diff, Rel(p.i, h, n);
    if o < 0 {
      var k := BSize(-o, b);
      RestSplit(-o, b);
      SpanStep(b, r - k, k);
      SpanStep(b, k - 1, 1);
      SpanStep(b, 0, 0);
      SpanOrder(b, r + 1, k);
      SpanStep(b, r, 1);
      SpanOrder(b, 0, r - k);
    }
  }

  /** The size macros, in terms of distances from the head chunk. */
  lemma Distances(a: Spot, z: Spot, h: int, n: int, b: int)
    requires SpotOk(a, n, b) && SpotOk(z, n, b) && 0 <= h < n
    ensures Rel(z.i, h, n) <= Rel(a.i, h, n) ==>
      IndexOffset(a, z, n, b, false) == Lin(a, h, n, b) - Lin(z, h, n, b)
    ensures IndexOffset(Spot(h, 0), z, n, b, true) == Span(b, n) - Lin(z, h, n, b)
  {
    hide Span;
    SpanStep(b, Rel(z.i, h, n), Rel(a.i, h, n) - Rel(z.i, h, n));
    SpanStep(b, Rel(z.i, h, n), n - Rel(z.i, h, n));
  }

  /** Distances seen from another head chunk. */
  lemma Rehead(p: Spot, h: int, h': int, n: int, b: int)
    requires SpotOk(p, n, b) && 0 <= h < n && 0 <= h' < n
    ensures var k := Rel(h', h, n);
      Lin(p, h', n, b) == if Rel(p.i, h, n) >= k then Lin(p, h, n, b) - Span(b, k)
                          else Lin(p, h, n, b) - Span(b, k) + Span(b, n)
    ensures var k := Rel(h', h, n);
      Rel(p.i, h', n) == if Rel(p.i, h, n) >= k then Rel(p.i, h, n) - k else Rel(p.i, h, n) - k + n
  {
    hide Span;
    var k, r := Rel(h', h, n), Rel(p.i, h, n);
    SpanStep(b, k, r - k);
    SpanStep(b, r - k, n);
  }

  /** Respelling a place that bytes follow does not move it. */
  lemma NormalSame(p: Spot, h: int, n: int, b: int)
    requires b > 0 && SpotOk(p, n, b) && 0 <= h < n && Lin(p, h, n, b) < Span(b, n)
    ensures SpotOk(Normal(p, n, b), n, b) && Lin(Normal(p, n, b), h, n, b) == Lin(p, h, n, b)
    ensures Normal(p, n, b).o < b
  {
    hide Span;
    LinRange(p, h, n, b);
    SpanStep(b, Rel(p.i, h, n), 1);
    SpanOrder(b, n, Rel(p.i, h, n) + 1);
  }

  /** Respelling the very end of the table wraps to the start of the head chunk. */
  lemma NormalWraps(p: Spot, h: int, n: int, b: int)
    requires b > 0 && SpotOk(p, n, b) && 0 <= h < n && Lin(p, h, n, b) == Span(b, n)
    ensures Normal(p, n, b) == Spot(h, 0)
  {
    LinRange(p, h, n, b);
  }
}
