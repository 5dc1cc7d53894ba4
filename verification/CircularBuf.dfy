/** The chunked circular buffer of src/base_struct/yf_circular_buf.c behaves as a plain file. */
module CircularBuf {
  import opened Bytes
  import opened Seqs
  import opened Arith
  import opened ChunkIndex
  import opened ChunkStore
  import opened FileModel

  /** The chunks and the two ends of the file in them. */
  ghost predicate DataOk(buf: Chunks, head: Spot, tail: Spot, b: int) {
    && b > 0 && |buf| <= MAX_CHUNKS && Sized(buf, b)
    && (buf == [] ==> head == tail == Spot(0, 0))
    && (buf != [] ==> SpotOk(head, |buf|, b) && SpotOk(tail, |buf|, b)
                      && head.o <= Lin(tail, head.i, |buf|, b))
  }

  /** The cursor is between the ends, by chunks counted from the head as well as by bytes. */
  ghost predicate CursorOk(n: int, head: Spot, tail: Spot, cursor: Spot, b: int) {
    && (n == 0 ==> cursor == Spot(0, 0))
    && (n > 0 ==> SpotOk(cursor, n, b) && Rel(cursor.i, head.i, n) <= Rel(tail.i, head.i, n)
                  && head.o <= Lin(cursor, head.i, n, b) <= Lin(tail, head.i, n, b))
  }

  ghost function Content(buf: Chunks, head: Spot, tail: Spot, b: int): (r: seq<byte>)
    requires DataOk(buf, head, tail, b)
    ensures |r| == Lin(tail, head.i, |buf|, b) - head.o
  {
    Bounds(buf, head, tail, b);
    Store(buf, head.i)[head.o..Lin(tail, head.i, |buf|, b)]
  }

  ghost function PosOf(n: int, head: Spot, cursor: Spot, b: int): int { Lin(cursor, head.i, n, b) - head.o }

  lemma Bounds(buf: Chunks, head: Spot, tail: Spot, b: int)
    requires DataOk(buf, head, tail, b)
    ensures 0 <= head.i <= |buf| && 0 <= head.o <= Lin(tail, head.i, |buf|, b) <= |Store(buf, head.i)|
    ensures |Store(buf, head.i)| == Span(b, |buf|)
  {
    StoreLen(buf, head.i, b);
    if buf == [] {
      SpanStep(b, 0, 0);
    } else {
      LinRange(tail, head.i, |buf|, b);
    }
  }

  /** What the size macros compute in a valid state. */
  lemma Sizes(buf: Chunks, head: Spot, tail: Spot, cursor: Spot, b: int)
    requires DataOk(buf, head, tail, b) && CursorOk(|buf|, head, tail, cursor, b)
    ensures b > 0
    ensures IndexOffset(tail, cursor, |buf|, b, false) == |Content(buf, head, tail, b)| - PosOf(|buf|, head, cursor, b)
    ensures IndexOffset(tail, head, |buf|, b, false) == |Content(buf, head, tail, b)|
    ensures IndexOffset(cursor, head, |buf|, b, false) == PosOf(|buf|, head, cursor, b)
    ensures IndexOffset(Spot(head.i, 0), cursor, |buf|, b, true) == Span(b, |buf|) - Lin(cursor, head.i, |buf|, b)
    ensures IndexOffset(Spot(head.i, 0), tail, |buf|, b, true) == Span(b, |buf|) - Lin(tail, head.i, |buf|, b)
    ensures 0 <= PosOf(|buf|, head, cursor, b) <= |Content(buf, head, tail, b)|
    ensures 0 <= Lin(cursor, head.i, |buf|, b) <= Lin(tail, head.i, |buf|, b) <= Span(b, |buf|)
  {
    hide Span;
    Bounds(buf, head, tail, b);
    SpanStep(b, 0, 0);
    if buf != [] {
      LinRange(head, head.i, |buf|, b);
      LinRange(cursor, head.i, |buf|, b);
      Distances(tail, cursor, head.i, |buf|, b);
      Distances(tail, head, head.i, |buf|, b);
      Distances(cursor, head, head.i, |buf|, b);
      Distances(tail, tail, head.i, |buf|, b);
    }
  }

  /** Any place between the ends that is not respelled backwards can be the cursor. */
  lemma CursorAt(n: int, head: Spot, tail: Spot, p: Spot, b: int)
    requires b > 0 && n > 0 && SpotOk(head, n, b) && SpotOk(tail, n, b) && SpotOk(p, n, b)
    requires head.o <= Lin(p, head.i, n, b) <= Lin(tail, head.i, n, b)
    requires p.o > 0 || tail.o < b || p.i == head.i
    ensures CursorOk(n, head, tail, p, b)
  {
    hide Span;
    ChunkOrder(p, tail, head.i, n, b);
  }

  lemma EndsOk(buf: Chunks, head: Spot, tail: Spot, b: int)
    requires DataOk(buf, head, tail, b)
    ensures CursorOk(|buf|, head, tail, head, b) && CursorOk(|buf|, head, tail, tail, b)
    ensures PosOf(|buf|, head, head, b) == 0 && PosOf(|buf|, head, tail, b) == |Content(buf, head, tail, b)|
  {
    hide Span;
    SpanStep(b, 0, 0);
    if buf != [] {
      LinRange(tail, head.i, |buf|, b);
    }
  }

  lemma TakeSlice(f: seq<byte>, lo: int, hi: int, p: int, k: int)
    requires 0 <= lo <= p && 0 <= k && p + k <= hi <= |f|
    ensures f[lo..hi][p - lo..p - lo + k] == f[p..p + k]
  {
    var g := f[lo..hi];
    assert forall j :: p <= j < p + k ==> g[j - lo] == f[j];
  }

  lemma PutSlice(f: seq<byte>, lo: int, hi: int, p: int, d: seq<byte>, hi': int)
    requires 0 <= lo <= p <= hi <= |f| && p + |d| <= |f| && hi' == if p + |d| <= hi then hi else p + |d|
    ensures Put(f, p, d)[lo..hi']
         == f[lo..hi][..p - lo] + d + (if p - lo + |d| <= hi - lo then f[lo..hi][p - lo + |d|..] else [])
  {
    var g, x := f[lo..hi], Put(f, p, d);
    PutParts(f, p, d, lo, hi');
    assert x[lo..p] == f[lo..p] == g[..p - lo];
    if p + |d| <= hi {
      assert f[p + |d|..hi] == g[p - lo + |d|..];
    }
  }

  lemma PutParts(f: seq<byte>, p: int, d: seq<byte>, lo: int, hi: int)
    requires 0 <= lo <= p && p + |d| <= hi <= |f|
    ensures Put(f, p, d)[lo..p] == f[lo..p] && Put(f, p, d)[p..p + |d|] == d
    ensures Put(f, p, d)[p + |d|..hi] == f[p + |d|..hi]
    ensures Put(f, p, d)[lo..hi] == f[lo..p] + d + f[p + |d|..hi]
  {
    var x := Put(f, p, d);
    assert forall j :: lo <= j < p ==> x[j] == f[j];
    assert forall j :: p <= j < p + |d| ==> x[j] == d[j - p];
    assert forall j :: p + |d| <= j < hi ==> x[j] == f[j];
    assert x[lo..hi] == x[lo..p] + x[p..p + |d|] + x[p + |d|..hi];
  }

  /** Moving the head forward drops that many bytes. */
  lemma HeadMoved(buf: Chunks, head: Spot, tail: Spot, head': Spot, b: int)
    requires DataOk(buf, head, tail, b) && buf != [] && SpotOk(head', |buf|, b)
    requires Rel(head'.i, head.i, |buf|) <= Rel(tail.i, head.i, |buf|)
    requires head.o <= Lin(head', head.i, |buf|, b) <= Lin(tail, head.i, |buf|, b)
    ensures DataOk(buf, head', tail, b)
    ensures Content(buf, head', tail, b)
         == Content(buf, head, tail, b)[Lin(head', head.i, |buf|, b) - head.o..]
  {
    hide Span, Rot, Flat;
    Rehead(tail, head.i, head'.i, |buf|, b);
    Turned(buf, head.i, head'.i, b);
    Bounds(buf, head, tail, b);
    ghost var k := Span(b, Rel(head'.i, head.i, |buf|));
    TurnSlice(Store(buf, head.i), k, head'.o, Lin(tail, head.i, |buf|, b), head.o);
  }

  lemma TurnSlice(f: seq<byte>, k: int, o: int, hi: int, lo: int)
    requires 0 <= k <= |f| && 0 <= o && 0 <= lo <= k + o <= hi <= |f|
    ensures (f[k..] + f[..k])[o..hi - k] == f[lo..hi][k + o - lo..]
  {
  }

  /** Where there are bytes to read there are chunks, and the cursor is not at the table's end. */
  lemma NotEmpty(buf: Chunks, head: Spot, tail: Spot, cursor: Spot, b: int)
    requires DataOk(buf, head, tail, b) && CursorOk(|buf|, head, tail, cursor, b)
    requires PosOf(|buf|, head, cursor, b) < |Content(buf, head, tail, b)|
    ensures buf != [] && SpotOk(cursor, |buf|, b) && SpotOk(head, |buf|, b) && SpotOk(tail, |buf|, b)
    ensures head.o <= Lin(cursor, head.i, |buf|, b) < Lin(tail, head.i, |buf|, b) <= Span(b, |buf|)
  {
    hide Span;
    Sizes(buf, head, tail, cursor, b);
  }

  lemma ReadSlice(buf: Chunks, head: Spot, tail: Spot, cursor: Spot, k: int, b: int)
    requires DataOk(buf, head, tail, b) && CursorOk(|buf|, head, tail, cursor, b) && 0 <= k
    requires PosOf(|buf|, head, cursor, b) + k <= |Content(buf, head, tail, b)|
    ensures var p, l := PosOf(|buf|, head, cursor, b), Lin(cursor, head.i, |buf|, b);
      0 <= p && 0 <= l && l + k <= |Store(buf, head.i)|
      && Content(buf, head, tail, b)[p..p + k] == Store(buf, head.i)[l..l + k]
  {
    hide Span, Store, Rel;
    Sizes(buf, head, tail, cursor, b);
    Bounds(buf, head, tail, b);
    TakeSlice(Store(buf, head.i), head.o, Lin(tail, head.i, |buf|, b), Lin(cursor, head.i, |buf|, b), k);
  }

  lemma Joined(f: seq<byte>, l: int, got: seq<byte>, more: seq<byte>)
    requires 0 <= l && l + |got| + |more| <= |f|
    requires got == f[l..l + |got|] && more == f[l + |got|..l + |got| + |more|]
    ensures got + more == f[l..l + |got + more|]
  {
  }

  /** Moving on inside one chunk. */
  lemma StepIn(p: Spot, k: int, h: int, n: int, b: int)
    requires b > 0 && SpotOk(p, n, b) && 0 <= k && p.o + k <= b
    ensures SpotOk(Spot(p.i, p.o + k), n, b) && Lin(Spot(p.i, p.o + k), h, n, b) == Lin(p, h, n, b) + k
  {
  }

  /** The chunk after one that is not the last of the table. */
  lemma NextChunk(i: int, h: int, n: int, b: int)
    requires b > 0 && 0 <= i < n && 0 <= h < n && Lin(Spot(i, b), h, n, b) < Span(b, n)
    ensures 0 <= Increase(i, n) < n && SpotOk(Spot(Increase(i, n), 0), n, b)
    ensures Lin(Spot(Increase(i, n), 0), h, n, b) == Lin(Spot(i, b), h, n, b)
  {
    NormalSame(Spot(i, b), h, n, b);
  }

  class CircularBuf {
    const size: int
    var buf: Chunks
    var head: Spot
    var cursor: Spot
    var tail: Spot
    var shrinkCnt: int

    ghost predicate Stored()
      reads this
    {
      DataOk(buf, head, tail, size)
    }

    ghost predicate Valid()
      reads this
    {
      Stored() && CursorOk(|buf|, head, tail, cursor, size)
    }

    /** The file, and where in it the cursor is. */
    ghost function File(): FileState
      requires Stored()
      reads this
    {
      FileState(Content(buf, head, tail, size), PosOf(|buf|, head, cursor, size))
    }

    ghost function Disk(): Disk
      requires Stored()
      reads this
    {
      FileModel.Disk(File(), head.o, |buf|)
    }

    /** Bytes from the cursor to the end of the table. */
    ghost function Room(): int
      reads this
    {
      Span(size, |buf|) - Lin(cursor, head.i, |buf|, size)
    }

    /** yf_circular_buf_init; `b` is the requested size rounded up to a power of two. */
    constructor (b: int)
      requires b > 0
      ensures Valid() && File() == FileState([], 0) && buf == [] && size == b
    {
      size, buf, shrinkCnt := b, [], 0;
      head, cursor, tail := Spot(0, 0), Spot(0, 0), Spot(0, 0);
    }

    /** _yf_cb_space_reoder */
    method Reorder()
      requires Valid()
      modifies this`buf, this`head, this`cursor, this`tail
      ensures Valid() && File() == old(File()) && Room() == old(Room())
      ensures head.i == 0 && |buf| == old(|buf|)
      ensures head.o == old(head.o) && cursor.o == old(cursor.o) && tail.o == old(tail.o)
      ensures Rel(tail.i, 0, |buf|) == old(Rel(tail.i, head.i, |buf|))
      ensures cursor.o == 0 && old(Room()) == 0 ==> buf == []
    {
      hide Span, Flat;
      var h := head.i;
      RoomZero();
      if h == 0 {
        return;
      }
      var w := buf[..h];
      Reordered(buf, h);
      RotSized(buf, h, size);
      buf := buf[h..] + w;
      cursor := cursor.(i := CbSub(cursor.i, h, |buf|));
      tail := tail.(i := CbSub(tail.i, h, |buf|));
      head := head.(i := 0);
    }

    lemma RoomZero()
      requires Valid()
      ensures 0 <= Room() && (Room() == 0 && buf != [] ==> cursor.o == size)
    {
      hide Span;
      Sizes(buf, head, tail, cursor, size);
      if buf != [] {
        LinRange(cursor, head.i, |buf|, size);
      }
    }

    /** yf_cb_space_enlarge. `supply` is what the allocator would hand out before it fails; the
        result is the new distance from the cursor to the end of the table. */
    method Enlarge(bytes: int, supply: Chunks) returns (free: int)
      requires Valid() && Sized(supply, size)
      modifies this`buf, this`head, this`cursor, this`tail
      ensures Valid() && File() == old(File()) && free == Room()
      ensures Enlarged(bytes, old(Room()), old(|buf|), |supply|, |buf|, size)
      ensures Room() == old(Room()) + Span(size, |buf| - old(|buf|))
      ensures old(Room()) >= bytes ==> buf == old(buf) && head == old(head) && cursor == old(cursor)
      ensures cursor.o == old(cursor.o) && head.o == old(head.o)
    {
      hide Span, Flat, BSize, Content, DataOk, CursorOk, Enlarged;
      AtMost(buf, head, tail, size);
      Sizes(buf, head, tail, cursor, size);
      SpanStep(size, 0, 0);
      free := IndexOffset(Spot(head.i, 0), cursor, |buf|, size, true);
      if free < bytes && |buf| < MAX_CHUNKS {
        if head.i != 0 {
          Reorder();
        }
        RestSplit(bytes - free, size);
        var wb := Min(BSize(bytes - free, size), MAX_CHUNKS - |buf|);
        var wanted, used := wb, 0;
        label start:
        while wb > 0
          invariant 0 <= wb <= wanted && used == wanted - wb && used <= |supply|
          invariant |buf| == old(|buf|) + used && head == old@start(head) && cursor == old@start(cursor)
          invariant tail == old@start(tail)
          invariant Valid() && File() == old(File())
          decreases wb
        {
          if used == |supply| {
            break;
          }
          GrownOk(buf, head, tail, cursor, supply[used], size);
          buf := buf + [supply[used]];
          used := used + 1;
          wb := wb - 1;
        }
        SpanStep(size, old(|buf|), used);
        JustEnough(bytes, free, old(|buf|), |supply|, used, size);
        free := free + Span(size, wanted - wb);
      } else {
        NoneAdded(bytes, free, |buf|, |supply|, size);
      }
    }

    /** Lines 435-458: copy `k` bytes from the start of chunk `i0` on; ends inside a chunk. */
    method CopyOut(i0: int, k0: int, ghost l: int) returns (got: seq<byte>, p: Spot)
      requires Stored() && 0 <= i0 < |buf| && 0 < k0 && 0 <= l && l + k0 <= |Store(buf, head.i)|
      requires Lin(Spot(i0, 0), head.i, |buf|, size) == l
      ensures got == Store(buf, head.i)[l..l + k0]
      ensures SpotOk(p, |buf|, size) && p.o > 0 && Lin(p, head.i, |buf|, size) == l + k0
    {
      hide Span, Store, Rot, Rel, Lin;
      StoreLen(buf, head.i, size);
      var i, k := i0, k0;
      got := [];
      while k > size
        invariant 0 < k && k + |got| == k0 && 0 <= i < |buf|
        invariant Lin(Spot(i, 0), head.i, |buf|, size) == l + |got|
        invariant got == Store(buf, head.i)[l..l + |got|]
        decreases k
      {
        Piece(buf, head.i, Spot(i, 0), size, size);
        StepIn(Spot(i, 0), size, head.i, |buf|, size);
        Joined(Store(buf, head.i), l, got, buf[i]);
        NextChunk(i, head.i, |buf|, size);
        got := got + buf[i];
        i := Increase(i, |buf|);
        k := k - size;
      }
      Piece(buf, head.i, Spot(i, 0), k, size);
      StepIn(Spot(i, 0), k, head.i, |buf|, size);
      Joined(Store(buf, head.i), l, got, buf[i][..k]);
      got := got + buf[i][..k];
      p := Spot(i, k);
    }

    /** yf_cb_fread. A contiguous read gives a view of the chunk, a longer one is copied chunk by
        chunk; here both are the bytes seen. */
    method FRead(want: int, peek: bool) returns (ret: int, got: seq<byte>)
      requires Valid()
      modifies this`cursor
      ensures Valid() && Reads(old(File()), want, peek, File(), ret, got)
      ensures peek || ret <= 0 ==> cursor == old(cursor)
    {
      hide Span, Store, Rot, Rel, Lin, Content;
      Sizes(buf, head, tail, cursor, size);
      var rest := IndexOffset(tail, cursor, |buf|, size, false);
      ret, got := Min(rest, want), [];
      if ret <= 0 {
        return;
      }
      NotEmpty(buf, head, tail, cursor, size);
      ReadSlice(buf, head, tail, cursor, ret, size);
      var p;
      got, p := Fetch(ret);
      if !peek {
        CursorAt(|buf|, head, tail, p, size);
        cursor := p;
      }
    }

    /** Lines 414-458: the bytes from the cursor on, and the place behind them. */
    method Fetch(ret: int) returns (got: seq<byte>, p: Spot)
      requires Valid() && buf != [] && 0 < ret <= |File().data| - File().pos
      ensures var l := Lin(cursor, head.i, |buf|, size); (
        && 0 <= head.i < |buf| && 0 <= l && l + ret <= |Store(buf, head.i)| && got == Store(buf, head.i)[l..l + ret]
        && SpotOk(p, |buf|, size) && p.o > 0 && Lin(p, head.i, |buf|, size) == l + ret)
    {
      hide Span, Store, Rot, Rel, Lin, Content;
      Sizes(buf, head, tail, cursor, size);
      ghost var l := Lin(cursor, head.i, |buf|, size);
      Bounds(buf, head, tail, size);
      NotEmpty(buf, head, tail, cursor, size);
      p := Normal(cursor, |buf|, size);
      NormalSame(cursor, head.i, |buf|, size);
      var k := size - p.o;
      if k >= ret {
        Piece(buf, head.i, p, ret, size);
        StepIn(p, ret, head.i, |buf|, size);
        got := buf[p.i][p.o..p.o + ret];
        p := Spot(p.i, p.o + ret);
      } else {
        Piece(buf, head.i, p, k, size);
        StepIn(p, k, head.i, |buf|, size);
        NextChunk(p.i, head.i, |buf|, size);
        var first, more := buf[p.i][p.o..p.o + k], [];
        more, p := CopyOut(Increase(p.i, |buf|), ret - k, l + k);
        Joined(Store(buf, head.i), l, first, more);
        got := first + more;
      }
    }

    /** _yf_cb_space_write_tail: the tail moves on if the write runs past it. */
    method WriteTail(free: int, bytes: int)
      requires Valid() && free == Room() && 0 <= bytes <= free
      modifies this`tail
      ensures Valid()
      ensures Lin(tail, head.i, |buf|, size) ==
        if Lin(cursor, head.i, |buf|, size) + bytes <= old(Lin(tail, head.i, |buf|, size))
        then old(Lin(tail, head.i, |buf|, size)) else Lin(cursor, head.i, |buf|, size) + bytes
      ensures Lin(cursor, head.i, |buf|, size) + bytes <= old(Lin(tail, head.i, |buf|, size)) ==> tail == old(tail)
    {
      hide Span, Rel;
      Sizes(buf, head, tail, cursor, size);
      var more := bytes - (free - IndexOffset(Spot(head.i, 0), tail, |buf|, size, true));
      if more > 0 {
        TailGrows(buf, head, tail, cursor, more, size);
        tail := AdvanceFront(tail, more, |buf|, size);
      }
    }

    /** One memcpy into a chunk, as an edit of the store. */
    method CopyChunk(p: Spot, d: seq<byte>, ghost f: seq<byte>, ghost l: int, ghost done: seq<byte>)
      requires Stored() && SpotOk(p, |buf|, size) && p.o + |d| <= size && buf != []
      requires 0 <= l && l + |done| + |d| <= |f| && Lin(p, head.i, |buf|, size) == l + |done|
      requires Store(buf, head.i) == Put(f, l, done)
      modifies this`buf
      ensures Stored() && |buf| == old(|buf|) && Store(buf, head.i) == Put(f, l, done + d)
    {
      hide Span, Store, Rot, Rel, Lin;
      PutPiece(buf, head.i, p, d, size);
      PutTwice(f, l, done, d);
      buf := buf[p.i := Put(buf[p.i], p.o, d)];
    }

    /** Lines 494-515: copy the rest of `d`, after its first `k0` bytes, into the chunks from the
        start of chunk `i0` on. */
    method CopyIn(i0: int, d: seq<byte>, k0: nat, ghost f: seq<byte>, ghost l: int) returns (p: Spot)
      requires Stored() && 0 <= i0 < |buf| && k0 < |d| && 0 <= l && l + |d| <= |f| == |Store(buf, head.i)|
      requires Lin(Spot(i0, 0), head.i, |buf|, size) == l + k0 && Store(buf, head.i) == Put(f, l, d[..k0])
      modifies this`buf
      ensures Stored() && |buf| == old(|buf|) && Store(buf, head.i) == Put(f, l, d)
      ensures SpotOk(p, |buf|, size) && p.o > 0 && Lin(p, head.i, |buf|, size) == l + |d|
    {
      hide Span, Store, Rot, Rel, Lin, Put;
      StoreLen(buf, head.i, size);
      var i, done, n := i0, k0, |buf|;
      while |d| - done > size
        invariant done < |d| && 0 <= i < n && Stored() && |buf| == n
        invariant Lin(Spot(i, 0), head.i, n, size) == l + done
        invariant Store(buf, head.i) == Put(f, l, d[..done])
      {
        assert d[..done] + d[done..done + size] == d[..done + size];
        CopyChunk(Spot(i, 0), d[done..done + size], f, l, d[..done]);
        StepIn(Spot(i, 0), size, head.i, n, size);
        NextChunk(i, head.i, n, size);
        i := Increase(i, n);
        done := done + size;
      }
      assert d[..done] + d[done..] == d;
      CopyChunk(Spot(i, 0), d[done..], f, l, d[..done]);
      StepIn(Spot(i, 0), |d| - done, head.i, n, size);
      p := Spot(i, |d| - done);
    }

    /** Lines 482-515: copy `d` to the cursor's place on. */
    method Transfer(d: seq<byte>) returns (p: Spot)
      requires Valid() && d != [] && |d| <= Room()
      modifies this`buf
      ensures Stored() && |buf| == old(|buf|) && buf != []
      ensures var l := Lin(cursor, head.i, |buf|, size); (
        && 0 <= l && l + |d| <= |old(Store(buf, head.i))| && head.o <= l
        && Store(buf, head.i) == Put(old(Store(buf, head.i)), l, d)
        && SpotOk(p, |buf|, size) && p.o > 0 && Lin(p, head.i, |buf|, size) == l + |d|)
    {
      hide Span, Store, Rot, Rel, Lin, Content, Put;
      ghost var l := Lin(cursor, head.i, |buf|, size);
      HasChunks(buf, head, tail, cursor, |d|, size);
      p := Normal(cursor, |buf|, size);
      NormalSame(cursor, head.i, |buf|, size);
      var k := size - p.o;
      ghost var f := Store(buf, head.i);
      PutNone(f, l);
      if k >= |d| {
        assert [] + d == d;
        CopyChunk(p, d, f, l, []);
        StepIn(p, |d|, head.i, |buf|, size);
        p := Spot(p.i, p.o + |d|);
      } else {
        assert [] + d[..k] == d[..k];
        CopyChunk(p, d[..k], f, l, []);
        StepIn(p, k, head.i, |buf|, size);
        NextChunk(p.i, head.i, |buf|, size);
        StoreLen(buf, head.i, size);
        p := CopyIn(Increase(p.i, |buf|), d, k, f, l);
      }
    }

    /** Lines 480-515 for at least one byte that fits. */
    method WriteSome(d: seq<byte>, free: int)
      requires Valid() && d != [] && free == Room() && |d| <= free
      modifies this`buf, this`cursor, this`tail
      ensures Valid() && |buf| == old(|buf|) && Writes(old(File()), d, File())
    {
      hide Span, Store, Rot, Rel, Lin, Content, Put;
      WriteTail(free, |d|);
      var p := Transfer(d);
      Written(old(buf), buf, head, old(tail), tail, cursor, d, size);
      WrittenTo(|buf|, head, tail, cursor, p, |d|, size);
      cursor := p;
    }

    /** yf_cb_fwrite. If not even one byte can be stored, the cursor, at the end of the table, is
        respelled as the start of the head chunk: the write then is not a write of zero bytes. */
    method FWrite(data: seq<byte>, bytes: int, supply: Chunks) returns (ret: int)
      requires Valid() && bytes <= |data| && Sized(supply, size)
      modifies this`buf, this`head, this`cursor, this`tail
      ensures Stored() && ret <= |data|
      ensures Enlarged(bytes, old(Room()), old(|buf|), |supply|, |buf|, size) && head.o == old(head.o)
      ensures ret == if bytes <= 0 then bytes
        else Min(bytes, Capacity(old(Room()), old(|buf|), |supply|, size))
      ensures (Valid() && Writes(old(File()), data[..Max(ret, 0)], File())) <==> (bytes <= 0 || ret > 0 || buf == [])
      ensures !(bytes <= 0 || ret > 0 || buf == []) ==>
        cursor == Spot(head.i, 0) && old(Room()) == 0 && File().data == old(File()).data
    {
      hide Span, Store, Rot, Rel, Lin, Content, BSize, Put, DataOk, CursorOk, PosOf, Writes, Enlarged;
      Sizes(buf, head, tail, cursor, size);
      SpanStep(size, 0, 0);
      var free := IndexOffset(Spot(head.i, 0), cursor, |buf|, size, true);
      if bytes <= 0 {
        WriteNone(File());
        AtMost(buf, head, tail, size);
        NoneAdded(bytes, free, |buf|, |supply|, size);
        return bytes;
      }
      if free < bytes {
        RoomZero();
        free := Enlarge(bytes, supply);
        EnlargedEnough(bytes, old(Room()), old(|buf|), |supply|, |buf|, size);
        SpanOrder(size, 0, |buf| - old(|buf|));
      } else {
        AtMost(buf, head, tail, size);
        NoneAdded(bytes, free, |buf|, |supply|, size);
      }
      RoomZero();
      EnlargedEnough(bytes, old(Room()), old(|buf|), |supply|, |buf|, size);
      ret := Min(bytes, free);
      if ret == 0 {
        assert data[..0] == [];
        WriteNothing();
        return;
      }
      WriteSome(data[..ret], free);
    }

    lemma WriteNone(s: FileState)
      requires FileOk(s)
      ensures Writes(s, [], s)
    {
    }

    /** Lines 482-490 for a write of no bytes. */
    method WriteNothing()
      requires Valid() && Room() == 0
      modifies this`cursor
      ensures (Valid() && Writes(old(File()), [], File())) <==> buf == []
      ensures buf != [] ==> cursor == Spot(head.i, 0) && File().data == old(File()).data
    {
      hide Content;
      WriteNone(File());
      var p := Normal(cursor, |buf|, size);
      if buf != [] {
        NormalWraps(cursor, head.i, |buf|, size);
        SpanOrder(size, 0, |buf|);
      }
      cursor := p;
    }

    /** yf_cb_fseek */
    method FSeek(offset: int, from: Whence) returns (ok: bool)
      requires Valid()
      modifies this`cursor
      ensures Valid() && Seeks(old(File()), offset, from, File(), ok)
    {
      hide Span, Rel, Lin, Content, DataOk, CursorOk, PosOf;
      Sizes(buf, head, tail, cursor, size);
      EndsOk(buf, head, tail, size);
      if offset == 0 {
        match from
        case SeekSet => cursor := head;
        case SeekCur =>
        case SeekEnd => cursor := tail;
        case SeekOther => return false;
        return true;
      }
      var target, fsize := offset, IndexOffset(tail, head, |buf|, size, false);
      match from {
        case SeekSet =>
        case SeekCur => target := target + IndexOffset(cursor, head, |buf|, size, false);
        case SeekEnd => target := target + fsize;
        case SeekOther => return false;
      }
      if target < 0 || target > fsize {
        return false;
      }
      SeekTo(buf, head, tail, target, size);
      cursor := AdvanceFront(head, target, |buf|, size);
      ok := true;
    }

    /** yf_cb_ftruncate */
    method FTruncate(len: int, supply: Chunks) returns (ok: bool)
      requires Valid() && Sized(supply, size)
      modifies this`buf, this`head, this`cursor, this`tail
      ensures Valid() && Truncates(old(File()), len, File(), ok) && head.o == old(head.o)
      ensures var s := old(File()); len > |s.data| ==>
        (ok <==> len - s.pos <= Capacity(old(Room()), old(|buf|), |supply|, size))
      ensures Enlarged(Asks(old(File()), Truncate(len)), old(Room()), old(|buf|), |supply|, |buf|, size)
    {
      hide Span, Rel, Lin, DataOk, CursorOk, BSize, Store, Enlarged;
      AtMost(buf, head, tail, size);
      RoomZero();
      NoneAdded(0, Room(), |buf|, |supply|, size);
      if len < 0 {
        return false;
      }
      Sizes(buf, head, tail, cursor, size);
      var d := len - IndexOffset(tail, head, |buf|, size, false);
      if d == 0 {
        return true;
      } else if d > 0 {
        var more := len - IndexOffset(cursor, head, |buf|, size, false);
        var free := Enlarge(more, supply);
        EnlargedEnough(more, old(Room()), old(|buf|), |supply|, |buf|, size);
        if free < more {
          return false;
        }
        ghost var tail0 := tail;
        Sizes(buf, head, tail, cursor, size);
        WriteTail(free, more);
        Extended(buf, head, tail0, tail, size);
        return true;
      }
      ShortTail(buf, head, tail, cursor, -d, size);
      tail := AdvanceBack(tail, -d, |buf|, size);
      var cpos := IndexOffset(cursor, head, |buf|, size, false);
      if cpos < 0 || cpos > len {
        cursor := tail;
      }
      ok := true;
    }

    /** The one case in which yf_cb_fhead_set takes the cursor for one still inside the file: head
        and cursor at the very start of a table that is full to the last byte, and more than a
        chunk dropped. The start of the first chunk then looks like the end of the last one. */
    predicate Aliased(offset: int)
      reads this
    {
      && head.o == 0 && cursor == Spot(head.i, 0) && size < offset
      && IndexOffset(Spot(head.i, 0), tail, |buf|, size, true) == 0
      && offset <= IndexOffset(tail, head, |buf|, size, false)
    }

    /** yf_cb_fhead_set */
    method FHeadSet(offset: int) returns (ok: bool)
      requires Valid()
      modifies this`head, this`cursor
      ensures Stored() && (Valid() && Drops(old(File()), offset, File(), ok) <==> !old(Aliased(offset)))
      ensures 0 <= head.o <= size && (!ok ==> head == old(head))
      ensures exists k :: head.o + Span(size, k) == old(head.o) + Dropped(old(File()), DropHead(offset), Done(ok))
      ensures old(Aliased(offset)) ==> ok && File().data == old(File()).data[offset..] && File().pos == |File().data|
    {
      hide Span, Rel, Lin, DataOk, CursorOk, BSize, Store, Content, PosOf;
      Sizes(buf, head, tail, cursor, size);
      EndsOk(buf, head, tail, size);
      FrontLost(buf, head, tail, head, size);
      FrontLost(buf, head, tail, cursor, size);
      if offset < 0 {
        return false;
      }
      if offset == 0 {
        HeadToCursor(buf, head, tail, cursor, size);
        head := cursor;
        return true;
      }
      if offset > IndexOffset(tail, head, |buf|, size, false) {
        return false;
      }
      HeadAhead(buf, head, tail, cursor, offset, size);
      SeekTo(buf, head, tail, offset, size);
      FrontLost(buf, head, tail, AdvanceFront(head, offset, |buf|, size), size);
      head := AdvanceFront(head, offset, |buf|, size);
      var cpos := IndexOffset(cursor, head, |buf|, size, false);
      if cpos < 0 || cpos > IndexOffset(tail, head, |buf|, size, false) {
        cursor := head;
      }
      ok := true;
    }

    /** yf_circular_buf_shrink, every 32nd call: frees chunks after the tail's, never one that
        holds a byte of the file. The two assertions are those of lines 263 and 270. */
    method Shrink()
      requires Valid()
      modifies this`buf, this`head, this`cursor, this`tail, this`shrinkCnt
      ensures Valid() && File() == old(File())
      ensures var n := old(|buf|); |buf| == n - (if old(shrinkCnt) + 1 < 32 || n <= 2 then 0
        else Min(Max(1, n / 8), n - 1 - old(Rel(tail.i, head.i, |buf|))))
      ensures shrinkCnt == if old(shrinkCnt) + 1 < 32 then old(shrinkCnt) + 1 else 0
    {
      hide Span, Lin, Content, PosOf;
      shrinkCnt := shrinkCnt + 1;
      if shrinkCnt < 32 {
        return;
      }
      shrinkCnt := 0;
      if |buf| <= 2 {
        return;
      }
      var num := Max(1, |buf| / 8);
      AfterTail(|buf|, head, tail, size);
      var tailed := IndexOffset(Spot(head.i, 0), tail, |buf|, size, true);
      tailed := tailed - (size - tail.o);
      assert tailed % size == 0;
      num := Min(num, tailed / size);
      if num == 0 {
        return;
      }
      Reorder();
      assert head.i == 0;
      ShrunkOk(buf, head, tail, cursor, |buf| - num, size);
      buf := buf[..|buf| - num];
    }

    /** yf_cb_space_write_alloc: reserve room for up to `bytes` bytes from the cursor on. Chunks are
        named by their index in the table; neither the file nor the cursor moves. */
    method WriteAlloc(bytes: int, supply: Chunks) returns (ret: int, chunks: seq<int>, woffset: int)
      requires Valid() && Sized(supply, size)
      modifies this`buf, this`head, this`cursor, this`tail
      ensures Valid() && File() == old(File())
      ensures Enlarged(bytes, old(Room()), old(|buf|), |supply|, |buf|, size)
      ensures ret == if bytes <= 0 then bytes else Min(bytes, Capacity(old(Room()), old(|buf|), |supply|, size))
      ensures ret <= 0 || ret <= Room()
      ensures Room() == old(Room()) + Span(size, |buf| - old(|buf|))
      ensures ret > 0 ==> Reserved(chunks, woffset, ret)
    {
      hide Span, Rel, Lin, DataOk, BSize, Store, Content, PosOf, Enlarged;
      Sizes(buf, head, tail, cursor, size);
      SpanStep(size, 0, 0);
      var free := IndexOffset(Spot(head.i, 0), cursor, |buf|, size, true);
      AtMost(buf, head, tail, size);
      if free >= bytes || bytes <= 0 {
        NoneAdded(bytes, free, |buf|, |supply|, size);
      }
      if bytes <= 0 {
        return bytes, [], 0;
      }
      if free < bytes {
        free := Enlarge(bytes, supply);
      }
      EnlargedEnough(bytes, old(Room()), old(|buf|), |supply|, |buf|, size);
      ret := Min(bytes, free);
      var p := Normal(cursor, |buf|, size);
      chunks, woffset := [p.i], p.o;
      var w := size - woffset;
      if w >= ret {
        return;
      }
      w := ret - w;
      HasChunks(buf, head, tail, cursor, ret, size);
      NormalSame(cursor, head.i, |buf|, size);
      FewChunks(|buf|, head, cursor, ret, size);
      chunks := chunks + Gathered(Increase(p.i, |buf|), BSize(w, size), |buf|);
    }

    /** What write_alloc promises: consecutive chunks from the cursor's place on, just enough of them. */
    predicate Reserved(chunks: seq<int>, woffset: int, ret: int)
      requires size > 0
      reads this
    {
      var p := Normal(cursor, |buf|, size);
      && chunks != [] && chunks[0] == p.i && woffset == p.o
      && |chunks| == 1 + (if size - woffset >= ret then 0 else BSize(ret - (size - woffset), size))
      && forall j :: 1 <= j < |chunks| ==> chunks[j] == Increase(chunks[j - 1], |buf|)
    }

    /** yf_cb_space_write_bytes. The seek cannot fail, as line 225 asserts. */
    method WriteBytes(k: int)
      requires Valid() && 0 < k <= Room()
      modifies this`tail, this`cursor
      ensures Valid() && File().pos == old(File()).pos + k
      ensures Lin(tail, head.i, |buf|, size) ==
        Max(old(Lin(tail, head.i, |buf|, size)), old(Lin(cursor, head.i, |buf|, size)) + k)
    {
      hide Span, Rel, DataOk, CursorOk, Store;
      Sizes(buf, head, tail, cursor, size);
      var free := IndexOffset(Spot(head.i, 0), cursor, |buf|, size, true);
      WriteTail(free, k);
      Sizes(buf, head, tail, cursor, size);
      var ok := FSeek(k, SeekCur);
      assert ok;
    }

    /** The caller's part: put `d` into the chunks handed out. */
    method FillReserved(chunks: seq<int>, woffset: int, d: seq<byte>, ghost ret: int)
      requires Valid() && 0 < |d| <= ret <= Room() && Reserved(chunks, woffset, ret)
      modifies this`buf
      ensures Stored() && |buf| == old(|buf|)
      ensures var l := Lin(cursor, head.i, |buf|, size);
        0 <= l && l + |d| <= |old(Store(buf, head.i))| && Store(buf, head.i) == Put(old(Store(buf, head.i)), l, d)
    {
      hide Span, Rel, Lin, Store, Put, BSize;
      ghost var f, l := Store(buf, head.i), Lin(cursor, head.i, |buf|, size);
      HasChunks(buf, head, tail, cursor, ret, size);
      NormalSame(cursor, head.i, |buf|, size);
      PutNone(f, l);
      var n, done := |buf|, Min(|d|, size - woffset);
      assert [] + d[..done] == d[..done];
      CopyChunk(Spot(chunks[0], woffset), d[..done], f, l, []);
      StepIn(Spot(chunks[0], woffset), done, head.i, n, size);
      var j := 1;
      SpanStep(size, 0, 0);
      assert done == |d| ==> d[..done] == d;
      while done < |d|
        invariant 1 <= j <= |chunks| && 0 <= chunks[j - 1] < n && 0 <= done <= |d|
        invariant Stored() && |buf| == n && Store(buf, head.i) == Put(f, l, d[..done])
        invariant done < |d| ==> done == size - woffset + Span(size, j - 1)
        invariant done < |d| ==> Lin(Spot(chunks[j - 1], size), head.i, n, size) == l + done
      {
        StoreLen(buf, head.i, size);
        MoreChunks(ret - (size - woffset), j - 1, size);
        NextChunk(chunks[j - 1], head.i, n, size);
        var k := Min(|d| - done, size);
        assert d[..done] + d[done..done + k] == d[..done + k];
        CopyChunk(Spot(chunks[j], 0), d[done..done + k], f, l, d[..done]);
        StepIn(Spot(chunks[j], 0), k, head.i, n, size);
        SpanStep(size, j - 1, 1);
        done := done + k;
        j := j + 1;
      }
      assert d[..done] == d;
    }

    /** Reserving, filling the reserved chunks with any part of what they hold and committing has
        the effect on the file that yf_cb_fwrite of the same bytes has. */
    method ReserveFillCommit(want: int, d: seq<byte>, supply: Chunks) returns (ret: int)
      requires Valid() && Sized(supply, size)
      modifies this`buf, this`head, this`cursor, this`tail
      ensures Valid() && ret == if want <= 0 then want
        else Min(want, Capacity(old(Room()), old(|buf|), |supply|, size))
      ensures 0 < |d| <= ret ==> Writes(old(File()), d, File())
      ensures !(0 < |d| <= ret) ==> File() == old(File())
    {
      hide Span, Rel, Lin, Store, Put, BSize, Content, DataOk, CursorOk, Enlarged, Capacity;
      var chunks, woffset;
      ret, chunks, woffset := WriteAlloc(want, supply);
      if 0 < |d| <= ret {
        ghost var buf1, tail1, cursor1 := buf, tail, cursor;
        FillReserved(chunks, woffset, d, ret);
        Sizes(buf1, head, tail1, cursor1, size);
        SameCursor(buf1, buf, head, tail, cursor, size);
        WriteBytes(|d|);
        Written(buf1, buf, head, tail1, tail, cursor1, d, size);
      }
    }

    /** Whether the operation is one that the buffer carries out as a file would: a write finds
        room for one byte, a head set is not the aliased one. */
    predicate Guarded(op: Op, supply: Chunks)
      requires size > 0
      reads this
    {
      match op
      case Write(data) =>
        data == [] || (buf == [] && supply == [])
        || IndexOffset(Spot(head.i, 0), cursor, |buf|, size, true) > 0 || (|buf| < MAX_CHUNKS && supply != [])
      case DropHead(offset) => !Aliased(offset)
      case _ => true
    }

    /** One operation of the file interface. */
    method Exec(op: Op, supply: Chunks) returns (out: Out)
      requires Valid() && Sized(supply, size)
      modifies this`buf, this`head, this`cursor, this`tail
      ensures Stored()
      ensures old(Guarded(op, supply)) <==> Valid() && DiskStep(old(Disk()), op, |supply|, out, Disk(), size)
    {
      hide Content, DataOk, CursorOk, PosOf, Lin, Span, BSize, IndexOffset, Reads, Writes, Truncates, Seeks, Drops,
        Aliased, Enlarged, Capacity;
      Sizes(buf, head, tail, cursor, size);
      AtMost(buf, head, tail, size);
      RoomZero();
      RoomIs();
      NoneAdded(0, Room(), |buf|, |supply|, size);
      match op
      case Read(want, peek) =>
        var ret, got := FRead(want, peek);
        out := Bytes(ret, got);
      case Write(data) =>
        RoomFound(op, supply);
        EmptyNoRoom();
        var ret := FWrite(data, |data|, supply);
        EnlargedEnough(|data|, old(Room()), old(|buf|), |supply|, |buf|, size);
        out := Count(ret);
      case Seek(offset, from) =>
        var ok := FSeek(offset, from);
        out := Done(ok);
      case Truncate(len) =>
        var ok := FTruncate(len, supply);
        out := Done(ok);
      case DropHead(offset) =>
        var ok := FHeadSet(offset);
        out := Done(ok);
    }

    /** The guard of a write says exactly that a byte will be stored, if there is one. */
    lemma RoomFound(op: Op, supply: Chunks)
      requires Valid() && op.Write? && Sized(supply, size)
      ensures var n, most := |op.data|, Capacity(Room(), |buf|, |supply|, size);
        && most >= 0
        && (Guarded(op, supply) <==> (n == 0 || Min(n, most) > 0 || (buf == [] && supply == [])))
    {
      hide Span, BSize;
      Sizes(buf, head, tail, cursor, size);
      RoomZero();
      var more := Min(|supply|, MAX_CHUNKS - |buf|);
      SpanStep(size, 0, 0);
      SpanOrder(size, 0, more);
      if more > 0 {
        SpanOrder(size, 1, more);
        SpanStep(size, 1, 0);
      }
    }

    lemma EmptyNoRoom()
      requires Valid()
      ensures buf == [] ==> Room() == 0
    {
      SpanStep(size, 0, 0);
    }

    lemma RoomIs()
      requires Valid()
      ensures RoomAt(Disk(), size) == Room() && DiskOk(Disk())
    {
      Sizes(buf, head, tail, cursor, size);
    }

    /** Any run of guarded operations is a run of a plain file in a table of chunks; the buffer stops at
        the first operation that is not. */
    method Run(ops: seq<Op>, supply: seq<Chunks>) returns (outs: seq<Out>)
      requires Valid() && |supply| == |ops| && forall k :: 0 <= k < |supply| ==> Sized(supply[k], size)
      modifies this`buf, this`head, this`cursor, this`tail
      ensures Valid() && |outs| <= |ops| && DiskOk(old(Disk()))
      ensures FileRun(old(Disk()), ops[..|outs|], Counts(supply[..|outs|]), outs, Disk(), size)
      ensures |outs| < |ops| ==> !Guarded(ops[|outs|], supply[|outs|])
    {
      hide Content, DataOk, CursorOk, PosOf, IndexOffset, Aliased, DiskStep, Span, Lin;
      Sizes(buf, head, tail, cursor, size);
      RoomIs();
      outs := [];
      while |outs| < |ops| && Guarded(ops[|outs|], supply[|outs|])
        invariant |outs| <= |ops| && Valid() && size > 0 && DiskOk(old(Disk()))
        invariant FileRun(old(Disk()), ops[..|outs|], Counts(supply[..|outs|]), outs, Disk(), size)
        decreases |ops| - |outs|
      {
        Sizes(buf, head, tail, cursor, size);
        RoomIs();
        ghost var d := Disk();
        var k := |outs|;
        var out := Exec(ops[k], supply[k]);
        RunStep(old(Disk()), ops[..k], Counts(supply[..k]), outs, d, ops[k], |supply[k]|, out, Disk(), size);
        assert ops[..k] + [ops[k]] == ops[..k + 1];
        assert Counts(supply[..k]) + [|supply[k]|] == Counts(supply[..k + 1]);
        outs := outs + [out];
      }
    }
  }

  /** How many chunks each operation can get. */
  ghost function Counts(supply: seq<Chunks>): (r: seq<nat>)
    ensures |r| == |supply|
  {
    seq(|supply|, k requires 0 <= k < |supply| => |supply[k]|)
  }

  // ----- the two operations that are not a file's -----

  /** The aliased head set, as a caller sees it: the file fills every chunk, the position is at its
      start, and more than a chunk is dropped. */
  lemma AliasedIff(b: CircularBuf, offset: int)
    requires b.Valid() && b.buf != []
    ensures b.Aliased(offset) <==>
      |b.File().data| == Span(b.size, |b.buf|) && b.File().pos == 0 && b.size < offset <= |b.File().data|
  {
    hide Span;
    Sizes(b.buf, b.head, b.tail, b.cursor, b.size);
    SpanStep(b.size, 0, 0);
    StartIs(b.cursor, b.head.i, |b.buf|, b.size);
  }

  lemma StartIs(p: Spot, h: int, n: int, b: int)
    requires b > 0 && 0 <= h < n && SpotOk(p, n, b)
    ensures Lin(p, h, n, b) == 0 <==> p == Spot(h, 0)
  {
    SpanStep(b, 0, 0);
    if Rel(p.i, h, n) > 0 {
      SpanOrder(b, 1, Rel(p.i, h, n));
      SpanStep(b, 0, 1);
    }
  }

  /** Two chunks of two bytes, full. */
  method TwoFull(x: byte) returns (b: CircularBuf)
    ensures fresh(b) && b.Valid() && b.size == 2 && |b.buf| == 2 && b.Room() == 0
    ensures b.File() == FileState([x, x, x, x], 4)
  {
    hide Content, DataOk, CursorOk, PosOf, Lin, Rel;
    b := new CircularBuf(2);
    EmptyRoom(b);
    var ret := b.FWrite([x, x, x, x], 4, [[x, x], [x, x]]);
    assert Span(2, 2) == 4;
    assert [x, x, x, x][..4] == [x, x, x, x];
    FullRoom(b);
  }

  lemma EmptyRoom(b: CircularBuf)
    requires b.Valid() && b.buf == []
    ensures b.Room() == 0
  {
  }

  lemma FullRoom(b: CircularBuf)
    requires b.Valid()
    ensures 0 <= b.Room() <= Span(b.size, |b.buf|) - b.File().pos
  {
    Sizes(b.buf, b.head, b.tail, b.cursor, b.size);
    EndsOk(b.buf, b.head, b.tail, b.size);
  }

  lemma FullStart(b: CircularBuf)
    requires b.Stored() && b.buf != [] && |b.File().data| == Span(b.size, |b.buf|) && b.cursor == Spot(b.head.i, 0)
    ensures b.File().pos == 0
  {
    Bounds(b.buf, b.head, b.tail, b.size);
    StartIs(b.cursor, b.head.i, |b.buf|, b.size);
  }

  /** Set back to the start, three bytes dropped: a file would be at its start, the buffer is at its end. */
  method DropsTooFar(x: byte) returns (b: CircularBuf)
    ensures b.Stored() && b.File() == FileState([x], 1)
    ensures Drops(FileState([x, x, x, x], 0), 3, FileState([x], 0), true)
  {
    hide Content, DataOk, CursorOk, PosOf, Lin, Rel;
    b := TwoFull(x);
    var ok := b.FSeek(0, SeekSet);
    AliasedIff(b, 3);
    assert [x, x, x, x][3..] == [x];
    ok := b.FHeadSet(3);
  }

  /** A byte that finds no room: it is not written, and the position is no longer at the end. */
  method WriteMovesBack(x: byte) returns (b: CircularBuf, ret: int)
    ensures b.Stored() && ret == 0 && b.File() == FileState([x, x, x, x], 0)
  {
    hide Content, DataOk, CursorOk, PosOf, Lin, Rel;
    b := TwoFull(x);
    ret := b.FWrite([x], 1, []);
    assert Span(2, 2) == 4;
    FullStart(b);
  }

  /** Between the tail's chunk and the head's there are only whole chunks. */
  lemma AfterTail(n: int, head: Spot, tail: Spot, b: int)
    requires b > 0 && n > 0 && SpotOk(head, n, b) && SpotOk(tail, n, b)
    ensures var w, k := IndexOffset(Spot(head.i, 0), tail, n, b, true) - (b - tail.o), n - 1 - Rel(tail.i, head.i, n);
      w == Span(b, k) && w % b == 0 && w / b == k && k >= 0
  {
    var k := n - 1 - Rel(tail.i, head.i, n);
    Distances(tail, tail, head.i, n, b);
    SpanStep(b, Rel(tail.i, head.i, n), k + 1);
    SpanStep(b, k, 1);
    DivIs(k * b, b, k, 0);
  }

  /** Cutting off chunks behind the tail's. */
  lemma ShrunkOk(buf: Chunks, head: Spot, tail: Spot, cursor: Spot, m: int, b: int)
    requires DataOk(buf, head, tail, b) && CursorOk(|buf|, head, tail, cursor, b)
    requires buf != [] && head.i == 0 && Rel(tail.i, 0, |buf|) < m <= |buf|
    ensures DataOk(buf[..m], head, tail, b) && CursorOk(m, head, tail, cursor, b)
    ensures Content(buf[..m], head, tail, b) == Content(buf, head, tail, b)
    ensures PosOf(m, head, cursor, b) == PosOf(|buf|, head, cursor, b)
  {
    hide Span, Store;
    Cut(buf, m, b);
    Bounds(buf, head, tail, b);
    Bounds(buf[..m], head, tail, b);
  }

  /** yf_cb_space_gwrite: `k` chunk numbers from `from` on, wrapping at the end of the table. */
  function Gathered(from: int, k: int, n: int): (r: seq<int>)
    requires 0 <= from < n && 0 <= k <= n
    ensures |r| == k && (k > 0 ==> r[0] == from)
    ensures forall j :: 1 <= j < k ==> r[j] == Increase(r[j - 1], n)
  {
    var first := Min(k, n - from);
    seq(first, j requires 0 <= j => from + j) + seq(k - first, j requires 0 <= j => j)
  }

  lemma FewChunks(n: int, head: Spot, cursor: Spot, ret: int, b: int)
    requires b > 0 && n > 0 && SpotOk(head, n, b) && SpotOk(cursor, n, b) && 0 < ret
    requires Lin(cursor, head.i, n, b) + ret <= Span(b, n)
    requires b - Normal(cursor, n, b).o < ret
    ensures 0 <= BSize(ret - (b - Normal(cursor, n, b).o), b) <= n
  {
    hide Span, BSize, RestMod;
    var w := ret - (b - Normal(cursor, n, b).o);
    NormalSame(cursor, head.i, n, b);
    LinRange(cursor, head.i, n, b);
    RestSplit(w, b);
    SpanOrder(b, n, BSize(w, b) - 1);
  }

  lemma MoreChunks(w: int, j: int, b: int)
    requires b > 0 && 0 <= j && Span(b, j) < w
    ensures j < BSize(w, b)
  {
    hide Span, BSize, RestMod;
    SpanOrder(b, 0, j);
    SpanStep(b, 0, 0);
    RestSplit(w, b);
    SpanOrder(b, BSize(w, b), j);
    SpanStep(b, BSize(w, b) - 1, 1);
  }

  lemma SameCursor(buf: Chunks, buf': Chunks, head: Spot, tail: Spot, cursor: Spot, b: int)
    requires DataOk(buf, head, tail, b) && DataOk(buf', head, tail, b) && |buf| == |buf'|
    requires CursorOk(|buf|, head, tail, cursor, b)
    ensures CursorOk(|buf'|, head, tail, cursor, b)
    ensures |Content(buf, head, tail, b)| == |Content(buf', head, tail, b)|
  {
  }

  lemma SeekTo(buf: Chunks, head: Spot, tail: Spot, k: int, b: int)
    requires DataOk(buf, head, tail, b) && 0 <= k <= |Content(buf, head, tail, b)|
    ensures var p := AdvanceFront(head, k, |buf|, b);
      CursorOk(|buf|, head, tail, p, b) && PosOf(|buf|, head, p, b) == k
  {
    hide Span, Content;
    SpanStep(b, 0, 0);
    EndsOk(buf, head, tail, b);
    if buf != [] {
      LinRange(tail, head.i, |buf|, b);
      FrontMoves(head, k, head.i, |buf|, b);
      CursorAt(|buf|, head, tail, AdvanceFront(head, k, |buf|, b), b);
    }
  }

  /** Chunks left behind by a head that moves to `p`. */
  lemma FrontLost(buf: Chunks, head: Spot, tail: Spot, p: Spot, b: int)
    requires DataOk(buf, head, tail, b) && CursorOk(|buf|, head, tail, p, b)
    ensures 0 <= p.o <= b && exists k :: p.o + Span(b, k) == head.o + PosOf(|buf|, head, p, b)
  {
    hide Span;
    assert p.o + Span(b, Rel(p.i, head.i, |buf|)) == head.o + PosOf(|buf|, head, p, b);
  }

  /** A tail further on keeps all bytes before it. */
  lemma Extended(buf: Chunks, head: Spot, tail: Spot, tail': Spot, b: int)
    requires DataOk(buf, head, tail, b) && DataOk(buf, head, tail', b)
    requires Lin(tail, head.i, |buf|, b) <= Lin(tail', head.i, |buf|, b)
    ensures Content(buf, head, tail', b)[..|Content(buf, head, tail, b)|] == Content(buf, head, tail, b)
  {
    hide Span, Rel, Store;
    Bounds(buf, head, tail, b);
    Bounds(buf, head, tail', b);
    Prefix(Store(buf, head.i), head.o, Lin(tail, head.i, |buf|, b), Lin(tail', head.i, |buf|, b));
  }

  lemma Prefix(f: seq<byte>, lo: int, hi: int, hi': int)
    requires 0 <= lo <= hi <= hi' <= |f|
    ensures f[lo..hi'][..hi - lo] == f[lo..hi]
  {
  }

  /** Moving the tail back by `d` bytes, and what becomes of the cursor. */
  lemma ShortTail(buf: Chunks, head: Spot, tail: Spot, cursor: Spot, d: int, b: int)
    requires DataOk(buf, head, tail, b) && CursorOk(|buf|, head, tail, cursor, b)
    requires 0 < d <= |Content(buf, head, tail, b)|
    ensures var t, c := AdvanceBack(tail, d, |buf|, b), Content(buf, head, tail, b);
      && DataOk(buf, head, t, b) && Content(buf, head, t, b) == c[..|c| - d]
      && CursorOk(|buf|, head, t, t, b) && PosOf(|buf|, head, t, b) == |c| - d
      && (PosOf(|buf|, head, cursor, b) <= |c| - d ==> CursorOk(|buf|, head, t, cursor, b))
  {
    hide Span, Store;
    SpanStep(b, 0, 0);
    Bounds(buf, head, tail, b);
    BackMoves(tail, d, head.i, |buf|, b);
    var t := AdvanceBack(tail, d, |buf|, b);
    EndsOk(buf, head, t, b);
    Prefix(Store(buf, head.i), head.o, Lin(t, head.i, |buf|, b), Lin(tail, head.i, |buf|, b));
    if PosOf(|buf|, head, cursor, b) <= |Content(buf, head, tail, b)| - d {
      CursorAt(|buf|, head, t, cursor, b);
    }
  }

  /** Seen from a head moved forward: places at or after it, and places before it. */
  lemma HeadAt(buf: Chunks, head: Spot, tail: Spot, head': Spot, p: Spot, b: int)
    requires DataOk(buf, head, tail, b) && buf != [] && CursorOk(|buf|, head, tail, head', b)
    requires CursorOk(|buf|, head, tail, p, b)
    ensures DataOk(buf, head', tail, b)
    ensures Content(buf, head', tail, b) == Content(buf, head, tail, b)[PosOf(|buf|, head, head', b)..]
    ensures var n, at := |buf|, PosOf(|buf|, head, head', b);
      at <= PosOf(n, head, p, b) && Rel(head'.i, head.i, n) <= Rel(p.i, head.i, n) ==>
        CursorOk(n, head', tail, p, b) && PosOf(n, head', p, b) == PosOf(n, head, p, b) - at
  {
    hide Span, Store, Content;
    HeadMoved(buf, head, tail, head', b);
    Rehead(p, head.i, head'.i, |buf|, b);
    Rehead(tail, head.i, head'.i, |buf|, b);
  }

  lemma HeadToCursor(buf: Chunks, head: Spot, tail: Spot, cursor: Spot, b: int)
    requires DataOk(buf, head, tail, b) && CursorOk(|buf|, head, tail, cursor, b)
    ensures DataOk(buf, cursor, tail, b) && CursorOk(|buf|, cursor, tail, cursor, b)
    ensures Content(buf, cursor, tail, b) == Content(buf, head, tail, b)[PosOf(|buf|, head, cursor, b)..]
    ensures PosOf(|buf|, cursor, cursor, b) == 0
  {
    hide Span, Store;
    SpanStep(b, 0, 0);
    if buf != [] {
      HeadAt(buf, head, tail, cursor, cursor, b);
    }
  }

  /** The check at lines 309-310 sees a cursor behind the new head as outside the file, unless
      one full turn of the table puts it on the tail. */
  lemma HeadAhead(buf: Chunks, head: Spot, tail: Spot, cursor: Spot, offset: int, b: int)
    requires DataOk(buf, head, tail, b) && CursorOk(|buf|, head, tail, cursor, b)
    requires 0 < offset <= |Content(buf, head, tail, b)|
    ensures var n, h, c := |buf|, AdvanceFront(head, offset, |buf|, b), Content(buf, head, tail, b); (
      var pos, seen := PosOf(n, head, cursor, b), IndexOffset(cursor, h, n, b, false);
      var alias := head.o == 0 && cursor == Spot(head.i, 0) && b < offset && Lin(tail, head.i, n, b) == Span(b, n);
      && DataOk(buf, h, tail, b) && Content(buf, h, tail, b) == c[offset..]
      && CursorOk(n, h, tail, h, b) && PosOf(n, h, h, b) == 0
      && IndexOffset(tail, h, n, b, false) == |c| - offset
      && (if pos >= offset then seen == pos - offset == PosOf(n, h, cursor, b) && CursorOk(n, h, tail, cursor, b)
          else if alias then seen == |c| - offset == PosOf(n, h, cursor, b) && !CursorOk(n, h, tail, cursor, b)
          else seen < 0 || seen > |c| - offset))
  {
    hide Span, Store, BSize, RestMod;
    SpanStep(b, 0, 0);
    Bounds(buf, head, tail, b);
    var n, h := |buf|, AdvanceFront(head, offset, |buf|, b);
    FrontMoves(head, offset, head.i, n, b);
    CursorAt(n, head, tail, h, b);
    HeadAt(buf, head, tail, h, cursor, b);
    HeadAt(buf, head, tail, h, tail, b);
    HeadAt(buf, head, tail, h, h, b);
    Sizes(buf, h, tail, h, b);
    AheadCursor(n, head, tail, cursor, offset, b);
  }

  lemma AheadCursor(n: int, head: Spot, tail: Spot, cursor: Spot, offset: int, b: int)
    requires b > 0 && n > 0 && SpotOk(head, n, b) && SpotOk(tail, n, b) && CursorOk(n, head, tail, cursor, b)
    requires 0 < offset && Lin(head, head.i, n, b) + offset <= Lin(tail, head.i, n, b)
    ensures var h, fsize := AdvanceFront(head, offset, n, b), Lin(tail, head.i, n, b) - head.o; (
      var pos, seen := PosOf(n, head, cursor, b), IndexOffset(cursor, h, n, b, false);
      var alias := head.o == 0 && cursor == Spot(head.i, 0) && b < offset && Lin(tail, head.i, n, b) == Span(b, n);
      && (pos >= offset ==> Rel(h.i, head.i, n) <= Rel(cursor.i, head.i, n) && seen == pos - offset)
      && (pos < offset && alias ==>
            seen == fsize - offset == PosOf(n, h, cursor, b) && !CursorOk(n, h, tail, cursor, b))
      && (pos < offset && !alias ==> seen < 0 || seen > fsize - offset))
  {
    hide Span, BSize, RestMod;
    SpanStep(b, 0, 0);
    var h := AdvanceFront(head, offset, n, b);
    LinRange(head, head.i, n, b);
    LinRange(tail, head.i, n, b);
    LinRange(cursor, head.i, n, b);
    FrontMoves(head, offset, head.i, n, b);
    var kh, kc, kt := Rel(h.i, head.i, n), Rel(cursor.i, head.i, n), Rel(tail.i, head.i, n);
    if PosOf(n, head, cursor, b) >= offset {
      ChunkOrder(h, cursor, head.i, n, b);
    }
    if kh <= kc {
      Distances(cursor, h, head.i, n, b);
    } else {
      SpanOrder(b, 1, kc);
      SpanStep(b, kh, kc - kh);
      SpanStep(b, kc - kh, n);
      Rehead(cursor, head.i, h.i, n, b);
      Rehead(tail, head.i, h.i, n, b);
      ChunkOrder(h, tail, head.i, n, b);
    }
  }

  /** The chunks asked for, or what there is of them, are just enough. */
  lemma JustEnough(bytes: int, room: int, n: int, supply: int, used: int, b: int)
    requires b > 0 && room < bytes && 0 <= n < MAX_CHUNKS && 0 <= used <= supply
    requires used == Min(supply, Min(BSize(bytes - room, b), MAX_CHUNKS - n))
    ensures Enlarged(bytes, room, n, supply, n + used, b)
  {
    hide Span, BSize, RestMod;
    RestSplit(bytes - room, b);
    var most := BSize(bytes - room, b);
    SpanStep(b, most - 1, 1);
    if used > 0 {
      SpanOrder(b, used - 1, most - 1);
      SpanStep(b, used - 1, 1);
    }
  }

  lemma NoneAdded(bytes: int, room: int, n: int, supply: int, b: int)
    requires 0 <= n <= MAX_CHUNKS && 0 <= supply && (room >= bytes || n == MAX_CHUNKS)
    ensures Enlarged(bytes, room, n, supply, n, b)
  {
    SpanStep(b, 0, 0);
  }

  lemma AtMost(buf: Chunks, head: Spot, tail: Spot, b: int)
    requires DataOk(buf, head, tail, b)
    ensures |buf| <= MAX_CHUNKS
  {
  }

  lemma HasChunks(buf: Chunks, head: Spot, tail: Spot, cursor: Spot, k: int, b: int)
    requires DataOk(buf, head, tail, b) && CursorOk(|buf|, head, tail, cursor, b)
    requires 0 < k && Lin(cursor, head.i, |buf|, b) + k <= Span(b, |buf|)
    ensures buf != [] && SpotOk(cursor, |buf|, b) && SpotOk(head, |buf|, b) && SpotOk(tail, |buf|, b)
    ensures head.o <= Lin(cursor, head.i, |buf|, b) && |Store(buf, head.i)| == Span(b, |buf|)
  {
    hide Span;
    Bounds(buf, head, tail, b);
    SpanStep(b, 0, 0);
  }

  /** A write inside the table, as an edit of the file. */
  lemma Written(buf: Chunks, buf': Chunks, head: Spot, tail: Spot, tail': Spot, cursor: Spot, d: seq<byte>, b: int)
    requires DataOk(buf, head, tail, b) && CursorOk(|buf|, head, tail, cursor, b)
    requires DataOk(buf', head, tail', b) && |buf'| == |buf|
    requires 0 <= Lin(cursor, head.i, |buf|, b) && Lin(cursor, head.i, |buf|, b) + |d| <= |Store(buf, head.i)|
    requires Store(buf', head.i) == Put(Store(buf, head.i), Lin(cursor, head.i, |buf|, b), d)
    requires Lin(tail', head.i, |buf|, b) == Max(Lin(tail, head.i, |buf|, b), Lin(cursor, head.i, |buf|, b) + |d|)
    ensures var s := FileState(Content(buf, head, tail, b), PosOf(|buf|, head, cursor, b));
      FileOk(s) && Writes(s, d, FileState(Content(buf', head, tail', b), s.pos + |d|))
  {
    hide Span, Store, Rel, Put;
    Sizes(buf, head, tail, cursor, b);
    Bounds(buf, head, tail, b);
    PutSlice(Store(buf, head.i), head.o, Lin(tail, head.i, |buf|, b), Lin(cursor, head.i, |buf|, b), d,
             Lin(tail', head.i, |buf|, b));
  }

  lemma WrittenTo(n: int, head: Spot, tail: Spot, cursor: Spot, p: Spot, k: int, b: int)
    requires b > 0 && n > 0 && SpotOk(head, n, b) && SpotOk(tail, n, b) && SpotOk(p, n, b)
    requires p.o > 0 && k > 0 && Lin(p, head.i, n, b) == Lin(cursor, head.i, n, b) + k
    requires head.o <= Lin(cursor, head.i, n, b) && Lin(p, head.i, n, b) <= Lin(tail, head.i, n, b)
    ensures CursorOk(n, head, tail, p, b) && PosOf(n, head, p, b) == PosOf(n, head, cursor, b) + k
  {
    CursorAt(n, head, tail, p, b);
  }

  lemma TailGrows(buf: Chunks, head: Spot, tail: Spot, cursor: Spot, more: int, b: int)
    requires DataOk(buf, head, tail, b) && CursorOk(|buf|, head, tail, cursor, b)
    requires 0 < more && Lin(tail, head.i, |buf|, b) + more <= Span(b, |buf|)
    ensures var t := AdvanceFront(tail, more, |buf|, b);
      && DataOk(buf, head, t, b) && CursorOk(|buf|, head, t, cursor, b)
      && Lin(t, head.i, |buf|, b) == Lin(tail, head.i, |buf|, b) + more && t.o > 0
  {
    hide Span;
    SpanStep(b, 0, 0);
    FrontMoves(tail, more, head.i, |buf|, b);
  }

  lemma GrownOk(buf: Chunks, head: Spot, tail: Spot, cursor: Spot, chunk: seq<byte>, b: int)
    requires DataOk(buf, head, tail, b) && CursorOk(|buf|, head, tail, cursor, b)
    requires head.i == 0 && |buf| < MAX_CHUNKS && |chunk| == b
    ensures DataOk(buf + [chunk], head, tail, b) && CursorOk(|buf| + 1, head, tail, cursor, b)
    ensures Content(buf + [chunk], head, tail, b) == Content(buf, head, tail, b)
    ensures PosOf(|buf| + 1, head, cursor, b) == PosOf(|buf|, head, cursor, b)
  {
    hide Span, Flat, Rot;
    Grown(buf, [chunk]);
    Bounds(buf, head, tail, b);
    SpanStep(b, 0, 0);
  }
}
