/** The bytes held by a rotating table of chunks, read from the head chunk on. */
module ChunkStore {
  import opened Bytes
  import opened Seqs
  import opened ChunkIndex

  type Chunks = seq<seq<byte>>

  ghost predicate Sized(buf: Chunks, b: int) { forall k :: 0 <= k < |buf| ==> |buf[k]| == b }

  ghost function Flat(s: Chunks): seq<byte> {
    if s == [] then [] else s[0] + Flat(s[1..])
  }

  /** The table as the head chunk sees it. */
  ghost function Rot(buf: Chunks, h: int): Chunks
    requires 0 <= h <= |buf|
  {
    buf[h..] + buf[..h]
  }

  ghost function Store(buf: Chunks, h: int): seq<byte>
    requires 0 <= h <= |buf|
  {
    Flat(Rot(buf, h))
  }

  lemma {:induction false} FlatLen(s: Chunks, b: int)
    requires Sized(s, b)
    ensures |Flat(s)| == Span(b, |s|)
  {
    if s != [] {
      FlatLen(s[1..], b);
      SpanStep(b, 1, |s| - 1);
    }
  }

  lemma FlatStep(x: seq<byte>, s: Chunks)
    ensures Flat([x] + s) == x + Flat(s) && Flat([]) == []
  {
    assert ([x] + s)[1..] == s;
  }

  lemma {:induction false} FlatCat(s: Chunks, t: Chunks)
    ensures Flat(s + t) == Flat(s) + Flat(t)
  {
    hide Flat;
    if s == [] {
      FlatStep([], []);
      assert s + t == t;
    } else {
      FlatCat(s[1..], t);
      FlatStep(s[0], s[1..]);
      FlatStep(s[0], s[1..] + t);
      assert s == [s[0]] + s[1..] && s + t == [s[0]] + (s[1..] + t);
    }
  }

  /** One chunk inside the flat bytes. */
  lemma FlatMid(s: Chunks, i: nat, b: int)
    requires i < |s| && Sized(s, b) && b > 0
    ensures Flat(s) == Flat(s[..i]) + s[i] + Flat(s[i + 1..]) && |Flat(s[..i])| == Span(b, i)
    ensures Span(b, i) + b <= |Flat(s)|
  {
    FlatCat(s[..i], s[i..]);
    assert s[..i] + s[i..] == s;
    assert s[i..][1..] == s[i + 1..];
    FlatLen(s[..i], b);
  }

  lemma Sliced(f: seq<byte>, x: seq<byte>, m: seq<byte>, y: seq<byte>, o: nat, k: nat)
    requires f == x + m + y && o + k <= |m|
    ensures f[|x| + o..|x| + o + k] == m[o..o + k]
  {
  }

  lemma Spliced(f: seq<byte>, x: seq<byte>, m: seq<byte>, y: seq<byte>, o: nat, d: seq<byte>)
    requires f == x + m + y && o + |d| <= |m|
    ensures x + Put(m, o, d) + y == Put(f, |x| + o, d)
  {
  }

  lemma StoreLen(buf: Chunks, h: int, b: int)
    requires 0 <= h <= |buf| && Sized(buf, b)
    ensures |Store(buf, h)| == Span(b, |buf|)
  {
    FlatLen(Rot(buf, h), b);
  }

  lemma RotAt(buf: Chunks, h: int, i: int)
    requires 0 <= h < |buf| && 0 <= i < |buf|
    ensures 0 <= Rel(i, h, |buf|) < |buf| && Rot(buf, h)[Rel(i, h, |buf|)] == buf[i]
  {
  }

  lemma RotUpdate(buf: Chunks, h: int, i: int, x: seq<byte>)
    requires 0 <= h < |buf| && 0 <= i < |buf|
    ensures Rot(buf[i := x], h) == Rot(buf, h)[Rel(i, h, |buf|) := x]
  {
  }

  /** What lies in a chunk is what the store holds there. */
  lemma Piece(buf: Chunks, h: int, p: Spot, k: int, b: int)
    requires b > 0 && Sized(buf, b) && 0 <= h < |buf| && SpotOk(p, |buf|, b) && 0 <= k && p.o + k <= b
    ensures var l := Lin(p, h, |buf|, b);
      0 <= l && l + k <= |Store(buf, h)| && Store(buf, h)[l..l + k] == buf[p.i][p.o..p.o + k]
  {
    hide Flat, Span, Rot;
    RotAt(buf, h, p.i);
    RotSized(buf, h, b);
    var s, r := Rot(buf, h), Rel(p.i, h, |buf|);
    FlatMid(s, r, b);
    Sliced(Flat(s), Flat(s[..r]), s[r], Flat(s[r + 1..]), p.o, k);
  }

  lemma RotSized(buf: Chunks, h: int, b: int)
    requires 0 <= h <= |buf| && Sized(buf, b)
    ensures Sized(Rot(buf, h), b) && |Rot(buf, h)| == |buf|
  {
  }

  /** Writing into a chunk overwrites those bytes of the store and no others. */
  lemma PutPiece(buf: Chunks, h: int, p: Spot, d: seq<byte>, b: int)
    requires b > 0 && Sized(buf, b) && 0 <= h < |buf| && SpotOk(p, |buf|, b) && p.o + |d| <= b
    ensures var l := Lin(p, h, |buf|, b);
      0 <= l && l + |d| <= |Store(buf, h)|
      && Store(buf[p.i := Put(buf[p.i], p.o, d)], h) == Put(Store(buf, h), l, d)
    ensures Sized(buf[p.i := Put(buf[p.i], p.o, d)], b)
  {
    RotAt(buf, h, p.i);
    RotSized(buf, h, b);
    RotUpdate(buf, h, p.i, Put(buf[p.i], p.o, d));
    hide Flat, Span, Rot, Put;
    PutInto(Rot(buf, h), Rel(p.i, h, |buf|), p.o, d, b);
  }

  lemma PutInto(s: Chunks, r: nat, o: nat, d: seq<byte>, b: int)
    requires b > 0 && Sized(s, b) && r < |s| && o + |d| <= b
    ensures Span(b, r) >= 0 && Span(b, r) + o + |d| <= |Flat(s)|
    ensures Flat(s[r := Put(s[r], o, d)]) == Put(Flat(s), Span(b, r) + o, d)
  {
    hide Flat, Span;
    var x := Put(s[r], o, d);
    FlatMid(s, r, b);
    FlatMid(s[r := x], r, b);
    assert s[r := x][..r] == s[..r] && s[r := x][r + 1..] == s[r + 1..];
    Spliced(Flat(s), Flat(s[..r]), s[r], Flat(s[r + 1..]), o, d);
  }

  lemma PutNone(f: seq<byte>, p: int)
    requires 0 <= p <= |f|
    ensures Put(f, p, []) == f
  {
  }

  lemma PutTwice(f: seq<byte>, p: int, d: seq<byte>, e: seq<byte>)
    requires 0 <= p && p + |d| + |e| <= |f|
    ensures Put(Put(f, p, d), p + |d|, e) == Put(f, p, d + e)
  {
  }

  /** The store seen from another head chunk. */
  lemma Turned(buf: Chunks, h: int, h': int, b: int)
    requires b > 0 && Sized(buf, b) && 0 <= h < |buf| && 0 <= h' < |buf|
    ensures var k := Span(b, Rel(h', h, |buf|));
      0 <= k <= |Store(buf, h)| && Store(buf, h') == Store(buf, h)[k..] + Store(buf, h)[..k]
  {
    var r := Rel(h', h, |buf|);
    var s := Rot(buf, h);
    assert Rot(buf, h') == s[r..] + s[..r];
    assert s == s[..r] + s[r..];
    RotSized(buf, h, b);
    hide Flat, Span, Rot;
    FlatCat(s[..r], s[r..]);
    FlatCat(s[r..], s[..r]);
    FlatLen(s[..r], b);
  }

  lemma Grown(buf: Chunks, more: Chunks)
    ensures Store(buf + more, 0) == Store(buf, 0) + Flat(more)
  {
    assert Rot(buf + more, 0) == buf + more && Rot(buf, 0) == buf;
    FlatCat(buf, more);
  }

  lemma Reordered(buf: Chunks, h: int)
    requires 0 <= h <= |buf|
    ensures Store(Rot(buf, h), 0) == Store(buf, h)
  {
    assert Rot(Rot(buf, h), 0) == Rot(buf, h);
  }

  lemma Cut(buf: Chunks, m: int, b: int)
    requires 0 <= m <= |buf| && Sized(buf, b)
    ensures |Store(buf[..m], 0)| == Span(b, m) <= |Store(buf, 0)|
    ensures Store(buf[..m], 0) == Store(buf, 0)[..Span(b, m)]
  {
    assert buf[..m] + buf[m..] == buf;
    Grown(buf[..m], buf[m..]);
    StoreLen(buf[..m], 0, b);
  }
}
