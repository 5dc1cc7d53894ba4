/** A plain file: a byte sequence and a position in it. What the circular buffer stands for. */
module FileModel {
  import opened Bytes
  import opened ChunkIndex
  import opened ChunkStore

  datatype FileState = FileState(data: seq<byte>, pos: int)

  datatype Whence = SeekSet | SeekCur | SeekEnd | SeekOther

  function Min(a: int, b: int): int { if a < b then a else b }

  function Max(a: int, b: int): int { if a < b then b else a }

  ghost predicate FileOk(s: FileState) { 0 <= s.pos <= |s.data| }

  /** A read returns exactly the bytes at the position; a count of zero or less comes back as is. */
  ghost predicate Reads(s: FileState, want: int, peek: bool, s': FileState, ret: int, got: seq<byte>)
    requires FileOk(s)
  {
    && ret == Min(|s.data| - s.pos, want)
    && got == (if ret > 0 then s.data[s.pos..s.pos + ret] else [])
    && s' == (if ret > 0 && !peek then s.(pos := s.pos + ret) else s)
  }

  /** A write overwrites from the position on and extends the file if it runs past the end. */
  ghost predicate Writes(s: FileState, d: seq<byte>, s': FileState)
    requires FileOk(s)
  {
    && s'.data == s.data[..s.pos] + d + (if s.pos + |d| <= |s.data| then s.data[s.pos + |d|..] else [])
    && s'.pos == s.pos + |d|
  }

  function Target(s: FileState, off: int, from: Whence): int {
    match from
    case SeekSet => off
    case SeekCur => s.pos + off
    case SeekEnd => |s.data| + off
    case SeekOther => -1
  }

  ghost predicate Seeks(s: FileState, off: int, from: Whence, s': FileState, ok: bool) {
    && (ok <==> 0 <= Target(s, off, from) <= |s.data|)
    && s' == if ok then s.(pos := Target(s, off, from)) else s
  }

  /** Shortening keeps the prefix and clamps the position; lengthening keeps all bytes and the
      position and adds bytes of any value, or fails and changes nothing. */
  ghost predicate Truncates(s: FileState, size: int, s': FileState, ok: bool) {
    if size < 0 then !ok && s' == s
    else if size <= |s.data| then ok && s' == FileState(s.data[..size], Min(s.pos, size))
    else if ok then |s'.data| == size && s'.data[..|s.data|] == s.data && s'.pos == s.pos
    else s' == s
  }

  /** Dropping a prefix: up to the position when `off` is zero. */
  ghost predicate Drops(s: FileState, off: int, s': FileState, ok: bool)
    requires FileOk(s)
  {
    && (ok <==> 0 <= off <= |s.data|)
    && s' == if !ok then s
             else if off == 0 then FileState(s.data[s.pos..], 0)
             else FileState(s.data[off..], if s.pos < off then 0 else s.pos - off)
  }

  // ----- runs -----

  datatype Op = Read(want: int, peek: bool) | Write(data: seq<byte>) | Seek(offset: int, from: Whence)
              | Truncate(len: int) | DropHead(offset: int)

  datatype Out = Bytes(ret: int, got: seq<byte>) | Count(written: int) | Done(ok: bool)

  /** One operation on a plain file. A write may take only some of the bytes offered. */
  ghost predicate FileStep(s: FileState, op: Op, out: Out, s': FileState)
    requires FileOk(s)
  {
    match op
    case Read(want, peek) => out.Bytes? && Reads(s, want, peek, s', out.ret, out.got)
    case Write(data) => out.Count? && 0 <= out.written <= |data| && Writes(s, data[..out.written], s')
    case Seek(offset, from) => out.Done? && Seeks(s, offset, from, s', out.ok)
    case Truncate(len) => out.Done? && Truncates(s, len, s', out.ok)
    case DropHead(offset) => out.Done? && Drops(s, offset, s', out.ok)
  }

  lemma StepKeepsOk(s: FileState, op: Op, out: Out, s': FileState)
    requires FileOk(s) && FileStep(s, op, out, s')
    ensures FileOk(s')
  {
  }

  // ----- what there is room for -----

  /** The file in a table of chunks: the bytes lost in front of it, and how many chunks there are. */
  datatype Disk = Disk(file: FileState, front: int, chunks: int)

  ghost predicate DiskOk(d: Disk) { FileOk(d.file) && 0 <= d.chunks <= MAX_CHUNKS }

  /** Bytes from the position to the end of the table. */
  ghost function RoomAt(d: Disk, b: int): int { Span(b, d.chunks) - d.front - d.file.pos }

  /** The same when all chunks are added that can come. */
  ghost function Capacity(room: int, n: int, supply: int, b: int): int {
    room + Span(b, Min(supply, MAX_CHUNKS - n))
  }

  /** Chunks are added as long as there is no room for `bytes` and there are more to come, and no longer. */
  ghost predicate Enlarged(bytes: int, room: int, n: int, supply: int, n': int, b: int) {
    && n <= n' <= MAX_CHUNKS && n' - n <= supply
    && (n' > n ==> room + Span(b, n' - n) - b < bytes)
    && (room + Span(b, n' - n) >= bytes || n' - n == Min(supply, MAX_CHUNKS - n))
  }

  /** What finds room is what finds room when all chunks come. */
  lemma EnlargedEnough(bytes: int, room: int, n: int, supply: int, n': int, b: int)
    requires Enlarged(bytes, room, n, supply, n', b) && b > 0 && 0 <= n && 0 <= supply
    ensures Min(bytes, room + Span(b, n' - n)) == Min(bytes, Capacity(room, n, supply, b))
    ensures n <= n' <= MAX_CHUNKS && (room >= bytes ==> n' == n)
    ensures room < bytes ==> (n' == 0 <==> n == 0 && supply == 0)
  {
    SpanStep(b, 0, 0);
    SpanOrder(b, n' - n, Min(supply, MAX_CHUNKS - n));
    if n' > n {
      SpanOrder(b, 1, n' - n);
    }
  }

  /** How much an operation asks to have room for. */
  function Asks(s: FileState, op: Op): int {
    match op
    case Write(data) => |data|
    case Truncate(len) => if len > |s.data| then len - s.pos else 0
    case _ => 0
  }

  /** How many bytes the operation drops from the front of the file. */
  function Dropped(s: FileState, op: Op, out: Out): int {
    if op.DropHead? && out.Done? && out.ok then (if op.offset == 0 then s.pos else op.offset) else 0
  }

  /** One operation on the file in its table, when `supply` more chunks can come: a write takes all that
      there can be room for, a file gets longer if there can be room, chunks are added as needed, and
      chunks are left behind by a dropped front. */
  ghost predicate DiskStep(d: Disk, op: Op, supply: int, out: Out, d': Disk, b: int)
    requires DiskOk(d)
  {
    var room := RoomAt(d, b);
    && FileStep(d.file, op, out, d'.file)
    && (op.Write? ==> out.written == Min(|op.data|, Capacity(room, d.chunks, supply, b)))
    && (op.Truncate? && op.len > |d.file.data| ==>
          (out.ok <==> op.len - d.file.pos <= Capacity(room, d.chunks, supply, b)))
    && Enlarged(Asks(d.file, op), room, d.chunks, supply, d'.chunks, b)
    && if op.DropHead? then
         0 <= d'.front <= b && exists k :: d'.front + Span(b, k) == d.front + Dropped(d.file, op, out)
       else
         d'.front == d.front
  }

  lemma DiskKeepsOk(d: Disk, op: Op, supply: int, out: Out, d': Disk, b: int)
    requires DiskOk(d) && DiskStep(d, op, supply, out, d', b)
    ensures DiskOk(d')
  {
    StepKeepsOk(d.file, op, out, d'.file);
  }

  ghost predicate FileRun(d: Disk, ops: seq<Op>, supply: seq<nat>, outs: seq<Out>, d': Disk, b: int)
    requires DiskOk(d) && |ops| == |outs| == |supply|
    decreases |ops|
  {
    if ops == [] then d' == d
    else exists m :: DiskOk(m) && DiskStep(d, ops[0], supply[0], outs[0], m, b)
                     && FileRun(m, ops[1..], supply[1..], outs[1..], d', b)
  }

  lemma {:induction false} RunStep(d: Disk, ops: seq<Op>, supply: seq<nat>, outs: seq<Out>, d1: Disk, op: Op,
                                   more: nat, out: Out, d2: Disk, b: int)
    requires DiskOk(d) && |ops| == |outs| == |supply| && FileRun(d, ops, supply, outs, d1, b)
    requires DiskOk(d1) && DiskStep(d1, op, more, out, d2, b)
    ensures FileRun(d, ops + [op], supply + [more], outs + [out], d2, b)
    decreases |ops|
  {
    hide DiskStep, DiskOk;
    if ops == [] {
      RunOne(d, op, more, out, d2, b);
    } else {
      var m :| DiskOk(m) && DiskStep(d, ops[0], supply[0], outs[0], m, b)
               && FileRun(m, ops[1..], supply[1..], outs[1..], d1, b);
      RunStep(m, ops[1..], supply[1..], outs[1..], d1, op, more, out, d2, b);
      assert (ops + [op])[1..] == ops[1..] + [op] && (outs + [out])[1..] == outs[1..] + [out];
      assert (supply + [more])[1..] == supply[1..] + [more];
    }
  }

  lemma RunOne(d: Disk, op: Op, more: nat, out: Out, d': Disk, b: int)
    requires DiskOk(d) && DiskStep(d, op, more, out, d', b)
    ensures FileRun(d, [op], [more], [out], d', b)
  {
    DiskKeepsOk(d, op, more, out, d', b);
    assert FileRun(d', [], [], [], d', b);
  }
}
