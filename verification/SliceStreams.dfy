/** Many streams of bytes in one pool: written byte by byte in any interleaving
    (terms_hash_per_field.rs) and read back in any chunks (byte_slice_reader.rs). */
module SliceStreams {
  import opened BitMath
  import opened Lex
  import opened Slices
  import opened ByteBlockPool

  // ----- all streams of a pool -----

  ghost predicate InOneBlock(s: Slice) {
    s.start / BYTE_BLOCK_SIZE == (s.End() - 1) / BYTE_BLOCK_SIZE
  }

  ghost predicate Placed(st: Stream, end: int) {
    forall p :: 0 <= p < |st.slices| ==>
      st.slices[p].start + LevelSize(st.slices[p].level) <= end && InOneBlock(st.slices[p])
  }

  ghost predicate SlicesApart(s: Slice, t: Slice) {
    s.End() <= t.start || t.End() <= s.start
  }

  ghost predicate Apart(a: Stream, b: Stream) {
    forall p, q :: 0 <= p < |a.slices| && 0 <= q < |b.slices| ==> SlicesApart(a.slices[p], b.slices[q])
  }

  ghost predicate Good(mem: seq<byte>, end: int, st: Stream) {
    Slices.Holds(mem, st) && Placed(st, end)
  }

  /** Every stream is in memory, and no two share a byte. */
  ghost predicate World(mem: seq<byte>, end: int, streams: seq<Stream>) {
    && end <= |mem| && (forall i :: 0 <= i < |streams| ==> Good(mem, end, streams[i]))
    && (forall i, j :: 0 <= i < |streams| && 0 <= j < |streams| && i != j ==> Apart(streams[i], streams[j]))
  }

  /** Below `end` only bytes of the slice `s` have changed. */
  ghost predicate OnlyIn(mem: seq<byte>, mem': seq<byte>, end: int, s: Slice) {
    end <= |mem| <= |mem'| && forall a :: 0 <= a < end && !(s.start <= a < s.End()) ==> mem'[a] == mem[a]
  }

  lemma GoodKept(mem: seq<byte>, mem': seq<byte>, end: int, end': int, st: Stream, own: Stream)
    requires Good(mem, end, st) && end <= end' && own.slices != [] && Apart(st, own)
    requires OnlyIn(mem, mem', end, own.Last())
    ensures Good(mem', end', st)
  {
    forall p | 0 <= p < |st.slices| ensures SameIn(mem, mem', st.slices[p]) {
      assert SlicesApart(st.slices[p], own.Last());
    }
    Slices.HoldsKept(mem, mem', st);
  }

  /** The stream has its old slices, and perhaps one more beyond `end`. */
  ghost predicate Continues(st: Stream, st': Stream, end: int) {
    st'.slices == st.slices || (|st'.slices| == |st.slices| + 1 && st'.slices[..|st.slices|] == st.slices
      && st'.Last().start >= end)
  }

  lemma ApartKept(a: Stream, b: Stream, b': Stream, end: int)
    requires Apart(a, b) && Placed(a, end) && Continues(b, b', end)
    ensures Apart(a, b') && Apart(b', a)
  {
    forall p, q | 0 <= p < |a.slices| && 0 <= q < |b'.slices| ensures SlicesApart(a.slices[p], b'.slices[q]) {
      if q < |b.slices| {
        assert b'.slices[q] == b.slices[q];
      }
    }
  }

  /** A step of one stream leaves the world in order and every other stream as it is. */
  lemma WorldStep(mem: seq<byte>, mem': seq<byte>, end: int, end': int, streams: seq<Stream>, i: nat, st': Stream)
    requires World(mem, end, streams) && i < |streams| && end <= end' <= |mem'|
    requires OnlyIn(mem, mem', end, streams[i].Last()) && Good(mem', end', st') && Continues(streams[i], st', end)
    ensures World(mem', end', streams[i := st'])
  {
    hide Good, Apart, Continues, OnlyIn;
    var streams' := streams[i := st'];
    forall j | 0 <= j < |streams'| ensures Good(mem', end', streams'[j]) {
      if j != i {
        GoodPlaced(mem, end, streams[i]);
        GoodKept(mem, mem', end, end', streams[j], streams[i]);
      }
    }
    forall j, k | 0 <= j < |streams'| && 0 <= k < |streams'| && j != k ensures Apart(streams'[j], streams'[k]) {
      if j == i {
        GoodPlaced(mem, end, streams[k]);
        ApartKept(streams[k], streams[i], st', end);
      } else if k == i {
        GoodPlaced(mem, end, streams[j]);
        ApartKept(streams[j], streams[i], st', end);
      }
    }
  }

  lemma GoodPlaced(mem: seq<byte>, end: int, st: Stream)
    requires Good(mem, end, st)
    ensures Placed(st, end) && st.slices != []
  {
  }

  lemma GoodBelow(mem: seq<byte>, mem': seq<byte>, end: int, end': int, st: Stream)
    requires Good(mem, end, st) && end <= end' && end <= |mem| <= |mem'| && forall a :: 0 <= a < end ==>
      mem'[a] == mem[a]
    ensures Good(mem', end', st)
  {
    forall p | 0 <= p < |st.slices| ensures SameIn(mem, mem', st.slices[p]) {
    }
    Slices.HoldsKept(mem, mem', st);
  }

  /** What else is put into the pool, a string say, is beyond all streams. */
  lemma WorldBelow(mem: seq<byte>, mem': seq<byte>, end: int, end': int, streams: seq<Stream>)
    requires World(mem, end, streams) && end <= end' <= |mem'| && |mem| <= |mem'|
    requires forall a :: 0 <= a < end ==> mem'[a] == mem[a]
    ensures World(mem', end', streams)
  {
    hide Good, Apart;
    forall j | 0 <= j < |streams| ensures Good(mem', end', streams[j]) {
      GoodBelow(mem, mem', end, end', streams[j]);
    }
  }

  /** A new stream beyond all others. */
  lemma WorldPush(mem: seq<byte>, mem': seq<byte>, end: int, end': int, streams: seq<Stream>, st: Stream)
    requires World(mem, end, streams) && end <= end' <= |mem'| && |mem| <= |mem'|
    requires forall a :: 0 <= a < end ==> mem'[a] == mem[a]
    requires Good(mem', end', st) && |st.slices| == 1 && st.slices[0].start >= end
    ensures World(mem', end', streams + [st])
  {
    hide Good;
    var streams' := streams + [st];
    WorldBelow(mem, mem', end, end', streams);
    forall j, k | 0 <= j < |streams'| && 0 <= k < |streams'| && j != k ensures Apart(streams'[j], streams'[k]) {
      if j < |streams| {
        GoodPlaced(mem, end, streams[j]);
      }
      if k < |streams| {
        GoodPlaced(mem, end, streams[k]);
      }
    }
  }

  // ----- the steps of one stream -----

  lemma PutGood(mem: seq<byte>, end: int, st: Stream, b: byte)
    requires Good(mem, end, st) && mem[st.cursor] == 0 && end <= |mem|
    ensures Good(mem[st.cursor := b], end, PutByte(st, b)) && OnlyIn(mem, mem[st.cursor := b], end, st.Last())
  {
    BytePut(mem, st, b);
  }

  lemma AllocOnlyIn(mem: seq<byte>, mem': seq<byte>, end: int, s: Slice, next: Slice, b: byte, mem'': seq<byte>)
    requires AllocStep(mem, mem', s.End() - 1, next) && end <= next.start && end <= |mem|
      && mem'' == mem'[next.start + 3 := b]
    ensures OnlyIn(mem, mem'', end, s)
  {
  }

  lemma GrowPlaced(st: Stream, next: Slice, end: int, end': int)
    requires Placed(st, end) && end <= end' && next.End() <= end' && InOneBlock(next)
    ensures Placed(Grow(st, next), end')
  {
  }

  lemma AllocZero(mem: seq<byte>, mem': seq<byte>, at: nat, next: Slice)
    requires AllocStep(mem, mem', at, next)
    ensures next.start + 3 < |mem'| && mem'[next.start + 3] == 0 && next.End() <= |mem'|
  {
  }

  lemma AllocGood(mem: seq<byte>, mem': seq<byte>, end: int, end': int, st: Stream, next: Slice, b: byte,
                  mem'': seq<byte>)
    requires Good(mem, end, st) && st.cursor == st.Last().End() - 1 && AllocStep(mem, mem', st.cursor, next)
    requires end <= next.start < 0x1_0000_0000 && end <= |mem| && next.End() <= end' && InOneBlock(next)
    requires next.level == NextLevel(st.Last().level) && mem'' == mem'[next.start + 3 := b]
    ensures Good(mem'', end', PutByte(Grow(st, next), b)) && OnlyIn(mem, mem'', end, st.Last())
  {
    hide AllocStep, Written, InOneBlock, OnlyIn, Begun;
    GoodPlaced(mem, end, st);
    assert st.Last().End() <= end;
    Allocated(mem, mem', st, next);
    AllocZero(mem, mem', st.cursor, next);
    BytePut(mem', Grow(st, next), b);
    GrowPlaced(st, next, end, end');
    AllocOnlyIn(mem, mem', end, st.Last(), next, b, mem'');
  }

  lemma NewGood(mem: seq<byte>, mem': seq<byte>, start: nat, end: int)
    requires SliceMade(mem, mem', start, LevelSize(0)) && start + LevelSize(0) <= end && InOneBlock(Slice(start, 0))
    ensures Good(mem', end, EmptyStream(start))
  {
  }

  ghost function EmptyStream(start: nat): Stream {
    Stream([Slice(start, 0)], start, [])
  }

  /** A slice that begins at `offset` of a block and fits there is in one block. */
  lemma OneBlock(block: nat, offset: nat, level: nat)
    requires offset + LevelSize(level) <= BYTE_BLOCK_SIZE
    ensures InOneBlock(Slice(block * BYTE_BLOCK_SIZE + offset, level))
  {
    SplitAddress(block, offset);
    SplitAddress(block, offset + LevelSize(level) - 1);
  }

  lemma CursorInPool(mem: seq<byte>, end: int, st: Stream)
    requires Good(mem, end, st)
    ensures st.slices != [] && st.cursor < st.Last().End() <= end && st.cursor < |mem|
    ensures mem[st.cursor] != 0 <==> st.cursor == st.Last().End() - 1
    ensures mem[st.cursor] != 0 ==>
      st.Last().level < 10 && mem[st.cursor] == 16 + st.Last().level && st.cursor % BYTE_BLOCK_SIZE >= 4
  {
    AtMark(mem, st.Last(), st.cursor);
    assert st.slices[|st.slices| - 1] == st.Last();
    assert InOneBlock(st.Last());
  }

  const FIRST_LEVEL_SIZE := 5

  /** The addresses at which a stream is continued are kept in 32 bits. */
  const MAX_POOL := 0x8000_0000

  ghost function ContentsOf(streams: seq<Stream>): (r: seq<seq<byte>>)
    ensures |r| == |streams| && forall i :: 0 <= i < |r| ==> r[i] == streams[i].content
  {
    seq(|streams|, i requires 0 <= i < |streams| => streams[i].content)
  }

  /** Empty streams whose first slices lie one after the other. */
  ghost function NewStreams(start: nat, n: nat): (r: seq<Stream>)
    ensures |r| == n && forall i :: 0 <= i < n ==> r[i] == EmptyStream(start + i * FIRST_LEVEL_SIZE)
  {
    if n == 0 then [] else NewStreams(start, n - 1) + [EmptyStream(start + (n - 1) * FIRST_LEVEL_SIZE)]
  }

  /** Streams never move. */
  ghost predicate SameStarts(streams: seq<Stream>, streams': seq<Stream>) {
    && |streams| <= |streams'|
    && forall i :: 0 <= i < |streams| ==>
       streams[i].slices != [] && streams'[i].slices != [] && streams'[i].slices[0] == streams[i].slices[0]
  }

  class SliceWriter {
    const pool: ByteBlockPool
    /** The address of the next byte of every stream. */
    var cursors: seq<nat>
    ghost var streams: seq<Stream>

    ghost predicate Valid()
      reads this, pool
    {
      && pool.Valid() && pool.Clean() && World(pool.Mem(), pool.End(), streams)
      && |cursors| == |streams| && forall i :: 0 <= i < |streams| ==> cursors[i] == streams[i].cursor
    }

    ghost function Contents(): seq<seq<byte>>
      reads this
    {
      ContentsOf(streams)
    }

    constructor (pool: ByteBlockPool)
      requires pool.Valid() && pool.Clean() && pool.End() <= |pool.Mem()|
      ensures Valid() && Contents() == [] && this.pool == pool
    {
      this.pool := pool;
      cursors := [];
      streams := [];
    }

    /** One more stream, at the end of the pool. */
    method NewStream() returns (ghost start: nat)
      requires Valid()
      modifies this, pool
      ensures Valid() && streams == old(streams) + [EmptyStream(start)] && start >= old(pool.End())
      ensures start == old(pool.RoomAt(5)) && pool.End() == start + FIRST_LEVEL_SIZE
      ensures old(pool.byteUpto) + FIRST_LEVEL_SIZE <= BYTE_BLOCK_SIZE ==>
        start == old(pool.End()) && pool.byteUpto == old(pool.byteUpto) + FIRST_LEVEL_SIZE
    {
      hide World, Good, SliceMade, Apart;
      ghost var m, end := pool.Mem(), pool.End();
      var upto := pool.NewSlice(FIRST_LEVEL_SIZE);
      start := upto + pool.byteOffset;
      OneBlock(pool.bufferUpto, upto, 0);
      NewGood(m, pool.Mem(), start, pool.End());
      MadeBelow(m, pool.Mem(), start, FIRST_LEVEL_SIZE, end);
      WorldPush(m, pool.Mem(), end, pool.End(), streams, EmptyStream(start));
      cursors := cursors + [upto + pool.byteOffset];
      streams := streams + [EmptyStream(start)];
    }

    /** The stream goes on in a new slice of the next level. */
    method WriteInNewSlice(stream: nat, b: byte, idx: nat, upto: nat)
      requires Valid() && stream < |streams| && pool.End() + BYTE_BLOCK_SIZE <= MAX_POOL && upto < BYTE_BLOCK_SIZE
      requires cursors[stream] == idx * BYTE_BLOCK_SIZE + upto && cursors[stream] < |pool.Mem()|
        && pool.Mem()[cursors[stream]] != 0
      modifies this, pool
      ensures Valid() && Contents() == old(Contents())[stream := old(Contents())[stream] + [b]]
        && SameStarts(old(streams), streams)
    {
      hide World, Good, Apart, AllocStep, OnlyIn, Continues, InOneBlock, LevelSize, NextLevel, Flat,
           ByteBlockPool.RoomAt;
      ghost var m, end, st := pool.Mem(), pool.End(), streams[stream];
      WorldAt(m, end, streams, stream);
      CursorInPool(m, end, st);
      SplitAddress(idx, upto);
      var offset := pool.AllocSlice(idx, upto);
      ghost var next := Slice(pool.byteOffset + offset - 3, NextLevel(st.Last().level));
      ghost var m' := pool.Mem();
      OneBlock(pool.bufferUpto, offset - 3, next.level);
      AllocZero(m, m', st.cursor, next);
      pool.Put(pool.bufferUpto, offset, b);
      AllocGood(m, m', end, pool.End(), st, next, b, pool.Mem());
      ghost var st' := PutByte(Grow(st, next), b);
      GrowContinues(st, next, end, b);
      WorldStep(m, pool.Mem(), end, pool.End(), streams, stream, st');
      cursors := cursors[stream := offset + pool.byteOffset + 1];
      streams := streams[stream := st'];
    }

    /** Appends a byte to a stream, in a new slice if the byte at its cursor is a mark. */
    method WriteByte(stream: nat, b: byte)
      requires Valid() && stream < |streams| && pool.End() + BYTE_BLOCK_SIZE <= MAX_POOL
      modifies this, pool
      ensures Valid() && Contents() == old(Contents())[stream := old(Contents())[stream] + [b]]
        && SameStarts(old(streams), streams)
    {
      hide World, Good, Apart, OnlyIn, Continues;
      ghost var m, end, st := pool.Mem(), pool.End(), streams[stream];
      WorldAt(m, end, streams, stream);
      CursorInPool(m, end, st);
      var upto := cursors[stream];
      var idx, offset := upto / BYTE_BLOCK_SIZE, upto % BYTE_BLOCK_SIZE;
      if pool.ByteAt(idx, offset) != 0 {
        WriteInNewSlice(stream, b, idx, offset);
      } else {
        pool.Put(idx, offset, b);
        PutGood(m, end, st, b);
        PutContinues(st, end, b);
        WorldStep(m, pool.Mem(), end, end, streams, stream, PutByte(st, b));
        streams := streams[stream := PutByte(st, b)];
        cursors := cursors[stream := upto + 1];
      }
    }

    /** Moves on to a fresh buffer; the rest of the old one stays unused. */
    method NextBuffer()
      requires Valid()
      modifies pool
      ensures Valid() && pool.byteUpto == 0 && pool.End() == (old(pool.bufferUpto) + 1) * BYTE_BLOCK_SIZE
    {
      hide World;
      ghost var m, end := pool.Mem(), pool.End();
      pool.NextBuffer();
      WorldBelow(m, pool.Mem(), end, pool.End(), streams);
    }

    /** Empty streams one after the other, in a buffer that has room for them. */
    method NewStreamsHere(n: nat)
      requires Valid() && pool.byteUpto + n * FIRST_LEVEL_SIZE <= BYTE_BLOCK_SIZE && pool.End() >= 0
      modifies this, pool
      ensures Valid() && streams == old(streams) + NewStreams(old(pool.End()), n)
      ensures pool.End() == old(pool.End()) + 5 * n
    {
      hide World, NewStreams, EmptyStream, Flat;
      ghost var start, upto, before := pool.End(), pool.byteUpto, streams;
      NoStreams(start);
      for i := 0 to n
        invariant Valid() && streams == before + NewStreams(start, i)
        invariant pool.End() == start + i * FIRST_LEVEL_SIZE && pool.byteUpto == upto + i * FIRST_LEVEL_SIZE
      {
        var at := NewStream();
        OneMoreStream(start, i);
        assert before + NewStreams(start, i) + [EmptyStream(at)] == before + (NewStreams(start, i) + [EmptyStream(at)]);
      }
    }

    /** The streams of a new term: empty, and one after the other from the address returned. */
    method NewTerm(streamCount: nat) returns (byteStart: nat)
      requires Valid() && 0 < streamCount && 2 * streamCount * FIRST_LEVEL_SIZE <= BYTE_BLOCK_SIZE
      modifies this, pool
      ensures Valid() && streams == old(streams) + NewStreams(byteStart, streamCount)
      ensures byteStart == old(pool.RoomAt(10 * streamCount)) && pool.End() == byteStart + 5 * streamCount
    {
      hide World, NewStreams, Flat;
      if BYTE_BLOCK_SIZE - pool.byteUpto < 2 * streamCount * FIRST_LEVEL_SIZE {
        NextBuffer();
      }
      byteStart := pool.byteOffset + pool.byteUpto;
      NewStreamsHere(streamCount);
    }

    /** A string that is stored in the same pool leaves all streams alone. */
    method Intern(t: Term) returns (start: nat)
      requires Valid() && |t| + 2 < BYTE_BLOCK_SIZE
      modifies pool
      ensures Valid() && Stores(pool.buffers, start, t) && start == old(pool.RoomAt(|t| + 2))
    {
      hide World, Stores, OnlyBetween;
      if |t| + 2 + pool.byteUpto > BYTE_BLOCK_SIZE {
        NextBuffer();
      }
      ghost var m, end := pool.Mem(), pool.End();
      start := pool.WriteTerm(t);
      WrittenBeyond(m, pool.Mem(), start, pool.End());
      WorldBelow(m, pool.Mem(), end, pool.End(), streams);
    }
  }

  lemma NoStreams(start: nat)
    ensures NewStreams(start, 0) == []
  {
  }

  lemma OneMoreStream(start: nat, n: nat)
    ensures NewStreams(start, n + 1) == NewStreams(start, n) + [EmptyStream(start + n * FIRST_LEVEL_SIZE)]
  {
  }

  lemma WrittenBeyond(m: seq<byte>, m': seq<byte>, from: nat, to: nat)
    requires OnlyBetween(m, m', from, to) && |m| == |m'| && from <= to <= |m| && forall a :: from <= a < |m| ==>
      m[a] == 0
    ensures (forall a :: 0 <= a < from ==> m'[a] == m[a]) && forall a :: to <= a < |m'| ==> m'[a] == 0
  {
  }

  lemma MadeBelow(mem: seq<byte>, mem': seq<byte>, start: nat, size: nat, end: int)
    requires SliceMade(mem, mem', start, size) && end <= start && end <= |mem|
    ensures forall a :: 0 <= a < end ==> mem'[a] == mem[a]
  {
  }

  lemma WorldAt(mem: seq<byte>, end: int, streams: seq<Stream>, i: nat)
    requires World(mem, end, streams) && i < |streams|
    ensures Good(mem, end, streams[i]) && end <= |mem| && forall j :: 0 <= j < |streams| ==> streams[j].slices != []
  {
  }

  lemma GrowContinues(st: Stream, next: Slice, end: int, b: byte)
    requires next.start >= end
    ensures Continues(st, PutByte(Grow(st, next), b), end)
  {
  }

  lemma PutContinues(st: Stream, end: int, b: byte)
    ensures Continues(st, PutByte(st, b), end)
  {
  }

  // ----- reading -----

  /** Where the bytes of slice `k` end: at the cursor, or before the forwarding address. */
  ghost function LimitOf(st: Stream, k: nat): int
    requires k < |st.slices|
  {
    if k == |st.slices| - 1 then st.cursor else st.slices[k].End() - 4
  }

  lemma {:induction false} FullPrefixOf(mem: seq<byte>, slices: seq<Slice>, k: nat, n: nat)
    requires k <= n <= |slices| && Inside(mem, slices)
    ensures |Full(mem, slices, k)| <= |Full(mem, slices, n)|
      && Full(mem, slices, n)[..|Full(mem, slices, k)|] == Full(mem, slices, k)
  {
    if k < n {
      FullPrefixOf(mem, slices, k, n - 1);
    }
  }

  lemma PieceIn(whole: seq<byte>, front: seq<byte>, piece: seq<byte>)
    requires |front| + |piece| <= |whole| && whole[..|front| + |piece|] == front + piece
    ensures whole[|front|..|front| + |piece|] == piece
  {
    assert whole[|front|..|front| + |piece|] == whole[..|front| + |piece|][|front|..];
  }

  /** Slice `k` holds the part of the content that begins after the slices before it. */
  lemma PieceOf(mem: seq<byte>, st: Stream, k: nat, base: nat, limit: nat)
    requires Slices.Holds(mem, st) && k < |st.slices| && base == |Full(mem, st.slices, k)| && limit == LimitOf(st, k)
    ensures st.slices[k].start <= limit <= |mem| && base + (limit - st.slices[k].start) <= |st.content|
    ensures st.content[base..base + (limit - st.slices[k].start)] == mem[st.slices[k].start..limit]
    ensures k == |st.slices| - 1 ==> base + (limit - st.slices[k].start) == |st.content|
    ensures k < |st.slices| - 1 ==> |Full(mem, st.slices, k + 1)| == base + (limit - st.slices[k].start) < |st.content|
  {
    var n, s := |st.slices| - 1, st.slices[k];
    if k < n {
      FullPrefixOf(mem, st.slices, k + 1, n);
      assert st.content[..|Full(mem, st.slices, k + 1)|] == Full(mem, st.slices, k + 1);
    }
    PieceIn(st.content, Full(mem, st.slices, k), mem[s.start..limit]);
  }

  lemma Chunk(whole: seq<byte>, piece: seq<byte>, base: nat, x: nat, y: nat)
    requires base + |piece| <= |whole| && whole[base..base + |piece|] == piece && x <= y <= |piece|
    ensures whole[base + x..base + y] == piece[x..y]
  {
    forall i | 0 <= i < y - x ensures whole[base + x..base + y][i] == piece[x..y][i] {
      assert whole[base..base + |piece|][x + i] == piece[x + i];
    }
  }

  /** The test for the last slice: it reaches the end address, and no other one does. */
  lemma FinalTest(mem: seq<byte>, st: Stream, k: nat)
    requires Slices.Holds(mem, st) && k < |st.slices|
    ensures st.slices[k].End() >= st.cursor <==> k == |st.slices| - 1
    ensures k == |st.slices| - 1 ==> st.cursor < st.slices[k].End()
  {
    if k < |st.slices| - 1 {
      Ascend(mem, st.slices, k, |st.slices| - 1);
    }
  }

  class ByteSliceReader {
    const pool: ByteBlockPool
    var bufferUpto: nat
    var upto: nat
    var limit: int
    var level: nat
    var bufferOffset: nat
    const endIndex: nat
    /** The stream that is read, the slice the reader is in, and how many bytes it has read. */
    ghost const st: Stream
    ghost var k: nat
    ghost var pos: nat

    ghost predicate Valid()
      reads this, pool
    {
      && pool.Valid() && Slices.Holds(pool.Mem(), st) && Placed(st, pool.End()) && pool.End() <= |pool.Mem()|
         && endIndex == st.cursor
      && k < |st.slices| && Inside(pool.Mem(), st.slices) && level == st.slices[k].level && InSlice()
    }

    ghost predicate InSlice()
      requires pool.Valid() && k < |st.slices| && Inside(pool.Mem(), st.slices)
      reads this, pool
    {
      && bufferUpto == st.slices[k].start / BYTE_BLOCK_SIZE <= pool.bufferUpto
         && bufferOffset == bufferUpto * BYTE_BLOCK_SIZE
      && upto <= limit <= BYTE_BLOCK_SIZE && bufferOffset + limit == LimitOf(st, k)
      && bufferOffset + upto >= st.slices[k].start
      && pos == |Full(pool.Mem(), st.slices, k)| + (bufferOffset + upto - st.slices[k].start)
    }

    /** `init` on the first address and the cursor of a stream. */
    constructor (pool: ByteBlockPool, startIndex: nat, endIndex: nat, ghost st: Stream)
      requires pool.Valid() && Good(pool.Mem(), pool.End(), st) && pool.End() <= |pool.Mem()|
      requires startIndex == st.slices[0].start && endIndex == st.cursor
      ensures Valid() && pos == 0 && this.st == st && this.pool == pool
    {
      hide Flat, Slices.Holds, Placed, LimitOf;
      GoodPlaced(pool.Mem(), pool.End(), st);
      Entered(pool.Mem(), st, pool.End(), 0);
      NoneBefore(pool.Mem(), st);
      this.pool, this.endIndex, this.st := pool, endIndex, st;
      level := 0;
      bufferUpto := startIndex / BYTE_BLOCK_SIZE;
      bufferOffset := startIndex / BYTE_BLOCK_SIZE * BYTE_BLOCK_SIZE;
      upto := startIndex % BYTE_BLOCK_SIZE;
      limit := if startIndex + FIRST_LEVEL_SIZE >= endIndex then endIndex % BYTE_BLOCK_SIZE
        else startIndex % BYTE_BLOCK_SIZE + FIRST_LEVEL_SIZE - 4;
      k, pos := 0, 0;
    }

    /** `eof`: exactly when the whole content has been read. */
    method Eof() returns (r: bool)
      requires Valid()
      ensures r <==> pos == |st.content|
    {
      PieceOf(pool.Mem(), st, k, |Full(pool.Mem(), st.slices, k)|, LimitOf(st, k));
      FinalTest(pool.Mem(), st, k);
      r := upto + bufferOffset == endIndex;
    }

    /** `next_slice`: follows the forwarding address at the limit. */
    method NextSlice()
      requires Valid() && k < |st.slices| - 1
      modifies this`bufferUpto, this`upto, this`limit, this`level, this`bufferOffset, this`k, this`pos
      ensures Valid() && k == old(k) + 1 && pos == |Full(pool.Mem(), st.slices, k)|
    {
      hide Flat, Full, Slices.Holds, Placed, LimitOf;
      ghost var m := pool.Mem();
      LinkFollows(m, st, k);
      Entered(m, st, pool.End(), k + 1);
      var nextIndex := ReadAddress();
      level := NextLevel(level);
      var newSize := LevelSize(level);
      bufferUpto := nextIndex / BYTE_BLOCK_SIZE;
      bufferOffset := bufferUpto * BYTE_BLOCK_SIZE;
      upto := nextIndex % BYTE_BLOCK_SIZE;
      if nextIndex + newSize >= endIndex {
        limit := endIndex - bufferOffset;
      } else {
        limit := upto + newSize - 4;
      }
      k := k + 1;
      pos := |Full(m, st.slices, k)|;
    }

    method ReadAddress() returns (r: nat)
      requires Valid() && k < |st.slices| - 1
      ensures Inside(pool.Mem(), st.slices) && r == Slices.Address(pool.Mem(), st.slices[k].End() - 4)
    {
      hide Flat, Full, Slices.Holds, Placed;
      LinkFollows(pool.Mem(), st, k);
      SliceBlock(st, pool.End(), k);
      LimitInBlock(st.slices[k].start, LevelSize(st.slices[k].level), bufferUpto, limit);
      r := pool.ByteAt(bufferUpto, limit) * 0x100_0000 + pool.ByteAt(bufferUpto, limit + 1) * 0x1_0000
           + pool.ByteAt(bufferUpto, limit + 2) * 0x100 + pool.ByteAt(bufferUpto, limit + 3);
    }

    /** The next `n` bytes of the slice are the next bytes of the content. */
    method Copy(n: nat) returns (bytes: seq<byte>)
      requires Valid() && upto + n <= limit
      ensures |bytes| == n && pos + n <= |st.content| && bytes == st.content[pos..pos + n]
    {
      hide Flat, Full, Slices.Holds, Placed, LimitOf;
      ChunkOf(pool.Mem(), st, k, |Full(pool.Mem(), st.slices, k)|, bufferOffset + upto, n);
      FlatSlice(pool.buffers, pool.bufferUpto + 1, bufferUpto, upto, upto + n);
      bytes := pool.buffers[bufferUpto][upto..upto + n];
    }

    /** `read`: the next bytes of the stream, however many are asked for at a time. */
    method Read(length: nat) returns (buf: seq<byte>)
      requires Valid() && pos + length <= |st.content|
      modifies this`bufferUpto, this`upto, this`limit, this`level, this`bufferOffset, this`k, this`pos
      ensures Valid() && pos == old(pos) + length && buf == st.content[old(pos)..pos]
    {
      hide Flat, Full, Slices.Holds, Placed;
      buf := [];
      var len := length;
      while len > 0
        invariant Valid() && 0 <= len <= length && pos == old(pos) + (length - len) && buf == st.content[old(pos)..pos]
        decreases len, |st.slices| - k
      {
        var numLeft := limit - upto;
        if numLeft < len {
          LastSliceEnds(pool.Mem(), st, k, |Full(pool.Mem(), st.slices, k)|);
          var bytes := Copy(numLeft);
          Joined(st.content, old(pos), pos, pos + numLeft);
          buf := buf + bytes;
          len := len - numLeft;
          NextSlice();
        } else {
          var bytes := Copy(len);
          Joined(st.content, old(pos), pos, pos + len);
          buf := buf + bytes;
          upto := upto + len;
          pos := pos + len;
          break;
        }
      }
    }
  }

  lemma SubSlice(mem: seq<byte>, start: nat, limit: nat, at: nat, n: nat)
    requires start <= at && at + n <= limit <= |mem|
    ensures mem[start..limit][at - start..at - start + n] == mem[at..at + n]
  {
    var piece := mem[start..limit];
    var l, r := piece[at - start..at - start + n], mem[at..at + n];
    forall i | 0 <= i < n ensures l[i] == r[i] {
      assert piece[at - start + i] == mem[at + i];
    }
  }

  lemma Joined(s: seq<byte>, a: nat, b: nat, c: nat)
    requires a <= b <= c <= |s|
    ensures s[a..b] + s[b..c] == s[a..c]
  {
  }

  lemma ChunkOf(mem: seq<byte>, st: Stream, k: nat, base: nat, at: nat, n: nat)
    requires Slices.Holds(mem, st) && k < |st.slices| && Inside(mem, st.slices) && base == |Full(mem, st.slices, k)|
    requires st.slices[k].start <= at && at + n <= LimitOf(st, k)
    ensures at + n <= |mem| && base + (at - st.slices[k].start) + n <= |st.content|
    ensures st.content[base + (at - st.slices[k].start)..base + (at - st.slices[k].start) + n] == mem[at..at + n]
  {
    hide Slices.Holds, Full;
    var start, limit := st.slices[k].start, LimitOf(st, k);
    PieceOf(mem, st, k, base, limit);
    Chunk(st.content, mem[start..limit], base, at - start, at - start + n);
    SubSlice(mem, start, limit, at, n);
  }

  lemma LastSliceEnds(mem: seq<byte>, st: Stream, k: nat, base: nat)
    requires Slices.Holds(mem, st) && k < |st.slices| && Inside(mem, st.slices) && base == |Full(mem, st.slices, k)|
    ensures k == |st.slices| - 1 ==> base + (LimitOf(st, k) - st.slices[k].start) == |st.content|
    ensures k < |st.slices| - 1 ==> |Full(mem, st.slices, k + 1)| == base + (LimitOf(st, k) - st.slices[k].start)
  {
    PieceOf(mem, st, k, base, LimitOf(st, k));
  }

  lemma LinkFollows(mem: seq<byte>, st: Stream, k: nat)
    requires Slices.Holds(mem, st) && k < |st.slices| - 1
    ensures Inside(mem, st.slices) && Slices.Address(mem, st.slices[k].End() - 4) == st.slices[k + 1].start
    ensures st.slices[k + 1].level == NextLevel(st.slices[k].level)
  {
    assert LinkedAt(mem, st.slices, k);
  }

  lemma NoneBefore(mem: seq<byte>, st: Stream)
    requires Slices.Holds(mem, st)
    ensures Inside(mem, st.slices) && Full(mem, st.slices, 0) == [] && st.slices[0].level == 0
  {
  }

  /** Where a slice lies in its buffer, and where its bytes end there. */
  lemma Entered(mem: seq<byte>, st: Stream, end: int, k: nat)
    requires Slices.Holds(mem, st) && Placed(st, end) && end <= |mem| && k < |st.slices|
    ensures Inside(mem, st.slices) && st.slices[k].start < end
    ensures st.slices[k].End() >= st.cursor <==> k == |st.slices| - 1
    ensures LimitOf(st, k) == if k == |st.slices| - 1 then st.cursor else st.slices[k].End() - 4
    ensures var o := LimitOf(st, k) - st.slices[k].start / BYTE_BLOCK_SIZE * BYTE_BLOCK_SIZE;
            st.slices[k].start % BYTE_BLOCK_SIZE <= o < BYTE_BLOCK_SIZE && o == LimitOf(st, k) % BYTE_BLOCK_SIZE
  {
    hide Slices.Holds, Placed, Full;
    FinalTest(mem, st, k);
    SliceBlock(st, end, k);
    NoneBefore(mem, st);
    PieceOf(mem, st, k, |Full(mem, st.slices, k)|, LimitOf(st, k));
    SplitAddress(st.slices[k].start / BYTE_BLOCK_SIZE,
      LimitOf(st, k) - st.slices[k].start / BYTE_BLOCK_SIZE * BYTE_BLOCK_SIZE);
  }

  lemma LimitInBlock(start: nat, size: nat, block: nat, limit: int)
    requires start % BYTE_BLOCK_SIZE + size <= BYTE_BLOCK_SIZE && size >= 5 && block == start / BYTE_BLOCK_SIZE
    requires block * BYTE_BLOCK_SIZE + limit == start + size - 4
    ensures 0 <= limit && limit + 4 <= BYTE_BLOCK_SIZE
  {
  }

  /** A slice lies in one buffer of the pool. */
  lemma SliceBlock(st: Stream, end: int, k: nat)
    requires Placed(st, end) && k < |st.slices|
    ensures var s := st.slices[k]; s.start % BYTE_BLOCK_SIZE + LevelSize(s.level) <= BYTE_BLOCK_SIZE && s.start < end
  {
    assert InOneBlock(st.slices[k]);
  }

  ghost function Total(chunks: seq<nat>): nat {
    if chunks == [] then 0 else Total(chunks[..|chunks| - 1]) + chunks[|chunks| - 1]
  }

  lemma {:induction false} TotalPrefix(chunks: seq<nat>, i: nat)
    requires i <= |chunks|
    ensures Total(chunks[..i]) <= Total(chunks)
    decreases |chunks|
  {
    if i == |chunks| {
      assert chunks[..i] == chunks;
    } else {
      assert chunks[..|chunks| - 1][..i] == chunks[..i];
      TotalPrefix(chunks[..|chunks| - 1], i);
    }
  }

  /** Whatever was written to the streams and in whatever order, each one is read back as it was
      written, in any chunks. */
  method ReadBack(w: SliceWriter, stream: nat, startIndex: nat, chunks: seq<nat>) returns (bytes: seq<byte>, eof: bool)
    requires w.Valid() && stream < |w.streams| && Total(chunks) <= |w.streams[stream].content|
    requires w.streams[stream].slices != [] && startIndex == w.streams[stream].slices[0].start
    ensures bytes == w.Contents()[stream][..Total(chunks)]
    ensures eof <==> Total(chunks) == |w.Contents()[stream]|
  {
    hide World, Good, Flat, Slices.Holds, Placed, Full, Total, LimitOf;
    ghost var st := w.streams[stream];
    WorldAt(w.pool.Mem(), w.pool.End(), w.streams, stream);
    var reader := new ByteSliceReader(w.pool, startIndex, w.cursors[stream], st);
    bytes := [];
    NothingRead(chunks[..0]);
    for i := 0 to |chunks|
      invariant reader.Valid() && reader.st == st && reader.pool == w.pool && fresh(reader)
      invariant reader.pos == Total(chunks[..i]) <= |st.content| && bytes == st.content[..reader.pos]
    {
      TotalPrefix(chunks, i + 1);
      OneMoreChunk(chunks, i);
      ghost var at := reader.pos;
      var chunk := reader.Read(chunks[i]);
      assert st.content[..at] + st.content[at..reader.pos] == st.content[..reader.pos];
      bytes := bytes + chunk;
    }
    assert chunks[..|chunks|] == chunks;
    eof := reader.Eof();
  }

  lemma NothingRead(chunks: seq<nat>)
    requires chunks == []
    ensures Total(chunks) == 0
  {
  }

  lemma OneMoreChunk(chunks: seq<nat>, i: nat)
    requires i < |chunks|
    ensures Total(chunks[..i + 1]) == Total(chunks[..i]) + chunks[i]
  {
    assert chunks[..i + 1][..i] == chunks[..i];
  }
}
