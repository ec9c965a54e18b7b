/** The paged byte pool (byte_block_pool.rs), and byte strings stored in it with their length. */
module ByteBlockPool {
  import opened BitMath
  import opened Lex
  import opened Wrappers
  import Slices

  const BYTE_BLOCK_SIZE := 32768

  /** A byte string as it is stored: the length in one byte, or in two if it is 128 or more. */
  function EncodeTerm(t: Term): (r: seq<byte>)
    requires |t| < BYTE_BLOCK_SIZE
    ensures 1 <= |r| <= |t| + 2
  {
    if |t| < 128 then [|t|] + t else [128 + |t| % 128, |t| / 128] + t
  }

  /** The stored length: one byte below 128, or the low seven bits with a mark and then the others. */
  lemma StoredLength(t: Term)
    requires |t| < 32768
    ensures var e := EncodeTerm(t);
      if |t| < 128 then e[0] == |t| && e[1..] == t
      else e[0] >= 128 && e[0] as int + 128 * e[1] as int == |t| + 128 && e[2..] == t
  {
  }

  /** Reads the byte string at `pos`; nothing if that runs past the block. */
  function ReadTerm(block: seq<byte>, pos: nat): Option<Term> {
    if pos >= |block| then None
    else if block[pos] < 128 then
      var end := pos + 1 + block[pos];
      if end > |block| then None else Some(block[pos + 1..end])
    else if pos + 1 >= |block| then None
    else
      var end := pos + 2 + (block[pos] as int - 128) + block[pos + 1] as int * 128;
      if end > |block| then None else Some(block[pos + 2..end])
  }

  /** What is read takes its length bytes and as many more from inside of the block. */
  lemma ReadInside(block: seq<byte>, pos: nat)
    ensures ReadTerm(block, pos).Some? <==>
      && pos < |block|
      && if block[pos] < 128 then pos + 1 + block[pos] <= |block|
         else pos + 2 <= |block| && pos + block[pos] as int + 128 * block[pos + 1] as int <= |block| + 126
  {
  }

  /** `block` holds the stored form of `t` at `pos`. */
  ghost predicate Holds(block: seq<byte>, pos: nat, t: Term) {
    |t| < BYTE_BLOCK_SIZE && pos + |EncodeTerm(t)| <= |block| && block[pos..pos + |EncodeTerm(t)|] == EncodeTerm(t)
  }

  /** What is stored is what is read back. */
  lemma ReadEncoded(block: seq<byte>, pos: nat, t: Term)
    requires Holds(block, pos, t)
    ensures ReadTerm(block, pos) == Some(t)
  {
    var e := EncodeTerm(t);
    var b := block[pos..pos + |e|];
    assert b[0] == block[pos];
    if |t| < 128 {
      assert t == e[1..] == b[1..] == block[pos + 1..pos + |e|];
    } else {
      assert b[1] == block[pos + 1];
      assert t == e[2..] == b[2..] == block[pos + 2..pos + |e|];
    }
  }

  /** The term at a pool address: the block is the address divided by the block size. */
  ghost predicate Stores(buffers: seq<seq<byte>>, start: nat, t: Term) {
    start / BYTE_BLOCK_SIZE < |buffers| && Holds(buffers[start / BYTE_BLOCK_SIZE], start % BYTE_BLOCK_SIZE, t)
  }

  /** Both hold the same bytes below offset `fill` of buffer `upto`. */
  ghost predicate SameBelow(b: seq<seq<byte>>, c: seq<seq<byte>>, upto: int, fill: nat) {
    && upto < |b| && upto < |c| && (forall i :: 0 <= i < upto ==> b[i] == c[i])
    && (upto >= 0 ==> fill <= |b[upto]| && fill <= |c[upto]| && b[upto][..fill] == c[upto][..fill])
  }

  lemma HoldsKept(b: seq<byte>, c: seq<byte>, fill: nat, pos: nat, t: Term)
    requires fill <= |b| && fill <= |c| && b[..fill] == c[..fill] && Holds(b, pos, t)
    requires pos + |EncodeTerm(t)| <= fill
    ensures Holds(c, pos, t)
  {
    var end := pos + |EncodeTerm(t)|;
    assert b[pos..end] == b[..fill][pos..end];
    assert c[pos..end] == c[..fill][pos..end];
  }

  /** A stored term stays where it is while only bytes beyond it are written. */
  lemma StoresKept(b: seq<seq<byte>>, c: seq<seq<byte>>, upto: int, fill: nat, start: nat, t: Term)
    requires SameBelow(b, c, upto, fill) && Stores(b, start, t) && fill <= BYTE_BLOCK_SIZE
    requires start + |EncodeTerm(t)| <= upto * BYTE_BLOCK_SIZE + fill
    ensures Stores(c, start, t)
  {
    if start / BYTE_BLOCK_SIZE == upto {
      HoldsKept(b[upto], c[upto], fill, start % BYTE_BLOCK_SIZE, t);
    }
  }

  /** An address splits back into its buffer and its offset. */
  lemma SplitAddress(buffer: nat, offset: nat)
    requires offset < BYTE_BLOCK_SIZE
    ensures (buffer * BYTE_BLOCK_SIZE + offset) / BYTE_BLOCK_SIZE == buffer
    ensures (buffer * BYTE_BLOCK_SIZE + offset) % BYTE_BLOCK_SIZE == offset
  {
  }

  // ----- the pool as one flat memory -----

  ghost predicate Blocks(buffers: seq<seq<byte>>, n: nat) {
    n <= |buffers| && forall i :: 0 <= i < n ==> |buffers[i]| == BYTE_BLOCK_SIZE
  }

  ghost function Flat(buffers: seq<seq<byte>>, n: nat): seq<byte>
    requires n <= |buffers|
  {
    if n == 0 then [] else Flat(buffers, n - 1) + buffers[n - 1]
  }

  lemma {:induction false} FlatSize(buffers: seq<seq<byte>>, n: nat)
    requires Blocks(buffers, n)
    ensures |Flat(buffers, n)| == n * BYTE_BLOCK_SIZE
  {
    if n > 0 { FlatSize(buffers, n - 1); }
  }

  lemma {:induction false} FlatAt(buffers: seq<seq<byte>>, n: nat, b: nat, o: nat)
    requires Blocks(buffers, n) && b < n && o < BYTE_BLOCK_SIZE
    ensures |Flat(buffers, n)| == n * BYTE_BLOCK_SIZE && Flat(buffers, n)[b * BYTE_BLOCK_SIZE + o] == buffers[b][o]
  {
    FlatSize(buffers, n - 1);
    if b < n - 1 {
      FlatAt(buffers, n - 1, b, o);
    }
  }

  lemma {:induction false} FlatSame(buffers: seq<seq<byte>>, other: seq<seq<byte>>, n: nat)
    requires n <= |buffers| && n <= |other| && forall i :: 0 <= i < n ==> buffers[i] == other[i]
    ensures Flat(buffers, n) == Flat(other, n)
  {
    if n > 0 { FlatSame(buffers, other, n - 1); }
  }

  lemma FlatSetHere(front: seq<byte>, block: seq<byte>, o: nat, v: byte)
    requires o < |block|
    ensures front + block[o := v] == (front + block)[|front| + o := v]
  {
  }

  lemma FlatSetBefore(front: seq<byte>, block: seq<byte>, a: nat, v: byte)
    requires a < |front|
    ensures front[a := v] + block == (front + block)[a := v]
  {
  }

  function SetByte(buffers: seq<seq<byte>>, b: nat, o: nat, v: byte): seq<seq<byte>>
    requires b < |buffers| && o < |buffers[b]|
  {
    var block: seq<byte> := buffers[b][o := v];
    buffers[b := block]
  }

  /** Setting one byte of one buffer sets that byte of the memory. */
  lemma {:induction false} FlatSet(buffers: seq<seq<byte>>, n: nat, b: nat, o: nat, v: byte)
    requires Blocks(buffers, n) && b < n && o < BYTE_BLOCK_SIZE
    ensures |Flat(buffers, n)| == n * BYTE_BLOCK_SIZE && b * BYTE_BLOCK_SIZE + o < n * BYTE_BLOCK_SIZE
    ensures Flat(SetByte(buffers, b, o, v), n) == Flat(buffers, n)[b * BYTE_BLOCK_SIZE + o := v]
  {
    FlatSize(buffers, n);
    FlatSize(buffers, n - 1);
    var other := SetByte(buffers, b, o, v);
    if b == n - 1 {
      FlatSame(buffers, other, n - 1);
      FlatSetHere(Flat(buffers, n - 1), buffers[b], o, v);
    } else {
      FlatSet(buffers, n - 1, b, o, v);
      FlatSetBefore(Flat(buffers, n - 1), buffers[n - 1], b * BYTE_BLOCK_SIZE + o, v);
    }
  }

  /** Only bytes at addresses from `from` up to `to` have changed. */
  ghost predicate OnlyBetween(m: seq<byte>, m': seq<byte>, from: int, to: int) {
    |m| == |m'| && forall a :: 0 <= a < |m| && !(from <= a < to) ==> m'[a] == m[a]
  }

  lemma OnlyInBlock(front: seq<byte>, block: seq<byte>, block': seq<byte>, from: nat, to: nat)
    requires |block| == |block'| && from <= to <= |block|
    requires block'[..from] == block[..from] && block'[to..] == block[to..]
    ensures OnlyBetween(front + block, front + block', |front| + from, |front| + to)
  {
    forall o | 0 <= o < |block| && !(from <= o < to) ensures block'[o] == block[o] {
      if o < from {
        assert block'[..from][o] == block[..from][o];
      } else {
        assert block'[to..][o - to] == block[to..][o - to];
      }
    }
  }

  /** Part of the head buffer has been written. */
  lemma HeadReplaced(b: seq<seq<byte>>, c: seq<seq<byte>>, upto: nat, from: nat, to: nat)
    requires Blocks(b, upto + 1) && upto < |c| && |c[upto]| == BYTE_BLOCK_SIZE && from <= to <= BYTE_BLOCK_SIZE
    requires forall i :: 0 <= i < upto ==> c[i] == b[i]
    requires c[upto][..from] == b[upto][..from] && c[upto][to..] == b[upto][to..]
    ensures OnlyBetween(Flat(b, upto + 1), Flat(c, upto + 1), upto * BYTE_BLOCK_SIZE + from,
      upto * BYTE_BLOCK_SIZE + to)
  {
    FlatSame(b, c, upto);
    FlatSize(b, upto);
    OnlyInBlock(Flat(b, upto), b[upto], c[upto], from, to);
  }

  lemma FlatSlice(buffers: seq<seq<byte>>, n: nat, b: nat, from: nat, to: nat)
    requires Blocks(buffers, n) && b < n && from <= to <= BYTE_BLOCK_SIZE
    ensures |Flat(buffers, n)| == n * BYTE_BLOCK_SIZE && b * BYTE_BLOCK_SIZE + to <= n * BYTE_BLOCK_SIZE
    ensures Flat(buffers, n)[b * BYTE_BLOCK_SIZE + from..b * BYTE_BLOCK_SIZE + to] == buffers[b][from..to]
  {
    FlatSize(buffers, n);
    var m, at := Flat(buffers, n), b * BYTE_BLOCK_SIZE;
    forall i | 0 <= i < to - from ensures m[at + from..at + to][i] == buffers[b][from..to][i] {
      FlatAt(buffers, n, b, from + i);
    }
  }

  lemma Spliced(s: seq<byte>, at: nat, e: seq<byte>, r: seq<byte>)
    requires at + |e| <= |s| && r == s[..at] + e + s[at + |e|..]
    ensures |r| == |s| && r[..at] == s[..at] && r[at..at + |e|] == e && r[at + |e|..] == s[at + |e|..]
  {
  }

  /** Writes a term into a block that has room for it; every other byte stays. */
  method WriteInto(block: seq<byte>, at: nat, t: Term) returns (r: seq<byte>, next: nat)
    requires |t| + 2 <= BYTE_BLOCK_SIZE && at + |t| + 2 <= |block|
    ensures next == at + |EncodeTerm(t)| <= |block| == |r|
    ensures r[..at] == block[..at] && r[at..next] == EncodeTerm(t) && r[next..] == block[next..]
  {
    var length := |t|;
    var header: seq<byte> := if length < 128 then [length] else [128 + length % 128, length / 128];
    next := at + |header| + length;
    r := block[..at] + (header + t) + block[next..];
    Spliced(block, at, header + t, r);
  }

  lemma TermStored(b: seq<seq<byte>>, c: seq<seq<byte>>, upto: nat, from: nat, to: nat, t: Term)
    requires upto < |b| && upto < |c| && |b[upto]| == |c[upto]| == BYTE_BLOCK_SIZE && from <= to <= BYTE_BLOCK_SIZE
    requires forall i :: 0 <= i < upto ==> c[i] == b[i]
    requires |t| + 2 <= BYTE_BLOCK_SIZE && to == from + |EncodeTerm(t)|
    requires c[upto][..from] == b[upto][..from] && c[upto][from..to] == EncodeTerm(t)
    ensures Stores(c, upto * BYTE_BLOCK_SIZE + from, t) && SameBelow(b, c, upto, from)
  {
    SplitAddress(upto, from);
  }

  /** What a reset leaves of the first buffer: on request its first `used` bytes are zeroed. */
  function ResetFirst(block: seq<byte>, zeroFill: bool, used: nat): seq<byte>
    requires used <= |block|
  {
    if zeroFill then seq(used, _ => 0) + block[used..] else block
  }

  class ByteBlockPool {
    var buffers: seq<seq<byte>>
    /** Index of the buffer at the head, -1 if there is none yet. */
    var bufferUpto: int
    /** Where the head buffer is filled up to. */
    var byteUpto: nat
    /** The address of the first byte of the head buffer. */
    var byteOffset: int

    ghost predicate Valid()
      reads this
    {
      && -1 <= bufferUpto < |buffers| && byteOffset == bufferUpto * BYTE_BLOCK_SIZE
      && byteUpto <= BYTE_BLOCK_SIZE && (bufferUpto == -1 ==> byteUpto == BYTE_BLOCK_SIZE)
      && (forall i :: 0 <= i <= bufferUpto ==> |buffers[i]| == BYTE_BLOCK_SIZE)
      && (forall i :: bufferUpto < i < |buffers| ==> buffers[i] == [])
    }

    /** The first address that is not in use. */
    function End(): int
      reads this
    {
      byteOffset + byteUpto
    }

    constructor ()
      ensures Valid() && bufferUpto == -1 && End() == 0 && |buffers| == 10
    {
      buffers := seq(10, _ => []);
      bufferUpto, byteUpto, byteOffset := -1, BYTE_BLOCK_SIZE, -BYTE_BLOCK_SIZE;
    }

    /** Moves on to a fresh buffer of zeros. */
    method NextBuffer()
      requires Valid()
      modifies this
      ensures Valid() && bufferUpto == old(bufferUpto) + 1 && byteUpto == 0
        && byteOffset == bufferUpto * BYTE_BLOCK_SIZE
      ensures SameBelow(old(buffers), buffers, old(bufferUpto), old(byteUpto))
      ensures Mem() == old(Mem()) + seq(BYTE_BLOCK_SIZE, _ => 0)
    {
      ghost var was := buffers;
      var idx := bufferUpto + 1;
      if idx == |buffers| {
        buffers := buffers + [seq(BYTE_BLOCK_SIZE, _ => 0)];
      } else {
        buffers := buffers[idx := seq(BYTE_BLOCK_SIZE, _ => 0)];
      }
      FlatSame(was, buffers, idx);
      bufferUpto := bufferUpto + 1;
      byteUpto := 0;
      byteOffset := byteOffset + BYTE_BLOCK_SIZE;
    }

    /** `reset`: releases the buffers, on request all but the first and on request after zeroing what
        was used; a pool without a buffer stays as it is. */
    method Reset(zeroFill: bool, reuseFirst: bool)
      requires Valid()
      modifies this
      ensures Valid() && |buffers| == old(|buffers|)
      ensures old(bufferUpto) == -1 || !reuseFirst ==>
        bufferUpto == -1 && End() == 0 && forall i :: 0 <= i < |buffers| ==> buffers[i] == []
      ensures old(bufferUpto) >= 0 && reuseFirst ==>
        && bufferUpto == 0 && byteUpto == 0 && (forall i :: 1 <= i < |buffers| ==> buffers[i] == [])
        && buffers[0] == ResetFirst(old(buffers[0]), zeroFill, if old(bufferUpto) > 0 then BYTE_BLOCK_SIZE
           else old(byteUpto))
    {
      if bufferUpto > -1 {
        if zeroFill {
          ZeroFill();
        }
        if bufferUpto > 0 || !reuseFirst {
          Release(if reuseFirst then 1 else 0);
        }
        if reuseFirst {
          bufferUpto, byteUpto, byteOffset := 0, 0, 0;
        } else {
          bufferUpto, byteUpto, byteOffset := -1, BYTE_BLOCK_SIZE, -BYTE_BLOCK_SIZE;
        }
      }
    }

    /** Zeroes all full buffers, and the head buffer as far as it is filled. */
    method ZeroFill()
      requires Valid() && bufferUpto >= 0
      modifies this`buffers
      ensures Valid() && |buffers| == old(|buffers|)
      ensures buffers[0] == ResetFirst(old(buffers[0]), true, if bufferUpto > 0 then BYTE_BLOCK_SIZE else byteUpto)
    {
      ghost var was := buffers;
      for i := 0 to bufferUpto
        invariant Valid() && |buffers| == |was| && (i == 0 ==> buffers == was)
        invariant i > 0 ==> buffers[0] == seq(BYTE_BLOCK_SIZE, _ => 0)
      {
        buffers := buffers[i := seq(BYTE_BLOCK_SIZE, _ => 0)];
      }
      buffers := buffers[bufferUpto := ResetFirst(buffers[bufferUpto], true, byteUpto)];
    }

    /** Releases the buffers in use from `from` on. */
    method Release(from: nat)
      requires Valid() && from <= bufferUpto + 1
      modifies this`buffers
      ensures |buffers| == old(|buffers|) && (forall i :: 0 <= i < from ==> buffers[i] == old(buffers)[i])
      ensures forall i :: from <= i < |buffers| ==> buffers[i] == []
    {
      for i := from to 1 + bufferUpto
        invariant |buffers| == old(|buffers|) && (forall k :: 0 <= k < from ==> buffers[k] == old(buffers)[k])
        invariant forall k :: from <= k < i || bufferUpto < k < |buffers| ==> buffers[k] == []
      {
        buffers := buffers[i := []];
      }
    }

    /** Appends the stored form of a term to the head buffer. */
    method WriteTerm(t: Term) returns (start: nat)
      requires Valid() && bufferUpto >= 0 && |t| + 2 + byteUpto <= BYTE_BLOCK_SIZE
      modifies this
      ensures Valid() && bufferUpto == old(bufferUpto) && byteOffset == old(byteOffset)
      ensures start == old(End()) && End() == start + |EncodeTerm(t)|
      ensures Stores(buffers, start, t)
      ensures SameBelow(old(buffers), buffers, bufferUpto, old(byteUpto))
      ensures OnlyBetween(old(Mem()), Mem(), start, End())
    {
      hide Flat, OnlyBetween, SameBelow, Stores, EncodeTerm;
      start := byteUpto + byteOffset;
      ghost var was := buffers;
      var head, next := WriteInto(buffers[bufferUpto], byteUpto, t);
      buffers := buffers[bufferUpto := head];
      HeadReplaced(was, buffers, bufferUpto, byteUpto, next);
      TermStored(was, buffers, bufferUpto, byteUpto, next, t);
      byteUpto := next;
    }

    /** All buffers in use, as one memory. */
    ghost function Mem(): (m: seq<byte>)
      requires Valid()
      reads this
      ensures |m| == (bufferUpto + 1) * BYTE_BLOCK_SIZE
    {
      FlatSize(buffers, bufferUpto + 1);
      Flat(buffers, bufferUpto + 1)
    }

    /** What is not in use is zero. */
    ghost predicate Clean()
      requires Valid()
      reads this
    {
      forall a :: End() <= a < |Mem()| ==> Mem()[a] == 0
    }

    method Put(b: nat, o: nat, v: byte)
      requires Valid() && b <= bufferUpto && o < BYTE_BLOCK_SIZE
      modifies this`buffers
      ensures Valid() && b * BYTE_BLOCK_SIZE + o < |old(Mem())| && Mem() == old(Mem())[b * BYTE_BLOCK_SIZE + o := v]
    {
      FlatSet(buffers, bufferUpto + 1, b, o, v);
      buffers := SetByte(buffers, b, o, v);
    }

    function ByteAt(b: nat, o: nat): (v: byte)
      requires Valid() && b <= bufferUpto && o < BYTE_BLOCK_SIZE
      reads this
      ensures b * BYTE_BLOCK_SIZE + o < |Mem()| && v == Mem()[b * BYTE_BLOCK_SIZE + o]
    {
      FlatAt(buffers, bufferUpto + 1, b, o);
      buffers[b][o]
    }

    /** Moves on to a fresh buffer if the head has no room for `size` more bytes. */
    /** The address that the next `size` bytes get: the head, or the next buffer if they do not fit. */
    ghost function RoomAt(size: nat): int
      reads this
    {
      if byteUpto + size <= BYTE_BLOCK_SIZE then End() else (bufferUpto + 1) * BYTE_BLOCK_SIZE
    }

    method EnsureRoom(size: nat)
      requires Valid() && Clean() && 0 < size <= BYTE_BLOCK_SIZE
      modifies this
      ensures Valid() && Clean() && bufferUpto >= 0 && byteUpto + size <= BYTE_BLOCK_SIZE
      ensures old(End()) <= End() == old(RoomAt(size)) <= old(End()) + BYTE_BLOCK_SIZE
      ensures old(byteUpto) + size <= BYTE_BLOCK_SIZE ==> bufferUpto == old(bufferUpto) && byteUpto == old(byteUpto)
      ensures |Mem()| >= |old(Mem())| && Mem()[..|old(Mem())|] == old(Mem())
    {
      if byteUpto > BYTE_BLOCK_SIZE - size {
        NextBuffer();
      }
    }

    /** `new_slice`: a slice of zeros with the mark of the first level at its end. */
    method NewSlice(size: nat) returns (upto: nat)
      requires Valid() && Clean() && 0 < size <= BYTE_BLOCK_SIZE
      modifies this
      ensures Valid() && Clean() && bufferUpto >= 0 && upto + size == byteUpto
      ensures upto + byteOffset == old(RoomAt(size)) >= old(End())
      ensures Slices.SliceMade(old(Mem()), Mem(), upto + byteOffset, size)
      ensures old(byteUpto) + size <= BYTE_BLOCK_SIZE ==> bufferUpto == old(bufferUpto) && upto == old(byteUpto)
    {
      EnsureRoom(size);
      upto := byteUpto;
      byteUpto := byteUpto + size;
      Put(bufferUpto, byteUpto - 1, 16);
    }

    /** The three bytes before a mark move to the slice at the end of the pool. */
    method CopyForward(sliceIndex: nat, upto: nat, newUpto: nat)
      requires Valid() && sliceIndex <= bufferUpto && 3 <= upto < BYTE_BLOCK_SIZE && newUpto + 3 <= BYTE_BLOCK_SIZE
      requires sliceIndex * BYTE_BLOCK_SIZE + upto < byteOffset + newUpto
      modifies this`buffers
      ensures Valid()
      ensures var at, start := sliceIndex * BYTE_BLOCK_SIZE + upto, byteOffset + newUpto;
              && start + 3 <= |Mem()| == |old(Mem())| && Mem()[start..start + 3] == old(Mem())[at - 3..at]
              && forall a :: 0 <= a < |Mem()| && !(start <= a < start + 3) ==> Mem()[a] == old(Mem())[a]
    {
      ghost var m := Mem();
      Put(bufferUpto, newUpto, ByteAt(sliceIndex, upto - 3));
      Put(bufferUpto, newUpto + 1, ByteAt(sliceIndex, upto - 2));
      Put(bufferUpto, newUpto + 2, ByteAt(sliceIndex, upto - 1));
      ghost var at, start := sliceIndex * BYTE_BLOCK_SIZE + upto, byteOffset + newUpto;
      assert Mem() == m[start := m[at - 3]][start + 1 := m[at - 2]][start + 2 := m[at - 1]];
      Slices.ThreeCopied(m, Mem(), at, start);
    }

    /** The forwarding address, most significant byte first. */
    method WriteAddress(sliceIndex: nat, upto: nat, address: nat)
      requires Valid() && sliceIndex <= bufferUpto && 3 <= upto < BYTE_BLOCK_SIZE
      modifies this`buffers
      ensures Valid()
      ensures var at := sliceIndex * BYTE_BLOCK_SIZE + upto;
              && at < |Mem()| == |old(Mem())| && Mem()[at - 3..at + 1] == Slices.BigEndian(address)
              && forall a :: 0 <= a < |Mem()| && !(at - 3 <= a <= at) ==> Mem()[a] == old(Mem())[a]
    {
      ghost var m, at := Mem(), sliceIndex * BYTE_BLOCK_SIZE + upto;
      Put(sliceIndex, upto - 3, address / 0x100_0000 % 0x100);
      Put(sliceIndex, upto - 2, address / 0x1_0000 % 0x100);
      Put(sliceIndex, upto - 1, address / 0x100 % 0x100);
      Put(sliceIndex, upto, address % 0x100);
      Slices.FourSet(m, Mem(), at - 3, Slices.BigEndian(address));
    }

    /** Moves the bytes, writes the address and sets the new mark, for a slice at the end of the pool. */
    method LinkSlice(sliceIndex: nat, upto: nat, newUpto: nat, newLevel: nat, ghost m0: seq<byte>)
      requires Valid() && sliceIndex <= bufferUpto && 3 <= upto < BYTE_BLOCK_SIZE && newLevel < 10
      requires byteUpto == newUpto + Slices.LevelSize(newLevel)
        && sliceIndex * BYTE_BLOCK_SIZE + upto < byteOffset + newUpto
      requires forall a :: byteOffset + newUpto <= a < |Mem()| ==> Mem()[a] == 0
      requires sliceIndex * BYTE_BLOCK_SIZE + upto < |m0| <= |Mem()| && Mem()[..|m0|] == m0
      modifies this`buffers
      ensures Valid() && Clean()
      ensures Slices.AllocStep(m0, Mem(), sliceIndex * BYTE_BLOCK_SIZE + upto,
        Slices.Slice(byteOffset + newUpto, newLevel))
    {
      hide Flat, Slices.AllocStep, Slices.BigEndian;
      ghost var m1, at := Mem(), sliceIndex * BYTE_BLOCK_SIZE + upto;
      CopyForward(sliceIndex, upto, newUpto);
      ghost var m2 := Mem();
      WriteAddress(sliceIndex, upto, newUpto + byteOffset);
      ghost var m3 := Mem();
      Put(bufferUpto, byteUpto - 1, 16 + newLevel);
      ghost var next := Slices.Slice(byteOffset + newUpto, newLevel);
      Slices.AllocParts(m0, m1, m2, m3, Mem(), at, next);
    }

    /** `alloc_slice`: a slice of the next level for the one whose mark is at `upto`. */
    method AllocSlice(sliceIndex: nat, upto: nat) returns (offset: nat)
      requires Valid() && Clean() && sliceIndex <= bufferUpto && 3 <= upto < BYTE_BLOCK_SIZE
      requires sliceIndex * BYTE_BLOCK_SIZE + upto < End() && 16 <= ByteAt(sliceIndex, upto) < 26
      modifies this
      ensures Valid() && Clean() && bufferUpto >= 0 && 3 <= offset <= BYTE_BLOCK_SIZE
      ensures var at := sliceIndex * BYTE_BLOCK_SIZE + upto;
              var next := Slices.Slice(byteOffset + offset - 3, Slices.NextLevel(old(ByteAt(sliceIndex, upto)) - 16));
              && next.start == old(RoomAt(Slices.LevelSize(Slices.NextLevel(ByteAt(sliceIndex, upto) - 16))))
              && old(End()) <= next.start <= old(End()) + BYTE_BLOCK_SIZE && End() == next.End()
              && Slices.AllocStep(old(Mem()), Mem(), at, next)
    {
      hide Flat, Slices.AllocStep, Slices.LevelSize;
      ghost var m0 := Mem();
      var level := ByteAt(sliceIndex, upto) % 16;
      var newLevel := Slices.NextLevel(level);
      EnsureRoom(Slices.LevelSize(newLevel));
      var newUpto := byteUpto;
      byteUpto := byteUpto + Slices.LevelSize(newLevel);
      LinkSlice(sliceIndex, upto, newUpto, newLevel, m0);
      offset := newUpto + 3;
    }
  }
}
