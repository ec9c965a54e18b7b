/** Chains of byte slices (byte_block_pool.rs): what a stream of bytes looks like in the flat
    memory of a pool, and what allocating and writing do to it. */
module Slices {
  import opened BitMath

  /** The level that follows, capped at the last one. */
  function NextLevel(level: nat): (r: nat)
    ensures level < 10 ==> r < 10
  {
    if level < 9 then level + 1 else 9
  }

  /** The slice lengths by level. */
  function LevelSize(level: nat): (r: nat)
    ensures 5 <= r <= 120
  {
    match level
    case 0 => 5
    case 1 => 14
    case 2 => 20
    case 3 => 30
    case 4 => 40
    case 5 => 40
    case 6 => 80
    case 7 => 80
    case _ => 120
  }

  datatype Slice = Slice(start: nat, level: nat) {
    function End(): nat {
      start + LevelSize(level)
    }
  }

  /** One stream: its slices, the address of the next byte, and the bytes written so far. */
  datatype Stream = Stream(slices: seq<Slice>, cursor: nat, content: seq<byte>) {
    function Last(): Slice
      requires slices != []
    {
      slices[|slices| - 1]
    }
  }

  // ----- forwarding addresses -----

  function BigEndian(x: nat): (r: seq<byte>) {
    [x / 0x100_0000 % 0x100, x / 0x1_0000 % 0x100, x / 0x100 % 0x100, x % 0x100]
  }

  function Address(mem: seq<byte>, at: nat): nat
    requires at + 4 <= |mem|
  {
    mem[at] as nat * 0x100_0000 + mem[at + 1] as nat * 0x1_0000 + mem[at + 2] as nat * 0x100 + mem[at + 3] as nat
  }

  /** The most significant byte comes first. */
  lemma AddressOrder()
    ensures BigEndian(0x0102_0304) == [1, 2, 3, 4] && Address([1, 2, 3, 4], 0) == 0x0102_0304
  {
  }

  lemma AddressRoundTrip(mem: seq<byte>, at: nat, x: nat)
    requires at + 4 <= |mem| && x < 0x1_0000_0000 && mem[at..at + 4] == BigEndian(x)
    ensures Address(mem, at) == x
  {
    var b := mem[at..at + 4];
    assert b[0] == mem[at] && b[1] == mem[at + 1] && b[2] == mem[at + 2] && b[3] == mem[at + 3];
    assert x / 0x100_0000 % 0x100 == x / 0x100_0000;
    var h := x / 0x100;
    assert x == h * 0x100 + x % 0x100;
    assert h == h / 0x100 * 0x100 + h % 0x100;
    assert h / 0x100 == x / 0x1_0000;
  }

  // ----- what a chain looks like -----

  /** A slice that is full: its last four bytes lead to the next one, which lies beyond it. */
  ghost predicate Linked(mem: seq<byte>, s: Slice, next: Slice) {
    && next.level == NextLevel(s.level) && s.End() <= next.start && s.End() <= |mem|
    && Address(mem, s.End() - 4) == next.start
  }

  /** The slice that is being filled: its mark is in place, and what is not written is zero. */
  ghost predicate Filling(mem: seq<byte>, s: Slice, cursor: nat) {
    && s.End() <= |mem| && s.start <= cursor < s.End() && mem[s.End() - 1] == 16 + s.level
    && forall a :: cursor <= a < s.End() - 1 ==> mem[a] == 0
  }

  ghost predicate Inside(mem: seq<byte>, slices: seq<Slice>) {
    forall p :: 0 <= p < |slices| ==> slices[p].level < 10 && slices[p].start + LevelSize(slices[p].level) <= |mem|
  }

  ghost predicate LinkedAt(mem: seq<byte>, slices: seq<Slice>, p: nat) {
    p + 1 < |slices| && Linked(mem, slices[p], slices[p + 1])
  }

  ghost predicate Chained(mem: seq<byte>, slices: seq<Slice>) {
    && slices != [] && slices[0].level == 0 && Inside(mem, slices)
    && (forall p: nat :: p < |slices| - 1 ==> LinkedAt(mem, slices, p))
  }

  /** The bytes of the first `n` slices, without their forwarding addresses. */
  ghost function Full(mem: seq<byte>, slices: seq<Slice>, n: nat): seq<byte>
    requires n <= |slices| && Inside(mem, slices)
  {
    if n == 0 then []
    else
      var s := slices[n - 1];
      Full(mem, slices, n - 1) + mem[s.start..s.End() - 4]
  }

  // ----- how long slices are -----

  /** The lengths of the slices of a chain; those behind the table are as long as its last entry. */
  ghost function Length(p: nat): nat {
    var lengths := [5, 14, 20, 30, 40, 40, 80, 80, 120, 120];
    if p < 10 then lengths[p] else 120
  }

  /** Slices get longer along a chain, by ten levels. */
  lemma {:induction false} ChainLevel(mem: seq<byte>, slices: seq<Slice>, p: nat)
    requires Chained(mem, slices) && p < |slices|
    ensures slices[p].level == (if p < 9 then p else 9) && slices[p].End() - slices[p].start == Length(p)
  {
    if p > 0 {
      ChainLevel(mem, slices, p - 1);
      assert LinkedAt(mem, slices, p - 1);
    }
  }

  /** The number of bytes of the first `n` slices. */
  ghost function Taken(slices: seq<Slice>, n: nat): nat
    requires n <= |slices|
  {
    if n == 0 then 0 else Taken(slices, n - 1) + (slices[n - 1].End() - slices[n - 1].start)
  }

  ghost function FirstTaken(n: nat): nat
    requires n <= 10
  {
    [0, 5, 19, 39, 69, 109, 149, 229, 309, 429, 549][n]
  }

  /** What a chain of `n` slices takes, and how much of it is not addresses. */
  lemma {:induction false} ChainTaken(mem: seq<byte>, slices: seq<Slice>, n: nat)
    requires Chained(mem, slices) && n <= |slices|
    ensures Taken(slices, n) == if n <= 10 then FirstTaken(n) else 549 + 120 * (n - 10)
    ensures |Full(mem, slices, n)| == Taken(slices, n) - 4 * n
  {
    if n > 0 {
      ChainTaken(mem, slices, n - 1);
      ChainLevel(mem, slices, n - 1);
      if n <= 10 {
        FirstStep(n);
      }
    }
  }

  lemma FirstStep(n: nat)
    requires 0 < n <= 10
    ensures FirstTaken(n) == FirstTaken(n - 1) + Length(n - 1)
  {
    var all := [0, 5, 19, 39, 69, 109, 149, 229, 309, 429, 549];
    assert all[n] == FirstTaken(n) && all[n - 1] == FirstTaken(n - 1);
  }

  lemma FirstDoubled(n: nat)
    requires 0 < n <= 10
    ensures FirstTaken(n) <= 2 * (FirstTaken(n - 1) - 4 * (n - 1)) + 17
  {
    var all := [0, 5, 19, 39, 69, 109, 149, 229, 309, 429, 549];
    assert all[n] == FirstTaken(n) && all[n - 1] == FirstTaken(n - 1);
  }

  /** The stream is in memory: its slices are chained, and give its content. */
  ghost predicate Written(mem: seq<byte>, st: Stream) {
    && Chained(mem, st.slices) && Filling(mem, st.Last(), st.cursor)
    && st.content == Full(mem, st.slices, |st.slices| - 1) + mem[st.Last().start..st.cursor]
  }

  /** A slice after the first holds the three bytes that were moved there, and `more` of its own. */
  ghost predicate Begun(st: Stream, more: nat) {
    st.slices != [] && (|st.slices| > 1 ==> st.cursor >= st.Last().start + 3 + more)
  }

  ghost predicate Holds(mem: seq<byte>, st: Stream) {
    Written(mem, st) && Begun(st, 1)
  }

  /** How many bytes of content the first `n` slices of a chain hold. */
  ghost function Room(n: nat): int {
    (if n <= 10 then FirstTaken(n) else 549 + 120 * (n - 10)) - 4 * n
  }

  /** The number of slices of a stream follows from its length: three bytes go over to a new slice
      with the byte that needs it. */
  lemma SliceCount(mem: seq<byte>, st: Stream)
    requires Holds(mem, st)
    ensures |st.slices| == 1 || Room(|st.slices| - 1) + 4 <= |st.content|
    ensures |st.content| <= Room(|st.slices|) + 3
  {
    var n := |st.slices|;
    ChainTaken(mem, st.slices, n);
    ChainTaken(mem, st.slices, n - 1);
    ChainLevel(mem, st.slices, n - 1);
  }

  /** A stream of `n` bytes takes at most `2 * n + 9` bytes of the pool. */
  lemma PoolUse(mem: seq<byte>, st: Stream)
    requires Holds(mem, st)
    ensures Taken(st.slices, |st.slices|) <= 2 * |st.content| + 9
  {
    var n := |st.slices|;
    ChainTaken(mem, st.slices, n);
    SliceCount(mem, st);
    if n <= 10 {
      FirstDoubled(n);
    }
  }

  // ----- memory that changes elsewhere -----

  /** Both have the same bytes in the slice. */
  ghost predicate SameIn(mem: seq<byte>, mem': seq<byte>, s: Slice) {
    s.End() <= |mem| <= |mem'| && forall a :: s.start <= a < s.End() ==> mem[a] == mem'[a]
  }

  lemma LinkedKept(mem: seq<byte>, mem': seq<byte>, slices: seq<Slice>, p: nat)
    requires LinkedAt(mem, slices, p) && SameIn(mem, mem', slices[p])
    ensures LinkedAt(mem', slices, p)
  {
    var at := slices[p].End() - 4;
    assert mem[at] == mem'[at] && mem[at + 1] == mem'[at + 1] && mem[at + 2] == mem'[at + 2]
      && mem[at + 3] == mem'[at + 3];
  }

  lemma {:induction false} FullKept(mem: seq<byte>, mem': seq<byte>, slices: seq<Slice>, n: nat)
    requires n <= |slices| && Inside(mem, slices) && Inside(mem', slices)
    requires forall p :: 0 <= p < n ==> SameIn(mem, mem', slices[p])
    ensures Full(mem, slices, n) == Full(mem', slices, n)
  {
    if n > 0 {
      var s := slices[n - 1];
      FullKept(mem, mem', slices, n - 1);
      assert SameIn(mem, mem', s);
      assert mem[s.start..s.End() - 4] == mem'[s.start..s.End() - 4];
    }
  }

  lemma ChainedKept(mem: seq<byte>, mem': seq<byte>, slices: seq<Slice>)
    requires Chained(mem, slices) && |mem| <= |mem'|
    requires forall p :: 0 <= p < |slices| - 1 ==> SameIn(mem, mem', slices[p])
    ensures Chained(mem', slices) && Full(mem', slices, |slices| - 1) == Full(mem, slices, |slices| - 1)
  {
    forall p: nat | p < |slices| - 1 ensures LinkedAt(mem', slices, p) {
      LinkedKept(mem, mem', slices, p);
    }
    FullKept(mem, mem', slices, |slices| - 1);
  }

  /** A stream does not notice writes outside its slices. */
  lemma HoldsKept(mem: seq<byte>, mem': seq<byte>, st: Stream)
    requires Holds(mem, st) && forall p :: 0 <= p < |st.slices| ==> SameIn(mem, mem', st.slices[p])
    ensures Holds(mem', st)
  {
    var last := st.Last();
    assert SameIn(mem, mem', last);
    ChainedKept(mem, mem', st.slices);
    assert mem[last.start..st.cursor] == mem'[last.start..st.cursor];
  }

  // ----- writing -----

  /** The cursor is at the end of its slice exactly if the byte there is not zero. */
  lemma AtMark(mem: seq<byte>, s: Slice, cursor: nat)
    requires Filling(mem, s, cursor)
    ensures mem[cursor] != 0 <==> cursor == s.End() - 1
  {
  }

  /** The slices of one stream lie one after the other. */
  lemma {:induction false} Ascend(mem: seq<byte>, slices: seq<Slice>, p: nat, q: nat)
    requires Chained(mem, slices) && p < q < |slices|
    ensures slices[p].End() <= slices[q].start
    decreases q
  {
    assert LinkedAt(mem, slices, q - 1);
    if p < q - 1 {
      Ascend(mem, slices, p, q - 1);
    }
  }

  ghost function PutByte(st: Stream, b: byte): Stream {
    Stream(st.slices, st.cursor + 1, st.content + [b])
  }

  lemma SameBefore(mem: seq<byte>, mem': seq<byte>, slices: seq<Slice>, p: nat)
    requires Chained(mem, slices) && |mem| <= |mem'| && p < |slices| - 1
    requires forall a :: 0 <= a < slices[|slices| - 1].start && a < |mem| ==> mem[a] == mem'[a]
    ensures SameIn(mem, mem', slices[p])
  {
    Ascend(mem, slices, p, |slices| - 1);
  }

  lemma AllSameBefore(mem: seq<byte>, mem': seq<byte>, slices: seq<Slice>)
    requires Chained(mem, slices) && |mem| <= |mem'|
    requires forall a :: 0 <= a < slices[|slices| - 1].start && a < |mem| ==> mem[a] == mem'[a]
    ensures forall p :: 0 <= p < |slices| - 1 ==> SameIn(mem, mem', slices[p])
  {
    forall p | 0 <= p < |slices| - 1 ensures SameIn(mem, mem', slices[p]) {
      SameBefore(mem, mem', slices, p);
    }
  }

  /** Writing a byte over the zero at the cursor appends it to the stream. */
  lemma BytePut(mem: seq<byte>, st: Stream, b: byte)
    requires Written(mem, st) && Begun(st, 0) && mem[st.cursor] == 0
    ensures Holds(mem[st.cursor := b], PutByte(st, b))
  {
    hide Chained, Full;
    ChainedLast(mem, st.slices);
    var last, mem' := st.Last(), mem[st.cursor := b];
    AtMark(mem, last, st.cursor);
    AllSameBefore(mem, mem', st.slices);
    ChainedKept(mem, mem', st.slices);
    assert mem'[last.start..st.cursor + 1] == mem[last.start..st.cursor] + [b];
  }

  lemma ChainedLast(mem: seq<byte>, slices: seq<Slice>)
    requires Chained(mem, slices)
    ensures slices != [] && Inside(mem, slices)
  {
  }

  // ----- allocating -----

  /** `alloc_slice` at the mark `at`: the three bytes before it move to the new slice, and they and
      the mark are overwritten by the address of the new slice. */
  ghost predicate AllocStep(mem: seq<byte>, mem': seq<byte>, at: nat, next: Slice) {
    && 3 <= at < |mem| <= |mem'| && next.End() <= |mem'| && at < next.start
    && (forall a :: 0 <= a < |mem| && !(at - 3 <= a <= at) && !(next.start <= a < next.End()) ==> mem'[a] == mem[a])
    && mem'[at - 3..at + 1] == BigEndian(next.start)
    && mem'[next.start..next.start + 3] == mem[at - 3..at]
    && mem'[next.End() - 1] == 16 + next.level
    && (forall a :: next.start + 3 <= a < next.End() - 1 ==> mem'[a] == 0)
  }

  ghost function Grow(st: Stream, next: Slice): Stream {
    Stream(st.slices + [next], next.start + 3, st.content)
  }

  lemma AllocBefore(mem: seq<byte>, mem': seq<byte>, st: Stream, next: Slice, p: nat)
    requires Written(mem, st) && st.cursor == st.Last().End() - 1 && AllocStep(mem, mem', st.cursor, next)
    requires st.Last().End() <= next.start && p < |st.slices| - 1
    ensures SameIn(mem, mem', st.slices[p])
  {
    Ascend(mem, st.slices, p, |st.slices| - 1);
  }

  lemma AllocLinked(mem: seq<byte>, mem': seq<byte>, st: Stream, next: Slice)
    requires Written(mem, st) && st.cursor == st.Last().End() - 1 && AllocStep(mem, mem', st.cursor, next)
    requires st.Last().End() <= next.start < 0x1_0000_0000 && next.level == NextLevel(st.Last().level)
    ensures Chained(mem', st.slices + [next])
  {
    var slices, at := st.slices, st.cursor;
    var slices' := slices + [next];
    assert Inside(mem', slices');
    AddressRoundTrip(mem', at - 3, next.start);
    forall p: nat | p < |slices'| - 1 ensures LinkedAt(mem', slices', p) {
      if p < |slices| - 1 {
        AllocBefore(mem, mem', st, next, p);
        LinkedKept(mem, mem', slices, p);
        assert LinkedAt(mem', slices, p);
      }
    }
  }

  lemma {:induction false} FullPrefix(mem: seq<byte>, slices: seq<Slice>, more: seq<Slice>, n: nat)
    requires n <= |slices| <= |more| && Inside(mem, slices) && Inside(mem, more) && slices == more[..|slices|]
    ensures Full(mem, slices, n) == Full(mem, more, n)
  {
    if n > 0 { FullPrefix(mem, slices, more, n - 1); }
  }

  lemma MovedBytes(mem: seq<byte>, mem': seq<byte>, at: nat, next: Slice, from: nat, head: seq<byte>, tail: seq<byte>)
    requires AllocStep(mem, mem', at, next) && from <= at - 3 && at < next.start
    requires head == mem'[from..at - 3] && tail == mem'[next.start..next.start + 3]
    ensures head + tail == mem[from..at]
  {
    assert head == mem[from..at - 3];
    assert mem[from..at] == mem[from..at - 3] + mem[at - 3..at];
  }

  lemma AllocContent(mem: seq<byte>, mem': seq<byte>, st: Stream, next: Slice)
    requires Written(mem, st) && st.cursor == st.Last().End() - 1 && AllocStep(mem, mem', st.cursor, next)
    requires st.Last().End() <= next.start && Inside(mem', st.slices + [next])
    ensures Full(mem', st.slices + [next], |st.slices|) + mem'[next.start..next.start + 3] == st.content
  {
    var slices, last, at := st.slices, st.Last(), st.cursor;
    var slices', n := slices + [next], |slices| - 1;
    forall p | 0 <= p < n ensures SameIn(mem, mem', slices[p]) {
      AllocBefore(mem, mem', st, next, p);
    }
    FullKept(mem, mem', slices, n);
    FullPrefix(mem', slices, slices', n);
    var front, head, tail := Full(mem', slices', n), mem'[last.start..at - 3], mem'[next.start..next.start + 3];
    MovedBytes(mem, mem', at, next, last.start, head, tail);
    assert front + head + tail == front + (head + tail);
  }

  /** Allocating a slice changes neither the content of the stream nor its earlier slices. */
  lemma Allocated(mem: seq<byte>, mem': seq<byte>, st: Stream, next: Slice)
    requires Written(mem, st) && st.cursor == st.Last().End() - 1 && AllocStep(mem, mem', st.cursor, next)
    requires st.Last().End() <= next.start < 0x1_0000_0000 && next.level == NextLevel(st.Last().level)
    ensures Written(mem', Grow(st, next)) && Begun(Grow(st, next), 0)
  {
    AllocLinked(mem, mem', st, next);
    AllocContent(mem, mem', st, next);
  }

  /** `new_slice`: zeros up to the mark, and nothing else has changed. */
  ghost predicate SliceMade(mem: seq<byte>, mem': seq<byte>, start: nat, size: nat) {
    && |mem| <= |mem'| && 0 < size && start + size <= |mem'| && mem'[start + size - 1] == 16
    && (forall a :: start <= a < start + size - 1 ==> mem'[a] == 0)
    && (forall a :: 0 <= a < |mem| && !(start <= a < start + size) ==> mem'[a] == mem[a])
  }

  lemma ThreeCopied(m: seq<byte>, m': seq<byte>, at: nat, start: nat)
    requires 3 <= at <= start && start + 3 <= |m|
    requires m' == m[start := m[at - 3]][start + 1 := m[at - 2]][start + 2 := m[at - 1]]
    ensures m'[start..start + 3] == m[at - 3..at]
    ensures forall a :: 0 <= a < |m| && !(start <= a < start + 3) ==> m'[a] == m[a]
  {
  }

  lemma FourSet(m: seq<byte>, m': seq<byte>, at: nat, b: seq<byte>)
    requires at + 4 <= |m| && |b| == 4 && m' == m[at := b[0]][at + 1 := b[1]][at + 2 := b[2]][at + 3 := b[3]]
    ensures m'[at..at + 4] == b
    ensures forall a :: 0 <= a < |m| && !(at <= a < at + 4) ==> m'[a] == m[a]
  {
  }

  /** The parts of `alloc_slice`: room for the slice, the moved bytes, the address, the new mark. */
  lemma AllocParts(m0: seq<byte>, m1: seq<byte>, m2: seq<byte>, m3: seq<byte>, m4: seq<byte>, at: nat, next: Slice)
    requires 3 <= at < |m0| <= |m1| == |m2| == |m3| && at < next.start && next.End() <= |m1|
    requires m1[..|m0|] == m0 && forall a :: next.start <= a < |m1| ==> m1[a] == 0
    requires m2[next.start..next.start + 3] == m1[at - 3..at]
    requires forall a :: 0 <= a < |m2| && !(next.start <= a < next.start + 3) ==> m2[a] == m1[a]
    requires m3[at - 3..at + 1] == BigEndian(next.start)
    requires forall a :: 0 <= a < |m3| && !(at - 3 <= a <= at) ==> m3[a] == m2[a]
    requires next.level < 10 && m4 == m3[next.End() - 1 := 16 + next.level]
    ensures AllocStep(m0, m4, at, next)
    ensures forall a :: next.End() <= a < |m4| ==> m4[a] == 0
  {
    forall a | 0 <= a < |m0| ensures m1[a] == m0[a] {
      assert m1[..|m0|][a] == m1[a];
    }
    assert m4[at - 3..at + 1] == m3[at - 3..at + 1];
    assert m4[next.start..next.start + 3] == m3[next.start..next.start + 3] == m2[next.start..next.start + 3];
    assert m1[at - 3..at] == m0[at - 3..at];
  }
}
