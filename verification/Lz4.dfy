/** The LZ4 compressor and decompressor (compression.rs), proved against `Lz4Format`. */
module Lz4 {
  import opened BitMath
  import opened Wrappers
  import opened Lz4Format
  import opened Lz4Greedy

  const MEMORY_USAGE: nat := 14

  /** A packed integer array: a fixed number of bits for each value. */
  datatype Mutable = Mutable(bitsPerValue: nat, values: seq<nat>) {
    ghost predicate Valid() {
      forall i :: 0 <= i < |values| ==> values[i] < Pow2(bitsPerValue)
    }
  }

  function Zeroed(bitsPerValue: nat, size: nat): (m: Mutable)
    ensures m.Valid() && m.bitsPerValue == bitsPerValue && |m.values| == size
    ensures forall i :: 0 <= i < size ==> m.values[i] == 0
  {
    Mutable(bitsPerValue, seq(size, _ => 0))
  }

  /** The hash has as many bits as a table of at most 2^17 bits, or 16384 bytes, allows, with room for
      every offset of `len` bytes in each slot. */
  ghost predicate HashLogFor(hashLog: nat, len: nat) {
    && len >= 5 && hashLog <= 32
    && Pow2(hashLog) * BitsRequired(len - 5) <= 0x2_0000 < Pow2(hashLog + 1) * BitsRequired(len - 5)
  }

  lemma Pow2Small()
    ensures Pow2(1) == 2 && Pow2(2) == 4 && Pow2(3) == 8 && Pow2(4) == 16 && Pow2(5) == 32
    ensures Pow2(12) == 0x1000 && Pow2(13) == 0x2000 && Pow2(14) == 0x4000 && Pow2(15) == 0x8000 && Pow2(16) == 0x1_0000
  {
    assert Pow2(6) == 64 && Pow2(7) == 128 && Pow2(8) == 256;
    assert Pow2(9) == 512 && Pow2(10) == 1024 && Pow2(11) == 2048;
  }

  lemma TableBits(bits: nat)
    requires bits >= 1 && 2 <= BitLength(bits - 1) <= 5
    ensures var log := 17 - BitLength(bits - 1); Pow2(log) * bits <= 0x2_0000 < Pow2(log + 1) * bits
  {
    var k := BitLength(bits - 1);
    assert Pow2(k - 1) <= bits - 1 < Pow2(k);
    hide BitLength, Pow2;
    Pow2Small();
    var log := 17 - k;
    if k == 2 {
      assert Pow2(log) * bits == 0x8000 * bits && Pow2(log + 1) * bits == 0x1_0000 * bits;
    } else if k == 3 {
      assert Pow2(log) * bits == 0x4000 * bits && Pow2(log + 1) * bits == 0x8000 * bits;
    } else if k == 4 {
      assert Pow2(log) * bits == 0x2000 * bits && Pow2(log + 1) * bits == 0x4000 * bits;
    } else {
      assert Pow2(log) * bits == 0x1000 * bits && Pow2(log + 1) * bits == 0x2000 * bits;
    }
  }

  /** The old table serves again if it has enough slots and they are wide enough; otherwise the new one
      has just these. */
  ghost predicate KeptOrNew(before: Option<Mutable>, table: Mutable, size: nat, bits: nat) {
    if before.Some? && |before.value.values| >= size && before.value.bitsPerValue >= bits
    then |table.values| == |before.value.values| && table.bitsPerValue == before.value.bitsPerValue
    else |table.values| == size && table.bitsPerValue == bits
  }

  class HashTable {
    var hashLog: nat
    var table: Option<Mutable>

    constructor ()
      ensures hashLog == 0 && table == None
    {
      hashLog := 0;
      table := None;
    }

    ghost predicate Ready(len: nat)
      reads this
    {
      && len >= LAST_LITERALS
      && table.Some? && table.value.Valid()
      && |table.value.values| >= Pow2(hashLog)
      && len - LAST_LITERALS < Pow2(table.value.bitsPerValue)
    }

    /** Whatever the table held before, it is afterwards all zero, large enough for every
        hash of `hashLog` bits and wide enough for every offset of `len` bytes. */
    method Reset(len: nat)
      requires LAST_LITERALS + MIN_MATCH < len < 0x8000_0000
      modifies this
      ensures Ready(len) && 12 <= hashLog <= 15 && HashLogFor(hashLog, len)
      ensures forall i :: 0 <= i < |table.value.values| ==> table.value.values[i] == 0
      ensures KeptOrNew(old(table), table.value, Pow2(hashLog), BitsRequired(len - 5))
    {
      hide Pow2, BitLength;
      var bitsPerOffset := BitsRequired(len - LAST_LITERALS);
      OffsetBits(len);
      var bitsPerOffsetLog := BitLength(bitsPerOffset - 1);
      hashLog := MEMORY_USAGE + 3 - bitsPerOffsetLog;
      TableBits(BitsRequired(len - LAST_LITERALS));
      var size := Pow2(hashLog);
      if table.None? || |table.value.values| < size || table.value.bitsPerValue < bitsPerOffset {
        table := Some(Zeroed(bitsPerOffset, size));
      } else {
        Pow2Monotone(bitsPerOffset, table.value.bitsPerValue);
        table := Some(Zeroed(table.value.bitsPerValue, |table.value.values|));
      }
    }
  }

  /** An i32 length leaves the hash between 12 and 15 bits. */
  lemma OffsetBits(len: nat)
    requires LAST_LITERALS + MIN_MATCH < len < 0x8000_0000
    ensures 2 <= BitLength(BitsRequired(len - LAST_LITERALS) - 1) <= 5
  {
    Pow2Words();
    var b := BitsRequired(len - LAST_LITERALS);
    BitLengthBelow(len - LAST_LITERALS, 31);
    AtLeastThreeBits(len - LAST_LITERALS);
    BitLengthBelow(b - 1, 5);
    AtLeastTwoBits(b - 1);
  }

  lemma AtLeastTwoBits(x: nat)
    requires x >= 2
    ensures BitLength(x) >= 2
  {
    assert BitLength(x) == 1 + BitLength(x / 2);
  }

  lemma AtLeastThreeBits(x: nat)
    requires x >= 4
    ensures BitLength(x) >= 3
  {
    AtLeastTwoBits(x / 2);
  }

  /** The low 32 bits of the multiplied value. */
  function HashProduct(v: nat): (p: nat)
    ensures p < 0x1_0000_0000
  {
    v * (0x1_0000_0000 - 1_640_531_535) % 0x1_0000_0000
  }

  /** The multiplicative hash: the top `hashBits` bits of a 32-bit product. */
  function Hash(v: nat, hashBits: nat): (h: nat)
    requires hashBits <= 32
    ensures h < Pow2(hashBits)
  {
    TopBits(HashProduct(v), hashBits)
  }

  /** The hash is the top of the product with the golden ratio of 32 bits, 2654435761. */
  lemma HashIsGolden(v: nat, hashBits: nat)
    requires hashBits <= 32
    ensures Hash(v, hashBits) == v * 2_654_435_761 % 0x1_0000_0000 / Pow2(32 - hashBits)
  {
  }

  function TopBits(p: nat, bits: nat): (h: nat)
    requires p < 0x1_0000_0000 && bits <= 32
    ensures h < Pow2(bits)
  {
    assert p < Pow2(bits) * Pow2(32 - bits) by {
      Pow2Words();
      Pow2Add(bits, 32 - bits);
    }
    Quotient(p, Pow2(bits), Pow2(32 - bits))
  }

  function Quotient(x: nat, a: nat, b: nat): (q: nat)
    requires b > 0 && x < a * b
    ensures q == x / b && q < a
  {
    x / b
  }

  /** Four bytes, most significant first. */
  function ReadInt(bytes: seq<byte>, i: nat): nat
    requires i + 4 <= |bytes|
  {
    ((bytes[i] as int * 256 + bytes[i + 1]) * 256 + bytes[i + 2]) * 256 + bytes[i + 3]
  }

  /** The `n` bytes from `cur` are those from `dist` back. */
  ghost predicate Repeats(bytes: seq<byte>, cur: nat, dist: nat, n: nat)
    requires dist <= cur && cur + n <= |bytes|
  {
    forall k :: cur <= k < cur + n ==> bytes[k] == bytes[k - dist]
  }

  lemma DigitsUnique(q1: int, r1: byte, q2: int, r2: byte)
    requires q1 * 256 + r1 == q2 * 256 + r2
    ensures q1 == q2 && r1 == r2
  {
  }

  lemma ReadIntInjective(bytes: seq<byte>, i: nat, j: nat)
    requires i <= j && j + 4 <= |bytes| && ReadInt(bytes, i) == ReadInt(bytes, j)
    ensures Repeats(bytes, j, j - i, 4)
  {
    var a, b, c := bytes[i] as int, bytes[i] as int * 256 + bytes[i + 1],
      (bytes[i] as int * 256 + bytes[i + 1]) * 256 + bytes[i + 2];
    var a', b', c' := bytes[j] as int, bytes[j] as int * 256 + bytes[j + 1],
      (bytes[j] as int * 256 + bytes[j + 1]) * 256 + bytes[j + 2];
    DigitsUnique(c, bytes[i + 3], c', bytes[j + 3]);
    DigitsUnique(b, bytes[i + 2], b', bytes[j + 2]);
    DigitsUnique(a, bytes[i + 1], a', bytes[j + 1]);
  }

  /** The length of the common run of `b[o1..]` and `b[o2..limit]`. */
  method CommonBytes(b: seq<byte>, o1: nat, o2: nat, limit: nat) returns (count: nat)
    requires o1 < o2 <= limit <= |b|
    ensures o2 + count <= limit && Repeats(b, o2, o2 - o1, count)
    ensures o2 + count < limit ==> b[o1 + count] != b[o2 + count]
  {
    count := 0;
    while count < limit - o2 && b[o1 + count] == b[o2 + count]
      invariant o2 + count <= limit && Repeats(b, o2, o2 - o1, count)
    {
      count := count + 1;
    }
  }

  method EncodeLength(l: nat, out: seq<byte>) returns (r: seq<byte>)
    ensures r == out + EncodeLen(l)
  {
    r := out;
    var value := l;
    while value >= 0xff
      invariant r + EncodeLen(value) == out + EncodeLen(l)
    {
      assert r + ([255] + EncodeLen(value - 255)) == (r + [255]) + EncodeLen(value - 255);
      r := r + [0xff];
      value := value - 0xff;
    }
    r := r + [value];
  }

  method WriteLiterals(bytes: seq<byte>, token: byte, anchor: nat, literalLen: nat, out: seq<byte>)
    returns (r: seq<byte>)
    requires anchor + literalLen <= |bytes|
    ensures r == out + EncodeLiterals(token, bytes[anchor..anchor + literalLen])
  {
    r := out + [token];
    if literalLen >= 0x0f {
      r := EncodeLength(literalLen - 0x0f, r);
    }
    RegroupLiterals(out, token, LenExtension(literalLen), bytes[anchor..anchor + literalLen]);
    r := r + bytes[anchor..anchor + literalLen];
  }

  lemma RegroupLiterals(out: seq<byte>, token: byte, ext: seq<byte>, literals: seq<byte>)
    ensures ((out + [token]) + ext) + literals == out + ([token] + (ext + literals))
    ensures (out + [token]) + [] == out + [token]
  {
  }

  method WriteLastLiterals(bytes: seq<byte>, anchor: nat, literalLen: nat, out: seq<byte>) returns (r: seq<byte>)
    requires anchor + literalLen <= |bytes|
    ensures r == out + EncodeLast(bytes[anchor..anchor + literalLen])
  {
    r := WriteLiterals(bytes, Token(literalLen, 0), anchor, literalLen, out);
  }

  method WriteSequence(bytes: seq<byte>, anchor: nat, matchRef: nat, matchOff: nat, matchLen: nat, out: seq<byte>)
    returns (r: seq<byte>)
    requires anchor <= matchOff <= |bytes| && matchRef < matchOff < matchRef + MAX_DISTANCE && matchLen >= MIN_MATCH
    ensures r == out + EncodeSequence(Sequence(bytes[anchor..matchOff], matchOff - matchRef, matchLen))
  {
    hide EncodeLen, EncodeLiterals;
    var literalLen := matchOff - anchor;
    var token := Token(literalLen, Min(0x0f, matchLen - 4));
    r := WriteLiterals(bytes, token, anchor, literalLen, out);
    var matchDec := matchOff - matchRef;
    r := r + [matchDec % 256] + [matchDec / 256];
    if matchLen >= MIN_MATCH + 0x0f {
      r := EncodeLength(matchLen - 0x0f - MIN_MATCH, r);
    }
    Regroup(out, EncodeLiterals(token, bytes[anchor..anchor + literalLen]), matchDec % 256, matchDec / 256,
            LenExtension(matchLen - MIN_MATCH));
    assert anchor + literalLen == matchOff;
  }

  lemma Regroup(out: seq<byte>, l: seq<byte>, a: byte, b: byte, ext: seq<byte>)
    ensures ((out + l) + [a] + [b]) + ext == out + (l + ([a, b] + ext))
    ensures ((out + l) + [a] + [b]) + [] == (out + l) + [a] + [b]
  {
  }

  /** A hash function the compressor may use: any function into the table. */
  ghost predicate IsHash(hash: (nat, nat) --> nat) {
    forall v: nat, bits: nat :: bits <= 32 ==> hash.requires(v, bits) && hash(v, bits) < Pow2(bits)
  }

  /** The hash that the code uses is one. */
  lemma HashIsHash()
    ensures IsHash(Hash)
  {
  }

  /** Every stored offset lies before the current position. */
  ghost predicate Below(ht: HashTable, bound: nat)
    reads ht
    requires ht.table.Some?
  {
    forall i :: 0 <= i < |ht.table.value.values| ==> ht.table.value.values[i] < bound
  }

  /** The hash of the four bytes at a position, the first of them the most significant. */
  ghost function CodeAt(bytes: seq<byte>, hash: (nat, nat) --> nat, hashLog: nat): nat -> nat
    requires IsHash(hash) && hashLog <= 32
  {
    (p: nat) =>
      if p + 4 > |bytes| then 0
      else hash(bytes[p] as int * 0x100_0000 + bytes[p + 1] as int * 0x1_0000 + bytes[p + 2] as int * 0x100
                + bytes[p + 3] as int, hashLog)
  }

  lemma CodeOf(bytes: seq<byte>, hash: (nat, nat) --> nat, hashLog: nat, p: nat)
    requires IsHash(hash) && hashLog <= 32 && p + 4 <= |bytes|
    ensures hash.requires(ReadInt(bytes, p), hashLog)
    ensures CodeAt(bytes, hash, hashLog)(p) == hash(ReadInt(bytes, p), hashLog) < Pow2(hashLog)
  {
    assert ReadInt(bytes, p) == bytes[p] as int * 0x100_0000 + bytes[p + 1] as int * 0x1_0000
      + bytes[p + 2] as int * 0x100 + bytes[p + 3] as int;
  }

  /** A recorded position is in reach with the same number exactly if it is with the same bytes. */
  lemma ReachesByNumber(bytes: seq<byte>, q: nat, p: nat)
    requires q < p && p + 4 <= |bytes|
    ensures p - q < MAX_DISTANCE && ReadInt(bytes, q) == ReadInt(bytes, p) <==> Reaches(bytes, q, p)
    ensures Reaches(bytes, q, p) ==> Repeats(bytes, p, p - q, 4)
  {
    var a, b := bytes[q..q + 4], bytes[p..p + 4];
    assert a[0] == bytes[q] && a[1] == bytes[q + 1] && a[2] == bytes[q + 2] && a[3] == bytes[q + 3];
    assert b[0] == bytes[p] && b[1] == bytes[p + 1] && b[2] == bytes[p + 2] && b[3] == bytes[p + 3];
    if ReadInt(bytes, q) == ReadInt(bytes, p) {
      ReadIntInjective(bytes, q, p);
      assert a == b;
    }
  }

  /** Walks forward from `start`, recording each position in the table, to the first one where the
      last recorded position of its hash is in reach and holds the same four bytes. */
  method FindMatch(bytes: seq<byte>, off: nat, start: nat, end: nat, ht: HashTable, hash: (nat, nat) --> nat,
                   ghost ms: seq<Match>)
    returns (found: bool, offCur: nat, refer: nat)
    requires IsHash(hash) && off < start && off + 9 < end <= |bytes| && Apart(ms, off, start)
    requires ht.Ready(end - off) && ht.hashLog <= 32 && Below(ht, start - off)
    requires Recorded(ht.table.value.values, Pow2(ht.hashLog), off, CodeAt(bytes, hash, ht.hashLog), ms, start)
    modifies ht
    ensures ht.Ready(end - off) && ht.hashLog == old(ht.hashLog)
    ensures start <= offCur && (if found then offCur < end - 9 else offCur >= end - 9)
    ensures var code := CodeAt(bytes, hash, ht.hashLog);
      && (forall p: nat :: start <= p < offCur ==> Misses(bytes, off, code, ms, p))
      && Recorded(ht.table.value.values, Pow2(ht.hashLog), off, code, ms, if found then offCur + 1 else offCur)
      && (found ==> IsLatest(ms, off, code, code(offCur), offCur, refer) && Reaches(bytes, refer, offCur))
    ensures found ==> off <= refer < offCur < refer + MAX_DISTANCE
    ensures found ==> Repeats(bytes, offCur, offCur - refer, 4)
    ensures found ==> Below(ht, offCur + 1 - off)
  {
    hide Misses, Recorded, IsLatest, Reaches, Apart, Repeats, ReadInt, IsHash, CodeAt;
    var matchLimit := end - LAST_LITERALS - MIN_MATCH;
    ghost var code, size := CodeAt(bytes, hash, ht.hashLog), Pow2(ht.hashLog);
    offCur, refer := start, 0;
    while true
      invariant start <= offCur
      invariant ht.Ready(end - off) && ht.hashLog == old(ht.hashLog) && Below(ht, offCur - off)
      invariant Recorded(ht.table.value.values, size, off, code, ms, offCur)
      invariant forall p: nat :: start <= p < offCur ==> Misses(bytes, off, code, ms, p)
      decreases end - offCur
    {
      if offCur >= matchLimit {
        return false, offCur, refer;
      }
      CodeOf(bytes, hash, ht.hashLog, offCur);
      var v := ReadInt(bytes, offCur);
      var h := hash(v, ht.hashLog);
      refer := off + ht.table.value.values[h];
      RecordedAt(ht.table.value.values, size, off, code, ms, offCur, h);
      BeyondScanned(ms, off, start, offCur);
      RecordedStep(ht.table.value.values, size, off, code, ms, offCur);
      ReachesByNumber(bytes, refer, offCur);
      ht.table := Some(ht.table.value.(values := ht.table.value.values[h := offCur - off]));
      if offCur - refer < MAX_DISTANCE && ReadInt(bytes, refer) == v {
        return true, offCur, refer;
      }
      MissesBy(bytes, off, code, ms, offCur, refer);
      offCur := offCur + 1;
    }
  }

  /** Copying `n` bytes from `dist` back repeats the input where it repeats itself. */
  lemma {:induction false} MatchRepeats(bytes: seq<byte>, off: nat, cur: nat, dist: nat, n: nat)
    requires off + dist <= cur && 1 <= dist && cur + n <= |bytes|
    requires Repeats(bytes, cur, dist, n)
    ensures CopyMatch(bytes[off..cur], dist, n) == bytes[off..cur + n]
    decreases n
  {
    if n > 0 {
      var out := bytes[off..cur];
      assert out[|out| - dist] == bytes[cur];
      assert out + [bytes[cur]] == bytes[off..cur + 1];
      MatchRepeats(bytes, off, cur + 1, dist, n - 1);
    }
  }

  /** The sequences written so far are `out` and stand for `bytes[off..anchor]`. */
  ghost predicate Tiles(out: seq<byte>, seqs: seq<Sequence>, bytes: seq<byte>, off: nat, anchor: nat)
    requires off <= anchor <= |bytes|
  {
    ValidBlock(0, seqs) && out == EncodeSequences(0, seqs) && Expand([], seqs, []) == bytes[off..anchor]
  }

  lemma TilesAppend(out: seq<byte>, seqs: seq<Sequence>, bytes: seq<byte>, off: nat, anchor: nat, s: Sequence,
                    refer: nat, cur: nat, r: seq<byte>, all: seq<Sequence>)
    requires off <= anchor <= cur && cur + s.matchLen <= |bytes| && off <= refer < cur < refer + MAX_DISTANCE
    requires Tiles(out, seqs, bytes, off, anchor)
    requires s.literals == bytes[anchor..cur] && s.dist == cur - refer && s.matchLen >= MIN_MATCH
    requires Repeats(bytes, cur, s.dist, s.matchLen)
    requires r == out + EncodeSequence(s) && all == seqs + [s]
    ensures Tiles(r, all, bytes, off, cur + s.matchLen)
  {
    ExpandLast([], seqs, []);
    AppendSequence(0, seqs, s, all);
    ExpandAppended([], seqs, s, all);
    AppliedTo(bytes, off, anchor, s, cur);
  }

  lemma AppliedTo(bytes: seq<byte>, off: nat, anchor: nat, s: Sequence, cur: nat)
    requires off <= anchor <= cur && cur + s.matchLen <= |bytes| && off + s.dist <= cur
    requires s.literals == bytes[anchor..cur] && 1 <= s.dist
    requires Repeats(bytes, cur, s.dist, s.matchLen)
    ensures Apply(bytes[off..anchor], s) == bytes[off..cur + s.matchLen]
  {
    assert bytes[off..anchor] + s.literals == bytes[off..cur];
    MatchRepeats(bytes, off, cur, s.dist, s.matchLen);
  }

  lemma LongestOf(bytes: seq<byte>, cur: nat, refer: nat, len: nat, limit: nat)
    requires refer < cur && 4 <= len && cur + len <= limit <= |bytes| && Repeats(bytes, cur, cur - refer, len)
    requires cur + len < limit ==> bytes[refer + len] != bytes[cur + len]
    ensures Longest(bytes, Match(cur, refer, len), limit)
  {
  }

  /** Extends the match found at `cur` as far as `limit` allows and writes its sequence. */
  method EmitMatch(bytes: seq<byte>, off: nat, anchor: nat, cur: nat, refer: nat, limit: nat, out: seq<byte>,
                   ghost seqs: seq<Sequence>)
    returns (r: seq<byte>, matchLen: nat, ghost s: Sequence)
    requires off <= anchor <= cur && cur + MIN_MATCH <= limit <= |bytes|
    requires off <= refer < cur < refer + MAX_DISTANCE && Repeats(bytes, cur, cur - refer, MIN_MATCH)
    requires Tiles(out, seqs, bytes, off, anchor)
    ensures MIN_MATCH <= matchLen && cur + matchLen <= limit && Longest(bytes, Match(cur, refer, matchLen), limit)
    ensures s == Sequence(bytes[anchor..cur], cur - refer, matchLen)
    ensures Tiles(r, seqs + [s], bytes, off, cur + matchLen)
  {
    hide Tiles, Repeats, EncodeSequence, Longest;
    var common := CommonBytes(bytes, refer + MIN_MATCH, cur + MIN_MATCH, limit);
    matchLen := MIN_MATCH + common;
    s := Sequence(bytes[anchor..cur], cur - refer, matchLen);
    RepeatsJoin(bytes, cur, cur - refer, MIN_MATCH, common);
    LongestOf(bytes, cur, refer, matchLen, limit);
    r := WriteSequence(bytes, anchor, refer, cur, matchLen, out);
    TilesAppend(out, seqs, bytes, off, anchor, s, refer, cur, r, seqs + [s]);
  }

  lemma TilesNothing(bytes: seq<byte>, off: nat)
    requires off <= |bytes|
    ensures Tiles([], [], bytes, off, off)
  {
  }

  /** The main loop: writes a sequence for every match of the greedy run, and leaves the rest, at
      least five bytes, unwritten. */
  method WriteMatches(bytes: seq<byte>, off: nat, end: nat, ht: HashTable, hash: (nat, nat) --> nat)
    returns (out: seq<byte>, anchor: nat, ghost seqs: seq<Sequence>, ghost ms: seq<Match>)
    requires off + LAST_LITERALS + MIN_MATCH < end <= |bytes| && end - off < 0x8000_0000 && IsHash(hash)
    modifies ht
    ensures off <= anchor <= end - LAST_LITERALS && Tiles(out, seqs, bytes, off, anchor)
    ensures HashLogFor(ht.hashLog, end - off)
    ensures GreedyRun(bytes, off, end, CodeAt(bytes, hash, ht.hashLog), ms) && SequencesOf(bytes, off, ms, seqs)
  {
    hide Tiles, IsHash, GreedyTo, GreedyRun, Recorded, SequencesOf, IsLatest, Misses, Reaches, Repeats, Longest, CodeAt,
         From, HashLogFor, KeptOrNew, Apart, Pow2;
    var limit := end - LAST_LITERALS;
    var offCur := off + 1;
    anchor, out, seqs, ms := off, [], [], [];
    TilesNothing(bytes, off);
    ht.Reset(end - off);
    ghost var log, code := ht.hashLog, CodeAt(bytes, hash, ht.hashLog);
    NothingYet(ht.table.value.values, Pow2(log), bytes, off, end, code);
    while offCur <= limit
      invariant off <= anchor <= limit && anchor <= offCur <= limit && off < offCur && anchor == From(ms, off, |ms|)
      invariant ht.Ready(end - off) && ht.hashLog == log && Below(ht, offCur - off)
      invariant Tiles(out, seqs, bytes, off, anchor) && SequencesOf(bytes, off, ms, seqs)
      invariant GreedyTo(bytes, off, end, code, ms, offCur)
      invariant Recorded(ht.table.value.values, Pow2(log), off, code, ms, offCur)
      decreases end - offCur
    {
      GreedyApart(bytes, off, end, code, ms, offCur);
      var found, cur, refer := FindMatch(bytes, off, offCur, end, ht, hash, ms);
      GreedyMissed(bytes, off, end, code, ms, offCur, cur);
      if !found {
        GreedyDone(bytes, off, end, code, ms, cur);
        break;
      }
      ghost var s;
      var matchLen;
      out, matchLen, s := EmitMatch(bytes, off, anchor, cur, refer, limit, out, seqs);
      ghost var m := Match(cur, refer, matchLen);
      GreedyPush(bytes, off, end, code, ms, m);
      RecordedJump(ht.table.value.values, Pow2(log), off, code, ms, m);
      SequencesPush(bytes, off, ms, seqs, m, s);
      FromPushed(ms, off, m);
      ms := ms + [m];
      seqs := seqs + [s];
      offCur := cur + matchLen;
      anchor := offCur;
    }
  }

  /** Compresses `bytes[off..off + len]`, with any hash function and whatever the table held before:
      the output is an LZ4 block for those bytes that ends in at least five literals, or is all
      literals. Its matches are those of the greedy run, so no literal is written where the greedy
      search finds a match. */
  method Compress(bytes: seq<byte>, off: nat, len: nat, ht: HashTable, hash: (nat, nat) --> nat)
    returns (out: seq<byte>, ghost seqs: seq<Sequence>, ghost last: seq<byte>, ghost ms: seq<Match>)
    requires off + len <= |bytes| && len < 0x8000_0000 && IsHash(hash)
    modifies ht
    ensures IsBlockFor(out, bytes[off..off + len], seqs, last)
    ensures |last| >= 5 || (seqs == [] && |last| == len)
    ensures len <= 9 ==> seqs == []
    ensures len > 9 ==> HashLogFor(ht.hashLog, len) && SequencesOf(bytes, off, ms, seqs)
    ensures len > 9 ==> GreedyRun(bytes, off, off + len, CodeAt(bytes, hash, ht.hashLog), ms)
  {
    hide Tiles, GreedyRun, SequencesOf, CodeAt, HashLogFor;
    var anchor, end := off, off + len;
    out, seqs, ms := [], [], [];
    TilesNothing(bytes, off);
    if len > LAST_LITERALS + MIN_MATCH {
      out, anchor, seqs, ms := WriteMatches(bytes, off, end, ht, hash);
    }
    var literalLen := end - anchor;
    last := bytes[anchor..anchor + literalLen];
    var block := WriteLastLiterals(bytes, anchor, literalLen, out);
    TilesFinish(out, seqs, bytes, off, anchor, literalLen, last, block, bytes[off..off + len]);
    out := block;
  }

  lemma TilesFinish(out: seq<byte>, seqs: seq<Sequence>, bytes: seq<byte>, off: nat, anchor: nat, literalLen: nat,
                    last: seq<byte>, block: seq<byte>, data: seq<byte>)
    requires off <= anchor && anchor + literalLen <= |bytes| && Tiles(out, seqs, bytes, off, anchor)
    requires last == bytes[anchor..anchor + literalLen] && block == out + EncodeLast(last)
    requires data == bytes[off..anchor + literalLen]
    ensures IsBlockFor(block, data, seqs, last)
    ensures anchor == off ==> seqs == []
  {
    hide Expand, EncodeSequences, EncodeLast, ValidBlock;
    assert data == bytes[off..anchor] + last;
    ExpandLast([], seqs, last);
    if anchor == off { EmptyTiling(seqs); }
  }

  lemma RepeatsJoin(bytes: seq<byte>, cur: nat, dist: nat, m: nat, n: nat)
    requires dist <= cur && cur + m + n <= |bytes|
    requires Repeats(bytes, cur, dist, m) && Repeats(bytes, cur + m, dist, n)
    ensures Repeats(bytes, cur, dist, m + n)
  {
  }

  /** Sequences stand for at least four bytes each. */
  lemma EmptyTiling(seqs: seq<Sequence>)
    requires ValidBlock(0, seqs) && Expand([], seqs, []) == []
    ensures seqs == []
  {
  }

  /** The extended length at `pos`; see `ReadLen`. */
  method ReadLength(input: seq<byte>, start: nat, base: nat) returns (r: Result<nat>, pos: nat)
    requires start <= |input|
    ensures start <= pos <= |input|
    ensures match ReadLen(input[start..], base)
            case Ok((len, rest)) => r == Ok(len) && rest == input[pos..]
            case Err(e) => r == Err(e)
  {
    var len := base;
    pos := start;
    while pos < |input| && input[pos] == 0xff
      invariant start <= pos <= |input|
      invariant ReadLen(input[start..], base) == ReadLen(input[pos..], len)
    {
      assert input[pos..][1..] == input[pos + 1..];
      len := len + 0xff;
      pos := pos + 1;
    }
    if pos == |input| {
      return Err(EndOfInput), pos;
    }
    assert input[pos..][1..] == input[pos + 1..];
    return Ok(len + input[pos]), pos + 1;
  }

  method ReadNibbleLength(input: seq<byte>, start: nat, nibble: nat) returns (r: Result<nat>, pos: nat)
    requires start <= |input|
    ensures start <= pos <= |input|
    ensures match ReadNibbleLen(input[start..], nibble)
            case Ok((len, rest)) => r == Ok(len) && rest == input[pos..]
            case Err(e) => r == Err(e)
  {
    if nibble == 0x0f {
      r, pos := ReadLength(input, start, 0x0f);
    } else {
      r, pos := Ok(nibble), start;
    }
  }

  /** `read_bytes`: fills `dest` from the input. */
  method ReadBytes(input: seq<byte>, pos: nat, dest: array<byte>, off: nat, len: nat)
    requires pos + len <= |input| && off + len <= dest.Length
    modifies dest
    ensures dest[..] == Splice(old(dest[..]), off, input[pos..][..len])
  {
    forall i | 0 <= i < len {
      dest[off + i] := input[pos + i];
    }
  }

  /** Reads the literals of the sequence whose token was just read; see `ReadLiterals`. */
  method CopyLiterals(input: seq<byte>, start: nat, nibble: nat, dest: array<byte>, off: nat)
    returns (r: Result<nat>, pos: nat)
    requires start <= |input| && off <= dest.Length
    modifies dest
    ensures start <= pos <= |input|
    ensures match ReadLiterals(State(input[start..], old(dest[..]), off), nibble)
            case Ok(t) => t == State(input[pos..], dest[..], t.off) && r == Ok(t.off)
            case Err(e) => r == Err(e)
  {
    r, pos := ReadNibbleLength(input, start, nibble);
    if r.Err? {
      return;
    }
    var len := r.value;
    if len > |input| - pos {
      return Err(EndOfInput), pos;
    }
    if off + len > dest.Length {
      return Err(OutOfBounds), pos;
    }
    ReadBytes(input, pos, dest, off, len);
    assert input[pos..][len..] == input[pos + len..];
    return Ok(off + len), pos + len;
  }

  /** Overlapping copy, one byte at a time. */
  method CopyForward(dest: array<byte>, off: nat, dist: nat, n: nat)
    requires dist <= off && off + n <= dest.Length
    modifies dest
    ensures dest[..] == CopyWithin(old(dest[..]), off, dist, n)
  {
    var destCur, destOff, end := off - dist, off, off + n;
    while destOff < end
      invariant off <= destOff <= end && destCur == destOff - dist
      invariant CopyWithin(dest[..], destOff, dist, end - destOff) == CopyWithin(old(dest[..]), off, dist, n)
    {
      ghost var before := dest[..];
      dest[destOff] := dest[destCur];
      assert dest[..] == before[destOff := before[destOff - dist]];
      destOff := destOff + 1;
      destCur := destCur + 1;
    }
  }

  /** Block copy between disjoint ranges. */
  method CopyBlock(dest: array<byte>, off: nat, dist: nat, n: nat)
    requires n <= dist <= off && off + n <= dest.Length
    modifies dest
    ensures dest[..] == CopyWithin(old(dest[..]), off, dist, n)
  {
    ghost var r := CopyWithin(dest[..], off, dist, n);
    CopyWithinDisjoint(dest[..], off, dist, n, r);
    forall i | off <= i < off + n {
      dest[i] := dest[i - dist];
    }
    assert forall i :: 0 <= i < dest.Length ==> dest[i] == r[i];
  }

  /** The copy of a match: byte by byte when the ranges overlap or the rounded-up length
      does not fit, as a block otherwise. Both paths have the same outcome. */
  method CopyMatchBytes(dest: array<byte>, off: nat, matchDec: nat, matchLen: nat)
    requires matchDec <= off && off + matchLen <= dest.Length
    modifies dest
    ensures dest[..] == CopyWithin(old(dest[..]), off, matchDec, matchLen)
  {
    var fastLen := (matchLen + 7) / 8 * 8;
    if matchDec < matchLen || off + fastLen > dest.Length {
      CopyForward(dest, off, matchDec, matchLen);
    } else {
      CopyBlock(dest, off, matchDec, matchLen);
    }
  }

  /** Reads and copies the match of a sequence; see `ReadMatch`. */
  method CopyReference(input: seq<byte>, start: nat, nibble: nat, dest: array<byte>, off: nat)
    returns (r: Result<nat>, pos: nat)
    requires start <= |input| && off <= dest.Length
    modifies dest
    ensures start <= pos <= |input|
    ensures match ReadMatch(State(input[start..], old(dest[..]), off), nibble)
            case Ok(t) => t == State(input[pos..], dest[..], t.off) && r == Ok(t.off)
            case Err(e) => r == Err(e)
  {
    pos := start;
    ghost var s := State(input[start..], dest[..], off);
    if start + 2 > |input| {
      return Err(EndOfInput), pos;
    }
    var matchDec: nat := input[start] as int + input[start + 1] as int * 256;
    assert matchDec == Distance(s.input) && s.input[2..] == input[start + 2..];
    r, pos := ReadNibbleLength(input, start + 2, nibble);
    if r.Err? {
      return;
    }
    var matchLen := r.value + MIN_MATCH;
    if matchDec > off || off + matchLen > dest.Length {
      return Err(OutOfBounds), pos;
    }
    CopyMatchBytes(dest, off, matchDec, matchLen);
    r := Ok(off + matchLen);
  }

  /** Decompresses at least `decompressedLen` bytes into `dest`. For any input at all the
      outcome is that of `Decode`. */
  method Decompress(input: seq<byte>, decompressedLen: nat, dest: array<byte>) returns (r: Result<nat>)
    modifies dest
    ensures match Decode(State(input, old(dest[..]), 0), decompressedLen)
            case Ok(t) => r == Ok(t.off) && dest[..] == t.dest
            case Err(e) => r == Err(e)
  {
    var off: nat, pos: nat := 0, 0;
    ghost var goal := Decode(State(input, dest[..], 0), decompressedLen);
    assert input[0..] == input;
    while true
      invariant off <= dest.Length && pos <= |input|
      invariant Decode(State(input[pos..], dest[..], off), decompressedLen) == goal
      decreases |input| - pos
    {
      if pos == |input| {
        return Err(EndOfInput);
      }
      var token := input[pos];
      assert input[pos..][1..] == input[pos + 1..];
      var q;
      q, pos := CopyLiterals(input, pos + 1, token / 16, dest, off);
      if q.Err? {
        return q;
      }
      off := q.value;
      if off >= decompressedLen {
        break;
      }
      q, pos := CopyReference(input, pos, token % 16, dest, off);
      if q.Err? {
        return q;
      }
      off := q.value;
      if off >= decompressedLen {
        break;
      }
    }
    r := Ok(off);
  }

  lemma SameHashLog(a: nat, b: nat, len: nat)
    requires HashLogFor(a, len) && HashLogFor(b, len)
    ensures a == b
  {
    var bits := BitsRequired(len - 5);
    NoLarger(a, b, bits);
    NoLarger(b, a, bits);
  }

  lemma ProductMonotone(a: nat, b: nat, bits: nat)
    requires a <= b
    ensures Pow2(a) * bits <= Pow2(b) * bits
  {
    Pow2Monotone(a, b);
  }

  lemma NoLarger(a: nat, b: nat, bits: nat)
    requires Pow2(a) * bits <= 0x2_0000 < Pow2(b + 1) * bits
    ensures a <= b
  {
    if b + 1 <= a {
      ProductMonotone(b + 1, a, bits);
    }
  }

  /** A block is determined by the bytes and the sequences. */
  lemma SameBlock(a: seq<byte>, b: seq<byte>, data: seq<byte>, seqs: seq<Sequence>, last: seq<byte>, end: seq<byte>)
    requires IsBlockFor(a, data, seqs, last) && IsBlockFor(b, data, seqs, end)
    ensures a == b
  {
    ExpandLast([], seqs, last);
    ExpandLast([], seqs, end);
    var front := Expand([], seqs, []);
    assert last == data[|front|..] && end == data[|front|..];
  }

  /** What is written depends on the bytes and the hash function, and not on the table that is used. */
  method CompressTwice(bytes: seq<byte>, off: nat, len: nat, ht: HashTable, other: HashTable, hash: (nat, nat) --> nat)
    returns (a: seq<byte>, b: seq<byte>)
    requires off + len <= |bytes| && len < 0x8000_0000 && IsHash(hash) && ht != other
    modifies ht, other
    ensures a == b
  {
    hide IsBlockFor, GreedyRun, SequencesOf, CodeAt;
    ghost var s, t, l, m, ms, ns;
    a, s, l, ms := Compress(bytes, off, len, ht, hash);
    b, t, m, ns := Compress(bytes, off, len, other, hash);
    if len > 9 {
      SameHashLog(ht.hashLog, other.hashLog, len);
      GreedyUnique(bytes, off, off + len, CodeAt(bytes, hash, ht.hashLog), ms, ns);
      SequencesUnique(bytes, off, ms, s, t);
    }
    SameBlock(a, b, bytes[off..off + len], s, l, m);
  }

  /** Compressing and then decompressing `n` of the bytes, from a stream that goes on with
      any other bytes, restores at least `n` of them, whatever the table and the buffer held. */
  method RoundTrip(bytes: seq<byte>, off: nat, len: nat, rest: seq<byte>, n: nat, ht: HashTable,
                   hash: (nat, nat) --> nat, dest: array<byte>)
    returns (p: nat)
    requires off + len <= |bytes| && len < 0x8000_0000 && IsHash(hash)
    requires n <= len <= dest.Length
    modifies ht, dest
    ensures n <= p <= len && dest[..p] == bytes[off..off + p]
  {
    hide Decode, IsBlockFor, Expand, IsHash;
    var block, seqs, last, ms := Compress(bytes, off, len, ht, hash);
    var input := block + rest;
    ghost var data := bytes[off..off + len];
    BlockRoundTrip(block, data, seqs, last, rest, input, dest[..], n);
    var r := Decompress(input, n, dest);
    p := r.value;
    PrefixRange(dest[..], data, p, 0, p);
    assert dest[..][0..p] == dest[..p] && data[0..p] == bytes[off..off + p];
  }

  /** `Vec::resize`, to at least `size` bytes. */
  function Enlarged(buffer: seq<byte>, size: nat): (r: seq<byte>)
    ensures |r| >= size
  {
    if |buffer| < size then buffer + seq(size - |buffer|, _ => 0) else buffer
  }

  method Enlarge(buffer: array<byte>, size: nat) returns (bytes: array<byte>)
    ensures bytes == buffer || fresh(bytes)
    ensures bytes[..] == Enlarged(buffer[..], size)
  {
    bytes := buffer;
    if buffer.Length < size {
      bytes := new byte[size](i requires 0 <= i reads buffer => if i < buffer.Length then buffer[i] else 0);
    }
  }

  /** `LZ4Decompressor`: enlarges the buffer to seven bytes more than the original length,
      decompresses enough to cover the wanted range, and reports that range. */
  method DecompressRange(input: seq<byte>, originalLength: nat, offset: nat, length: nat, buffer: array<byte>)
    returns (r: Result<(nat, nat)>, bytes: array<byte>)
    requires offset + length <= originalLength
    modifies buffer
    ensures bytes == buffer || fresh(bytes)
    ensures match Decode(State(input, Enlarged(old(buffer[..]), originalLength + 7), 0), offset + length)
            case Ok(t) =>
              if t.off > originalLength then r == Err(LengthsMismatch)
              else r == Ok((offset, length)) && bytes[..] == t.dest
            case Err(e) => r == Err(e)
  {
    bytes := Enlarge(buffer, originalLength + 7);
    var q := Decompress(input, offset + length, bytes);
    if q.Err? {
      return Err(q.error), bytes;
    }
    if q.value > originalLength {
      return Err(LengthsMismatch), bytes;
    }
    r := Ok((offset, length));
  }

  /** On a stream that starts with a block for `data`, the reported range holds exactly the
      bytes of `data` at the same offsets, whatever the buffer was. */
  lemma RangeRestored(block: seq<byte>, data: seq<byte>, seqs: seq<Sequence>, last: seq<byte>, rest: seq<byte>,
                      input: seq<byte>, dest: seq<byte>, offset: nat, length: nat)
    requires IsBlockFor(block, data, seqs, last) && input == block + rest
    requires offset + length <= |data| <= |dest|
    ensures var r := Decode(State(input, dest, 0), offset + length);
            r.Ok? && r.value.off <= |data| && r.value.dest[offset..offset + length] == data[offset..offset + length]
  {
    hide Decode, IsBlockFor, Expand;
    BlockRoundTrip(block, data, seqs, last, rest, input, dest, offset + length);
    var r := Decode(State(input, dest, 0), offset + length);
    PrefixRange(r.value.dest, data, r.value.off, offset, length);
  }

  lemma PrefixRange(a: seq<byte>, b: seq<byte>, p: nat, offset: nat, length: nat)
    requires offset + length <= p <= |a| && p <= |b| && a[..p] == b[..p]
    ensures a[offset..offset + length] == b[offset..offset + length]
  {
    assert a[..p][offset..offset + length] == a[offset..offset + length];
    assert b[..p][offset..offset + length] == b[offset..offset + length];
  }
}
