/** The bit set backed by 64-bit words (bit_set.rs). */
module FixedBitSet {

  const NO_MORE_DOCS := 0x7fff_ffff

  /** A 64-bit word, as its bits from the lowest to the highest. */
  type Word = w: seq<bool> | |w| == 64 witness seq(64, _ => false)

  function Zero(): (r: Word) {
    seq(64, _ => false)
  }

  function And(a: Word, b: Word): (r: Word) {
    seq(64, j requires 0 <= j < 64 => a[j] && b[j])
  }

  function Or(a: Word, b: Word): (r: Word) {
    seq(64, j requires 0 <= j < 64 => a[j] || b[j])
  }

  function Not(a: Word): (r: Word) {
    seq(64, j requires 0 <= j < 64 => !a[j])
  }

  /** `1 << k`. */
  function One(k: nat): (r: Word) {
    seq(64, j => j == k)
  }

  /** `-1 << k`. */
  function OnesFrom(k: nat): (r: Word) {
    seq(64, j => j >= k)
  }

  /** All ones, shifted right by `k` without the sign. */
  function OnesUpTo(k: nat): (r: Word) {
    seq(64, j => j < 64 - k)
  }

  /** The signed shift to the right: the highest bit is repeated. */
  function ShiftRight(a: Word, k: nat): (r: Word) {
    seq(64, j requires 0 <= j < 64 => if j + k < 64 then a[j + k] else a[63])
  }

  /** The number of zero bits below the lowest one. */
  function TrailingZeros(a: Word, from: nat): (r: nat)
    requires from <= 64
    ensures from <= r <= 64 && (forall j :: from <= j < r ==> !a[j]) && (r < 64 ==> a[r])
    decreases 64 - from
  {
    if from == 64 || a[from] then from else TrailingZeros(a, from + 1)
  }

  /** How many of the first `n` bits are set. */
  function PopCount(a: Word, n: nat): nat
    requires n <= 64
  {
    if n == 0 then 0 else PopCount(a, n - 1) + if a[n - 1] then 1 else 0
  }

  /** `bits2words`: the word of the last bit, and one more; the shift rounds down. */
  function Bits2Words(numBits: nat): (r: nat)
    ensures 64 * r >= numBits && 64 * r < numBits + 64
  {
    (numBits - 1) / 64 + 1
  }

  predicate Bit(bits: seq<Word>, i: int) {
    0 <= i < 64 * |bits| && bits[i / 64][i % 64]
  }

  ghost function MembersBelow(bits: seq<Word>, n: nat): set<int> {
    set i | 0 <= i < n && Bit(bits, i)
  }

  ghost function Members(bits: seq<Word>): set<int> {
    MembersBelow(bits, 64 * |bits|)
  }

  /** Two bit sets have the same bits, but for those from `from` up to `to`, which are as told. */
  ghost predicate SetBetween(bits: seq<Word>, bits': seq<Word>, from: int, to: int, value: bool) {
    |bits| == |bits'| && forall i :: 0 <= i < 64 * |bits| ==>
      Bit(bits', i) == if from <= i < to then value else Bit(bits, i)
  }

  /** The numbers from `from` up to `to`. */
  ghost function Range(from: int, to: int): (r: set<int>)
    ensures (forall i :: i in r <==> from <= i < to)
    decreases if from < to then to - from else 0
  {
    if from >= to then {} else Range(from, to - 1) + {to - 1}
  }

  lemma SetMembers(bits: seq<Word>, bits': seq<Word>, from: int, to: int)
    requires SetBetween(bits, bits', from, to, true) && 0 <= from && to <= 64 * |bits|
    ensures Members(bits') == Members(bits) + Range(from, to)
  {
    forall i | from <= i < to ensures i in Members(bits') {
      assert Bit(bits', i);
    }
  }

  lemma ClearMembers(bits: seq<Word>, bits': seq<Word>, from: int, to: int)
    requires SetBetween(bits, bits', from, to, false)
    ensures Members(bits') == Members(bits) - Range(from, to)
  {
  }

  // ----- counting -----

  ghost function CountBelow(bits: seq<Word>, n: nat): nat
    requires n <= 64 * |bits|
  {
    if n == 0 then 0 else CountBelow(bits, n - 1) + if Bit(bits, n - 1) then 1 else 0
  }

  lemma {:induction false} CountWord(bits: seq<Word>, w: nat, n: nat)
    requires w < |bits| && n <= 64
    ensures CountBelow(bits, 64 * w + n) == CountBelow(bits, 64 * w) + PopCount(bits[w], n)
  {
    if n > 0 {
      CountWord(bits, w, n - 1);
      assert (64 * w + n - 1) / 64 == w && (64 * w + n - 1) % 64 == n - 1;
    }
  }

  lemma {:induction false} CountIsSize(bits: seq<Word>, n: nat)
    requires n <= 64 * |bits|
    ensures CountBelow(bits, n) == |MembersBelow(bits, n)|
  {
    if n > 0 {
      CountIsSize(bits, n - 1);
      if Bit(bits, n - 1) {
        assert MembersBelow(bits, n) == MembersBelow(bits, n - 1) + {n - 1};
      } else {
        assert MembersBelow(bits, n) == MembersBelow(bits, n - 1);
      }
    }
  }

  // ----- masks -----

  /** Replacing one word changes the bits of that word only. */
  lemma WordSet(bits: seq<Word>, w: nat, word: Word, i: int)
    requires w < |bits|
    ensures Bit(bits[w := word], i) == if 64 * w <= i < 64 * w + 64 then word[i - 64 * w] else Bit(bits, i)
  {
    if 64 * w <= i < 64 * w + 64 {
      assert i / 64 == w && i % 64 == i - 64 * w;
    }
  }

  /** Or with a mask that covers the bits from `a` up to `b` of word `w`. */
  lemma MaskOr(bits: seq<Word>, w: nat, mask: Word, a: nat, b: nat)
    requires w < |bits| && a <= b <= 64 && forall j :: 0 <= j < 64 ==> mask[j] == (a <= j < b)
    ensures SetBetween(bits, bits[w := Or(bits[w], mask)], 64 * w + a, 64 * w + b, true)
  {
    forall i | 0 <= i < 64 * |bits|
      ensures Bit(bits[w := Or(bits[w], mask)], i) == if 64 * w + a <= i < 64 * w + b then true else Bit(bits, i)
    {
      WordSet(bits, w, Or(bits[w], mask), i);
      assert 64 * w <= i < 64 * w + 64 ==> i / 64 == w && i % 64 == i - 64 * w;
    }
  }

  /** And with a mask that leaves out the bits from `a` up to `b` of word `w`. */
  lemma MaskAnd(bits: seq<Word>, w: nat, mask: Word, a: nat, b: nat)
    requires w < |bits| && a <= b <= 64 && forall j :: 0 <= j < 64 ==> mask[j] == !(a <= j < b)
    ensures SetBetween(bits, bits[w := And(bits[w], mask)], 64 * w + a, 64 * w + b, false)
  {
    forall i | 0 <= i < 64 * |bits|
      ensures Bit(bits[w := And(bits[w], mask)], i) == if 64 * w + a <= i < 64 * w + b then false else Bit(bits, i)
    {
      WordSet(bits, w, And(bits[w], mask), i);
      assert 64 * w <= i < 64 * w + 64 ==> i / 64 == w && i % 64 == i - 64 * w;
    }
  }

  lemma SetTrans(b1: seq<Word>, b2: seq<Word>, b3: seq<Word>, from: int, mid: int, to: int, value: bool)
    requires SetBetween(b1, b2, from, mid, value) && SetBetween(b2, b3, mid, to, value) && from <= mid <= to
    ensures SetBetween(b1, b3, from, to, value)
  {
  }

  /** The words from `w` up to `v` are all ones or all zeros. */
  method FillWords(bits: seq<Word>, w: nat, v: nat, value: bool) returns (r: seq<Word>)
    requires w <= v <= |bits|
    ensures SetBetween(bits, r, 64 * w, 64 * v, value)
  {
    var word: Word := if value then Not(Zero()) else Zero();
    r := bits;
    for i := w to v
      invariant SetBetween(bits, r, 64 * w, 64 * i, value)
    {
      ghost var before := r;
      r := r[i := word];
      forall k | 0 <= k < 64 * |bits|
        ensures Bit(r, k) == if 64 * i <= k < 64 * (i + 1) then value else Bit(before, k)
      {
        WordSet(before, i, word, k);
      }
      SetTrans(bits, before, r, 64 * w, 64 * i, 64 * (i + 1), value);
    }
  }

  class FixedBitSet {
    var bits: seq<Word>
    var numBits: nat
    var numWords: nat

    /** The words are enough, and the bits beyond `numBits` are clear. */
    ghost predicate Valid()
      reads this
    {
      && numWords == Bits2Words(numBits) <= |bits|
      && (forall i :: i in Members(bits) ==> i < numBits)
    }

    constructor (numBits: nat)
      ensures Valid() && Members(bits) == {} && this.numBits == numBits && |bits| == numWords
    {
      numWords := Bits2Words(numBits);
      bits := seq(Bits2Words(numBits), _ => Zero());
      this.numBits := numBits;
    }

    /** `copy_from` on words that are enough and whose other bits are clear. */
    constructor CopyFrom(stored: seq<Word>, numBits: nat)
      requires Bits2Words(numBits) <= |stored| && forall i :: i in Members(stored) ==> i < numBits
      ensures Valid() && bits == stored && this.numBits == numBits
    {
      bits, this.numBits, numWords := stored, numBits, Bits2Words(numBits);
    }

    method Get(index: nat) returns (r: bool)
      requires Valid() && index < numBits
      ensures r <==> index in Members(bits)
    {
      var word := And(bits[index / 64], One(index % 64));
      assert word[index % 64] == Bit(bits, index);
      r := word != Zero();
    }

    method Set(index: nat)
      requires Valid() && index < numBits
      modifies this`bits
      ensures Valid() && Members(bits) == old(Members(bits)) + {index} && |bits| == old(|bits|)
    {
      var w := index / 64;
      MaskOr(bits, w, One(index % 64), index % 64, index % 64 + 1);
      ghost var before := bits;
      bits := bits[w := Or(bits[w], One(index % 64))];
      SetMembers(before, bits, index, index + 1);
    }

    method Clear(index: nat)
      requires Valid() && index < numBits
      modifies this`bits
      ensures Valid() && Members(bits) == old(Members(bits)) - {index} && |bits| == old(|bits|)
    {
      var w := index / 64;
      MaskAnd(bits, w, Not(One(index % 64)), index % 64, index % 64 + 1);
      ghost var before := bits;
      bits := bits[w := And(bits[w], Not(One(index % 64)))];
      ClearMembers(before, bits, index, index + 1);
    }

    method BatchSet(start: nat, end: nat)
      requires Valid() && end <= numBits
      modifies this`bits
      ensures Valid() && Members(bits) == old(Members(bits)) + Range(start, end) && |bits| == old(|bits|)
    {
      if start < end {
        ghost var before := bits;
        bits := WordsSet(bits, start, end);
        SetMembers(before, bits, start, end);
      }
    }

    method ClearBatch(start: nat, end: nat)
      requires Valid() && end <= numBits
      modifies this`bits
      ensures Valid() && Members(bits) == old(Members(bits)) - Range(start, end) && |bits| == old(|bits|)
    {
      if start < end {
        ghost var before := bits;
        bits := WordsCleared(bits, start, end);
        ClearMembers(before, bits, start, end);
      }
    }

    /** `set_or`: the union, refused only if the other set has more words. The number of bits is not
        compared, so the result is in order exactly if the other members are below the own number. */
    method SetOr(other: FixedBitSet) returns (ok: bool)
      requires Valid() && other.Valid()
      modifies this`bits
      ensures ok <==> other.numWords <= numWords
      ensures !ok ==> bits == old(bits)
      ensures ok ==> Members(bits) == old(Members(bits)) + old(Members(other.bits)) && |bits| == old(|bits|)
      ensures ok ==> (Valid() <==> forall i :: i in old(Members(other.bits)) ==> i < numBits)
    {
      if other.numWords > numWords {
        return false;
      }
      ghost var before, theirs := bits, other.bits;
      var words := bits;
      for i := 0 to other.numWords
        invariant |words| == |before|
        invariant forall w :: 0 <= w < |before| ==> words[w] == if w < i then Or(before[w], theirs[w]) else before[w]
      {
        words := words[i := Or(words[i], other.bits[i])];
      }
      bits := words;
      OrMembers(before, theirs, words, other.numWords);
      ok := true;
    }

    method Cardinality() returns (r: nat)
      requires Valid()
      ensures r == |Members(bits)|
    {
      r := 0;
      for w := 0 to numWords
        invariant r == CountBelow(bits, 64 * w)
      {
        CountWord(bits, w, 64);
        r := r + PopCount(bits[w], 64);
      }
      CountIsSize(bits, 64 * numWords);
      assert MembersBelow(bits, 64 * numWords) == Members(bits);
    }

    /** The least member that is not below `index`. */
    method NextSetBit(index: nat) returns (r: nat)
      requires Valid() && index < numBits
      ensures if exists i :: i in Members(bits) && i >= index then IsNext(Members(bits), index, r)
        else r == NO_MORE_DOCS
    {
      var i := index / 64;
      var word := ShiftRight(bits[i], index % 64);
      if word != Zero() {
        LowestShifted(bits, index);
        return index + TrailingZeros(word, 0);
      }
      NoneShifted(bits, index);
      i := i + 1;
      while i < numWords
        invariant index < 64 * i <= 64 * numWords && forall k :: index <= k < 64 * i ==> !Bit(bits, k)
      {
        word := bits[i];
        if word != Zero() {
          LowestInWord(bits, i, index);
          return 64 * i + TrailingZeros(word, 0);
        }
        NoneInWord(bits, i);
        i := i + 1;
      }
      r := NO_MORE_DOCS;
    }

    /** Gives the set room for `n`. It ends up with room exactly if it had it before, or if the words
        that `n` needs are not fewer than the ones there are: room in a larger store is not used. */
    method EnsureCapacity(n: nat)
      requires Valid()
      modifies this
      ensures Valid() && Members(bits) == old(Members(bits)) && numBits >= old(numBits)
      ensures numBits > n <==> old(n < numBits || Bits2Words(n) >= |bits|)
      ensures numBits == if old(n >= numBits && Bits2Words(n) >= |bits|) then 64 * (Bits2Words(n) + 1) else old(numBits)
      ensures |bits| == if old(n >= numBits && Bits2Words(n) >= |bits|) then Bits2Words(n) + 1 else old(|bits|)
    {
      if n >= numBits {
        var words := Bits2Words(n);
        if words >= |bits| {
          ghost var before := bits;
          bits := bits + seq(words + 1 - |bits|, _ => Zero());
          MoreWords(before, bits);
          numWords := words + 1;
          numBits := numWords * 64;
        }
      }
    }
  }

  /** A set of 70 bits takes the union with one of 100 bits, and has a bit beyond its own then. */
  method BeyondTheBits() returns (small: FixedBitSet)
    ensures small.numBits == 70 && Members(small.bits) == {99} && !small.Valid()
  {
    small := new FixedBitSet(70);
    var large := new FixedBitSet(100);
    large.Set(99);
    assert 99 in Members(large.bits);
    var ok := small.SetOr(large);
  }

  /** `verify_ghost_bits_clear`. */
  method GhostBitsClear(bits: seq<Word>, numBits: nat) returns (r: bool)
    requires Bits2Words(numBits) <= |bits|
    ensures r <==> forall i :: i in Members(bits) ==> i < numBits
  {
    var numWords := Bits2Words(numBits);
    for w := numWords to |bits|
      invariant forall k :: 64 * numWords <= k < 64 * w ==> !Bit(bits, k)
    {
      if bits[w] != Zero() {
        LowestOrZero(bits[w]);
        assert 64 * w + TrailingZeros(bits[w], 0) in Members(bits);
        return false;
      }
      NoneInWord(bits, w);
    }
    if numBits % 64 == 0 {
      assert 64 * numWords == numBits;
      return true;
    }
    var rest := And(bits[numWords - 1], OnesFrom(numBits % 64));
    LowestOrZero(rest);
    if rest == Zero() {
      forall k | numBits <= k < 64 * numWords ensures !Bit(bits, k) {
        assert k / 64 == numWords - 1 && !rest[k % 64];
      }
      return true;
    }
    var k := 64 * (numWords - 1) + TrailingZeros(rest, 0);
    assert k / 64 == numWords - 1 && rest[k % 64] && k in Members(bits);
    return false;
  }

  datatype CopyResult = Copied(bits: FixedBitSet) | TooSmall | GhostBitsSet

  /** `copy_from`: refuses a store that is too small, and stops at an assertion if bits beyond the
      number given are set. */
  method CopyBits(stored: seq<Word>, numBits: nat) returns (r: CopyResult)
    ensures r.TooSmall? <==> Bits2Words(numBits) > |stored|
    ensures r.GhostBitsSet? <==> Bits2Words(numBits) <= |stored| && exists i :: i in Members(stored) && i >= numBits
    ensures r.Copied? ==> r.bits.Valid() && Members(r.bits.bits) == Members(stored) && r.bits.numBits == numBits
  {
    if Bits2Words(numBits) > |stored| {
      return TooSmall;
    }
    var clear := GhostBitsClear(stored, numBits);
    if !clear {
      return GhostBitsSet;
    }
    var bits := new FixedBitSet.CopyFrom(stored, numBits);
    return Copied(bits);
  }

  /** A store of four words for 64 bits: room for bit 100 is asked for, and is not there. */
  method LargerStoreNotUsed() returns (s: FixedBitSet)
    ensures s.numBits <= 100
  {
    s := new FixedBitSet.CopyFrom(seq(4, _ => Zero()), 64);
    s.EnsureCapacity(100);
  }

  ghost predicate IsNext(s: set<int>, index: int, r: int) {
    r in s && index <= r && forall i :: i in s && index <= i ==> r <= i
  }

  /** The mask for the last word of a range that ends before `end`. */
  lemma EndMask(end: nat, mask: Word)
    requires end > 0 && mask == OnesUpTo((64 - end % 64) % 64)
    ensures var b := end - 64 * ((end - 1) / 64); 0 < b <= 64 && forall j :: 0 <= j < 64 ==> mask[j] == (j < b)
  {
    var q := (end - 1) / 64;
    assert end % 64 == if end - 64 * q == 64 then 0 else end - 64 * q;
  }

  method WordsSet(bits: seq<Word>, start: nat, end: nat) returns (r: seq<Word>)
    requires start < end <= 64 * |bits|
    ensures SetBetween(bits, r, start, end, true)
  {
    hide SetBetween, Or, OnesUpTo;
    var startWord, endWord := start / 64, (end - 1) / 64;
    var startMask := OnesFrom(start % 64);
    var endMask := OnesUpTo((64 - end % 64) % 64);
    EndMask(end, endMask);
    if startWord == endWord {
      MaskOr(bits, startWord, And(startMask, endMask), start % 64, end - 64 * endWord);
      r := bits[startWord := Or(bits[startWord], And(startMask, endMask))];
      return;
    }
    MaskOr(bits, startWord, startMask, start % 64, 64);
    var b1 := bits[startWord := Or(bits[startWord], startMask)];
    var b2 := FillWords(b1, startWord + 1, endWord, true);
    SetTrans(bits, b1, b2, start, 64 * (startWord + 1), 64 * endWord, true);
    SameSize(bits, b2, start, 64 * endWord, true);
    MaskOr(b2, endWord, endMask, 0, end - 64 * endWord);
    r := b2[endWord := Or(b2[endWord], endMask)];
    SetTrans(bits, b2, r, start, 64 * endWord, end, true);
  }

  lemma SameSize(bits: seq<Word>, bits': seq<Word>, from: int, to: int, value: bool)
    requires SetBetween(bits, bits', from, to, value)
    ensures |bits| == |bits'|
  {
  }

  method WordsCleared(bits: seq<Word>, start: nat, end: nat) returns (r: seq<Word>)
    requires start < end <= 64 * |bits|
    ensures SetBetween(bits, r, start, end, false)
  {
    hide SetBetween, And, OnesUpTo;
    var startWord, endWord := start / 64, (end - 1) / 64;
    var startMask := Not(OnesFrom(start % 64));
    var endMask := Not(OnesUpTo((64 - end % 64) % 64));
    EndMask(end, OnesUpTo((64 - end % 64) % 64));
    if startWord == endWord {
      MaskAnd(bits, startWord, Or(startMask, endMask), start % 64, end - 64 * endWord);
      r := bits[startWord := And(bits[startWord], Or(startMask, endMask))];
      return;
    }
    MaskAnd(bits, startWord, startMask, start % 64, 64);
    var b1 := bits[startWord := And(bits[startWord], startMask)];
    var b2 := FillWords(b1, startWord + 1, endWord, false);
    SetTrans(bits, b1, b2, start, 64 * (startWord + 1), 64 * endWord, false);
    SameSize(bits, b2, start, 64 * endWord, false);
    MaskAnd(b2, endWord, endMask, 0, end - 64 * endWord);
    r := b2[endWord := And(b2[endWord], endMask)];
    SetTrans(bits, b2, r, start, 64 * endWord, end, false);
  }

  lemma OrMembers(bits: seq<Word>, other: seq<Word>, words: seq<Word>, n: nat)
    requires n <= |other| && n <= |bits| == |words| && forall i :: i in Members(other) ==> i < 64 * n
    requires forall w :: 0 <= w < |bits| ==> words[w] == if w < n then Or(bits[w], other[w]) else bits[w]
    ensures Members(words) == Members(bits) + Members(other)
  {
    forall i | 0 <= i < 64 * |bits| ensures Bit(words, i) <==> Bit(bits, i) || (i < 64 * n && Bit(other, i)) {
    }
  }

  lemma MoreWords(bits: seq<Word>, more: seq<Word>)
    requires |bits| <= |more| && more[..|bits|] == bits && forall w :: |bits| <= w < |more| ==> more[w] == Zero()
    ensures Members(more) == Members(bits)
  {
    forall i | 0 <= i < 64 * |more| ensures Bit(more, i) <==> Bit(bits, i) {
      if i < 64 * |bits| {
        assert more[i / 64] == more[..|bits|][i / 64];
      }
    }
  }

  lemma LowestOrZero(word: Word)
    ensures word == Zero() || TrailingZeros(word, 0) < 64
  {
    if TrailingZeros(word, 0) == 64 {
      assert word == Zero();
    }
  }

  lemma LowestInWord(bits: seq<Word>, w: nat, index: nat)
    requires w < |bits| && bits[w] != Zero() && index <= 64 * w && forall k :: index <= k < 64 * w ==> !Bit(bits, k)
    ensures IsNext(Members(bits), index, 64 * w + TrailingZeros(bits[w], 0))
  {
    LowestOrZero(bits[w]);
    var z := TrailingZeros(bits[w], 0);
    assert Bit(bits, 64 * w + z);
    forall i | index <= i < 64 * w + z ensures !Bit(bits, i) {
      if 64 * w <= i {
        assert i / 64 == w && i % 64 == i - 64 * w;
      }
    }
  }

  lemma NoneInWord(bits: seq<Word>, w: nat)
    requires w < |bits| && bits[w] == Zero()
    ensures forall k :: 64 * w <= k < 64 * w + 64 ==> !Bit(bits, k)
  {
    forall k | 64 * w <= k < 64 * w + 64 ensures !Bit(bits, k) {
      assert k / 64 == w;
    }
  }

  lemma LowestShifted(bits: seq<Word>, index: nat)
    requires index < 64 * |bits| && ShiftRight(bits[index / 64], index % 64) != Zero()
    ensures IsNext(Members(bits), index, index + TrailingZeros(ShiftRight(bits[index / 64], index % 64), 0))
  {
    var w, s := index / 64, index % 64;
    var word := ShiftRight(bits[w], s);
    LowestOrZero(word);
    var z := TrailingZeros(word, 0);
    assert word[63 - s] == bits[w][63];
    assert (index + z) / 64 == w && (index + z) % 64 == s + z;
    assert Bit(bits, index + z);
    forall i | index <= i < index + z ensures !Bit(bits, i) {
      assert i / 64 == w && i % 64 == i - 64 * w;
      assert word[i - index] == bits[w][i - 64 * w];
    }
  }

  lemma NoneShifted(bits: seq<Word>, index: nat)
    requires index < 64 * |bits| && ShiftRight(bits[index / 64], index % 64) == Zero()
    ensures forall k :: index <= k < 64 * (index / 64) + 64 ==> !Bit(bits, k)
  {
    var w, s := index / 64, index % 64;
    var word := ShiftRight(bits[w], s);
    forall k | index <= k < 64 * w + 64 ensures !Bit(bits, k) {
      assert k / 64 == w && k % 64 == k - 64 * w;
      assert word[k - index] == bits[w][k - 64 * w];
    }
  }
}
