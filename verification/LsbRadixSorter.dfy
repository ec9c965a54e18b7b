/** The radix sort of doc ids from the lowest byte on (sorter.rs). */
module LsbRadixSorter {
  import opened BitMath
  import opened Sorter

  const INSERTION_SORT_THRESHOLD := 30
  const LSB_HISTOGRAM_SIZE := 256

  /** The byte of `v` that starts at bit `shift`. */
  function Digit(v: nat, shift: nat): (d: nat)
    ensures d < LSB_HISTOGRAM_SIZE
  {
    v / Pow2(shift) % 256
  }

  /** `v` without the bits from `s` on. */
  ghost function Low(v: nat, s: nat): nat {
    v % Pow2(s)
  }

  ghost function Key(shift: nat): nat -> int {
    (v: nat) => Digit(v, shift)
  }

  ghost function Lows(s: nat): nat -> int {
    (v: nat) => Low(v, s)
  }

  lemma Regroup(h: nat, d: nat, p: nat, r: nat)
    ensures (h * 256 + d) * p + r == h * (p * 256) + (d * p + r)
  {
  }

  lemma DigitBound(d: nat, p: nat, r: nat)
    requires d < 256 && r < p
    ensures d * p + r < p * 256
  {
    Multiple(256 - d, p);
    assert (256 - d) * p == 256 * p - d * p;
  }

  /** The low bits up to the next byte: that byte first, then the bits below it. */
  lemma LowSplit(v: nat, s: nat)
    ensures Low(v, s + 8) == Digit(v, s) * Pow2(s) + Low(v, s)
  {
    var p, q := Pow2(s), v / Pow2(s);
    Pow2Add(s, 8);
    assert Pow2(8) == 256;
    LowSplitBy(v, p, q, q / 256, q % 256, v % p);
  }

  lemma LowSplitBy(v: nat, p: nat, q: nat, h: nat, d: nat, r: nat)
    requires p > 0 && v == q * p + r && q == h * 256 + d && d < 256 && r < p
    ensures p * 256 > 0 && v % (p * 256) == d * p + r
  {
    Regroup(h, d, p, r);
    DigitBound(d, p, r);
    DivMod(v, p * 256, h, d * p + r);
  }

  // ----- one pass, as a function -----

  /** The elements with digits below `n`, digit by digit, each in their old order. */
  ghost function Buckets(a: seq<nat>, key: nat -> int, n: nat): seq<nat> {
    if n == 0 then [] else Buckets(a, key, n - 1) + Filter(a, key, n - 1)
  }

  ghost function Keyed(a: seq<nat>, key: nat -> int, n: nat): seq<nat> {
    if a == [] then [] else (if key(a[0]) < n then [a[0]] else []) + Keyed(a[1..], key, n)
  }

  lemma {:induction false} KeyedSplit(a: seq<nat>, key: nat -> int, n: nat)
    requires n > 0
    ensures multiset(Keyed(a, key, n)) == multiset(Keyed(a, key, n - 1)) + multiset(Filter(a, key, n - 1))
  {
    if a != [] {
      KeyedSplit(a[1..], key, n);
    }
  }

  lemma {:induction false} KeyedNone(a: seq<nat>, key: nat -> int)
    requires forall x :: x in a ==> key(x) >= 0
    ensures Keyed(a, key, 0) == []
  {
    if a != [] {
      KeyedNone(a[1..], key);
    }
  }

  lemma {:induction false} KeyedAll(a: seq<nat>, key: nat -> int, n: nat)
    requires forall x :: x in a ==> key(x) < n
    ensures Keyed(a, key, n) == a
  {
    if a != [] {
      KeyedAll(a[1..], key, n);
    }
  }

  lemma {:induction false} BucketsKeyed(a: seq<nat>, key: nat -> int, n: nat)
    requires forall x :: x in a ==> key(x) >= 0
    ensures multiset(Buckets(a, key, n)) == multiset(Keyed(a, key, n))
  {
    hide Keyed, Filter;
    if n == 0 {
      KeyedNone(a, key);
    } else {
      BucketsKeyed(a, key, n - 1);
      KeyedSplit(a, key, n);
    }
  }

  /** A pass rearranges the elements. */
  lemma BucketsPermute(a: seq<nat>, shift: nat, b: seq<nat>)
    requires b == Buckets(a, Key(shift), LSB_HISTOGRAM_SIZE)
    ensures multiset(b) == multiset(a) && |b| == |a|
  {
    BucketsKeyed(a, Key(shift), LSB_HISTOGRAM_SIZE);
    KeyedAll(a, Key(shift), LSB_HISTOGRAM_SIZE);
    assert |multiset(b)| == |multiset(a)|;
  }

  ghost predicate Ordered(a: seq<nat>, rank: nat -> int) {
    forall i, j :: 0 <= i < j < |a| ==> rank(a[i]) <= rank(a[j])
  }

  lemma OrderedJoin(a: seq<nat>, b: seq<nat>, rank: nat -> int)
    requires Ordered(a, rank) && Ordered(b, rank) && forall x, y :: x in a && y in b ==> rank(x) <= rank(y)
    ensures Ordered(a + b, rank)
  {
    var c := a + b;
    forall i, j | 0 <= i < j < |c| ensures rank(c[i]) <= rank(c[j]) {
      if i < |a| && |a| <= j {
        assert c[i] in a && c[j] in b;
      }
    }
  }

  lemma {:induction false} FilterMembers(a: seq<nat>, key: nat -> int, d: int, x: nat)
    requires x in Filter(a, key, d)
    ensures x in a && key(x) == d
  {
    if x !in Filter(a[1..], key, d) {
      assert x == a[0];
    } else {
      FilterMembers(a[1..], key, d, x);
    }
  }

  lemma {:induction false} FilterOrdered(a: seq<nat>, key: nat -> int, d: int, rank: nat -> int)
    requires Ordered(a, rank)
    ensures Ordered(Filter(a, key, d), rank)
  {
    if a != [] {
      FilterOrdered(a[1..], key, d, rank);
      var rest := Filter(a[1..], key, d);
      forall y | y in rest ensures rank(a[0]) <= rank(y) {
        FilterMembers(a[1..], key, d, y);
        var j :| 0 <= j < |a| - 1 && a[1..][j] == y;
        assert a[j + 1] == y;
      }
      OrderedJoin([a[0]], rest, rank);
    }
  }

  lemma DigitLess(dx: nat, dy: nat, p: nat, lx: nat, ly: nat)
    requires dx < dy && lx < p
    ensures dx * p + lx <= dy * p + ly
  {
    Multiple(dy - dx, p);
    assert (dy - dx) * p == dy * p - dx * p;
  }

  lemma LowsLess(x: nat, y: nat, s: nat)
    requires Digit(x, s) < Digit(y, s) || (Digit(x, s) == Digit(y, s) && Low(x, s) <= Low(y, s))
    ensures Low(x, s + 8) <= Low(y, s + 8)
  {
    LowSplit(x, s);
    LowSplit(y, s);
    hide Digit;
    if Digit(x, s) < Digit(y, s) {
      DigitLess(Digit(x, s), Digit(y, s), Pow2(s), Low(x, s), Low(y, s));
    }
  }

  lemma LowsInBucket(a: seq<nat>, s: nat, d: int)
    requires Ordered(a, Lows(s)) && forall x :: x in a ==> Digit(x, s) == d
    ensures Ordered(a, Lows(s + 8))
  {
    forall i, j | 0 <= i < j < |a| ensures Low(a[i], s + 8) <= Low(a[j], s + 8) {
      assert Lows(s)(a[i]) <= Lows(s)(a[j]);
      LowsLess(a[i], a[j], s);
    }
  }

  lemma {:induction false} BucketDigits(a: seq<nat>, key: nat -> int, n: nat, x: nat)
    requires x in Buckets(a, key, n)
    ensures key(x) < n
  {
    if x in Buckets(a, key, n - 1) {
      BucketDigits(a, key, n - 1, x);
    } else {
      FilterMembers(a, key, n - 1, x);
    }
  }

  lemma OrderedNone(rank: nat -> int)
    ensures Ordered([], rank)
  {
  }

  /** A pass over numbers in order of their low bits orders them by one more byte. */
  lemma {:induction false} BucketsOrdered(a: seq<nat>, s: nat, n: nat)
    requires Ordered(a, Lows(s))
    ensures Ordered(Buckets(a, Key(s), n), Lows(s + 8))
  {
    hide Digit, Low, Ordered, Filter;
    if n == 0 {
      OrderedNone(Lows(s + 8));
    } else {
      var front, last := Buckets(a, Key(s), n - 1), Filter(a, Key(s), n - 1);
      BucketsOrdered(a, s, n - 1);
      FilterOrdered(a, Key(s), n - 1, Lows(s));
      forall y | y in last ensures Digit(y, s) == n - 1 {
        FilterMembers(a, Key(s), n - 1, y);
      }
      LowsInBucket(last, s, n - 1);
      forall x, y | x in front && y in last ensures Lows(s + 8)(x) <= Lows(s + 8)(y) {
        BucketDigits(a, Key(s), n - 1, x);
        LowsLess(x, y, s);
      }
      OrderedJoin(front, last, Lows(s + 8));
    }
  }

  // ----- one pass, as the code runs it -----

  /** Where the elements with digit `b` begin. */
  ghost function Start(a: seq<nat>, key: nat -> int, b: nat): nat {
    |Buckets(a, key, b)|
  }

  lemma {:induction false} StartMonotone(a: seq<nat>, key: nat -> int, b: nat, c: nat)
    requires b <= c
    ensures Start(a, key, b) <= Start(a, key, c)
  {
    if b < c { StartMonotone(a, key, b, c - 1); }
  }

  lemma FilterPush(a: seq<nat>, i: nat, key: nat -> int, b: int)
    requires i < |a|
    ensures Filter(a[..i + 1], key, b) == Filter(a[..i], key, b) + if key(a[i]) == b then [a[i]] else []
  {
    assert a[..i + 1] == a[..i] + [a[i]];
    FilterConcat(a[..i], [a[i]], key, b, a[..i + 1]);
  }

  /** The part of a bucket that comes from the first elements is shorter while one is left. */
  lemma FilterRoom(a: seq<nat>, i: nat, key: nat -> int, b: int)
    requires i < |a|
    ensures |Filter(a[..i], key, b)| + (if key(a[i]) == b then 1 else 0) <= |Filter(a, key, b)|
  {
    FilterPush(a, i, key, b);
    assert a == a[..i + 1] + a[i + 1..];
    FilterConcat(a[..i + 1], a[i + 1..], key, b, a);
  }

  method BuildHistogram(a: array<nat>, len: nat, shift: nat) returns (histogram: seq<nat>)
    requires len <= a.Length
    ensures |histogram| == LSB_HISTOGRAM_SIZE && forall b :: 0 <= b < LSB_HISTOGRAM_SIZE ==>
      histogram[b] == |Filter(a[..len], Key(shift), b)|
  {
    hide Filter, Digit;
    histogram := seq(LSB_HISTOGRAM_SIZE, _ => 0);
    ghost var s := a[..len];
    FilterNothing(s[..0], Key(shift));
    for i := 0 to len
      invariant |histogram| == LSB_HISTOGRAM_SIZE
      invariant forall b :: 0 <= b < LSB_HISTOGRAM_SIZE ==> histogram[b] == |Filter(s[..i], Key(shift), b)|
    {
      var b := Digit(a[i], shift);
      forall c | 0 <= c < LSB_HISTOGRAM_SIZE
        ensures |Filter(s[..i + 1], Key(shift), c)| == |Filter(s[..i], Key(shift), c)| + if c == b then 1 else 0
      {
        FilterPush(s, i, Key(shift), c);
      }
      histogram := histogram[b := histogram[b] + 1];
    }
    assert s[..len] == s;
  }

  lemma FilterNothing(a: seq<nat>, key: nat -> int)
    requires a == []
    ensures forall b :: |Filter(a, key, b)| == 0
  {
  }

  method SumHistogram(counts: seq<nat>, ghost a: seq<nat>, ghost key: nat -> int) returns (histogram: seq<nat>)
    requires |counts| == LSB_HISTOGRAM_SIZE && forall b :: 0 <= b < LSB_HISTOGRAM_SIZE ==>
      counts[b] == |Filter(a, key, b)|
    ensures |histogram| == LSB_HISTOGRAM_SIZE && forall b :: 0 <= b < LSB_HISTOGRAM_SIZE ==>
      histogram[b] == Start(a, key, b)
  {
    histogram := counts;
    var accum := 0;
    for b := 0 to LSB_HISTOGRAM_SIZE
      invariant |histogram| == LSB_HISTOGRAM_SIZE && accum == Start(a, key, b)
      invariant forall c :: 0 <= c < b ==> histogram[c] == Start(a, key, c)
      invariant forall c :: b <= c < LSB_HISTOGRAM_SIZE ==> histogram[c] == |Filter(a, key, c)|
    {
      var temp := histogram[b];
      histogram := histogram[b := accum];
      accum := accum + temp;
    }
  }

  /** Bucket `b` holds what the first `i` elements give it, up to its mark in the histogram. */
  ghost predicate Filled(dest: seq<nat>, a: seq<nat>, key: nat -> int, i: nat, histogram: seq<nat>, b: nat)
    requires i <= |a|
  {
    && b < |histogram| && histogram[b] == Start(a, key, b) + |Filter(a[..i], key, b)| <= |dest|
    && dest[Start(a, key, b)..histogram[b]] == Filter(a[..i], key, b)
  }

  lemma FilledStep(dest: seq<nat>, a: seq<nat>, key: nat -> int, i: nat, histogram: seq<nat>, b: nat, d: nat,
                   dest': seq<nat>, histogram': seq<nat>)
    requires i < |a| && Filled(dest, a, key, i, histogram, b) && d < |histogram| && d == key(a[i])
      && b < LSB_HISTOGRAM_SIZE
    requires Filled(dest, a, key, i, histogram, d) && Start(a, key, d + 1) <= |dest| && histogram[d] < |dest|
    requires dest' == dest[histogram[d] := a[i]] && histogram' == histogram[d := histogram[d] + 1]
    ensures Filled(dest', a, key, i + 1, histogram', b)
  {
    hide Filter, Buckets;
    FilterPush(a, i, key, b);
    FilterRoom(a, i, key, b);
    FilterRoom(a, i, key, d);
    BucketEnds(a, key, b);
    BucketEnds(a, key, d);
    var s := Start(a, key, b);
    if b == d {
      assert dest'[s..histogram[b] + 1] == dest[s..histogram[b]] + [a[i]];
    } else {
      if b < d {
        StartMonotone(a, key, b + 1, d);
      } else {
        StartMonotone(a, key, d + 1, b);
      }
      assert dest'[s..histogram[b]] == dest[s..histogram[b]];
    }
  }

  lemma BucketEnds(a: seq<nat>, key: nat -> int, b: nat)
    ensures Start(a, key, b + 1) == Start(a, key, b) + |Filter(a, key, b)|
  {
  }

  lemma {:induction false} AllFilled(dest: seq<nat>, a: seq<nat>, key: nat -> int, histogram: seq<nat>, n: nat)
    requires n <= LSB_HISTOGRAM_SIZE && forall b: nat :: b < LSB_HISTOGRAM_SIZE ==>
      Filled(dest, a, key, |a|, histogram, b)
    ensures Start(a, key, n) <= |dest| && dest[..Start(a, key, n)] == Buckets(a, key, n)
  {
    if n > 0 {
      AllFilled(dest, a, key, histogram, n - 1);
      assert Filled(dest, a, key, |a|, histogram, n - 1);
      assert a[..|a|] == a;
      var s, t := Start(a, key, n - 1), Start(a, key, n);
      assert dest[..t] == dest[..s] + dest[s..t];
    }
  }

  lemma NoneFilled(dest: seq<nat>, a: seq<nat>, shift: nat, histogram: seq<nat>, b: nat)
    requires |a| <= |dest| && b < LSB_HISTOGRAM_SIZE == |histogram| && histogram[b] == Start(a, Key(shift), b)
    ensures Filled(dest, a, Key(shift), 0, histogram, b)
  {
    StartMonotone(a, Key(shift), b, LSB_HISTOGRAM_SIZE);
    BucketsPermute(a, shift, Buckets(a, Key(shift), LSB_HISTOGRAM_SIZE));
  }

  /** There is room for the element in its bucket. */
  lemma RoomInBucket(dest: seq<nat>, a: seq<nat>, shift: nat, i: nat, histogram: seq<nat>, d: nat)
    requires i < |a| <= |dest| && Filled(dest, a, Key(shift), i, histogram, d) && d == Digit(a[i], shift)
    ensures histogram[d] < |a| && Start(a, Key(shift), d + 1) <= |a|
  {
    hide Filter, Buckets, Digit;
    FilterRoom(a, i, Key(shift), d);
    BucketEnds(a, Key(shift), d);
    StartMonotone(a, Key(shift), d + 1, LSB_HISTOGRAM_SIZE);
    BucketsPermute(a, shift, Buckets(a, Key(shift), LSB_HISTOGRAM_SIZE));
  }

  method Reorder(src: array<nat>, len: nat, start: seq<nat>, shift: nat, dest: array<nat>)
    requires src != dest && len <= src.Length && len <= dest.Length
    requires |start| == LSB_HISTOGRAM_SIZE && forall b :: 0 <= b < LSB_HISTOGRAM_SIZE ==>
      start[b] == Start(src[..len], Key(shift), b)
    modifies dest
    ensures dest[..len] == Buckets(src[..len], Key(shift), LSB_HISTOGRAM_SIZE) && dest[len..] == old(dest[len..])
  {
    hide Filter, Digit, Buckets, Filled;
    var histogram := start;
    ghost var s, key := src[..len], Key(shift);
    forall b: nat | b < LSB_HISTOGRAM_SIZE ensures Filled(dest[..], s, key, 0, histogram, b) {
      NoneFilled(dest[..], s, shift, histogram, b);
    }
    for i := 0 to len
      invariant |histogram| == LSB_HISTOGRAM_SIZE && src[..len] == s && dest[len..] == old(dest[len..])
      invariant forall b: nat :: b < LSB_HISTOGRAM_SIZE ==> Filled(dest[..], s, key, i, histogram, b)
    {
      var d := Digit(src[i], shift);
      RoomInBucket(dest[..], s, shift, i, histogram, d);
      ghost var before, marks := dest[..], histogram;
      dest[histogram[d]] := src[i];
      histogram := histogram[d := histogram[d] + 1];
      ghost var after, next := dest[..], i + 1;
      forall b: nat | b < LSB_HISTOGRAM_SIZE ensures Filled(after, s, key, next, histogram, b) {
        FilledStep(before, s, key, i, marks, b, d, after, histogram);
      }
    }
    AllFilled(dest[..], s, key, histogram, LSB_HISTOGRAM_SIZE);
    BucketsPermute(s, shift, Buckets(s, key, LSB_HISTOGRAM_SIZE));
  }

  lemma {:induction false} FilterAll(a: seq<nat>, key: nat -> int, d: int)
    ensures |Filter(a, key, d)| <= |a| && (|Filter(a, key, d)| == |a| ==> forall x :: x in a ==> key(x) == d)
  {
    if a != [] { FilterAll(a[1..], key, d); }
  }

  /** One pass; nothing is moved if all digits are zero. */
  method SortHistogram(src: array<nat>, len: nat, shift: nat, dest: array<nat>) returns (moved: bool)
    requires src != dest && len <= src.Length && len <= dest.Length
    modifies dest
    ensures moved ==>
      dest[..len] == Buckets(src[..len], Key(shift), LSB_HISTOGRAM_SIZE) && dest[len..] == old(dest[len..])
    ensures !moved ==> dest[..] == old(dest[..]) && forall x :: x in src[..len] ==> Digit(x, shift) == 0
  {
    hide Buckets, Digit;
    var counts := BuildHistogram(src, len, shift);
    if counts[0] == len {
      FilterAll(src[..len], Key(shift), 0);
      return false;
    }
    var start := SumHistogram(counts, src[..len], Key(shift));
    Reorder(src, len, start, shift, dest);
    return true;
  }

  lemma SmallLow(v: nat, s: nat)
    requires v < Pow2(s)
    ensures Low(v, s) == v
  {
    DivMod(v, Pow2(s), 0, v);
  }

  /** The array after the pass, wherever it is, is ordered by one more byte. */
  lemma PassOrdered(before: seq<nat>, after: seq<nat>, shift: nat, moved: bool)
    requires Ordered(before, Lows(shift))
    requires if moved then after == Buckets(before, Key(shift), LSB_HISTOGRAM_SIZE)
      else after == before && forall x :: x in before ==> Digit(x, shift) == 0
    ensures Ordered(after, Lows(shift + 8)) && multiset(after) == multiset(before) && |after| == |before|
  {
    hide Digit, Ordered;
    if moved {
      BucketsOrdered(before, shift, LSB_HISTOGRAM_SIZE);
      BucketsPermute(before, shift, after);
    } else {
      LowsInBucket(before, shift, 0);
    }
  }

  method CopyBack(a: array<nat>, b: array<nat>, len: nat)
    requires a != b && len <= a.Length && len <= b.Length
    modifies a
    ensures a[..len] == b[..len] && a[len..] == old(a[len..])
  {
    for i := 0 to len
      invariant a[..i] == b[..i] && a[len..] == old(a[len..])
    {
      a[i] := b[i];
    }
  }

  lemma FirstPass(a: seq<nat>)
    ensures Ordered(a, Lows(0))
  {
  }

  lemma LastPass(a: seq<nat>, was: seq<nat>, shift: nat, numBits: nat)
    requires Ordered(a, Lows(shift)) && multiset(a) == multiset(was) && shift >= numBits
    requires forall x :: x in was ==> x < Pow2(numBits)
    ensures forall i, j :: 0 <= i < j < |a| ==> a[i] <= a[j]
  {
    Pow2Monotone(numBits, shift);
    forall i | 0 <= i < |a| ensures Low(a[i], shift) == a[i] {
      assert a[i] in multiset(was) && a[i] in was;
      SmallLow(a[i], shift);
    }
    forall i, j | 0 <= i < j < |a| ensures a[i] <= a[j] {
      assert Lows(shift)(a[i]) <= Lows(shift)(a[j]);
    }
  }

  /** Sorts the first `len` numbers of an array, all of at most `numBits` bits. */
  method Sort(numBits: nat, a: array<nat>, len: nat)
    requires len <= a.Length && forall x :: x in a[..len] ==> x < Pow2(numBits)
    modifies a
    ensures multiset(a[..len]) == multiset(old(a[..len])) && a[len..] == old(a[len..])
    ensures forall i, j :: 0 <= i < j < len ==> a[i] <= a[j]
  {
    hide Ordered, Buckets, Digit;
    ghost var was := a[..len];
    if len < INSERTION_SORT_THRESHOLD {
      SortSmall(a, len);
      return;
    }
    var buffer := new nat[len];
    var shift, origin := 0, true;
    FirstPass(a[..len]);
    while shift < numBits
      invariant a[len..] == old(a[len..])
      invariant var cur := if origin then a[..len] else buffer[..len];
        Ordered(cur, Lows(shift)) && multiset(cur) == multiset(was) && |cur| == len
      decreases numBits - shift
    {
      ghost var cur, moved := if origin then a[..len] else buffer[..len], false;
      if origin {
        var m := SortHistogram(a, len, shift, buffer);
        moved := m;
        origin := !m;
      } else {
        var m := SortHistogram(buffer, len, shift, a);
        moved := m;
        origin := m;
      }
      PassOrdered(cur, if origin then a[..len] else buffer[..len], shift, moved);
      shift := shift + 8;
    }
    if !origin {
      CopyBack(a, buffer, len);
    }
    LastPass(a[..len], was, shift, numBits);
    assert forall i :: 0 <= i < len ==> a[..len][i] == a[i];
  }

  /** The standard sort, for short arrays. */
  method SortSmall(a: array<nat>, len: nat)
    requires len <= a.Length
    modifies a
    ensures multiset(a[..len]) == multiset(old(a[..len])) && a[len..] == old(a[len..])
    ensures forall i, j :: 0 <= i < j < len ==> a[i] <= a[j]
  {
    ghost var s := a[..];
    MergeSort(a, (x: nat, y: nat) => x < y, (x: nat) => x, set x | x in a[..], 0, len);
    PermutedPart(s, a[..], len);
  }
}
