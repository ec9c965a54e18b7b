/** The most-significant-byte radix sort of sorter.rs over ids of byte strings. */
module RadixSorter {
  import opened BitMath
  import opened Lex
  import opened Sorter
  import opened IntroSorter

  const LEVEL_THRESHOLD := 8
  const MSB_HISTOGRAM_SIZE := 257
  const LENGTH_THRESHOLD := 100
  const MAX_LENGTH := 0x7fff_ffff
  const COMMON_PREFIX := 24

  // ----- texts and their order -----

  /** The byte string with id `x`. */
  function Text(texts: seq<Term>, x: int): Term {
    if 0 <= x < |texts| then texts[x] else []
  }

  /** `byte_at` shifted by one: 0 once the string has ended. */
  function BucketOf(t: Term, k: nat): (b: nat)
    ensures b < MSB_HISTOGRAM_SIZE
  {
    if k < |t| then t[k] as int + 1 else 0
  }

  function Take(t: Term, k: nat): Term {
    if k < |t| then t[..k] else t
  }

  /** `rank` numbers the ids in the order of their texts. */
  ghost predicate TextRank(texts: seq<Term>, rank: int -> int) {
    && (forall x, y :: Less(Text(texts, x), Text(texts, y)) <==> rank(x) < rank(y))
    && (forall x, y :: Text(texts, x) == Text(texts, y) <==> rank(x) == rank(y))
  }

  /** All texts agree on their first `k` bytes. */
  ghost predicate Agree(texts: seq<Term>, dom: set<int>, k: nat) {
    forall x, y :: x in dom && y in dom ==> Take(Text(texts, x), k) == Take(Text(texts, y), k)
  }

  ghost predicate AtLeast(texts: seq<Term>, dom: set<int>, k: nat) {
    forall x :: x in dom ==> |Text(texts, x)| >= k
  }

  ghost predicate AtMost(texts: seq<Term>, dom: set<int>, k: nat) {
    forall x :: x in dom ==> |Text(texts, x)| <= k
  }

  lemma TakeStep(a: Term, b: Term, k: nat)
    requires Take(a, k) == Take(b, k) && BucketOf(a, k) == BucketOf(b, k)
    ensures Take(a, k + 1) == Take(b, k + 1)
  {
    if k < |a| && k < |b| {
      assert a[..k + 1] == a[..k] + [a[k]] && b[..k + 1] == b[..k] + [b[k]];
    }
  }

  lemma {:induction false} TakeLess(a: Term, b: Term, k: nat)
    requires Take(a, k) == Take(b, k) && BucketOf(a, k) < BucketOf(b, k)
    ensures Less(a, b)
  {
    if k > 0 && a != [] {
      assert Take(a, k)[0] == a[0] && Take(b, k)[0] == b[0];
      assert Take(a[1..], k - 1) == Take(a, k)[1..] && Take(b[1..], k - 1) == Take(b, k)[1..];
      TakeLess(a[1..], b[1..], k - 1);
    }
  }

  /** Comparing from byte `k` on, as the fallback sorter does, is comparing the whole texts. */
  lemma {:induction false} SuffixLess(a: Term, b: Term, k: nat)
    requires k <= |a| && k <= |b| && Take(a, k) == Take(b, k)
    ensures Less(a[k..], b[k..]) <==> Less(a, b)
  {
    if k == 0 {
      assert a[0..] == a && b[0..] == b;
    } else {
      assert Take(a, k)[0] == a[0] && Take(b, k)[0] == b[0];
      assert Take(a[1..], k - 1) == Take(a, k)[1..] && Take(b[1..], k - 1) == Take(b, k)[1..];
      SuffixLess(a[1..], b[1..], k - 1);
      assert a[1..][k - 1..] == a[k..] && b[1..][k - 1..] == b[k..];
    }
  }

  function LessFrom(texts: seq<Term>, k: nat, x: int, y: int): bool {
    var a, b := Text(texts, x), Text(texts, y);
    k <= |a| && k <= |b| && Less(a[k..], b[k..])
  }

  lemma FallbackOrders(texts: seq<Term>, rank: int -> int, dom: set<int>, k: nat)
    requires TextRank(texts, rank) && Agree(texts, dom, k) && AtLeast(texts, dom, k)
    ensures Orders((x, y) => LessFrom(texts, k, x, y), rank, dom)
  {
    forall x, y | x in dom && y in dom ensures LessFrom(texts, k, x, y) <==> rank(x) < rank(y) {
      SuffixLess(Text(texts, x), Text(texts, y), k);
    }
  }

  /** Texts that agree up to their ends are equal. */
  lemma AllEqual(texts: seq<Term>, rank: int -> int, dom: set<int>, k: nat, s: seq<int>, from: nat, to: nat)
    requires TextRank(texts, rank) && Agree(texts, dom, k) && AtMost(texts, dom, k)
    requires from <= to <= |s| && InDom(s, from, to, dom)
    ensures Sorted(s, rank, from, to)
  {
    forall i, j | from <= i < j < to ensures rank(s[i]) <= rank(s[j]) {
      assert s[i] in dom && s[j] in dom;
      assert Take(Text(texts, s[i]), k) == Take(Text(texts, s[j]), k);
    }
  }

  // ----- counting -----

  ghost function Buckets(s: seq<int>, texts: seq<Term>, from: nat, to: nat, k: nat): (r: seq<nat>)
    requires from <= to <= |s|
    ensures |r| == to - from && forall i :: 0 <= i < |r| ==> r[i] == BucketOf(Text(texts, s[from + i]), k)
  {
    seq<nat>(to - from, i requires 0 <= i < to - from => BucketOf(Text(texts, s[from + i]), k))
  }

  ghost predicate Counts(hist: seq<nat>, bs: seq<nat>) {
    |hist| == MSB_HISTOGRAM_SIZE && forall b :: 0 <= b < MSB_HISTOGRAM_SIZE ==> hist[b] == multiset(bs)[b]
  }

  lemma CountsAppend(hist: seq<nat>, bs: seq<nat>, b: nat)
    requires Counts(hist, bs) && b < MSB_HISTOGRAM_SIZE
    ensures Counts(hist[b := hist[b] + 1], bs + [b])
  {
  }

  lemma {:induction false} CountOfSame(bs: seq<nat>, b: nat, c: nat)
    requires forall i :: 0 <= i < |bs| ==> bs[i] == b
    ensures multiset(bs)[c] == if c == b then |bs| else 0
  {
    if bs != [] {
      var n := |bs| - 1;
      assert bs == bs[..n] + [bs[n]];
      CountOfSame(bs[..n], b, c);
    }
  }

  lemma CountsOfSame(bs: seq<nat>, b: nat)
    requires b < MSB_HISTOGRAM_SIZE && forall i :: 0 <= i < |bs| ==> bs[i] == b
    ensures Counts(seq(MSB_HISTOGRAM_SIZE, _ => 0)[b := |bs|], bs)
  {
    forall c | 0 <= c < MSB_HISTOGRAM_SIZE ensures multiset(bs)[c] == if c == b then |bs| else 0 {
      CountOfSame(bs, b, c);
    }
  }

  /** A run of `c`s and one more `c` elsewhere are counted together. */
  lemma CountExceeds(bs: seq<nat>, c: nat, lo: nat, hi: nat, p: nat)
    requires lo <= hi <= |bs| && p < |bs| && !(lo <= p < hi) && bs[p] == c
    requires forall q :: lo <= q < hi ==> bs[q] == c
    ensures multiset(bs)[c] >= hi - lo + 1
  {
    var a, m, z := bs[..lo], bs[lo..hi], bs[hi..];
    assert bs == a + m + z;
    CountOfSame(m, c, c);
    if p < lo {
      assert a[p] == c && c in multiset(a);
    } else {
      assert z[p - hi] == c && c in multiset(z);
    }
  }

  /** The sum of the first `n` numbers. */
  function Sum(h: seq<nat>, n: nat): nat
    requires n <= |h|
  {
    if n == 0 then 0 else Sum(h, n - 1) + h[n - 1]
  }

  lemma {:induction false} SumBump(h: seq<nat>, x: nat, n: nat)
    requires x < |h| && n <= |h|
    ensures Sum(h[x := h[x] + 1], n) == Sum(h, n) + if x < n then 1 else 0
  {
    if n > 0 { SumBump(h, x, n - 1); }
  }

  lemma {:induction false} SumMonotone(h: seq<nat>, m: nat, n: nat)
    requires m <= n <= |h|
    ensures Sum(h, m) <= Sum(h, n)
  {
    if m < n { SumMonotone(h, m, n - 1); }
  }

  lemma {:induction false} SumZero(h: seq<nat>, n: nat)
    requires n <= |h| && forall i :: 0 <= i < |h| ==> h[i] == 0
    ensures Sum(h, n) == 0
  {
    if n > 0 { SumZero(h, n - 1); }
  }

  /** A histogram adds up to the number of values counted. */
  lemma {:induction false} CountsTotal(hist: seq<nat>, bs: seq<nat>)
    requires Counts(hist, bs) && forall i :: 0 <= i < |bs| ==> bs[i] < MSB_HISTOGRAM_SIZE
    ensures Sum(hist, MSB_HISTOGRAM_SIZE) == |bs|
    decreases |bs|
  {
    if bs == [] {
      SumZero(hist, MSB_HISTOGRAM_SIZE);
    } else {
      var n := |bs| - 1;
      var b := bs[n];
      assert bs == bs[..n] + [b];
      var h := hist[b := hist[b] - 1];
      assert Counts(h, bs[..n]);
      CountsTotal(h, bs[..n]);
      SumBump(h, b, MSB_HISTOGRAM_SIZE);
      assert h[b := h[b] + 1] == hist;
    }
  }

  // ----- common prefix and histogram -----

  /** All texts of the range have the bytes `prefix` from `k` on. */
  ghost predicate SamePrefix(s: seq<int>, texts: seq<Term>, from: nat, to: nat, k: nat, prefix: seq<nat>)
    requires from <= to <= |s|
  {
    forall i, j :: from <= i < to && 0 <= j < |prefix| ==> BucketOf(Text(texts, s[i]), k + j) == prefix[j]
  }

  /** The bytes of the first text from `k` on, up to its end marker. */
  method FirstPrefix(t: Term, k: nat) returns (prefix: seq<nat>)
    requires k < MAX_LENGTH
    ensures 1 <= |prefix| <= COMMON_PREFIX
    ensures forall j :: 0 <= j < |prefix| ==> prefix[j] == BucketOf(t, k + j)
  {
    prefix := [];
    var limit := if MAX_LENGTH - k < COMMON_PREFIX then MAX_LENGTH - k else COMMON_PREFIX;
    for j := 0 to limit
      invariant |prefix| == j && forall i :: 0 <= i < j ==> prefix[i] == BucketOf(t, k + i)
    {
      var b := BucketOf(t, k + j);
      prefix := prefix + [b];
      if b == 0 {
        return;
      }
    }
  }

  /** How much of `prefix` the text has from `k` on. */
  method Shared(t: Term, k: nat, prefix: seq<nat>) returns (j: nat)
    ensures j <= |prefix| && (j < |prefix| ==> BucketOf(t, k + j) != prefix[j])
    ensures forall i :: 0 <= i < j ==> BucketOf(t, k + i) == prefix[i]
  {
    j := 0;
    while j < |prefix| && BucketOf(t, k + j) == prefix[j]
      invariant j <= |prefix| && forall i :: 0 <= i < j ==> BucketOf(t, k + i) == prefix[i]
    {
      j := j + 1;
    }
  }

  /** Either the common prefix of the whole range, shortened until all texts have it, or, once
      it is empty, the histogram of byte `k`. */
  method CommonPrefixOrHistogram(a: array<int>, texts: seq<Term>, from: nat, to: nat, k: nat)
    returns (prefix: seq<nat>, hist: seq<nat>)
    requires from < to <= a.Length && k < MAX_LENGTH
    ensures |hist| == MSB_HISTOGRAM_SIZE
    ensures prefix != [] ==> SamePrefix(a[..], texts, from, to, k, prefix) && (hist[0] < to - from <==> prefix[0] != 0)
    ensures prefix != [] ==> prefix[0] < |hist| && hist == seq(MSB_HISTOGRAM_SIZE, _ => 0)[prefix[0] := to - from]
    ensures prefix == [] ==> Counts(hist, Buckets(a[..], texts, from, to, k))
  {
    hist := seq(MSB_HISTOGRAM_SIZE, _ => 0);
    prefix := FirstPrefix(Text(texts, a[from]), k);
    var index := from + 1;
    while index < to
      invariant from < index <= to && prefix != [] && hist == seq(MSB_HISTOGRAM_SIZE, _ => 0)
      invariant SamePrefix(a[..], texts, from, index, k, prefix) && prefix[0] < MSB_HISTOGRAM_SIZE
    {
      var t := Text(texts, a[index]);
      var j := Shared(t, k, prefix);
      if j == 0 {
        hist := Histogram(a, texts, from, index, to, k, prefix[0]);
        prefix := [];
        return;
      }
      prefix := prefix[..j];
      index := index + 1;
    }
    hist := hist[prefix[0] := to - from];
  }

  /** The histogram, when the texts before `index` all have byte `b` and that at `index` another. */
  method Histogram(a: array<int>, texts: seq<Term>, from: nat, index: nat, to: nat, k: nat, b: nat)
    returns (hist: seq<nat>)
    requires from < index < to <= a.Length && b < MSB_HISTOGRAM_SIZE
    requires forall i :: from <= i < index ==> BucketOf(Text(texts, a[i]), k) == b
    requires BucketOf(Text(texts, a[index]), k) != b
    ensures Counts(hist, Buckets(a[..], texts, from, to, k))
  {
    hide Counts;
    var c := BucketOf(Text(texts, a[index]), k);
    hist := seq(MSB_HISTOGRAM_SIZE, _ => 0)[b := index - from];
    CountsOfSame(Buckets(a[..], texts, from, index, k), b);
    CountsAppend(hist, Buckets(a[..], texts, from, index, k), c);
    hist := hist[c := 1];
    assert Buckets(a[..], texts, from, index, k) + [c] == Buckets(a[..], texts, from, index + 1, k);
    for i := index + 1 to to
      invariant |hist| == MSB_HISTOGRAM_SIZE && Counts(hist, Buckets(a[..], texts, from, i, k))
    {
      var bucket := BucketOf(Text(texts, a[i]), k);
      CountsAppend(hist, Buckets(a[..], texts, from, i, k), bucket);
      assert Buckets(a[..], texts, from, i, k) + [bucket] == Buckets(a[..], texts, from, i + 1, k);
      hist := hist[bucket := hist[bucket] + 1];
    }
  }

  /** Bucket starts and ends: running sums of the histogram. */
  method SumHistogram(hist: seq<nat>) returns (starts: seq<nat>, ends: seq<nat>)
    requires |hist| == MSB_HISTOGRAM_SIZE
    ensures Bounds(hist, starts, ends)
  {
    starts, ends := [], [];
    var accum := 0;
    for i := 0 to MSB_HISTOGRAM_SIZE
      invariant |starts| == |ends| == i && accum == Sum(hist, i)
      invariant forall c :: 0 <= c < i ==> starts[c] == Sum(hist, c) && ends[c] == Sum(hist, c + 1)
    {
      starts := starts + [accum];
      accum := accum + hist[i];
      ends := ends + [accum];
    }
  }

  ghost predicate Bounds(hist: seq<nat>, starts: seq<nat>, ends: seq<nat>) {
    && |hist| == |starts| == |ends| == MSB_HISTOGRAM_SIZE
    && forall c :: 0 <= c < MSB_HISTOGRAM_SIZE ==> starts[c] == Sum(hist, c) && ends[c] == Sum(hist, c + 1)
  }

  // ----- reorder -----

  /** The slots of bucket `c` before `next` hold values of that bucket. */
  ghost predicate Filled(bs: seq<nat>, c: nat, start: nat, next: nat)
    requires next <= |bs|
  {
    forall p :: start <= p < next ==> bs[p] == c
  }

  ghost predicate BucketBounds(starts: seq<nat>, ends: seq<nat>, n: nat) {
    && |starts| == |ends| == MSB_HISTOGRAM_SIZE
    && (forall c :: 0 <= c < MSB_HISTOGRAM_SIZE ==> starts[c] <= ends[c] <= n)
    && (forall c, d :: 0 <= c < d < MSB_HISTOGRAM_SIZE ==> ends[c] <= starts[d])
  }

  /** Every bucket is filled from its start up to `next`, and is as large as its values are many. */
  ghost predicate Reordering(bs: seq<nat>, starts: seq<nat>, next: seq<nat>, ends: seq<nat>) {
    && BucketBounds(starts, ends, |bs|) && |next| == MSB_HISTOGRAM_SIZE
    && (forall c :: 0 <= c < MSB_HISTOGRAM_SIZE ==>
          starts[c] <= next[c] <= ends[c] && Filled(bs, c, starts[c], next[c]))
    && (forall c :: 0 <= c < MSB_HISTOGRAM_SIZE ==> multiset(bs)[c] == ends[c] - starts[c])
  }

  /** An element that is not yet in its bucket finds room there. */
  lemma RoomLeft(bs: seq<nat>, starts: seq<nat>, next: seq<nat>, ends: seq<nat>, i: nat, h1: nat)
    requires Reordering(bs, starts, next, ends) && i < MSB_HISTOGRAM_SIZE && next[i] <= h1 < ends[i]
    requires bs[h1] < MSB_HISTOGRAM_SIZE
    ensures next[bs[h1]] < ends[bs[h1]]
  {
    var b := bs[h1];
    assert Filled(bs, b, starts[b], next[b]) && starts[b] <= next[b] <= ends[b];
    if i < b { assert ends[i] <= starts[b]; }
    if b < i { assert ends[b] <= starts[i] && starts[i] <= next[i]; }
    CountExceeds(bs, b, starts[b], next[b], h1);
    assert multiset(bs)[b] == ends[b] - starts[b];
  }

  lemma ReorderStep(bs: seq<nat>, starts: seq<nat>, next: seq<nat>, ends: seq<nat>, i: nat, h1: nat, b: nat, h2: nat,
                    bs': seq<nat>)
    requires Reordering(bs, starts, next, ends) && i < MSB_HISTOGRAM_SIZE && next[i] == h1 < ends[i]
    requires b == bs[h1] < MSB_HISTOGRAM_SIZE && h2 == next[b] < ends[b]
    requires bs' == bs[h1 := bs[h2]][h2 := bs[h1]]
    ensures Reordering(bs', starts, next[b := h2 + 1], ends)
  {
    assert multiset(bs') == multiset(bs);
    var next' := next[b := h2 + 1];
    forall c | 0 <= c < MSB_HISTOGRAM_SIZE ensures Filled(bs', c, starts[c], next'[c]) {
      if c != b { assert ends[c] <= starts[b] || ends[b] <= starts[c]; }
      if c != i { assert ends[c] <= starts[i] || ends[i] <= starts[c]; }
      FilledStep(bs, bs', c, starts[c], next[c], next'[c], h1, h2, b);
    }
  }

  lemma FilledStep(bs: seq<nat>, bs': seq<nat>, c: nat, start: nat, next: nat, next': nat, h1: nat, h2: nat, b: nat)
    requires next <= |bs| && next' <= |bs| && h1 < |bs| && h2 < |bs| && Filled(bs, c, start, next)
    requires bs[h1] == b && bs' == bs[h1 := bs[h2]][h2 := bs[h1]]
    requires !(start <= h1 < next)
    requires if c == b then h2 == next && next' == next + 1 else next' == next && !(start <= h2 < next)
    ensures Filled(bs', c, start, next')
  {
  }

  lemma BucketsSwap(s: seq<int>, t: seq<int>, texts: seq<Term>, from: nat, to: nat, k: nat, i: nat, j: nat)
    requires from <= to <= |s| && i < to - from && j < to - from
    requires t == s[from + i := s[from + j]][from + j := s[from + i]]
    ensures var bs := Buckets(s, texts, from, to, k); Buckets(t, texts, from, to, k) == bs[i := bs[j]][j := bs[i]]
  {
  }

  /** In-place reordering: each element met outside its bucket is swapped to the next free slot of it. */
  method Reorder(a: array<int>, texts: seq<Term>, ghost dom: set<int>, from: nat, to: nat, k: nat, starts: seq<nat>,
                 ends: seq<nat>)
    returns (next: seq<nat>)
    requires from <= to <= a.Length && InDom(a[..], from, to, dom)
    requires Reordering(Buckets(a[..], texts, from, to, k), starts, starts, ends)
    modifies a
    ensures InDom(a[..], from, to, dom) && PermutedWithin(old(a[..]), a[..], from, to)
    ensures next == ends && Reordering(Buckets(a[..], texts, from, to, k), starts, ends, ends)
  {
    hide Reordering, Sum, PermutedWithin, InDom, Buckets;
    next := starts;
    ReorderBounds(Buckets(a[..], texts, from, to, k), starts, next, ends);
    Unmoved(a[..], from, to);
    for i := 0 to MSB_HISTOGRAM_SIZE
      invariant |next| == |ends| == MSB_HISTOGRAM_SIZE
        && Reordering(Buckets(a[..], texts, from, to, k), starts, next, ends)
      invariant forall c :: 0 <= c < MSB_HISTOGRAM_SIZE ==> next[c] <= ends[c]
      invariant forall c :: 0 <= c < i ==> next[c] == ends[c]
      invariant InDom(a[..], from, to, dom) && PermutedWithin(old(a[..]), a[..], from, to)
    {
      ghost var s := a[..];
      next := FillBucket(a, texts, dom, from, to, k, starts, next, ends, i);
      PermTrans(old(a[..]), s, a[..], from, to, from, to);
    }
  }

  lemma ReorderBounds(bs: seq<nat>, starts: seq<nat>, next: seq<nat>, ends: seq<nat>)
    requires Reordering(bs, starts, next, ends)
    ensures |next| == |ends| == MSB_HISTOGRAM_SIZE
    ensures forall c :: 0 <= c < MSB_HISTOGRAM_SIZE ==> next[c] <= ends[c] <= |bs|
  {
  }

  /** Moves the element in the next slot of bucket `i` to its own bucket. */
  method PlaceOne(a: array<int>, texts: seq<Term>, ghost dom: set<int>, from: nat, to: nat, k: nat,
                  ghost starts: seq<nat>, start: seq<nat>, ghost ends: seq<nat>, i: nat)
    returns (next: seq<nat>, ghost b: nat)
    requires from <= to <= a.Length && InDom(a[..], from, to, dom) && i < MSB_HISTOGRAM_SIZE == |start| == |ends|
    requires Reordering(Buckets(a[..], texts, from, to, k), starts, start, ends) && start[i] < ends[i]
    modifies a
    ensures InDom(a[..], from, to, dom) && PermutedWithin(old(a[..]), a[..], from, to)
    ensures b < |start| && start[b] < ends[b] && next == start[b := start[b] + 1]
    ensures Reordering(Buckets(a[..], texts, from, to, k), starts, next, ends)
  {
    hide Reordering, PermutedWithin, InDom;
    ghost var s := a[..];
    ghost var bs := Buckets(s, texts, from, to, k);
    ReorderBounds(bs, starts, start, ends);
    var h1 := start[i];
    var bucket := BucketOf(Text(texts, a[from + h1]), k);
    RoomLeft(bs, starts, start, ends, i, h1);
    var h2 := start[bucket];
    next, b := start[bucket := h2 + 1], bucket;
    Swap(a, from + h1, from + h2);
    Unmoved(s, from, to);
    SwapWithin(s, s, a[..], from, to, from + h1, from + h2, dom);
    BucketsSwap(s, a[..], texts, from, to, k, h1, h2);
    ReorderStep(bs, starts, start, ends, i, h1, bucket, h2, Buckets(a[..], texts, from, to, k));
  }

  method FillBucket(a: array<int>, texts: seq<Term>, ghost dom: set<int>, from: nat, to: nat, k: nat,
                    ghost starts: seq<nat>, start: seq<nat>, ends: seq<nat>, i: nat)
    returns (next: seq<nat>)
    requires from <= to <= a.Length && InDom(a[..], from, to, dom) && i < MSB_HISTOGRAM_SIZE
    requires Reordering(Buckets(a[..], texts, from, to, k), starts, start, ends)
    modifies a
    ensures InDom(a[..], from, to, dom) && PermutedWithin(old(a[..]), a[..], from, to)
    ensures Reordering(Buckets(a[..], texts, from, to, k), starts, next, ends)
    ensures |next| == |start| == |ends| == MSB_HISTOGRAM_SIZE && next[i] == ends[i]
    ensures forall c :: 0 <= c < MSB_HISTOGRAM_SIZE ==> start[c] <= next[c] <= ends[c]
  {
    hide Reordering, Sum, PermutedWithin, InDom, Buckets;
    next := start;
    ReorderBounds(Buckets(a[..], texts, from, to, k), starts, next, ends);
    Unmoved(a[..], from, to);
    while next[i] < ends[i]
      invariant |next| == |ends| == |start| == MSB_HISTOGRAM_SIZE
      invariant Reordering(Buckets(a[..], texts, from, to, k), starts, next, ends)
      invariant forall c :: 0 <= c < MSB_HISTOGRAM_SIZE ==> start[c] <= next[c] <= ends[c] <= to - from
      invariant InDom(a[..], from, to, dom) && PermutedWithin(old(a[..]), a[..], from, to)
      decreases MSB_HISTOGRAM_SIZE * (to - from) - Sum(next, MSB_HISTOGRAM_SIZE)
    {
      ghost var s, before, b := a[..], next, 0;
      next, b := PlaceOne(a, texts, dom, from, to, k, starts, next, ends, i);
      PermTrans(old(a[..]), s, a[..], from, to, from, to);
      SumBump(before, b, MSB_HISTOGRAM_SIZE);
      SumBounded(next, to - from, MSB_HISTOGRAM_SIZE);
    }
  }

  lemma {:induction false} SumBounded(h: seq<nat>, m: nat, n: nat)
    requires n <= |h| && forall i :: 0 <= i < |h| ==> h[i] <= m
    ensures Sum(h, n) <= n * m
  {
    if n > 0 { SumBounded(h, m, n - 1); }
  }

  // ----- the recursion -----

  ghost function InBucket(texts: seq<Term>, dom: set<int>, k: nat, c: nat): set<int> {
    set x | x in dom && BucketOf(Text(texts, x), k) == c
  }

  ghost function BelowBucket(texts: seq<Term>, dom: set<int>, k: nat, c: nat): set<int> {
    set x | x in dom && BucketOf(Text(texts, x), k) < c
  }

  /** What the sort needs to know about a range at depth `k`. */
  ghost predicate Sortable(s: seq<int>, texts: seq<Term>, rank: int -> int, dom: set<int>, from: nat, to: nat, k: nat) {
    && from <= to <= |s| && InDom(s, from, to, dom) && TextRank(texts, rank)
    && Agree(texts, dom, k) && AtMost(texts, dom, MAX_LENGTH) && k < MAX_LENGTH
  }

  ghost predicate SortedRange(s: seq<int>, t: seq<int>, rank: int -> int, dom: set<int>, from: nat, to: nat) {
    PermutedWithin(s, t, from, to) && Sorted(t, rank, from, to) && InDom(t, from, to, dom)
  }

  lemma BucketAgrees(texts: seq<Term>, dom: set<int>, k: nat, c: nat)
    requires Agree(texts, dom, k)
    ensures Agree(texts, InBucket(texts, dom, k, c), k + 1)
    ensures if c == 0 then AtMost(texts, InBucket(texts, dom, k, c), k)
      else AtLeast(texts, InBucket(texts, dom, k, c), k + 1)
    ensures Agree(texts, InBucket(texts, dom, k, c), k)
  {
    forall x, y | x in InBucket(texts, dom, k, c) && y in InBucket(texts, dom, k, c)
      ensures Take(Text(texts, x), k + 1) == Take(Text(texts, y), k + 1)
    {
      TakeStep(Text(texts, x), Text(texts, y), k);
    }
  }

  /** Lower buckets hold lower texts. */
  lemma BucketsAscend(texts: seq<Term>, rank: int -> int, dom: set<int>, k: nat, x: int, y: int)
    requires TextRank(texts, rank) && Agree(texts, dom, k) && x in dom && y in dom
    requires BucketOf(Text(texts, x), k) < BucketOf(Text(texts, y), k)
    ensures rank(x) < rank(y)
  {
    TakeLess(Text(texts, x), Text(texts, y), k);
  }

  lemma JoinBucket(s: seq<int>, texts: seq<Term>, rank: int -> int, dom: set<int>, k: nat, c: nat, from: nat, mid: nat,
                   to: nat)
    requires TextRank(texts, rank) && Agree(texts, dom, k) && from <= mid <= to <= |s|
    requires Sorted(s, rank, from, mid) && InDom(s, from, mid, BelowBucket(texts, dom, k, c))
    requires Sorted(s, rank, mid, to) && InDom(s, mid, to, InBucket(texts, dom, k, c))
    ensures Sorted(s, rank, from, to) && InDom(s, from, to, BelowBucket(texts, dom, k, c + 1))
  {
    forall i, j | from <= i < j < to ensures rank(s[i]) <= rank(s[j]) {
      if i < mid <= j {
        assert s[i] in BelowBucket(texts, dom, k, c) && s[j] in InBucket(texts, dom, k, c);
        BucketsAscend(texts, rank, dom, k, s[i], s[j]);
      }
    }
  }

  /** The buckets before `i` are sorted together; those from `i` on hold what belongs there. */
  ghost predicate BucketsSorted(s: seq<int>, texts: seq<Term>, rank: int -> int, dom: set<int>, k: nat, from: nat,
                                to: nat, starts: seq<nat>, ends: seq<nat>, i: nat) {
    && from <= to <= |s| && Tiles(starts, ends, to - from) && 0 < i <= MSB_HISTOGRAM_SIZE
    && Sorted(s, rank, from, from + ends[i - 1]) && InDom(s, from, from + ends[i - 1], BelowBucket(texts, dom, k, i))
    && (forall c :: i <= c < MSB_HISTOGRAM_SIZE ==>
          InDom(s, from + starts[c], from + ends[c], InBucket(texts, dom, k, c)))
  }

  /** The buckets follow each other without gaps and fill the range. */
  ghost predicate Tiles(starts: seq<nat>, ends: seq<nat>, n: nat) {
    && BucketBounds(starts, ends, n) && starts[0] == 0 && ends[MSB_HISTOGRAM_SIZE - 1] == n
    && forall c :: 0 <= c < MSB_HISTOGRAM_SIZE - 1 ==> starts[c + 1] == ends[c]
  }

  lemma TilesFromCounts(hist: seq<nat>, bs: seq<nat>, starts: seq<nat>, ends: seq<nat>)
    requires Counts(hist, bs) && Bounds(hist, starts, ends) && forall i :: 0 <= i < |bs| ==> bs[i] < MSB_HISTOGRAM_SIZE
    ensures Tiles(starts, ends, |bs|)
  {
    CountsTotal(hist, bs);
    forall c | 0 <= c < MSB_HISTOGRAM_SIZE ensures starts[c] <= ends[c] <= |bs| {
      SumMonotone(hist, c, c + 1);
      SumMonotone(hist, c + 1, MSB_HISTOGRAM_SIZE);
    }
    forall c, d | 0 <= c < d < MSB_HISTOGRAM_SIZE ensures ends[c] <= starts[d] {
      SumMonotone(hist, c + 1, d);
    }
  }

  lemma ReorderingStarts(hist: seq<nat>, bs: seq<nat>, starts: seq<nat>, ends: seq<nat>)
    requires Counts(hist, bs) && Bounds(hist, starts, ends) && BucketBounds(starts, ends, |bs|)
    ensures Reordering(bs, starts, starts, ends)
  {
    forall c | 0 <= c < MSB_HISTOGRAM_SIZE ensures multiset(bs)[c] == ends[c] - starts[c] {
      assert Sum(hist, c + 1) == Sum(hist, c) + hist[c];
    }
  }

  lemma FirstBucket(s: seq<int>, texts: seq<Term>, rank: int -> int, dom: set<int>, k: nat, from: nat, to: nat,
                    starts: seq<nat>, ends: seq<nat>)
    requires Sortable(s, texts, rank, dom, from, to, k) && Tiles(starts, ends, to - from)
    requires Reordering(Buckets(s, texts, from, to, k), starts, ends, ends)
    ensures BucketsSorted(s, texts, rank, dom, k, from, to, starts, ends, 1)
  {
    var bs := Buckets(s, texts, from, to, k);
    forall c | 0 <= c < MSB_HISTOGRAM_SIZE
      ensures InDom(s, from + starts[c], from + ends[c], InBucket(texts, dom, k, c))
    {
      assert Filled(bs, c, starts[c], ends[c]);
      forall p | from + starts[c] <= p < from + ends[c] ensures s[p] in InBucket(texts, dom, k, c) {
        assert bs[p - from] == c;
      }
    }
    BucketAgrees(texts, dom, k, 0);
    AllEqual(texts, rank, InBucket(texts, dom, k, 0), k, s, from, from + ends[0]);
    assert InDom(s, from + starts[0], from + ends[0], InBucket(texts, dom, k, 0));
    assert InDom(s, from, from + ends[0], BelowBucket(texts, dom, k, 1));
  }

  lemma NextBucket(s: seq<int>, t: seq<int>, texts: seq<Term>, rank: int -> int, dom: set<int>, k: nat, from: nat,
                   to: nat, starts: seq<nat>, ends: seq<nat>, i: nat)
    requires Sortable(s, texts, rank, dom, from, to, k)
      && BucketsSorted(s, texts, rank, dom, k, from, to, starts, ends, i)
    requires i < MSB_HISTOGRAM_SIZE
    requires SortedRange(s, t, rank, InBucket(texts, dom, k, i), from + starts[i], from + ends[i])
    ensures BucketsSorted(t, texts, rank, dom, k, from, to, starts, ends, i + 1) && PermutedWithin(s, t, from, to)
    ensures Sortable(t, texts, rank, dom, from, to, k)
  {
    assert starts[(i - 1) + 1] == ends[i - 1];
    assert Sorted(t, rank, from, from + starts[i]) && InDom(t, from, from + starts[i], BelowBucket(texts, dom, k, i));
    JoinBucket(t, texts, rank, dom, k, i, from, from + starts[i], from + ends[i]);
    forall c | i + 1 <= c < MSB_HISTOGRAM_SIZE
      ensures InDom(t, from + starts[c], from + ends[c], InBucket(texts, dom, k, c))
    {
      assert InDom(s, from + starts[c], from + ends[c], InBucket(texts, dom, k, c));
      assert ends[i] <= starts[c];
    }
  }

  ghost function Elements(s: seq<int>, from: nat, to: nat): set<int>
    requires from <= to <= |s|
  {
    set i | from <= i < to :: s[i]
  }

  lemma {:induction false} TakeSteps(a: Term, b: Term, k: nat, c: nat)
    requires Take(a, k) == Take(b, k) && forall j :: k <= j < k + c ==> BucketOf(a, j) == BucketOf(b, j)
    ensures Take(a, k + c) == Take(b, k + c)
    decreases c
  {
    if c > 0 {
      TakeSteps(a, b, k, c - 1);
      TakeStep(a, b, k + (c - 1));
    }
  }

  /** A common prefix makes the texts agree further; one that starts with the end marker means
      that they are all equal. */
  lemma PrefixAgrees(s: seq<int>, texts: seq<Term>, rank: int -> int, dom: set<int>, from: nat, to: nat, k: nat,
                     prefix: seq<nat>)
    requires Sortable(s, texts, rank, dom, from, to, k) && prefix != [] && SamePrefix(s, texts, from, to, k, prefix)
    ensures var d := Elements(s, from, to);
            d <= dom && InDom(s, from, to, d) && Agree(texts, d, k + |prefix|) && AtMost(texts, d, MAX_LENGTH)
    ensures prefix[0] == 0 || k + |prefix| >= MAX_LENGTH ==> Sorted(s, rank, from, to)
    ensures prefix[0] != 0 && from < to ==> |Text(texts, s[from])| > k
  {
    var d := Elements(s, from, to);
    forall x, y | x in d && y in d ensures Take(Text(texts, x), k + |prefix|) == Take(Text(texts, y), k + |prefix|) {
      forall j | k <= j < k + |prefix| ensures BucketOf(Text(texts, x), j) == BucketOf(Text(texts, y), j) {
        assert BucketOf(Text(texts, x), k + (j - k)) == prefix[j - k] == BucketOf(Text(texts, y), k + (j - k));
      }
      TakeSteps(Text(texts, x), Text(texts, y), k, |prefix|);
    }
    if prefix[0] == 0 {
      forall x | x in d ensures |Text(texts, x)| <= k { assert BucketOf(Text(texts, x), k + 0) == 0; }
      AllEqual(texts, rank, d, k, s, from, to);
    } else if k + |prefix| >= MAX_LENGTH {
      AllEqual(texts, rank, d, k + |prefix|, s, from, to);
    }
    if prefix[0] != 0 && from < to {
      assert BucketOf(Text(texts, s[from]), k + 0) == prefix[0];
    }
  }

  /** Sorts one range: with the fallback sorter when it is short or deep, else by radix. */
  method SortInner(a: array<int>, texts: seq<Term>, ghost rank: int -> int, ghost dom: set<int>, from: nat, to: nat,
                   k: nat, l: nat, ghost maxLen: nat)
    requires Sortable(a[..], texts, rank, dom, from, to, k) && AtLeast(texts, dom, k) && AtMost(texts, dom, maxLen)
    requires l <= LEVEL_THRESHOLD
    modifies a
    ensures SortedRange(old(a[..]), a[..], rank, dom, from, to)
    decreases LEVEL_THRESHOLD - l, Depth(k, maxLen), 3
  {
    if to - from <= LENGTH_THRESHOLD || l >= LEVEL_THRESHOLD {
      FallbackOrders(texts, rank, dom, k);
      var depth := Log2(to - from);
      QuickSort(a, (x, y) => LessFrom(texts, k, x, y), rank, dom, from, to, 2 * depth);
    } else {
      RadixSort(a, texts, rank, dom, from, to, k, l, maxLen);
    }
  }

  ghost function Depth(k: nat, maxLen: nat): nat {
    if k < maxLen then maxLen - k else 0
  }

  /** `log` to base 2: the power of two it stands for is at most `x`, and twice that is more. */
  method Log2(start: nat) returns (ret: nat)
    ensures start == 0 ==> ret == 0
    ensures start > 0 ==> Pow2(ret) <= start < 2 * Pow2(ret)
  {
    ret := 0;
    var x := start;
    while x >= 2
      invariant start > 0 ==> x > 0 && x * Pow2(ret) <= start < (x + 1) * Pow2(ret)
      invariant start == 0 ==> ret == 0 && x == 0
    {
      HalveScaled(x, Pow2(ret), start);
      x := x / 2;
      ret := ret + 1;
    }
  }

  lemma HalveScaled(x: nat, p: nat, n: nat)
    requires x * p <= n < (x + 1) * p
    ensures (x / 2) * (2 * p) <= n < (x / 2 + 1) * (2 * p)
  {
    var h := x / 2;
    assert (h * 2) * p <= x * p && (x + 1) * p <= (h * 2 + 2) * p by {
      assert h * 2 <= x <= h * 2 + 1;
      MulMonotone(h * 2, x, p);
      MulMonotone(x + 1, h * 2 + 2, p);
    }
    assert (h * 2) * p == h * (2 * p) && (h * 2 + 2) * p == (h + 1) * (2 * p);
  }

  lemma MulMonotone(a: nat, b: nat, p: nat)
    requires a <= b
    ensures a * p <= b * p
  {
  }

  method RadixSort(a: array<int>, texts: seq<Term>, ghost rank: int -> int, ghost dom: set<int>, from: nat, to: nat,
                   k: nat, l: nat, ghost maxLen: nat)
    requires Sortable(a[..], texts, rank, dom, from, to, k) && AtMost(texts, dom, maxLen)
    requires from < to && l < LEVEL_THRESHOLD
    modifies a
    ensures SortedRange(old(a[..]), a[..], rank, dom, from, to)
    decreases LEVEL_THRESHOLD - l, Depth(k, maxLen), 2
  {
    hide Agree, AtMost, TextRank, SamePrefix, Counts, Tiles, Bounds, Reordering, BucketsSorted, BucketBounds, Sorted,
         PermutedWithin, InDom;
    ghost var s := a[..];
    Unmoved(s, from, to);
    var prefix, hist := CommonPrefixOrHistogram(a, texts, from, to, k);
    if prefix != [] {
      PrefixAgrees(s, texts, rank, dom, from, to, k, prefix);
      if k + |prefix| < MAX_LENGTH && hist[0] < to - from {
        ghost var d := Elements(s, from, to);
        Narrowed(s, texts, dom, d, from, to, maxLen, k);
        RadixSort(a, texts, rank, d, from, to, k + |prefix|, l, maxLen);
        Widened(a[..], dom, d, from, to);
      }
      return;
    }
    var starts, ends := SumHistogram(hist);
    ghost var bs := Buckets(s, texts, from, to, k);
    TilesFromCounts(hist, bs, starts, ends);
    TilesBound(starts, ends, |bs|);
    ReorderingStarts(hist, bs, starts, ends);
    var next := Reorder(a, texts, dom, from, to, k, starts, ends);
    ghost var t := a[..];
    FirstBucket(t, texts, rank, dom, k, from, to, starts, ends);
    SortBuckets(a, texts, rank, dom, from, to, k, l, maxLen, starts, next);
    PermTrans(s, t, a[..], from, to, from, to);
  }

  lemma Narrowed(s: seq<int>, texts: seq<Term>, dom: set<int>, d: set<int>, from: nat, to: nat, maxLen: nat, k: nat)
    requires from < to <= |s| && d <= dom && AtMost(texts, dom, maxLen) && InDom(s, from, to, d)
      && |Text(texts, s[from])| > k
    ensures AtMost(texts, d, maxLen) && k < maxLen
  {
    assert s[from] in d;
  }

  lemma Widened(s: seq<int>, dom: set<int>, d: set<int>, from: nat, to: nat)
    requires from <= to <= |s| && d <= dom && InDom(s, from, to, d)
    ensures InDom(s, from, to, dom)
  {
  }

  lemma TilesBound(starts: seq<nat>, ends: seq<nat>, n: nat)
    requires Tiles(starts, ends, n)
    ensures BucketBounds(starts, ends, n)
  {
  }

  /** Sorts every bucket but the first, whose texts are all equal. */
  method SortBuckets(a: array<int>, texts: seq<Term>, ghost rank: int -> int, ghost dom: set<int>, from: nat, to: nat,
                     k: nat, l: nat, ghost maxLen: nat, ghost starts: seq<nat>, ends: seq<nat>)
    requires Sortable(a[..], texts, rank, dom, from, to, k) && AtMost(texts, dom, maxLen) && l < LEVEL_THRESHOLD
    requires BucketsSorted(a[..], texts, rank, dom, k, from, to, starts, ends, 1)
    modifies a
    ensures SortedRange(old(a[..]), a[..], rank, dom, from, to)
    decreases LEVEL_THRESHOLD - l, Depth(k, maxLen), 1
  {
    hide Agree, AtMost, TextRank, BucketsSorted, Sorted, PermutedWithin, InDom, Sortable, SortedRange;
    BucketSlots(a[..], texts, rank, dom, k, from, to, starts, ends, 1);
    Unmoved(a[..], from, to);
    var prev := ends[0];
    for i := 1 to MSB_HISTOGRAM_SIZE
      invariant |ends| == MSB_HISTOGRAM_SIZE && prev == ends[i - 1]
      invariant Sortable(a[..], texts, rank, dom, from, to, k)
        && BucketsSorted(a[..], texts, rank, dom, k, from, to, starts, ends, i)
      invariant PermutedWithin(old(a[..]), a[..], from, to)
    {
      ghost var s := a[..];
      BucketSlots(s, texts, rank, dom, k, from, to, starts, ends, i);
      var h := ends[i];
      SortBucket(a, texts, rank, dom, from, to, k, l, maxLen, starts, ends, i, prev);
      NextBucket(s, a[..], texts, rank, dom, k, from, to, starts, ends, i);
      PermTrans(old(a[..]), s, a[..], from, to, from, to);
      prev := h;
    }
    AllBuckets(old(a[..]), a[..], texts, rank, dom, k, from, to, starts, ends);
  }

  lemma BucketSlots(s: seq<int>, texts: seq<Term>, rank: int -> int, dom: set<int>, k: nat, from: nat, to: nat,
                    starts: seq<nat>, ends: seq<nat>, i: nat)
    requires BucketsSorted(s, texts, rank, dom, k, from, to, starts, ends, i)
    ensures |ends| == |starts| == MSB_HISTOGRAM_SIZE && from <= to <= |s|
    ensures i < MSB_HISTOGRAM_SIZE ==> starts[i] == ends[i - 1] && starts[i] <= ends[i] <= to - from
    ensures i < MSB_HISTOGRAM_SIZE ==> InDom(s, from + starts[i], from + ends[i], InBucket(texts, dom, k, i))
  {
    if i < MSB_HISTOGRAM_SIZE { assert starts[(i - 1) + 1] == ends[i - 1]; }
  }

  lemma AllBuckets(s: seq<int>, t: seq<int>, texts: seq<Term>, rank: int -> int, dom: set<int>, k: nat, from: nat,
                   to: nat, starts: seq<nat>, ends: seq<nat>)
    requires PermutedWithin(s, t, from, to)
      && BucketsSorted(t, texts, rank, dom, k, from, to, starts, ends, MSB_HISTOGRAM_SIZE)
    ensures SortedRange(s, t, rank, dom, from, to)
  {
    assert InDom(t, from, to, BelowBucket(texts, dom, k, MSB_HISTOGRAM_SIZE));
  }

  method SortBucket(a: array<int>, texts: seq<Term>, ghost rank: int -> int, ghost dom: set<int>, from: nat, to: nat,
                    k: nat, l: nat, ghost maxLen: nat, ghost starts: seq<nat>, ends: seq<nat>, i: nat, prev: nat)
    requires Sortable(a[..], texts, rank, dom, from, to, k) && AtMost(texts, dom, maxLen) && l < LEVEL_THRESHOLD
    requires |ends| == |starts| == MSB_HISTOGRAM_SIZE && 0 < i < MSB_HISTOGRAM_SIZE
      && prev == starts[i] <= ends[i] <= to - from
    requires InDom(a[..], from + starts[i], from + ends[i], InBucket(texts, dom, k, i))
    modifies a
    ensures SortedRange(old(a[..]), a[..], rank, InBucket(texts, dom, k, i), from + starts[i], from + ends[i])
    decreases LEVEL_THRESHOLD - l, Depth(k, maxLen), 0
  {
    var h := ends[i];
    ghost var d := InBucket(texts, dom, k, i);
    BucketAgrees(texts, dom, k, i);
    if k + 1 < MAX_LENGTH {
      if h - prev > 1 {
        SortInner(a, texts, rank, d, from + prev, from + h, k + 1, l + 1, maxLen);
      }
    } else {
      AllEqual(texts, rank, d, k + 1, a[..], from + prev, from + h);
    }
  }
}
