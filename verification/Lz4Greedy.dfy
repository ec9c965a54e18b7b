/** Which matches a greedy LZ4 compressor takes: at every position it looks at, the last earlier one
    with the same hash, and nothing else. The choice is stated over positions, without a table. */
module Lz4Greedy {
  import opened BitMath
  import opened Lz4Format

  /** `len` bytes at `cur` that repeat those at `refer`. */
  datatype Match = Match(cur: nat, refer: nat, len: nat)

  ghost predicate Inside(m: Match, p: nat) {
    m.cur < p < m.cur + m.len
  }

  /** Every position behind the first is looked at, except those inside of matches. */
  ghost predicate Scanned(ms: seq<Match>, off: nat, p: nat) {
    off < p && forall i :: 0 <= i < |ms| ==> !Inside(ms[i], p)
  }

  ghost predicate NoneSince(ms: seq<Match>, off: nat, code: nat -> nat, h: nat, from: nat, upTo: nat) {
    forall p: nat :: from < p < upTo && Scanned(ms, off, p) ==> code(p) != h
  }

  /** `q` is the last position below `upTo` that was looked at and has hash `h`; the first position
      of all stands in if there is none. */
  ghost predicate IsLatest(ms: seq<Match>, off: nat, code: nat -> nat, h: nat, upTo: nat, q: nat) {
    && (q == off || (off < q < upTo && Scanned(ms, off, q) && code(q) == h))
    && NoneSince(ms, off, code, h, q, upTo)
  }

  /** Less than 65536 bytes back there are the same four bytes. */
  ghost predicate Reaches(bytes: seq<byte>, q: nat, p: nat) {
    q < p < q + 0x1_0000 && p + 4 <= |bytes| && bytes[q..q + 4] == bytes[p..p + 4]
  }

  ghost predicate MatchAt(ms: seq<Match>, p: nat) {
    exists i :: 0 <= i < |ms| && ms[i].cur == p
  }

  ghost predicate RefersTo(ms: seq<Match>, p: nat, q: nat) {
    forall i :: 0 <= i < |ms| && ms[i].cur == p ==> ms[i].refer == q
  }

  /** There is a match at `p` exactly if the last position with its hash is in reach and holds the
      same four bytes, and then it refers to that one. */
  ghost predicate GreedyAt(bytes: seq<byte>, off: nat, code: nat -> nat, ms: seq<Match>, p: nat) {
    forall q :: IsLatest(ms, off, code, code(p), p, q) ==>
      (MatchAt(ms, p) <==> Reaches(bytes, q, p)) && RefersTo(ms, p, q)
  }

  /** The match cannot be longer before `limit`. */
  ghost predicate Longest(bytes: seq<byte>, m: Match, limit: nat) {
    && m.refer < m.cur && 4 <= m.len && m.cur + m.len <= limit <= |bytes|
    && (forall k :: m.cur <= k < m.cur + m.len ==> bytes[k] == bytes[k - (m.cur - m.refer)])
    && (m.cur + m.len < limit ==> bytes[m.refer + m.len] != bytes[m.cur + m.len])
  }

  /** The matches follow each other between `off` and `upTo`. */
  ghost predicate Apart(ms: seq<Match>, off: nat, upTo: nat) {
    && (forall i :: 0 <= i < |ms| ==> off < ms[i].cur < ms[i].cur + ms[i].len <= upTo)
    && (forall i, j :: 0 <= i < j < |ms| ==> ms[i].cur + ms[i].len <= ms[j].cur)
  }

  ghost predicate AllLongest(bytes: seq<byte>, end: nat, ms: seq<Match>)
    requires end >= 5
  {
    forall i :: 0 <= i < |ms| ==> Longest(bytes, ms[i], end - 5)
  }

  /** All positions below `upTo` have been decided; none is a match in the last nine bytes. */
  ghost predicate GreedyTo(bytes: seq<byte>, off: nat, end: nat, code: nat -> nat, ms: seq<Match>, upTo: nat) {
    && off + 9 < end <= |bytes| && off < upTo && Apart(ms, off, upTo) && AllLongest(bytes, end, ms)
    && (forall i :: 0 <= i < |ms| ==> ms[i].cur < end - 9)
    && (forall p: nat :: p < upTo && p < end - 9 && Scanned(ms, off, p) ==> GreedyAt(bytes, off, code, ms, p))
  }

  /** The matches of a greedy run over `bytes[off..end]`. */
  ghost predicate GreedyRun(bytes: seq<byte>, off: nat, end: nat, code: nat -> nat, ms: seq<Match>) {
    GreedyTo(bytes, off, end, code, ms, if end >= 5 then end - 5 else 0)
  }

  // ----- one step -----

  lemma BeyondScanned(ms: seq<Match>, off: nat, start: nat, p: nat)
    requires Apart(ms, off, start) && off < start <= p
    ensures Scanned(ms, off, p) && !MatchAt(ms, p)
  {
  }

  lemma PushScanned(ms: seq<Match>, m: Match, off: nat, p: nat)
    requires p <= m.cur
    ensures Scanned(ms + [m], off, p) <==> Scanned(ms, off, p)
  {
    var all := ms + [m];
    assert all[|ms|] == m;
    assert forall i :: 0 <= i < |ms| ==> all[i] == ms[i];
  }

  lemma PushLatest(ms: seq<Match>, m: Match, off: nat, code: nat -> nat, h: nat, upTo: nat, q: nat)
    requires upTo <= m.cur + 1
    ensures IsLatest(ms + [m], off, code, h, upTo, q) <==> IsLatest(ms, off, code, h, upTo, q)
  {
    forall p: nat | p < upTo ensures Scanned(ms + [m], off, p) <==> Scanned(ms, off, p) {
      PushScanned(ms, m, off, p);
    }
  }

  lemma LatestUnique(ms: seq<Match>, off: nat, code: nat -> nat, h: nat, upTo: nat, q: nat, r: nat)
    requires off < upTo && IsLatest(ms, off, code, h, upTo, q) && IsLatest(ms, off, code, h, upTo, r)
    ensures q == r
  {
  }

  lemma {:induction false} LatestExists(ms: seq<Match>, off: nat, code: nat -> nat, h: nat, upTo: nat) returns (q: nat)
    requires off < upTo
    ensures IsLatest(ms, off, code, h, upTo, q) && off <= q < upTo
  {
    var p: nat := upTo - 1;
    if p == off || (Scanned(ms, off, p) && code(p) == h) {
      q := p;
    } else {
      q := LatestExists(ms, off, code, h, p);
    }
  }

  /** The table of a scan that has come to `upTo`: every slot has the last position of its hash. */
  ghost predicate Recorded(values: seq<nat>, size: nat, off: nat, code: nat -> nat, ms: seq<Match>, upTo: nat) {
    size <= |values| && forall h :: 0 <= h < size ==> IsLatest(ms, off, code, h, upTo, off + values[h])
  }

  lemma RecordedAt(values: seq<nat>, size: nat, off: nat, code: nat -> nat, ms: seq<Match>, upTo: nat, h: nat)
    requires Recorded(values, size, off, code, ms, upTo) && h < size && off < upTo
    ensures h < |values| && IsLatest(ms, off, code, h, upTo, off + values[h]) && off + values[h] < upTo
  {
  }

  lemma RecordedNothing(values: seq<nat>, size: nat, off: nat, code: nat -> nat)
    requires size <= |values| && forall h :: 0 <= h < size ==> values[h] == 0
    ensures Recorded(values, size, off, code, [], off + 1)
  {
  }

  lemma RecordedStep(values: seq<nat>, size: nat, off: nat, code: nat -> nat, ms: seq<Match>, cur: nat)
    requires Recorded(values, size, off, code, ms, cur) && Scanned(ms, off, cur) && code(cur) < size
    ensures Recorded(values[code(cur) := cur - off], size, off, code, ms, cur + 1)
  {
    var next := values[code(cur) := cur - off];
    forall h | 0 <= h < size ensures IsLatest(ms, off, code, h, cur + 1, off + next[h]) {
      assert IsLatest(ms, off, code, h, cur, off + values[h]);
    }
  }

  /** Nothing inside of a match is looked at. */
  lemma RecordedJump(values: seq<nat>, size: nat, off: nat, code: nat -> nat, ms: seq<Match>, m: Match)
    requires Recorded(values, size, off, code, ms, m.cur + 1) && m.len > 0
    ensures Recorded(values, size, off, code, ms + [m], m.cur + m.len)
  {
    var all := ms + [m];
    assert all[|ms|] == m;
    forall h | 0 <= h < size ensures IsLatest(all, off, code, h, m.cur + m.len, off + values[h]) {
      assert IsLatest(ms, off, code, h, m.cur + 1, off + values[h]);
      PushLatest(ms, m, off, code, h, m.cur + 1, off + values[h]);
      forall p: nat | m.cur < p < m.cur + m.len ensures !Scanned(all, off, p) {
        assert Inside(all[|ms|], p);
      }
    }
  }

  /** The last position with the hash of `p` is out of reach or holds other bytes. */
  ghost predicate Misses(bytes: seq<byte>, off: nat, code: nat -> nat, ms: seq<Match>, p: nat) {
    forall q :: IsLatest(ms, off, code, code(p), p, q) ==> !Reaches(bytes, q, p)
  }

  lemma MissesBy(bytes: seq<byte>, off: nat, code: nat -> nat, ms: seq<Match>, p: nat, q: nat)
    requires off < p && IsLatest(ms, off, code, code(p), p, q) && !Reaches(bytes, q, p)
    ensures Misses(bytes, off, code, ms, p)
  {
    forall r | IsLatest(ms, off, code, code(p), p, r) ensures !Reaches(bytes, r, p) {
      LatestUnique(ms, off, code, code(p), p, q, r);
    }
  }

  /** Positions without a match are decided. */
  lemma GreedyMissed(bytes: seq<byte>, off: nat, end: nat, code: nat -> nat, ms: seq<Match>, start: nat, cur: nat)
    requires GreedyTo(bytes, off, end, code, ms, start) && start <= cur
    requires forall p: nat :: start <= p < cur && p < end - 9 ==> Misses(bytes, off, code, ms, p)
    ensures GreedyTo(bytes, off, end, code, ms, cur)
  {
    forall p: nat | p < cur && p < end - 9 && Scanned(ms, off, p) ensures GreedyAt(bytes, off, code, ms, p) {
      if p >= start {
        BeyondScanned(ms, off, start, p);
        assert Misses(bytes, off, code, ms, p);
      }
    }
  }

  lemma GreedyKept(bytes: seq<byte>, off: nat, code: nat -> nat, ms: seq<Match>, m: Match, p: nat)
    requires GreedyAt(bytes, off, code, ms, p) && p < m.cur
    ensures GreedyAt(bytes, off, code, ms + [m], p)
  {
    var all := ms + [m];
    assert all[|ms|] == m;
    assert MatchAt(all, p) <==> MatchAt(ms, p) by {
      assert forall i :: 0 <= i < |ms| ==> all[i] == ms[i];
    }
    forall q | IsLatest(all, off, code, code(p), p, q)
      ensures (MatchAt(all, p) <==> Reaches(bytes, q, p)) && RefersTo(all, p, q)
    {
      PushLatest(ms, m, off, code, code(p), p, q);
      assert RefersTo(ms, p, q);
    }
  }

  lemma GreedyTaken(bytes: seq<byte>, off: nat, code: nat -> nat, ms: seq<Match>, m: Match)
    requires off < m.cur && Apart(ms, off, m.cur)
    requires IsLatest(ms, off, code, code(m.cur), m.cur, m.refer) && Reaches(bytes, m.refer, m.cur)
    ensures GreedyAt(bytes, off, code, ms + [m], m.cur)
  {
    var all := ms + [m];
    assert all[|ms|] == m;
    forall q | IsLatest(all, off, code, code(m.cur), m.cur, q)
      ensures (MatchAt(all, m.cur) <==> Reaches(bytes, q, m.cur)) && RefersTo(all, m.cur, q)
    {
      PushLatest(ms, m, off, code, code(m.cur), m.cur, q);
      LatestUnique(ms, off, code, code(m.cur), m.cur, q, m.refer);
    }
  }

  /** A match with the last position of its hash, as long as it can be, goes on a greedy run. */
  lemma GreedyPush(bytes: seq<byte>, off: nat, end: nat, code: nat -> nat, ms: seq<Match>, m: Match)
    requires GreedyTo(bytes, off, end, code, ms, m.cur) && m.cur < end - 9 && Longest(bytes, m, end - 5)
    requires IsLatest(ms, off, code, code(m.cur), m.cur, m.refer) && Reaches(bytes, m.refer, m.cur)
    ensures GreedyTo(bytes, off, end, code, ms + [m], m.cur + m.len)
  {
    hide GreedyAt, IsLatest, Longest, Reaches;
    assert m.len >= 4 by {
      LongEnough(bytes, m, end - 5);
    }
    var all := ms + [m];
    assert all[|ms|] == m;
    assert forall i :: 0 <= i < |ms| ==> all[i] == ms[i];
    forall p: nat | p < m.cur + m.len && p < end - 9 && Scanned(all, off, p)
      ensures GreedyAt(bytes, off, code, all, p)
    {
      if p < m.cur {
        PushScanned(ms, m, off, p);
        GreedyKept(bytes, off, code, ms, m, p);
      } else {
        assert !Inside(all[|ms|], p);
        GreedyTaken(bytes, off, code, ms, m);
      }
    }
  }

  lemma GreedyApart(bytes: seq<byte>, off: nat, end: nat, code: nat -> nat, ms: seq<Match>, upTo: nat)
    requires GreedyTo(bytes, off, end, code, ms, upTo)
    ensures Apart(ms, off, upTo)
  {
  }

  lemma GreedyDone(bytes: seq<byte>, off: nat, end: nat, code: nat -> nat, ms: seq<Match>, upTo: nat)
    requires GreedyTo(bytes, off, end, code, ms, upTo) && upTo >= end - 9
    ensures GreedyRun(bytes, off, end, code, ms)
  {
  }

  lemma NothingYet(values: seq<nat>, size: nat, bytes: seq<byte>, off: nat, end: nat, code: nat -> nat)
    requires size <= |values| && (forall h :: 0 <= h < |values| ==> values[h] == 0) && off + 9 < end <= |bytes|
    ensures GreedyTo(bytes, off, end, code, [], off + 1) && Recorded(values, size, off, code, [], off + 1)
    ensures SequencesOf(bytes, off, [], []) && From([], off, 0) == off
  {
    RecordedNothing(values, size, off, code);
  }

  lemma FromPushed(ms: seq<Match>, off: nat, m: Match)
    ensures From(ms + [m], off, |ms| + 1) == m.cur + m.len
  {
  }

  lemma LongEnough(bytes: seq<byte>, m: Match, limit: nat)
    requires Longest(bytes, m, limit)
    ensures m.len >= 4 && m.refer < m.cur && m.cur + m.len <= limit
  {
  }

  // ----- there is only one greedy run -----

  lemma SameScanned(a: seq<Match>, b: seq<Match>, off: nat, n: nat, p: nat)
    requires n <= |a| && n <= |b| && a[..n] == b[..n]
    requires (forall i :: n <= i < |a| ==> p <= a[i].cur) && (forall i :: n <= i < |b| ==> p <= b[i].cur)
    ensures Scanned(a, off, p) ==> Scanned(b, off, p)
  {
    assert forall i :: 0 <= i < n ==> a[..n][i] == a[i] && b[..n][i] == b[i];
  }

  lemma SameLatest(a: seq<Match>, b: seq<Match>, off: nat, n: nat, code: nat -> nat, h: nat, upTo: nat, q: nat)
    requires n <= |a| && n <= |b| && a[..n] == b[..n]
    requires (forall i :: n <= i < |a| ==> upTo <= a[i].cur) && (forall i :: n <= i < |b| ==> upTo <= b[i].cur)
    requires IsLatest(a, off, code, h, upTo, q)
    ensures IsLatest(b, off, code, h, upTo, q)
  {
    forall p: nat | p <= upTo ensures Scanned(a, off, p) <==> Scanned(b, off, p) {
      SameScanned(a, b, off, n, p);
      SameScanned(b, a, off, n, p);
    }
  }

  lemma AllFrom(ms: seq<Match>, off: nat, upTo: nat, n: nat, p: nat)
    requires Apart(ms, off, upTo) && n < |ms| && p <= ms[n].cur
    ensures forall i :: n <= i < |ms| ==> p <= ms[i].cur
    ensures forall i :: 0 <= i < n ==> ms[i].cur + ms[i].len <= ms[n].cur
  {
  }

  lemma NotShorter(bytes: seq<byte>, m: Match, w: Match, limit: nat)
    requires Longest(bytes, m, limit) && Longest(bytes, w, limit) && m.cur == w.cur && m.refer == w.refer
    ensures m.len >= w.len
  {
  }

  lemma SameLength(bytes: seq<byte>, m: Match, w: Match, limit: nat)
    requires Longest(bytes, m, limit) && Longest(bytes, w, limit) && m.cur == w.cur && m.refer == w.refer
    ensures m == w
  {
    NotShorter(bytes, m, w, limit);
    NotShorter(bytes, w, m, limit);
  }

  /** The run that has the earlier next match: the other run has it too. */
  lemma NextAgrees(bytes: seq<byte>, off: nat, end: nat, code: nat -> nat, a: seq<Match>, b: seq<Match>, n: nat)
    requires GreedyRun(bytes, off, end, code, a) && GreedyRun(bytes, off, end, code, b)
    requires n < |a| && n <= |b| && a[..n] == b[..n] && (n < |b| ==> a[n].cur <= b[n].cur)
    ensures n < |b| && a[n] == b[n]
  {
    var p := a[n].cur;
    AllFrom(a, off, end - 5, n, p);
    if n < |b| {
      AllFrom(b, off, end - 5, n, p);
    }
    assert forall i :: 0 <= i < n ==> a[..n][i] == a[i] && b[..n][i] == b[i];
    assert Scanned(a, off, p);
    SameScanned(a, b, off, n, p);
    var q := LatestExists(a, off, code, code(p), p);
    SameLatest(a, b, off, n, code, code(p), p, q);
    assert GreedyAt(bytes, off, code, a, p) && GreedyAt(bytes, off, code, b, p);
    assert MatchAt(a, p);
    assert MatchAt(b, p);
    var i :| 0 <= i < |b| && b[i].cur == p;
    assert i == n;
    assert RefersTo(a, p, q) && RefersTo(b, p, q);
    SameLength(bytes, a[n], b[n], end - 5);
  }

  lemma {:induction false} GreedyAgree(bytes: seq<byte>, off: nat, end: nat, code: nat -> nat, a: seq<Match>,
                                       b: seq<Match>, n: nat)
    requires GreedyRun(bytes, off, end, code, a) && GreedyRun(bytes, off, end, code, b)
    requires n <= |a| && n <= |b| && a[..n] == b[..n]
    ensures a == b
    decreases |a| - n
  {
    hide GreedyRun;
    if n == |a| == |b| {
      assert a == a[..n] && b == b[..n];
    } else {
      if n < |a| && (n < |b| ==> a[n].cur <= b[n].cur) {
        NextAgrees(bytes, off, end, code, a, b, n);
      } else {
        NextAgrees(bytes, off, end, code, b, a, n);
      }
      assert a[..n + 1] == a[..n] + [a[n]] && b[..n + 1] == b[..n] + [b[n]];
      GreedyAgree(bytes, off, end, code, a, b, n + 1);
    }
  }

  /** The bytes and the hash leave no choice: two greedy runs are the same. */
  lemma GreedyUnique(bytes: seq<byte>, off: nat, end: nat, code: nat -> nat, a: seq<Match>, b: seq<Match>)
    requires GreedyRun(bytes, off, end, code, a) && GreedyRun(bytes, off, end, code, b)
    ensures a == b
  {
    GreedyAgree(bytes, off, end, code, a, b, 0);
  }

  // ----- the sequences of a block -----

  /** Where the literals before match `i` begin. */
  ghost function From(ms: seq<Match>, off: nat, i: nat): nat
    requires i <= |ms|
  {
    if i == 0 then off else ms[i - 1].cur + ms[i - 1].len
  }

  ghost predicate SequenceOf(bytes: seq<byte>, off: nat, ms: seq<Match>, i: nat, s: Sequence) {
    && i < |ms| && From(ms, off, i) <= ms[i].cur <= |bytes| && ms[i].refer <= ms[i].cur
    && s == Sequence(bytes[From(ms, off, i)..ms[i].cur], ms[i].cur - ms[i].refer, ms[i].len)
  }

  /** The sequences are the matches with the bytes between them as literals. */
  ghost predicate SequencesOf(bytes: seq<byte>, off: nat, ms: seq<Match>, seqs: seq<Sequence>) {
    |seqs| == |ms| && forall i: nat :: i < |ms| ==> SequenceOf(bytes, off, ms, i, seqs[i])
  }

  lemma SequencesPush(bytes: seq<byte>, off: nat, ms: seq<Match>, seqs: seq<Sequence>, m: Match, s: Sequence)
    requires SequencesOf(bytes, off, ms, seqs) && From(ms, off, |ms|) <= m.cur <= |bytes| && m.refer <= m.cur
    requires s == Sequence(bytes[From(ms, off, |ms|)..m.cur], m.cur - m.refer, m.len)
    ensures SequencesOf(bytes, off, ms + [m], seqs + [s])
  {
    var all, more := ms + [m], seqs + [s];
    forall i: nat | i < |all| ensures SequenceOf(bytes, off, all, i, more[i]) {
      assert i < |ms| ==> SequenceOf(bytes, off, ms, i, seqs[i]) && all[i] == ms[i];
      assert From(all, off, i) == From(ms, off, i);
    }
  }

  lemma SequencesUnique(bytes: seq<byte>, off: nat, ms: seq<Match>, a: seq<Sequence>, b: seq<Sequence>)
    requires SequencesOf(bytes, off, ms, a) && SequencesOf(bytes, off, ms, b)
    ensures a == b
  {
    forall i: nat | i < |ms| ensures a[i] == b[i] {
      assert SequenceOf(bytes, off, ms, i, a[i]) && SequenceOf(bytes, off, ms, i, b[i]);
    }
  }
}
