/** Global ordinals (doc_values_consumer.rs): merging the term lists of segments gives every
    distinct term one number, and every segment a map from its own ordinals to these. */
module OrdinalMap {
  import opened BitMath
  import opened Lex
  import opened Sequences
  import opened MultiTerms

  // ----- the merged list -----

  /** `terms` lists, in increasing order and once each, the first `done[s]` terms of every
      list `s`, and all other terms come after these. */
  ghost predicate MergedUpTo(lists: seq<seq<Entry>>, done: seq<nat>, terms: seq<Term>) {
    && |done| == |lists| && (forall s :: 0 <= s < |lists| ==> done[s] <= |lists[s]|)
    && Increasing(terms)
    && (forall s, k :: 0 <= s < |lists| && 0 <= k < done[s] ==> lists[s][k].term in terms)
    && (forall g :: 0 <= g < |terms| ==> Occurs(lists, done, terms[g]))
    && (forall s, g :: 0 <= s < |lists| && done[s] < |lists[s]| && 0 <= g < |terms| ==>
          Less(terms[g], lists[s][done[s]].term))
  }

  ghost predicate Occurs(lists: seq<seq<Entry>>, done: seq<nat>, t: Term)
    requires |done| == |lists| && forall s :: 0 <= s < |lists| ==> done[s] <= |lists[s]|
  {
    exists s, k :: 0 <= s < |lists| && 0 <= k < done[s] && lists[s][k].term == t
  }

  /** The positions after the subs in `tops` have moved. */
  ghost function After(pos: seq<nat>, tops: seq<nat>): (r: seq<nat>)
    ensures Advanced(pos, tops, r)
  {
    seq(|pos|, s requires 0 <= s < |pos| => pos[s] + if s in tops then 1 else 0)
  }

  lemma MergeStep(lists: seq<seq<Entry>>, pos: seq<nat>, tops: seq<nat>, terms: seq<Term>, t: Term, done: seq<nat>)
    requires SortedLists(lists) && MergedUpTo(lists, pos, terms) && IsLeastHead(lists, pos, t)
    requires (forall s: nat :: s in tops <==> StandsOn(lists, pos, s, t)) && done == After(pos, tops)
    ensures MergedUpTo(lists, done, terms + [t])
  {
    var terms' := terms + [t];
    var first: nat :| StandsOn(lists, pos, first, t);
    forall s | 0 <= s < |lists| ensures done[s] <= |lists[s]| {
      assert s in tops ==> StandsOn(lists, pos, s, t);
    }
    forall s, k | 0 <= s < |lists| && 0 <= k < done[s] ensures lists[s][k].term in terms' {
      if k < pos[s] { assert lists[s][k].term in terms; }
    }
    forall g | 0 <= g < |terms'| ensures Occurs(lists, done, terms'[g]) {
      if g < |terms| {
        assert Occurs(lists, pos, terms[g]);
        var s, k :| 0 <= s < |lists| && 0 <= k < pos[s] && lists[s][k].term == terms[g];
        assert k < done[s];
      } else {
        assert first in tops && pos[first] < done[first];
      }
    }
    forall s, g | 0 <= s < |lists| && done[s] < |lists[s]| && 0 <= g < |terms'|
      ensures Less(terms'[g], lists[s][done[s]].term)
    {
      HeadBeyond(lists, pos, tops, t, done, s);
      if g < |terms| {
        assert Less(terms[g], lists[first][pos[first]].term);
        LessTransitive(terms[g], t, lists[s][done[s]].term);
      }
    }
  }

  lemma HeadBeyond(lists: seq<seq<Entry>>, pos: seq<nat>, tops: seq<nat>, t: Term, done: seq<nat>, s: nat)
    requires SortedLists(lists) && |pos| == |lists| && IsLeastHead(lists, pos, t) && s < |lists|
    requires (forall s: nat :: s in tops <==> StandsOn(lists, pos, s, t)) && done == After(pos, tops)
    requires done[s] < |lists[s]|
    ensures Less(t, lists[s][done[s]].term)
  {
    if s in tops {
      assert StandsOn(lists, pos, s, t) && SortedList(lists[s]);
    } else {
      assert Live(lists, pos, s) && !StandsOn(lists, pos, s, t);
      LessTotal(t, lists[s][pos[s]].term);
    }
  }

  // ----- storage of the deltas of one segment -----

  /** `bits` is the or of all `deltas`: zero only if they all are, and otherwise, unless
      negative, at least as large as any. */
  ghost predicate Covers(bits: int, deltas: seq<int>) {
    && (bits == 0 <==> forall i :: 0 <= i < |deltas| ==> deltas[i] == 0)
    && (bits >= 0 ==> forall i :: 0 <= i < |deltas| ==> 0 <= deltas[i] <= bits)
  }

  /** A slot of a packed array: 64 bits hold any value, fewer bits only keep the low ones. */
  function Stored(v: int, bits: nat): int {
    if bits == 64 then v else v % Pow2(bits)
  }

  datatype LongValues = Identity | Packed(bits: nat, slots: seq<int>) | Monotonic(values: seq<int>) {
    ghost predicate Has(index: nat) {
      match this
      case Identity => true
      case Packed(_, slots) => index < |slots|
      case Monotonic(values) => index < |values|
    }

    function Get64(index: nat): int
      requires Has(index)
    {
      match this
      case Identity => index
      case Packed(_, slots) => index + slots[index]
      case Monotonic(values) => index + values[index]
    }
  }

  lemma CoversPush(b: int, d: seq<int>, delta: int)
    requires Covers(b, d)
    ensures Covers(BitOr(b, delta), d + [delta])
  {
    var more := d + [delta];
    assert more[|d|] == delta;
    assert forall i :: 0 <= i < |d| ==> more[i] == d[i];
  }

  /** Chooses the storage: none if every delta is zero, otherwise packed or monotonic as
      `packed` says. Whichever it is, looking up an ordinal adds its delta. */
  method Store(deltas: seq<int>, ordDeltaBits: int, packed: bool) returns (r: LongValues)
    requires Covers(ordDeltaBits, deltas)
    ensures forall i :: 0 <= i < |deltas| ==> r.Has(i) && r.Get64(i) == i + deltas[i]
    ensures r.Identity? <==> forall i :: 0 <= i < |deltas| ==> deltas[i] == 0
    ensures !r.Identity? ==> (r.Packed? <==> packed)
    ensures r.Packed? ==> if ordDeltaBits < 0 then r.bits == 64 else ordDeltaBits < Pow2(r.bits) <= 2 * ordDeltaBits
  {
    if ordDeltaBits == 0 {
      return Identity;
    }
    if !packed {
      return Monotonic(deltas);
    }
    var bitsRequired := if ordDeltaBits < 0 then 64 else BitsRequired(ordDeltaBits);
    var slots: seq<int> := [];
    for cnt := 0 to |deltas|
      invariant |slots| == cnt && forall i :: 0 <= i < cnt ==> slots[i] == deltas[i]
    {
      StoredExactly(deltas[cnt], ordDeltaBits);
      slots := slots + [Stored(deltas[cnt], bitsRequired)];
    }
    return Packed(bitsRequired, slots);
  }

  /** The width taken from the or of all deltas loses nothing of any of them. */
  lemma StoredExactly(v: int, bits: int)
    requires bits >= 0 ==> 0 <= v <= bits
    ensures Stored(v, if bits < 0 then 64 else BitsRequired(bits)) == v
  {
    if bits >= 0 {
      SmallMod(v, Pow2(BitsRequired(bits)));
    }
  }

  /** Fewer than 64 bits keep a number exactly if it has no more bits than that. */
  lemma StoredCut(v: nat, bits: nat)
    requires bits != 64
    ensures Stored(v, bits) == v <==> v < Pow2(bits)
  {
    if v < Pow2(bits) {
      SmallMod(v, Pow2(bits));
    }
  }

  lemma SmallMod(v: nat, m: nat)
    requires v < m
    ensures v % m == v
  {
  }

  // ----- recording one term -----

  /** `d` filled with `delta` up to and including index `ord`. */
  function Extended(d: seq<int>, ord: nat, delta: int): seq<int> {
    if |d| <= ord then d + seq(ord + 1 - |d|, _ => delta) else d
  }

  /** Adds deltas for the ordinals up to `ord`; the ones a filter has skipped get the delta too. */
  method Extend(d: seq<int>, bits: int, ord: nat, delta: int) returns (r: seq<int>, b: int)
    requires Covers(bits, d)
    ensures r == Extended(d, ord, delta) && Covers(b, r)
  {
    r, b := d, bits;
    while |r| <= ord
      invariant Extended(r, ord, delta) == Extended(d, ord, delta) && Covers(b, r)
      decreases ord - |r|
    {
      CoversPush(b, r, delta);
      b := BitOr(b, delta);
      r := r + [delta];
    }
  }

  ghost predicate CoversAll(bits: seq<int>, deltas: seq<seq<int>>) {
    |bits| == |deltas| && forall s :: 0 <= s < |deltas| ==> Covers(bits[s], deltas[s])
  }

  /** The ordinal of the term a sub stands on. */
  function OrdAt(lists: seq<seq<Entry>>, pos: seq<nat>, s: nat): nat
    requires Live(lists, pos, s)
  {
    lists[s][pos[s]].ord
  }

  /** What recording the current term does to the deltas of segment `s`. */
  function Recorded(lists: seq<seq<Entry>>, pos: seq<nat>, tops: seq<nat>, globalOrd: nat, d: seq<int>,
                    s: nat): seq<int>
    requires AllLive(lists, pos, tops)
  {
    if s in tops then Extended(d, OrdAt(lists, pos, s), globalOrd - OrdAt(lists, pos, s)) else d
  }

  ghost predicate AllRecorded(lists: seq<seq<Entry>>, pos: seq<nat>, tops: seq<nat>, globalOrd: nat,
                              before: seq<seq<int>>, after: seq<seq<int>>)
    requires AllLive(lists, pos, tops)
  {
    && |before| == |after| == |lists|
    && (forall s :: 0 <= s < |lists| ==> after[s] == Recorded(lists, pos, tops, globalOrd, before[s], s))
  }

  predicate AllLive(lists: seq<seq<Entry>>, pos: seq<nat>, tops: seq<nat>) {
    forall s :: s in tops ==> Live(lists, pos, s)
  }

  /** The least of `tops`, and how far its ordinal is below the global one. */
  ghost predicate IsFirst(lists: seq<seq<Entry>>, pos: seq<nat>, tops: seq<nat>, globalOrd: nat, first: nat, delta: int)
  {
    && first in tops && (forall s :: s in tops ==> first <= s)
    && Live(lists, pos, first) && delta == globalOrd - OrdAt(lists, pos, first)
  }

  lemma RecordedStep(lists: seq<seq<Entry>>, pos: seq<nat>, tops: seq<nat>, i: nat, globalOrd: nat,
                     before: seq<seq<int>>, after: seq<seq<int>>, d: seq<int>)
    requires AllLive(lists, pos, tops) && Distinct(tops) && i < |tops| && AllLive(lists, pos, tops[..i])
    requires AllRecorded(lists, pos, tops[..i], globalOrd, before, after)
    requires tops[i] < |after| && Live(lists, pos, tops[i])
    requires d == Extended(after[tops[i]], OrdAt(lists, pos, tops[i]), globalOrd - OrdAt(lists, pos, tops[i]))
    ensures AllLive(lists, pos, tops[..i + 1])
    ensures AllRecorded(lists, pos, tops[..i + 1], globalOrd, before, after[tops[i] := d])
  {
    assert tops[..i + 1] == tops[..i] + [tops[i]] && tops[i] !in tops[..i];
  }

  /** Records the current term under the next global ordinal, for every segment that has it,
      and finds the first of these segments. */
  method Record(lists: seq<seq<Entry>>, pos: seq<nat>, tops: seq<nat>, globalOrd: nat, ordDeltas: seq<seq<int>>,
                ordDeltaBits: seq<int>)
    returns (deltas: seq<seq<int>>, bits: seq<int>, first: nat, firstDelta: int)
    requires Distinct(tops) && tops != [] && |ordDeltas| == |lists| <= 0x7fff_ffff && CoversAll(ordDeltaBits, ordDeltas)
    requires AllLive(lists, pos, tops)
    ensures CoversAll(bits, deltas) && AllRecorded(lists, pos, tops, globalOrd, ordDeltas, deltas)
    ensures IsFirst(lists, pos, tops, globalOrd, first, firstDelta)
  {
    hide Covers, Extended;
    deltas, bits, first, firstDelta := ordDeltas, ordDeltaBits, 0x7fff_ffff, 0x7fff_ffff_ffff_ffff;
    for i := 0 to |tops|
      invariant CoversAll(bits, deltas) && AllLive(lists, pos, tops[..i])
      invariant AllRecorded(lists, pos, tops[..i], globalOrd, ordDeltas, deltas)
      invariant if i == 0 then first == 0x7fff_ffff else IsFirst(lists, pos, tops[..i], globalOrd, first, firstDelta)
    {
      var segment := tops[i];
      assert segment in tops && tops[..i + 1] == tops[..i] + [segment];
      var segmentOrd := OrdAt(lists, pos, segment);
      var delta := globalOrd - segmentOrd;
      if segment < first {
        first, firstDelta := segment, delta;
      }
      var d, b := Extend(deltas[segment], bits[segment], segmentOrd, delta);
      RecordedStep(lists, pos, tops, i, globalOrd, ordDeltas, deltas, d);
      deltas, bits := deltas[segment := d], bits[segment := b];
    }
    assert tops[..|tops|] == tops;
  }

  // ----- the maps built so far -----

  /** One more than the last ordinal of the first `done` terms. */
  ghost function NextOrd(list: seq<Entry>, done: nat): nat
    requires done <= |list|
  {
    if done == 0 then 0 else list[done - 1].ord + 1
  }

  /** Every one of the first `done` ordinals, plus its delta, is the index of its term. */
  ghost predicate SegmentMapped(list: seq<Entry>, done: nat, terms: seq<Term>, deltas: seq<int>) {
    && done <= |list| && |deltas| == NextOrd(list, done)
    && forall k :: 0 <= k < done ==> MapsTo(deltas, list[k], terms)
  }

  ghost predicate MapsTo(deltas: seq<int>, e: Entry, terms: seq<Term>) {
    e.ord < |deltas| && 0 <= e.ord + deltas[e.ord] < |terms| && terms[e.ord + deltas[e.ord]] == e.term
  }

  ghost predicate Contains(list: seq<Entry>, t: Term) {
    exists k :: 0 <= k < |list| && list[k].term == t
  }

  /** Segment `first` has the term under the ordinal `ord`, and no earlier segment has it. */
  ghost predicate FirstHolds(lists: seq<seq<Entry>>, t: Term, first: nat, ord: int) {
    && first < |lists| && ord >= 0 && Entry(ord, t) in lists[first]
    && forall s :: 0 <= s < first ==> !Contains(lists[s], t)
  }

  ghost predicate SegmentsMapped(lists: seq<seq<Entry>>, done: seq<nat>, terms: seq<Term>, ordDeltas: seq<seq<int>>) {
    && |ordDeltas| == |done| == |lists|
    && forall s :: 0 <= s < |lists| ==> SegmentMapped(lists[s], done[s], terms, ordDeltas[s])
  }

  ghost predicate FirstsHold(lists: seq<seq<Entry>>, terms: seq<Term>, firstSegments: seq<nat>,
                             globalOrdDeltas: seq<int>)
  {
    && |firstSegments| == |globalOrdDeltas| == |terms|
    && forall g :: 0 <= g < |terms| ==> FirstHolds(lists, terms[g], firstSegments[g], g - globalOrdDeltas[g])
  }

  lemma SegmentStep(lists: seq<seq<Entry>>, pos: seq<nat>, tops: seq<nat>, terms: seq<Term>, t: Term, d: seq<int>,
                    s: nat)
    requires s < |lists| && |pos| == |lists| && SortedList(lists[s]) && AllLive(lists, pos, tops)
    requires s in tops ==> StandsOn(lists, pos, s, t)
    requires SegmentMapped(lists[s], pos[s], terms, d)
    ensures SegmentMapped(lists[s], After(pos, tops)[s], terms + [t], Recorded(lists, pos, tops, |terms|, d, s))
  {
    var done, d' := After(pos, tops)[s], Recorded(lists, pos, tops, |terms|, d, s);
    forall k | 0 <= k < done ensures MapsTo(d', lists[s][k], terms + [t]) {
      if k < pos[s] { assert MapsTo(d, lists[s][k], terms); }
    }
  }

  /** A list that does not stand on the least head does not hold that term at all. */
  lemma NotHeld(lists: seq<seq<Entry>>, pos: seq<nat>, terms: seq<Term>, t: Term, s: nat)
    requires SortedLists(lists) && MergedUpTo(lists, pos, terms) && IsLeastHead(lists, pos, t)
    requires s < |lists| && !StandsOn(lists, pos, s, t)
    ensures !Contains(lists[s], t)
  {
    var first: nat :| StandsOn(lists, pos, first, t);
    forall k | 0 <= k < |lists[s]| ensures lists[s][k].term != t {
      LessIrreflexive(t);
      if k < pos[s] {
        var g :| 0 <= g < |terms| && terms[g] == lists[s][k].term;
        assert Less(terms[g], lists[first][pos[first]].term);
      } else if k > pos[s] {
        assert Live(lists, pos, s) && SortedList(lists[s]);
        assert Less(lists[s][pos[s]].term, lists[s][k].term);
      }
    }
  }

  lemma FirstStep(lists: seq<seq<Entry>>, pos: seq<nat>, tops: seq<nat>, terms: seq<Term>, t: Term, first: nat,
                  firstDelta: int)
    requires SortedLists(lists) && MergedUpTo(lists, pos, terms) && IsLeastHead(lists, pos, t)
    requires forall s: nat :: s in tops <==> StandsOn(lists, pos, s, t)
    requires IsFirst(lists, pos, tops, |terms|, first, firstDelta)
    ensures FirstHolds(lists, t, first, |terms| - firstDelta)
  {
    assert StandsOn(lists, pos, first, t);
    assert Entry(OrdAt(lists, pos, first), t) == lists[first][pos[first]];
    forall s | 0 <= s < first ensures !Contains(lists[s], t) {
      NotHeld(lists, pos, terms, t, s);
    }
  }

  lemma SegmentsStep(lists: seq<seq<Entry>>, pos: seq<nat>, tops: seq<nat>, terms: seq<Term>, t: Term,
                     ordDeltas: seq<seq<int>>, deltas: seq<seq<int>>, done: seq<nat>, terms': seq<Term>)
    requires SortedLists(lists) && |pos| == |lists| && AllLive(lists, pos, tops)
    requires forall s: nat :: s in tops ==> StandsOn(lists, pos, s, t)
    requires AllRecorded(lists, pos, tops, |terms|, ordDeltas, deltas)
    requires SegmentsMapped(lists, pos, terms, ordDeltas)
    requires done == After(pos, tops) && terms' == terms + [t]
    ensures SegmentsMapped(lists, done, terms', deltas)
  {
    forall s | 0 <= s < |lists| ensures SegmentMapped(lists[s], done[s], terms', deltas[s]) {
      SegmentStep(lists, pos, tops, terms, t, ordDeltas[s], s);
    }
  }

  lemma FirstsAppend(lists: seq<seq<Entry>>, terms: seq<Term>, firstSegments: seq<nat>, globalOrdDeltas: seq<int>,
                     t: Term, first: nat, firstDelta: int)
    requires FirstsHold(lists, terms, firstSegments, globalOrdDeltas)
      && FirstHolds(lists, t, first, |terms| - firstDelta)
    ensures FirstsHold(lists, terms + [t], firstSegments + [first], globalOrdDeltas + [firstDelta])
  {
  }

  // ----- SegmentMap -----

  /** Heavier segments first, and equally heavy ones in their old order. */
  ghost predicate ByWeight(weights: seq<nat>, order: seq<nat>)
    requires BelowAll(order, |weights|)
  {
    forall i, j :: 0 <= i < j < |order| ==> Before(weights, order[i], order[j])
  }

  ghost predicate Before(weights: seq<nat>, a: nat, b: nat)
    requires a < |weights| && b < |weights|
  {
    weights[a] > weights[b] || (weights[a] == weights[b] && a < b)
  }

  /** A stable sort of the segments by decreasing weight. */
  method MapByWeight(weights: seq<nat>) returns (newToOld: seq<nat>)
    ensures IsPermutation(newToOld, |weights|) && ByWeight(weights, newToOld)
  {
    newToOld := [];
    for n := 0 to |weights|
      invariant IsPermutation(newToOld, n) && ByWeight(weights, newToOld)
    {
      var k := n;
      while k > 0 && weights[newToOld[k - 1]] < weights[n]
        invariant k <= n
        invariant forall i :: k <= i < n ==> weights[newToOld[i]] < weights[n]
      {
        k := k - 1;
      }
      Inserted(weights, newToOld, n, k, newToOld[..k] + [n] + newToOld[k..]);
      newToOld := newToOld[..k] + [n] + newToOld[k..];
    }
  }

  lemma Inserted(weights: seq<nat>, order: seq<nat>, n: nat, k: nat, r: seq<nat>)
    requires k <= n < |weights| && IsPermutation(order, n) && ByWeight(weights, order)
    requires k > 0 ==> weights[order[k - 1]] >= weights[n]
    requires forall i :: k <= i < n ==> weights[order[i]] < weights[n]
    requires r == order[..k] + [n] + order[k..]
    ensures IsPermutation(r, n + 1) && ByWeight(weights, r)
  {
    assert |r| == n + 1 && r[k] == n;
    assert forall i :: 0 <= i < k ==> r[i] == order[i];
    assert forall i :: k < i <= n ==> r[i] == order[i - 1];
    forall i, j | 0 <= i < j <= n ensures Before(weights, r[i], r[j]) {
      if j == k && i < k - 1 {
        assert Before(weights, order[i], order[k - 1]);
      } else if i != k && j != k {
        assert Before(weights, order[if i < k then i else i - 1], order[if j < k then j else j - 1]);
      }
    }
  }

  // ----- the whole map -----

  datatype SegmentMap = SegmentMap(newToOld: seq<nat>, oldToNew: seq<nat>)

  datatype OrdinalMap = OrdinalMap(globalOrdDeltas: seq<int>, firstSegments: seq<nat>,
                                   segmentToGlobalOrds: seq<LongValues>, segmentMap: SegmentMap)
  {
    function ValueCount(): nat {
      |globalOrdDeltas|
    }

    function FirstSegmentNumber(globalOrd: nat): nat
      requires globalOrd < |firstSegments| && firstSegments[globalOrd] < |segmentMap.newToOld|
    {
      segmentMap.newToOld[firstSegments[globalOrd]]
    }

    function FirstSegmentOrd(globalOrd: nat): int
      requires globalOrd < |globalOrdDeltas|
    {
      globalOrd - globalOrdDeltas[globalOrd]
    }

    function GlobalOrds(index: nat): LongValues
      requires index < |segmentMap.oldToNew| && segmentMap.oldToNew[index] < |segmentToGlobalOrds|
    {
      segmentToGlobalOrds[segmentMap.oldToNew[index]]
    }
  }

  /** Everything built from the terms merged so far is right. */
  ghost predicate Building(lists: seq<seq<Entry>>, done: seq<nat>, terms: seq<Term>, ordDeltas: seq<seq<int>>,
                           ordDeltaBits: seq<int>, firstSegments: seq<nat>, globalOrdDeltas: seq<int>) {
    && MergedUpTo(lists, done, terms)
    && SegmentsMapped(lists, done, terms, ordDeltas) && CoversAll(ordDeltaBits, ordDeltas)
    && FirstsHold(lists, terms, firstSegments, globalOrdDeltas)
  }

  lemma BuildingStarts(lists: seq<seq<Entry>>, done: seq<nat>)
    requires done == seq(|lists|, _ => 0)
    ensures Building(lists, done, [], seq(|lists|, _ => []), seq(|lists|, _ => 0), [], [])
  {
  }

  lemma NowhereLeft(lists: seq<seq<Entry>>, done: seq<nat>, terms: seq<Term>)
    requires MergedUpTo(lists, done, terms) && forall s: nat :: !Live(lists, done, s)
    ensures forall s :: 0 <= s < |lists| ==> done[s] == |lists[s]|
  {
    forall s | 0 <= s < |lists| ensures done[s] == |lists[s]| {
      assert !Live(lists, done, s);
    }
  }

  lemma AdvancedUnique(before: seq<nat>, tops: seq<nat>, a: seq<nat>, b: seq<nat>)
    requires Advanced(before, tops, a) && Advanced(before, tops, b)
    ensures a == b
  {
  }

  lemma TopsLive(lists: seq<seq<Entry>>, pos: seq<nat>, tops: seq<nat>, t: Term)
    requires IsLeastHead(lists, pos, t) && forall s: nat :: s in tops <==> StandsOn(lists, pos, s, t)
    ensures AllLive(lists, pos, tops) && tops != []
  {
    var s: nat :| StandsOn(lists, pos, s, t);
    assert s in tops;
  }

  /** Recording one term: what is built stays right, and less remains to be merged. */
  method RecordNext(lists: seq<seq<Entry>>, pos: seq<nat>, tops: seq<nat>, t: Term, ghost terms: seq<Term>,
                    globalOrd: nat, ordDeltas: seq<seq<int>>, ordDeltaBits: seq<int>, firstSegments: seq<nat>,
                    globalOrdDeltas: seq<int>)
    returns (deltas: seq<seq<int>>, bits: seq<int>, firsts: seq<nat>, globals: seq<int>)
    requires SortedLists(lists) && |lists| <= 0x7fff_ffff && IsLeastHead(lists, pos, t)
    requires Distinct(tops) && forall s: nat :: s in tops <==> StandsOn(lists, pos, s, t)
    requires Building(lists, pos, terms, ordDeltas, ordDeltaBits, firstSegments, globalOrdDeltas)
      && globalOrd == |terms|
    ensures Building(lists, After(pos, tops), terms + [t], deltas, bits, firsts, globals)
    ensures Remaining(lists, After(pos, tops)) < Remaining(lists, pos)
  {
    hide MergedUpTo, FirstsHold, AllRecorded, FirstHolds, IsLeastHead, StandsOn, SegmentMapped, Covers;
    TopsLive(lists, pos, tops, t);
    var first, delta;
    deltas, bits, first, delta := Record(lists, pos, tops, globalOrd, ordDeltas, ordDeltaBits);
    ghost var done := After(pos, tops);
    MergeStep(lists, pos, tops, terms, t, done);
    SegmentsStep(lists, pos, tops, terms, t, ordDeltas, deltas, done, terms + [t]);
    FirstStep(lists, pos, tops, terms, t, first, delta);
    FirstsAppend(lists, terms, firstSegments, globalOrdDeltas, t, first, delta);
    firsts, globals := firstSegments + [first], globalOrdDeltas + [delta];
    MergedBounds(lists, pos, terms);
    MergedBounds(lists, done, terms + [t]);
    RemainingDrops(lists, pos, done, first);
  }

  lemma MergedBounds(lists: seq<seq<Entry>>, done: seq<nat>, terms: seq<Term>)
    requires MergedUpTo(lists, done, terms)
    ensures |done| == |lists| && forall s :: 0 <= s < |lists| ==> done[s] <= |lists[s]|
  {
  }

  /** Merges all lists, numbering the distinct terms and recording where each is found. */
  method MergeAll(lists: seq<seq<Entry>>)
    returns (ghost terms: seq<Term>, ordDeltas: seq<seq<int>>, ordDeltaBits: seq<int>, firstSegments: seq<nat>,
             globalOrdDeltas: seq<int>, ghost done: seq<nat>)
    requires SortedLists(lists) && |lists| <= 0x7fff_ffff
    ensures Building(lists, done, terms, ordDeltas, ordDeltaBits, firstSegments, globalOrdDeltas)
    ensures forall s :: 0 <= s < |lists| ==> done[s] == |lists[s]|
  {
    hide MergedUpTo, SegmentsMapped, FirstsHold, CoversAll, IsLeastHead, StandsOn, Core;
    var mte := new MultiTermIterator(lists);
    ordDeltas, ordDeltaBits := seq(|lists|, _ => []), seq(|lists|, _ => 0);
    firstSegments, globalOrdDeltas := [], [];
    terms, done := [], mte.pos;
    BuildingStarts(lists, done);
    AdvancedUnique(mte.pos, mte.Tops(), done, After(mte.pos, mte.Tops()));
    var globalOrd: nat := 0;
    while true
      invariant fresh(mte) && mte.Valid() && mte.lists == lists
      invariant done == After(mte.pos, mte.Tops()) && globalOrd == |terms|
      invariant Building(lists, done, terms, ordDeltas, ordDeltaBits, firstSegments, globalOrdDeltas)
      invariant |done| == |lists| && forall s :: 0 <= s < |lists| ==> done[s] <= |lists[s]|
      decreases Remaining(lists, done)
    {
      ghost var pos0, tops0 := mte.pos, mte.Tops();
      var r := mte.Next();
      AdvancedUnique(pos0, tops0, done, mte.pos);
      if r.None? {
        break;
      }
      ordDeltas, ordDeltaBits, firstSegments, globalOrdDeltas :=
        RecordNext(lists, mte.pos, mte.Tops(), r.value, terms, globalOrd, ordDeltas, ordDeltaBits, firstSegments,
          globalOrdDeltas);
      done := After(mte.pos, mte.Tops());
      terms, globalOrd := terms + [r.value], globalOrd + 1;
      MergedBounds(lists, done, terms);
    }
    NowhereLeft(lists, done, terms);
  }

  /** How many terms the lists still hold. */
  ghost function Remaining(lists: seq<seq<Entry>>, done: seq<nat>): nat
    requires |done| == |lists| && forall s :: 0 <= s < |lists| ==> done[s] <= |lists[s]|
  {
    if lists == [] then 0 else |lists[0]| - done[0] + Remaining(lists[1..], done[1..])
  }

  lemma {:induction false} RemainingDrops(lists: seq<seq<Entry>>, pos: seq<nat>, done: seq<nat>, s: nat)
    requires |pos| == |lists| == |done| && s < |lists|
    requires forall i :: 0 <= i < |lists| ==> pos[i] <= done[i] <= |lists[i]|
    requires pos[s] < done[s]
    ensures Remaining(lists, done) < Remaining(lists, pos)
  {
    if s == 0 {
      RemainingMonotone(lists[1..], pos[1..], done[1..]);
    } else {
      RemainingDrops(lists[1..], pos[1..], done[1..], s - 1);
    }
  }

  lemma {:induction false} RemainingMonotone(lists: seq<seq<Entry>>, pos: seq<nat>, done: seq<nat>)
    requires |pos| == |lists| == |done|
    requires forall i :: 0 <= i < |lists| ==> pos[i] <= done[i] <= |lists[i]|
    ensures Remaining(lists, done) <= Remaining(lists, pos)
  {
    if lists != [] {
      RemainingMonotone(lists[1..], pos[1..], done[1..]);
    }
  }

  // ----- what the map is for -----

  /** The shape of a map over `n` segments and `count` global ordinals. */
  ghost predicate WellFormed(m: OrdinalMap, n: nat, count: nat) {
    && |m.globalOrdDeltas| == |m.firstSegments| == count && BelowAll(m.firstSegments, n)
    && |m.segmentMap.newToOld| == |m.segmentMap.oldToNew| == |m.segmentToGlobalOrds| == n
    && BelowAll(m.segmentMap.newToOld, n) && BelowAll(m.segmentMap.oldToNew, n)
  }

  /** `terms` are exactly the terms of all segments, each once and in order. */
  ghost predicate DistinctTerms(subs: seq<seq<Entry>>, terms: seq<Term>) {
    Increasing(terms) && forall t :: t in terms <==> exists s :: 0 <= s < |subs| && Contains(subs[s], t)
  }

  /** Every live ordinal of every segment is mapped to the global ordinal of its term. */
  ghost predicate SegmentsResolve(m: OrdinalMap, subs: seq<seq<Entry>>, terms: seq<Term>)
    requires WellFormed(m, |subs|, |terms|)
  {
    forall s, k :: 0 <= s < |subs| && 0 <= k < |subs[s]| ==> Resolves(m.GlobalOrds(s), subs[s][k], terms)
  }

  ghost predicate Resolves(v: LongValues, e: Entry, terms: seq<Term>) {
    v.Has(e.ord) && 0 <= v.Get64(e.ord) < |terms| && terms[v.Get64(e.ord)] == e.term
  }

  /** Every global ordinal leads back to its term, in the heaviest segment that has it. */
  ghost predicate LeadsBack(m: OrdinalMap, subs: seq<seq<Entry>>, weights: seq<nat>, terms: seq<Term>, g: nat)
    requires WellFormed(m, |subs|, |terms|) && |weights| == |subs| && g < |terms|
  {
    var first, ord := m.FirstSegmentNumber(g), m.FirstSegmentOrd(g);
    && ord >= 0 && Entry(ord, terms[g]) in subs[first]
    && forall s :: 0 <= s < |subs| && Contains(subs[s], terms[g]) ==> s == first || Before(weights, first, s)
  }

  /** The lists in the order of the segment map. */
  ghost predicate Reordered(subs: seq<seq<Entry>>, newToOld: seq<nat>, lists: seq<seq<Entry>>) {
    |lists| == |newToOld| && BelowAll(newToOld, |subs|) && forall i :: 0 <= i < |lists| ==>
      lists[i] == subs[newToOld[i]]
  }

  lemma TermsOfAll(subs: seq<seq<Entry>>, newToOld: seq<nat>, lists: seq<seq<Entry>>, done: seq<nat>, terms: seq<Term>)
    requires IsPermutation(newToOld, |subs|) && Reordered(subs, newToOld, lists)
    requires MergedUpTo(lists, done, terms) && forall s :: 0 <= s < |lists| ==> done[s] == |lists[s]|
    ensures DistinctTerms(subs, terms)
  {
    forall t ensures t in terms <==> exists s :: 0 <= s < |subs| && Contains(subs[s], t) {
      if t in terms {
        var g :| 0 <= g < |terms| && terms[g] == t;
        assert Occurs(lists, done, terms[g]);
        var s, k :| 0 <= s < |lists| && 0 <= k < done[s] && lists[s][k].term == t;
        assert Contains(subs[newToOld[s]], t);
      }
      if s :| 0 <= s < |subs| && Contains(subs[s], t) {
        var k :| 0 <= k < |subs[s]| && subs[s][k].term == t;
        PermutationOnto(newToOld, |subs|, s);
        var i :| 0 <= i < |newToOld| && newToOld[i] == s;
        assert lists[i][k].term in terms;
      }
    }
  }

  lemma LeadBack(m: OrdinalMap, subs: seq<seq<Entry>>, weights: seq<nat>, lists: seq<seq<Entry>>, terms: seq<Term>,
                 g: nat)
    requires WellFormed(m, |subs|, |terms|) && |weights| == |subs| && g < |terms|
    requires IsPermutation(m.segmentMap.newToOld, |subs|) && ByWeight(weights, m.segmentMap.newToOld)
    requires Reordered(subs, m.segmentMap.newToOld, lists)
      && FirstsHold(lists, terms, m.firstSegments, m.globalOrdDeltas)
    ensures LeadsBack(m, subs, weights, terms, g)
  {
    var newToOld, f := m.segmentMap.newToOld, m.firstSegments[g];
    assert FirstHolds(lists, terms[g], f, g - m.globalOrdDeltas[g]);
    forall s | 0 <= s < |subs| && Contains(subs[s], terms[g])
      ensures s == newToOld[f] || Before(weights, newToOld[f], s)
    {
      PermutationOnto(newToOld, |subs|, s);
      var i :| 0 <= i < |newToOld| && newToOld[i] == s;
      assert Contains(lists[i], terms[g]);
      assert f <= i;
    }
  }

  ghost predicate AllStored(values: seq<LongValues>, deltas: seq<seq<int>>) {
    |values| == |deltas| && forall s, i :: 0 <= s < |deltas| && 0 <= i < |deltas[s]| ==>
      values[s].Has(i) && values[s].Get64(i) == i + deltas[s][i]
  }

  lemma ResolveAll(m: OrdinalMap, subs: seq<seq<Entry>>, lists: seq<seq<Entry>>, done: seq<nat>, terms: seq<Term>,
                   deltas: seq<seq<int>>)
    requires WellFormed(m, |subs|, |terms|) && Reordered(subs, m.segmentMap.newToOld, lists)
    requires forall s :: 0 <= s < |subs| ==> m.segmentMap.newToOld[m.segmentMap.oldToNew[s]] == s
    requires SegmentsMapped(lists, done, terms, deltas) && forall s :: 0 <= s < |lists| ==> done[s] == |lists[s]|
    requires AllStored(m.segmentToGlobalOrds, deltas)
    ensures SegmentsResolve(m, subs, terms)
  {
    forall s, k | 0 <= s < |subs| && 0 <= k < |subs[s]| ensures Resolves(m.GlobalOrds(s), subs[s][k], terms) {
      var i := m.segmentMap.oldToNew[s];
      assert SegmentMapped(lists[i], done[i], terms, deltas[i]);
      assert MapsTo(deltas[i], lists[i][k], terms);
    }
  }

  method StoreAll(deltas: seq<seq<int>>, bits: seq<int>, choosePacked: nat -> bool) returns (values: seq<LongValues>)
    requires CoversAll(bits, deltas)
    ensures AllStored(values, deltas)
  {
    values := [];
    for s := 0 to |deltas|
      invariant |values| == s && AllStored(values, deltas[..s])
    {
      var v := Store(deltas[s], bits[s], choosePacked(s));
      values := values + [v];
    }
    assert deltas[..|deltas|] == deltas;
  }

  /** `m` numbers the terms of all segments: `terms` are these terms in order, every live ordinal of a
      segment maps to the place of its term, and every place leads back to it. */
  ghost predicate Numbers(m: OrdinalMap, subs: seq<seq<Entry>>, weights: seq<nat>, terms: seq<Term>) {
    && WellFormed(m, |subs|, |terms|) && |weights| == |subs| && m.ValueCount() == |terms|
    && DistinctTerms(subs, terms) && SegmentsResolve(m, subs, terms)
    && (forall g :: 0 <= g < |terms| ==> LeadsBack(m, subs, weights, terms, g))
  }

  /** Builds the ordinal map of `subs`, which are reordered by weight; `choosePacked` stands
      for the memory estimate that picks between two of the storage forms. */
  method Build(subs: seq<seq<Entry>>, weights: seq<nat>, choosePacked: nat -> bool) returns (m: OrdinalMap)
    requires SortedLists(subs) && |weights| == |subs| <= 0x7fff_ffff
    ensures exists terms :: Numbers(m, subs, weights, terms)
  {
    hide DistinctTerms, SegmentsResolve, LeadsBack, MergedUpTo, SegmentsMapped, CoversAll, AllStored, ByWeight,
         FirstHolds;
    var newToOld := MapByWeight(weights);
    var oldToNew := Inverse(newToOld);
    var lists := seq(|subs|, i requires 0 <= i < |subs| => subs[newToOld[i]]);
    var terms, ordDeltas, ordDeltaBits, firstSegments, globalOrdDeltas, done := MergeAll(lists);
    var values := StoreAll(ordDeltas, ordDeltaBits, choosePacked);
    m := OrdinalMap(globalOrdDeltas, firstSegments, values, SegmentMap(newToOld, oldToNew));
    Shaped(lists, done, terms, ordDeltas, firstSegments, globalOrdDeltas, values);
    TermsOfAll(subs, newToOld, lists, done, terms);
    ResolveAll(m, subs, lists, done, terms, ordDeltas);
    forall g | 0 <= g < |terms| ensures LeadsBack(m, subs, weights, terms, g) {
      LeadBack(m, subs, weights, lists, terms, g);
    }
    assert Numbers(m, subs, weights, terms);
  }

  /** There is only one way to list the terms of all segments. */
  lemma TermsUnique(subs: seq<seq<Entry>>, a: seq<Term>, b: seq<Term>)
    requires DistinctTerms(subs, a) && DistinctTerms(subs, b)
    ensures a == b
  {
    forall t ensures t in a <==> t in b {
    }
    SameIncreasing(a, b);
  }

  lemma {:induction false} SameIncreasing(a: seq<Term>, b: seq<Term>)
    requires Increasing(a) && Increasing(b) && forall t :: t in a <==> t in b
    ensures a == b
  {
    assert b != [] ==> b[0] in a;
    if a != [] {
      assert a[0] in b;
      var k :| 0 <= k < |b| && b[k] == a[0];
      var j :| 0 <= j < |a| && a[j] == b[0];
      FirstIsFirst(a, b, j, k);
      HeadOnce(a);
      HeadOnce(b);
      assert a == [a[0]] + a[1..] && b == [b[0]] + b[1..];
      forall t ensures t in a[1..] <==> t in b[1..] {
        assert t in a <==> t == a[0] || t in a[1..];
        assert t in b <==> t == b[0] || t in b[1..];
      }
      SameIncreasing(a[1..], b[1..]);
    }
  }

  lemma HeadOnce(a: seq<Term>)
    requires Increasing(a) && a != []
    ensures a[0] !in a[1..]
  {
    LessIrreflexive(a[0]);
    forall i | 0 < i < |a| ensures a[i] != a[0] {
      assert Less(a[0], a[i]);
    }
  }

  lemma FirstIsFirst(a: seq<Term>, b: seq<Term>, j: nat, k: nat)
    requires Increasing(a) && Increasing(b) && j < |a| && k < |b| && a[j] == b[0] && b[k] == a[0]
    ensures a[0] == b[0]
  {
    if j > 0 && k > 0 {
      LessTransitive(a[0], a[j], a[0]);
      LessIrreflexive(a[0]);
    }
  }

  lemma Shaped(lists: seq<seq<Entry>>, done: seq<nat>, terms: seq<Term>, ordDeltas: seq<seq<int>>,
               firstSegments: seq<nat>, globalOrdDeltas: seq<int>, values: seq<LongValues>)
    requires SegmentsMapped(lists, done, terms, ordDeltas) && AllStored(values, ordDeltas)
    requires FirstsHold(lists, terms, firstSegments, globalOrdDeltas)
    ensures |values| == |lists| && |firstSegments| == |globalOrdDeltas| == |terms| && BelowAll(firstSegments, |lists|)
  {
    forall g | 0 <= g < |terms| ensures firstSegments[g] < |lists| {
      assert FirstHolds(lists, terms[g], firstSegments[g], g - globalOrdDeltas[g]);
    }
  }
}
