/** The writer of sorted-set doc values (doc_values_writer.rs): every document's set of byte
    strings, kept as term ids until the flush turns them into ordinals. */
module SortedSet {
  import BitMath
  import opened Lex
  import opened Sequences
  import opened Sorter
  import opened RadixSorter
  import opened ByteBlockPool
  import opened BytesRefHash

  ghost predicate Ascending(s: seq<nat>) {
    forall i, j :: 0 <= i < j < |s| ==> s[i] < s[j]
  }

  /** The strings that a list of ids stands for. */
  ghost function Names(ids: seq<nat>, texts: seq<Term>): set<Term> {
    set i | 0 <= i < |ids| :: Text(texts, ids[i])
  }

  lemma NamesPush(ids: seq<nat>, texts: seq<Term>, x: nat)
    ensures Names(ids + [x], texts) == Names(ids, texts) + {Text(texts, x)}
  {
    var u := ids + [x];
    forall t ensures t in Names(u, texts) <==> t in Names(ids, texts) + {Text(texts, x)} {
      if t in Names(ids, texts) {
        var i :| 0 <= i < |ids| && Text(texts, ids[i]) == t;
        assert Text(texts, u[i]) == t;
      }
      assert u[|ids|] == x;
    }
  }

  lemma NamesGrow(ids: seq<nat>, texts: seq<Term>, more: seq<Term>)
    requires BelowAll(ids, |texts|) && |texts| <= |more| && more[..|texts|] == texts
    ensures Names(ids, more) == Names(ids, texts)
  {
    assert forall i :: 0 <= i < |ids| ==> Text(more, ids[i]) == Text(texts, ids[i]);
  }

  /** Names depend on the members of a list only. */
  lemma NamesSame(a: seq<nat>, b: seq<nat>, texts: seq<Term>)
    requires forall x :: x in a <==> x in b
    ensures Names(a, texts) == Names(b, texts)
  {
    forall i | 0 <= i < |a| ensures Text(texts, a[i]) in Names(b, texts) {
      assert a[i] in b;
    }
    forall i | 0 <= i < |b| ensures Text(texts, b[i]) in Names(a, texts) {
      assert b[i] in a;
    }
  }

  // ----- one document's ids -----

  /** `finish_current_doc`: the ids of a document, sorted and each once. */
  method SortedOnce(s: seq<nat>) returns (r: seq<nat>)
    ensures Ascending(r) && forall x :: x in r <==> x in s
  {
    var sorted := SortNumbers(s);
    forall x ensures x in sorted <==> x in s {
      assert x in sorted <==> x in multiset(sorted);
    }
    var lastValue: int := -1;
    r := [];
    for i := 0 to |sorted|
      invariant Ascending(r) && (forall x :: x in r <==> x in sorted[..i])
      invariant lastValue == if i == 0 then -1 else sorted[i - 1]
      invariant if i == 0 then r == [] else r != [] && r[|r| - 1] == sorted[i - 1]
    {
      assert sorted[..i + 1] == sorted[..i] + [sorted[i]];
      if sorted[i] != lastValue {
        r := r + [sorted[i]];
      }
      lastValue := sorted[i];
    }
    assert sorted[..|sorted|] == sorted;
  }

  // ----- the stream of ids and the stream of counts -----

  ghost function Start(counts: seq<nat>, d: nat): nat
    requires d <= |counts|
  {
    if d == 0 then 0 else Start(counts, d - 1) + counts[d - 1]
  }

  lemma {:induction false} StartPushed(counts: seq<nat>, c: nat, d: nat)
    requires d <= |counts|
    ensures Start(counts + [c], d) == Start(counts, d)
  {
    if d > 0 { StartPushed(counts, c, d - 1); }
  }

  lemma {:induction false} StartMonotone(counts: seq<nat>, d: nat, e: nat)
    requires d <= e <= |counts|
    ensures Start(counts, d) <= Start(counts, e)
  {
    if d < e { StartMonotone(counts, d, e - 1); }
  }

  /** `n` numbers of `s` from `from` on: ascending names of exactly the given strings. */
  ghost predicate DocIs(s: seq<nat>, from: nat, n: nat, texts: seq<Term>, values: set<Term>) {
    && from + n <= |s| && Ascending(s[from..from + n]) && BelowAll(s[from..from + n], |texts|)
    && Names(s[from..from + n], texts) == values
  }

  ghost predicate DocAt(s: seq<nat>, counts: seq<nat>, texts: seq<Term>, docs: seq<set<Term>>, d: nat) {
    d < |counts| && d < |docs| && DocIs(s, Start(counts, d), counts[d], texts, docs[d])
  }

  /** The two streams hold one run of ascending names for each document. */
  ghost predicate Laid(s: seq<nat>, counts: seq<nat>, texts: seq<Term>, docs: seq<set<Term>>) {
    && |counts| == |docs| && Start(counts, |counts|) == |s|
    && (forall d: nat :: d < |docs| ==> DocAt(s, counts, texts, docs, d))
  }

  lemma DocPushed(s: seq<nat>, more: seq<nat>, from: nat, n: nat, texts: seq<Term>, values: set<Term>)
    requires DocIs(s, from, n, texts, values)
    ensures DocIs(s + more, from, n, texts, values)
  {
    assert (s + more)[from..from + n] == s[from..from + n];
  }

  lemma LaidPushedAt(s: seq<nat>, counts: seq<nat>, texts: seq<Term>, docs: seq<set<Term>>, ids: seq<nat>,
                     values: set<Term>, s': seq<nat>, counts': seq<nat>, docs': seq<set<Term>>, d: nat)
    requires Laid(s, counts, texts, docs) && d < |docs'|
    requires s' == s + ids && counts' == counts + [|ids|] && docs' == docs + [values]
    requires Ascending(ids) && BelowAll(ids, |texts|) && Names(ids, texts) == values
    ensures DocAt(s', counts', texts, docs', d)
  {
    hide DocIs, Ascending, Names, BelowAll;
    StartPushed(counts, |ids|, d);
    if d < |docs| {
      assert DocAt(s, counts, texts, docs, d);
      DocPushed(s, ids, Start(counts, d), counts[d], texts, docs[d]);
    } else {
      LastDoc(s, ids, texts, values);
    }
  }

  lemma LaidPushed(s: seq<nat>, counts: seq<nat>, texts: seq<Term>, docs: seq<set<Term>>, ids: seq<nat>,
                   values: set<Term>)
    requires Laid(s, counts, texts, docs)
    requires Ascending(ids) && BelowAll(ids, |texts|) && Names(ids, texts) == values
    ensures Laid(s + ids, counts + [|ids|], texts, docs + [values])
  {
    hide DocAt, Ascending, Names, BelowAll;
    var s', counts', docs' := s + ids, counts + [|ids|], docs + [values];
    forall d: nat | d < |docs'| ensures DocAt(s', counts', texts, docs', d) {
      LaidPushedAt(s, counts, texts, docs, ids, values, s', counts', docs', d);
    }
    StartPushed(counts, |ids|, |counts|);
    assert Start(counts', |counts'|) == Start(counts', |counts|) + |ids|;
  }

  lemma LastDoc(s: seq<nat>, ids: seq<nat>, texts: seq<Term>, values: set<Term>)
    requires Ascending(ids) && BelowAll(ids, |texts|) && Names(ids, texts) == values
    ensures DocIs(s + ids, |s|, |ids|, texts, values)
  {
    assert (s + ids)[|s|..|s| + |ids|] == ids;
  }

  lemma DocGrow(s: seq<nat>, from: nat, n: nat, texts: seq<Term>, values: set<Term>, more: seq<Term>)
    requires DocIs(s, from, n, texts, values) && |texts| <= |more| && more[..|texts|] == texts
    ensures DocIs(s, from, n, more, values)
  {
    NamesGrow(s[from..from + n], texts, more);
  }

  /** Strings that are added later change nothing for the documents before. */
  lemma LaidGrow(s: seq<nat>, counts: seq<nat>, texts: seq<Term>, docs: seq<set<Term>>, more: seq<Term>)
    requires Laid(s, counts, texts, docs) && |texts| <= |more| && more[..|texts|] == texts
    ensures Laid(s, counts, more, docs)
  {
    hide DocIs;
    forall d: nat | d < |docs| ensures DocAt(s, counts, more, docs, d) {
      assert DocAt(s, counts, texts, docs, d);
      DocGrow(s, Start(counts, d), counts[d], texts, docs[d], more);
    }
  }

  // ----- from ids to ordinals -----

  /** What the flush knows: `values` are the strings in order, and `ordMap` leads from the id
      of a string to its place among them. */
  ghost predicate OrdMap(ordMap: seq<nat>, texts: seq<Term>, values: seq<Term>) {
    && |ordMap| == |texts| == |values| && Increasing(values)
    && (forall x :: 0 <= x < |texts| ==> ordMap[x] < |values| && values[ordMap[x]] == texts[x])
  }

  lemma OrdMapSize(ordMap: seq<nat>, texts: seq<Term>, values: seq<Term>)
    requires OrdMap(ordMap, texts, values)
    ensures |ordMap| == |texts| == |values|
  {
  }

  /** Ordinals stand in the order of the strings. */
  lemma OrdsOrder(ordMap: seq<nat>, texts: seq<Term>, values: seq<Term>, x: nat, y: nat)
    requires OrdMap(ordMap, texts, values) && x < |texts| && y < |texts|
    ensures ordMap[x] < ordMap[y] <==> Less(texts[x], texts[y])
    ensures ordMap[x] == ordMap[y] <==> texts[x] == texts[y]
  {
    LessIrreflexive(texts[x]);
    if Less(texts[x], texts[y]) && Less(texts[y], texts[x]) {
      LessTransitive(texts[x], texts[y], texts[x]);
    }
  }

  ghost predicate Remapped(ids: seq<nat>, ordMap: seq<nat>, ords: seq<nat>) {
    |ords| == |ids| && forall i :: 0 <= i < |ids| ==> ids[i] < |ordMap| && ords[i] == ordMap[ids[i]]
  }

  lemma RemappedNames(ids: seq<nat>, ordMap: seq<nat>, ords: seq<nat>, texts: seq<Term>, values: seq<Term>)
    requires OrdMap(ordMap, texts, values) && Remapped(ids, ordMap, ords)
    ensures Names(ords, values) == Names(ids, texts) && BelowAll(ords, |values|)
  {
    assert forall i :: 0 <= i < |ids| ==> Text(values, ords[i]) == Text(texts, ids[i]);
    forall i | 0 <= i < |ids| ensures Text(values, ords[i]) in Names(ids, texts) {
    }
    forall i | 0 <= i < |ids| ensures Text(texts, ids[i]) in Names(ords, values) {
    }
  }

  lemma RemappedDistinct(ids: seq<nat>, ordMap: seq<nat>, ords: seq<nat>, texts: seq<Term>, values: seq<Term>)
    requires OrdMap(ordMap, texts, values) && Remapped(ids, ordMap, ords) && Ascending(ids) && NoDuplicates(texts)
    ensures Distinct(ords)
  {
    forall i, j | 0 <= i < j < |ords| ensures ords[i] != ords[j] {
      OrdsOrder(ordMap, texts, values, ids[i], ids[j]);
    }
  }

  lemma SortedDistinct(a: seq<nat>, b: seq<nat>)
    requires Distinct(a) && multiset(a) == multiset(b) && forall i, j :: 0 <= i < j < |b| ==> b[i] <= b[j]
    ensures Ascending(b) && forall x :: x in a <==> x in b
  {
    PermutedDistinct(a, b);
    forall x ensures x in a <==> x in b {
      assert x in a <==> x in multiset(a);
    }
  }

  /** One document of the ordinal iterator: ids become ordinals, which are then sorted. */
  method DocOrds(ids: seq<nat>, ordMap: seq<nat>, ghost texts: seq<Term>, ghost values: seq<Term>)
    returns (ords: seq<nat>)
    requires OrdMap(ordMap, texts, values) && NoDuplicates(texts) && Ascending(ids) && BelowAll(ids, |texts|)
    ensures |ords| == |ids| && Ascending(ords) && BelowAll(ords, |values|) && Names(ords, values) == Names(ids, texts)
  {
    hide OrdMap, NoDuplicates, Ascending, Names;
    OrdMapSize(ordMap, texts, values);
    var remapped := Remap(ids, ordMap);
    RemappedNames(ids, ordMap, remapped, texts, values);
    RemappedDistinct(ids, ordMap, remapped, texts, values);
    ords := SortNumbers(remapped);
    assert |ords| == |multiset(ords)| == |multiset(remapped)|;
    SortedDistinct(remapped, ords);
    NamesSame(remapped, ords, values);
    forall i | 0 <= i < |ords| ensures ords[i] < |values| {
      assert ords[i] in remapped;
    }
  }

  method Remap(ids: seq<nat>, ordMap: seq<nat>) returns (ords: seq<nat>)
    requires BelowAll(ids, |ordMap|)
    ensures Remapped(ids, ordMap, ords)
  {
    ords := [];
    for i := 0 to |ids|
      invariant |ords| == i && forall k :: 0 <= k < i ==> ords[k] == ordMap[ids[k]]
    {
      ords := ords + [ordMap[ids[i]]];
    }
  }

  /** The ordinals of all documents, as the ordinal iterator yields them. */
  method AllOrds(s: seq<nat>, counts: seq<nat>, ordMap: seq<nat>, ghost texts: seq<Term>, ghost values: seq<Term>,
                 ghost docs: seq<set<Term>>)
      returns (ords: seq<nat>)
    requires OrdMap(ordMap, texts, values) && NoDuplicates(texts) && Laid(s, counts, texts, docs)
    ensures Laid(ords, counts, values, docs)
  {
    hide OrdMap, NoDuplicates, Laid, Ascending, Names;
    ords := [];
    var at := 0;
    LaidNone(values);
    LaidSize(s, counts, texts, docs);
    for d := 0 to |counts|
      invariant at == Start(counts, d) && Laid(ords, counts[..d], values, docs[..d])
    {
      LaidAt(s, counts, texts, docs, d);
      var one := DocOrds(s[at..at + counts[d]], ordMap, texts, values);
      LaidPushed(ords, counts[..d], values, docs[..d], one, docs[d]);
      assert counts[..d] + [|one|] == counts[..d + 1] && docs[..d] + [docs[d]] == docs[..d + 1];
      ords := ords + one;
      at := at + counts[d];
    }
    assert counts[..|counts|] == counts && docs[..|docs|] == docs;
  }

  lemma LaidNone(texts: seq<Term>)
    ensures Laid([], [], texts, [])
  {
  }

  lemma LaidSize(s: seq<nat>, counts: seq<nat>, texts: seq<Term>, docs: seq<set<Term>>)
    requires Laid(s, counts, texts, docs)
    ensures |counts| == |docs|
  {
  }

  lemma LaidAt(s: seq<nat>, counts: seq<nat>, texts: seq<Term>, docs: seq<set<Term>>, d: nat)
    requires Laid(s, counts, texts, docs) && d < |counts|
    ensures d < |docs| && DocIs(s, Start(counts, d), counts[d], texts, docs[d])
  {
    assert DocAt(s, counts, texts, docs, d);
  }

  // ----- the writer -----

  const DEFAULT_CAPACITY := 16

  datatype Outcome = Added | NullValue | TooLarge | Panicked

  /** The strings of the field once `value` has been taken. */
  ghost function Interned(texts: seq<Term>, value: Term, taken: bool): seq<Term> {
    if taken && value !in texts then texts + [value] else texts
  }

  /** The documents up to `n`: the current one, then ones without values. */
  ghost function Padded(docs: seq<set<Term>>, current: set<Term>, n: nat): seq<set<Term>>
    requires n >= |docs|
  {
    if n == |docs| then docs else docs + [current] + seq(n - |docs| - 1, _ => {})
  }

  /** Every string belongs to some document. */
  ghost predicate Used(texts: seq<Term>, docs: seq<set<Term>>, current: set<Term>) {
    forall t :: t in texts ==> t in current || exists d :: 0 <= d < |docs| && t in docs[d]
  }

  lemma UsedPushed(texts: seq<Term>, docs: seq<set<Term>>, current: set<Term>)
    requires Used(texts, docs, current)
    ensures Used(texts, docs + [current], {})
  {
    var docs' := docs + [current];
    forall t | t in texts ensures exists d :: 0 <= d < |docs'| && t in docs'[d] {
      if t in current {
        assert t in docs'[|docs|];
      } else {
        var d :| 0 <= d < |docs| && t in docs[d];
        assert t in docs'[d];
      }
    }
  }

  lemma UsedOneMore(texts: seq<Term>, docs: seq<set<Term>>, current: set<Term>, more: seq<Term>, value: Term)
    requires Used(texts, docs, current) && (more == texts || more == texts + [value])
    ensures Used(more, docs, current + {value})
  {
  }

  ghost predicate Fits(texts: seq<Term>) {
    forall t :: t in texts ==> 0 < |t| < BYTE_BLOCK_SIZE - 2
  }

  /** `n` is the greatest of the counts, 0 if there are none. */
  ghost predicate Largest(n: nat, counts: seq<nat>) {
    (n == 0 || n in counts) && forall i :: 0 <= i < |counts| ==> counts[i] <= n
  }

  lemma LargestPushed(n: nat, counts: seq<nat>, c: nat)
    requires Largest(n, counts)
    ensures Largest(if n < c then c else n, counts + [c])
  {
  }

  class SortedSetWriter {
    const hash: BytesRefHash
    var pending: seq<nat>
    var pendingCounts: seq<nat>
    var currentDoc: nat
    var currentValues: seq<nat>
    var maxCount: nat
    /** The values of the finished documents, and of the current one. */
    ghost var docs: seq<set<Term>>
    ghost var current: set<Term>

    ghost predicate Valid()
      reads this, hash, hash.pool, hash.ids
    {
      && hash.Valid() && hash.pool.byteUpto > 0 && Fits(hash.texts) && Lists()
      && Used(hash.texts, docs, current)
    }

    ghost predicate Lists()
      reads this, hash
    {
      && currentDoc == |docs| && Laid(pending, pendingCounts, hash.texts, docs) && Largest(maxCount, pendingCounts)
      && BelowAll(currentValues, |hash.texts|) && Names(currentValues, hash.texts) == current
    }

    constructor (murmur: Term -> nat)
      ensures Valid() && docs == [] && current == {} && hash.texts == []
      ensures fresh(hash) && fresh(hash.pool) && fresh(hash.ids)
    {
      var pool := new ByteBlockPool();
      assert BitMath.Pow2(4) == DEFAULT_CAPACITY;
      hash := new BytesRefHash(pool, murmur, DEFAULT_CAPACITY, DEFAULT_CAPACITY);
      pending, pendingCounts, currentDoc, currentValues, maxCount := [], [], 0, [], 0;
      docs, current := [], {};
    }

    /** `finish_current_doc`. */
    method FinishCurrentDoc()
      requires Valid()
      modifies this
      ensures Valid() && docs == old(docs) + [old(current)] && current == {} && currentValues == []
    {
      hide Laid, Largest, Names, BelowAll, Used, Ascending, Fits, Table, StoredAll, NoDuplicates, PowerOfTwo, Codes,
           Below;
      var ids := SortedOnce(currentValues);
      NamesSame(ids, currentValues, hash.texts);
      StillBelow(currentValues, ids, |hash.texts|);
      LaidPushed(pending, pendingCounts, hash.texts, docs, ids, current);
      UsedPushed(hash.texts, docs, current);
      LargestPushed(maxCount, pendingCounts, |ids|);
      NothingYet(hash.texts);
      pending := pending + ids;
      pendingCounts := pendingCounts + [|ids|];
      maxCount := if maxCount < |ids| then |ids| else maxCount;
      currentValues := [];
      currentDoc := currentDoc + 1;
      docs, current := docs + [current], {};
    }

    /** One more document without values. */
    method SkipDoc()
      requires Valid() && current == {} && currentValues == []
      modifies this`pendingCounts, this`currentDoc, this`docs
      ensures Valid() && docs == old(docs) + [{}]
    {
      hide Laid, Largest, Names, BelowAll, Used, Ascending, Fits, Table, StoredAll, NoDuplicates, PowerOfTwo, Codes,
           Below;
      NothingYet(hash.texts);
      LaidPushed(pending, pendingCounts, hash.texts, docs, [], {});
      UsedPushed(hash.texts, docs, {});
      LargestPushed(maxCount, pendingCounts, 0);
      assert pending + [] == pending;
      pendingCounts := pendingCounts + [0];
      currentDoc := currentDoc + 1;
      docs := docs + [{}];
    }

    /** Moves on to document `n`; the ones that are passed have no values. */
    method SkipTo(n: nat)
      requires Valid() && current == {} && currentValues == []
      modifies this`pendingCounts, this`currentDoc, this`docs
      ensures Valid() && docs == old(docs) + seq(if n < old(|docs|) then 0 else n - old(|docs|), _ => {})
    {
      hide Laid, Largest, Names, BelowAll, Used, Ascending, Fits, Table, StoredAll, NoDuplicates, PowerOfTwo, Codes,
           Below;
      ghost var before := docs;
      while currentDoc < n
        invariant Valid() && |docs| >= |before| && (|docs| <= n || docs == before)
        invariant docs == before + seq(|docs| - |before|, _ => {})
        decreases n - currentDoc
      {
        SkipDoc();
      }
    }

    /** `add_one_value`: the id of the value joins the current document's. */
    method AddOneValue(value: Term) returns (panicked: bool)
      requires Valid() && 0 < |value| <= BYTE_BLOCK_SIZE - 2
      modifies this`currentValues, this`current, hash, hash.ids, hash.pool
      ensures panicked <==> |value| == BYTE_BLOCK_SIZE - 2
      ensures Valid() && (hash.ids == old(hash.ids) || fresh(hash.ids))
      ensures current == if panicked then old(current) else old(current) + {value}
      ensures hash.texts == Interned(old(hash.texts), value, !panicked)
    {
      hide Laid, Largest, Names, BelowAll, Used, Ascending, Table, StoredAll, NoDuplicates, PowerOfTwo, Codes, Below;
      ghost var texts := hash.texts;
      var r := hash.Add(value);
      LaidGrow(pending, pendingCounts, texts, docs, hash.texts);
      NamesGrow(currentValues, texts, hash.texts);
      MoreBelow(currentValues, |texts|, |hash.texts|);
      if r.None? {
        return true;
      }
      var termId := r.value;
      if termId < 0 {
        termId := -(termId + 1);
      }
      IdBelow(termId, |hash.texts|);
      NamesPush(currentValues, hash.texts, termId);
      OneMoreBelow(currentValues, termId, |hash.texts|);
      UsedOneMore(texts, docs, current, hash.texts, value);
      currentValues := currentValues + [termId];
      current := current + {value};
      panicked := false;
    }

    /** Adds a value to a document; documents come in order. */
    method AddValue(docId: nat, value: Term) returns (r: Outcome)
      requires Valid() && currentDoc <= docId
      modifies this, hash, hash.ids, hash.pool
      ensures Valid() && (hash.ids == old(hash.ids) || fresh(hash.ids))
      ensures (r == NullValue <==> |value| == 0) && (r == TooLarge <==> |value| > 32766)
      ensures (r == Panicked <==> |value| == 32766) && (r == Added <==> 0 < |value| < 32766)
      ensures r in {NullValue, TooLarge} ==> docs == old(docs) && current == old(current)
      ensures r in {Added, Panicked} ==> docs == Padded(old(docs), old(current), docId)
      ensures r == Added ==> current == (if docId == old(currentDoc) then old(current) else {}) + {value}
      ensures hash.texts == Interned(old(hash.texts), value, r == Added)
    {
      hide Laid, Largest, Names, BelowAll, Used, Ascending, Fits, Table, StoredAll, NoDuplicates, PowerOfTwo, Codes,
           Below;
      if |value| == 0 {
        return NullValue;
      }
      if |value| > BYTE_BLOCK_SIZE - 2 {
        return TooLarge;
      }
      if docId != currentDoc {
        FinishCurrentDoc();
        SkipTo(docId);
      }
      var panicked := AddOneValue(value);
      r := if panicked then Panicked else Added;
    }

    /** `finish`: every document up to `numDoc` has its count. */
    method Finish(numDoc: nat)
      requires Valid()
      modifies this
      ensures Valid() && current == {} && currentValues == []
      ensures docs == Padded(old(docs), old(current), if numDoc <= old(|docs|) then old(|docs|) + 1 else numDoc)
    {
      FinishCurrentDoc();
      SkipTo(numDoc);
    }

    /** Sorts the strings; `ordMap` leads from ids to places in `values`. */
    method SortValues() returns (values: seq<Term>, ordMap: seq<nat>)
      requires Valid()
      modifies hash`lastCount, hash.ids
      ensures hash.texts == old(hash.texts) && OrdMap(ordMap, hash.texts, values) && NoDuplicates(hash.texts)
      ensures forall t :: t in values <==> t in hash.texts
    {
      hide Laid, Names, Used, Table, StoredAll, NoDuplicates, PowerOfTwo, Codes, Below, SortedIds, OrdMap, Fits,
           IsPermutation;
      hash.Sort();
      ghost var s := hash.ids[..hash.count];
      var order := InOrder(hash.ids, hash.count, hash.texts);
      values := ValuesInOrder(order);
      ordMap := Inverse(order);
      SortedOrdMap(s, order, ordMap, hash.texts, values);
    }

    /** The strings of the given ids, as the value iterator yields them. */
    method ValuesInOrder(order: seq<nat>) returns (values: seq<Term>)
      requires hash.Readable() && BelowAll(order, hash.count)
      ensures |values| == |order| && forall k :: 0 <= k < |order| ==> values[k] == Text(hash.texts, order[k])
    {
      hide StoredAll, NoDuplicates, PowerOfTwo;
      values := [];
      for ord := 0 to |order|
        invariant |values| == ord && forall k :: 0 <= k < ord ==> values[k] == Text(hash.texts, order[k])
      {
        var t := hash.Get(order[ord]);
        values := values + [t];
      }
    }

    /** `flush`: all values in order, each once, and for every document its count and the
        ascending ordinals of exactly its values. */
    method Flush() returns (values: seq<Term>, counts: seq<nat>, ords: seq<nat>)
      requires Valid() && current == {}
      modifies hash`lastCount, hash.ids
      ensures Increasing(values) && Used(values, docs, {}) && Laid(ords, counts, values, docs)
    {
      hide Laid, Names, Table, StoredAll, NoDuplicates, PowerOfTwo, Codes, Below, SortedIds;
      var ordMap;
      values, ordMap := SortValues();
      counts := pendingCounts;
      ords := AllOrds(pending, pendingCounts, ordMap, hash.texts, values, docs);
    }

    /** `flush` of an index that is sorted by `oldToNew`: the ordinals of every document are
        moved to its new place, in the order of their ids. */
    method FlushSorted(oldToNew: seq<nat>) returns (values: seq<Term>, res: seq<seq<nat>>)
      requires Valid() && current == {} && IsPermutation(oldToNew, |docs|)
      modifies hash`lastCount, hash.ids
      ensures Increasing(values) && Used(values, docs, {}) && |res| == |docs|
      ensures forall d: nat :: d < |docs| ==>
        MovedTo(pending, pendingCounts, hash.texts, values, docs, d, res[oldToNew[d]])
    {
      hide Laid, Names, Table, StoredAll, NoDuplicates, PowerOfTwo, Codes, Below, SortedIds, MovedTo, Ascending;
      var ordMap;
      values, ordMap := SortValues();
      res := MoveDocs(pending, pendingCounts, ordMap, oldToNew, hash.texts, values, docs);
    }
  }

  // ----- an index that is sorted -----

  /** The strings of a document were added to the field in increasing order. */
  ghost predicate AddedInOrder(ids: seq<nat>, texts: seq<Term>) {
    forall i, j :: 0 <= i < j < |ids| ==> Less(Text(texts, ids[i]), Text(texts, ids[j]))
  }

  /** `ords` are the ordinals of document `d`; they ascend exactly if its values were added to the
      field in increasing order. */
  ghost predicate MovedTo(s: seq<nat>, counts: seq<nat>, texts: seq<Term>, values: seq<Term>, docs: seq<set<Term>>,
                          d: nat, ords: seq<nat>)
  {
    && DocAt(s, counts, texts, docs, d) && BelowAll(ords, |values|) && Names(ords, values) == docs[d]
    && |ords| == counts[d] && Distinct(ords)
    && (Ascending(ords) <==> AddedInOrder(s[Start(counts, d)..Start(counts, d) + counts[d]], texts))
  }

  lemma RemappedOrder(ids: seq<nat>, ordMap: seq<nat>, ords: seq<nat>, texts: seq<Term>, values: seq<Term>)
    requires OrdMap(ordMap, texts, values) && Remapped(ids, ordMap, ords)
    ensures Ascending(ords) <==> AddedInOrder(ids, texts)
  {
    forall i, j | 0 <= i < j < |ids| ensures ords[i] < ords[j] <==> Less(Text(texts, ids[i]), Text(texts, ids[j])) {
      OrdsOrder(ordMap, texts, values, ids[i], ids[j]);
    }
  }

  lemma Moved(s: seq<nat>, counts: seq<nat>, texts: seq<Term>, values: seq<Term>, docs: seq<set<Term>>, d: nat,
              ordMap: seq<nat>, ords: seq<nat>)
    requires Laid(s, counts, texts, docs) && d < |docs| && OrdMap(ordMap, texts, values) && NoDuplicates(texts)
    requires DocAt(s, counts, texts, docs, d)
      && Remapped(s[Start(counts, d)..Start(counts, d) + counts[d]], ordMap, ords)
    ensures MovedTo(s, counts, texts, values, docs, d, ords)
  {
    hide OrdMap, NoDuplicates, Laid, Names, Ascending, AddedInOrder;
    var ids := s[Start(counts, d)..Start(counts, d) + counts[d]];
    RemappedNames(ids, ordMap, ords, texts, values);
    RemappedDistinct(ids, ordMap, ords, texts, values);
    RemappedOrder(ids, ordMap, ords, texts, values);
  }

  /** `sort_doc_values`. */
  method MoveDocs(s: seq<nat>, counts: seq<nat>, ordMap: seq<nat>, oldToNew: seq<nat>, ghost texts: seq<Term>,
                  ghost values: seq<Term>, ghost docs: seq<set<Term>>) returns (res: seq<seq<nat>>)
    requires Laid(s, counts, texts, docs) && OrdMap(ordMap, texts, values) && NoDuplicates(texts)
      && IsPermutation(oldToNew, |docs|)
    ensures |res| == |docs| && forall d: nat :: d < |docs| ==>
      MovedTo(s, counts, texts, values, docs, d, res[oldToNew[d]])
  {
    hide Laid, NoDuplicates, OrdMap, MovedTo, Ascending, Names;
    res := seq(|counts|, _ => []);
    LaidSize(s, counts, texts, docs);
    OrdMapSize(ordMap, texts, values);
    var at := 0;
    for d := 0 to |counts|
      invariant at == Start(counts, d) && |res| == |docs|
      invariant forall e: nat :: d <= e < |docs| ==> res[oldToNew[e]] == []
      invariant forall e: nat :: e < d ==> MovedTo(s, counts, texts, values, docs, e, res[oldToNew[e]])
    {
      LaidAt(s, counts, texts, docs, d);
      if counts[d] > 0 {
        var ords := Remap(s[at..at + counts[d]], ordMap);
        res := res[oldToNew[d] := ords];
      }
      Moved(s, counts, texts, values, docs, d, ordMap, res[oldToNew[d]]);
      at := at + counts[d];
    }
  }

  /** A document that is given "b" and then "a" in a sorted index: its ordinals descend. */
  method SortedFlushDescends(murmur: Term -> nat) returns (values: seq<Term>, res: seq<seq<nat>>)
    ensures |res| == 1 && Names(res[0], values) == {[97], [98]} && !Ascending(res[0])
  {
    hide Laid, Names, Used, Fits, MovedTo, Ascending, Less, Increasing, BytesRefHash.Valid;
    var writer := new SortedSetWriter(murmur);
    var r := writer.AddValue(0, [98]);
    r := writer.AddValue(0, [97]);
    writer.Finish(1);
    values, res := writer.FlushSorted([0]);
    assert res[[0][0]] == res[0];
    ghost var texts, docs := writer.hash.texts, writer.docs;
    assert texts == [[98], [97]];
    Descends(writer.pending, writer.pendingCounts, texts, values, docs, res[0]);
  }

  lemma Descends(s: seq<nat>, counts: seq<nat>, texts: seq<Term>, values: seq<Term>, docs: seq<set<Term>>,
                 ords: seq<nat>)
    requires MovedTo(s, counts, texts, values, docs, 0, ords) && texts == [[98], [97]] && docs[0] == {[97], [98]}
    ensures Names(ords, values) == {[97], [98]} && !Ascending(ords)
  {
    var ids := s[Start(counts, 0)..Start(counts, 0) + counts[0]];
    var b: Term, a: Term := [98], [97];
    assert b in Names(ids, texts) && a in Names(ids, texts);
    var i :| 0 <= i < |ids| && Text(texts, ids[i]) == b;
    var j :| 0 <= j < |ids| && Text(texts, ids[j]) == a;
    assert ids[i] == 0 && ids[j] == 1;
    assert i < j;
    assert !Less(b, a);
  }

  /** The ids of a sorted table as a list. */
  method InOrder(ids: array<int>, n: nat, ghost texts: seq<Term>) returns (order: seq<nat>)
    requires n == |texts| <= ids.Length && SortedIds(ids[..n], texts)
    ensures |order| == n && IsPermutation(order, n) && forall i :: 0 <= i < n ==> order[i] == ids[..n][i]
  {
    assert forall i :: 0 <= i < n ==> ids[..n][i] == ids[i];
    order := [];
    for i := 0 to n
      invariant |order| == i && forall k :: 0 <= k < i ==> order[k] == ids[k]
    {
      order := order + [ids[i]];
    }
    forall i, j | 0 <= i < j < n ensures order[i] != order[j] {
      assert Less(Text(texts, ids[..n][i]), Text(texts, ids[..n][j]));
      LessIrreflexive(Text(texts, order[i]));
    }
  }

  lemma SortedOrdMap(s: seq<int>, order: seq<nat>, ordMap: seq<nat>, texts: seq<Term>, values: seq<Term>)
    requires SortedIds(s, texts) && |order| == |s| && forall i :: 0 <= i < |s| ==> order[i] == s[i]
    requires |values| == |s| && forall i :: 0 <= i < |s| ==> values[i] == Text(texts, order[i])
    requires |ordMap| == |s| && BelowAll(ordMap, |s|) && forall x :: 0 <= x < |s| ==> order[ordMap[x]] == x
    ensures OrdMap(ordMap, texts, values) && forall t :: t in values <==> t in texts
  {
    forall x | 0 <= x < |texts| ensures values[ordMap[x]] == texts[x] {
      assert order[ordMap[x]] == x;
    }
    forall t | t in texts ensures t in values {
      var x :| 0 <= x < |texts| && texts[x] == t;
      assert values[ordMap[x]] == t;
    }
  }

  lemma MoreBelow(s: seq<nat>, n: nat, m: nat)
    requires BelowAll(s, n) && n <= m
    ensures BelowAll(s, m)
  {
  }

  lemma OneMoreBelow(s: seq<nat>, x: nat, n: nat)
    requires BelowAll(s, n) && x < n
    ensures BelowAll(s + [x], n)
  {
  }

  lemma IdBelow(id: int, n: nat)
    requires id >= 0 && (id in Below(n) || id == n - 1)
    ensures id < n
  {
  }

  lemma StillBelow(a: seq<nat>, b: seq<nat>, n: nat)
    requires BelowAll(a, n) && forall x :: x in a <==> x in b
    ensures BelowAll(b, n)
  {
    forall i | 0 <= i < |b| ensures b[i] < n {
      assert b[i] in a;
    }
  }

  lemma NothingYet(texts: seq<Term>)
    ensures Names([], texts) == {} && BelowAll([], |texts|) && Ascending([])
  {
  }
}
