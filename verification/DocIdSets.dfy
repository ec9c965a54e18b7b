/** Building a set of doc ids (doc_id_set_builder.rs) and iterating over it (doc_id_set.rs). */
module DocIdSets {
  import opened BitMath
  import opened Wrappers
  import opened Sequences
  import opened FixedBitSet
  import opened LsbRadixSorter

  // ----- iterators -----

  /** `r` is the least member of `s` from `target` on, or the end mark if there is none. */
  ghost predicate Lands(s: set<int>, target: int, r: int) {
    IsNext(s, target, r) || (r == NO_MORE_DOCS && forall x :: x in s ==> x < target)
  }

  /** `docs` lists the members of `s` in order, and the end mark follows them. */
  ghost predicate Listed(docs: seq<nat>, length: nat, s: set<int>) {
    && length < |docs| && docs[length] == NO_MORE_DOCS && (forall i, j :: 0 <= i < j < length ==> docs[i] < docs[j])
    && (forall x :: x in s <==> x in docs[..length])
  }

  class IntArrayDocIterator {
    const docs: seq<nat>
    const length: nat
    var i: int
    var doc: int

    ghost predicate Valid(s: set<int>)
      reads this
    {
      && Listed(docs, length, s) && -1 <= i <= length && (i == -1 ==> doc == -1) && (i >= 0 ==> doc == docs[i])
      && (i < length ==> doc < NO_MORE_DOCS)
    }

    constructor (docs: seq<nat>, length: nat, ghost s: set<int>)
      requires Listed(docs, length, s)
      ensures Valid(s) && doc == -1
    {
      this.docs, this.length := docs, length;
      i, doc := -1, -1;
    }

    /** The next member; the end mark after the last one. */
    method Next(ghost s: set<int>) returns (r: int)
      requires Valid(s) && doc != NO_MORE_DOCS && forall x :: x in s ==> x < NO_MORE_DOCS
      modifies this
      ensures Valid(s) && doc == r && Lands(s, old(doc) + 1, r)
    {
      i := i + 1;
      doc := docs[i];
      LandsAt(docs, length, s, i, old(doc) + 1);
      r := doc;
    }

    /** The first member from `target` on, found by binary search. */
    method Advance(target: int, ghost s: set<int>) returns (r: int)
      requires Valid(s) && doc != NO_MORE_DOCS && target > doc && forall x :: x in s ==> x < NO_MORE_DOCS
      modifies this
      ensures Valid(s) && doc == r && Lands(s, target, r)
    {
      i := Search(docs, i + 1, length, target);
      doc := docs[i];
      LandsAt(docs, length, s, i, target);
      r := doc;
    }
  }

  lemma LandsAt(docs: seq<nat>, length: nat, s: set<int>, i: nat, target: int)
    requires Listed(docs, length, s) && i <= length && (forall k :: 0 <= k < i ==> docs[k] < target)
    requires i < length ==> docs[i] >= target
    ensures Lands(s, target, docs[i])
  {
    forall x | x in s ensures exists k :: 0 <= k < length && docs[k] == x {
      assert x in docs[..length];
    }
    if i < length {
      assert docs[i] in docs[..length];
    }
  }

  /** The standard binary search: where `target` is, or would have to be. */
  method Search(docs: seq<nat>, from: nat, to: nat, target: int) returns (r: nat)
    requires from <= to <= |docs| && forall i, j :: 0 <= i < j < to ==> docs[i] < docs[j]
    ensures from <= r <= to && (forall k :: from <= k < r ==> docs[k] < target)
      && (forall k :: r <= k < to ==> docs[k] >= target)
  {
    var low, high := from, to;
    while low < high
      invariant from <= low <= high <= to
      invariant (forall k :: from <= k < low ==> docs[k] < target) && (forall k :: high <= k < to ==> docs[k] >= target)
    {
      var mid := (low + high) / 2;
      if docs[mid] < target {
        low := mid + 1;
      } else {
        high := mid;
      }
    }
    r := low;
  }

  class BitSetDocIterator {
    const bits: FixedBitSet
    var doc: int

    constructor (bits: FixedBitSet)
      ensures this.bits == bits && doc == -1
    {
      this.bits, doc := bits, -1;
    }

    method Next() returns (r: int)
      requires bits.Valid() && -1 <= doc < NO_MORE_DOCS
      modifies this
      ensures doc == r && Lands(Members(bits.bits), old(doc) + 1, r)
    {
      r := Advance(doc + 1);
    }

    method Advance(target: nat) returns (r: int)
      requires bits.Valid()
      modifies this
      ensures doc == r && Lands(Members(bits.bits), target, r)
    {
      if target >= bits.numBits {
        doc := NO_MORE_DOCS;
      } else {
        doc := bits.NextSetBit(target);
      }
      r := doc;
    }
  }

  /** `docs` lists the members of `s` in order, each a number of 16 bits. */
  ghost predicate Shorts(docs: seq<nat>, length: nat, s: set<int>) {
    && length <= |docs| && (forall i, j :: 0 <= i < j < length ==> docs[i] < docs[j])
    && (forall i :: 0 <= i < length ==> docs[i] < SHORTS) && (forall x :: x in s <==> x in docs[..length])
  }

  const SHORTS := 0x1_0000

  class ShortArrayDocIterator {
    const docs: seq<nat>
    const length: nat
    var i: int
    var doc: int

    /** The members up to `returned` have been passed, and no others. */
    ghost predicate At(s: set<int>, returned: int)
      reads this
    {
      && Shorts(docs, length, s) && i >= -1 && returned >= -1
      && (forall k :: 0 <= k < length ==> (k <= i <==> docs[k] <= returned))
    }

    constructor (docs: seq<nat>, length: nat, ghost s: set<int>)
      requires Shorts(docs, length, s)
      ensures At(s, -1) && doc == -1 && this.docs == docs && this.length == length
    {
      this.docs, this.length := docs, length;
      i, doc := -1, -1;
    }

    /** The next member, or the end mark. The current document is left alone at the end. */
    method Next(ghost s: set<int>, ghost returned: int) returns (r: int)
      requires At(s, returned)
      modifies this
      ensures At(s, r) && Lands(s, returned + 1, r)
      ensures doc == if r == NO_MORE_DOCS then old(doc) else r
    {
      i := i + 1;
      ShortLands(docs, length, s, i, returned + 1);
      if i >= length {
        r := NO_MORE_DOCS;
      } else {
        doc := docs[i];
        r := doc;
      }
    }

    /** The first member from `target` on. The target is cut to 16 bits before the search, so beyond
        them the answer is right exactly if no member is left from the cut target on. */
    method Advance(target: nat, ghost s: set<int>, ghost returned: int) returns (r: int)
      requires At(s, returned) && target > returned
      modifies this
      ensures At(s, r) && doc == r && (r == NO_MORE_DOCS || r in s)
      ensures Lands(s, target, r) <==>
        target < SHORTS || forall x :: x in s && x > returned ==> x < target % SHORTS
    {
      ghost var from := i + 1;
      if i + 1 >= length {
        doc := NO_MORE_DOCS;
        ShortLands(docs, length, s, length, target);
      } else {
        var cut := target % SHORTS;
        i := Search(docs, i + 1, length, cut);
        if i < length {
          doc := docs[i];
        } else {
          doc := NO_MORE_DOCS;
        }
        ShortFound(docs, length, s, from, i, cut, target, returned);
      }
      r := doc;
      assert Shorts(docs, length, s);
    }
  }

  lemma ShortLands(docs: seq<nat>, length: nat, s: set<int>, i: nat, target: int)
    requires Shorts(docs, length, s) && (forall k :: 0 <= k < i && k < length ==> docs[k] < target)
    requires i < length ==> docs[i] >= target
    ensures Lands(s, target, if i < length then docs[i] else NO_MORE_DOCS)
  {
    forall x | x in s ensures exists k :: 0 <= k < length && docs[k] == x {
      assert x in docs[..length];
    }
    if i < length {
      assert docs[i] in docs[..length];
    }
  }

  lemma ShortFound(docs: seq<nat>, length: nat, s: set<int>, from: nat, i: nat, cut: nat, target: nat, returned: int)
    requires Shorts(docs, length, s) && from < length && from <= i <= length && returned < target
    requires cut == target % SHORTS
    requires forall k :: 0 <= k < length ==> (k < from <==> docs[k] <= returned)
    requires (forall k :: from <= k < i ==> docs[k] < cut) && (forall k :: i <= k < length ==> docs[k] >= cut)
    ensures i < length ==> docs[i] in s
    ensures Lands(s, target, if i < length then docs[i] else NO_MORE_DOCS) <==>
      target < SHORTS || forall x :: x in s && x > returned ==> x < cut
  {
    if i < length {
      assert docs[i] in docs[..length];
    }
    if target < SHORTS || i == length {
      ShortLands(docs, length, s, i, target);
    } else {
      assert docs[i] < target && docs[i] in docs[..length];
    }
    if i == length {
      forall x | x in s && x > returned ensures x < cut {
        var k :| 0 <= k < length && docs[k] == x;
      }
    }
  }

  /** A target beyond 16 bits is cut: from document 65541 on the set of 5 gives 5. */
  method CutTarget() returns (r: int)
    ensures r == 5
  {
    var docs: seq<nat> := [5];
    assert docs[..1] == [5];
    var it := new ShortArrayDocIterator(docs, 1, {5});
    r := it.Advance(SHORTS + 5, {5}, -1);
  }

  /** `next` is the first member of `s` from `from` on, or the end mark. */
  ghost predicate Skips(s: set<int>, from: int, next: int) {
    (next == NO_MORE_DOCS || next in s) && forall x :: x in s && x >= from ==> next <= x
  }

  ghost predicate DocSet(s: set<int>) {
    forall x :: x in s ==> 0 <= x < NO_MORE_DOCS
  }

  lemma LandsSkips(s: set<int>, from: int, next: int)
    requires Lands(s, from, next) && DocSet(s) && from <= NO_MORE_DOCS
    ensures Skips(s, from, next) && from <= next
  {
  }

  /** The documents below `maxDoc` that are not in the set. */
  ghost function Rest(s: set<int>, maxDoc: nat): set<int> {
    Range(0, maxDoc) - s
  }

  lemma LandsInRest(s: set<int>, maxDoc: nat, target: int, doc: int)
    requires 0 <= target <= doc < maxDoc && doc !in s && forall x :: target <= x < doc ==> x !in Rest(s, maxDoc)
    ensures Lands(Rest(s, maxDoc), target, doc)
  {
    assert doc in Rest(s, maxDoc);
  }

  lemma NotInRest(s: set<int>, maxDoc: nat, doc: int)
    requires doc in s
    ensures doc !in Rest(s, maxDoc)
  {
  }

  lemma RestPassed(s: set<int>, maxDoc: nat, target: int, doc: int)
    requires target <= doc && doc >= maxDoc && forall x :: target <= x < doc ==> x !in Rest(s, maxDoc)
    ensures Lands(Rest(s, maxDoc), target, NO_MORE_DOCS)
  {
  }

  lemma ShortsBelow(docs: seq<nat>, length: nat, s: set<int>)
    requires Shorts(docs, length, s)
    ensures DocSet(s) && forall x :: x in s ==> x < SHORTS
  {
    forall x | x in s ensures 0 <= x < SHORTS {
      assert x in docs[..length];
    }
  }

  /** Iterates over the documents that are not in a set of short numbers. */
  class NotDocIterator {
    const maxDoc: nat
    const inner: ShortArrayDocIterator
    var doc: int
    var nextSkippedDoc: int

    ghost predicate Valid(s: set<int>)
      reads this, inner
    {
      && inner.At(s, nextSkippedDoc) && doc >= -1 && maxDoc <= NO_MORE_DOCS
      && (nextSkippedDoc > doc ==> Skips(s, doc + 1, nextSkippedDoc))
    }

    constructor (inner: ShortArrayDocIterator, maxDoc: nat, ghost s: set<int>)
      requires inner.At(s, -1) && maxDoc <= NO_MORE_DOCS
      ensures Valid(s) && doc == -1 && this.inner == inner && this.maxDoc == maxDoc
    {
      this.inner, this.maxDoc, doc, nextSkippedDoc := inner, maxDoc, -1, -1;
    }

    method Next(ghost s: set<int>) returns (r: int)
      requires Valid(s) && doc < NO_MORE_DOCS
      modifies this, inner
      ensures Valid(s) && doc == r && Lands(Rest(s, maxDoc), old(doc) + 1, r)
    {
      r := Advance(doc + 1, s);
    }

    /** Runs along the documents to be skipped until one is left out. Beyond 16 bits the inner
        iterator may go astray, and then its answer is not looked at. */
    method Advance(target: int, ghost s: set<int>) returns (r: int)
      requires Valid(s) && doc < target <= NO_MORE_DOCS
      modifies this, inner
      ensures Valid(s) && doc == r && Lands(Rest(s, maxDoc), target, r)
    {
      hide Rest, Lands, Shorts;
      ShortsBelow(inner.docs, inner.length, s);
      doc := target;
      if doc > nextSkippedDoc {
        nextSkippedDoc := inner.Advance(doc, s, nextSkippedDoc);
        if doc < SHORTS {
          LandsSkips(s, doc, nextSkippedDoc);
        }
      }
      while true
        invariant inner.At(s, nextSkippedDoc) && 0 <= target <= doc <= NO_MORE_DOCS
        invariant doc < SHORTS ==> doc <= nextSkippedDoc
        invariant nextSkippedDoc >= doc ==> Skips(s, doc, nextSkippedDoc)
        invariant forall x :: target <= x < doc ==> x !in Rest(s, maxDoc)
        decreases NO_MORE_DOCS - doc
      {
        if doc >= maxDoc {
          RestPassed(s, maxDoc, target, doc);
          doc := NO_MORE_DOCS;
          return doc;
        }
        if doc != nextSkippedDoc {
          LandsInRest(s, maxDoc, target, doc);
          return doc;
        }
        NotInRest(s, maxDoc, doc);
        doc := doc + 1;
        nextSkippedDoc := inner.Next(s, nextSkippedDoc);
        LandsSkips(s, doc, nextSkippedDoc);
      }
    }
  }

  /** What an iterator returned, call by call, up to the end mark. */
  ghost predicate Run(s: set<int>, out: seq<int>) {
    && |out| > 0 && out[|out| - 1] == NO_MORE_DOCS && (forall i :: 0 <= i < |out| - 1 ==> out[i] != NO_MORE_DOCS)
    && (forall i: nat :: i < |out| ==> Returned(s, out, i))
  }

  ghost predicate Returned(s: set<int>, out: seq<int>, i: nat) {
    i < |out| && Lands(s, After(out, i), out[i])
  }

  ghost function After(out: seq<int>, i: nat): int
    requires i <= |out|
  {
    if i == 0 then 0 else out[i - 1] + 1
  }

  lemma {:induction false} RunPassed(s: set<int>, out: seq<int>, n: nat, x: int)
    requires Run(s, out) && n < |out| && x in s && 0 <= x < After(out, n)
    ensures x in out[..n]
  {
    if x < After(out, n - 1) {
      RunPassed(s, out, n - 1, x);
      assert out[..n - 1] <= out[..n];
    } else {
      assert Returned(s, out, n - 1);
    }
  }

  /** `out` is the members of `s`, each once and in rising order, with the end mark behind them. */
  ghost predicate Lists(out: seq<int>, s: set<int>) {
    && |out| > 0 && out[|out| - 1] == NO_MORE_DOCS && (forall i, j :: 0 <= i < j < |out| ==> out[i] < out[j])
    && (forall x :: x in s <==> x in out[..|out| - 1])
  }

  /** A whole run returns every member once, in increasing order. */
  lemma RunEnumerates(s: set<int>, out: seq<int>)
    requires Run(s, out) && DocSet(s)
    ensures Lists(out, s)
  {
    var n := |out| - 1;
    forall i, j | 0 <= i < j < |out| ensures out[i] < out[j] {
      RunAscends(s, out, i, j);
    }
    forall x ensures x in s <==> x in out[..n] {
      if x in s {
        assert Returned(s, out, n);
        RunPassed(s, out, n, x);
      }
      if x in out[..n] {
        var i :| 0 <= i < n && out[i] == x;
        assert Returned(s, out, i);
      }
    }
  }

  lemma {:induction false} RunAscends(s: set<int>, out: seq<int>, i: nat, j: nat)
    requires Run(s, out) && i < j < |out| && DocSet(s)
    ensures out[i] < out[j]
    decreases j
  {
    assert Returned(s, out, j) && Returned(s, out, j - 1);
    if i < j - 1 {
      RunAscends(s, out, i, j - 1);
    }
  }

  /** One more call of the iterator. */
  lemma RunStep(s: set<int>, out: seq<int>, r: int)
    requires (forall i: nat :: i < |out| ==> Returned(s, out, i)) && Lands(s, After(out, |out|), r)
    ensures forall i: nat :: i <= |out| ==> Returned(s, out + [r], i)
  {
    var all := out + [r];
    forall i: nat | i <= |out| ensures Returned(s, all, i) {
      assert i < |out| ==> Returned(s, out, i) && all[i] == out[i];
      assert After(all, i) == After(out, i);
    }
  }

  /** Calls `next` up to the end mark. */
  method DrainArray(it: IntArrayDocIterator, ghost s: set<int>) returns (out: seq<int>)
    requires it.Valid(s) && it.doc == -1 && DocSet(s)
    modifies it
    ensures Run(s, out)
  {
    hide Lands, Listed, Returned;
    out := [];
    while it.doc != NO_MORE_DOCS
      invariant it.Valid(s) && it.doc == After(out, |out|) - 1 && -1 <= it.doc <= NO_MORE_DOCS
      invariant forall i :: 0 <= i < |out| - 1 ==> out[i] != NO_MORE_DOCS
      invariant forall i: nat :: i < |out| ==> Returned(s, out, i)
      decreases NO_MORE_DOCS - it.doc
    {
      var r := it.Next(s);
      LandsSkips(s, After(out, |out|), r);
      RunStep(s, out, r);
      out := out + [r];
    }
  }

  method DrainBits(it: BitSetDocIterator) returns (out: seq<int>)
    requires it.bits.Valid() && it.doc == -1 && DocSet(Members(it.bits.bits))
    modifies it
    ensures Run(Members(it.bits.bits), out)
  {
    hide Lands, Members, Returned;
    out := [];
    ghost var s := Members(it.bits.bits);
    while it.doc != NO_MORE_DOCS
      invariant it.doc == After(out, |out|) - 1 && -1 <= it.doc <= NO_MORE_DOCS
      invariant forall i :: 0 <= i < |out| - 1 ==> out[i] != NO_MORE_DOCS
      invariant forall i: nat :: i < |out| ==> Returned(s, out, i)
      decreases NO_MORE_DOCS - it.doc
    {
      var r := it.Next();
      LandsSkips(s, After(out, |out|), r);
      RunStep(s, out, r);
      out := out + [r];
    }
  }

  lemma RestDocs(s: set<int>, maxDoc: nat)
    requires maxDoc <= NO_MORE_DOCS
    ensures DocSet(Rest(s, maxDoc))
  {
  }

  method DrainNot(it: NotDocIterator, ghost s: set<int>) returns (out: seq<int>)
    requires it.Valid(s) && it.doc == -1
    modifies it, it.inner
    ensures Run(Rest(s, it.maxDoc), out) && Lists(out, Rest(s, it.maxDoc))
  {
    hide Lands, Returned, Run, Rest, Lists;
    out := [];
    RestDocs(s, it.maxDoc);
    ghost var rest := Rest(s, it.maxDoc);
    while it.doc != NO_MORE_DOCS
      invariant it.Valid(s) && it.doc == After(out, |out|) - 1 && -1 <= it.doc <= NO_MORE_DOCS
      invariant forall i :: 0 <= i < |out| - 1 ==> out[i] != NO_MORE_DOCS
      invariant forall i: nat :: i < |out| ==> Returned(rest, out, i)
      decreases NO_MORE_DOCS - it.doc
    {
      var r := it.Next(s);
      LandsSkips(rest, After(out, |out|), r);
      RunStep(rest, out, r);
      out := out + [r];
    }
    WholeRun(rest, out);
    RunEnumerates(rest, out);
  }

  lemma WholeRun(s: set<int>, out: seq<int>)
    requires |out| > 0 && out[|out| - 1] == NO_MORE_DOCS && (forall i :: 0 <= i < |out| - 1 ==> out[i] != NO_MORE_DOCS)
    requires forall i: nat :: i < |out| ==> Returned(s, out, i)
    ensures Run(s, out)
  {
  }

  // ----- buffers -----

  datatype Buffer = Buffer(data: seq<nat>, length: nat)

  /** All documents in the buffers. */
  ghost function Stored(buffers: seq<Buffer>): multiset<nat>
    requires Sound(buffers)
  {
    if buffers == [] then multiset{}
    else
      var last := buffers[|buffers| - 1];
      Stored(buffers[..|buffers| - 1]) + multiset(last.data[..last.length])
  }

  ghost predicate Sound(buffers: seq<Buffer>) {
    forall i :: 0 <= i < |buffers| ==> buffers[i].length <= |buffers[i].data|
  }

  lemma StoredPush(buffers: seq<Buffer>, b: Buffer)
    requires Sound(buffers) && b.length <= |b.data|
    ensures Sound(buffers + [b]) && Stored(buffers + [b]) == Stored(buffers) + multiset(b.data[..b.length])
  {
    assert (buffers + [b])[..|buffers|] == buffers;
  }

  /** A buffer that is emptied takes its documents away, and no others. */
  lemma {:induction false} StoredWithout(buffers: seq<Buffer>, k: nat, empty: Buffer)
    requires Sound(buffers) && k < |buffers| && empty.length == 0
    ensures Sound(buffers[k := empty])
    ensures Stored(buffers) == Stored(buffers[k := empty]) + multiset(buffers[k].data[..buffers[k].length])
  {
    var n := |buffers| - 1;
    var without := buffers[k := empty];
    if k == n {
      assert without[..n] == buffers[..n];
    } else {
      StoredWithout(buffers[..n], k, empty);
      assert without[..n] == buffers[..n][k := empty];
      assert without[n] == buffers[n];
    }
  }

  lemma {:induction false} StoredPrefix(buffers: seq<Buffer>, i: nat)
    requires Sound(buffers) && i <= |buffers|
    ensures Sound(buffers[..i]) && Stored(buffers[..i]) <= Stored(buffers)
    decreases |buffers|
  {
    if i == |buffers| {
      assert buffers[..i] == buffers;
    } else {
      var n := |buffers| - 1;
      StoredPrefix(buffers[..n], i);
      assert buffers[..n][..i] == buffers[..i];
    }
  }

  /** Copies the documents of a buffer behind the first `at` elements. */
  method CopyInto(data: seq<nat>, at: nat, b: Buffer) returns (r: seq<nat>)
    requires b.length <= |b.data| && at + b.length <= |data|
    ensures |r| == |data| && multiset(r[..at + b.length]) == multiset(data[..at]) + multiset(b.data[..b.length])
  {
    r := data[..at] + b.data[..b.length] + data[at + b.length..];
    assert r[..at + b.length] == data[..at] + b.data[..b.length];
  }

  lemma PrefixSound(buffers: seq<Buffer>, i: nat)
    requires Sound(buffers) && i < |buffers|
    ensures Sound(buffers[..i]) && Sound(buffers[..i + 1]) && buffers[i].length <= |buffers[i].data|
    ensures buffers[..i + 1] == buffers[..i] + [buffers[i]]
  {
  }

  lemma NextStored(buffers: seq<Buffer>, i: nat)
    requires Sound(buffers) && i < |buffers|
    ensures Sound(buffers[..i]) && Sound(buffers[..i + 1]) && buffers[i].length <= |buffers[i].data|
    ensures Stored(buffers[..i + 1]) == Stored(buffers[..i]) + multiset(buffers[i].data[..buffers[i].length])
    ensures |Stored(buffers[..i])| + buffers[i].length <= |Stored(buffers)|
  {
    hide Stored, Sound;
    PrefixSound(buffers, i);
    StoredPush(buffers[..i], buffers[i]);
    StoredPrefix(buffers, i + 1);
    StillFits(Stored(buffers[..i]), buffers[i].data, buffers[i].length, Stored(buffers[..i + 1]), Stored(buffers));
  }

  lemma StillFits(front: multiset<nat>, data: seq<nat>, length: nat, next: multiset<nat>, all: multiset<nat>)
    requires length <= |data| && next == front + multiset(data[..length]) && next <= all
    ensures |front| + length <= |all|
  {
    SubMultiset(next, all);
  }

  lemma NothingStored(buffers: seq<Buffer>)
    requires buffers == []
    ensures Stored(buffers) == multiset{}
  {
  }

  /** The total length, and the first of the largest buffers. */
  method Largest(buffers: seq<Buffer>) returns (total: nat, largest: nat)
    requires Sound(buffers) && buffers != []
    ensures total == |Stored(buffers)| && largest < |buffers|
    ensures forall k :: 0 <= k < |buffers| ==> |buffers[k].data| <= |buffers[largest].data|
    ensures forall k :: 0 <= k < largest ==> |buffers[k].data| < |buffers[largest].data|
  {
    hide Stored;
    total, largest := 0, 0;
    var size := 0;
    NothingStored(buffers[..0]);
    for i := 0 to |buffers|
      invariant total == |Stored(buffers[..i])| && largest < |buffers| && (largest < i || (largest == 0 && size == 0))
      invariant i > 0 && size > 0 ==> size == |buffers[largest].data|
      invariant forall k :: 0 <= k < i ==> |buffers[k].data| <= size
      invariant forall k :: 0 <= k < largest ==> |buffers[k].data| < |buffers[largest].data|
    {
      NextStored(buffers, i);
      total := total + buffers[i].length;
      if |buffers[i].data| > size {
        size := |buffers[i].data|;
        largest := i;
      }
    }
    assert buffers[..|buffers|] == buffers;
  }

  /** Copies the documents of all buffers behind the first `at` elements. */
  method Gather(start: seq<nat>, at: nat, buffers: seq<Buffer>) returns (data: seq<nat>, length: nat)
    requires Sound(buffers) && at + |Stored(buffers)| < |start|
    ensures length == at + |Stored(buffers)| < |data| == |start|
      && multiset(data[..length]) == multiset(start[..at]) + Stored(buffers)
  {
    hide Stored;
    data, length := start, at;
    NothingStored(buffers[..0]);
    for i := 0 to |buffers|
      invariant |data| == |start| && length == at + |Stored(buffers[..i])| < |data|
      invariant multiset(data[..length]) == multiset(start[..at]) + Stored(buffers[..i])
    {
      NextStored(buffers, i);
      if buffers[i].length > 0 {
        data := CopyInto(data, length, buffers[i]);
        length := length + buffers[i].length;
      }
    }
    assert buffers[..|buffers|] == buffers;
  }

  /** `concat`: all documents in one array, with at least one empty slot behind them. */
  method Concat(buffers: seq<Buffer>) returns (data: seq<nat>, length: nat)
    requires Sound(buffers)
    ensures length < |data| && multiset(data[..length]) == Stored(buffers)
    ensures |data| == length + 1 || exists k :: 0 <= k < |buffers| && |buffers[k].data| == |data|
    ensures forall k :: 0 <= k < |buffers| ==> |buffers[k].data| <= |data|
  {
    hide Stored;
    if buffers == [] {
      NothingStored(buffers);
      return [0], 0;
    }
    var total, largest := Largest(buffers);
    var big := buffers[largest];
    StoredWithout(buffers, largest, Buffer([], 0));
    data := big.data;
    if |data| < total + 1 {
      data := data + seq(total + 1 - |data|, _ => 0);
    }
    assert data[..big.length] == big.data[..big.length];
    data, length := Gather(data, big.length, buffers[largest := Buffer([], 0)]);
  }

  lemma SubMultiset(a: multiset<nat>, b: multiset<nat>)
    requires a <= b
    ensures |a| <= |b|
  {
    assert b == a + (b - a);
  }

  /** `dedup` of a sorted array. */
  method Dedup(a: array<nat>, length: nat) returns (l: nat)
    requires length <= a.Length && forall i, j :: 0 <= i < j < length ==> a[i] <= a[j]
    modifies a
    ensures l <= length && (forall i, j :: 0 <= i < j < l ==> a[i] < a[j])
    ensures forall x :: x in a[..l] <==> x in old(a[..length])
    ensures forall k :: length <= k < a.Length ==> a[k] == old(a[k])
  {
    ghost var s := a[..length];
    if length == 0 {
      return 0;
    }
    l := 1;
    var previous := a[0];
    assert a[..1] == s[..1];
    for i := 1 to length
      invariant 1 <= l <= i && previous == a[l - 1] == s[i - 1] && (forall k :: i <= k < a.Length ==> a[k] == old(a[k]))
      invariant forall p, q :: 0 <= p < q < l ==> a[p] < a[q]
      invariant forall x :: x in a[..l] <==> x in s[..i]
    {
      var value := a[i];
      assert s[..i + 1] == s[..i] + [value];
      if value != previous {
        ghost var front := a[..l];
        a[l] := value;
        assert a[..l + 1] == front + [value];
        l := l + 1;
        previous := value;
      } else {
        assert value in a[..l];
      }
    }
    assert s[..length] == s;
  }

  /** `no_dups`: its assertions hold exactly if no two neighbours are equal. */
  method NoDups(a: array<nat>, length: nat) returns (r: bool)
    requires length <= a.Length && forall i, j :: 0 <= i < j < length ==> a[i] <= a[j]
    ensures r <==> forall i, j :: 0 <= i < j < length ==> a[i] < a[j]
  {
    var i := 1;
    while i < length
      invariant forall p, q :: 0 <= p < q < i && q < length ==> a[p] < a[q]
    {
      if a[i - 1] >= a[i] {
        return false;
      }
      i := i + 1;
    }
    return true;
  }

  // ----- the builder -----

  datatype BulkAdder = ToBuffers | ToBits

  datatype DocIdSet = BitDocId(bits: FixedBitSet) | IntArray(docs: seq<nat>, length: nat)

  ghost function Docs(added: multiset<nat>): set<int> {
    set d | d in added
  }

  /** The set has exactly the given members, in the form that its iterator expects. */
  ghost predicate Represents(r: DocIdSet, s: set<int>)
    reads if r.BitDocId? then {r.bits} else {}
  {
    match r
    case BitDocId(bits) => bits.Valid() && Members(bits.bits) == s
    case IntArray(docs, length) => Listed(docs, length, s)
  }

  /** `c` is the greatest of `numDocs + 1`, `total` and 32, but no more than the threshold leaves. */
  ghost predicate IsCapacity(c: int, total: nat, numDocs: nat, threshold: nat) {
    && total + c <= threshold && (c <= numDocs + 1 || c <= total || c <= 32)
    && (total + c == threshold || (c >= numDocs + 1 && c >= total && c >= 32))
  }

  /** What `grow` does as long as the documents are in buffers: one more buffer, except for no documents
      behind a full one. */
  ghost predicate Reserves(numDocs: nat, total: nat, free: int, total': nat, free': int, threshold: nat) {
    if numDocs == 0 && free == 0 then total' == total && free' == 0
    else IsCapacity(total' - total, total, numDocs, threshold) && free' == total' - total
  }

  ghost predicate Once(added: multiset<nat>) {
    forall d :: added[d] <= 1
  }

  class DocIdSetBuilder {
    const maxDoc: nat
    const threshold: nat
    const multivalued: bool
    var buffers: seq<Buffer>
    var totalAllocated: nat
    var bitSet: FixedBitSet?
    var counter: int
    var adder: BulkAdder
    /** The documents added so far, and how many more may be added before the next `Grow`. */
    ghost var added: multiset<nat>
    ghost var room: nat

    ghost predicate Valid()
      reads this, bitSet
    {
      && threshold == maxDoc / 128 && (forall d :: d in added ==> d < maxDoc)
      && (bitSet == null ==> InBuffers()) && (bitSet != null ==> InBits())
    }

    ghost predicate InBuffers()
      reads this
    {
      && adder == ToBuffers && totalAllocated <= threshold && Sound(buffers) && Stored(buffers) == added
      && (room > 0 ==> buffers != [] && buffers[|buffers| - 1].length + room <= |buffers[|buffers| - 1].data|)
    }

    ghost predicate InBits()
      requires bitSet != null
      reads this, bitSet
    {
      adder == ToBits && bitSet.Valid() && bitSet.numBits == maxDoc && Members(bitSet.bits) == Docs(added)
        && counter >= 0
    }

    constructor (maxDoc: nat, multivalued: bool)
      ensures Valid() && added == multiset{} && room == 0 && this.maxDoc == maxDoc && this.multivalued == multivalued
        && bitSet == null && totalAllocated == 0 && Free() == -1 && counter == -1
    {
      this.maxDoc, this.multivalued, threshold := maxDoc, multivalued, maxDoc / 128;
      buffers, totalAllocated, bitSet, counter, adder := [], 0, null, -1, ToBuffers;
      added, room := multiset{}, 0;
    }

    /** `additional_capacity`: enough for the documents that are asked for and one more, as much as all
        buffers so far, and 32; or what is left below the threshold, if that is less. */
    function AdditionalCapacity(numDocs: nat): (c: nat)
      requires totalAllocated + numDocs <= threshold
      reads this
      ensures numDocs <= c && IsCapacity(c, totalAllocated, numDocs, threshold)
    {
      var c := totalAllocated;
      var c := if numDocs + 1 > c then numDocs + 1 else c;
      var c := if 32 > c then 32 else c;
      if threshold - totalAllocated < c then threshold - totalAllocated else c
    }

    /** The free slots of the last buffer, -1 if there is no buffer. */
    ghost function Free(): int
      reads this
    {
      if buffers == [] then -1 else |buffers[|buffers| - 1].data| - buffers[|buffers| - 1].length
    }

    method AddBuffer(len: nat, ghost numDocs: nat)
      requires Valid() && bitSet == null && totalAllocated + len <= threshold && numDocs <= len
      modifies this`totalAllocated, this`buffers, this`adder, this`room
      ensures Valid() && room == numDocs && totalAllocated == old(totalAllocated) + len && Free() == len
    {
      StoredPush(buffers, Buffer(seq(len, _ => 0), 0));
      totalAllocated := totalAllocated + len;
      buffers := buffers + [Buffer(seq(len, _ => 0), 0)];
      adder := ToBuffers;
      room := numDocs;
    }

    lemma LastSound()
      requires Sound(buffers)
      ensures buffers != [] ==> buffers[|buffers| - 1].length <= |buffers[|buffers| - 1].data|
    {
    }

    /** `ensure_buffer_capacity`: a buffer with room for `numDocs`. Of the three cases for the current
        buffer the first and the last count: the one that would make it longer is never taken. */
    method EnsureBufferCapacity(numDocs: nat)
      requires Valid() && bitSet == null && totalAllocated + numDocs <= threshold
      modifies this`totalAllocated, this`buffers, this`adder, this`room
      ensures Valid() && room == numDocs
      ensures Reserves(numDocs, old(totalAllocated), old(Free()), totalAllocated, Free(), maxDoc / 128)
    {
      LastSound();
      if buffers == [] {
        AddBuffer(AdditionalCapacity(numDocs), numDocs);
        return;
      }
      var current := buffers[|buffers| - 1];
      if current.length >= numDocs + |current.data| {
        room := numDocs;
        return;
      }
      AddBuffer(AdditionalCapacity(numDocs), numDocs);
    }

    /** `upgrade2bit_set`: the documents move from the buffers to a bit set. */
    method UpgradeToBitSet()
      requires Valid() && bitSet == null && maxDoc > 0
      modifies this
      ensures Valid() && fresh(bitSet) && bitSet != null && added == old(added) && room == old(room)
      ensures counter == |added| && buffers == [] && totalAllocated == old(totalAllocated)
    {
      hide Stored, Sound, Members, Docs;
      var bits := new FixedBitSet(maxDoc);
      var count := 0;
      NoDocs();
      NothingStored(buffers[..0]);
      PrefixesSound(buffers);
      for i := 0 to |buffers|
        invariant fresh(bits) && bits.Valid() && bits.numBits == maxDoc && count >= 0 && unchanged(this)
        invariant Members(bits.bits) == Docs(Stored(buffers[..i])) && count == |Stored(buffers[..i])|
      {
        NextStored(buffers, i);
        StoredBelow(buffers, i, maxDoc);
        count := count + buffers[i].length;
        SetAll(bits, buffers[i], Stored(buffers[..i]));
      }
      assert buffers[..|buffers|] == buffers;
      bitSet := bits;
      counter := count;
      buffers := [];
      adder := ToBits;
    }

    /** Reserves room for `numDocs` documents. */
    method Grow(numDocs: nat)
      requires Valid() && (numDocs > 0 ==> maxDoc > 0)
      modifies this
      ensures Valid() && added == old(added) && room == numDocs
      ensures bitSet == old(bitSet) || (old(bitSet) == null && bitSet != null && fresh(bitSet))
      ensures bitSet == null <==> old(bitSet) == null && old(totalAllocated) + numDocs <= maxDoc / 128
      ensures bitSet != null ==> counter == (if old(bitSet) == null then |added| else old(counter)) + numDocs
      ensures bitSet == null ==>
        Reserves(numDocs, old(totalAllocated), old(Free()), totalAllocated, Free(), maxDoc / 128)
    {
      if bitSet == null {
        if totalAllocated + numDocs <= threshold {
          EnsureBufferCapacity(numDocs);
          return;
        }
        UpgradeToBitSet();
      }
      counter := counter + numDocs;
      room := numDocs;
    }

    method AddToBuffer(doc: nat)
      requires Valid() && room > 0 && doc < maxDoc && adder == ToBuffers
      modifies this`buffers, this`added, this`room
      ensures Valid() && added == old(added) + multiset{doc} && room == old(room) - 1 && Free() == old(Free()) - 1
    {
      hide Stored;
      var idx := |buffers| - 1;
      var b := buffers[idx];
      StoredMore(buffers, idx, doc);
      buffers := buffers[idx := Buffer(b.data[b.length := doc], b.length + 1)];
      added := added + multiset{doc};
      room := room - 1;
    }

    /** Adds a document; the last `Grow` has made room for it. */
    method AddDoc(doc: nat)
      requires Valid() && room > 0 && doc < maxDoc
      modifies this, bitSet
      ensures Valid() && added == old(added) + multiset{doc} && room == old(room) - 1 && bitSet == old(bitSet)
      ensures totalAllocated == old(totalAllocated) && (bitSet == null ==> Free() == old(Free()) - 1)
    {
      match adder
      case ToBuffers =>
        AddToBuffer(doc);
      case ToBits =>
        bitSet.Set(doc);
        OneMoreDoc(added, doc);
        added := added + multiset{doc};
        room := room - 1;
    }

    /** The set of all documents added. A builder that was told there are no duplicates and finds
        some while its documents are still in buffers stops at an assertion. */
    method Build() returns (r: Option<DocIdSet>)
      requires Valid()
      modifies this
      ensures r == None <==> old(bitSet) == null && !multivalued && !Once(old(added))
      ensures r.Some? ==> Represents(r.value, Docs(old(added))) && (r.value.BitDocId? <==> old(bitSet) != null)
      ensures r.Some? ==> buffers == [] && bitSet == null
    {
      hide Stored, Members, Docs, Once, Listed;
      if bitSet != null {
        r := Some(BitDocId(bitSet));
        buffers := [];
        bitSet := null;
      } else {
        var data, length := Concat(buffers);
        var numBits := if maxDoc == 0 then 32 else BitsRequired(maxDoc - 1);
        r := SortDocs(data, length, numBits, multivalued, added, maxDoc);
        buffers := [];
      }
    }
  }

  /** Sorts the documents, drops or refuses duplicates, and sets the end mark. */
  method SortDocs(data: seq<nat>, length: nat, numBits: nat, multivalued: bool, ghost added: multiset<nat>,
                  ghost maxDoc: nat)
    returns (r: Option<DocIdSet>)
    requires length < |data| && multiset(data[..length]) == added && forall d :: d in added ==> d < maxDoc
    requires maxDoc > 0 ==> maxDoc - 1 < Pow2(numBits)
    ensures r == None <==> !multivalued && !Once(added)
    ensures r.Some? ==> r.value.IntArray? && Listed(r.value.docs, r.value.length, Docs(added))
  {
    hide Docs, Once, Listed;
    var a := new nat[|data|](i requires 0 <= i < |data| => data[i]);
    assert a[..length] == data[..length];
    SmallDocs(data[..length], added, numBits, maxDoc);
    Sort(numBits, a, length);
    ghost var s := a[..length];
    assert forall i :: 0 <= i < length ==> s[i] == a[i];
    SameDocs(s, added);
    var l := length;
    if multivalued {
      l := Dedup(a, length);
    } else {
      var ok := NoDups(a, length);
      OnceSorted(s, added);
      if !ok {
        return None;
      }
    }
    ghost var docs := a[..l];
    a[l] := NO_MORE_DOCS;
    assert a[..l] == docs;
    ListsDocs(a[..], l, s, added);
    r := Some(IntArray(a[..], l));
  }

  lemma SmallDocs(s: seq<nat>, added: multiset<nat>, numBits: nat, maxDoc: nat)
    requires multiset(s) == added && (forall d :: d in added ==> d < maxDoc)
      && (maxDoc > 0 ==> maxDoc - 1 < Pow2(numBits))
    ensures forall x :: x in s ==> x < Pow2(numBits)
  {
    forall x | x in s ensures x < Pow2(numBits) {
      assert x in multiset(s);
    }
  }

  lemma SameDocs(s: seq<nat>, added: multiset<nat>)
    requires multiset(s) == added
    ensures forall x: int :: x in Docs(added) <==> x in s
  {
    forall x: int ensures x in Docs(added) <==> x in s {
      if x >= 0 {
        assert x in s <==> x in multiset(s);
      }
    }
  }

  lemma OnceSorted(s: seq<nat>, added: multiset<nat>)
    requires multiset(s) == added && forall i, j :: 0 <= i < j < |s| ==> s[i] <= s[j]
    ensures Once(added) <==> forall i, j :: 0 <= i < j < |s| ==> s[i] < s[j]
  {
    if Once(added) {
      forall i, j | 0 <= i < j < |s| ensures s[i] < s[j] {
        if s[i] == s[j] {
          RepeatCounted(s, i, j);
        }
      }
    }
    if forall i, j :: 0 <= i < j < |s| ==> s[i] < s[j] {
      AscendingOnce(s);
    }
  }

  lemma {:induction false} AscendingOnce(s: seq<nat>)
    requires forall i, j :: 0 <= i < j < |s| ==> s[i] < s[j]
    ensures Once(multiset(s))
  {
    if s != [] {
      var n := |s| - 1;
      AscendingOnce(s[..n]);
      assert s == s[..n] + [s[n]];
      forall d ensures multiset(s)[d] <= 1 {
        assert multiset(s)[d] == multiset(s[..n])[d] + multiset{s[n]}[d];
        if d == s[n] {
          assert d !in s[..n];
        }
      }
    }
  }

  lemma ListsDocs(docs: seq<nat>, l: nat, s: seq<nat>, added: multiset<nat>)
    requires l < |docs| && docs[l] == NO_MORE_DOCS && (forall i, j :: 0 <= i < j < l ==> docs[i] < docs[j])
    requires forall x :: x in docs[..l] <==> x in s
    requires forall x: int :: x in Docs(added) <==> x in s
    ensures Listed(docs, l, Docs(added))
  {
  }

  lemma NoDocs()
    ensures Docs(multiset{}) == {}
  {
  }

  lemma OneMoreDoc(added: multiset<nat>, doc: nat)
    ensures Docs(added + multiset{doc}) == Docs(added) + {doc}
  {
  }

  lemma PrefixesSound(buffers: seq<Buffer>)
    requires Sound(buffers)
    ensures forall i :: 0 <= i <= |buffers| ==> Sound(buffers[..i])
  {
  }

  lemma StoredBelow(buffers: seq<Buffer>, i: nat, n: nat)
    requires Sound(buffers) && i < |buffers| && forall d :: d in Stored(buffers) ==> d < n
    ensures buffers[i].length <= |buffers[i].data| && forall k :: 0 <= k < buffers[i].length ==> buffers[i].data[k] < n
  {
    hide Stored, Sound;
    PrefixSound(buffers, i);
    NextStored(buffers, i);
    StoredPrefix(buffers, i + 1);
    var docs := buffers[i].data[..buffers[i].length];
    forall k | 0 <= k < buffers[i].length ensures buffers[i].data[k] < n {
      assert docs[k] in multiset(docs);
      assert docs[k] in Stored(buffers);
    }
  }

  lemma StoredMore(buffers: seq<Buffer>, idx: nat, doc: nat)
    requires Sound(buffers) && idx == |buffers| - 1 && buffers[idx].length < |buffers[idx].data|
    ensures var b := buffers[idx]; var more := buffers[idx := Buffer(b.data[b.length := doc], b.length + 1)];
            Sound(more) && Stored(more) == Stored(buffers) + multiset{doc}
  {
    var b := buffers[idx];
    var c := Buffer(b.data[b.length := doc], b.length + 1);
    assert c.data[..b.length + 1] == b.data[..b.length] + [doc];
    assert buffers[idx := c][..idx] == buffers[..idx];
  }

  method SetAll(bits: FixedBitSet, b: Buffer, ghost before: multiset<nat>)
    requires bits.Valid() && b.length <= |b.data| && Members(bits.bits) == Docs(before)
    requires forall k :: 0 <= k < b.length ==> b.data[k] < bits.numBits
    modifies bits
    ensures bits.Valid() && bits.numBits == old(bits.numBits)
      && Members(bits.bits) == Docs(before + multiset(b.data[..b.length]))
  {
    for k := 0 to b.length
      invariant bits.Valid() && bits.numBits == old(bits.numBits)
        && Members(bits.bits) == Docs(before + multiset(b.data[..k]))
    {
      bits.Set(b.data[k]);
      assert b.data[..k + 1] == b.data[..k] + [b.data[k]];
    }
  }

  // ----- building and iterating -----

  /** All documents of a set, by its own iterator. */
  method Drain(set_: DocIdSet, ghost s: set<int>) returns (out: seq<int>)
    requires Represents(set_, s) && DocSet(s)
    ensures Run(s, out)
  {
    hide Run, Listed, Members;
    match set_
    case BitDocId(bits) =>
      var it := new BitSetDocIterator(bits);
      out := DrainBits(it);
    case IntArray(docs, length) =>
      var it := new IntArrayDocIterator(docs, length, s);
      out := DrainArray(it, s);
  }

  /** Building the set and iterating over it gives every document that was added once, in rising
      order, and then the end mark; unless the builder was promised there are no duplicates. */
  method BuildAndDrain(builder: DocIdSetBuilder) returns (out: Option<seq<int>>)
    requires builder.Valid() && builder.maxDoc <= NO_MORE_DOCS
    modifies builder
    ensures out == None <==> old(builder.bitSet) == null && !builder.multivalued && !Once(old(builder.added))
    ensures out.Some? ==> Lists(out.value, Docs(old(builder.added)))
  {
    hide Run, Lists, Represents, Docs, Once;
    ghost var added := builder.added;
    DocsBelow(added, builder.maxDoc);
    var built := builder.Build();
    match built
    case None =>
      out := None;
    case Some(docIds) =>
      var docs := Drain(docIds, Docs(added));
      RunEnumerates(Docs(added), docs);
      out := Some(docs);
  }

  lemma DocsBelow(added: multiset<nat>, maxDoc: nat)
    requires maxDoc <= NO_MORE_DOCS && forall d :: d in added ==> d < maxDoc
    ensures DocSet(Docs(added))
  {
  }

  /** From documents in any order, with or without repetitions, to the run of the iterator. */
  method SortedDocs(docs: seq<nat>, maxDoc: nat) returns (out: seq<int>)
    requires maxDoc <= NO_MORE_DOCS && forall i :: 0 <= i < |docs| ==> docs[i] < maxDoc
    ensures Lists(out, Docs(multiset(docs)))
  {
    hide Run, Represents, Docs, Once, Lists, DocIdSetBuilder.Valid;
    var builder := new DocIdSetBuilder(maxDoc, true);
    assert |docs| > 0 ==> docs[0] < maxDoc;
    builder.Grow(|docs|);
    for i := 0 to |docs|
      invariant builder.Valid() && builder.room == |docs| - i && builder.added == multiset(docs[..i])
      invariant fresh(builder) && (builder.bitSet != null ==> fresh(builder.bitSet))
    {
      builder.AddDoc(docs[i]);
      assert docs[..i + 1] == docs[..i] + [docs[i]];
    }
    assert docs[..|docs|] == docs;
    var listed := BuildAndDrain(builder);
    out := listed.value;
  }

  // ----- whole runs of a builder -----

  /** Where the documents of a builder are: in buffers, with the slots allocated in all and those free
      in the last buffer, or in a bit set. */
  datatype Stage = InBuffers(total: nat, free: int) | InBits

  /** The stage after one more batch of `n` documents, by the numbers alone. */
  ghost function NextStage(s: Stage, n: nat, threshold: nat): Stage {
    if s.InBits? || s.total + n > threshold then InBits
    else if n == 0 && s.free == 0 then s
    else
      var wanted := Greater(Greater(n + 1, s.total), 32);
      var c := if s.total + wanted <= threshold then wanted else threshold - s.total;
      InBuffers(s.total + c, c - n)
  }

  ghost function Greater(a: nat, b: nat): nat {
    if a < b then b else a
  }

  ghost function StageAfter(batches: seq<seq<nat>>, threshold: nat): Stage {
    if batches == [] then InBuffers(0, -1)
    else NextStage(StageAfter(batches[..|batches| - 1], threshold), |batches[|batches| - 1]|, threshold)
  }

  lemma ReservesStage(n: nat, total: nat, free: int, total': nat, free': int, threshold: nat)
    requires Reserves(n, total, free, total', free', threshold) && total + n <= threshold
    ensures NextStage(InBuffers(total, free), n, threshold) == InBuffers(total', free' - n)
  {
  }

  ghost function StageOf(builder: DocIdSetBuilder): Stage
    reads builder
  {
    if builder.bitSet == null then InBuffers(builder.totalAllocated, builder.Free()) else InBits
  }

  ghost function All(batches: seq<seq<nat>>): multiset<nat> {
    if batches == [] then multiset{}
    else All(batches[..|batches| - 1]) + multiset(batches[|batches| - 1])
  }

  /** Adds documents for which room is asked in one call. */
  method AddBatch(builder: DocIdSetBuilder, docs: seq<nat>)
    requires builder.Valid() && forall i :: 0 <= i < |docs| ==> docs[i] < builder.maxDoc
    modifies builder, builder.bitSet
    ensures builder.Valid() && builder.added == old(builder.added) + multiset(docs)
    ensures builder.bitSet == old(builder.bitSet) || fresh(builder.bitSet)
    ensures StageOf(builder) == NextStage(old(StageOf(builder)), |docs|, builder.maxDoc / 128)
  {
    hide DocIdSetBuilder.Valid, Reserves, DocIdSetBuilder.Free, NextStage;
    ghost var total, free, bits := builder.totalAllocated, builder.Free(), builder.bitSet;
    ghost var threshold := builder.maxDoc / 128;
    assert |docs| > 0 ==> docs[0] < builder.maxDoc;
    builder.Grow(|docs|);
    ghost var total', free' := builder.totalAllocated, builder.Free();
    for i := 0 to |docs|
      invariant builder.Valid() && builder.room == |docs| - i
      invariant builder.added == old(builder.added) + multiset(docs[..i])
      invariant builder.bitSet == old(builder.bitSet) || fresh(builder.bitSet)
      invariant builder.bitSet == null <==> bits == null && total + |docs| <= threshold
      invariant builder.totalAllocated == total' && (builder.bitSet == null ==> builder.Free() == free' - i)
    {
      builder.AddDoc(docs[i]);
      assert docs[..i + 1] == docs[..i] + [docs[i]];
    }
    assert docs[..|docs|] == docs;
    if builder.bitSet == null {
      ReservesStage(|docs|, total, free, total', free', threshold);
    } else {
      ToBitsStage(old(StageOf(builder)), |docs|, threshold);
    }
  }

  lemma ToBitsStage(s: Stage, n: nat, threshold: nat)
    requires s.InBits? || s.total + n > threshold
    ensures NextStage(s, n, threshold) == InBits
  {
  }

  /** A whole run of a builder, from batches of documents to the documents its set returns: they are
      those added, each once and in rising order. It fails exactly if documents repeat that were
      promised not to, and the numbers asked for have left them in buffers. */
  method BuildBatches(batches: seq<seq<nat>>, maxDoc: nat, multivalued: bool) returns (out: Option<seq<int>>)
    requires maxDoc <= NO_MORE_DOCS
    requires forall b, i :: 0 <= b < |batches| && 0 <= i < |batches[b]| ==> batches[b][i] < maxDoc
    ensures out == None <==> !multivalued && !Once(All(batches)) && StageAfter(batches, maxDoc / 128).InBuffers?
    ensures out.Some? ==> Lists(out.value, Docs(All(batches)))
  {
    hide DocIdSetBuilder.Valid, Once, Lists, Docs, NextStage, DocIdSetBuilder.Free;
    var builder := new DocIdSetBuilder(maxDoc, multivalued);
    for b := 0 to |batches|
      invariant builder.Valid() && builder.added == All(batches[..b]) && fresh(builder)
      invariant builder.bitSet != null ==> fresh(builder.bitSet)
      invariant StageOf(builder) == StageAfter(batches[..b], maxDoc / 128)
    {
      assert batches[..b + 1][..b] == batches[..b];
      AddBatch(builder, batches[b]);
    }
    assert batches[..|batches|] == batches;
    out := BuildAndDrain(builder);
  }

  /** Twice the same of 10000 documents: a builder that was promised none twice stops. */
  method TwiceTheSame() returns (out: Option<seq<int>>)
    ensures out == None
  {
    var batches: seq<seq<nat>> := [[5, 5]];
    out := BuildBatches(batches, 10000, false);
    assert batches[..0] == [];
    assert All(batches) == multiset{5, 5};
    assert All(batches)[5] == 2;
  }
}
