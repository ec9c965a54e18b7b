/** The hash of distinct byte strings to dense ids (bytes_ref_hash.rs): an open-addressing
    table of ids over strings kept in the byte pool, and its sorted flush. */
module BytesRefHash {
  import opened BitMath
  import opened Lex
  import opened Wrappers
  import opened Sequences
  import opened Sorter
  import opened RadixSorter
  import opened ByteBlockPool

  // ----- the probed table -----

  /** The slot looked at after `i` probes: the hash code plus `i`, masked to the table size. */
  function Slot(code: nat, i: nat, size: nat): (p: nat)
    requires size > 0
    ensures p < size
  {
    (code + i) % size
  }

  /** The first `j` slots probed for `code` are taken. */
  ghost predicate Chain(ids: seq<int>, code: nat, j: nat) {
    |ids| > 0 && forall i: nat :: i < j ==> ids[Slot(code, i, |ids|)] != -1
  }

  /** Probing for `code` comes to `id` after `j` taken slots. */
  ghost predicate FoundAfter(ids: seq<int>, code: nat, id: int, j: nat) {
    j < |ids| && Chain(ids, code, j) && ids[Slot(code, j, |ids|)] == id
  }

  ghost predicate Findable(ids: seq<int>, code: nat, id: int) {
    exists j: nat :: FoundAfter(ids, code, id, j)
  }

  ghost predicate Unique(ids: seq<int>) {
    forall p, q :: 0 <= p < q < |ids| && ids[p] != -1 ==> ids[p] != ids[q]
  }

  ghost predicate Holding(ids: seq<int>, members: set<nat>) {
    forall p :: 0 <= p < |ids| && ids[p] != -1 ==> ids[p] >= 0 && ids[p] in members
  }

  /** The table holds exactly `members`, each once, and each where probing finds it. */
  ghost predicate Table(ids: seq<int>, codes: seq<nat>, members: set<nat>) {
    && Holding(ids, members) && Unique(ids)
    && (forall id :: id in members ==> id < |codes| && Findable(ids, codes[id], id))
  }

  ghost function Below(n: nat): (r: set<nat>)
    ensures forall x: nat :: x in r <==> x < n
  {
    if n == 0 then {} else Below(n - 1) + {n - 1}
  }

  lemma {:induction false} BelowSize(n: nat)
    ensures |Below(n)| == n
  {
    if n > 0 {
      BelowSize(n - 1);
    }
  }

  lemma EmptyTable(ids: seq<int>, codes: seq<nat>)
    requires forall p :: 0 <= p < |ids| ==> ids[p] == -1
    ensures Table(ids, codes, {})
  {
  }

  lemma ChainKept(ids: seq<int>, at: nat, id: nat, code: nat, j: nat)
    requires at < |ids| && Chain(ids, code, j)
    ensures Chain(ids[at := id], code, j)
  {
    var u := ids[at := id];
    forall i: nat | i < j ensures u[Slot(code, i, |u|)] != -1 {
      assert ids[Slot(code, i, |ids|)] != -1;
    }
  }

  lemma FindableKept(ids: seq<int>, at: nat, id: nat, code: nat, other: nat)
    requires at < |ids| && ids[at] == -1 && Findable(ids, code, other)
    ensures Findable(ids[at := id], code, other)
  {
    var j: nat :| FoundAfter(ids, code, other, j);
    ChainKept(ids, at, id, code, j);
    assert FoundAfter(ids[at := id], code, other, j);
  }

  /** Putting an id into the first open slot of its own probe sequence keeps every id findable. */
  lemma Insert(ids: seq<int>, codes: seq<nat>, members: set<nat>, id: nat, j: nat, at: nat)
    requires Table(ids, codes, members) && id !in members && id < |codes|
    requires j < |ids| && Chain(ids, codes[id], j) && at == Slot(codes[id], j, |ids|) && ids[at] == -1
    ensures Table(ids[at := id], codes, members + {id})
  {
    var u := ids[at := id];
    forall other | other in members ensures other < |codes| && Findable(u, codes[other], other) {
      FindableKept(ids, at, id, codes[other], other);
    }
    ChainKept(ids, at, id, codes[id], j);
    assert FoundAfter(u, codes[id], id, j);
  }

  /** What the search of `find_hash` has seen: taken slots with other strings. */
  ghost predicate Passed(ids: seq<int>, texts: seq<Term>, code: nat, bytes: Term, j: nat) {
    Chain(ids, code, j) && forall i: nat :: i < j ==> Text(texts, ids[Slot(code, i, |ids|)]) != bytes
  }

  lemma Differs(ids: seq<int>, texts: seq<Term>, codes: seq<nat>, code: nat, bytes: Term, j: nat, x: nat)
    requires Table(ids, codes, Below(|texts|)) && |codes| == |texts| && x < |texts|
    requires texts[x] == bytes ==> codes[x] == code
    requires Passed(ids, texts, code, bytes, j) && j < |ids| && ids[Slot(code, j, |ids|)] == -1
    ensures texts[x] != bytes
  {
    if codes[x] == code {
      assert x in Below(|texts|);
      var k: nat :| FoundAfter(ids, code, x, k);
      if k < j {
        assert Text(texts, ids[Slot(code, k, |ids|)]) != bytes;
      }
    }
  }

  lemma PassedNone(ids: seq<int>, texts: seq<Term>, code: nat, bytes: Term)
    requires |ids| > 0
    ensures Passed(ids, texts, code, bytes, 0)
  {
  }

  lemma PassedOneMore(ids: seq<int>, texts: seq<Term>, code: nat, bytes: Term, j: nat)
    requires Passed(ids, texts, code, bytes, j) && |ids| > 0
    requires ids[Slot(code, j, |ids|)] != -1 && Text(texts, ids[Slot(code, j, |ids|)]) != bytes
    ensures Passed(ids, texts, code, bytes, j + 1)
  {
  }

  lemma PassedChain(ids: seq<int>, texts: seq<Term>, code: nat, bytes: Term, j: nat)
    requires Passed(ids, texts, code, bytes, j)
    ensures Chain(ids, code, j)
  {
  }

  lemma IdAt(ids: seq<int>, codes: seq<nat>, n: nat, p: nat)
    requires Table(ids, codes, Below(n)) && p < |ids|
    ensures ids[p] == -1 || 0 <= ids[p] < n
  {
  }

  /** An open slot at the end of a search means that the string is not there at all. */
  lemma Absent(ids: seq<int>, texts: seq<Term>, codes: seq<nat>, code: nat, bytes: Term, j: nat)
    requires Table(ids, codes, Below(|texts|)) && |codes| == |texts|
    requires forall x :: 0 <= x < |texts| && texts[x] == bytes ==> codes[x] == code
    requires Passed(ids, texts, code, bytes, j) && j < |ids| && ids[Slot(code, j, |ids|)] == -1
    ensures bytes !in texts
  {
    forall x: nat | x < |texts| ensures texts[x] != bytes {
      Differs(ids, texts, codes, code, bytes, j, x);
    }
  }

  /** Every slot is looked at within one round of probing. */
  lemma Reached(code: nat, e: nat, n: nat) returns (j: nat)
    requires e < n
    ensures j < n && Slot(code, j, n) == e
  {
    j := (e - code) % n;
    var x := code + j;
    var q := (e - code) / n;
    assert x == e - q * n;
    assert e - x % n == (x / n + q) * n;
    NoMultiple(x / n + q, n);
  }

  lemma {:induction false} TakenSlots(ids: seq<int>, members: set<nat>)
    requires Unique(ids) && Holding(ids, members) && forall p :: 0 <= p < |ids| ==> ids[p] != -1
    ensures |ids| <= |members|
  {
    if |ids| > 0 {
      var n := |ids| - 1;
      assert ids[n] in members;
      assert forall p :: 0 <= p < n ==> ids[p] in members - {ids[n]};
      TakenSlots(ids[..n], members - {ids[n]});
    }
  }

  /** A table with fewer ids than slots has an open slot on every probe sequence. */
  lemma OpenSlot(ids: seq<int>, codes: seq<nat>, members: set<nat>, code: nat) returns (j: nat)
    requires Table(ids, codes, members) && |members| < |ids|
    ensures j < |ids| && ids[Slot(code, j, |ids|)] == -1
  {
    if forall p :: 0 <= p < |ids| ==> ids[p] != -1 {
      TakenSlots(ids, members);
    }
    var e: nat :| e < |ids| && ids[e] == -1;
    j := Reached(code, e, |ids|);
  }

  // ----- the strings behind the ids -----

  ghost predicate StoredAll(buffers: seq<seq<byte>>, starts: seq<nat>, texts: seq<Term>, end: int) {
    && |texts| <= |starts|
    && (forall i :: 0 <= i < |texts| ==>
          Stores(buffers, starts[i], texts[i]) && starts[i] + |EncodeTerm(texts[i])| <= end)
  }

  lemma StoredAllKept(b: seq<seq<byte>>, c: seq<seq<byte>>, upto: int, fill: nat, starts: seq<nat>, texts: seq<Term>,
                      end: int)
    requires SameBelow(b, c, upto, fill) && fill <= BYTE_BLOCK_SIZE && upto * BYTE_BLOCK_SIZE + fill <= end
    requires StoredAll(b, starts, texts, upto * BYTE_BLOCK_SIZE + fill)
    ensures StoredAll(c, starts, texts, end)
  {
    forall i | 0 <= i < |texts| ensures Stores(c, starts[i], texts[i]) {
      StoresKept(b, c, upto, fill, starts[i], texts[i]);
    }
  }

  lemma StoredShort(buffers: seq<seq<byte>>, starts: seq<nat>, texts: seq<Term>, end: int)
    requires StoredAll(buffers, starts, texts, end)
    ensures forall t :: t in texts ==> |t| < BYTE_BLOCK_SIZE
  {
  }

  ghost predicate NoDuplicates(texts: seq<Term>) {
    forall i, j :: 0 <= i < j < |texts| ==> texts[i] != texts[j]
  }

  ghost function Codes(texts: seq<Term>, hash: Term -> nat): (r: seq<nat>)
    ensures |r| == |texts| && forall i :: 0 <= i < |r| ==> r[i] == hash(texts[i])
  {
    seq(|texts|, i requires 0 <= i < |texts| => hash(texts[i]))
  }

  ghost predicate PowerOfTwo(n: nat) {
    exists p: nat :: n == Pow2(p)
  }

  /** Table over more codes: a new one at the end changes nothing for the old ids. */
  lemma MoreCodes(ids: seq<int>, codes: seq<nat>, more: seq<nat>, members: set<nat>)
    requires Table(ids, codes, members) && |codes| <= |more| && forall i :: 0 <= i < |codes| ==> codes[i] == more[i]
    ensures Table(ids, more, members)
  {
  }

  /** The ids in the slots of a table. */
  ghost function Taken(ids: seq<int>): set<nat> {
    if ids == [] then {}
    else Taken(ids[..|ids| - 1]) + if ids[|ids| - 1] < 0 then {} else {ids[|ids| - 1]}
  }

  lemma {:induction false} InTaken(ids: seq<int>, x: nat)
    ensures x in Taken(ids) <==> x in ids
  {
    if ids != [] {
      var n := |ids| - 1;
      assert ids == ids[..n] + [ids[n]];
      InTaken(ids[..n], x);
    }
  }

  lemma NoneTaken(ids: seq<int>)
    requires ids == []
    ensures Taken(ids) == {}
  {
  }

  lemma AllTaken(ids: seq<int>, codes: seq<nat>, members: set<nat>)
    requires Table(ids, codes, members)
    ensures Taken(ids) == members
  {
    forall id: nat ensures id in Taken(ids) <==> id in members {
      InTaken(ids, id);
      if id in members {
        var j: nat :| FoundAfter(ids, codes[id], id, j);
      }
    }
  }

  /** Going through the slots of a table meets every id once. */
  lemma NextTaken(s: seq<int>, codes: seq<nat>, n: nat, i: nat)
    requires Table(s, codes, Below(n)) && i < |s|
    ensures |Taken(s[..i])| <= n
    ensures s[i] == -1 ==> Taken(s[..i + 1]) == Taken(s[..i])
    ensures s[i] != -1 ==> 0 <= s[i] < n && s[i] !in Taken(s[..i]) && Taken(s[..i + 1]) == Taken(s[..i]) + {s[i]}
  {
    forall x | x in Taken(s[..i]) ensures x in Below(n) {
      InTaken(s[..i], x);
    }
    BelowSize(n);
    SubsetSmaller(Taken(s[..i]), Below(n));
    assert s[..i + 1][..i] == s[..i];
    if s[i] >= 0 {
      InTaken(s[..i], s[i]);
    }
  }

  lemma Doubled(n: nat)
    requires PowerOfTwo(n)
    ensures PowerOfTwo(2 * n)
  {
    var p: nat :| n == Pow2(p);
    assert Pow2(p + 1) == 2 * n;
  }

  lemma Halved(n: nat)
    requires PowerOfTwo(n) && n >= 2
    ensures PowerOfTwo(n / 2)
  {
    var p: nat :| n == Pow2(p);
    assert Pow2(p - 1) == n / 2;
  }

  /** Linear probing to the first open slot. */
  method FirstOpen(table: array<int>, code: nat, ghost codes: seq<nat>, ghost members: set<nat>)
    returns (pos: nat, ghost j: nat)
    requires Table(table[..], codes, members) && |members| < table.Length
    ensures j < table.Length && pos == Slot(code, j, table.Length) && Chain(table[..], code, j) && table[pos] == -1
  {
    ghost var open := OpenSlot(table[..], codes, members, code);
    j := 0;
    var c := code;
    pos := c % table.Length;
    while table[pos] != -1
      invariant c == code + j && pos == Slot(code, j, table.Length) && j <= open && Chain(table[..], code, j)
      decreases open - j
    {
      assert table[..][Slot(code, j, table.Length)] != -1;
      c := c + 1;
      pos := c % table.Length;
      j := j + 1;
    }
  }

  /** Puts an id into the first open slot of its probe sequence. */
  method Place(table: array<int>, id: nat, code: nat, ghost codes: seq<nat>, ghost members: set<nat>)
    requires Table(table[..], codes, members) && |members| < table.Length
    requires id !in members && id < |codes| && codes[id] == code
    modifies table
    ensures Table(table[..], codes, members + {id})
  {
    hide Table, Chain;
    var pos, j := FirstOpen(table, code, codes, members);
    Insert(table[..], codes, members, id, j, pos);
    assert table[..][pos := id] == table[..pos] + [id] + table[pos + 1..];
    table[pos] := id;
  }

  /** The slots that are taken, in order. */
  ghost function Packed(ids: seq<int>): seq<int> {
    if ids == [] then []
    else if ids[|ids| - 1] == -1 then Packed(ids[..|ids| - 1])
    else Packed(ids[..|ids| - 1]) + [ids[|ids| - 1]]
  }

  /** `s` lists members, none of them twice. */
  ghost predicate NamesOnce(s: seq<int>, members: set<nat>) {
    && (forall i :: 0 <= i < |s| ==> s[i] >= 0 && s[i] in members)
    && (forall i, j :: 0 <= i < j < |s| ==> s[i] != s[j])
  }

  lemma NamesOneMore(s: seq<int>, members: set<nat>, id: nat)
    requires NamesOnce(s, members - {id}) && id in members
    ensures NamesOnce(s + [id], members)
  {
  }

  lemma {:induction false} PackedMembers(ids: seq<int>, members: set<nat>)
    requires Unique(ids) && Holding(ids, members) && Taken(ids) == members
    ensures |Packed(ids)| == |members| <= |ids| && NamesOnce(Packed(ids), members)
  {
    hide NamesOnce;
    if ids == [] {
      NamesNone(members);
    } else {
      var n := |ids| - 1;
      var front := ids[..n];
      assert ids == front + [ids[n]];
      if ids[n] == -1 {
        PackedMembers(front, members);
      } else {
        InTaken(front, ids[n]);
        assert Taken(front) == members - {ids[n]};
        PackedMembers(front, members - {ids[n]});
        NamesOneMore(Packed(front), members, ids[n]);
      }
    }
  }

  lemma NamesNone(members: set<nat>)
    ensures NamesOnce([], members)
  {
  }

  /** A table in which every member of `Below(n)` stands in one slot, wherever that is. */
  ghost predicate Filled(ids: seq<int>, n: nat) {
    Unique(ids) && Holding(ids, Below(n)) && Taken(ids) == Below(n)
  }

  /** `compact`: moves the ids to the front, keeping their order. */
  method Compact(a: array<int>) returns (upto: nat)
    modifies a
    ensures upto <= a.Length && a[..upto] == Packed(old(a[..]))
    ensures forall p :: upto <= p < a.Length ==> a[p] == -1
  {
    ghost var s := a[..];
    upto := 0;
    for i := 0 to a.Length
      invariant upto <= i && a[..upto] == Packed(s[..i])
      invariant forall p :: upto <= p < i ==> a[p] == -1
      invariant forall p :: i <= p < a.Length ==> a[p] == s[p]
    {
      assert s[..i + 1][..i] == s[..i];
      if a[i] != -1 {
        if upto < i {
          a[upto] := a[i];
          a[i] := -1;
        }
        upto := upto + 1;
      }
    }
    assert s[..a.Length] == s;
  }

  // ----- the order of the sorted ids -----

  /** `s` names every text once, in increasing order. */
  ghost predicate SortedIds(s: seq<int>, texts: seq<Term>) {
    && |s| == |texts|
    && (forall i :: 0 <= i < |s| ==> 0 <= s[i] < |texts|)
    && (forall i, j :: 0 <= i < j < |s| ==> Less(Text(texts, s[i]), Text(texts, s[j])))
  }

  ghost function RankOf(texts: seq<Term>): int -> int {
    x => Rank((set t | t in texts) + {[]}, Text(texts, x))
  }

  lemma TextsRanked(texts: seq<Term>)
    ensures TextRank(texts, RankOf(texts))
  {
    var universe := (set t | t in texts) + {[]};
    forall x, y
      ensures Less(Text(texts, x), Text(texts, y)) <==> RankOf(texts)(x) < RankOf(texts)(y)
      ensures Text(texts, x) == Text(texts, y) <==> RankOf(texts)(x) == RankOf(texts)(y)
    {
      RankOrders(universe, Text(texts, x), Text(texts, y));
    }
  }

  lemma StillNamed(s: seq<int>, t: seq<int>, n: nat)
    requires NamesOnce(s, Below(n)) && multiset(s) == multiset(t)
    ensures NamesOnce(t, Below(n))
  {
    forall i | 0 <= i < |t| ensures t[i] >= 0 && t[i] in Below(n) {
      assert t[i] in multiset(t);
      assert t[i] in s;
    }
    var a, b: seq<nat> := s, t;
    PermutedDistinct(a, b);
    forall i, j | 0 <= i < j < |t| ensures t[i] != t[j] {
      assert b[i] != b[j];
    }
  }

  lemma SortedStrictly(s: seq<int>, texts: seq<Term>, rank: int -> int)
    requires NamesOnce(s, Below(|texts|)) && |s| == |texts| && NoDuplicates(texts)
    requires TextRank(texts, rank) && Sorted(s, rank, 0, |s|)
    ensures SortedIds(s, texts)
  {
    forall i, j | 0 <= i < j < |s| ensures Less(Text(texts, s[i]), Text(texts, s[j])) {
      assert s[i] in Below(|texts|) && s[j] in Below(|texts|);
      assert Text(texts, s[i]) != Text(texts, s[j]);
      assert rank(s[i]) <= rank(s[j]);
    }
  }

  /** No id is missing from a sorted table. */
  lemma SortedOnto(s: seq<int>, texts: seq<Term>, x: nat)
    requires SortedIds(s, texts) && x < |texts|
    ensures x in s
  {
    if x !in s {
      var t: seq<nat> := s + [x];
      forall i, j | 0 <= i < j < |t| ensures t[i] != t[j] {
        if j < |s| {
          LessIrreflexive(Text(texts, s[i]));
        }
      }
      Pigeonhole(t, |texts|);
    }
  }

  method Fill(a: array<int>, value: int)
    modifies a
    ensures forall i :: 0 <= i < a.Length ==> a[i] == value
  {
    for i := 0 to a.Length
      invariant forall k :: 0 <= k < i ==> a[k] == value
    {
      a[i] := value;
    }
  }

  /** `over_size`: the length an array grows to when `size` elements are needed. */
  function OverSize(size: nat): (r: nat)
    ensures r >= size + 3 && if size < 24 then r == size + 3 else 9 * size - 8 < 8 * r <= 9 * size
  {
    size + (if size / 8 < 3 then 3 else size / 8)
  }

  /** The table size `shrink` settles on. */
  method ShrunkSize(size: nat, target: nat) returns (r: nat)
    requires PowerOfTwo(size) && size >= 2
    ensures PowerOfTwo(r) && 2 <= r <= size && (r < 8 || r / 4 <= target)
    ensures r < size ==> r >= 4 && r / 2 > target
  {
    hide PowerOfTwo;
    r := size;
    while !(r < 8 || r / 4 <= target)
      invariant PowerOfTwo(r) && 2 <= r <= size && (r < size ==> r >= 4 && r / 2 > target)
      decreases r
    {
      Halved(r);
      r := r / 2;
    }
  }

  lemma FilledTable(ids: seq<int>, codes: seq<nat>, n: nat)
    requires Table(ids, codes, Below(n))
    ensures Filled(ids, n)
  {
    AllTaken(ids, codes, Below(n));
  }

  /** The ids of a filled table, moved to its front, are all ids below `n`. */
  lemma PackedFilled(ids: seq<int>, n: nat)
    requires Filled(ids, n)
    ensures |Packed(ids)| == n <= |ids| && NamesOnce(Packed(ids), Below(n))
  {
    BelowSize(n);
    PackedMembers(ids, Below(n));
  }

  lemma {:induction false} PackedFront(ids: seq<int>, n: nat, front: seq<int>)
    requires n <= |ids| && front == ids[..n]
    requires forall p :: 0 <= p < n ==> ids[p] != -1
    requires forall p :: n <= p < |ids| ==> ids[p] == -1
    ensures Packed(ids) == front
    decreases |ids|
  {
    if ids != [] {
      var m := |ids| - 1;
      if n <= m {
        assert ids[..m][..n] == front;
        PackedFront(ids[..m], n, front);
      } else {
        PackedFront(ids[..m], m, front[..m]);
        assert front == front[..m] + [ids[m]];
      }
    }
  }

  /** When adding a new string ends in a failed assertion: it is too long for what is left of
      the head buffer, and not shorter than a block less its two length bytes. */
  predicate TooLong(bytes: Term, byteUpto: nat) {
    |bytes| + 2 + byteUpto > BYTE_BLOCK_SIZE && |bytes| + 2 >= BYTE_BLOCK_SIZE
  }

  lemma OneMoreText(texts: seq<Term>, bytes: Term)
    requires NoDuplicates(texts) && bytes !in texts
    ensures NoDuplicates(texts + [bytes])
  {
  }

  lemma OneMoreStored(buffers: seq<seq<byte>>, starts: seq<nat>, texts: seq<Term>, start: nat, bytes: Term, end: int)
    requires StoredAll(buffers, starts, texts, end) && |texts| < |starts|
    requires Stores(buffers, start, bytes) && start + |EncodeTerm(bytes)| <= end
    ensures StoredAll(buffers, starts[|texts| := start], texts + [bytes], end)
  {
  }

  lemma OneMoreCode(texts: seq<Term>, bytes: Term, hash: Term -> nat, codes: seq<nat>, more: seq<nat>)
    requires codes == Codes(texts, hash) && more == Codes(texts + [bytes], hash)
    ensures |more| == |texts| + 1 && more[|texts|] == hash(bytes) && forall i :: 0 <= i < |codes| ==>
      codes[i] == more[i]
  {
  }

  lemma BelowNext(n: nat)
    ensures Below(n + 1) == Below(n) + {n}
  {
  }

  /** A new string under the next id, in the open slot that the search for it ended on. */
  lemma OneMoreId(ids: seq<int>, texts: seq<Term>, hash: Term -> nat, bytes: Term, j: nat, at: nat)
    requires Table(ids, Codes(texts, hash), Below(|texts|))
    requires j < |ids| && Chain(ids, hash(bytes), j) && at == Slot(hash(bytes), j, |ids|) && ids[at] == -1
    ensures Table(ids[at := |texts|], Codes(texts + [bytes], hash), Below(|texts| + 1))
  {
    hide Table, Chain, Codes, Below, Slot;
    var n, codes, more := |texts|, Codes(texts, hash), Codes(texts + [bytes], hash);
    OneMoreCode(texts, bytes, hash, codes, more);
    MoreCodes(ids, codes, more, Below(n));
    Insert(ids, more, Below(n), n, j, at);
    BelowNext(n);
  }

  class BytesRefHash {
    const pool: ByteBlockPool
    /** The 32-bit murmur hash of a byte string; any function will do. */
    const hash: Term -> nat
    /** The length `bytesStart` is given anew by `Reinit`. */
    const initSize: nat
    var hashSize: nat
    var hashHalfSize: nat
    var hashMask: nat
    var count: nat
    var lastCount: int
    var ids: array<int>
    var bytesStart: seq<nat>
    /** The string of every id. */
    ghost var texts: seq<Term>

    ghost predicate Sized()
      reads this
    {
      && ids.Length == hashSize && hashHalfSize == hashSize / 2 && hashMask == hashSize - 1
      && hashSize >= 2 && PowerOfTwo(hashSize)
    }

    /** Ids stand for distinct strings that can be read from the pool. */
    ghost predicate Readable()
      reads this, pool
    {
      && Sized() && pool.Valid() && count == |texts| && NoDuplicates(texts)
      && StoredAll(pool.buffers, bytesStart, texts, pool.End())
    }

    ghost predicate Indexed()
      reads this, ids
    {
      Table(ids[..], Codes(texts, hash), Below(|texts|))
    }

    ghost predicate Valid()
      reads this, pool, ids
    {
      Readable() && Indexed() && count < hashHalfSize
    }

    constructor (pool: ByteBlockPool, hash: Term -> nat, capacity: nat, initSize: nat)
      requires pool.Valid() && capacity >= 2 && PowerOfTwo(capacity)
      ensures Valid() && texts == [] && this.pool == pool && this.hash == hash && fresh(ids)
      ensures ids.Length == capacity && this.initSize == initSize && lastCount == -1 && bytesStart == []
    {
      this.pool, this.hash, this.initSize := pool, hash, initSize;
      hashSize, hashHalfSize, hashMask := capacity, capacity / 2, capacity - 1;
      count, lastCount := 0, -1;
      ids := new int[capacity](_ => -1);
      bytesStart := [];
      texts := [];
      new;
      EmptyTable(ids[..], Codes(texts, hash));
    }

    /** Reads the string of an id from the pool. */
    method Get(id: nat) returns (t: Term)
      requires Readable() && id < count
      ensures t == texts[id]
    {
      var start := bytesStart[id];
      ReadEncoded(pool.buffers[start / BYTE_BLOCK_SIZE], start % BYTE_BLOCK_SIZE, texts[id]);
      t := ReadTerm(pool.buffers[start / BYTE_BLOCK_SIZE], start % BYTE_BLOCK_SIZE).value;
    }

    method FindHash(bytes: Term) returns (pos: nat, ghost j: nat)
      requires Valid()
      ensures pos < ids.Length && pos == Slot(hash(bytes), j, ids.Length) && j < ids.Length
      ensures Chain(ids[..], hash(bytes), j)
      ensures if ids[pos] == -1 then bytes !in texts else 0 <= ids[pos] < |texts| && texts[ids[pos]] == bytes
    {
      hide Table, Chain, Passed, NoDuplicates, StoredAll, PowerOfTwo;
      var code := hash(bytes);
      ghost var s, codes := ids[..], Codes(texts, hash);
      BelowSize(|texts|);
      ghost var open := OpenSlot(s, codes, Below(|texts|), code);
      PassedNone(s, texts, code, bytes);
      j := 0;
      var c := code;
      pos := c % (hashMask + 1);
      while true
        invariant c == code + j && pos == Slot(code, j, ids.Length) && j <= open && Passed(s, texts, code, bytes, j)
        decreases open - j
      {
        IdAt(s, codes, |texts|, pos);
        PassedChain(s, texts, code, bytes, j);
        var e := ids[pos];
        if e == -1 {
          Absent(s, texts, codes, code, bytes, j);
          return;
        }
        var t := Get(e);
        if t == bytes { return; }
        PassedOneMore(s, texts, code, bytes, j);
        c := c + 1;
        pos := c % (hashMask + 1);
        j := j + 1;
      }
    }

    /** Moves every id to its place in a table of twice the size. */
    method Rehash(newSize: nat)
      requires Readable() && Indexed() && count <= hashHalfSize && newSize == 2 * hashSize
      modifies this
      ensures Valid() && texts == old(texts) && fresh(ids) && hashSize == newSize
      ensures bytesStart == old(bytesStart) && count == old(count)
    {
      hide Table, NoDuplicates, StoredAll, PowerOfTwo, Taken, Below;
      var newHash := new int[newSize](_ => -1);
      ghost var s, codes := ids[..], Codes(texts, hash);
      EmptyTable(newHash[..], codes);
      NoneTaken(s[..0]);
      for i := 0 to hashSize
        invariant Table(newHash[..], codes, Taken(s[..i]))
        invariant unchanged(this) && fresh(newHash) && newHash.Length == newSize && ids[..] == s
      {
        NextTaken(s, codes, |texts|, i);
        var e0 := ids[i];
        if e0 != -1 {
          var t := Get(e0);
          Place(newHash, e0, hash(t), codes, Taken(s[..i]));
        }
      }
      assert s[..hashSize] == s;
      AllTaken(s, codes, Below(|texts|));
      Doubled(hashSize);
      hashMask := newSize - 1;
      ids := newHash;
      hashSize := newSize;
      hashHalfSize := newSize / 2;
    }

    /** Makes room for a string at the head of the pool. */
    method MakeRoom(bytes: Term)
      requires Readable() && !TooLong(bytes, pool.byteUpto)
      modifies pool
      ensures Readable() && |bytes| + 2 + pool.byteUpto <= BYTE_BLOCK_SIZE && pool.bufferUpto >= 0
      ensures pool.End() == old(pool.RoomAt(|bytes| + 2))
    {
      hide NoDuplicates, StoredAll, PowerOfTwo, SameBelow;
      if |bytes| + 2 + pool.byteUpto > BYTE_BLOCK_SIZE {
        ghost var b, upto, fill := pool.buffers, pool.bufferUpto, pool.byteUpto;
        pool.NextBuffer();
        StoredAllKept(b, pool.buffers, upto, fill, bytesStart, texts, pool.End());
      }
    }

    /** Stores a string under the next id; it is not in the table yet. */
    method Append(bytes: Term)
      requires Readable() && bytes !in texts && !TooLong(bytes, pool.byteUpto)
      modifies this`bytesStart, this`count, this`texts, pool
      ensures Readable() && texts == old(texts) + [bytes] && pool.byteUpto > 0
      ensures old(count) < |bytesStart| && bytesStart[old(count)] == old(pool.RoomAt(|bytes| + 2))
      ensures |bytesStart| == if old(count < |bytesStart|) then old(|bytesStart|) else OverSize(old(|bytesStart|) + 1)
      ensures pool.End() == bytesStart[old(count)] + |bytes| + if |bytes| < 128 then 1 else 2
    {
      hide NoDuplicates, StoredAll, PowerOfTwo, SameBelow, Stores, OverSize;
      MakeRoom(bytes);
      if count >= |bytesStart| {
        Grow();
      }
      ghost var b, upto, fill := pool.buffers, pool.bufferUpto, pool.byteUpto;
      var start := pool.WriteTerm(bytes);
      StoredAllKept(b, pool.buffers, upto, fill, bytesStart, texts, pool.End());
      OneMoreText(texts, bytes);
      OneMoreStored(pool.buffers, bytesStart, texts, start, bytes, pool.End());
      bytesStart := bytesStart[count := start];
      count := count + 1;
      texts := texts + [bytes];
    }

    method Grow()
      requires Readable()
      modifies this`bytesStart
      ensures Readable() && |bytesStart| > count && |bytesStart| == OverSize(old(|bytesStart|) + 1)
      ensures bytesStart == old(bytesStart) + seq(|bytesStart| - old(|bytesStart|), _ => 0)
    {
      var more := OverSize(|bytesStart| + 1) - |bytesStart|;
      bytesStart := bytesStart + seq(more, _ => 0);
    }

    /** Gives a string its id: the next one if it is new, else its own, made negative. */
    method Add(bytes: Term) returns (r: Option<int>)
      requires Valid()
      modifies this, ids, pool
      ensures Valid() && (ids == old(ids) || fresh(ids))
      ensures r == None <==> bytes !in old(texts) && |bytes| >= 32766 && |bytes| + old(pool.byteUpto) > 32766
      ensures texts == if bytes in old(texts) || r == None then old(texts) else old(texts) + [bytes]
      ensures r.Some? ==> if bytes in old(texts) then -(r.value + 1) in Below(|texts|) && texts[-(r.value + 1)] == bytes
        else r.value == |old(texts)|
      ensures old(pool.byteUpto) > 0 ==> pool.byteUpto > 0
      ensures texts == old(texts) ==> ids == old(ids) && pool.End() == old(pool.End())
      ensures texts != old(texts) ==> Appended(old(count), old(ids.Length), old(pool.RoomAt(|bytes| + 2)), |bytes|)
    {
      hide Table, Chain, NoDuplicates, StoredAll, PowerOfTwo;
      var pos, j := FindHash(bytes);
      var e := ids[pos];
      if e != -1 {
        return Some(-(e + 1));
      }
      if TooLong(bytes, pool.byteUpto) {
        return None;
      }
      e := count;
      AddNew(bytes, pos, j);
      return Some(e);
    }

    /** A string of `length` bytes is stored at `start` under the next id; the table is twice as large
        as before if it is half full with it. */
    ghost predicate Appended(before: nat, size: nat, start: int, length: nat)
      reads this, pool
    {
      && ids.Length == (if before + 1 == size / 2 then 2 * size else size)
      && before < |bytesStart| && bytesStart[before] == start
      && pool.End() == start + length + if length < 128 then 1 else 2
    }

    /** The new entry of `add`, in the open slot that the search has ended at. */
    method AddNew(bytes: Term, pos: nat, ghost j: nat)
      requires Valid() && bytes !in texts && !TooLong(bytes, pool.byteUpto)
      requires pos < ids.Length && pos == Slot(hash(bytes), j, ids.Length) && j < ids.Length
      requires Chain(ids[..], hash(bytes), j) && ids[pos] == -1
      modifies this, ids, pool
      ensures Valid() && (ids == old(ids) || fresh(ids)) && texts == old(texts) + [bytes] && pool.byteUpto > 0
      ensures Appended(old(count), old(ids.Length), old(pool.RoomAt(|bytes| + 2)), |bytes|)
    {
      hide Table, Chain, NoDuplicates, StoredAll, PowerOfTwo;
      OneMoreId(ids[..], texts, hash, bytes, j, pos);
      var e := count;
      Append(bytes);
      ids[pos] := e;
      if count == hashHalfSize {
        Rehash(hashSize * 2);
      }
    }

    /** `shrink`: a smaller empty table if the ids last held leave most of it open. */
    method Shrink(target: nat) returns (shrunk: bool)
      requires Sized()
      modifies this`hashSize, this`hashHalfSize, this`hashMask, this`ids
      ensures Sized() && hashSize <= old(hashSize) && (shrunk <==> hashSize < old(hashSize))
      ensures hashSize < 8 || hashSize / 4 <= target
      ensures if shrunk then fresh(ids) && forall i :: 0 <= i < ids.Length ==> ids[i] == -1 else ids == old(ids)
    {
      var newSize := ShrunkSize(hashSize, target);
      shrunk := newSize != hashSize;
      if shrunk {
        hashSize := newSize;
        ids := new int[newSize](_ => -1);
        hashHalfSize := newSize / 2;
        hashMask := newSize - 1;
      }
    }

    /** Forgets all strings, after a sort as well; the table is ready for new ones. */
    /** The pool has released its buffers. */
    ghost predicate Drained()
      reads pool
    {
      pool.bufferUpto == -1 && forall i :: 0 <= i < |pool.buffers| ==> pool.buffers[i] == []
    }

    method Clear(resetPool: bool)
      requires Sized() && pool.Valid()
      modifies this, ids, pool
      ensures Valid() && texts == [] && (ids == old(ids) || fresh(ids)) && lastCount == old(count)
      ensures if resetPool then Drained() else unchanged(pool)
      ensures bytesStart == []
    {
      lastCount := count;
      count := 0;
      if resetPool {
        pool.Reset(false, false);
      }
      bytesStart, texts := [], [];
      var shrunk := Shrink(lastCount);
      if !shrunk {
        Fill(ids, -1);
      }
      EmptyTable(ids[..], Codes(texts, hash));
    }

    /** The state that `Close` leaves: nothing stored, and no table. */
    ghost predicate Closed()
      reads this, pool
    {
      && ids.Length == 0 && hashHalfSize == hashSize / 2 && hashMask == hashSize - 1
      && hashSize >= 2 && PowerOfTwo(hashSize) && pool.Valid() && Drained() && count == 0 && texts == []
         && bytesStart == []
    }

    method Close()
      requires Sized() && pool.Valid()
      modifies this, ids, pool
      ensures Closed() && fresh(ids)
    {
      Clear(true);
      ids := new int[0];
    }

    /** `equals`: whether the string of an id is `bytes`; `None` if there is nothing to be read. */
    function SameString(id: nat, bytes: Term): Option<bool>
      reads this, pool
    {
      if id >= |bytesStart| || bytesStart[id] / BYTE_BLOCK_SIZE >= |pool.buffers| then None
      else
        var start := bytesStart[id];
        match ReadTerm(pool.buffers[start / BYTE_BLOCK_SIZE], start % BYTE_BLOCK_SIZE)
        case None => None
        case Some(t) => Some(t == bytes)
    }

    /** An id in use has a string to compare with. */
    lemma ComparesStrings(id: nat, bytes: Term)
      requires Readable() && id < count
      ensures SameString(id, bytes) == Some(texts[id] == bytes)
    {
      hide NoDuplicates, PowerOfTwo;
      var start := bytesStart[id];
      ReadEncoded(pool.buffers[start / BYTE_BLOCK_SIZE], start % BYTE_BLOCK_SIZE, texts[id]);
    }

    /** The search for `bytes` stops at its first slot: an id stands there that has no string. */
    ghost predicate SearchStops(bytes: Term)
      reads this, ids, pool
    {
      var pos := hash(bytes) % (hashMask + 1);
      pos < ids.Length && ids[pos] >= 0 && SameString(ids[pos], bytes) == None
    }

    /** A usable table never stops a search. */
    lemma NoSearchStops(bytes: Term)
      requires Valid()
      ensures !SearchStops(bytes)
    {
      hide Table, NoDuplicates, PowerOfTwo;
      var pos := hash(bytes) % (hashMask + 1);
      var id := ids[pos];
      IdAt(ids[..], Codes(texts, hash), |texts|, pos);
      if id >= 0 {
        ComparesStrings(id, bytes);
      }
    }

    /** `reinit`: usable exactly if the table was still there. A new table is filled with the id 0 and
        not with the mark of an open slot, and then every search stops at the first string it reads. */
    method Reinit()
      requires Closed() || Valid()
      modifies this`ids, this`bytesStart
      ensures Valid() <==> old(ids.Length) > 0
      ensures bytesStart == if old(bytesStart) == [] then seq(initSize, _ => 0) else old(bytesStart)
      ensures if old(ids.Length) > 0 then ids == old(ids) else fresh(ids) && ids[..] == seq(hashSize, _ => 0)
      ensures old(ids.Length) == 0 ==> forall bytes :: SearchStops(bytes)
    {
      if bytesStart == [] {
        bytesStart := seq(initSize, _ => 0);
      }
      if ids.Length == 0 {
        ids := new int[hashSize](_ => 0);
        assert ids[..][0] != -1 && ids[..][0] !in Below(0);
        assert ReadTerm([], 0) == None;
      }
    }

    /** A hash that is closed and initialised again answers no search any more. */
    method CloseAndReinit()
      requires Sized() && pool.Valid()
      modifies this, ids, pool
      ensures !Valid() && forall bytes :: SearchStops(bytes)
    {
      Close();
      Reinit();
    }

    /** Reads all strings. */
    method Strings() returns (ts: seq<Term>)
      requires Readable()
      ensures ts == texts
    {
      ts := [];
      for i := 0 to count
        invariant ts == texts[..i]
      {
        var t := Get(i);
        ts := ts + [t];
      }
    }

    /** `sort`: the ids of all strings, in the order of the strings, at the front of the table. */
    method Sort()
      requires Readable() && Indexed()
      modifies this`lastCount, ids
      ensures Readable() && count <= ids.Length && SortedIds(ids[..count], texts) && lastCount == count
    {
      hide Table, Unique, Holding, Packed, NamesOnce, NoDuplicates, StoredAll, PowerOfTwo, SortedIds, TextRank, Less,
           Stores;
      FilledTable(ids[..], Codes(texts, hash), count);
      PackedFilled(ids[..], count);
      var upto := Compact(ids);
      lastCount := count;
      CompactAgain(ids, count);
      ghost var before := ids[..];
      var ts := Strings();
      StoredShort(pool.buffers, bytesStart, texts, pool.End());
      SortIds(ids, ts, count);
    }
  }

  /** The sorter compacts once more, which changes nothing. */
  method CompactAgain(a: array<int>, n: nat)
    requires n <= a.Length && NamesOnce(a[..n], Below(n)) && forall p :: n <= p < a.Length ==> a[p] == -1
    modifies a
    ensures a[..] == old(a[..])
  {
    assert forall p :: 0 <= p < n ==> a[..n][p] >= 0;
    PackedFront(a[..], n, a[..n]);
    var upto := Compact(a);
    assert old(a[..]) == old(a[..n]) + old(a[n..]);
    assert a[..] == a[..upto] + a[upto..];
  }

  lemma ReadyToSort(s: seq<int>, texts: seq<Term>, rank: int -> int, n: nat)
    requires n == |texts| <= |s| && NamesOnce(s[..n], Below(n)) && TextRank(texts, rank)
    requires forall t :: t in texts ==> |t| < BYTE_BLOCK_SIZE
    ensures Sortable(s, texts, rank, Below(n), 0, n, 0) && AtLeast(texts, Below(n), 0)
      && AtMost(texts, Below(n), BYTE_BLOCK_SIZE)
  {
    hide TextRank;
    assert forall p :: 0 <= p < n ==> s[..n][p] in Below(n);
  }

  /** Sorts ids by the strings they stand for. */
  method SortIds(a: array<int>, texts: seq<Term>, n: nat)
    requires n == |texts| <= a.Length && NamesOnce(a[..n], Below(n)) && NoDuplicates(texts)
    requires forall t :: t in texts ==> |t| < BYTE_BLOCK_SIZE
    modifies a
    ensures SortedIds(a[..n], texts)
  {
    hide NamesOnce, NoDuplicates, TextRank, RankOf, SortedIds, Sortable, AtLeast, AtMost, Below, Rank;
    ghost var rank, before := RankOf(texts), a[..];
    TextsRanked(texts);
    ReadyToSort(before, texts, rank, n);
    SortInner(a, texts, rank, Below(n), 0, n, 0, 0, BYTE_BLOCK_SIZE);
    PermutedPart(before, a[..], n);
    StillNamed(before[..n], a[..n], n);
    SortedStrictly(a[..n], texts, rank);
  }
}
