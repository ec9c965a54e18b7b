/** The k-way merge of sorted term streams (multi_terms.rs). */
module MultiTerms {
  import opened Lex
  import opened Wrappers
  import opened Sequences
  import opened BinaryHeap

  // ----- fill_top -----

  /** Node `p` of the heap holds the same key as the root. */
  ghost predicate Tied(data: seq<nat>, keys: seq<Term>, p: nat)
    requires p < |data| && BelowAll(data, |keys|)
  {
    keys[data[p]] == keys[data[0]]
  }

  /** The nodes tied with the root form a subtree that contains the root. */
  lemma TiedParent(data: seq<nat>, keys: seq<Term>, rank: seq<int>, p: nat)
    requires Ranks(keys, rank) && Ordered(data, rank) && 0 < p < |data| && Tied(data, keys, p)
    ensures Tied(data, keys, Parent(p))
  {
    assert Above(data, rank, p);
    RootIsLeast(data, rank, Parent(p));
  }

  /** `visited` holds tied nodes only, each once, and was reached through nodes that have
      left the stack. */
  ghost predicate Explored(data: seq<nat>, keys: seq<Term>, visited: seq<nat>, stack: seq<nat>)
    requires BelowAll(data, |keys|)
  {
    && Distinct(visited) && BelowAll(visited, |data|) && Distinct(stack)
    && (forall p :: p in stack ==> p in visited)
    && (forall p :: p in visited ==> Tied(data, keys, p))
    && (forall p :: p in visited && p > 0 ==> Parent(p) in visited && Parent(p) !in stack)
  }

  /** No tied child of a node that has left the stack is missing, except that the children
      of `busy` have been looked at only below `upTo`. */
  ghost predicate Complete(data: seq<nat>, keys: seq<Term>, visited: seq<nat>, stack: seq<nat>, busy: int, upTo: int)
    requires BelowAll(data, |keys|)
  {
    forall c :: (0 < c < |data| && Tied(data, keys, c) && Parent(c) in visited && Parent(c) !in stack
                 && (Parent(c) != busy || c < upTo)) ==> c in visited
  }

  ghost predicate NoneFrom(visited: seq<nat>, busy: nat, upTo: nat) {
    forall c :: c in visited && c > 0 && Parent(c) == busy ==> c < upTo
  }

  lemma LeaveStack(data: seq<nat>, keys: seq<Term>, visited: seq<nat>, stack: seq<nat>)
    requires BelowAll(data, |keys|) && Explored(data, keys, visited, stack) && stack != []
    requires Complete(data, keys, visited, stack, -1, 0)
    ensures var index, rest := stack[|stack| - 1], stack[..|stack| - 1];
            && Explored(data, keys, visited, rest) && index in visited && index !in rest
            && Complete(data, keys, visited, rest, index, 2 * index + 1)
            && NoneFrom(visited, index, 2 * index + 1)
  {
    var index, rest := stack[|stack| - 1], stack[..|stack| - 1];
    assert stack == rest + [index];
    assert forall p :: p in stack <==> p in rest || p == index;
  }

  lemma Visit(data: seq<nat>, keys: seq<Term>, visited: seq<nat>, stack: seq<nat>, index: nat, child: nat)
    requires BelowAll(data, |keys|) && Explored(data, keys, visited, stack)
    requires 0 < child < |data| && Parent(child) == index && index in visited && index !in stack
    requires Tied(data, keys, child)
    requires Complete(data, keys, visited, stack, index, child) && NoneFrom(visited, index, child)
    ensures var v, t := visited + [child], stack + [child];
            && Explored(data, keys, v, t) && index in v && index !in t
            && Complete(data, keys, v, t, index, child + 1) && NoneFrom(v, index, child + 1)
            && |v| <= |data|
  {
    var v, t := visited + [child], stack + [child];
    assert child !in visited;
    assert forall p :: p in v <==> p in visited || p == child;
    assert forall p :: p in t <==> p in stack || p == child;
    Pigeonhole(v, |data|);
  }

  lemma {:induction false} AllTiedVisited(data: seq<nat>, keys: seq<Term>, rank: seq<int>, visited: seq<nat>, p: nat)
    requires Ranks(keys, rank) && Ordered(data, rank) && p < |data| && Tied(data, keys, p)
    requires Complete(data, keys, visited, [], -1, 0) && 0 in visited
    ensures p in visited
  {
    if p > 0 {
      TiedParent(data, keys, rank, p);
      AllTiedVisited(data, keys, rank, visited, Parent(p));
    }
  }

  /** Exactly the entries tied with the root, each once. */
  ghost predicate AreTops(data: seq<nat>, keys: seq<Term>, tops: seq<nat>)
    requires BelowAll(data, |keys|) && |data| > 0
  {
    && Distinct(tops)
    && (forall s :: s in tops <==> s in data && keys[s] == keys[data[0]])
  }

  lemma VisitedAreTops(data: seq<nat>, keys: seq<Term>, rank: seq<int>, visited: seq<nat>, tops: seq<nat>)
    requires Ranks(keys, rank) && Ordered(data, rank) && Distinct(data) && |data| > 0
    requires Explored(data, keys, visited, []) && Complete(data, keys, visited, [], -1, 0) && 0 in visited
    requires |tops| == |visited| && Lists(tops, |tops|, data, visited)
    ensures AreTops(data, keys, tops)
  {
    forall s | s in tops ensures s in data && keys[s] == keys[data[0]] {
      var i :| 0 <= i < |tops| && tops[i] == s;
      assert visited[i] in visited && Tied(data, keys, visited[i]);
    }
    forall s | s in data && keys[s] == keys[data[0]] ensures s in tops {
      var p :| 0 <= p < |data| && data[p] == s;
      assert Tied(data, keys, p);
      AllTiedVisited(data, keys, rank, visited, p);
      var i :| 0 <= i < |visited| && visited[i] == p;
      assert tops[i] == s;
    }
  }

  /** The first `count` of `tops` are the entries at the visited nodes. */
  ghost predicate Lists(tops: seq<nat>, count: nat, data: seq<nat>, visited: seq<nat>) {
    && count <= |tops| && count == |visited| && BelowAll(visited, |data|)
    && forall i :: 0 <= i < count ==> tops[i] == data[visited[i]]
  }

  /** What the walk has found so far, while it looks at the children of `index`. */
  ghost predicate Walking(data: seq<nat>, keys: seq<Term>, visited: seq<nat>, stack: seq<nat>, index: nat, child: nat)
    requires BelowAll(data, |keys|)
  {
    && Explored(data, keys, visited, stack) && index in visited && index !in stack
    && Complete(data, keys, visited, stack, index, child) && NoneFrom(visited, index, child)
  }

  /** Puts `child` on the list and the stack if it is tied. */
  method VisitChild(data: seq<nat>, keys: seq<Term>, index: nat, child: nat, tops: seq<nat>, count: nat, open: seq<nat>,
                    ghost seen: seq<nat>)
    returns (r: seq<nat>, numTop: nat, stack: seq<nat>, ghost visited: seq<nat>)
    requires BelowAll(data, |keys|) && |data| <= |tops| && Lists(tops, count, data, seen)
    requires 0 < child < |data| && Parent(child) == index && Walking(data, keys, seen, open, index, child)
    ensures |r| == |tops| && Lists(r, numTop, data, visited) && seen <= visited
      && (|seen| <= |data| ==> numTop <= |data|)
    ensures |stack| - |open| == |visited| - |seen|
    ensures Walking(data, keys, visited, stack, index, child + 1)
  {
    r, numTop, stack, visited := tops, count, open, seen;
    if keys[data[child]] == keys[data[0]] {
      Visit(data, keys, seen, open, index, child);
      visited, stack := seen + [child], open + [child];
      r := r[numTop := data[child]];
      numTop := numTop + 1;
    }
  }

  lemma WalkedAll(data: seq<nat>, keys: seq<Term>, visited: seq<nat>, stack: seq<nat>, index: nat, child: nat)
    requires BelowAll(data, |keys|) && Walking(data, keys, visited, stack, index, child)
    requires child >= |data| || child >= 2 * index + 3
    ensures Complete(data, keys, visited, stack, -1, 0)
  {
  }

  /** Looks at the children of `index`, and puts the tied ones on the list and the stack. */
  method VisitChildren(data: seq<nat>, keys: seq<Term>, index: nat, tops: seq<nat>, count: nat, open: seq<nat>,
                       ghost seen: seq<nat>)
    returns (r: seq<nat>, numTop: nat, stack: seq<nat>, ghost visited: seq<nat>)
    requires BelowAll(data, |keys|) && index < |data| <= |tops| && count <= |data| && Lists(tops, count, data, seen)
    requires Walking(data, keys, seen, open, index, 2 * index + 1)
    ensures |r| == |tops| && Lists(r, numTop, data, visited) && numTop <= |data| && seen <= visited
    ensures |stack| - |open| == |visited| - |seen|
    ensures Explored(data, keys, visited, stack) && Complete(data, keys, visited, stack, -1, 0)
  {
    r, numTop, stack, visited := tops, count, open, seen;
    var child := 2 * index + 1;
    while child < |data| && child < 2 * index + 3
      invariant 2 * index + 1 <= child <= 2 * index + 3
      invariant |r| == |tops| && Lists(r, numTop, data, visited) && numTop <= |data| && seen <= visited
      invariant |stack| - |open| == |visited| - |seen|
      invariant Walking(data, keys, visited, stack, index, child)
    {
      r, numTop, stack, visited := VisitChild(data, keys, index, child, r, numTop, stack, visited);
      child := child + 1;
    }
    WalkedAll(data, keys, visited, stack, index, child);
  }

  /** Lists in `tops` the entries whose key equals the root's, by walking the tied subtree. */
  method FillTop(data: seq<nat>, keys: seq<Term>, ghost rank: seq<int>, tops: seq<nat>)
    returns (r: seq<nat>, numTop: nat)
    requires Ranks(keys, rank) && Ordered(data, rank) && Distinct(data) && |data| <= |tops|
    ensures |r| == |tops| && numTop <= |data|
    ensures if |data| == 0 then numTop == 0 else numTop > 0 && AreTops(data, keys, r[..numTop])
  {
    r, numTop := tops, 0;
    if |data| == 0 {
      return;
    }
    r, numTop := tops[0 := data[0]], 1;
    var stack: seq<nat> := [0];
    ghost var visited: seq<nat> := [0];
    while stack != []
      invariant |r| == |tops| && 1 <= numTop <= |data| && numTop == |visited|
      invariant Explored(data, keys, visited, stack) && Complete(data, keys, visited, stack, -1, 0)
      invariant visited[0] == 0
      invariant Lists(r, numTop, data, visited)
      decreases 2 * |data| - 2 * |visited| + |stack|
    {
      LeaveStack(data, keys, visited, stack);
      var index := stack[|stack| - 1];
      r, numTop, stack, visited := VisitChildren(data, keys, index, r, numTop, stack[..|stack| - 1], visited);
    }
    VisitedAreTops(data, keys, rank, visited, r[..numTop]);
  }

  // ----- the streams being merged -----

  /** A term of a segment and its ordinal there. */
  datatype Entry = Entry(ord: nat, term: Term)

  /** What a term iterator delivers: terms in increasing order, with increasing ordinals
      (a filtered iterator leaves gaps in these). */
  ghost predicate SortedList(l: seq<Entry>) {
    && (forall i, j :: 0 <= i < j < |l| ==> Less(l[i].term, l[j].term))
    && (forall i, j :: 0 <= i < j < |l| ==> l[i].ord < l[j].ord)
  }

  ghost predicate SortedLists(lists: seq<seq<Entry>>) {
    forall s :: 0 <= s < |lists| ==> SortedList(lists[s])
  }

  ghost function Universe(lists: seq<seq<Entry>>): set<Term> {
    (set s, k | 0 <= s < |lists| && 0 <= k < |lists[s]| :: lists[s][k].term) + {[]}
  }

  ghost function RankSeq(lists: seq<seq<Entry>>, keys: seq<Term>): (r: seq<int>)
    ensures |r| == |keys| && forall i :: 0 <= i < |keys| ==> r[i] == Rank(Universe(lists), keys[i])
  {
    seq(|keys|, i requires 0 <= i < |keys| => Rank(Universe(lists), keys[i]))
  }

  /** The sub is not exhausted. */
  predicate Live(lists: seq<seq<Entry>>, pos: seq<nat>, s: nat) {
    s < |lists| && s < |pos| && pos[s] < |lists[s]|
  }

  /** The sub stands on term `t`. */
  predicate StandsOn(lists: seq<seq<Entry>>, pos: seq<nat>, s: nat, t: Term) {
    Live(lists, pos, s) && lists[s][pos[s]].term == t
  }

  function KeyAt(lists: seq<seq<Entry>>, pos: seq<nat>, s: nat): Term {
    if Live(lists, pos, s) then lists[s][pos[s]].term else []
  }

  /** `t` is the least of the terms the subs stand on. */
  ghost predicate IsLeastHead(lists: seq<seq<Entry>>, pos: seq<nat>, t: Term) {
    && (exists s: nat :: StandsOn(lists, pos, s, t))
    && (forall s: nat :: Live(lists, pos, s) ==> !Less(lists[s][pos[s]].term, t))
  }

  ghost predicate Keyed(lists: seq<seq<Entry>>, pos: seq<nat>, keys: seq<Term>) {
    && |pos| == |keys| == |lists|
    && (forall s :: 0 <= s < |lists| ==> pos[s] <= |lists[s]| && keys[s] == KeyAt(lists, pos, s))
  }

  /** The queue holds exactly the subs that are not exhausted, in heap order. */
  ghost predicate Core(lists: seq<seq<Entry>>, pos: seq<nat>, keys: seq<Term>, queue: seq<nat>) {
    && Keyed(lists, pos, keys)
    && Distinct(queue) && (forall s: nat :: s in queue <==> Live(lists, pos, s))
    && Ordered(queue, RankSeq(lists, keys))
  }

  lemma KeysRanked(lists: seq<seq<Entry>>, keys: seq<Term>)
    requires forall s :: 0 <= s < |keys| ==> keys[s] in Universe(lists)
    ensures Ranks(keys, RankSeq(lists, keys))
  {
    var u := Universe(lists);
    forall a, b | 0 <= a < |keys| && 0 <= b < |keys|
      ensures Less(keys[a], keys[b]) <==> RankSeq(lists, keys)[a] < RankSeq(lists, keys)[b]
      ensures keys[a] == keys[b] <==> RankSeq(lists, keys)[a] == RankSeq(lists, keys)[b]
    {
      RankOrders(u, keys[a], keys[b]);
    }
  }

  lemma KeyedRanked(lists: seq<seq<Entry>>, pos: seq<nat>, keys: seq<Term>)
    requires Keyed(lists, pos, keys)
    ensures Ranks(keys, RankSeq(lists, keys))
  {
    UniverseHas(lists, pos, keys);
    KeysRanked(lists, keys);
  }

  /** Changing the key of the root leaves the rest of the heap in order. */
  lemma RootRekeyed(lists: seq<seq<Entry>>, keys: seq<Term>, queue: seq<nat>, key: Term)
    requires |queue| > 0 && Distinct(queue) && BelowAll(queue, |keys|)
    requires Ordered(queue, RankSeq(lists, keys))
    ensures var rank := RankSeq(lists, keys[queue[0] := key]); Entries(queue, rank) && OrderedBut(queue, rank, 0)
  {
    var keys' := keys[queue[0] := key];
    forall j | 0 < j < |queue| && Parent(j) != 0 ensures Above(queue, RankSeq(lists, keys'), j) {
      assert Above(queue, RankSeq(lists, keys), j);
      assert queue[j] != queue[0] && queue[Parent(j)] != queue[0];
    }
  }

  /** The empty key of an exhausted sub is never above another. */
  lemma EmptyIsLeast(lists: seq<seq<Entry>>, keys: seq<Term>, queue: seq<nat>)
    requires |queue| > 0 && BelowAll(queue, |keys|) && keys[queue[0]] == []
    requires Ranks(keys, RankSeq(lists, keys)) && Entries(queue, RankSeq(lists, keys))
    ensures BelowHoleFine(queue, RankSeq(lists, keys), 0)
  {
    var rank := RankSeq(lists, keys);
    forall j | 0 < j < |queue| && Parent(j) == 0 ensures rank[queue[0]] <= rank[queue[j]] {
      assert !Less(keys[queue[j]], keys[queue[0]]);
    }
  }

  /** Moving the sub at the root forward, in place or off the queue. */
  lemma AdvancedKeyed(lists: seq<seq<Entry>>, pos: seq<nat>, keys: seq<Term>, root: nat)
    requires Keyed(lists, pos, keys) && Live(lists, pos, root)
    ensures var pos' := pos[root := pos[root] + 1];
            Keyed(lists, pos', keys[root := KeyAt(lists, pos', root)])
  {
  }

  /** Gives the root its new key and restores the heap, without the root if it is exhausted. */
  method RestoreHeap(lists: seq<seq<Entry>>, ghost pos: seq<nat>, keys: seq<Term>, queue: seq<nat>, key: Term,
                     shouldPop: bool)
    returns (r: seq<nat>)
    requires |queue| > 0 && Distinct(queue) && BelowAll(queue, |keys|) && Ordered(queue, RankSeq(lists, keys))
    requires Keyed(lists, pos, keys[queue[0] := key]) && (shouldPop ==> key == [])
    ensures Ordered(r, RankSeq(lists, keys[queue[0] := key]))
    ensures multiset(r) == if shouldPop then multiset(queue) - multiset{queue[0]} else multiset(queue)
  {
    var root := queue[0];
    ghost var rank := RankSeq(lists, keys[root := key]);
    RootRekeyed(lists, keys, queue, key);
    var keys' := keys[root := key];
    KeyedRanked(lists, pos, keys');
    if shouldPop {
      EmptyIsLeast(lists, keys', queue);
    }
    r := SiftDown(queue, keys', rank);
    if shouldPop {
      var item;
      item, r := Pop(r, keys', rank);
    }
  }

  lemma QueueMembers(lists: seq<seq<Entry>>, pos: seq<nat>, root: nat, queue: seq<nat>, r: seq<nat>)
    requires Distinct(queue) && root in queue && Live(lists, pos, root)
      && (forall s: nat :: s in queue <==> Live(lists, pos, s))
    requires var pos' := pos[root := pos[root] + 1];
             multiset(r) == if Live(lists, pos', root) then multiset(queue) else multiset(queue) - multiset{root}
    ensures Distinct(r)
    ensures forall s: nat :: s in r <==> Live(lists, pos[root := pos[root] + 1], s)
  {
    var pos' := pos[root := pos[root] + 1];
    PermutedDistinct(queue, r);
    DistinctCounts(queue, root);
    forall s: nat ensures s in r <==> Live(lists, pos', s) {
      assert s in r <==> s in multiset(r);
      assert s in queue <==> s in multiset(queue);
    }
  }

  /** Exactly the subs in `tops` have moved, by one term each. */
  ghost predicate Advanced(before: seq<nat>, tops: seq<nat>, after: seq<nat>) {
    && |after| == |before|
    && (forall s :: 0 <= s < |before| ==> after[s] == before[s] + (if s in tops then 1 else 0))
  }

  ghost predicate AdvancedBut(before: seq<nat>, tops: seq<nat>, rest: set<nat>, after: seq<nat>) {
    && |after| == |before| && (forall s :: s in rest ==> s in tops)
    && (forall s :: 0 <= s < |before| ==> after[s] == before[s] + (if s in tops && s !in rest then 1 else 0))
  }

  lemma NoneMoved(pos: seq<nat>, tops: seq<nat>)
    requires tops == []
    ensures Advanced(pos, tops, pos)
  {
  }

  lemma AllPushed(before: seq<nat>, tops: seq<nat>, after: seq<nat>)
    requires AdvancedBut(before, tops, {}, after)
    ensures Advanced(before, tops, after)
  {
  }

  /** The subs in `rest` stand on `t`, and all others in the queue beyond it. */
  ghost predicate BeyondBut(lists: seq<seq<Entry>>, pos: seq<nat>, queue: seq<nat>, t: Term, rest: set<nat>) {
    && (forall s: nat :: s in rest ==> s in queue && StandsOn(lists, pos, s, t))
    && (forall s: nat :: s in queue && s !in rest && Live(lists, pos, s) ==> Less(t, lists[s][pos[s]].term))
  }

  ghost function Members(s: seq<nat>): set<nat> {
    set x | x in s
  }

  lemma {:induction false} DistinctSize(s: seq<nat>)
    requires Distinct(s)
    ensures |Members(s)| == |s|
  {
    if s == [] {
      assert Members(s) == {};
    } else {
      DistinctSize(s[1..]);
      assert s == [s[0]] + s[1..] && s[0] !in s[1..];
      assert Members(s) == Members(s[1..]) + {s[0]};
    }
  }

  /** While some sub still stands on the least term, one of those is at the root. */
  lemma RootIsTop(lists: seq<seq<Entry>>, pos: seq<nat>, keys: seq<Term>, queue: seq<nat>, t: Term, rest: set<nat>)
    requires Core(lists, pos, keys, queue) && BeyondBut(lists, pos, queue, t, rest) && rest != {}
    ensures |queue| > 0 && queue[0] in rest
  {
    var s :| s in rest;
    var p :| 0 <= p < |queue| && queue[p] == s;
    var rank := RankSeq(lists, keys);
    RootIsLeast(queue, rank, p);
    KeyedRanked(lists, pos, keys);
    var root := queue[0];
    assert root in queue && keys[root] == KeyAt(lists, pos, root) && keys[s] == KeyAt(lists, pos, s);
    assert !Less(t, keys[root]);
  }

  /** Before any sub has moved, the listed ones stand on the least term and all others beyond it. */
  lemma TopsStart(lists: seq<seq<Entry>>, pos: seq<nat>, keys: seq<Term>, queue: seq<nat>, tops: seq<nat>, t: Term,
                  rest: set<nat>)
    requires Core(lists, pos, keys, queue) && |queue| > 0 && AreTops(queue, keys, tops)
    requires t == keys[queue[0]] && rest == Members(tops)
    ensures |rest| == |tops| && BeyondBut(lists, pos, queue, t, rest)
  {
    DistinctSize(tops);
    KeyedRanked(lists, pos, keys);
    forall s: nat | s in queue && s !in rest && Live(lists, pos, s) ensures Less(t, lists[s][pos[s]].term) {
      var p :| 0 <= p < |queue| && queue[p] == s;
      RootIsLeast(queue, RankSeq(lists, keys), p);
      assert keys[s] == KeyAt(lists, pos, s);
    }
    forall s: nat | s in rest ensures s in queue && StandsOn(lists, pos, s, t) {
      assert keys[s] == KeyAt(lists, pos, s);
    }
  }

  /** Advancing a sub that stood on `t` takes it beyond `t`. */
  lemma StillBeyond(lists: seq<seq<Entry>>, pos: seq<nat>, queue: seq<nat>, t: Term, rest: set<nat>, root: nat,
                    pos': seq<nat>, queue': seq<nat>)
    requires SortedLists(lists) && BeyondBut(lists, pos, queue, t, rest) && root in rest
    requires (forall s: nat :: s in queue <==> Live(lists, pos, s))
      && (forall s: nat :: s in queue' <==> Live(lists, pos', s))
    requires root < |pos| && pos' == pos[root := pos[root] + 1]
    ensures BeyondBut(lists, pos', queue', t, rest - {root})
  {
    assert SortedList(lists[root]);
  }

  lemma QueueFits(lists: seq<seq<Entry>>, pos: seq<nat>, queue: seq<nat>)
    requires Distinct(queue) && forall s: nat :: s in queue <==> Live(lists, pos, s)
    ensures |queue| <= |lists|
  {
    forall i | 0 <= i < |queue| ensures queue[i] < |lists| {
      assert queue[i] in queue;
    }
    Pigeonhole(queue, |lists|);
  }

  /** The entries tied with the root are the subs that stand on the least head. */
  lemma TopsStand(lists: seq<seq<Entry>>, pos: seq<nat>, keys: seq<Term>, queue: seq<nat>, tops: seq<nat>)
    requires Core(lists, pos, keys, queue) && |queue| > 0 && AreTops(queue, keys, tops)
    ensures queue[0] in queue && IsLeastHead(lists, pos, keys[queue[0]])
    ensures forall s: nat :: s in tops <==> StandsOn(lists, pos, s, keys[queue[0]])
  {
    var t := keys[queue[0]];
    assert queue[0] in queue && StandsOn(lists, pos, queue[0], t);
    KeyedRanked(lists, pos, keys);
    forall s: nat | Live(lists, pos, s) ensures !Less(lists[s][pos[s]].term, t) {
      var p :| 0 <= p < |queue| && queue[p] == s;
      RootIsLeast(queue, RankSeq(lists, keys), p);
      assert keys[s] == KeyAt(lists, pos, s);
    }
    forall s: nat ensures s in tops <==> StandsOn(lists, pos, s, t) {
      if s in queue { assert keys[s] == KeyAt(lists, pos, s); }
    }
  }

  /** The subs before `n` that have terms at all. */
  ghost predicate QueuedBefore(lists: seq<seq<Entry>>, pos: seq<nat>, queue: seq<nat>, n: nat) {
    Distinct(queue) && forall s: nat :: s in queue <==> s < n && Live(lists, pos, s)
  }

  lemma KeyedOutside(lists: seq<seq<Entry>>, keys: seq<Term>, queue: seq<nat>, n: nat, key: Term)
    requires n < |keys| && Ordered(queue, RankSeq(lists, keys)) && n !in queue
    ensures Ordered(queue, RankSeq(lists, keys[n := key]))
  {
    var rank, rank' := RankSeq(lists, keys), RankSeq(lists, keys[n := key]);
    forall j | 0 < j < |queue| ensures Above(queue, rank', j) {
      assert Above(queue, rank, j) && queue[j] in queue && queue[Parent(j)] in queue;
    }
  }

  lemma Queued(lists: seq<seq<Entry>>, pos: seq<nat>, queue: seq<nat>, n: nat, r: seq<nat>)
    requires QueuedBefore(lists, pos, queue, n) && Live(lists, pos, n) && multiset(r) == multiset(queue) + multiset{n}
    ensures QueuedBefore(lists, pos, r, n + 1)
  {
    assert Distinct(queue + [n]);
    PermutedDistinct(queue + [n], r);
    forall s: nat ensures s in r <==> s < n + 1 && Live(lists, pos, s) {
      assert s in r <==> s in multiset(r);
      assert s in queue <==> s in multiset(queue);
    }
  }

  /** Queues every sub that is not exhausted, with the term it stands on. */
  method BuildQueue(lists: seq<seq<Entry>>, pos: seq<nat>) returns (keys: seq<Term>, queue: seq<nat>)
    requires |pos| == |lists| && forall s :: 0 <= s < |lists| ==> pos[s] <= |lists[s]|
    ensures Core(lists, pos, keys, queue)
  {
    keys, queue := seq(|lists|, _ => []), [];
    for n := 0 to |lists|
      invariant |keys| == |lists| && QueuedBefore(lists, pos, queue, n) && Ordered(queue, RankSeq(lists, keys))
      invariant forall s :: 0 <= s < |lists| ==> keys[s] == if s < n then KeyAt(lists, pos, s) else []
    {
      if pos[n] < |lists[n]| {
        var key := lists[n][pos[n]].term;
        KeyedOutside(lists, keys, queue, n, key);
        keys := keys[n := key];
        UniverseHas(lists, pos, keys);
        KeysRanked(lists, keys);
        var r := Push(queue, n, keys, RankSeq(lists, keys));
        Queued(lists, pos, queue, n, r);
        queue := r;
      }
    }
  }

  // ----- seek_ceil -----

  /** `subs` are exactly those that stand on `t`. */
  ghost predicate AllOn(lists: seq<seq<Entry>>, pos: seq<nat>, t: Term, subs: seq<nat>) {
    forall s: nat :: s in subs <==> StandsOn(lists, pos, s, t)
  }

  datatype SeekStatus = Found | NotFound | End

  /** `p` is the place of the first term of `l` that is not below `t`. */
  ghost predicate IsCeil(l: seq<Entry>, t: Term, p: nat) {
    p <= |l| && (forall k :: 0 <= k < p ==> Less(l[k].term, t)) && (p < |l| ==> !Less(l[p].term, t))
  }

  /** Where `seek_ceil` moves a sub iterator. */
  function Ceil(l: seq<Entry>, t: Term, i: nat): (p: nat)
    requires i <= |l| && forall k :: 0 <= k < i ==> Less(l[k].term, t)
    ensures IsCeil(l, t, p)
    decreases |l| - i
  {
    if i < |l| && Less(l[i].term, t) then Ceil(l, t, i + 1) else i
  }

  /** Every sub stands where a seek to `t` puts it. */
  ghost predicate Sought(lists: seq<seq<Entry>>, pos: seq<nat>, t: Term) {
    |pos| == |lists| && forall s :: 0 <= s < |lists| ==> IsCeil(lists[s], t, pos[s])
  }

  /** A sub that a seek to an earlier term has put on a term not below `t` need not move. */
  lemma NoNeedToSeek(l: seq<Entry>, last: Term, t: Term, p: nat)
    requires IsCeil(l, last, p) && !Less(t, last) && (p < |l| ==> !Less(l[p].term, t))
    ensures IsCeil(l, t, p)
  {
    LessTotal(last, t);
    forall k | 0 <= k < p ensures Less(l[k].term, t) {
      if last != t {
        LessTransitive(l[k].term, last, t);
      }
    }
  }

  /** A sub that stands on a term at or after a term with bytes has a current term with bytes. */
  lemma NotEmptyTerm(t: Term, last: Term)
    requires last != [] && !Less(t, last)
    ensures t != []
  {
  }

  /** One sub of `seek_ceil`; after an earlier seek it is moved only if it is still below `t`. */
  method SeekSub(l: seq<Entry>, p: nat, key: Term, t: Term, seekOpt: bool, ghost last: Term)
    returns (q: nat, status: SeekStatus)
    requires seekOpt ==> key == (if p < |l| then l[p].term else [])
    requires seekOpt ==> last != [] && !Less(t, last) && IsCeil(l, last, p)
    ensures IsCeil(l, t, q)
    ensures status == if q == |l| then End else if l[q].term == t then Found else NotFound
  {
    if seekOpt {
      if p < |l| {
        NotEmptyTerm(l[p].term, last);
      }
      if key != [] {
        if t == key {
          LessIrreflexive(t);
          NoNeedToSeek(l, last, t, p);
          return p, Found;
        } else if Less(t, key) {
          if Less(key, t) {
            LessTransitive(t, key, t);
            LessIrreflexive(t);
          }
          NoNeedToSeek(l, last, t, p);
          return p, NotFound;
        }
      } else {
        NoNeedToSeek(l, last, t, p);
        return p, End;
      }
    }
    q := Ceil(l, t, 0);
    status := if q == |l| then End else if l[q].term == t then Found else NotFound;
  }

  lemma UniverseHas(lists: seq<seq<Entry>>, pos: seq<nat>, keys: seq<Term>)
    requires |keys| == |lists| && forall s :: 0 <= s < |lists| ==> keys[s] == KeyAt(lists, pos, s) || keys[s] == []
    ensures forall s :: 0 <= s < |keys| ==> keys[s] in Universe(lists)
  {
    forall s | 0 <= s < |keys| ensures keys[s] in Universe(lists) {
      if Live(lists, pos, s) {
        assert lists[s][pos[s]].term in Universe(lists);
      }
    }
  }

  // ----- seek_exact -----

  ghost predicate Holds(l: seq<Entry>, t: Term) {
    exists k :: 0 <= k < |l| && l[k].term == t
  }

  ghost predicate HasTerm(lists: seq<seq<Entry>>, t: Term) {
    exists s :: 0 <= s < |lists| && Holds(lists[s], t)
  }

  lemma HoldsAt(l: seq<Entry>, k: nat)
    requires k < |l|
    ensures Holds(l, l[k].term)
  {
  }

  lemma StandsHas(lists: seq<seq<Entry>>, pos: seq<nat>, s: nat, t: Term)
    requires StandsOn(lists, pos, s, t)
    ensures HasTerm(lists, t)
  {
    assert Holds(lists[s], t);
  }

  lemma FoundHas(lists: seq<seq<Entry>>, found: seq<nat>, t: Term)
    requires forall s: nat :: s in found <==> s < |lists| && Holds(lists[s], t)
    ensures |found| > 0 <==> HasTerm(lists, t)
  {
    if |found| > 0 {
      assert found[0] in found;
    }
    if HasTerm(lists, t) {
      var s: nat :| s < |lists| && Holds(lists[s], t);
      assert s in found;
    }
  }

  lemma CeilHolds(l: seq<Entry>, t: Term, p: nat)
    requires SortedList(l) && IsCeil(l, t, p)
    ensures Holds(l, t) <==> p < |l| && l[p].term == t
  {
    if Holds(l, t) {
      var k :| 0 <= k < |l| && l[k].term == t;
      LessIrreflexive(t);
      assert k >= p;
    }
  }

  lemma NotAfter(key: Term, t: Term)
    requires t == key || Less(t, key)
    ensures !Less(key, t)
  {
    LessIrreflexive(t);
    if Less(key, t) && Less(t, key) {
      LessTransitive(t, key, t);
    }
  }

  /** One sub of `seek_exact`: whether it has the term. A sub without the term is left somewhere, at
      `drift`; after an earlier seek it is not moved if it is already past the term. */
  method SeekExactSub(l: seq<Entry>, p: nat, key: Term, t: Term, seekOpt: bool, drift: nat, ghost last: Term)
    returns (q: nat, found: bool)
    requires SortedList(l) && p <= |l| && drift <= |l|
    requires seekOpt ==> key == (if p < |l| then l[p].term else [])
    requires seekOpt ==> last != [] && !Less(t, last) && IsCeil(l, last, p)
    ensures q <= |l| && (found <==> Holds(l, t)) && (found <==> q < |l| && l[q].term == t)
  {
    hide Holds, SortedList;
    if drift < |l| {
      HoldsAt(l, drift);
    }
    if seekOpt {
      if p < |l| {
        NotEmptyTerm(l[p].term, last);
      }
      if key == [] || t == key || Less(t, key) {
        if key != [] {
          NotAfter(key, t);
        }
        NoNeedToSeek(l, last, t, p);
        CeilHolds(l, t, p);
        return p, key != [] && t == key;
      }
    }
    var c := Ceil(l, t, 0);
    CeilHolds(l, t, c);
    found := c < |l| && l[c].term == t;
    q := if found then c else drift;
  }

  /** `pos` is behind all terms up to `t`, and before all others. */
  ghost predicate IsPast(l: seq<Entry>, t: Term, p: nat) {
    p <= |l| && (forall k :: 0 <= k < p ==> !Less(t, l[k].term)) && (forall k :: p <= k < |l| ==> Less(t, l[k].term))
  }

  ghost predicate Past(lists: seq<seq<Entry>>, pos: seq<nat>, t: Term) {
    |pos| == |lists| && forall s :: 0 <= s < |lists| ==> IsPast(lists[s], t, pos[s])
  }

  /** `h` is the least term of all from `t` on. */
  ghost predicate IsLeastFrom(lists: seq<seq<Entry>>, t: Term, h: Term) {
    HasTerm(lists, h) && !Less(h, t) && forall u :: HasTerm(lists, u) && !Less(u, t) ==> !Less(u, h)
  }

  /** Behind `t` the least head is the least term above `t`. */
  lemma LeastAbove(lists: seq<seq<Entry>>, pos: seq<nat>, t: Term, r: Term)
    requires SortedLists(lists) && Past(lists, pos, t) && IsLeastHead(lists, pos, r)
    ensures HasTerm(lists, r) && Less(t, r) && forall u :: HasTerm(lists, u) && Less(t, u) ==> !Less(u, r)
  {
    var s: nat :| StandsOn(lists, pos, s, r);
    assert IsPast(lists[s], t, pos[s]) && Holds(lists[s], r);
    forall u | HasTerm(lists, u) && Less(t, u) ensures !Less(u, r) {
      var i :| 0 <= i < |lists| && Holds(lists[i], u);
      var k :| 0 <= k < |lists[i]| && lists[i][k].term == u;
      assert IsPast(lists[i], t, pos[i]);
      NotBelowHead(lists, pos, i, k, r);
    }
  }

  /** No term from the head of a sub on is below the least head. */
  lemma NotBelowHead(lists: seq<seq<Entry>>, pos: seq<nat>, s: nat, k: nat, r: Term)
    requires SortedLists(lists) && IsLeastHead(lists, pos, r) && s < |lists| && s < |pos| && pos[s] <= k < |lists[s]|
    ensures !Less(lists[s][k].term, r)
  {
    var head, u := lists[s][pos[s]].term, lists[s][k].term;
    assert Live(lists, pos, s);
    if Less(u, r) {
      assert pos[s] < k ==> Less(head, u);
      if pos[s] < k {
        LessTransitive(head, u, r);
      }
    }
  }

  /** After a seek to `t` the least head is the least term from `t` on. */
  lemma SoughtLeast(lists: seq<seq<Entry>>, pos: seq<nat>, t: Term, c: Term, h: Term)
    requires SortedLists(lists) && Sought(lists, pos, t) && IsLeastHead(lists, pos, c) && IsLeastFrom(lists, t, h)
    ensures c == h
  {
    var s: nat :| StandsOn(lists, pos, s, c);
    assert IsCeil(lists[s], t, pos[s]) && Holds(lists[s], c);
    var i :| 0 <= i < |lists| && Holds(lists[i], h);
    var k :| 0 <= k < |lists[i]| && lists[i][k].term == h;
    assert IsCeil(lists[i], t, pos[i]);
    NotBelowHead(lists, pos, i, k, c);
    LessTotal(c, h);
  }

  lemma NoneFromEnd(lists: seq<seq<Entry>>, pos: seq<nat>, t: Term, h: Term)
    requires Sought(lists, pos, t) && forall s: nat :: !Live(lists, pos, s)
    ensures HasTerm(lists, h) ==> Less(h, t)
    ensures !IsLeastFrom(lists, t, h)
  {
    if HasTerm(lists, h) {
      var i :| 0 <= i < |lists| && Holds(lists[i], h);
      assert !Live(lists, pos, i);
      assert IsCeil(lists[i], t, pos[i]);
    }
  }

  lemma NotBelow(lists: seq<seq<Entry>>, pos: seq<nat>, t: Term, c: Term)
    requires Sought(lists, pos, t) && IsLeastHead(lists, pos, c)
    ensures !Less(c, t)
  {
    var s: nat :| StandsOn(lists, pos, s, c);
    assert IsCeil(lists[s], t, pos[s]);
  }

  lemma LeastIsItself(lists: seq<seq<Entry>>, t: Term)
    requires HasTerm(lists, t)
    ensures IsLeastFrom(lists, t, t)
  {
    LessIrreflexive(t);
  }

  /** Once the subs on the least head have moved on, all subs are past it. */
  lemma TopsPast(lists: seq<seq<Entry>>, before: seq<nat>, t: Term, c: Term, tops: seq<nat>, pos: seq<nat>)
    requires SortedLists(lists) && Sought(lists, before, t) && IsLeastHead(lists, before, c) && !Less(c, t)
    requires AllOn(lists, before, c, tops) && Advanced(before, tops, pos)
    ensures Past(lists, pos, c)
  {
    forall s | 0 <= s < |lists| ensures IsPast(lists[s], c, pos[s]) {
      assert IsCeil(lists[s], t, before[s]);
      SubPast(lists, before, t, c, s, pos[s], s in tops);
    }
  }

  lemma SubPast(lists: seq<seq<Entry>>, before: seq<nat>, t: Term, c: Term, s: nat, p: nat, top: bool)
    requires SortedLists(lists) && IsLeastHead(lists, before, c) && s < |lists| && s < |before|
    requires IsCeil(lists[s], t, before[s]) && !Less(c, t) && (top <==> StandsOn(lists, before, s, c))
    requires p == before[s] + if top then 1 else 0
    ensures IsPast(lists[s], c, p)
  {
    var l, b := lists[s], before[s];
    LessIrreflexive(c);
    forall k | 0 <= k < b ensures !Less(c, l[k].term) {
      if Less(c, l[k].term) {
        LessTransitive(c, l[k].term, t);
      }
    }
    forall k | p <= k < |l| ensures Less(c, l[k].term) {
      NotBelowHead(lists, before, s, k, c);
      LessTotal(c, l[k].term);
      assert k > b ==> Less(l[b].term, l[k].term);
    }
  }

  class MultiTermIterator {
    const lists: seq<seq<Entry>>
    /** Where each sub iterator stands. */
    var pos: seq<nat>
    /** The `current` term of each sub; empty once it is exhausted. */
    var keys: seq<Term>
    var queue: seq<nat>
    var topIndexes: seq<nat>
    var numTop: nat
    var current: Option<Term>
    /** The term of the last seek; empty if the iterator has moved since. */
    var lastSeek: Term
    /** The last call was an exact seek, so only the subs that have the term are in place. */
    var lastSeekExact: bool

    ghost predicate Valid()
      reads this
    {
      && SortedLists(lists) && Core(lists, pos, keys, queue)
      && |topIndexes| == |lists| && numTop <= |lists|
      && (numTop > 0 ==> |queue| > 0 && BelowAll(queue, |keys|) && AreTops(queue, keys, topIndexes[..numTop]))
      && (lastSeek != [] ==> Sought(lists, pos, lastSeek))
      && !lastSeekExact && (current.Some? ==> HasTerm(lists, current.value))
    }

    /** The state after an exact seek. */
    ghost predicate Exact()
      reads this
    {
      && SortedLists(lists) && |pos| == |keys| == |topIndexes| == |lists| && numTop <= |lists|
      && (forall s :: 0 <= s < |lists| ==> pos[s] <= |lists[s]|)
      && lastSeekExact && lastSeek == [] && (current.Some? ==> HasTerm(lists, current.value))
    }

    /** `new` and `reset`: every sub iterator is moved to its first term, if it has one. */
    constructor (lists: seq<seq<Entry>>)
      requires SortedLists(lists)
      ensures Valid() && this.lists == lists && numTop == 0 && pos == seq(|lists|, _ => 0) && current == None
    {
      this.lists := lists;
      pos := seq(|lists|, _ => 0);
      topIndexes, numTop, current, lastSeek, lastSeekExact := seq(|lists|, _ => 0), 0, None, [], false;
      var firsts, heap := BuildQueue(lists, seq(|lists|, _ => 0));
      keys, queue := firsts, heap;
    }

    /** The subs that stand on the current term. */
    function Tops(): seq<nat>
      reads this
      requires numTop <= |topIndexes|
    {
      topIndexes[..numTop]
    }

    /** Advances the sub at the root and restores the heap: one round of `push_top`. */
    method AdvanceRoot()
      requires Core(lists, pos, keys, queue) && |queue| > 0
      modifies `pos, `keys, `queue
      ensures Core(lists, pos, keys, queue)
      ensures pos == old(pos)[old(queue)[0] := old(pos)[old(queue)[0]] + 1]
    {
      var root := queue[0];
      assert root in queue;
      var pos' := pos[root := pos[root] + 1];
      var key := KeyAt(lists, pos', root);
      AdvancedKeyed(lists, pos, keys, root);
      var queue' := RestoreHeap(lists, pos', keys, queue, key, !Live(lists, pos', root));
      QueueMembers(lists, pos, root, queue, queue');
      pos, keys, queue := pos', keys[root := key], queue';
    }

    /** Moves every sub that stands on the current term to its next term. */
    method PushTop()
      requires Valid() && lastSeek == []
      modifies `pos, `keys, `queue, `numTop
      ensures Valid() && numTop == 0 && topIndexes == old(topIndexes)
      ensures Advanced(old(pos), old(Tops()), pos)
    {
      hide Core, BeyondBut, SortedLists;
      ghost var tops, pos0 := Tops(), pos;
      if numTop == 0 {
        NoneMoved(pos, tops);
        return;
      }
      ghost var rest := Members(tops);
      ghost var t := keys[queue[0]];
      TopsStart(lists, pos, keys, queue, tops, t, rest);
      var i := 0;
      while i < numTop
        invariant 0 <= i <= numTop && unchanged(`numTop) && unchanged(`topIndexes)
        invariant Pushing(pos0, tops, t, rest)
        invariant |rest| == numTop - i
      {
        ghost var root := AdvanceTop(pos0, tops, t, rest);
        rest := rest - {root};
        i := i + 1;
      }
      assert rest == {};
      AllPushed(pos0, tops, pos);
      numTop := 0;
    }

    /** `push_top` has moved all of `tops` but those in `rest`, which still stand on `t`. */
    ghost predicate Pushing(pos0: seq<nat>, tops: seq<nat>, t: Term, rest: set<nat>)
      reads this
    {
      && SortedLists(lists) && Core(lists, pos, keys, queue)
      && AdvancedBut(pos0, tops, rest, pos) && BeyondBut(lists, pos, queue, t, rest)
    }

    method AdvanceTop(ghost pos0: seq<nat>, ghost tops: seq<nat>, ghost t: Term, ghost rest: set<nat>)
      returns (ghost root: nat)
      requires Pushing(pos0, tops, t, rest) && rest != {}
      modifies `pos, `keys, `queue
      ensures root in rest && Pushing(pos0, tops, t, rest - {root})
    {
      RootIsTop(lists, pos, keys, queue, t, rest);
      root := queue[0];
      ghost var pos1, queue1 := pos, queue;
      AdvanceRoot();
      StillBeyond(lists, pos1, queue1, t, rest, root, pos, queue);
    }

    /** Gathers the subs that stand on the least term. */
    method PullTop()
      requires Valid() && numTop == 0 && |queue| > 0
      modifies `topIndexes, `numTop, `current
      ensures Valid() && numTop > 0
      ensures current.Some? && IsLeastHead(lists, pos, current.value)
      ensures forall s: nat :: s in Tops() <==> StandsOn(lists, pos, s, current.value)
    {
      KeyedRanked(lists, pos, keys);
      QueueFits(lists, pos, queue);
      topIndexes, numTop := FillTop(queue, keys, RankSeq(lists, keys), topIndexes);
      TopsStand(lists, pos, keys, queue, Tops());
      current := Some(keys[queue[0]]);
      assert topIndexes[0] == Tops()[0];
    }

    /** One step of the merge: the subs on the current term move on, and the least term any
        sub then stands on becomes the current one. After an exact seek all subs are first moved to
        the current term; an iterator that has none starts over, and passes the first term. */
    method Next() returns (r: Option<Term>)
      requires Valid() || Exact()
      modifies this
      ensures Valid() && r == current
      ensures !old(lastSeekExact) ==> Advanced(old(pos), old(Tops()), pos)
      ensures old(lastSeekExact && current.Some?) ==> Past(lists, pos, old(current).value)
      ensures old(lastSeekExact && current.None?) ==> forall h :: IsLeastFrom(lists, [], h) ==> Past(lists, pos, h)
      ensures r.None? <==> forall s: nat :: !Live(lists, pos, s)
      ensures r.Some? ==> IsLeastHead(lists, pos, r.value)
      ensures forall s: nat :: s in Tops() <==> r.Some? && StandsOn(lists, pos, s, r.value)
    {
      if lastSeekExact {
        SeekAgain();
      } else {
        lastSeek := [];
        PushTop();
      }
      if |queue| > 0 {
        assert queue[0] in queue;
        PullTop();
      } else {
        current := None;
      }
      r := current;
    }

    /** The first part of `next` after an exact seek, and the `push_top` that follows. */
    method SeekAgain()
      requires Exact()
      modifies this
      ensures Valid() && numTop == 0 && lastSeek == []
      ensures old(current).Some? ==> Past(lists, pos, old(current).value)
      ensures old(current).None? ==> forall h :: IsLeastFrom(lists, [], h) ==> Past(lists, pos, h)
    {
      hide Core, AreTops, Sought, IsLeastHead, Past, AllOn, Advanced, IsLeastFrom, HasTerm, SortedLists;
      var t := if current.Some? then current.value else [];
      var status := SeekCeil(t);
      lastSeek := [];
      ghost var before, tops, c := pos, Tops(), current;
      PushTop();
      if status == End {
        forall h ensures !IsLeastFrom(lists, t, h) {
          NoneFromEnd(lists, before, t, h);
        }
      } else {
        NotBelow(lists, before, t, c.value);
        TopsPast(lists, before, t, c.value, tops, pos);
        forall h | IsLeastFrom(lists, t, h) ensures h == c.value {
          SoughtLeast(lists, before, t, c.value, h);
        }
      }
      if old(current).Some? {
        LeastIsItself(lists, t);
      }
    }

    /** `seek_exact`: found exactly if some sub has the term, and the tops are the subs that have it;
        if none has it the current term stays. `drift` is where the subs without it are left. */
    method SeekExact(text: Term, drift: seq<nat>) returns (r: bool)
      requires Valid() || Exact()
      requires |drift| == |lists| && forall s :: 0 <= s < |lists| ==> drift[s] <= |lists[s]|
      modifies this
      ensures Exact() && (r <==> HasTerm(lists, text)) && current == (if r then Some(text) else old(current))
      ensures forall s: nat :: s in Tops() <==> s < |lists| && Holds(lists[s], text)
      ensures AllOn(lists, pos, text, Tops())
      ensures forall s :: 0 <= s < |lists| ==> keys[s] == if Holds(lists[s], text) then text else old(keys[s])
    {
      hide Holds, HasTerm, Core, AreTops, Sought, AllOn, SortedLists, Distinct;
      var places, heads, found := SeekExactSubs(text, drift);
      FoundBelow(found, |lists|);
      FoundHas(lists, found, text);
      topIndexes := found + topIndexes[|found|..];
      assert topIndexes[..|found|] == found;
      queue, numTop, lastSeek, lastSeekExact := [], |found|, [], true;
      pos, keys := places, heads;
      if |found| > 0 {
        current := Some(text);
      }
      r := |found| > 0;
    }

    /** Where the subs go, their current terms, and which of them have the term. */
    method SeekExactSubs(text: Term, drift: seq<nat>) returns (places: seq<nat>, heads: seq<Term>, found: seq<nat>)
      requires Valid() || Exact()
      requires |drift| == |lists| && forall s :: 0 <= s < |lists| ==> drift[s] <= |lists[s]|
      ensures |places| == |heads| == |lists| && (forall s :: 0 <= s < |lists| ==> places[s] <= |lists[s]|)
      ensures Distinct(found) && forall s: nat :: s in found <==> s < |lists| && Holds(lists[s], text)
      ensures AllOn(lists, places, text, found)
      ensures forall s :: 0 <= s < |lists| ==> heads[s] == if Holds(lists[s], text) then text else keys[s]
    {
      hide Holds, Ordered, AreTops, Distinct;
      var seekOpt := lastSeek != [] && !Less(text, lastSeek);
      places, heads, found := [], [], [];
      NoneDistinct();
      for n := 0 to |lists|
        invariant |places| == |heads| == n && (forall s :: 0 <= s < n ==> places[s] <= |lists[s]|)
        invariant forall s :: 0 <= s < n ==> heads[s] == if Holds(lists[s], text) then text else keys[s]
        invariant Distinct(found) && forall s: nat :: s in found <==> s < n && Holds(lists[s], text)
        invariant forall s: nat :: s in found <==> StandsOn(lists, places, s, text)
      {
        var place, has := SeekExactSub(lists[n], pos[n], keys[n], text, seekOpt, drift[n], lastSeek);
        ghost var before := places;
        places := places + [place];
        heads := heads + [if has then text else keys[n]];
        ExactStands(lists, before, places, text, n);
        if has {
          PushDistinct(found, n);
          found := found + [n];
        }
      }
    }

    /** Moves every sub to its first term at or after `text`, and queues those that have one. */
    method MoveSubs(text: Term) returns (found: seq<nat>)
      requires Valid() || Exact()
      modifies this
      ensures Valid() && Sought(lists, pos, text) && lastSeek == text && numTop == 0
      ensures Distinct(found) && AllOn(lists, pos, text, found)
    {
      var places;
      places, found := SeekSubs(text);
      hide Sought, Core, AllOn;
      SoughtFits(lists, places, text);
      var heads, heap := BuildQueue(lists, places);
      numTop := 0;
      pos, keys, queue, lastSeek, lastSeekExact := places, heads, heap, text, false;
    }

    /** Makes the subs that found the term the tops. */
    method TakeFound(text: Term, found: seq<nat>)
      requires Valid() && Sought(lists, pos, text) && numTop == 0 && Distinct(found) && AllOn(lists, pos, text, found)
        && |found| > 0
      modifies `topIndexes, `numTop, `current
      ensures Valid() && Tops() == found && current == Some(text) && IsLeastHead(lists, pos, text)
    {
      hide Sought, Core, AllOn, AreTops, IsLeastHead, HasTerm;
      FoundFits(lists, pos, text, found);
      FoundAreTops(lists, pos, keys, queue, text, found);
      FoundStands(lists, pos, text, found);
      topIndexes := found + topIndexes[|found|..];
      assert topIndexes[..|found|] == found;
      numTop := |found|;
      current := Some(text);
    }

    /** `seek_ceil`: every sub goes to its first term at or after `text`; the least of these becomes
        the current term, and the tops are the subs that stand on it. */
    method SeekCeil(text: Term) returns (r: SeekStatus)
      requires Valid() || Exact()
      modifies this
      ensures Valid() && Sought(lists, pos, text) && lastSeek == text
      ensures r == End ==> numTop == 0 && forall s: nat :: !Live(lists, pos, s)
      ensures r != End ==>
        current.Some? && IsLeastHead(lists, pos, current.value) && AllOn(lists, pos, current.value, Tops())
      ensures r != End ==> (r == Found <==> current.value == text)
    {
      hide Sought, Core, AreTops, IsLeastHead;
      var found := MoveSubs(text);
      CoreQueue(lists, pos, keys, queue);
      if |found| > 0 {
        TakeFound(text, found);
        r := Found;
      } else if |queue| > 0 {
        PullTop();
        NoneFound(lists, pos, current.value, text, Tops());
        r := NotFound;
      } else {
        r := End;
      }
    }

    /** Where every sub goes, and which of them find the term itself. */
    method SeekSubs(text: Term) returns (places: seq<nat>, found: seq<nat>)
      requires Valid() || Exact()
      ensures Sought(lists, places, text) && Distinct(found) && AllOn(lists, places, text, found)
    {
      hide Ordered, AreTops, HasTerm, SortedList, Distinct;
      NoneDistinct();
      var seekOpt := lastSeek != [] && !Less(text, lastSeek);
      places, found := [], [];
      for n := 0 to |lists|
        invariant |places| == n && forall s :: 0 <= s < n ==> IsCeil(lists[s], text, places[s])
        invariant Distinct(found) && forall s: nat :: s in found <==> s < n && StandsOn(lists, places, s, text)
      {
        var place, status := SeekSub(lists[n], pos[n], keys[n], text, seekOpt, lastSeek);
        ghost var before := places;
        places := places + [place];
        forall s: nat | s < n ensures StandsOn(lists, places, s, text) <==> StandsOn(lists, before, s, text) {
        }
        if status == Found {
          PushDistinct(found, n);
          found := found + [n];
        }
      }
    }
  }

  lemma FoundStands(lists: seq<seq<Entry>>, pos: seq<nat>, text: Term, found: seq<nat>)
    requires AllOn(lists, pos, text, found) && |found| > 0
    ensures HasTerm(lists, text)
  {
    assert found[0] in found;
    StandsHas(lists, pos, found[0], text);
  }

  lemma NoneDistinct()
    ensures Distinct([])
  {
  }

  lemma FoundBelow(found: seq<nat>, n: nat)
    requires Distinct(found) && forall s :: s in found ==> s < n
    ensures |found| <= n
  {
    forall i | 0 <= i < |found| ensures found[i] < n {
      assert found[i] in found;
    }
    Pigeonhole(found, n);
  }

  lemma ExactStands(lists: seq<seq<Entry>>, before: seq<nat>, places: seq<nat>, text: Term, n: nat)
    requires |before| == n < |lists| && |places| == n + 1 && places[..n] == before
    ensures forall s: nat :: StandsOn(lists, places, s, text) <==>
      StandsOn(lists, before, s, text) || (s == n && places[n] < |lists[n]| && lists[n][places[n]].term == text)
  {
    assert forall s :: 0 <= s < n ==> places[s] == before[s];
  }

  /** If no sub stands on the term, the least head is another one. */
  lemma NoneFound(lists: seq<seq<Entry>>, pos: seq<nat>, head: Term, text: Term, tops: seq<nat>)
    requires IsLeastHead(lists, pos, head) && AllOn(lists, pos, text, [])
    ensures head != text
  {
    var s: nat :| StandsOn(lists, pos, s, head);
    assert s !in [];
  }

  lemma PushDistinct(s: seq<nat>, n: nat)
    requires Distinct(s) && forall x :: x in s ==> x < n
    ensures Distinct(s + [n])
  {
    forall i | 0 <= i < |s| ensures s[i] != n {
      assert s[i] in s;
    }
  }

  lemma CoreQueue(lists: seq<seq<Entry>>, pos: seq<nat>, keys: seq<Term>, queue: seq<nat>)
    requires Core(lists, pos, keys, queue)
    ensures |pos| == |keys| == |lists| && |queue| <= |lists| && forall s: nat :: s in queue <==> Live(lists, pos, s)
  {
    QueueFits(lists, pos, queue);
  }

  lemma SoughtFits(lists: seq<seq<Entry>>, places: seq<nat>, text: Term)
    requires Sought(lists, places, text)
    ensures |places| == |lists| && forall s :: 0 <= s < |lists| ==> places[s] <= |lists[s]|
  {
  }

  lemma FoundFits(lists: seq<seq<Entry>>, places: seq<nat>, text: Term, found: seq<nat>)
    requires Distinct(found) && AllOn(lists, places, text, found)
    ensures |found| <= |lists|
  {
    forall i | 0 <= i < |found| ensures found[i] < |lists| {
      assert found[i] in found;
    }
    Pigeonhole(found, |lists|);
  }

  /** If some sub found the term itself, that is the least of all heads. */
  lemma FoundAreTops(lists: seq<seq<Entry>>, places: seq<nat>, keys: seq<Term>, queue: seq<nat>, text: Term,
                     found: seq<nat>)
    requires Core(lists, places, keys, queue) && Sought(lists, places, text) && Distinct(found) && |found| > 0
    requires AllOn(lists, places, text, found)
    ensures |queue| > 0 && BelowAll(queue, |keys|) && keys[queue[0]] == text && AreTops(queue, keys, found)
    ensures IsLeastHead(lists, places, text)
  {
    var f := found[0];
    assert f in found && f in queue;
    forall i | 0 <= i < |queue| ensures queue[i] < |keys| {
      assert queue[i] in queue;
    }
    var root := queue[0];
    assert root in queue;
    KeyedRanked(lists, places, keys);
    var p :| 0 <= p < |queue| && queue[p] == f;
    RootIsLeast(queue, RankSeq(lists, keys), p);
    assert keys[f] == KeyAt(lists, places, f) == text;
    assert keys[root] == KeyAt(lists, places, root);
    LessTotal(keys[root], text);
    forall s ensures s in found <==> s in queue && keys[s] == text {
      if s in queue { assert keys[s] == KeyAt(lists, places, s); }
    }
  }

  // ----- next after an exact seek -----

  lemma NoneAbove(lists: seq<seq<Entry>>, pos: seq<nat>, t: Term)
    requires Past(lists, pos, t) && forall s: nat :: !Live(lists, pos, s)
    ensures forall u :: HasTerm(lists, u) ==> !Less(t, u)
  {
    forall u | HasTerm(lists, u) ensures !Less(t, u) {
      var i :| 0 <= i < |lists| && Holds(lists[i], u);
      assert !Live(lists, pos, i);
      assert IsPast(lists[i], t, pos[i]);
    }
  }

  /** After a term has been sought exactly and found, `next` gives the least term above it. */
  method NextAfterExact(it: MultiTermIterator, text: Term, drift: seq<nat>) returns (found: bool, r: Option<Term>)
    requires it.Valid() || it.Exact()
    requires |drift| == |it.lists| && forall s :: 0 <= s < |it.lists| ==> drift[s] <= |it.lists[s]|
    modifies it
    ensures found <==> HasTerm(it.lists, text)
    ensures found && r.Some? ==> HasTerm(it.lists, r.value) && Less(text, r.value)
    ensures found && r.Some? ==> forall u :: HasTerm(it.lists, u) && Less(text, u) ==> !Less(u, r.value)
    ensures found && r.None? ==> forall u :: HasTerm(it.lists, u) ==> !Less(text, u)
  {
    hide HasTerm, Past, IsLeastHead, Core, AreTops, Sought;
    found := it.SeekExact(text, drift);
    r := it.Next();
    if found {
      if r.Some? {
        LeastAbove(it.lists, it.pos, text, r.value);
      } else {
        NoneAbove(it.lists, it.pos, text);
      }
    }
  }

  lemma LessTwo()
    ensures Less([97], [98]) && !Less([98], [97]) && !Less([97], [97])
  {
  }

  lemma LeastOfTwo(lists: seq<seq<Entry>>)
    requires lists == [[Entry(0, [97]), Entry(1, [98])]]
    ensures SortedLists(lists) && IsLeastFrom(lists, [], [97]) && !HasTerm(lists, [99])
  {
    assert !Holds(lists[0], [99]);
    LessTwo();
    HoldsAt(lists[0], 0);
    assert lists[0][0].term == [97];
    forall u | HasTerm(lists, u) ensures !Less(u, [97]) {
      var i :| 0 <= i < |lists| && Holds(lists[i], u);
      var k :| 0 <= k < |lists[i]| && lists[i][k].term == u;
      assert u == [97] || u == [98];
    }
  }

  lemma SecondHead(lists: seq<seq<Entry>>, pos: seq<nat>, r: Option<Term>)
    requires lists == [[Entry(0, [97]), Entry(1, [98])]] && Past(lists, pos, [97])
    requires r.None? <==> forall s: nat :: !Live(lists, pos, s)
    requires r.Some? ==> IsLeastHead(lists, pos, r.value)
    ensures r == Some([98])
  {
    var l, p := lists[0], pos[0];
    assert IsPast(l, [97], p);
    LessTwo();
    assert l[0].term == [97] && l[1].term == [98];
    assert p == 1;
    assert Live(lists, pos, 0);
    var s: nat :| StandsOn(lists, pos, s, r.value);
    assert s == 0;
  }

  /** An exact seek that fails on a new iterator over "a" and "b": `next` gives "b". */
  method FirstTermPassed() returns (r: Option<Term>)
    ensures r == Some([98])
  {
    hide HasTerm, Past, IsLeastHead, IsLeastFrom, Core, AreTops, Sought, Live, AllOn, Less;
    var lists: seq<seq<Entry>> := [[Entry(0, [97]), Entry(1, [98])]];
    LeastOfTwo(lists);
    var it := new MultiTermIterator(lists);
    var found := it.SeekExact([99], [0]);
    r := it.Next();
    SecondHead(lists, it.pos, r);
  }
}
