/** Byte strings in lexicographic order, and order-preserving numbers for finite sets of them. */
module Lex {
  import opened BitMath

  type Term = seq<byte>

  predicate Less(a: Term, b: Term) {
    b != [] && (a == [] || a[0] < b[0] || (a[0] == b[0] && Less(a[1..], b[1..])))
  }

  lemma {:induction false} LessIrreflexive(a: Term)
    ensures !Less(a, a)
  {
    if a != [] { LessIrreflexive(a[1..]); }
  }

  lemma {:induction false} LessTransitive(a: Term, b: Term, c: Term)
    requires Less(a, b) && Less(b, c)
    ensures Less(a, c)
  {
    if a != [] && a[0] == b[0] == c[0] { LessTransitive(a[1..], b[1..], c[1..]); }
  }

  lemma {:induction false} LessTotal(a: Term, b: Term)
    ensures Less(a, b) || a == b || Less(b, a)
  {
    if a != [] && b != [] && a[0] == b[0] {
      LessTotal(a[1..], b[1..]);
      assert a == [a[0]] + a[1..] && b == [b[0]] + b[1..];
    }
  }

  ghost predicate Increasing(s: seq<Term>) {
    forall i, j :: 0 <= i < j < |s| ==> Less(s[i], s[j])
  }

  /** How many members of `universe` come before `t`. */
  ghost function Rank(universe: set<Term>, t: Term): nat {
    |set u | u in universe && Less(u, t)|
  }

  lemma RankMonotone(universe: set<Term>, a: Term, b: Term)
    requires a in universe && Less(a, b)
    ensures Rank(universe, a) < Rank(universe, b)
  {
    var below := set u | u in universe && Less(u, a);
    var below' := set u | u in universe && Less(u, b);
    forall u | u in below ensures u in below' { LessTransitive(u, a, b); }
    LessIrreflexive(a);
    assert a in below' && a !in below;
    SubsetSmaller(below, below' - {a});
  }

  lemma {:induction false} SubsetSmaller<T>(a: set<T>, b: set<T>)
    requires a <= b
    ensures |a| <= |b|
  {
    if a != {} {
      var x :| x in a;
      SubsetSmaller(a - {x}, b - {x});
    }
  }

  /** Ranks order a finite set of terms exactly as the terms are ordered. */
  lemma RankOrders(universe: set<Term>, a: Term, b: Term)
    requires a in universe && b in universe
    ensures Less(a, b) <==> Rank(universe, a) < Rank(universe, b)
    ensures a == b <==> Rank(universe, a) == Rank(universe, b)
  {
    LessTotal(a, b);
    if Less(a, b) {
      RankMonotone(universe, a, b);
    } else if Less(b, a) {
      RankMonotone(universe, b, a);
    }
  }
}
