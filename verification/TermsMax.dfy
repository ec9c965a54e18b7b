/** The greatest term of a field, found byte by byte with `seek_ceil` alone (terms.rs). */
module TermsMax {
  import opened BitMath
  import opened Lex
  import opened Wrappers

  /** `seek_ceil` answers `End`: no term is at or after `t`. */
  predicate AtEnd(terms: seq<Term>, t: Term) {
    forall i :: 0 <= i < |terms| ==> Less(terms[i], t)
  }

  /** Only the greatest term matters. */
  lemma EndByGreatest(terms: seq<Term>, t: Term)
    requires Increasing(terms) && terms != []
    ensures AtEnd(terms, t) <==> Less(terms[|terms| - 1], t)
  {
    var g := terms[|terms| - 1];
    if Less(g, t) {
      forall i | 0 <= i < |terms| ensures Less(terms[i], t) {
        if i < |terms| - 1 {
          LessTransitive(terms[i], g, t);
        }
      }
    }
  }

  // ----- the greatest term and its prefixes -----

  /** While the prefix is one of the greatest term, the next byte decides. */
  lemma {:induction false} NextByte(g: Term, p: Term, d: byte)
    requires |p| < |g| && g[..|p|] == p
    ensures Less(g, p + [d]) <==> g[|p|] < d
  {
    if p != [] {
      assert g[0] == g[..|p|][0] == p[0];
      assert g[1..][..|p| - 1] == p[1..];
      NextByte(g[1..], p[1..], d);
      assert (p + [d])[1..] == p[1..] + [d];
    } else {
      assert (p + [d])[1..] == [];
    }
  }

  lemma {:induction false} BeyondGreatest(g: Term, d: byte)
    ensures Less(g, g + [d])
  {
    if g != [] {
      BeyondGreatest(g[1..], d);
      assert (g + [d])[1..] == g[1..] + [d];
    }
  }

  /** The prefix has left the greatest term behind at some byte, and is below it there. */
  ghost predicate FallenBehind(g: Term, p: Term, k: nat) {
    k < |g| && k < |p| && p[..k] == g[..k] && p[k] < g[k]
  }

  lemma {:induction false} StaysBehind(g: Term, p: Term, k: nat, d: byte)
    requires FallenBehind(g, p, k)
    ensures !Less(g, p + [d]) && FallenBehind(g, p + [d], k)
  {
    if k > 0 {
      assert p[0] == p[..k][0] == g[..k][0] == g[0];
      assert p[1..][..k - 1] == p[..k][1..] == g[..k][1..] == g[1..][..k - 1];
      StaysBehind(g[1..], p[1..], k - 1, d);
      assert (p + [d])[1..] == p[1..] + [d];
    }
    assert (p + [d])[..k] == p[..k];
  }

  // ----- one byte -----

  /** The highest byte up to `d`, but never 0xFF, after which there still is a term. */
  ghost function Highest(g: Term, p: Term, d: nat): (r: Option<byte>)
    requires d < 255
    ensures r.None? ==> Less(g, p + [0])
    ensures r.Some? ==> r.value <= d && !Less(g, p + [r.value])
  {
    if !Less(g, p + [d]) then Some(d) else if d == 0 then None else Highest(g, p, d - 1)
  }

  ghost function NextDigit(g: Term, p: Term): Option<byte> {
    Highest(g, p, 254)
  }

  lemma {:induction false} HighestIs(g: Term, p: Term, d: nat, e: nat)
    requires e <= d < 255 && !Less(g, p + [e]) && forall f: nat :: e < f <= d ==> Less(g, p + [f])
    ensures Highest(g, p, d) == Some(e)
  {
    if e < d {
      assert Less(g, p + [d]);
      HighestIs(g, p, d - 1, e);
    }
  }

  lemma {:induction false} HighestNone(g: Term, p: Term, d: nat)
    requires d < 255 && forall f: nat :: f <= d ==> Less(g, p + [f])
    ensures Highest(g, p, d) == None
  {
    if d > 0 { HighestNone(g, p, d - 1); }
  }

  /** Bytes that are too high stay too high. */
  lemma Higher(g: Term, p: Term, d: byte, e: byte)
    requires Less(g, p + [d]) && d <= e
    ensures Less(g, p + [e])
  {
    if d < e {
      LessLast(p, d, e);
      LessTransitive(g, p + [d], p + [e]);
    }
  }

  lemma {:induction false} LessLast(p: Term, d: byte, e: byte)
    requires d < e
    ensures Less(p + [d], p + [e])
  {
    if p != [] {
      LessLast(p[1..], d, e);
      assert (p + [d])[1..] == p[1..] + [d] && (p + [e])[1..] == p[1..] + [e];
    }
  }

  /** The binary search for one byte, over the answers of `seek_ceil`. */
  method SearchDigit(terms: seq<Term>, p: Term, ghost g: Term) returns (r: Option<byte>)
    requires Increasing(terms) && terms != [] && g == terms[|terms| - 1]
    ensures r == NextDigit(g, p)
  {
    var low, high := 0, 255;
    while true
      invariant 0 <= low < high <= 255 && (low > 0 ==> !Less(g, p + [low])) && (high < 255 ==> Less(g, p + [high]))
      decreases high - low
    {
      var mid := (low + high) / 2;
      var scratch := p + [mid];
      EndByGreatest(terms, scratch);
      if AtEnd(terms, scratch) {
        if mid == 0 {
          forall f: nat | f <= 254 ensures Less(g, p + [f]) {
            Higher(g, p, 0, f);
          }
          HighestNone(g, p, 254);
          return None;
        }
        high := mid;
      } else {
        if low == mid {
          break;
        }
        low := mid;
      }
    }
    forall f: nat | low < f <= 254 ensures Less(g, p + [f]) {
      Higher(g, p, high, f);
    }
    HighestIs(g, p, 254, low);
    return Some(low);
  }

  // ----- the whole search -----

  /** The prefix after `n` bytes, or nothing if the search has ended before. */
  ghost function Trail(g: Term, n: nat): Option<Term> {
    if n == 0 then Some([])
    else match Trail(g, n - 1)
      case None => None
      case Some(p) => (match NextDigit(g, p) case None => None case Some(d) => Some(p + [d]))
  }

  lemma DigitOfGreatest(g: Term, p: Term)
    requires |p| < |g| && g[..|p|] == p && g[|p|] < 255
    ensures NextDigit(g, p) == Some(g[|p|])
  {
    NextByte(g, p, g[|p|]);
    forall f: nat | g[|p|] < f <= 254 ensures Less(g, p + [f]) {
      NextByte(g, p, f);
    }
    HighestIs(g, p, 254, g[|p|]);
  }

  lemma DigitAfterGreatest(g: Term)
    ensures NextDigit(g, g) == None
  {
    forall f: nat | f <= 254 ensures Less(g, g + [f]) {
      BeyondGreatest(g, f);
    }
    HighestNone(g, g, 254);
  }

  lemma {:induction false} TrailFollows(g: Term, n: nat)
    requires n <= |g| && 255 !in g[..n]
    ensures Trail(g, n) == Some(g[..n])
  {
    if n > 0 {
      assert g[..n][..n - 1] == g[..n - 1];
      assert g[n - 1] == g[..n][n - 1];
      TrailFollows(g, n - 1);
      DigitOfGreatest(g, g[..n - 1]);
      assert g[..n] == g[..n - 1] + [g[n - 1]];
    }
  }

  /** At a byte 0xFF the search takes a lower one, and then goes on for ever. */
  lemma {:induction false} TrailNeverEnds(g: Term, k: nat, n: nat)
    requires k < |g| && g[k] == 255 && 255 !in g[..k] && n > k
    ensures Trail(g, n).Some? && FallenBehind(g, Trail(g, n).value, k)
  {
    if n == k + 1 {
      TrailFollows(g, k);
      var p := g[..k];
      NextByte(g, p, 254);
      assert (p + [254])[..k] == p;
    } else {
      TrailNeverEnds(g, k, n - 1);
      var p := Trail(g, n - 1).value;
      StaysBehind(g, p, k, 254);
    }
  }

  lemma {:induction false} FirstFF(g: Term, n: nat) returns (k: nat)
    requires n <= |g| && 255 in g[..n]
    ensures k < n && g[k] == 255 && 255 !in g[..k]
  {
    if 255 in g[..n - 1] {
      k := FirstFF(g, n - 1);
    } else {
      k := n - 1;
      assert g[..n] == g[..n - 1] + [g[n - 1]];
    }
  }

  /** The search ends exactly if the greatest term has no byte 0xFF. */
  lemma SearchEnds(g: Term)
    ensures (exists n :: Trail(g, n) == None) <==> 255 !in g
  {
    assert g[..|g|] == g;
    if 255 in g {
      var k := FirstFF(g, |g|);
      forall n: nat ensures Trail(g, n).Some? {
        if n > k {
          TrailNeverEnds(g, k, n);
        } else {
          NoFFBefore(g, n, k);
          TrailFollows(g, n);
        }
      }
    } else {
      TrailFollows(g, |g|);
      DigitAfterGreatest(g);
      assert Trail(g, |g| + 1) == None;
    }
  }

  lemma NoFFBefore(g: Term, n: nat, k: nat)
    requires n <= k <= |g| && 255 !in g[..k]
    ensures 255 !in g[..n]
  {
    assert g[..n] == g[..k][..n];
  }

  /** `max` of a field of unknown size, whose greatest term has no byte 0xFF. */
  method SearchMax(terms: seq<Term>) returns (r: Option<Term>)
    requires Increasing(terms) && (terms != [] ==> 255 !in terms[|terms| - 1])
    ensures r == if terms == [] then None else Some(terms[|terms| - 1])
  {
    if terms == [] {
      return None;
    }
    ghost var g := terms[|terms| - 1];
    var scratch: Term := [];
    while true
      invariant |scratch| <= |g| && g[..|scratch|] == scratch
      decreases |g| - |scratch|
    {
      var d := SearchDigit(terms, scratch, g);
      if |scratch| < |g| {
        DigitOfGreatest(g, scratch);
      } else {
        assert scratch == g;
        DigitAfterGreatest(g);
      }
      match d
      case None =>
        return Some(scratch);
      case Some(b) =>
        scratch := scratch + [b];
    }
  }
}
