/** The LZ4 block format: what a block of sequences means, how it is laid out in
    bytes, and how those bytes are read back. */
module Lz4Format {
  import opened BitMath

  const MIN_MATCH: nat := 4
  const MAX_DISTANCE: nat := 65536
  const LAST_LITERALS: nat := 5

  /** One sequence: some literals, then `matchLen` bytes copied from `dist` back. */
  datatype Sequence = Sequence(literals: seq<byte>, dist: nat, matchLen: nat)

  datatype Error = EndOfInput | OutOfBounds | LengthsMismatch

  datatype Result<+T> = Ok(value: T) | Err(error: Error)

  function Min(a: int, b: int): int {
    if a < b then a else b
  }

  // ----- meaning -----

  /** Appends `n` bytes, each the byte `dist` positions back in the growing output. */
  function CopyMatch(out: seq<byte>, dist: nat, n: nat): (r: seq<byte>)
    requires 1 <= dist <= |out|
    ensures |r| == |out| + n
    decreases n
  {
    if n == 0 then out else CopyMatch(out + [out[|out| - dist]], dist, n - 1)
  }

  lemma {:induction false} CopyMatchPrefix(out: seq<byte>, dist: nat, n: nat, r: seq<byte>)
    requires 1 <= dist <= |out| && r == CopyMatch(out, dist, n)
    ensures r[..|out|] == out
    decreases n
  {
    if n > 0 {
      var o := out + [out[|out| - dist]];
      CopyMatchPrefix(o, dist, n - 1, r);
      assert o[..|out|] == out && r[..|o|][..|out|] == r[..|out|];
    }
  }

  ghost predicate Fits(s: Sequence, outLen: nat) {
    1 <= s.dist < MAX_DISTANCE && s.dist <= outLen + |s.literals| && MIN_MATCH <= s.matchLen
  }

  function Apply(out: seq<byte>, s: Sequence): (r: seq<byte>)
    requires 1 <= s.dist <= |out| + |s.literals|
    ensures |r| == |out| + |s.literals| + s.matchLen
  {
    CopyMatch(out + s.literals, s.dist, s.matchLen)
  }

  /** Every back-reference stays inside what has been produced so far. */
  ghost predicate ValidBlock(outLen: nat, seqs: seq<Sequence>)
    decreases |seqs|
  {
    seqs == [] ||
    (Fits(seqs[0], outLen) &&
     ValidBlock(outLen + |seqs[0].literals| + seqs[0].matchLen, seqs[1..]))
  }

  /** The bytes a block stands for, after the bytes `out` already produced. */
  ghost function Expand(out: seq<byte>, seqs: seq<Sequence>, last: seq<byte>): (r: seq<byte>)
    requires ValidBlock(|out|, seqs)
    ensures |r| >= |out|
    decreases |seqs|
  {
    if seqs == [] then out + last else Expand(Apply(out, seqs[0]), seqs[1..], last)
  }

  lemma {:induction false} ExpandPrefix(out: seq<byte>, seqs: seq<Sequence>, last: seq<byte>, e: seq<byte>)
    requires ValidBlock(|out|, seqs) && e == Expand(out, seqs, last)
    ensures e[..|out|] == out
    decreases |seqs|
  {
    if seqs != [] {
      var s, a := seqs[0], Apply(out, seqs[0]);
      ExpandPrefix(a, seqs[1..], last, e);
      CopyMatchPrefix(out + s.literals, s.dist, s.matchLen, a);
      assert out == (out + s.literals)[..|out|] == a[..|out + s.literals|][..|out|] == a[..|out|];
      assert e[..|a|][..|out|] == e[..|out|];
    }
  }

  // ----- layout -----

  function EncodeLen(l: nat): seq<byte> {
    if l >= 255 then [255] + EncodeLen(l - 255) else [l]
  }

  /** The bytes that follow a token nibble holding `Min(15, l)`. */
  function LenExtension(l: nat): seq<byte> {
    if l >= 15 then EncodeLen(l - 15) else []
  }

  function EncodeLiterals(token: byte, literals: seq<byte>): seq<byte> {
    [token] + (LenExtension(|literals|) + literals)
  }

  function MatchTail(s: Sequence): seq<byte>
    requires Fits(s, |s.literals| + s.dist)
  {
    [s.dist % 256, s.dist / 256] + LenExtension(s.matchLen - MIN_MATCH)
  }

  function Token(literalLen: nat, matchNibble: nat): (t: byte)
    requires matchNibble <= 15
    ensures t / 16 == Min(15, literalLen) && t % 16 == matchNibble
  {
    Min(15, literalLen) * 16 + matchNibble
  }

  function EncodeSequence(s: Sequence): seq<byte>
    requires Fits(s, |s.literals| + s.dist)
  {
    EncodeLiterals(Token(|s.literals|, Min(15, s.matchLen - MIN_MATCH)), s.literals) + MatchTail(s)
  }

  function EncodeLast(last: seq<byte>): seq<byte> {
    EncodeLiterals(Token(|last|, 0), last)
  }

  /** A length from 15 on takes a byte for every 255 above 15, and one more for the rest. */
  lemma {:induction false} EncodeLenBytes(l: nat)
    ensures |EncodeLen(l)| == l / 255 + 1 && EncodeLen(l)[l / 255] == l % 255
    ensures forall k :: 0 <= k < l / 255 ==> EncodeLen(l)[k] == 255
  {
    if l >= 255 {
      EncodeLenBytes(l - 255);
      assert (l - 255) / 255 == l / 255 - 1 && (l - 255) % 255 == l % 255;
    }
  }

  ghost function ExtensionSize(l: nat): nat {
    if l < 15 then 0 else (l - 15) / 255 + 1
  }

  /** The layout of a sequence, byte by byte: the two nibbles, the rest of the number of literals, the
      literals, the distance with its low byte first, and the rest of the length of the match. */
  lemma SequenceLayout(s: Sequence)
    requires Fits(s, |s.literals| + s.dist)
    ensures var e, n := EncodeSequence(s), |s.literals|; var at := 1 + ExtensionSize(n) + n;
      && |e| == at + 2 + ExtensionSize(s.matchLen - 4)
      && e[0] == (if n < 15 then n else 15) * 16 + (if s.matchLen < 19 then s.matchLen - 4 else 15)
      && e[1..at - n] == LenExtension(n) && e[at - n..at] == s.literals
      && e[at] == s.dist % 256 && e[at + 1] == s.dist / 256 && e[at + 2..] == LenExtension(s.matchLen - 4)
  {
    var n, m := |s.literals|, s.matchLen - 4;
    ExtensionBytes(n);
    ExtensionBytes(m);
    var token := Token(n, Min(15, m));
    hide LenExtension;
    Parts(token, LenExtension(n), s.literals, s.dist % 256, s.dist / 256, LenExtension(m), EncodeSequence(s));
  }

  lemma Parts(token: byte, x: seq<byte>, literals: seq<byte>, low: byte, high: byte, y: seq<byte>, e: seq<byte>)
    requires e == [token] + (x + literals) + ([low, high] + y)
    ensures var at := 1 + |x| + |literals|;
      && |e| == at + 2 + |y| && e[0] == token && e[1..1 + |x|] == x && e[1 + |x|..at] == literals
      && e[at] == low && e[at + 1] == high && e[at + 2..] == y
  {
  }

  lemma ExtensionBytes(l: nat)
    ensures |LenExtension(l)| == ExtensionSize(l)
  {
    if l >= 15 {
      EncodeLenBytes(l - 15);
    }
  }

  ghost function EncodeSequences(outLen: nat, seqs: seq<Sequence>): seq<byte>
    requires ValidBlock(outLen, seqs)
    decreases |seqs|
  {
    if seqs == [] then [] else
    EncodeSequence(seqs[0]) +
    EncodeSequences(outLen + |seqs[0].literals| + seqs[0].matchLen, seqs[1..])
  }

  /** `block` is a well-formed LZ4 block that stands for `data`. */
  ghost predicate IsBlockFor(block: seq<byte>, data: seq<byte>, seqs: seq<Sequence>, last: seq<byte>) {
    && ValidBlock(0, seqs)
    && block == EncodeSequences(0, seqs) + EncodeLast(last)
    && data == Expand([], seqs, last)
  }

  // ----- reading -----

  /** An extended length: 255s are added up until a smaller byte ends it. The result
      is the length and the input after it. */
  function ReadLen(input: seq<byte>, acc: nat): (r: Result<(nat, seq<byte>)>)
    ensures r.Ok? ==> |r.value.1| < |input|
  {
    if input == [] then Err(EndOfInput)
    else if input[0] == 255 then ReadLen(input[1..], acc + 255)
    else Ok((acc + input[0], input[1..]))
  }

  /** A nibble of the token, extended by further bytes when it is saturated. */
  function ReadNibbleLen(input: seq<byte>, nibble: nat): (r: Result<(nat, seq<byte>)>)
    ensures r.Ok? ==> |r.value.1| <= |input|
  {
    if nibble == 15 then ReadLen(input, 15) else Ok((nibble, input))
  }

  /** Byte-by-byte copy inside `dest`; source and target may overlap. */
  function CopyWithin(dest: seq<byte>, off: nat, dist: nat, n: nat): (r: seq<byte>)
    requires dist <= off && off + n <= |dest|
    ensures |r| == |dest|
    decreases n
  {
    if n == 0 then dest else CopyWithin(dest[off := dest[off - dist]], off + 1, dist, n - 1)
  }

  function Splice(dest: seq<byte>, off: nat, bytes: seq<byte>): (r: seq<byte>)
    requires off + |bytes| <= |dest|
    ensures |r| == |dest|
  {
    dest[..off] + bytes + dest[off + |bytes|..]
  }

  lemma SplicePrefix(dest: seq<byte>, off: nat, bytes: seq<byte>)
    requires off + |bytes| <= |dest|
    ensures Splice(dest, off, bytes)[..off + |bytes|] == dest[..off] + bytes
  {
  }

  /** What is left to read, the output buffer, and how much of it is filled. */
  datatype State = State(input: seq<byte>, dest: seq<byte>, off: nat)

  /** Reads the literals of a sequence, given the token's high nibble. */
  function ReadLiterals(s: State, nibble: nat): (r: Result<State>)
    requires s.off <= |s.dest|
    ensures r.Ok? ==> |r.value.input| <= |s.input| && |r.value.dest| == |s.dest|
    ensures r.Ok? ==> s.off <= r.value.off <= |s.dest|
  {
    match ReadNibbleLen(s.input, nibble)
    case Err(e) => Err(e)
    case Ok((len, input)) =>
      if len > |input| then Err(EndOfInput)
      else if s.off + len > |s.dest| then Err(OutOfBounds)
      else Ok(State(input[len..], Splice(s.dest, s.off, input[..len]), s.off + len))
  }

  /** The distance field: two bytes, least significant first. */
  function Distance(input: seq<byte>): nat
    requires |input| >= 2
  {
    input[0] as int + input[1] as int * 256
  }

  /** Reads and copies the match of a sequence, given the token's low nibble. */
  function ReadMatch(s: State, nibble: nat): (r: Result<State>)
    requires s.off <= |s.dest|
    ensures r.Ok? ==> |r.value.input| < |s.input| && |r.value.dest| == |s.dest|
    ensures r.Ok? ==> s.off <= r.value.off <= |s.dest|
  {
    if |s.input| < 2 then Err(EndOfInput) else
    match ReadNibbleLen(s.input[2..], nibble)
    case Err(e) => Err(e)
    case Ok((len, input)) =>
      var n := len + MIN_MATCH;
      if Distance(s.input) > s.off || s.off + n > |s.dest| then Err(OutOfBounds)
      else Ok(State(input, CopyWithin(s.dest, s.off, Distance(s.input), n), s.off + n))
  }

  /** Decodes sequences until at least `n` bytes stand in the buffer. */
  function Decode(s: State, n: nat): (r: Result<State>)
    requires s.off <= |s.dest|
    ensures r.Ok? ==> |r.value.dest| == |s.dest| && n <= r.value.off <= |s.dest|
    decreases |s.input|
  {
    if s.input == [] then Err(EndOfInput) else
    match ReadLiterals(s.(input := s.input[1..]), s.input[0] / 16)
    case Err(e) => Err(e)
    case Ok(t) =>
      if t.off >= n then Ok(t) else
      match ReadMatch(t, s.input[0] % 16)
      case Err(e) => Err(e)
      case Ok(u) => if u.off >= n then Ok(u) else Decode(u, n)
  }

  // ----- what is refused -----

  /** An extended length is missing its end exactly if all bytes left are 255. */
  lemma {:induction false} ReadLenFails(input: seq<byte>, acc: nat)
    ensures ReadLen(input, acc).Err? <==> forall i :: 0 <= i < |input| ==> input[i] == 255
    ensures ReadLen(input, acc).Err? ==> ReadLen(input, acc).error == EndOfInput
  {
    if input != [] && input[0] == 255 {
      ReadLenFails(input[1..], acc + 255);
      assert forall i :: 0 < i < |input| ==> input[i] == input[1..][i - 1];
    }
  }

  /** The first sequence of a block, with fewer than 15 literals and fewer than 19 bytes of match: what
      it needs of the input, of the buffer and of what was decoded before. */
  lemma Refused(token: byte, rest: seq<byte>, dest: seq<byte>, off: nat, n: nat)
    requires token / 16 < 15 && token % 16 < 15 && off <= |dest|
    ensures var r, l := Decode(State([token] + rest, dest, off), n), token / 16;
      && (|rest| < l ==> r == Err(EndOfInput))
      && (|rest| >= l && off + l > |dest| ==> r == Err(OutOfBounds))
      && (l <= |rest| < l + 2 && off + l <= |dest| && off + l < n ==> r == Err(EndOfInput))
    ensures var r, at, i := Decode(State([token] + rest, dest, off), n), off + token / 16, token / 16;
      |rest| >= i + 2 && at <= |dest| && at < n ==>
        (rest[i] as int + 256 * rest[i + 1] as int > at || at + token % 16 + 4 > |dest| ==> r == Err(OutOfBounds))
  {
    var input, l := [token] + rest, token / 16;
    assert input[1..] == rest;
    if |rest| >= l + 2 {
      var tail := rest[l..];
      assert tail[0] == rest[l] && tail[1] == rest[l + 1];
    }
  }

  // ----- the copy of a match -----

  lemma {:induction false} CopyWithinIsCopyMatch(dest: seq<byte>, off: nat, dist: nat, n: nat, out: seq<byte>,
                                                 r: seq<byte>)
    requires 1 <= dist <= off && off + n <= |dest|
    requires out == dest[..off] && r == CopyWithin(dest, off, dist, n)
    ensures r[..off + n] == CopyMatch(out, dist, n)
    decreases n
  {
    if n > 0 {
      var b := dest[off - dist];
      var d, o := dest[off := b], out + [b];
      assert out[off - dist] == b;
      assert d[..off + 1] == o;
      CopyWithinIsCopyMatch(d, off + 1, dist, n - 1, o, r);
    }
  }

  /** The block copy of the non-overlapping path is the byte-by-byte copy. */
  lemma {:induction false} CopyWithinDisjoint(dest: seq<byte>, off: nat, dist: nat, n: nat, r: seq<byte>)
    requires n <= dist <= off && off + n <= |dest|
    requires r == CopyWithin(dest, off, dist, n)
    ensures forall i :: off <= i < off + n ==> r[i] == dest[i - dist]
    ensures forall i :: 0 <= i < off || off + n <= i < |dest| ==> r[i] == dest[i]
    decreases n
  {
    if n > 0 {
      var d := dest[off := dest[off - dist]];
      CopyWithinDisjoint(d, off + 1, dist, n - 1, r);
      assert r[off] == d[off];
    }
  }

  // ----- what reading makes of the layout -----

  lemma {:induction false} ReadEncodedLen(l: nat, rest: seq<byte>, acc: nat, input: seq<byte>)
    requires input == EncodeLen(l) + rest
    ensures ReadLen(input, acc) == Ok((acc + l, rest))
    decreases l
  {
    if l >= 255 {
      var e := EncodeLen(l - 255);
      assert EncodeLen(l) == [255] + e;
      assert input[1..] == e + rest;
      ReadEncodedLen(l - 255, rest, acc + 255, input[1..]);
    } else {
      assert EncodeLen(l) == [l];
      assert input[1..] == rest;
    }
  }

  lemma ReadEncodedNibbleLen(l: nat, rest: seq<byte>, input: seq<byte>)
    requires input == LenExtension(l) + rest
    ensures ReadNibbleLen(input, Min(15, l)) == Ok((l, rest))
  {
    if l >= 15 {
      ReadEncodedLen(l - 15, rest, 15, input);
    } else {
      assert input == rest;
    }
  }

  /** The decoder on the literals part of a sequence ... */
  lemma ReadEncodedLiterals(literals: seq<byte>, rest: seq<byte>, dest: seq<byte>, off: nat, input: seq<byte>)
    requires off + |literals| <= |dest|
    requires input == LenExtension(|literals|) + (literals + rest)
    ensures ReadLiterals(State(input, dest, off), Min(15, |literals|)) ==
            Ok(State(rest, Splice(dest, off, literals), off + |literals|))
  {
    var tail := literals + rest;
    ReadEncodedNibbleLen(|literals|, tail, input);
    assert tail[..|literals|] == literals && tail[|literals|..] == rest;
  }

  /** ... and on the match part. */
  lemma ReadEncodedMatch(s: Sequence, rest: seq<byte>, dest: seq<byte>, off: nat, input: seq<byte>)
    requires Fits(s, |s.literals| + s.dist) && s.dist <= off && off + s.matchLen <= |dest|
    requires input == MatchTail(s) + rest
    ensures ReadMatch(State(input, dest, off), Min(15, s.matchLen - MIN_MATCH)) ==
            Ok(State(rest, CopyWithin(dest, off, s.dist, s.matchLen), off + s.matchLen))
  {
    var ext := LenExtension(s.matchLen - MIN_MATCH);
    MatchBytes(s.dist % 256, s.dist / 256, ext, rest, input);
    assert Distance(input) == s.dist;
    ReadEncodedNibbleLen(s.matchLen - MIN_MATCH, rest, input[2..]);
  }

  lemma MatchBytes(a: byte, b: byte, ext: seq<byte>, rest: seq<byte>, input: seq<byte>)
    requires input == ([a, b] + ext) + rest
    ensures |input| >= 2 && input[0] == a && input[1] == b && input[2..] == ext + rest
  {
  }

  lemma LiteralsBytes(token: byte, ext: seq<byte>, literals: seq<byte>, tail: seq<byte>, input: seq<byte>)
    requires input == ([token] + (ext + literals)) + tail
    ensures input != [] && input[0] == token && input[1..] == ext + (literals + tail)
  {
  }

  /** One round of the decoder, once its two halves are known. */
  lemma DecodeRound(input: seq<byte>, dest: seq<byte>, off: nat, n: nat, t: State, u: State)
    requires off <= |dest| && input != []
    requires ReadLiterals(State(input[1..], dest, off), input[0] / 16) == Ok(t)
    requires t.off < n ==> ReadMatch(t, input[0] % 16) == Ok(u)
    ensures Decode(State(input, dest, off), n) ==
            if t.off >= n then Ok(t) else if u.off >= n then Ok(u) else Decode(u, n)
  {
  }

  /** The decoder stopped with at least `n` bytes, all of them those of `e`. */
  ghost predicate Restores(r: Result<State>, e: seq<byte>, n: nat) {
    r.Ok? && r.value.off <= |r.value.dest| && n <= r.value.off <= |e|
    && r.value.dest[..r.value.off] == e[..r.value.off]
  }

  /** The final literals of a block end decoding. */
  lemma DecodeLast(last: seq<byte>, rest: seq<byte>, dest: seq<byte>, off: nat, n: nat, input: seq<byte>, e: seq<byte>)
    requires n <= off + |last| <= |dest|
    requires input == EncodeLast(last) + rest && e == dest[..off] + last
    ensures Restores(Decode(State(input, dest, off), n), e, n)
  {
    LiteralsBytes(Token(|last|, 0), LenExtension(|last|), last, rest, input);
    ReadEncodedLiterals(last, rest, dest, off, input[1..]);
    var t := State(rest, Splice(dest, off, last), off + |last|);
    DecodeRound(input, dest, off, n, t, t);
    SplicePrefix(dest, off, last);
  }

  ghost function AfterLiterals(s: Sequence, tail: seq<byte>, dest: seq<byte>, off: nat): State
    requires off + |s.literals| <= |dest|
  {
    State(tail, Splice(dest, off, s.literals), off + |s.literals|)
  }

  ghost function AfterMatch(s: Sequence, rest: seq<byte>, t: State): State
    requires s.dist <= t.off && t.off + s.matchLen <= |t.dest|
  {
    State(rest, CopyWithin(t.dest, t.off, s.dist, s.matchLen), t.off + s.matchLen)
  }

  /** One round of the decoder on one encoded sequence. */
  lemma DecodeSequence(s: Sequence, rest: seq<byte>, tail: seq<byte>, input: seq<byte>, dest: seq<byte>, off: nat,
                       n: nat, t: State, u: State)
    requires Fits(s, off) && off + |s.literals| + s.matchLen <= |dest|
    requires tail == MatchTail(s) + rest && input == EncodeSequence(s) + rest
    requires t == AfterLiterals(s, tail, dest, off) && u == AfterMatch(s, rest, t)
    ensures Decode(State(input, dest, off), n) ==
            if t.off >= n then Ok(t) else if u.off >= n then Ok(u) else Decode(u, n)
  {
    var token, ext := Token(|s.literals|, Min(15, s.matchLen - MIN_MATCH)), LenExtension(|s.literals|);
    SequenceBytes(token, ext, s.literals, MatchTail(s), rest, tail, input);
    ReadEncodedLiterals(s.literals, tail, dest, off, input[1..]);
    ReadEncodedMatch(s, rest, t.dest, t.off, tail);
    DecodeRound(input, dest, off, n, t, u);
  }

  lemma SequenceBytes(token: byte, ext: seq<byte>, literals: seq<byte>, m: seq<byte>, rest: seq<byte>, tail: seq<byte>,
                      input: seq<byte>)
    requires tail == m + rest && input == (([token] + (ext + literals)) + m) + rest
    ensures input != [] && input[0] == token && input[1..] == ext + (literals + tail)
  {
    assert input == ([token] + (ext + literals)) + tail;
    LiteralsBytes(token, ext, literals, tail, input);
  }

  /** What the decoder writes for a sequence is what the sequence stands for. */
  lemma DecodedIsApplied(s: Sequence, dest: seq<byte>, off: nat, t: State, u: State, rest: seq<byte>, tail: seq<byte>,
                         out: seq<byte>)
    requires Fits(s, off) && off + |s.literals| + s.matchLen <= |dest|
    requires t == AfterLiterals(s, tail, dest, off) && u == AfterMatch(s, rest, t)
    requires out == Apply(dest[..off], s)
    ensures u.off == |out| && |t.dest| == |u.dest| == |dest| && t.off <= |out|
    ensures u.dest[..u.off] == out && t.dest[..t.off] == out[..t.off]
  {
    SplicePrefix(dest, off, s.literals);
    var o := dest[..off] + s.literals;
    CopyWithinIsCopyMatch(t.dest, t.off, s.dist, s.matchLen, o, u.dest);
    CopyMatchPrefix(o, s.dist, s.matchLen, out);
  }

  lemma Restored(t: State, out: seq<byte>, e: seq<byte>, n: nat)
    requires n <= t.off <= |out| <= |e| && t.off <= |t.dest|
    requires e[..|out|] == out && t.dest[..t.off] == out[..t.off]
    ensures Restores(Ok(t), e, n)
  {
    assert e[..|out|][..t.off] == e[..t.off];
  }

  /** Decoding an encoded block, with any bytes after it, restores what the block stands
      for, or a prefix of it that reaches the requested length. */
  lemma {:induction false} DecodeEncoded(input: seq<byte>, seqs: seq<Sequence>, last: seq<byte>, rest: seq<byte>,
                                         dest: seq<byte>, off: nat, n: nat, e: seq<byte>)
    requires off <= |dest| && ValidBlock(off, seqs)
    requires input == EncodeSequences(off, seqs) + (EncodeLast(last) + rest)
    requires e == Expand(dest[..off], seqs, last) && n <= |e| <= |dest|
    ensures Restores(Decode(State(input, dest, off), n), e, n)
    decreases |seqs|
  {
    var end := EncodeLast(last) + rest;
    if seqs == [] {
      assert input == end;
      DecodeLast(last, rest, dest, off, n, input, e);
    } else {
      var s := seqs[0];
      var out := Apply(dest[..off], s);
      var more := EncodeSequences(|out|, seqs[1..]) + end;
      assert e == Expand(out, seqs[1..], last);
      assert input == EncodeSequence(s) + more by {
        Reassociate(EncodeSequence(s), EncodeSequences(|out|, seqs[1..]), end);
      }
      var tail := MatchTail(s) + more;
      var t := AfterLiterals(s, tail, dest, off);
      var u := AfterMatch(s, more, t);
      DecodeSequence(s, more, tail, input, dest, off, n, t, u);
      DecodedIsApplied(s, dest, off, t, u, more, tail, out);
      ExpandPrefix(out, seqs[1..], last, e);
      if t.off >= n {
        Restored(t, out, e, n);
      } else if u.off >= n {
        Restored(u, out, e, n);
      } else {
        DecodeEncoded(more, seqs[1..], last, rest, u.dest, u.off, n, e);
      }
    }
  }

  lemma Reassociate(a: seq<byte>, b: seq<byte>, c: seq<byte>)
    ensures (a + b) + c == a + (b + c)
  {
  }

  /** The round trip: from any well-formed block for `data`, with any bytes after it and
      whatever the buffer holds, the decoder stops at some `p` with `n <= p <= |data|` and
      has restored the first `p` bytes; asked for all of `data`, it restores all of it. */
  lemma BlockRoundTrip(block: seq<byte>, data: seq<byte>, seqs: seq<Sequence>, last: seq<byte>, rest: seq<byte>,
                       input: seq<byte>, dest: seq<byte>, n: nat)
    requires IsBlockFor(block, data, seqs, last) && input == block + rest && n <= |data| <= |dest|
    ensures Restores(Decode(State(input, dest, 0), n), data, n)
  {
    Reassociate(EncodeSequences(0, seqs), EncodeLast(last), rest);
    assert dest[..0] == [];
    DecodeEncoded(input, seqs, last, rest, dest, 0, n, data);
  }

  // ----- blocks that grow at the end -----

  ghost function ExpandedLen(outLen: nat, seqs: seq<Sequence>): nat
    decreases |seqs|
  {
    if seqs == [] then outLen
    else ExpandedLen(outLen + |seqs[0].literals| + seqs[0].matchLen, seqs[1..])
  }

  /** Appending a sequence that fits appends its bytes. */
  lemma {:induction false} AppendSequence(outLen: nat, seqs: seq<Sequence>, s: Sequence, all: seq<Sequence>)
    requires ValidBlock(outLen, seqs) && Fits(s, ExpandedLen(outLen, seqs)) && all == seqs + [s]
    ensures ValidBlock(outLen, all)
    ensures EncodeSequences(outLen, all) == EncodeSequences(outLen, seqs) + EncodeSequence(s)
    decreases |seqs|
  {
    hide EncodeSequence;
    if seqs == [] {
      assert all[1..] == [];
    } else {
      assert all[1..] == seqs[1..] + [s] && all[0] == seqs[0];
      var len := outLen + |seqs[0].literals| + seqs[0].matchLen;
      AppendSequence(len, seqs[1..], s, all[1..]);
      Reassociate(EncodeSequence(seqs[0]), EncodeSequences(len, seqs[1..]), EncodeSequence(s));
    }
  }

  /** The meaning of a block comes apart at its last sequence. */
  lemma {:induction false} ExpandAppended(out: seq<byte>, seqs: seq<Sequence>, s: Sequence, all: seq<Sequence>)
    requires ValidBlock(|out|, seqs) && ValidBlock(|out|, all) && all == seqs + [s]
    requires Fits(s, |Expand(out, seqs, [])|)
    ensures Expand(out, all, []) == Apply(Expand(out, seqs, []), s)
    decreases |seqs|
  {
    if seqs == [] {
      assert all[1..] == [] && out + [] == out;
    } else {
      assert all[1..] == seqs[1..] + [s] && all[0] == seqs[0];
      ExpandAppended(Apply(out, seqs[0]), seqs[1..], s, all[1..]);
    }
  }

  lemma {:induction false} ExpandLast(out: seq<byte>, seqs: seq<Sequence>, last: seq<byte>)
    requires ValidBlock(|out|, seqs)
    ensures Expand(out, seqs, last) == Expand(out, seqs, []) + last
    ensures |Expand(out, seqs, [])| == ExpandedLen(|out|, seqs)
    decreases |seqs|
  {
    if seqs == [] {
      assert out + [] == out;
    } else {
      ExpandLast(Apply(out, seqs[0]), seqs[1..], last);
    }
  }
}
