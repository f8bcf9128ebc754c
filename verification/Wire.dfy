/** The package layout and the response framing of apps/ycsbserver/handler.cc.

    A package is op, table and number of pairs (one byte each), record key and
    scan length (eight bytes each, big-endian), and then for every pair the
    two lengths (one byte each), the name and the value. */
module Wire {

  import opened Bytes
  import opened Ops

  const HEADER := 19

  // ----- the encoder that a client needs

  predicate Fits(ps: seq<Pair>) {
    forall i :: 0 <= i < |ps| ==> |ps[i].name| < 256 && |ps[i].value| < 256
  }

  predicate WellFormed(pkg: Package) {
    |pkg.kvPairs| == pkg.numKvs && Fits(pkg.kvPairs)
  }

  function EncodePairs(ps: seq<Pair>): bytes
    requires Fits(ps)
  {
    if ps == [] then []
    else [|ps[0].name|, |ps[0].value|] + ps[0].name + ps[0].value + EncodePairs(ps[1..])
  }

  function EncodeHeader(pkg: Package): (h: bytes)
    ensures |h| == HEADER
  {
    [pkg.op, pkg.table, pkg.numKvs] + BigEndian(pkg.key, 8) + BigEndian(pkg.scanLength, 8)
  }

  function Encode(pkg: Package): (b: bytes)
    requires WellFormed(pkg)
    ensures |b| >= HEADER
  {
    EncodeHeader(pkg) + EncodePairs(pkg.kvPairs)
  }

  // ----- the parser as a function

  // The first n pairs at the start of a buffer: whether they all fit, how
  // many bytes they take, and the pairs before the first one that does not.
  datatype Pairs = Pairs(ok: bool, used: nat, list: seq<Pair>)

  function ParsePairs(s: bytes, n: nat): (r: Pairs)
    ensures r.ok ==> r.used <= |s|
    decreases n
  {
    if n == 0 then Pairs(true, 0, [])
    else if |s| < 2 || |s| < PairEnd(s) then Pairs(false, 0, [])
    else Prepend([FirstPair(s)], PairEnd(s), ParsePairs(s[PairEnd(s)..], n - 1))
  }

  function NameEnd(s: bytes): nat
    requires |s| >= 2
  {
    var nameLen: nat := s[0];
    2 + nameLen
  }

  function PairEnd(s: bytes): (e: nat)
    requires |s| >= 2
    ensures e >= NameEnd(s)
  {
    var valueLen: nat := s[1];
    NameEnd(s) + valueLen
  }

  function FirstPair(s: bytes): Pair
    requires |s| >= 2 && |s| >= PairEnd(s)
  {
    Pair(s[2..NameEnd(s)], s[NameEnd(s)..PairEnd(s)])
  }

  // The pairs `r`, read after the pairs ps that took `used` bytes.
  function Prepend(ps: seq<Pair>, used: nat, r: Pairs): Pairs {
    Pairs(r.ok, used + r.used, ps + r.list)
  }

  // What is left of a package of `size` bytes from pos on.
  function Rest(b: bytes, pos: nat, size: nat): (s: bytes)
    requires size <= |b|
  {
    if pos <= size then b[pos..size] else []
  }

  datatype Parsed = Parsed(pos: nat, pkg: Package)

  // The package at the start of b, as far as the first `size` bytes say; the
  // header is read even from behind a smaller size. Position 0 says failure.
  function Parse(b: bytes, size: nat): Parsed
    requires |b| >= HEADER && size <= |b|
  {
    var r := ParsePairs(Rest(b, HEADER, size), b[2]);
    BigEndianBound(b[3..11]);
    BigEndianBound(b[11..19]);
    Parsed(if r.ok then HEADER + r.used else 0,
           Package(b[0], b[1], b[2], BigEndianValue(b[3..11]), BigEndianValue(b[11..19]), r.list))
  }

  lemma BigEndianBound(s: bytes)
    requires |s| == 8
    ensures BigEndianValue(s) < TWO_TO_THE_64
  {
    BigEndianOfValue(s);
    Pow256Values();
  }

  // ----- the C++ code

  lemma Pow2Byte(n: nat)
    ensures Pow2(n + 8) == 256 * Pow2(n)
  {
    assert Pow2(n + 2) == 4 * Pow2(n);
    assert Pow2(n + 4) == 4 * Pow2(n + 2);
    assert Pow2(n + 6) == 4 * Pow2(n + 4);
    assert Pow2(n + 8) == 4 * Pow2(n + 6);
  }

  // One more byte below the ones already placed.
  lemma PlaceByte(value: nat, b: byte, shift: nat)
    ensures BitOr(value * Pow2(shift + 8), b * Pow2(shift)) == (value * 256 + b) * Pow2(shift)
  {
    var p, lo := Pow2(shift), b * Pow2(shift);
    Pow2Byte(shift);
    MulLe(b, 255, p);
    MulLe(0, b, p);
    OrIsSum(value, lo, shift + 8);
    Distribute(value, b, p);
  }

  lemma Distribute(value: int, b: int, p: int)
    ensures value * (256 * p) + b * p == (value * 256 + b) * p
  {
  }

  method ReadU64(b: bytes) returns (res: u64)
    requires |b| == 8
    ensures res == BigEndianValue(b)
  {
    var r: nat := 0;
    var i: nat := 0;
    assert BigEndianValue(b[..0]) == 0 && Pow2(0) == 1;
    hide Pow2, BitOr, BigEndianValue;
    while i < 8
      invariant i <= 8
      invariant r == BigEndianValue(b[..i]) * Pow2(64 - 8 * i)
    {
      PlaceByte(BigEndianValue(b[..i]), b[i], 56 - 8 * i);
      BigEndianNext(b, i);
      r := BitOr(r, b[i] * Pow2(56 - 8 * i));
      i := i + 1;
    }
    assert b[..8] == b;
    BigEndianBound(b);
    res := r;
  }

  method FromBytes(buffer: bytes, size: nat) returns (pos: nat, pkg: Package)
    requires HEADER <= |buffer| && size <= |buffer|
    ensures Parsed(pos, pkg) == Parse(buffer, size)
    ensures pkg.op == buffer[0] && pkg.table == buffer[1] && pkg.numKvs == buffer[2]
    ensures pkg.key == BigEndianValue(buffer[3..11]) && pkg.scanLength == BigEndianValue(buffer[11..19])
    ensures exists at :: LaidOut(buffer, size, pkg, pos, at)
  {
    var key := ReadU64(buffer[3..11]);
    var scanLength := ReadU64(buffer[11..19]);
    var numKvs := buffer[2];
    var kvPairs: seq<Pair>;
    pos, kvPairs := ReadPairs(buffer, numKvs, size);
    pkg := Package(buffer[0], buffer[1], numKvs, key, scanLength, kvPairs);
    ghost var at := ParsedLaidOut(buffer, size);
  }

  // The loop of from_bytes.
  method ReadPairs(buffer: bytes, n: nat, size: nat) returns (pos: nat, kvPairs: seq<Pair>)
    requires size <= |buffer|
    ensures var r := ParsePairs(Rest(buffer, HEADER, size), n);
            pos == (if r.ok then HEADER + r.used else 0) && kvPairs == r.list
  {
    hide ParsePairs, Prepend, Rest, PairEnd, FirstPair;
    pos, kvPairs := HEADER, [];
    ghost var whole := ParsePairs(Rest(buffer, HEADER, size), n);
    PrependLaws([], 0, Pair([], []), 0, whole);
    var i := 0;
    while i < n
      invariant i <= n && HEADER <= pos
      invariant whole == Prepend(kvPairs, pos - HEADER, ParsePairs(Rest(buffer, pos, size), n - i))
    {
      ghost var rest := Rest(buffer, pos, size);
      ParsePairsStep(rest, n - i);
      var next, pair := ReadPair(buffer, pos, size);
      if next == 0 {
        PairsEnd(kvPairs, pos - HEADER, false);
        return 0, kvPairs;
      }
      PrependLaws(kvPairs, pos - HEADER, pair, PairEnd(rest), ParsePairs(Rest(buffer, next, size), n - i - 1));
      pos := next;
      kvPairs := kvPairs + [pair];
      i := i + 1;
    }
    ParsePairsStep(Rest(buffer, pos, size), 0);
    PairsEnd(kvPairs, pos - HEADER, true);
  }

  // The body of that loop; next is 0 when it leaves from_bytes.
  method ReadPair(buffer: bytes, pos: nat, size: nat) returns (next: nat, pair: Pair)
    requires size <= |buffer|
    ensures var s := Rest(buffer, pos, size);
            if |s| < 2 || |s| < PairEnd(s) then next == 0
            else next == pos + PairEnd(s) && pair == FirstPair(s) && Rest(buffer, next, size) == s[PairEnd(s)..]
  {
    pair := Pair([], []);
    if pos + 2 > size {
      return 0, pair;
    }
    var keyLen: nat, valLen: nat := buffer[pos], buffer[pos + 1];
    if pos + 2 + keyLen + valLen > size {
      return 0, pair;
    }
    var start := pos + 2;
    var name := buffer[start..start + keyLen];
    var val := buffer[start + keyLen..start + keyLen + valLen];
    next, pair := start + keyLen + valLen, Pair(name, val);
    SliceShift(buffer, pos, size, 2, 2 + keyLen);
    SliceShift(buffer, pos, size, 2 + keyLen, 2 + keyLen + valLen);
    SliceShift(buffer, pos, size, 2 + keyLen + valLen, size - pos);
  }

  lemma SliceShift(b: bytes, pos: nat, size: nat, i: nat, j: nat)
    requires i <= j && pos + j <= size <= |b|
    ensures b[pos..size][i..j] == b[pos + i..pos + j]
  {
    var t, u := b[pos..size][i..j], b[pos + i..pos + j];
    assert |t| == |u| == j - i;
    forall k | 0 <= k < j - i ensures t[k] == u[k] {
      assert t[k] == b[pos..size][i + k] == b[pos + (i + k)];
      assert u[k] == b[(pos + i) + k];
    }
  }

  lemma PairsEnd(ps: seq<Pair>, used: nat, ok: bool)
    ensures Prepend(ps, used, Pairs(ok, 0, [])) == Pairs(ok, used, ps)
  {
    assert ps + [] == ps;
  }

  lemma PrependLaws(ps: seq<Pair>, used: nat, p: Pair, len: nat, r: Pairs)
    ensures Prepend([], 0, r) == r
    ensures Prepend(ps, used, Prepend([p], len, r)) == Prepend(ps + [p], used + len, r)
  {
    assert [] + r.list == r.list;
    assert ps + ([p] + r.list) == (ps + [p]) + r.list;
  }

  lemma ParsePairsStep(s: bytes, n: nat)
    ensures ParsePairs(s, n) ==
            if n == 0 then Pairs(true, 0, [])
            else if |s| < 2 || |s| < PairEnd(s) then Pairs(false, 0, [])
            else Prepend([FirstPair(s)], PairEnd(s), ParsePairs(s[PairEnd(s)..], n - 1))
  {
  }

  // ----- parser and encoder are inverse

  lemma EncodedFirst(s: bytes, ps: seq<Pair>)
    requires ps != [] && Fits(ps) && EncodePairs(ps) <= s
    ensures |s| >= 2 && |s| >= PairEnd(s)
    ensures FirstPair(s) == ps[0]
    ensures EncodePairs(ps[1..]) <= s[PairEnd(s)..]
    ensures |EncodePairs(ps)| == PairEnd(s) + |EncodePairs(ps[1..])|
  {
    var p, rest := ps[0], EncodePairs(ps[1..]);
    var value, next := 2 + |p.name|, 2 + |p.name| + |p.value|;
    var e := [|p.name|, |p.value|] + p.name + p.value + rest;
    assert e == EncodePairs(ps);
    hide EncodePairs;
    assert s[0] == e[0] && s[1] == e[1];
    assert s[2..value] == e[2..value] == p.name;
    assert s[value..next] == e[value..next] == p.value;
    assert e[next..] == rest <= s[next..];
  }

  lemma {:induction false} ParseEncodedPairs(s: bytes, ps: seq<Pair>)
    requires Fits(ps) && EncodePairs(ps) <= s
    ensures ParsePairs(s, |ps|) == Pairs(true, |EncodePairs(ps)|, ps)
    decreases |ps|
  {
    ParsePairsStep(s, |ps|);
    if ps == [] {
    } else {
      EncodedFirst(s, ps);
      hide EncodePairs, ParsePairs, PairEnd, FirstPair;
      ParseEncodedPairs(s[PairEnd(s)..], ps[1..]);
      assert ps == [ps[0]] + ps[1..];
    }
  }

  lemma ParseHeader(b: bytes, pkg: Package)
    requires |b| >= HEADER && b[..HEADER] == EncodeHeader(pkg)
    ensures b[0] == pkg.op && b[1] == pkg.table && b[2] == pkg.numKvs
    ensures BigEndianValue(b[3..11]) == pkg.key && BigEndianValue(b[11..19]) == pkg.scanLength
  {
    var h := b[..HEADER];
    assert b[0] == h[0] && b[1] == h[1] && b[2] == h[2];
    assert b[3..11] == h[3..11] == BigEndian(pkg.key, 8);
    assert b[11..19] == h[11..19] == BigEndian(pkg.scanLength, 8);
    Pow256Values();
    ValueOfBigEndian(pkg.key, 8);
    ValueOfBigEndian(pkg.scanLength, 8);
  }

  // A buffer that starts with an encoded package parses to that package,
  // whatever follows it.
  lemma ParseEncoded(pkg: Package, b: bytes, size: nat)
    requires WellFormed(pkg) && Encode(pkg) <= b && |Encode(pkg)| <= size <= |b|
    ensures Parse(b, size) == Parsed(|Encode(pkg)|, pkg)
  {
    var e := Encode(pkg);
    assert b[..HEADER] == e[..HEADER] == EncodeHeader(pkg);
    ParseHeader(b, pkg);
    assert e[HEADER..] == EncodePairs(pkg.kvPairs) <= b[HEADER..size];
    ParseEncodedPairs(b[HEADER..size], pkg.kvPairs);
  }

  lemma JoinFirst(s: bytes, used: nat)
    requires |s| >= 2 && PairEnd(s) + used <= |s|
    ensures var p := FirstPair(s);
            && |p.name| < 256 && |p.value| < 256
            && s[..PairEnd(s) + used] == [|p.name|, |p.value|] + p.name + p.value + s[PairEnd(s)..][..used]
  {
  }

  lemma {:induction false} EncodeParsedPairs(s: bytes, n: nat)
    requires ParsePairs(s, n).ok
    ensures var r := ParsePairs(s, n);
            |r.list| == n && Fits(r.list) && s[..r.used] == EncodePairs(r.list)
    decreases n
  {
    ParsePairsStep(s, n);
    if n == 0 {
    } else {
      hide ParsePairs, PairEnd, FirstPair;
      var r, ps := ParsePairs(s[PairEnd(s)..], n - 1), ParsePairs(s, n).list;
      EncodeParsedPairs(s[PairEnd(s)..], n - 1);
      JoinFirst(s, r.used);
      assert ps == [FirstPair(s)] + r.list && ps[1..] == r.list;
    }
  }

  lemma EncodeParsedHeader(b: bytes, pkg: Package)
    requires |b| >= HEADER
    requires b[0] == pkg.op && b[1] == pkg.table && b[2] == pkg.numKvs
    requires BigEndianValue(b[3..11]) == pkg.key && BigEndianValue(b[11..19]) == pkg.scanLength
    ensures EncodeHeader(pkg) == b[..HEADER]
  {
    BigEndianOfValue(b[3..11]);
    BigEndianOfValue(b[11..19]);
    assert b[..HEADER] == [b[0], b[1], b[2]] + b[3..11] + b[11..19];
  }

  // What parses is the encoding of the result, up to the returned position.
  lemma EncodeParsed(b: bytes, size: nat)
    requires HEADER <= size <= |b| && Parse(b, size).pos > 0
    ensures var r := Parse(b, size);
            WellFormed(r.pkg) && r.pos <= size && b[..r.pos] == Encode(r.pkg)
  {
    var r := Parse(b, size);
    EncodeParsedPairs(b[HEADER..size], b[2]);
    EncodeParsedHeader(b, r.pkg);
    assert b[..r.pos] == b[..HEADER] + Rest(b, HEADER, size)[..r.pos - HEADER];
  }

  // ps are as many of the first n pairs as are encoded in full at the start
  // of s.
  ghost predicate LongestPairs(s: bytes, n: nat, ps: seq<Pair>) {
    && Fits(ps) && |ps| <= n && EncodePairs(ps) <= s
    && forall qs :: Fits(qs) && |qs| <= n && EncodePairs(qs) <= s ==> qs <= ps
  }

  lemma {:induction false} ParsedPairsLongest(s: bytes, n: nat)
    ensures LongestPairs(s, n, ParsePairs(s, n).list)
    ensures ParsePairs(s, n).ok <==> |ParsePairs(s, n).list| == n
    decreases n
  {
    ParsePairsStep(s, n);
    hide LongestPairs, ParsePairs, FirstPair, EncodePairs;
    if n == 0 || |s| < 2 || |s| < PairEnd(s) {
      LongestNone(s, n);
    } else {
      hide PairEnd;
      var rest := s[PairEnd(s)..];
      ParsedPairsLongest(rest, n - 1);
      LongestNext(s, n, ParsePairs(rest, n - 1).list);
    }
  }

  lemma LongestNone(s: bytes, n: nat)
    requires n == 0 || |s| < 2 || |s| < PairEnd(s)
    ensures LongestPairs(s, n, [])
  {
    assert EncodePairs([]) == [];
    hide EncodePairs, PairEnd;
    forall qs | Fits(qs) && |qs| <= n && EncodePairs(qs) <= s ensures qs == [] {
      if qs != [] {
        EncodedFirst(s, qs);
        assert false;
      }
    }
  }

  lemma LongestNext(s: bytes, n: nat, ps: seq<Pair>)
    requires n > 0 && |s| >= 2 && |s| >= PairEnd(s) && LongestPairs(s[PairEnd(s)..], n - 1, ps)
    ensures LongestPairs(s, n, [FirstPair(s)] + ps)
  {
    EncodeNext(s, ps);
    forall qs | Fits(qs) && |qs| <= n && EncodePairs(qs) <= s ensures qs <= [FirstPair(s)] + ps {
      if qs != [] {
        EncodedFirst(s, qs);
        hide *;
        NextPrefix(s[PairEnd(s)..], n - 1, FirstPair(s), qs, ps);
      }
    }
  }

  lemma NextPrefix(rest: bytes, n: nat, p: Pair, qs: seq<Pair>, ps: seq<Pair>)
    requires LongestPairs(rest, n, ps)
    requires qs != [] && qs[0] == p && Fits(qs) && |qs| <= n + 1 && EncodePairs(qs[1..]) <= rest
    ensures qs <= [p] + ps
  {
    hide EncodePairs;
    assert qs[1..] <= ps;
    assert qs == [p] + qs[1..];
  }

  lemma EncodeNext(s: bytes, ps: seq<Pair>)
    requires |s| >= 2 && |s| >= PairEnd(s) && Fits(ps) && EncodePairs(ps) <= s[PairEnd(s)..]
    ensures var all := [FirstPair(s)] + ps; Fits(all) && EncodePairs(all) <= s
  {
    var all, used := [FirstPair(s)] + ps, |EncodePairs(ps)|;
    JoinFirst(s, used);
    assert all[0] == FirstPair(s) && all[1..] == ps;
    hide PairEnd, FirstPair;
    assert EncodePairs(all) == s[..PairEnd(s) + used];
  }

  // Whether or not a buffer parses: the package has the fields of the header
  // and as many of the pairs as lie in full within its size. A rejected one
  // is short of some.
  lemma ParsedLongest(b: bytes, size: nat)
    requires HEADER <= |b| && size <= |b|
    ensures var r := Parse(b, size);
            && EncodeHeader(r.pkg) == b[..HEADER]
            && LongestPairs(Rest(b, HEADER, size), r.pkg.numKvs, r.pkg.kvPairs)
            && (r.pos == 0 <==> |r.pkg.kvPairs| < r.pkg.numKvs)
  {
    ParsedPairsLongest(Rest(b, HEADER, size), b[2]);
    EncodeParsedHeader(b, Parse(b, size).pkg);
  }

  // Two lengths, the name and the value from pos on, up to `next`.
  ghost predicate PairAt(b: bytes, size: nat, p: Pair, pos: nat, next: nat)
    requires size <= |b|
  {
    && pos + 2 <= size
    && next == pos + 2 + b[pos] + b[pos + 1] <= size
    && p == Pair(b[pos + 2..pos + 2 + b[pos]], b[pos + 2 + b[pos]..next])
  }

  ghost predicate PairsAt(b: bytes, size: nat, ps: seq<Pair>, at: seq<nat>)
    requires size <= |b|
  {
    |at| == |ps| + 1 && forall i :: 0 <= i < |ps| ==> PairAt(b, size, ps[i], at[i], at[i + 1])
  }

  ghost predicate NoPairAt(b: bytes, size: nat, pos: nat)
    requires size <= |b|
  {
    pos + 2 > size || pos + 2 + b[pos] + b[pos + 1] > size
  }

  // They start behind the header; parsing ends with the last one, or with the
  // first one that reaches over the size.
  ghost predicate LaidOut(b: bytes, size: nat, pkg: Package, pos: nat, at: seq<nat>)
    requires size <= |b|
  {
    var n := |pkg.kvPairs|;
    && PairsAt(b, size, pkg.kvPairs, at)
    && at[0] == 19 && n <= pkg.numKvs
    && if n == pkg.numKvs then pos == at[n] else pos == 0 && NoPairAt(b, size, at[n])
  }

  // Up to n pairs from pos on, as r says.
  ghost predicate ListedAt(b: bytes, size: nat, pos: nat, n: nat, r: Pairs, at: seq<nat>)
    requires size <= |b|
  {
    && PairsAt(b, size, r.list, at) && at[0] == pos && |r.list| <= n
    && if r.ok then |r.list| == n && at[n] == pos + r.used
       else |r.list| < n && NoPairAt(b, size, at[|r.list|])
  }

  lemma {:induction false} PairsLaidOut(b: bytes, size: nat, pos: nat, n: nat) returns (at: seq<nat>)
    requires size <= |b|
    ensures ListedAt(b, size, pos, n, ParsePairs(Rest(b, pos, size), n), at)
    decreases n
  {
    var s := Rest(b, pos, size);
    ParsePairsStep(s, n);
    hide ParsePairs, ListedAt;
    if n == 0 || |s| < 2 || |s| < PairEnd(s) {
      at := [pos];
      NothingListed(b, size, pos, n);
    } else {
      FirstLaidOut(b, size, pos);
      hide Rest, Prepend, PairEnd, FirstPair, PairAt;
      var next := pos + PairEnd(s);
      var behind := PairsLaidOut(b, size, next, n - 1);
      ListedNext(b, size, pos, n, FirstPair(s), next, ParsePairs(Rest(b, next, size), n - 1), behind);
      at := [pos] + behind;
    }
  }

  lemma NothingListed(b: bytes, size: nat, pos: nat, n: nat)
    requires size <= |b|
    requires var s := Rest(b, pos, size); n == 0 || |s| < 2 || |s| < PairEnd(s)
    ensures ListedAt(b, size, pos, n, Pairs(n == 0, 0, []), [pos])
  {
  }

  lemma ListedNext(b: bytes, size: nat, pos: nat, n: nat, p: Pair, next: nat, r: Pairs, at: seq<nat>)
    requires 0 < n && pos <= next && size <= |b| && PairAt(b, size, p, pos, next)
    requires ListedAt(b, size, next, n - 1, r, at)
    ensures ListedAt(b, size, pos, n, Prepend([p], next - pos, r), [pos] + at)
  {
    hide PairAt, NoPairAt;
    PairsAtNext(b, size, pos, p, r.list, at);
  }

  lemma PairsAtNext(b: bytes, size: nat, pos: nat, p: Pair, ps: seq<Pair>, at: seq<nat>)
    requires size <= |b| && PairsAt(b, size, ps, at) && PairAt(b, size, p, pos, at[0])
    ensures PairsAt(b, size, [p] + ps, [pos] + at)
  {
    hide PairAt;
    var ps', at' := [p] + ps, [pos] + at;
    forall i | 0 <= i < |ps'| ensures PairAt(b, size, ps'[i], at'[i], at'[i + 1]) {
      if i > 0 {
        assert at'[i] == at[i - 1] && at'[i + 1] == at[i] && ps'[i] == ps[i - 1];
      }
    }
  }

  lemma FirstLaidOut(b: bytes, size: nat, pos: nat)
    requires size <= |b|
    requires var s := Rest(b, pos, size); |s| >= 2 && |s| >= PairEnd(s)
    ensures var s := Rest(b, pos, size);
            && PairAt(b, size, FirstPair(s), pos, pos + PairEnd(s))
            && Rest(b, pos + PairEnd(s), size) == s[PairEnd(s)..]
  {
    var s := Rest(b, pos, size);
    SliceShift(b, pos, size, 2, NameEnd(s));
    SliceShift(b, pos, size, NameEnd(s), PairEnd(s));
    SliceShift(b, pos, size, PairEnd(s), size - pos);
  }

  lemma ParsedLaidOut(b: bytes, size: nat) returns (at: seq<nat>)
    requires HEADER <= |b| && size <= |b|
    ensures LaidOut(b, size, Parse(b, size).pkg, Parse(b, size).pos, at)
  {
    at := PairsLaidOut(b, size, HEADER, b[2]);
  }

  ghost predicate StartsWithPackage(b: bytes) {
    exists pkg :: WellFormed(pkg) && Encode(pkg) <= b
  }

  // The parser gives up exactly when no package is encoded at the start.
  lemma ParseFailsExactly(b: bytes, size: nat)
    requires HEADER <= size <= |b|
    ensures Parse(b, size).pos == 0 <==> !StartsWithPackage(b[..size])
  {
    if Parse(b, size).pos > 0 {
      EncodeParsed(b, size);
      assert Encode(Parse(b, size).pkg) <= b[..size];
    } else if StartsWithPackage(b[..size]) {
      var pkg :| WellFormed(pkg) && Encode(pkg) <= b[..size];
      ParseEncoded(pkg, b, size);
      assert false;
    }
  }

  // Bytes behind the package size play no role, whether or not it parses.
  lemma ParseLocal(b: bytes, c: bytes, size: nat)
    requires HEADER <= size <= |b| && size <= |c| && b[..size] == c[..size]
    ensures Parse(b, size) == Parse(c, size)
  {
    assert forall i :: 0 <= i < size ==> b[i] == b[..size][i] == c[i];
    assert b[3..11] == c[3..11] && b[11..19] == c[11..19] && b[HEADER..size] == c[HEADER..size];
  }

  // Nor do bytes behind the position that a successful parse returns.
  lemma ParsePrefix(b: bytes, size: nat, c: bytes, size': nat)
    requires HEADER <= size <= |b| && Parse(b, size).pos > 0
    requires b[..Parse(b, size).pos] <= c && Parse(b, size).pos <= size' <= |c|
    ensures Parse(c, size') == Parse(b, size)
  {
    EncodeParsed(b, size);
    ParseEncoded(Parse(b, size).pkg, c, size');
  }

  // ----- responses

  function Zeros(n: nat): (z: bytes)
    ensures |z| == n && forall i :: 0 <= i < n ==> z[i] == 0
  {
    seq(n, _ => 0)
  }

  function ResponseBytes(size: u64): bytes {
    BigEndian(size, 8) + Zeros(size)
  }

  function ResponseStream(sizes: seq<u64>): bytes {
    if sizes == [] then [] else ResponseBytes(sizes[0]) + ResponseStream(sizes[1..])
  }

  // What a client does with the stream: read a size, skip that many bytes.
  function ReadSizes(stream: bytes): (sizes: seq<u64>)
    decreases |stream|
  {
    if |stream| < 8 then []
    else
      BigEndianBound(stream[..8]);
      var n: u64 := BigEndianValue(stream[..8]);
      if |stream| < 8 + n then [] else [n] + ReadSizes(stream[8 + n..])
  }

  lemma {:induction false} ResponsesDelimited(sizes: seq<u64>)
    ensures ReadSizes(ResponseStream(sizes)) == sizes
  {
    if sizes == [] {
    } else {
      var n, s := sizes[0], ResponseStream(sizes);
      Pow256Values();
      ValueOfBigEndian(n, 8);
      assert s[..8] == BigEndian(n, 8);
      assert s[8 + n..] == ResponseStream(sizes[1..]);
      ResponsesDelimited(sizes[1..]);
    }
  }

  lemma {:induction false} StreamSnoc(sizes: seq<u64>, size: u64)
    ensures ResponseStream(sizes + [size]) == ResponseStream(sizes) + ResponseBytes(size)
  {
    if sizes == [] {
      assert (sizes + [size])[1..] == [];
    } else {
      assert (sizes + [size])[1..] == sizes[1..] + [size];
      StreamSnoc(sizes[1..], size);
    }
  }
}
