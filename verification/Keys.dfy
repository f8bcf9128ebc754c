/** Record key and field name flattened into one store key, and read back:
    pack_key and unpack_key of apps/ycsbserver/ops.cc, std::stoll, and the
    `istream >>` extractions of exec_read. */
module Keys {

  import opened Wrappers

  import opened Bytes
  import opened Decimal
  import opened ByteOrder

  // The exceptions of std::stoll and std::string::substr.
  datatype Error = InvalidArgument | OutOfRange

  const PLUS: byte := 43
  const MINUS: byte := 45
  const SLASH: byte := 47
  // "field"
  const FIELD: bytes := [102, 105, 101, 108, 100]

  function PackKey(key: nat, field: bytes, prefix: bytes): bytes {
    Digits(key) + [SLASH] + prefix + field
  }

  // ----- number lexing shared by std::stoll and istream >> uint64_t

  predicate IsSpace(b: byte) {
    b == 32 || 9 <= b <= 13
  }

  function SpaceRun(s: bytes): (n: nat)
    ensures n <= |s|
  {
    if s == [] || !IsSpace(s[0]) then 0 else 1 + SpaceRun(s[1..])
  }

  // Digits s[start..end], after optional white space and an optional sign.
  datatype Number = Number(negative: bool, start: nat, end: nat)

  function Lex(s: bytes): (n: Number)
    ensures n.start <= n.end <= |s| && AllDigits(s[n.start..n.end])
  {
    var w := SpaceRun(s);
    var signed := w < |s| && (s[w] == MINUS || s[w] == PLUS);
    var start := if signed then w + 1 else w;
    var run := DigitRun(s[start..]);
    assert s[start..][..run] == s[start..start + run];
    Number(signed && s[w] == MINUS, start, start + run)
  }

  // The value and the number of characters used.
  function StoLL(s: bytes): (r: Result<(int, nat), Error>)
    ensures r.Ok? ==> r.value.1 <= |s| && -TWO_TO_THE_63 <= r.value.0 < TWO_TO_THE_63
  {
    var n := Lex(s);
    if n.start == n.end then Err(InvalidArgument)
    else
      var v: int := Value(s[n.start..n.end]);
      var signed := if n.negative then -v else v;
      if -TWO_TO_THE_63 <= signed < TWO_TO_THE_63 then Ok((signed, n.end)) else Err(OutOfRange)
  }

  function UnpackKey(s: bytes): Result<(u64, bytes), Error> {
    match StoLL(s)
    case Err(e) => Err(e)
    case Ok((v, pos)) =>
      if pos + 1 > |s| then Err(OutOfRange) else Ok((v % TWO_TO_THE_64, s[pos + 1..]))
  }

  // `is >> key` on a string that is not blank: the value stored, and where
  // reading goes on (nowhere after a failure).
  datatype Extracted = Extracted(value: u64, good: bool, pos: nat)

  function ExtractKey(s: bytes): (e: Extracted)
    ensures e.pos <= |s|
  {
    var n := Lex(s);
    if n.start == n.end then Extracted(0, false, n.end)
    else
      var v := Value(s[n.start..n.end]);
      if v >= TWO_TO_THE_64 then Extracted(TWO_TO_THE_64 - 1, false, n.end)
      else Extracted(if n.negative then (TWO_TO_THE_64 - v) % TWO_TO_THE_64 else v, true, n.end)
  }

  function WordRun(s: bytes): (n: nat)
    ensures n <= |s|
  {
    if s == [] || IsSpace(s[0]) then 0 else 1 + WordRun(s[1..])
  }

  // `is >> field`: the next run of non-blank characters.
  function Word(s: bytes): bytes {
    var t := s[SpaceRun(s)..];
    t[..WordRun(t)]
  }

  predicate NoSpace(s: bytes) {
    forall i :: 0 <= i < |s| ==> !IsSpace(s[i])
  }

  lemma {:induction false} WordRunStops(s: bytes)
    ensures NoSpace(s[..WordRun(s)])
    ensures WordRun(s) < |s| ==> IsSpace(s[WordRun(s)])
  {
    if s == [] || IsSpace(s[0]) {
    } else {
      WordRunStops(s[1..]);
      var n := WordRun(s);
      forall i | 0 <= i < n ensures !IsSpace(s[..n][i]) {
        assert i > 0 ==> s[i] == s[1..][..n - 1][i - 1];
      }
    }
  }

  lemma {:induction false} SpaceRunAt(s: bytes, w: nat)
    requires w <= |s| && (w < |s| ==> !IsSpace(s[w])) && forall i :: 0 <= i < w ==> IsSpace(s[i])
    ensures SpaceRun(s) == w
  {
    if w == 0 {
    } else {
      assert forall i :: 0 <= i < w - 1 ==> s[1..][i] == s[i + 1];
      SpaceRunAt(s[1..], w - 1);
    }
  }

  // s[w..n] is an optional sign and the digits d, behind white space and not
  // followed by a digit.
  ghost predicate Spells(s: bytes, w: nat, n: nat, sign: bytes, d: bytes) {
    && w <= n <= |s|
    && (forall i :: 0 <= i < w ==> IsSpace(s[i]))
    && (sign == [] || sign == [PLUS] || sign == [MINUS])
    && AllDigits(d) && s[w..n] == sign + d
    && (d != [] || (sign == [] && n < |s| ==> !IsSpace(s[n]) && s[n] != PLUS && s[n] != MINUS))
    && (n < |s| ==> !IsDigit(s[n]))
  }

  function SignedValue(sign: bytes, d: bytes): int
    requires AllDigits(d)
  {
    var v: int := Value(d);
    if sign == [MINUS] then -v else v
  }

  lemma LexText(s: bytes, w: nat, n: nat, sign: bytes, d: bytes)
    requires Spells(s, w, n, sign, d)
    ensures |d| <= n && Lex(s) == Number(sign == [MINUS], n - |d|, n) && s[n - |d|..n] == d
  {
    var t, start := s[w..n], n - |d|;
    assert start == w + |sign| && t[|sign|..] == d == s[start..n];
    assert sign != [] ==> s[w] == t[0] == sign[0];
    assert sign == [] && d != [] ==> s[w] == t[0] && IsDigit(d[0]);
    DigitsBehind(s, start, n);
    hide SpaceRun, DigitRun;
    SpaceRunAt(s, w);
  }

  lemma DigitsBehind(s: bytes, start: nat, n: nat)
    requires start <= n <= |s| && AllDigits(s[start..n]) && (n < |s| ==> !IsDigit(s[n]))
    ensures DigitRun(s[start..]) == n - start
  {
    assert forall i :: 0 <= i < n - start ==> s[start..][i] == s[start..n][i];
    DigitRunAt(s[start..], n - start);
  }

  // std::stoll reads any number that fits, with white space and a sign in
  // front and anything but a digit behind it, and throws otherwise.
  lemma StoLLReads(s: bytes, w: nat, n: nat, sign: bytes, d: bytes)
    requires Spells(s, w, n, sign, d)
    ensures var v := SignedValue(sign, d);
            StoLL(s) ==
            if d == [] then Err(InvalidArgument)
            else if -TWO_TO_THE_63 <= v < TWO_TO_THE_63 then Ok((v, n))
            else Err(OutOfRange)
  {
    LexText(s, w, n, sign, d);
    hide Lex, Value, Spells;
  }

  // `is >> key` does the same modulo 2^64, and fails where there are no
  // digits or where they overflow.
  lemma ExtractReads(s: bytes, w: nat, n: nat, sign: bytes, d: bytes)
    requires Spells(s, w, n, sign, d)
    ensures var v := SignedValue(sign, d);
            ExtractKey(s) ==
            if d == [] then Extracted(0, false, n)
            else if -TWO_TO_THE_64 < v < TWO_TO_THE_64
            then Extracted(if v < 0 then v + TWO_TO_THE_64 else v, true, n)
            else Extracted(TWO_TO_THE_64 - 1, false, n)
  {
    LexText(s, w, n, sign, d);
    hide Lex, Value, Spells;
    var v := Value(d);
    if 0 < v < TWO_TO_THE_64 {
      DivModUnique(TWO_TO_THE_64 - v, TWO_TO_THE_64, 0, TWO_TO_THE_64 - v);
    }
  }

  // ----- what a packed key says

  function KeyNumber(s: bytes): nat {
    Value(s[..DigitRun(s)])
  }

  function FieldName(s: bytes): bytes {
    if DigitRun(s) < |s| then s[DigitRun(s) + 1..] else []
  }

  ghost predicate IsPacked(s: bytes) {
    exists k: u64, f: bytes :: s == PackKey(k, f, FIELD)
  }

  lemma PackedParts(k: nat, f: bytes, p: bytes)
    ensures var s := PackKey(k, f, p);
            && DigitRun(s) == |Digits(k)|
            && KeyNumber(s) == k && FieldName(s) == p + f
            && s == PackKey(k, p + f, [])
  {
    var s := PackKey(k, f, p);
    assert s == Digits(k) + [SLASH] + (p + f);
    assert forall i :: 0 <= i < |Digits(k)| ==> s[i] == Digits(k)[i];
    DigitRunAt(s, |Digits(k)|);
    assert s[..|Digits(k)|] == Digits(k);
    ValueOfDigits(k);
  }

  lemma PackKeyInjective(k: u64, f: bytes, j: u64, g: bytes, p: bytes)
    ensures PackKey(k, f, p) == PackKey(j, g, p) <==> k == j && f == g
  {
    PackedParts(k, f, p);
    PackedParts(j, g, p);
    assert (p + f)[|p|..] == f && (p + g)[|p|..] == g;
  }

  lemma PackedSpells(k: nat, f: bytes, p: bytes)
    ensures var s, n := PackKey(k, f, p), |Digits(k)|;
            && Spells(s, 0, n, [], Digits(k)) && 0 < n < |s| && !IsSpace(s[0])
            && s[n..] == [SLASH] + (p + f)
  {
    var d, t := Digits(k), [SLASH] + (p + f);
    assert PackKey(k, f, p) == d + t;
    hide PackKey, Digits;
    DigitsThenSlash(d, t);
  }

  lemma DigitsThenSlash(d: bytes, t: bytes)
    requires d != [] && AllDigits(d) && t != [] && t[0] == SLASH
    ensures var s := d + t;
            Spells(s, 0, |d|, [], d) && !IsSpace(s[0]) && s[|d|..] == t
  {
    var s := d + t;
    assert s[0..|d|] == d == [] + d;
    assert s[0] == d[0] && IsDigit(d[0]) && ZERO == 48 && s[|d|] == t[0];
  }

  lemma StoLLPacked(k: u64, f: bytes, p: bytes)
    ensures StoLL(PackKey(k, f, p)) == if k < TWO_TO_THE_63 then Ok((k, |Digits(k)|)) else Err(OutOfRange)
  {
    PackedSpells(k, f, p);
    ValueOfDigits(k);
    hide PackKey, StoLL, Digits, Value, Spells;
    StoLLReads(PackKey(k, f, p), 0, |Digits(k)|, [], Digits(k));
  }

  // unpack_key undoes pack_key exactly for the keys std::stoll can read; it
  // throws on all others.
  lemma UnpackPacked(k: u64, f: bytes, p: bytes)
    ensures UnpackKey(PackKey(k, f, p)) == if k < TWO_TO_THE_63 then Ok((k, p + f)) else Err(OutOfRange)
  {
    PackedSpells(k, f, p);
    StoLLPacked(k, f, p);
    var s := PackKey(k, f, p);
    if k < TWO_TO_THE_63 {
      hide PackKey, StoLL, Digits, Spells, UnpackKey;
      UnpackAt(s, k, |Digits(k)|, p + f);
    }
  }

  lemma UnpackAt(s: bytes, k: nat, n: nat, t: bytes)
    requires k < TWO_TO_THE_63 && StoLL(s) == Ok((k, n)) && n < |s| && s[n..] == [SLASH] + t
    ensures UnpackKey(s) == Ok((k, t))
  {
    hide StoLL;
    assert s[n + 1..] == s[n..][1..] == t;
  }

  lemma ExtractPacked(k: u64, f: bytes, p: bytes)
    ensures var s := PackKey(k, f, p);
            && SpaceRun(s) < |s|
            && ExtractKey(s) == Extracted(k, true, |Digits(k)|)
            && s[|Digits(k)|..] == [SLASH] + (p + f)
  {
    PackedSpells(k, f, p);
    ValueOfDigits(k);
    hide PackKey, ExtractKey, Digits, Spells;
    ExtractReads(PackKey(k, f, p), 0, |Digits(k)|, [], Digits(k));
  }

  // ----- byte order against numeric order

  lemma {:induction false} LessSnoc(a: bytes, b: bytes, x: byte, y: byte)
    requires |a| == |b|
    ensures Less(a + [x], b + [y]) <==> Less(a, b) || (a == b && x < y)
  {
    if a == [] {
      assert a + [x] == [x] && b + [y] == [y];
    } else {
      assert (a + [x])[1..] == a[1..] + [x] && (b + [y])[1..] == b[1..] + [y];
      LessSnoc(a[1..], b[1..], x, y);
      assert a == [a[0]] + a[1..] && b == [b[0]] + b[1..];
    }
  }

  // Numbers with equally many digits are ordered as numbers.
  lemma {:induction false} DigitsOrder(k: nat, j: nat)
    requires |Digits(k)| == |Digits(j)|
    ensures Less(Digits(k), Digits(j)) <==> k < j
    ensures Digits(k) == Digits(j) <==> k == j
  {
    ValueOfDigits(k);
    ValueOfDigits(j);
    if k >= 10 {
      DigitsOrder(k / 10, j / 10);
      LessSnoc(Digits(k / 10), Digits(j / 10), ZERO + k % 10, ZERO + j % 10);
    } else {
      assert Digits(k)[1..] == [] && Digits(j)[1..] == [];
    }
  }

  // Does record k come before record j in the store? The shorter number is
  // compared with the leading digits of the longer one.
  predicate RecordBefore(k: nat, j: nat) {
    var dk, dj := |Digits(k)|, |Digits(j)|;
    if dk <= dj then k <= Leading(j, dj - dk) && k != j else Leading(k, dk - dj) < j
  }

  // A longer digit string against a shorter one that ends in a slash.
  lemma LongerAgainstShorter(k: nat, j: nat, x: bytes, y: bytes)
    requires |Digits(k)| > |Digits(j)|
    ensures var m := Leading(k, |Digits(k)| - |Digits(j)|);
            && (Less(Digits(k) + [SLASH] + x, Digits(j) + [SLASH] + y) <==> m < j)
            && (Less(Digits(j) + [SLASH] + y, Digits(k) + [SLASH] + x) <==> j <= m)
  {
    var n := |Digits(j)|;
    var e := |Digits(k)| - n;
    var m := Leading(k, e);
    LeadingDigits(k, e);
    assert Digits(m) == Digits(k)[..n];
    var xs, ys := Digits(k)[n..] + [SLASH] + x, [SLASH] + y;
    assert Digits(k) + [SLASH] + x == Digits(m) + xs;
    assert Digits(j) + [SLASH] + y == Digits(j) + ys;
    DigitsOrder(m, j);
    DigitsOrder(j, m);
    if m == j {
      LessAfterPrefix(Digits(j), xs, ys);
      LessAfterPrefix(Digits(j), ys, xs);
      assert IsDigit(xs[0]);
    } else {
      LessByHead(Digits(m), Digits(j), xs, ys);
      LessByHead(Digits(j), Digits(m), ys, xs);
    }
  }

  // The store order of two packed keys: by record, then by field name.
  lemma PackedOrder(k: nat, f: bytes, j: nat, g: bytes, p: bytes)
    ensures Less(PackKey(k, f, p), PackKey(j, g, p)) <==>
            if k == j then Less(f, g) else RecordBefore(k, j)
  {
    assert PackKey(k, f, p) == Digits(k) + [SLASH] + (p + f);
    assert PackKey(j, g, p) == Digits(j) + [SLASH] + (p + g);
    if k == j {
      LessAfterPrefix(Digits(k) + [SLASH] + p, f, g);
    } else if |Digits(k)| > |Digits(j)| {
      LongerAgainstShorter(k, j, p + f, p + g);
    } else if |Digits(k)| < |Digits(j)| {
      LongerAgainstShorter(j, k, p + g, p + f);
    } else {
      DigitsOrder(k, j);
      assert Digits(k) + [SLASH] + (p + f) == Digits(k) + ([SLASH] + (p + f));
      assert Digits(j) + [SLASH] + (p + g) == Digits(j) + ([SLASH] + (p + g));
      LessByHead(Digits(k), Digits(j), [SLASH] + (p + f), [SLASH] + (p + g));
    }
  }

  // Between two keys of one record there are only keys of that record.
  lemma RecordContiguous(k: nat, f: bytes, s: bytes, g: bytes)
    requires Less(PackKey(k, f, []), s) && Less(s, PackKey(k, g, []))
    ensures exists h :: s == PackKey(k, h, [])
    ensures KeyNumber(s) == k
  {
    var p := Digits(k) + [SLASH];
    PrefixBetween(p, PackKey(k, f, []), s, PackKey(k, g, []));
    var h := s[|p|..];
    assert s == p + h == PackKey(k, h, []);
    PackedParts(k, h, []);
  }
}
