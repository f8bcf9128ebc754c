/** The integer statistics of include/common.h: mean and standard deviation
    with the first two samples thrown away. */
module Stats {

  import opened Bytes

  const FIRST_RESULT := 2

  function Sum(s: seq<u64>): (r: nat) {
    if |s| == 0 then 0 else Sum(s[..|s| - 1]) + s[|s| - 1]
  }

  function Square(d: int): int {
    d * d
  }

  function SumOfSquares(s: seq<int>): int {
    if |s| == 0 then 0 else SumOfSquares(s[..|s| - 1]) + Square(s[|s| - 1])
  }

  // Sum of the squared distances to c.
  function Spread(s: seq<int>, c: int): int {
    if |s| == 0 then 0 else Spread(s[..|s| - 1], c) + Square(s[|s| - 1] - c)
  }

  lemma {:induction false} SpreadNonNegative(s: seq<int>, c: int)
    ensures Spread(s, c) >= 0
  {
    if |s| == 0 {
    } else {
      SpreadNonNegative(s[..|s| - 1], c);
      SquareNonNegative(s[|s| - 1] - c);
    }
  }

  lemma SquareNonNegative(d: int)
    ensures d * d >= 0
  {
  }

  // ----- the C functions

  // What is missing in the sum is the first two samples.
  method ComputeSum(vals: seq<u64>, count: nat) returns (sum: u64)
    requires count <= |vals|
    ensures 2 <= count ==> sum == Sum(vals[2..count]) % TWO_TO_THE_64
    ensures 2 <= count ==> (sum + Sum(vals[..2])) % TWO_TO_THE_64 == Sum(vals[..count]) % TWO_TO_THE_64
    ensures count < 2 ==> sum == 0
  {
    sum := 0;
    var i := FIRST_RESULT;
    while i < count
      invariant FIRST_RESULT <= i && (i <= count || count < FIRST_RESULT)
      invariant i <= count ==> sum == Sum(vals[FIRST_RESULT..i]) % TWO_TO_THE_64
      invariant i > count ==> sum == 0
    {
      assert vals[FIRST_RESULT..i + 1][..i - FIRST_RESULT] == vals[FIRST_RESULT..i];
      ModAdd(Sum(vals[FIRST_RESULT..i]), vals[i], TWO_TO_THE_64);
      sum := (sum + vals[i]) % TWO_TO_THE_64;
      i := i + 1;
    }
    if 2 <= count {
      SumSplit(vals[..count], 2);
      assert vals[..count][..2] == vals[..2] && vals[..count][2..] == vals[2..count];
      ModAdd(Sum(vals[2..count]), Sum(vals[..2]), TWO_TO_THE_64);
    }
  }

  lemma {:induction false} SumSplit(s: seq<u64>, c: nat)
    requires c <= |s|
    ensures Sum(s) == Sum(s[..c]) + Sum(s[c..])
  {
    if c == |s| {
      assert s[..c] == s;
    } else {
      var n := |s| - 1;
      SumSplit(s[..n], c);
      assert s[..n][..c] == s[..c] && s[c..][..n - c] == s[..n][c..];
    }
  }

  // `count - FIRST_RESULT` on unsigned long.
  function Divisor(count: u64): (d: nat)
    ensures count > FIRST_RESULT ==> d == count - FIRST_RESULT
    ensures count < FIRST_RESULT ==> d > 1
  {
    (count - FIRST_RESULT) % TWO_TO_THE_64
  }

  // With exactly two samples the original divides by zero.
  method ComputeAvg(vals: seq<u64>, count: u64) returns (avg: u64)
    requires count <= |vals| && count != FIRST_RESULT
    ensures count > 2 ==> avg == Sum(vals[2..count]) % TWO_TO_THE_64 / (count - 2)
    ensures count < 2 ==> avg == 0
  {
    var sum := ComputeSum(vals, count);
    DivBounds(sum, Divisor(count));
    avg := sum / Divisor(count);
  }

  // The cast from unsigned long to long.
  function ToLong(v: u64): (r: int)
    ensures -TWO_TO_THE_63 <= r < TWO_TO_THE_63 && (v - r) % TWO_TO_THE_64 == 0
  {
    if v < TWO_TO_THE_63 then v else v - TWO_TO_THE_64
  }

  function ToLongs(s: seq<u64>): (r: seq<int>)
    ensures |r| == |s| && forall i :: 0 <= i < |s| ==> r[i] == ToLong(s[i])
  {
    seq(|s|, i requires 0 <= i < |s| => ToLong(s[i]))
  }

  lemma SmallToLongs(s: seq<u64>)
    requires Within(s, 0, TWO_TO_THE_63 - 1)
    ensures ToLongs(s) == s
  {
    forall i | 0 <= i < |s| ensures ToLongs(s)[i] == s[i] {
      assert s[i] < TWO_TO_THE_63;
    }
  }

  // The squares and their sum have to fit a signed 64-bit integer; anything
  // else is undefined behaviour in the original.
  method ComputeStddev(vals: seq<u64>, count: u64, avg: u64) returns (dev: nat)
    requires count <= |vals| && count != FIRST_RESULT
    requires count > 2 ==> Spread(ToLongs(vals[2..count]), ToLong(avg)) < TWO_TO_THE_63
    ensures count > 2 ==>
              var q := Spread(ToLongs(vals[2..count]), ToLong(avg)) / (count - 2);
              dev * dev <= q < (dev + 1) * (dev + 1)
    ensures count < 2 ==> dev == 0
  {
    var sum := 0;
    var i := FIRST_RESULT;
    while i < count
      invariant FIRST_RESULT <= i && (i <= count || count < FIRST_RESULT)
      invariant i <= count ==> sum == Spread(ToLongs(vals[FIRST_RESULT..i]), ToLong(avg))
      invariant i > count ==> sum == 0
    {
      var tmp := ToLong(vals[i]) - ToLong(avg);
      sum := sum + tmp * tmp;
      assert ToLongs(vals[FIRST_RESULT..i + 1])[..i - FIRST_RESULT] == ToLongs(vals[FIRST_RESULT..i]);
      i := i + 1;
    }
    if count > 2 {
      SpreadNonNegative(ToLongs(vals[2..count]), ToLong(avg));
    }
    DivBounds(sum, Divisor(count));
    dev := FloorSqrt(sum / Divisor(count), 0);
    if dev > 0 {
      MulLe(1, dev, dev);
    }
  }

  // avg and dev are what is reported for the samples s.
  ghost predicate Reports(s: seq<u64>, avg: u64, dev: nat)
    requires |s| > 0
  {
    && avg == Sum(s) % TWO_TO_THE_64 / |s|
    && dev * dev <= Spread(ToLongs(s), ToLong(avg)) / |s| < (dev + 1) * (dev + 1)
  }

  // What the benchmarks report: the average, and the deviation about it. If
  // the sum fits 64 bits and the samples are not negative as long, both are
  // within the range of the samples, and the variance is the true one up to
  // less than 1.
  method Report(vals: seq<u64>, count: u64) returns (avg: u64, dev: nat)
    requires 2 < count <= |vals|
    requires var s := vals[2..count];
             Spread(ToLongs(s), ToLong(Sum(s) % TWO_TO_THE_64 / |s|)) < TWO_TO_THE_63
    ensures Reports(vals[2..count], avg, dev)
    ensures var s := vals[2..count];
            Sum(s) < TWO_TO_THE_64 && Within(s, 0, TWO_TO_THE_63 - 1) ==>
              && (forall lo, hi :: Within(s, lo, hi) ==> lo <= avg <= hi && dev <= hi - lo)
              && dev * dev * (|s| * |s|) < |s| * SumOfSquares(s) - Square(Sum(s)) + |s| * |s|
              && |s| * SumOfSquares(s) - Square(Sum(s)) - |s| * |s| < ((dev + 1) * (dev + 1) - 1) * (|s| * |s|)
  {
    avg := ComputeAvg(vals, count);
    dev := ComputeStddev(vals, count, avg);
    ghost var s := vals[2..count];
    hide Spread, Sum, SumOfSquares, Square;
    if Sum(s) < TWO_TO_THE_64 && Within(s, 0, TWO_TO_THE_63 - 1) {
      Reported(s, avg, dev);
      ReportedVariance(s, dev);
      forall lo, hi | Within(s, lo, hi) ensures lo <= avg <= hi && dev <= hi - lo {
        AvgInRange(s, lo, hi);
        DeviationInRange(s, lo, hi, dev);
      }
    }
  }

  // Two series that differ in their first two samples, or behind `count`,
  // have the same report.
  lemma WarmupIgnored(vals: seq<u64>, ws: seq<u64>, count: nat, avg: u64, dev: nat, avg': u64, dev': nat)
    requires 2 < count <= |vals| && count <= |ws|
    requires forall i :: 2 <= i < count ==> vals[i] == ws[i]
    requires Reports(vals[2..count], avg, dev) && Reports(ws[2..count], avg', dev')
    ensures avg == avg' && dev == dev'
  {
    assert vals[2..count] == ws[2..count];
    hide Spread, Sum;
    if dev < dev' {
      RootOrder(dev, dev');
    } else if dev' < dev {
      RootOrder(dev', dev);
    }
  }

  lemma RootOrder(a: nat, b: nat)
    requires a < b
    ensures (a + 1) * (a + 1) <= b * b
  {
    MulLe(a + 1, b, a + 1);
    MulLe(a + 1, b, b);
  }

  function FloorSqrt(x: nat, from: nat): (r: nat)
    requires from * from <= x
    ensures r * r <= x < (r + 1) * (r + 1)
    decreases x - from
  {
    if x < (from + 1) * (from + 1) then from else FloorSqrt(x, from + 1)
  }

  lemma DivBounds(s: nat, n: nat)
    requires n > 0
    ensures 0 <= s / n <= s && n * (s / n) <= s < n * (s / n) + n
  {
    var q := s / n;
    assert s == n * q + s % n;
    MulLe(1, n, q);
  }

  // ----- what they mean

  // The reported average is the rounded-down mean exactly when the running
  // sum never leaves 64 bits.
  lemma AvgIsMeanExactly(s: seq<u64>)
    requires 0 < |s| < TWO_TO_THE_64
    ensures Sum(s) % TWO_TO_THE_64 / |s| == Sum(s) / |s| <==> Sum(s) < TWO_TO_THE_64
  {
    var total, n := Sum(s), |s|;
    var wrapped := total % TWO_TO_THE_64;
    if total >= TWO_TO_THE_64 {
      assert wrapped + n <= total;
      DivBounds(total, n);
      DivBounds(wrapped, n);
    }
  }

  ghost predicate Within(s: seq<int>, lo: int, hi: int) {
    forall k :: 0 <= k < |s| ==> lo <= s[k] <= hi
  }

  lemma {:induction false} SumBounds(s: seq<u64>, lo: int, hi: int)
    requires Within(s, lo, hi)
    ensures lo * |s| <= Sum(s) <= hi * |s|
  {
    if |s| == 0 {
    } else {
      var t := s[..|s| - 1];
      SumBounds(t, lo, hi);
      assert lo * |s| == lo * |t| + lo && hi * |s| == hi * |t| + hi;
    }
  }

  lemma AvgInRange(s: seq<u64>, lo: int, hi: int)
    requires |s| > 0 && Within(s, lo, hi)
    ensures lo <= Sum(s) / |s| <= hi
  {
    SumBounds(s, lo, hi);
    QuotientInRange(Sum(s), |s|, lo, hi);
  }

  lemma QuotientInRange(total: nat, n: nat, lo: int, hi: int)
    requires n > 0 && lo * n <= total <= hi * n
    ensures lo <= total / n <= hi
  {
    DivBounds(total, n);
    FactorInRange(total, n, total / n, lo, hi);
  }

  lemma FactorInRange(total: int, n: int, q: int, lo: int, hi: int)
    requires n > 0 && n * q <= total < n * q + n && lo * n <= total <= hi * n
    ensures lo <= q <= hi
  {
    if q < lo { MulLe(q + 1, lo, n); }
    if q > hi { MulLe(hi + 1, q, n); }
  }

  // The sum of (v - c)^2 over n values with sum t and sum of squares q.
  function Expanded(q: int, t: int, n: int, c: int): int {
    q - 2 * c * t + n * c * c
  }

  lemma {:induction false} SpreadExpands(s: seq<u64>, c: int)
    ensures Spread(s, c) == Expanded(SumOfSquares(s), Sum(s), |s|, c)
  {
    if |s| == 0 {
    } else {
      var t, v := s[..|s| - 1], s[|s| - 1];
      SpreadExpands(t, c);
      ExpandStep(SumOfSquares(t), Sum(t), |t|, v, c);
    }
  }

  lemma ExpandStep(q: int, t: int, n: int, v: int, c: int)
    ensures Expanded(q, t, n, c) + Square(v - c) == Expanded(q + Square(v), t + v, n + 1, c)
  {
  }

  // The rounding of the mean shows up in the spread as the square of the
  // remainder, and nowhere else.
  lemma SpreadAboutMean(s: seq<u64>)
    requires |s| > 0
    ensures var n, total := |s|, Sum(s);
            n * Spread(s, total / n) == n * SumOfSquares(s) - Square(total) + Square(total % n)
  {
    DivMod(Sum(s), |s|);
    SpreadAbout(s, Sum(s) / |s|, Sum(s) % |s|);
  }

  lemma DivMod(t: nat, n: nat)
    requires n > 0
    ensures t == n * (t / n) + t % n && 0 <= t % n < n
  {
  }

  lemma SpreadAbout(s: seq<u64>, a: int, r: int)
    requires Sum(s) == |s| * a + r
    ensures |s| * Spread(s, a) == |s| * SumOfSquares(s) - Square(Sum(s)) + Square(r)
  {
    SpreadExpands(s, a);
    RemainderSquare(|s|, a, r, Sum(s), SumOfSquares(s), Spread(s, a));
  }

  lemma RemainderSquare(n: int, a: int, r: int, total: int, q: int, spread: int)
    requires total == n * a + r
    requires spread == Expanded(q, total, n, a)
    ensures n * spread == n * q - Square(total) + Square(r)
  {
    var p := n * a;
    assert Square(r) == (total - p) * (total - p);
    assert (total - p) * (total - p) == total * total - 2 * p * total + p * p;
    assert n * (q - 2 * a * total + n * a * a) == n * q - 2 * p * total + p * p;
  }

  // The integer variance is less than 1 away from the true one, which is
  // (n * SumOfSquares - Sum^2) / n^2.
  lemma VarianceWithinOne(s: seq<u64>)
    requires |s| > 0
    ensures var n, total := |s|, Sum(s);
            -(n * n) < n * n * (Spread(s, total / n) / n) - (n * SumOfSquares(s) - Square(total)) < n * n
  {
    var n, total := |s|, Sum(s);
    var spread := Spread(s, total / n);
    SpreadAboutMean(s);
    SpreadNonNegative(s, total / n);
    DivBounds(spread, n);
    RoundingError(n, spread, spread / n, n * SumOfSquares(s) - Square(total), total % n);
  }

  lemma RoundingError(n: nat, spread: nat, q: nat, exact: int, r: nat)
    requires n * spread == exact + r * r
    requires n * q <= spread < n * q + n && r < n
    ensures -(n * n) < n * n * q - exact < n * n
  {
    var rest := spread - n * q;
    assert n * rest == n * spread - n * n * q;
    ProductBelow(rest, n, n);
    ProductBelow(r, r, n);
  }

  lemma ProductBelow(a: nat, b: nat, n: nat)
    requires a < n && b <= n
    ensures 0 <= b * a < n * n
  {
    MulLe(b, n, a);
    MulLe(a, n - 1, n);
    MulLe(0, b, a);
  }

  lemma {:induction false} SpreadBound(s: seq<int>, c: int, w: nat)
    requires Within(s, c - w, c + w)
    ensures Spread(s, c) <= |s| * (w * w)
  {
    if |s| == 0 {
    } else {
      var t, d := s[..|s| - 1], s[|s| - 1] - c;
      SpreadBound(t, c, w);
      SquareBound(d, w);
      assert |s| * (w * w) == |t| * (w * w) + w * w;
    }
  }

  lemma SquareBound(d: int, w: int)
    requires -w <= d <= w
    ensures d * d <= w * w
  {
    assert (w - d) * (w + d) >= 0;
    assert (w - d) * (w + d) == w * w - d * d;
  }

  lemma SquareOrder(a: nat, b: nat)
    requires a * a <= b * b
    ensures a <= b
  {
    if b < a {
      MulLe(b + 1, a, a);
      MulLe(b + 1, a, b);
    }
  }

  // The reported deviation never exceeds the range of the samples.
  lemma DeviationInRange(s: seq<u64>, lo: int, hi: int, dev: nat)
    requires |s| > 0 && Within(s, lo, hi)
    requires dev * dev <= Spread(s, Sum(s) / |s|) / |s|
    ensures dev <= hi - lo
  {
    var n, a, w := |s|, Sum(s) / |s|, hi - lo;
    AvgInRange(s, lo, hi);
    assert lo <= s[0] <= hi;
    SpreadBound(s, a, w);
    SpreadNonNegative(s, a);
    MulLe(0, w, w);
    QuotientInRange(Spread(s, a), n, 0, w * w);
    SquareOrder(dev, w);
  }

  lemma Reported(s: seq<u64>, avg: u64, dev: nat)
    requires |s| > 0 && Sum(s) < TWO_TO_THE_64 && Within(s, 0, TWO_TO_THE_63 - 1)
    requires avg == Sum(s) % TWO_TO_THE_64 / |s|
    requires dev * dev <= Spread(ToLongs(s), ToLong(avg)) / |s| < (dev + 1) * (dev + 1)
    ensures avg == Sum(s) / |s|
    ensures dev * dev <= Spread(s, Sum(s) / |s|) / |s| < (dev + 1) * (dev + 1)
  {
    SmallToLongs(s);
    DivModUnique(Sum(s), TWO_TO_THE_64, 0, Sum(s));
    AvgInRange(s, 0, TWO_TO_THE_63 - 1);
  }

  lemma ReportedVariance(s: seq<u64>, dev: nat)
    requires |s| > 0
    requires dev * dev <= Spread(s, Sum(s) / |s|) / |s| < (dev + 1) * (dev + 1)
    ensures dev * dev * (|s| * |s|) < |s| * SumOfSquares(s) - Square(Sum(s)) + |s| * |s|
    ensures |s| * SumOfSquares(s) - Square(Sum(s)) - |s| * |s| < ((dev + 1) * (dev + 1) - 1) * (|s| * |s|)
  {
    VarianceWithinOne(s);
    hide Spread, Sum, SumOfSquares, Square;
    MulLe(0, |s|, |s|);
    ScaledBounds(|s| * |s|, dev * dev, Spread(s, Sum(s) / |s|) / |s|, (dev + 1) * (dev + 1),
                 |s| * SumOfSquares(s) - Square(Sum(s)));
  }

  lemma ScaledBounds(nn: int, lo: int, q: int, hi: int, exact: int)
    requires 0 <= nn && lo <= q < hi && -nn < nn * q - exact < nn
    ensures lo * nn < exact + nn && exact - nn < (hi - 1) * nn
  {
    MulLe(lo, q, nn);
    MulLe(q, hi - 1, nn);
  }
}
