/** Bytes, machine words and their big-endian layout. */
module Bytes {

  type byte = b: int | 0 <= b < 256
  type bytes = seq<byte>

  const TWO_TO_THE_32 := 0x1_0000_0000
  const TWO_TO_THE_63 := 0x8000_0000_0000_0000
  const TWO_TO_THE_64 := 0x1_0000_0000_0000_0000

  type u64 = x: int | 0 <= x < TWO_TO_THE_64

  // Division by p is determined by quotient and remainder.
  lemma DivModUnique(n: int, p: int, q: int, r: int)
    requires p > 0 && n == q * p + r && 0 <= r < p
    ensures n / p == q && n % p == r
  {
    var q' := n / p;
    assert (q' - q) * p == r - n % p;
    if q' > q {
      MulLe(1, q' - q, p);
    } else if q' < q {
      MulLe(q' - q, -1, p);
    }
  }

  lemma MulLe(a: int, b: int, p: int)
    requires a <= b && 0 <= p
    ensures a * p <= b * p
  {
  }

  // ----- big-endian words

  function Pow256(n: nat): nat {
    if n == 0 then 1 else Pow256(n - 1) * 256
  }

  lemma Pow256Values()
    ensures Pow256(4) == TWO_TO_THE_32 && Pow256(8) == TWO_TO_THE_64
  {
    assert Pow256(2) == 65536;
    assert Pow256(4) == Pow256(2) * 65536;
    assert Pow256(6) == Pow256(4) * 65536;
    assert Pow256(8) == Pow256(6) * 65536;
  }

  function BigEndianValue(s: bytes): (v: nat) {
    if |s| == 0 then 0 else BigEndianValue(s[..|s| - 1]) * 256 + s[|s| - 1]
  }

  lemma BigEndianNext(s: bytes, i: nat)
    requires i < |s|
    ensures BigEndianValue(s[..i + 1]) == BigEndianValue(s[..i]) * 256 + s[i]
  {
    assert s[..i + 1][..i] == s[..i];
  }

  function BigEndian(v: nat, n: nat): (s: bytes)
    ensures |s| == n
  {
    if n == 0 then [] else BigEndian(v / 256, n - 1) + [v % 256]
  }

  lemma {:induction false} ValueOfBigEndian(v: nat, n: nat)
    requires v < Pow256(n)
    ensures BigEndianValue(BigEndian(v, n)) == v
  {
    if n == 0 {
    } else {
      ValueOfBigEndian(v / 256, n - 1);
      assert BigEndian(v, n)[..n - 1] == BigEndian(v / 256, n - 1);
    }
  }

  lemma {:induction false} BigEndianOfValue(s: bytes)
    ensures BigEndianValue(s) < Pow256(|s|)
    ensures BigEndian(BigEndianValue(s), |s|) == s
  {
    if |s| == 0 {
    } else {
      BigEndianOfValue(s[..|s| - 1]);
    }
  }

  function Word32(a: int, b: int, c: int, d: int): int {
    ((a * 256 + b) * 256 + c) * 256 + d
  }

  lemma FourBytes(s: bytes)
    requires |s| == 4
    ensures BigEndianValue(s) == Word32(s[0], s[1], s[2], s[3])
  {
    assert s[..3][..2] == s[..2] && s[..2][..1] == s[..1] && s[..1][..0] == [];
    assert BigEndianValue(s[..1]) == s[0];
    assert BigEndianValue(s[..2]) == BigEndianValue(s[..1]) * 256 + s[1];
    assert BigEndianValue(s[..3]) == BigEndianValue(s[..2]) * 256 + s[2];
  }

  lemma EightBytes(s: bytes)
    requires |s| == 8
    ensures BigEndianValue(s) == Word32(s[0], s[1], s[2], s[3]) * TWO_TO_THE_32 + Word32(s[4], s[5], s[6], s[7])
  {
    assert s[..7][..6] == s[..6] && s[..6][..5] == s[..5] && s[..5][..4] == s[..4];
    FourBytes(s[..4]);
    hide Word32;
    assert BigEndianValue(s[..5]) == BigEndianValue(s[..4]) * 256 + s[4];
    assert BigEndianValue(s[..6]) == BigEndianValue(s[..5]) * 256 + s[5];
    assert BigEndianValue(s[..7]) == BigEndianValue(s[..6]) * 256 + s[6];
    LowWord(BigEndianValue(s[..4]), s[4], s[5], s[6], s[7]);
  }

  lemma LowWord(high: int, a: int, b: int, c: int, d: int)
    ensures (((high * 256 + a) * 256 + b) * 256 + c) * 256 + d == high * TWO_TO_THE_32 + Word32(a, b, c, d)
  {
  }

  // ----- bitwise or

  function BitOr(a: nat, b: nat): nat {
    if a == 0 then b
    else if b == 0 then a
    else 2 * BitOr(a / 2, b / 2) + (if a % 2 == 1 || b % 2 == 1 then 1 else 0)
  }

  function Pow2(n: nat): (p: nat)
    ensures p > 0
  {
    if n == 0 then 1 else 2 * Pow2(n - 1)
  }

  // Where the operands share no bit, `|` is `+`.
  lemma {:induction false} OrIsSum(hi: nat, lo: nat, n: nat)
    requires lo < Pow2(n)
    ensures BitOr(hi * Pow2(n), lo) == hi * Pow2(n) + lo
  {
    if n == 0 {
    } else {
      var p := Pow2(n - 1);
      OrIsSum(hi, lo / 2, n - 1);
      OrHalves(hi * p, lo);
      assert hi * Pow2(n) == 2 * (hi * p) by {
        Reorder(hi, p);
      }
    }
  }

  lemma Reorder(hi: int, p: int)
    ensures hi * (2 * p) == 2 * (hi * p)
  {
  }

  // One bit of `|` with an even left operand.
  lemma OrHalves(half: nat, lo: nat)
    requires BitOr(half, lo / 2) == half + lo / 2
    ensures BitOr(2 * half, lo) == 2 * half + lo
  {
  }

  lemma ModAdd(a: nat, b: nat, m: nat)
    requires m > 0
    ensures (a % m + b) % m == (a + b) % m
  {
    var q, t := a / m, a % m + b;
    assert a == q * m + a % m;
    assert t == (t / m) * m + t % m;
    assert a + b == (q + t / m) * m + t % m;
    DivModUnique(a + b, m, q + t / m, t % m);
  }
}
