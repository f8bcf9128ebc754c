/** The word-copying `my_memcpy` of apps/memcpy/memcpy.c.

    Memory is one byte array and an address is an index into it, so that the
    two regions of a copy may overlap in any way. */
module Memcpy {

  import opened Bytes

  // sizeof(word_t) on the 64-bit targets
  const WORD := 8

  predicate Aligned(a: nat) {
    a % WORD == 0
  }

  lemma AlignedNext(a: nat)
    requires Aligned(a)
    ensures Aligned(a + WORD)
  {
  }

  // The reference: copy one byte at a time, lowest address first.
  function CopyAscending(m: seq<byte>, d: nat, s: nat, n: nat): (r: seq<byte>)
    requires d + n <= |m| && s + n <= |m|
    ensures |r| == |m|
    decreases n
  {
    if n == 0 then m else CopyAscending(m[d := m[s]], d + 1, s + 1, n - 1)
  }

  // Where the byte that ends up at address a comes from. Outside the
  // destination nothing changes; going down (or nowhere) the source arrives
  // intact; going up, the first d - s source bytes repeat.
  function Origin(d: nat, s: nat, n: nat, a: nat): (o: nat)
    ensures a < d + n ==> o < s + n || o == a
  {
    if a < d || d + n <= a then a
    else if s < d then
      Repeats(a - d, d - s);
      s + (a - d) % (d - s)
    else s + (a - d)
  }

  lemma Repeats(k: nat, p: nat)
    requires p > 0
    ensures 0 <= k % p <= k
    ensures k < p ==> k % p == k
    ensures k >= p ==> k % p == (k - p) % p
  {
    var q, r := k / p, k % p;
    if k < p {
      DivModUnique(k, p, 0, k);
    } else {
      assert k - p == (q - 1) * p + r;
      DivModUnique(k - p, p, q - 1, r);
      if q < 1 { MulLe(q, 0, p); }
      MulLe(0, q, p);
    }
  }

  lemma ModSuccessor(k: nat, p: nat)
    requires p > 0
    ensures (k + 1) % p == if k % p == p - 1 then 0 else k % p + 1
  {
    var q, r := k / p, k % p;
    if r == p - 1 {
      assert k + 1 == (q + 1) * p + 0;
      DivModUnique(k + 1, p, q + 1, 0);
    } else {
      assert k + 1 == q * p + (r + 1);
      DivModUnique(k + 1, p, q, r + 1);
    }
  }

  // One byte moved: the origins of the rest of the copy, seen through the
  // updated memory, are the origins of the whole copy.
  lemma OriginStep(m: seq<byte>, d: nat, s: nat, n: nat, a: nat)
    requires 0 < n && d + n <= |m| && s + n <= |m| && a < |m|
    ensures m[d := m[s]][Origin(d + 1, s + 1, n - 1, a)] == m[Origin(d, s, n, a)]
  {
    if d < a < d + n && s < d {
      ModSuccessor(a - d - 1, d - s);
    } else if a == d && s < d {
      Repeats(0, d - s);
    }
  }

  // Every byte of the result, for every placement of the two regions.
  lemma {:induction false} CopyClosedForm(m: seq<byte>, d: nat, s: nat, n: nat)
    requires d + n <= |m| && s + n <= |m|
    ensures forall a :: 0 <= a < |m| ==> CopyAscending(m, d, s, n)[a] == m[Origin(d, s, n, a)]
    decreases n
  {
    if n == 0 {
    } else {
      CopyClosedForm(m[d := m[s]], d + 1, s + 1, n - 1);
      forall a | 0 <= a < |m| ensures CopyAscending(m, d, s, n)[a] == m[Origin(d, s, n, a)] {
        OriginStep(m, d, s, n, a);
      }
    }
  }

  ghost predicate MovesIntact(m: seq<byte>, d: nat, s: nat, n: nat)
    requires d + n <= |m| && s + n <= |m|
  {
    CopyAscending(m, d, s, n)[d..d + n] == m[s..s + n]
  }

  // A memory on which a copy that runs into its own source goes wrong.
  lemma SmearsSource(m: seq<byte>, d: nat, s: nat, n: nat)
    requires s < d < s + n && d + n <= |m| && m[d] != m[s]
    ensures !MovesIntact(m, d, s, n)
  {
    CopyClosedForm(m, d, s, n);
    var k := d - s;
    Repeats(k, k);
    Repeats(0, k);
    var r := CopyAscending(m, d, s, n);
    hide CopyAscending;
    assert r[d..d + n][k] == r[d + k] == m[s];
    assert m[s..s + n][k] == m[d];
  }

  lemma BlockIntact(m: seq<byte>, d: nat, s: nat, n: nat)
    requires d + n <= |m| && s + n <= |m| && !(s < d < s + n)
    ensures MovesIntact(m, d, s, n)
  {
    CopyAsBlock(m, d, s, n);
    hide CopyAscending;
    assert BlockCopy(m, d, s, n)[d..d + n] == m[s..s + n];
  }

  // The copy behaves like memmove on every memory exactly when the
  // destination does not start strictly inside the source.
  lemma MemmoveExactly(size: nat, d: nat, s: nat, n: nat)
    requires d + n <= size && s + n <= size
    ensures (forall m: seq<byte> | |m| == size :: MovesIntact(m, d, s, n)) <==> !(s < d < s + n)
  {
    hide MovesIntact;
    if s < d < s + n {
      var m: seq<byte> := seq(size, i => if i == s then 1 else 0);
      SmearsSource(m, d, s, n);
    } else {
      forall m: seq<byte> | |m| == size ensures MovesIntact(m, d, s, n) {
        BlockIntact(m, d, s, n);
      }
    }
  }

  // What an atomic load of n bytes followed by a store of n bytes leaves.
  function BlockCopy(m: seq<byte>, d: nat, s: nat, n: nat): (r: seq<byte>)
    requires d + n <= |m| && s + n <= |m|
    ensures |r| == |m|
  {
    m[..d] + m[s..s + n] + m[d + n..]
  }

  lemma CopyAsBlock(m: seq<byte>, d: nat, s: nat, n: nat)
    requires d + n <= |m| && s + n <= |m|
    requires !(s < d < s + n)
    ensures CopyAscending(m, d, s, n) == BlockCopy(m, d, s, n)
  {
    CopyClosedForm(m, d, s, n);
    var r, b := CopyAscending(m, d, s, n), BlockCopy(m, d, s, n);
    forall a | 0 <= a < |m| ensures r[a] == b[a] {
      if d <= a < d + n && s < d {
        Repeats(a - d, d - s);
      }
    }
  }

  lemma {:induction false} CopySplit(m: seq<byte>, d: nat, s: nat, a: nat, b: nat)
    requires d + a + b <= |m| && s + a + b <= |m|
    ensures CopyAscending(m, d, s, a + b) == CopyAscending(CopyAscending(m, d, s, a), d + a, s + a, b)
    decreases a
  {
    if a == 0 {
    } else {
      CopySplit(m[d := m[s]], d + 1, s + 1, a - 1, b);
    }
  }

  lemma CopyNothing(m: seq<byte>, d: nat, s: nat)
    requires d <= |m| && s <= |m|
    ensures CopyAscending(m, d, s, 0) == m
  {
  }

  // Equal alignment makes the distance a multiple of the word size, so one
  // word never overlaps itself in the harmful direction.
  lemma WordIsBytes(m: seq<byte>, d: nat, s: nat, n: nat)
    requires WORD <= n && d + n <= |m| && s + n <= |m|
    requires Aligned(d) && Aligned(s)
    ensures CopyAscending(m, d, s, n) ==
            CopyAscending(BlockCopy(m, d, s, WORD), d + WORD, s + WORD, n - WORD)
  {
    CopyAsBlock(m, d, s, WORD);
    CopySplit(m, d, s, WORD, n - WORD);
  }

  // `*bdest++ = *bsrc++; len--;`
  method CopyByte(mem: array<byte>, d: nat, s: nat, n: nat) returns (d': nat, s': nat, n': nat)
    requires 0 < n && d + n <= mem.Length && s + n <= mem.Length
    modifies mem
    ensures d' == d + 1 && s' == s + 1 && n' == n - 1
    ensures d % WORD == s % WORD ==> d' % WORD == s' % WORD
    ensures CopyAscending(mem[..], d', s', n') == CopyAscending(old(mem[..]), d, s, n)
  {
    ghost var m := mem[..];
    mem[d] := mem[s];
    assert mem[..] == m[d := m[s]];
    ModSuccessor(d, WORD);
    ModSuccessor(s, WORD);
    d', s', n' := d + 1, s + 1, n - 1;
  }

  // One word store of what one word load has read.
  method MoveWord(mem: array<byte>, d: nat, s: nat)
    requires d + WORD <= mem.Length && s + WORD <= mem.Length
    modifies mem
    ensures mem[..] == BlockCopy(old(mem[..]), d, s, WORD)
  {
    ghost var m := mem[..];
    var word := mem[s..s + WORD];
    forall i | 0 <= i < WORD {
      mem[d + i] := word[i];
    }
    assert mem[..d] == m[..d] && mem[d..d + WORD] == word && mem[d + WORD..] == m[d + WORD..];
    assert mem[..] == mem[..d] + mem[d..d + WORD] + mem[d + WORD..];
  }

  // `*ddest = *dsrc` on words, which have to be aligned. `n` is what is left
  // to copy before this word.
  method CopyWord(mem: array<byte>, d: nat, s: nat, ghost n: nat)
    requires WORD <= n && d + n <= mem.Length && s + n <= mem.Length
    requires Aligned(d) && Aligned(s)
    modifies mem
    ensures Aligned(d + WORD) && Aligned(s + WORD)
    ensures CopyAscending(mem[..], d + WORD, s + WORD, n - WORD) == CopyAscending(old(mem[..]), d, s, n)
  {
    WordIsBytes(mem[..], d, s, n);
    AlignedNext(d);
    AlignedNext(s);
    hide CopyAscending, BlockCopy, Aligned;
    MoveWord(mem, d, s);
  }

  // The body of the unrolled loop.
  method CopyEightWords(mem: array<byte>, d: nat, s: nat, ghost n: nat)
    requires WORD * 8 <= n && d + n <= mem.Length && s + n <= mem.Length
    requires Aligned(d) && Aligned(s)
    modifies mem
    ensures Aligned(d + 8 * WORD) && Aligned(s + 8 * WORD)
    ensures CopyAscending(mem[..], d + 8 * WORD, s + 8 * WORD, n - 8 * WORD) ==
            CopyAscending(old(mem[..]), d, s, n)
  {
    hide CopyAscending, Aligned;
    CopyWord(mem, d, s, n);
    CopyWord(mem, d + WORD, s + WORD, n - WORD);
    CopyWord(mem, d + 2 * WORD, s + 2 * WORD, n - 2 * WORD);
    CopyWord(mem, d + 3 * WORD, s + 3 * WORD, n - 3 * WORD);
    CopyWord(mem, d + 4 * WORD, s + 4 * WORD, n - 4 * WORD);
    CopyWord(mem, d + 5 * WORD, s + 5 * WORD, n - 5 * WORD);
    CopyWord(mem, d + 6 * WORD, s + 6 * WORD, n - 6 * WORD);
    CopyWord(mem, d + 7 * WORD, s + 7 * WORD, n - 7 * WORD);
  }

  // Both word loops, eight at a time and then one at a time.
  method CopyWords(mem: array<byte>, d: nat, s: nat, n: nat) returns (d': nat, s': nat, n': nat)
    requires d + n <= mem.Length && s + n <= mem.Length
    requires n > 0 ==> Aligned(d) && Aligned(s)
    modifies mem
    ensures n' < WORD && d' + n' == d + n && s' + n' == s + n
    ensures CopyAscending(mem[..], d', s', n') == CopyAscending(old(mem[..]), d, s, n)
  {
    hide CopyAscending, Aligned;
    d', s', n' := d, s, n;
    while n' >= WORD * 8
      invariant d' + n' == d + n && s' + n' == s + n
      invariant n' > 0 ==> Aligned(d') && Aligned(s')
      invariant CopyAscending(mem[..], d', s', n') == CopyAscending(old(mem[..]), d, s, n)
    {
      CopyEightWords(mem, d', s', n');
      d', s', n' := d' + 8 * WORD, s' + 8 * WORD, n' - 8 * WORD;
    }
    while n' >= WORD
      invariant d' + n' == d + n && s' + n' == s + n
      invariant n' > 0 ==> Aligned(d') && Aligned(s')
      invariant CopyAscending(mem[..], d', s', n') == CopyAscending(old(mem[..]), d, s, n)
    {
      CopyWord(mem, d', s', n');
      d', s', n' := d' + WORD, s' + WORD, n' - WORD;
    }
  }

  method MyMemcpy(mem: array<byte>, dest: nat, src: nat, len: nat) returns (r: nat)
    requires dest + len <= mem.Length && src + len <= mem.Length
    modifies mem
    ensures r == dest
    ensures mem[..] == CopyAscending(old(mem[..]), dest, src, len)
  {
    hide CopyAscending;
    ghost var goal := CopyAscending(mem[..], dest, src, len);
    var bdest: nat, bsrc: nat, left: nat := dest, src, len;
    if bdest % WORD == bsrc % WORD {
      while left > 0 && bdest % WORD != 0
        invariant bdest + left == dest + len && bsrc + left == src + len
        invariant bdest % WORD == bsrc % WORD
        invariant CopyAscending(mem[..], bdest, bsrc, left) == goal
      {
        bdest, bsrc, left := CopyByte(mem, bdest, bsrc, left);
      }
      bdest, bsrc, left := CopyWords(mem, bdest, bsrc, left);
    }
    while left > 0
      invariant bdest + left == dest + len && bsrc + left == src + len
      invariant CopyAscending(mem[..], bdest, bsrc, left) == goal
    {
      bdest, bsrc, left := CopyByte(mem, bdest, bsrc, left);
    }
    CopyNothing(mem[..], bdest, bsrc);
    return dest;
  }
}
