/** Machine words as ranges of int, and the little-endian reading of byte strings. */
module Words {

  type Byte = x: int | 0 <= x < 0x100
  type Bytes = seq<Byte>
  type U16 = x: int | 0 <= x < 0x1_0000
  type U32 = x: int | 0 <= x < 0x1_0000_0000

  datatype Option<+T> = None | Some(value: T)

  function Min(a: int, b: int): int {
    if a < b then a else b
  }

  function Flatten<T>(parts: seq<seq<T>>): seq<T> {
    if parts == [] then [] else parts[0] + Flatten(parts[1..])
  }

  function Sum(s: Bytes): nat {
    if s == [] then 0 else s[0] as int + Sum(s[1..])
  }

  /** Truncation to 8, 16 and 32 bits. */
  function Wrap8(x: int): Byte {
    x % 0x100
  }

  function Wrap16(x: int): U16 {
    x % 0x1_0000
  }

  function Wrap32(x: int): U32 {
    x % 0x1_0000_0000
  }

  function Le16(s: seq<Byte>, at: nat): U16
    requires at + 2 <= |s|
  {
    s[at] as int + 0x100 * s[at + 1] as int
  }

  function Le32(s: seq<Byte>, at: nat): U32
    requires at + 4 <= |s|
  {
    Le16(s, at) as int + 0x1_0000 * Le16(s, at + 2) as int
  }

  predicate PowerOfTwo(n: int)
    decreases if n < 0 then 0 else n
  {
    n == 1 || (n > 1 && n % 2 == 0 && PowerOfTwo(n / 2))
  }

  /** The largest power of two not above n (1 for n == 0). */
  function Pow2Floor(n: nat): (p: nat)
    ensures p >= 1
  {
    if n <= 1 then 1 else 2 * Pow2Floor(n / 2)
  }

  lemma {:induction false} Pow2FloorExact(n: nat)
    requires n >= 1
    ensures Pow2Floor(n) <= n
    ensures Pow2Floor(n) == n <==> PowerOfTwo(n)
  {
    if n > 1 {
      Pow2FloorExact(n / 2);
    }
  }

  // Division by a variable, from multiplication.

  lemma {:induction false} Spread(size: nat, a: nat, b: nat)
    requires a < b
    ensures a * size + size <= b * size
  {
    assert b * size - a * size == (b - a) * size;
    assert (b - a) * size == (b - a - 1) * size + size;
  }

  lemma {:induction false} Quotient(size: nat, a: nat, b: nat, r: nat, s: nat)
    requires r < size && s < size && a * size + r == b * size + s
    ensures a == b && r == s
  {
    if a < b {
      Spread(size, a, b);
      assert false;
    } else if b < a {
      Spread(size, b, a);
      assert false;
    }
  }

  lemma {:induction false} DivRem(size: nat, link: nat, rem: nat)
    requires rem < size
    ensures (link * size + rem) / size == link && (link * size + rem) % size == rem
  {
    var x := link * size + rem;
    var d, m := x / size, x % size;
    assert x == d * size + m by { DivMod(x, size); }
    Quotient(size, link, d, rem, m);
  }

  /** So many pieces of a size, under a name that proofs can keep folded. */
  function Span(n: nat, size: nat): nat {
    n * size
  }

  /** A remainder, under a name that proofs can keep folded. */
  function Rem(x: int, n: nat): (r: nat)
    requires n > 0
    ensures r < n
  {
    x % n
  }

  /** A quotient, likewise. */
  function Quot(x: nat, n: nat): (q: nat)
    requires n > 0
  {
    x / n
  }

  lemma {:induction false} DivMod(x: nat, size: nat)
    requires size > 0
    ensures x == (x / size) * size + x % size
    ensures x % size < size
  {}

  lemma {:induction false} QuotientBelow(q: nat, size: nat, m: nat)
    requires size > 0 && q < Span(m, size)
    ensures Quot(q, size) < m
  {
    DivMod(q, size);
    if q / size >= m {
      if q / size > m {
        Spread(size, m, q / size);
      }
    }
  }

  lemma {:induction false} ModSucc(p: nat, n: nat)
    requires n > 0
    ensures (p + 1) % n == if p % n + 1 == n then 0 else p % n + 1
    ensures p % n + 1 != n ==> (p + 1) / n == p / n
  {
    var q, r := p / n, p % n;
    DivMod(p, n);
    if r + 1 == n {
      assert (q + 1) * n == q * n + n;
      DivRem(n, q + 1, 0);
    } else {
      DivRem(n, q, r + 1);
    }
  }

  /** Remainders by n do not see a multiple of a multiple of n. */
  lemma {:induction false} ModSkips(k: nat, size: nat, o: nat, n: nat)
    requires n > 0 && size % n == 0
    ensures (k * size + o) % n == o % n
  {
    var m, q, r := size / n, o / n, o % n;
    DivMod(size, n);
    DivMod(o, n);
    assert k * (m * n) == k * m * n;
    assert k * m * n + q * n == (k * m + q) * n;
    DivRem(n, k * m + q, r);
  }

  lemma {:induction false} SubsetSize<T>(a: set<T>, b: set<T>)
    requires a <= b
    ensures |a| <= |b|
  {
    if a != {} {
      var x :| x in a;
      SubsetSize(a - {x}, b - {x});
    }
  }

  // Sums over lists, whatever their order.

  function SumOf<T>(f: T -> nat, s: seq<T>): nat {
    if s == [] then 0 else f(s[0]) + SumOf(f, s[1..])
  }

  lemma {:induction false} SumOfConcat<T>(f: T -> nat, a: seq<T>, b: seq<T>)
    ensures SumOf(f, a + b) == SumOf(f, a) + SumOf(f, b)
  {
    if a == [] {
      assert a + b == b;
    } else {
      SumOfConcat(f, a[1..], b);
      assert (a + b)[1..] == a[1..] + b;
    }
  }

  lemma {:induction false} WithoutHead<T>(s: seq<T>)
    requires s != []
    ensures multiset(s[1..]) == multiset(s) - multiset{s[0]}
  {
    assert s == [s[0]] + s[1..];
  }

  lemma {:induction false} WithoutPlace<T>(s: seq<T>, k: nat)
    requires k < |s|
    ensures multiset(s[..k] + s[k + 1..]) == multiset(s) - multiset{s[k]}
  {
    assert s == s[..k] + [s[k]] + s[k + 1..];
  }

  /** In a permutation the first element has a place, and the rest permutes the rest. */
  lemma {:induction false} PermutedRest<T>(s: seq<T>, t: seq<T>) returns (k: nat)
    requires multiset(s) == multiset(t) && s != []
    ensures k < |t| && t[k] == s[0]
    ensures multiset(s[1..]) == multiset(t[..k] + t[k + 1..])
  {
    assert s[0] in multiset(t);
    k :| 0 <= k < |t| && t[k] == s[0];
    WithoutHead(s);
    WithoutPlace(t, k);
  }

  lemma {:induction false} SumAtPlace<T>(f: T -> nat, s: seq<T>, k: nat)
    requires k < |s|
    ensures SumOf(f, s) == f(s[k]) + SumOf(f, s[..k] + s[k + 1..])
  {
    SumOfConcat(f, s[..k], s[k + 1..]);
    SumOfConcat(f, s[..k], s[k..]);
    assert s == s[..k] + s[k..];
    assert s[k..][1..] == s[k + 1..];
  }

  lemma {:induction false} SumOfPermutation<T>(f: T -> nat, s: seq<T>, t: seq<T>)
    requires multiset(s) == multiset(t)
    ensures SumOf(f, s) == SumOf(f, t)
  {
    if s == [] {
      assert |multiset(t)| == 0;
    } else {
      var k := PermutedRest(s, t);
      SumOfPermutation(f, s[1..], t[..k] + t[k + 1..]);
      SumAtPlace(f, t, k);
    }
  }
}
