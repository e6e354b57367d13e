/**
 Storing integers byte by byte, low byte first (my_global.h, portable form) and high byte first
 (myisampack.h), for any number of bytes.  Shifts of possibly negative values are arithmetic,
 so `x >> 8*i` is x / 256^i rounded down.
 */
module ByteOrder {
  import opened Common

  function Pow256(n: nat): (p: int)
    ensures p >= 1
  {
    if n == 0 then 1 else 256 * Pow256(n - 1)
  }

  function StoreLow(x: int, n: nat): (b: seq<Byte>)
    ensures |b| == n
    decreases n
  {
    if n == 0 then [] else [x % 256] + StoreLow(x / 256, n - 1)
  }

  function StoreHigh(x: int, n: nat): (b: seq<Byte>)
    ensures |b| == n
    decreases n
  {
    if n == 0 then [] else StoreHigh(x / 256, n - 1) + [x % 256]
  }

  function KorrLow(b: seq<Byte>): (x: int)
    ensures 0 <= x < Pow256(|b|)
  {
    if b == [] then 0 else b[0] + 256 * KorrLow(b[1..])
  }

  function KorrHigh(b: seq<Byte>): (x: int)
    ensures 0 <= x < Pow256(|b|)
  {
    if b == [] then 0 else 256 * KorrHigh(b[..|b| - 1]) + b[|b| - 1]
  }

  // ---------------------------------------------------------------- arithmetic

  lemma MultipleIsFar(d: int, m: int)
    requires m > 0
    ensures d >= 1 ==> d * m >= m
    ensures d <= -1 ==> d * m <= -m
  {
    assert d >= 1 ==> d * m == m + (d - 1) * m;
    assert d <= -1 ==> d * m == -m + (d + 1) * m;
  }

  lemma QuotientAndRest(x: int, m: int, q: int, r: int)
    requires m > 0 && x == q * m + r && 0 <= r < m
    ensures x / m == q && x % m == r
  {
    var d := x / m - q;
    assert x == m * (x / m) + x % m;
    assert d * m == r - x % m;
    MultipleIsFar(d, m);
  }

  /** Dividing in two steps. */
  lemma DivideTwice(x: int, p: int)
    requires p > 0
    ensures x / (256 * p) == (x / 256) / p
    ensures x % (256 * p) == x % 256 + 256 * ((x / 256) % p)
  {
    var y := x / 256;
    var q, r := y / p, x % 256 + 256 * (y % p);
    assert y == p * q + y % p;
    assert x == 256 * y + x % 256;
    assert 256 * (p * q) == q * (256 * p);
    QuotientAndRest(x, 256 * p, q, r);
  }

  // ---------------------------------------------------------------- round trips

  /** Reading back what was stored gives the value modulo 256^n, negative or not. */
  lemma {:induction false} LowRoundTrip(x: int, n: nat)
    ensures KorrLow(StoreLow(x, n)) == x % Pow256(n)
    decreases n
  {
    if n > 0 {
      LowRoundTrip(x / 256, n - 1);
      DivideTwice(x, Pow256(n - 1));
      assert StoreLow(x, n)[1..] == StoreLow(x / 256, n - 1);
    }
  }

  /** Storing what was read gives the bytes back. */
  lemma {:induction false} LowBytesReturn(b: seq<Byte>)
    ensures StoreLow(KorrLow(b), |b|) == b
  {
    if b != [] {
      LowBytesReturn(b[1..]);
      QuotientAndRest(KorrLow(b), 256, KorrLow(b[1..]), b[0]);
    }
  }

  function Reverse(b: seq<Byte>): (r: seq<Byte>)
    ensures |r| == |b|
  {
    if b == [] then [] else Reverse(b[1..]) + [b[0]]
  }

  /** The high-byte-first image is the low-byte-first image reversed. */
  lemma {:induction false} HighIsReversedLow(x: int, n: nat)
    ensures StoreHigh(x, n) == Reverse(StoreLow(x, n))
    decreases n
  {
    if n > 0 {
      HighIsReversedLow(x / 256, n - 1);
      assert StoreLow(x, n)[1..] == StoreLow(x / 256, n - 1);
    }
  }

  lemma {:induction false} HighReadsReversed(b: seq<Byte>)
    ensures KorrHigh(Reverse(b)) == KorrLow(b)
  {
    if b != [] {
      HighReadsReversed(b[1..]);
      assert Reverse(b)[..|b| - 1] == Reverse(b[1..]);
    }
  }

  lemma {:induction false} HighRoundTrip(x: int, n: nat)
    ensures KorrHigh(StoreHigh(x, n)) == x % Pow256(n)
  {
    LowRoundTrip(x, n);
    HighIsReversedLow(x, n);
    HighReadsReversed(StoreLow(x, n));
  }

  // ---------------------------------------------------------------- order

  /** Comparison of equally long byte strings, as memcmp does it. */
  predicate LexLess(a: seq<Byte>, b: seq<Byte>)
    requires |a| == |b|
  {
    a != [] && (a[0] < b[0] || (a[0] == b[0] && LexLess(a[1..], b[1..])))
  }

  lemma Reassociate(x: int, p: int)
    ensures 256 * (x * p) == x * (256 * p)
  {
  }

  lemma {:induction false} HighByFirst(b: seq<Byte>)
    requires b != []
    ensures KorrHigh(b) == b[0] * Pow256(|b| - 1) + KorrHigh(b[1..])
  {
    var n := |b| - 1;
    if n > 0 {
      HighByFirst(b[..n]);
      assert b[..n][1..] == b[1..][..n - 1];
      Reassociate(b[0], Pow256(n - 1));
    }
  }

  lemma CompareByFirst(a: int, b: int, p: int, x: int, y: int)
    requires 0 <= x < p && 0 <= y < p
    ensures a * p + x < b * p + y <==> a < b || (a == b && x < y)
  {
    var d := b - a;
    assert b * p == a * p + d * p;
    MultipleIsFar(d, p);
  }

  /** High-byte-first images compare as the values do. */
  lemma {:induction false} HighKeepsOrder(a: seq<Byte>, b: seq<Byte>)
    requires |a| == |b|
    ensures LexLess(a, b) <==> KorrHigh(a) < KorrHigh(b)
  {
    if a != [] {
      HighKeepsOrder(a[1..], b[1..]);
      HighByFirst(a);
      HighByFirst(b);
      CompareByFirst(a[0], b[0], Pow256(|a| - 1), KorrHigh(a[1..]), KorrHigh(b[1..]));
    }
  }

  lemma HighFits(x: int, n: nat)
    requires 0 <= x < Pow256(n)
    ensures KorrHigh(StoreHigh(x, n)) == x
  {
    HighRoundTrip(x, n);
    QuotientAndRest(x, Pow256(n), 0, x);
  }

  /** Unsigned order is the order of the high-byte-first images: keys can be compared as bytes. */
  lemma StoredOrder(x: int, y: int, n: nat)
    requires 0 <= x < Pow256(n) && 0 <= y < Pow256(n)
    ensures LexLess(StoreHigh(x, n), StoreHigh(y, n)) <==> x < y
  {
    HighFits(x, n);
    HighFits(y, n);
    HighKeepsOrder(StoreHigh(x, n), StoreHigh(y, n));
  }

  // ---------------------------------------------------------------- signed values

  /** The value of n bytes in two's complement. */
  function Signed(x: int, n: nat): int
    requires n > 0
  {
    if x >= 128 * Pow256(n - 1) then x - Pow256(n) else x
  }

  lemma SignedRoundTrip(x: int, n: nat)
    requires n > 0 && -128 * Pow256(n - 1) <= x < 128 * Pow256(n - 1)
    ensures Signed(x % Pow256(n), n) == x
  {
    if x >= 0 {
      QuotientAndRest(x, Pow256(n), 0, x);
    } else {
      QuotientAndRest(x, Pow256(n), -1, x + Pow256(n));
    }
  }

  // ---------------------------------------------------------------- single bytes

  /** The i-th byte from the low end is the value shifted right by i bytes. */
  lemma {:induction false} LowByte(x: int, n: nat, i: nat)
    requires i < n
    ensures StoreLow(x, n)[i] == (x / Pow256(i)) % 256
    decreases n
  {
    if i > 0 {
      LowByte(x / 256, n - 1, i - 1);
      DivideTwice(x, Pow256(i - 1));
    }
  }

  lemma {:induction false} HighByte(x: int, n: nat, i: nat)
    requires i < n
    ensures StoreHigh(x, n)[n - 1 - i] == (x / Pow256(i)) % 256
    decreases n
  {
    if i > 0 {
      HighByte(x / 256, n - 1, i - 1);
      DivideTwice(x, Pow256(i - 1));
    }
  }

  /** Truncation to a wider unsigned type first does not change a byte. */
  lemma {:induction false} TruncatedByte(x: int, m: nat, i: nat)
    requires i < m
    ensures ((x % Pow256(m)) / Pow256(i)) % 256 == (x / Pow256(i)) % 256
    decreases m
  {
    DivideTwice(x, Pow256(m - 1));
    var y := x % Pow256(m);
    QuotientAndRest(y, 256, (x / 256) % Pow256(m - 1), x % 256);
    if i > 0 {
      TruncatedByte(x / 256, m - 1, i - 1);
      DivideTwice(x, Pow256(i - 1));
      DivideTwice(y, Pow256(i - 1));
    }
  }
}
