/**
 The macros of myisampack.h (high byte first) and of the portable branch of my_global.h (low
 byte first) as they are written, each shown to be an instance of the general codec.  `ulong` is
 2^32 or 2^64, whichever the platform gives `unsigned long`.
 */
module ByteMacros {
  import opened Common
  import opened ByteOrder

  const WORD32 := 0x1_0000_0000
  const WORD64 := 0x1_0000_0000_0000_0000

  /** The buffer after `bytes` have been written at `at`. */
  function Spliced(was: seq<Byte>, at: nat, bytes: seq<Byte>): seq<Byte>
    requires at + |bytes| <= |was|
  {
    was[..at] + bytes + was[at + |bytes|..]
  }

  // ---------------------------------------------------------------- reading

  lemma HighPair(a: Byte, b: Byte)
    ensures KorrHigh([a, b]) == a * 0x100 + b
  {
    assert [a, b][..1] == [a] && [a][..0] == [];
    assert KorrHigh([a]) == a;
  }

  lemma Regroup(x: int, y: int, p: int)
    ensures 256 * (x * p + y) == x * (256 * p) + 256 * y
  {
  }

  lemma {:induction false} HighConcat(a: seq<Byte>, b: seq<Byte>)
    ensures KorrHigh(a + b) == KorrHigh(a) * Pow256(|b|) + KorrHigh(b)
  {
    if b == [] {
      assert a + b == a;
    } else {
      var n := |b| - 1;
      HighConcat(a, b[..n]);
      assert (a + b)[..|a| + n] == a + b[..n];
      Regroup(KorrHigh(a), KorrHigh(b[..n]), Pow256(n));
    }
  }

  lemma HighQuad(a: Byte, b: Byte, c: Byte, d: Byte)
    ensures KorrHigh([a, b, c]) == a * 0x1_0000 + b * 0x100 + c
    ensures KorrHigh([a, b, c, d]) == a * 0x100_0000 + b * 0x1_0000 + c * 0x100 + d
  {
    HighPair(a, b);
    assert [a, b, c][..2] == [a, b];
    assert [a, b, c, d][..3] == [a, b, c];
  }

  lemma Powers()
    ensures Pow256(1) == 0x100 && Pow256(2) == 0x1_0000 && Pow256(3) == 0x100_0000 && Pow256(4) == WORD32
    ensures Pow256(5) == 256 * WORD32 && Pow256(8) == WORD64
  {
    assert Pow256(0) == 1;
    assert Pow256(1) == 256 * Pow256(0);
    assert Pow256(2) == 256 * Pow256(1);
    assert Pow256(3) == 256 * Pow256(2);
    assert Pow256(4) == 256 * Pow256(3);
    assert Pow256(5) == 256 * Pow256(4);
    assert Pow256(6) == 256 * Pow256(5);
    assert Pow256(7) == 256 * Pow256(6);
    assert Pow256(8) == 256 * Pow256(7);
  }

  /** A byte of the buffer, widened as by a cast. */
  function Wide(A: seq<Byte>, i: nat): int
    requires i < |A|
  {
    A[i]
  }

  function MiUint2Korr(A: seq<Byte>): (r: int)
    requires |A| >= 2
    ensures r == KorrHigh(A[..2])
  {
    HighPair(A[0], A[1]);
    assert A[..2] == [A[0], A[1]];
    Wide(A, 1) + Wide(A, 0) * 0x100
  }

  function MiUint3Korr(A: seq<Byte>): (r: int)
    requires |A| >= 3
    ensures r == KorrHigh(A[..3])
  {
    HighQuad(A[0], A[1], A[2], 0);
    assert A[..3] == [A[0], A[1], A[2]];
    Wide(A, 2) + Wide(A, 1) * 0x100 + Wide(A, 0) * 0x1_0000
  }

  function MiUint4Korr(A: seq<Byte>): (r: int)
    requires |A| >= 4
    ensures r == KorrHigh(A[..4])
  {
    HighQuad(A[0], A[1], A[2], A[3]);
    assert A[..4] == [A[0], A[1], A[2], A[3]];
    Wide(A, 3) + Wide(A, 2) * 0x100 + Wide(A, 1) * 0x1_0000 + Wide(A, 0) * 0x100_0000
  }

  // Two 32-bit halves: the first `k` bytes above the last four.
  lemma HighHalves(A: seq<Byte>, k: nat)
    requires |A| >= k + 4
    ensures KorrHigh(A[..k + 4]) == KorrHigh(A[..k]) * WORD32 + MiUint4Korr(A[k..])
  {
    Powers();
    assert A[..k + 4] == A[..k] + A[k..][..4];
    HighConcat(A[..k], A[k..][..4]);
  }

  function MiUint5Korr(A: seq<Byte>): (r: int)
    requires |A| >= 5
    ensures r == KorrHigh(A[..5])
  {
    HighHalves(A, 1);
    assert A[..1] == [A[0]] && KorrHigh([A[0]]) == A[0];
    (Wide(A, 4) + Wide(A, 3) * 0x100 + Wide(A, 2) * 0x1_0000 + Wide(A, 1) * 0x100_0000) + Wide(A, 0) * WORD32
  }

  function MiUint6Korr(A: seq<Byte>): (r: int)
    requires |A| >= 6
    ensures r == KorrHigh(A[..6])
  {
    HighHalves(A, 2);
    (Wide(A, 5) + Wide(A, 4) * 0x100 + Wide(A, 3) * 0x1_0000 + Wide(A, 2) * 0x100_0000) + MiUint2Korr(A) * WORD32
  }

  function MiUint7Korr(A: seq<Byte>): (r: int)
    requires |A| >= 7
    ensures r == KorrHigh(A[..7])
  {
    HighHalves(A, 3);
    (Wide(A, 6) + Wide(A, 5) * 0x100 + Wide(A, 4) * 0x1_0000 + Wide(A, 3) * 0x100_0000) + MiUint3Korr(A) * WORD32
  }

  function MiUint8Korr(A: seq<Byte>): (r: int)
    requires |A| >= 8
    ensures r == KorrHigh(A[..8])
  {
    HighHalves(A, 4);
    (Wide(A, 7) + Wide(A, 6) * 0x100 + Wide(A, 5) * 0x1_0000 + Wide(A, 4) * 0x100_0000) + MiUint4Korr(A) * WORD32
  }

  /** Conversion of a 32-bit pattern to int32. */
  function Int32(x: int): int {
    if x >= 0x8000_0000 then x - WORD32 else x
  }

  function MiSint3Korr(A: seq<Byte>): (r: int)
    requires |A| >= 3
    ensures r == Signed(KorrHigh(A[..3]), 3)
  {
    Powers();
    HighQuad(A[0], A[1], A[2], 0);
    assert A[..3] == [A[0], A[1], A[2]];
    Int32(if Wide(A, 0) >= 128
          then 255 * 0x100_0000 + Wide(A, 0) * 0x1_0000 + Wide(A, 1) * 0x100 + Wide(A, 2)
          else Wide(A, 0) * 0x1_0000 + Wide(A, 1) * 0x100 + Wide(A, 2))
  }

  // Low byte first: the bytes in the opposite order.
  lemma {:induction false} LowConcat(a: seq<Byte>, b: seq<Byte>)
    ensures KorrLow(a + b) == KorrLow(a) + KorrLow(b) * Pow256(|a|)
  {
    if a == [] {
      assert a + b == b;
    } else {
      LowConcat(a[1..], b);
      assert (a + b)[1..] == a[1..] + b;
      Regroup(KorrLow(b), KorrLow(a[1..]), Pow256(|a| - 1));
    }
  }

  lemma LowQuad(a: Byte, b: Byte, c: Byte, d: Byte)
    ensures KorrLow([a, b]) == a + b * 0x100
    ensures KorrLow([a, b, c]) == a + b * 0x100 + c * 0x1_0000
    ensures KorrLow([a, b, c, d]) == a + b * 0x100 + c * 0x1_0000 + d * 0x100_0000
  {
    assert [d][1..] == [] && KorrLow([d]) == d;
    assert [c][1..] == [] && KorrLow([c]) == c;
    assert [b][1..] == [] && KorrLow([b]) == b;
    assert [c, d][1..] == [d] && [b, c, d][1..] == [c, d] && [a, b, c, d][1..] == [b, c, d];
    assert KorrLow([c, d]) == c + 0x100 * KorrLow([d]);
    assert KorrLow([b, c, d]) == b + 0x100 * KorrLow([c, d]);
    assert [b, c][1..] == [c] && [a, b, c][1..] == [b, c] && [a, b][1..] == [b];
  }

  function Uint2Korr(A: seq<Byte>): (r: int)
    requires |A| >= 2
    ensures r == KorrLow(A[..2])
  {
    LowQuad(A[0], A[1], 0, 0);
    assert A[..2] == [A[0], A[1]];
    Wide(A, 0) + Wide(A, 1) * 0x100
  }

  function Uint3Korr(A: seq<Byte>): (r: int)
    requires |A| >= 3
    ensures r == KorrLow(A[..3])
  {
    LowQuad(A[0], A[1], A[2], 0);
    assert A[..3] == [A[0], A[1], A[2]];
    Wide(A, 0) + Wide(A, 1) * 0x100 + Wide(A, 2) * 0x1_0000
  }

  function Uint4Korr(A: seq<Byte>): (r: int)
    requires |A| >= 4
    ensures r == KorrLow(A[..4])
  {
    LowQuad(A[0], A[1], A[2], A[3]);
    assert A[..4] == [A[0], A[1], A[2], A[3]];
    Wide(A, 0) + Wide(A, 1) * 0x100 + Wide(A, 2) * 0x1_0000 + Wide(A, 3) * 0x100_0000
  }

  lemma LowHalves(A: seq<Byte>, k: nat)
    requires |A| >= k + 4
    ensures KorrLow(A[..k + 4]) == Uint4Korr(A) + WORD32 * KorrLow(A[4..][..k])
  {
    Powers();
    assert A[..k + 4] == A[..4] + A[4..][..k];
    LowConcat(A[..4], A[4..][..k]);
  }

  function Uint5Korr(A: seq<Byte>): (r: int)
    requires |A| >= 5
    ensures r == KorrLow(A[..5])
  {
    LowHalves(A, 1);
    assert A[4..][..1] == [A[4]] && [A[4]][1..] == [] && KorrLow([A[4]]) == A[4];
    (Wide(A, 0) + Wide(A, 1) * 0x100 + Wide(A, 2) * 0x1_0000 + Wide(A, 3) * 0x100_0000) + Wide(A, 4) * WORD32
  }

  function Uint6Korr(A: seq<Byte>): (r: int)
    requires |A| >= 6
    ensures r == KorrLow(A[..6])
  {
    LowHalves(A, 2);
    LowQuad(A[4], A[5], 0, 0);
    assert A[4..][..2] == [A[4], A[5]];
    (Wide(A, 0) + Wide(A, 1) * 0x100 + Wide(A, 2) * 0x1_0000 + Wide(A, 3) * 0x100_0000) +
    Wide(A, 4) * WORD32 + Wide(A, 5) * (0x100 * WORD32)
  }

  function Uint8Korr(A: seq<Byte>): (r: int)
    requires |A| >= 8
    ensures r == KorrLow(A[..8])
  {
    LowHalves(A, 4);
    (Wide(A, 0) + Wide(A, 1) * 0x100 + Wide(A, 2) * 0x1_0000 + Wide(A, 3) * 0x100_0000) + Uint4Korr(A[4..]) * WORD32
  }

  function Sint3Korr(A: seq<Byte>): (r: int)
    requires |A| >= 3
    ensures r == Signed(KorrLow(A[..3]), 3)
  {
    Powers();
    LowQuad(A[0], A[1], A[2], 0);
    assert A[..3] == [A[0], A[1], A[2]];
    Int32(if Wide(A, 2) >= 128
          then 255 * 0x100_0000 + Wide(A, 2) * 0x1_0000 + Wide(A, 1) * 0x100 + Wide(A, 0)
          else Wide(A, 2) * 0x1_0000 + Wide(A, 1) * 0x100 + Wide(A, 0))
  }

  /** Both signed three-byte forms give back every value from -2^23 up to 2^23. */
  lemma Sint3RoundTrip(x: int)
    requires -0x80_0000 <= x < 0x80_0000
    ensures MiSint3Korr(StoreHigh(x, 3)) == x
    ensures Sint3Korr(StoreLow(x, 3)) == x
  {
    Powers();
    SignedRoundTrip(x, 3);
    HighRoundTrip(x, 3);
    LowRoundTrip(x, 3);
    assert StoreHigh(x, 3)[..3] == StoreHigh(x, 3);
    assert StoreLow(x, 3)[..3] == StoreLow(x, 3);
  }

  // ---------------------------------------------------------------- writing

  predicate IsULong(ulong: int) {
    ulong == WORD32 || ulong == WORD64
  }

  // The bytes of a value, also after truncation to 32 or 64 bits.
  lemma BytesOf(x: int)
    ensures forall u {:trigger x % u} :: IsULong(u) ==>
      && (x % u) % 256 == x % 256
      && ((x % u) / 0x100) % 256 == (x / 0x100) % 256
      && ((x % u) / 0x1_0000) % 256 == (x / 0x1_0000) % 256
      && ((x % u) / 0x100_0000) % 256 == (x / 0x100_0000) % 256
  {
    Powers();
    forall u | IsULong(u)
      ensures (x % u) % 256 == x % 256
      ensures ((x % u) / 0x100) % 256 == (x / 0x100) % 256
      ensures ((x % u) / 0x1_0000) % 256 == (x / 0x1_0000) % 256
      ensures ((x % u) / 0x100_0000) % 256 == (x / 0x100_0000) % 256
    {
      var m := if u == WORD32 then 4 else 8;
      assert u == Pow256(m);
      TruncatedByte(x, m, 0);
      TruncatedByte(x, m, 1);
      TruncatedByte(x, m, 2);
      TruncatedByte(x, m, 3);
    }
  }

  // The images of up to four bytes, spelled out.
  lemma ShortImages(x: int)
    ensures StoreHigh(x, 1) == [x % 256] == StoreLow(x, 1)
    ensures StoreHigh(x, 2) == [(x / 0x100) % 256, x % 256]
    ensures StoreHigh(x, 3) == [(x / 0x1_0000) % 256, (x / 0x100) % 256, x % 256]
    ensures StoreHigh(x, 4) == [(x / 0x100_0000) % 256, (x / 0x1_0000) % 256, (x / 0x100) % 256, x % 256]
    ensures StoreLow(x, 2) == [x % 256, (x / 0x100) % 256]
    ensures StoreLow(x, 3) == [x % 256, (x / 0x100) % 256, (x / 0x1_0000) % 256]
    ensures StoreLow(x, 4) == [x % 256, (x / 0x100) % 256, (x / 0x1_0000) % 256, (x / 0x100_0000) % 256]
  {
    Powers();
    assert Pow256(0) == 1;
    forall n: nat | n <= 4
      ensures forall i: nat :: i < n ==> StoreLow(x, n)[i] == (x / Pow256(i)) % 256
      ensures forall i: nat :: i < n ==> StoreHigh(x, n)[n - 1 - i] == (x / Pow256(i)) % 256
    {
      forall i: nat | i < n
        ensures StoreLow(x, n)[i] == (x / Pow256(i)) % 256 == StoreHigh(x, n)[n - 1 - i]
      {
        LowByte(x, n, i);
        HighByte(x, n, i);
      }
    }
  }

  // Longer images: four bytes and the rest.
  lemma {:induction false} HighImageSplit(x: int, n: nat, k: nat)
    ensures StoreHigh(x, n + k) == StoreHigh(x / Pow256(k), n) + StoreHigh(x, k)
    decreases k
  {
    if k > 0 {
      HighImageSplit(x / 256, n, k - 1);
      DivideTwice(x, Pow256(k - 1));
      assert StoreHigh(x, n + k) == StoreHigh(x / 256, n + k - 1) + [x % 256];
    } else {
      assert x / 1 == x;
    }
  }

  lemma {:induction false} LowImageSplit(x: int, k: nat, n: nat)
    ensures StoreLow(x, k + n) == StoreLow(x, k) + StoreLow(x / Pow256(k), n)
    decreases k
  {
    if k > 0 {
      LowImageSplit(x / 256, k - 1, n);
      DivideTwice(x, Pow256(k - 1));
      assert StoreLow(x, k + n) == [x % 256] + StoreLow(x / 256, k - 1 + n);
    } else {
      assert x / 1 == x;
    }
  }

  lemma HighInHalves(x: int, k: nat)
    ensures StoreHigh(x, k + 4) == StoreHigh(x / WORD32, k) + StoreHigh(x, 4)
  {
    Powers();
    HighImageSplit(x, k, 4);
  }

  lemma LowInHalves(x: int, k: nat)
    ensures StoreLow(x, 4 + k) == StoreLow(x, 4) + StoreLow(x / WORD32, k)
  {
    Powers();
    LowImageSplit(x, 4, k);
  }

  lemma SameImage(x: int, ulong: int)
    requires IsULong(ulong)
    ensures StoreHigh(x % ulong, 4) == StoreHigh(x, 4)
    ensures StoreLow(x % ulong, 4) == StoreLow(x, 4)
  {
    BytesOf(x);
    ShortImages(x);
    ShortImages(x % ulong);
  }

  lemma ShiftBy40(x: int)
    ensures x / (0x100 * WORD32) == (x / WORD32) / 0x100
  {
    DivideTwice(x, WORD32);
    DivideTwice(x, 0x100_0000);
    DivideTwice(x, 0x1_0000);
    DivideTwice(x / 256, 0x100_0000);
    DivideTwice(x / 256, WORD32);
  }

  // The bytes that each macro writes, from the first address on.

  function MiInt2Store(A: int): (b: seq<Byte>)
    ensures b == StoreHigh(A, 2)
  {
    var temp := A % WORD32;
    BytesOf(A);
    ShortImages(A);
    [(temp / 0x100) % 256, temp % 256]
  }

  function MiInt3Store(A: int, ulong: int): (b: seq<Byte>)
    requires IsULong(ulong)
    ensures b == StoreHigh(A, 3)
  {
    var temp := A % ulong;
    BytesOf(A);
    ShortImages(A);
    [(temp / 0x1_0000) % 256, (temp / 0x100) % 256, temp % 256]
  }

  function MiInt4Store(A: int, ulong: int): (b: seq<Byte>)
    requires IsULong(ulong)
    ensures b == StoreHigh(A, 4)
  {
    var temp := A % ulong;
    BytesOf(A);
    ShortImages(A);
    [(temp / 0x100_0000) % 256, (temp / 0x1_0000) % 256, (temp / 0x100) % 256, temp % 256]
  }

  function MiInt5Store(A: int, ulong: int): (b: seq<Byte>)
    requires IsULong(ulong)
    ensures b == StoreHigh(A, 5)
  {
    var temp, temp2 := A % ulong, (A / WORD32) % ulong;
    HighInHalves(A, 1);
    BytesOf(A);
    BytesOf(A / WORD32);
    ShortImages(A);
    ShortImages(A / WORD32);
    [temp2 % 256, (temp / 0x100_0000) % 256, (temp / 0x1_0000) % 256, (temp / 0x100) % 256, temp % 256]
  }

  function MiInt6Store(A: int, ulong: int): (b: seq<Byte>)
    requires IsULong(ulong)
    ensures b == StoreHigh(A, 6)
  {
    var temp, temp2 := A % ulong, (A / WORD32) % ulong;
    HighInHalves(A, 2);
    BytesOf(A);
    BytesOf(A / WORD32);
    ShortImages(A);
    ShortImages(A / WORD32);
    [(temp2 / 0x100) % 256, temp2 % 256,
     (temp / 0x100_0000) % 256, (temp / 0x1_0000) % 256, (temp / 0x100) % 256, temp % 256]
  }

  function MiInt7Store(A: int, ulong: int): (b: seq<Byte>)
    requires IsULong(ulong)
    ensures b == StoreHigh(A, 7)
  {
    var temp, temp2 := A % ulong, (A / WORD32) % ulong;
    HighInHalves(A, 3);
    BytesOf(A);
    BytesOf(A / WORD32);
    ShortImages(A);
    ShortImages(A / WORD32);
    [(temp2 / 0x1_0000) % 256, (temp2 / 0x100) % 256, temp2 % 256,
     (temp / 0x100_0000) % 256, (temp / 0x1_0000) % 256, (temp / 0x100) % 256, temp % 256]
  }

  function MiInt8Store(A: int, ulong: int): (b: seq<Byte>)
    requires IsULong(ulong)
    ensures b == StoreHigh(A, 8)
  {
    var temp3, temp4 := A % ulong, (A / WORD32) % ulong;
    HighInHalves(A, 4);
    SameImage(A, ulong);
    SameImage(A / WORD32, ulong);
    MiInt4Store(temp4, ulong) + MiInt4Store(temp3, ulong)
  }

  function Int2Store(A: int): (b: seq<Byte>)
    ensures b == StoreLow(A, 2)
  {
    var temp := A % WORD32;
    BytesOf(A);
    ShortImages(A);
    [temp % 256, (temp / 0x100) % 256]
  }

  function Int3Store(A: int): (b: seq<Byte>)
    ensures b == StoreLow(A, 3)
  {
    ShortImages(A);
    [A % 256, (A / 0x100) % 256, (A / 0x1_0000) % 256]
  }

  function Int4Store(A: int): (b: seq<Byte>)
    ensures b == StoreLow(A, 4)
  {
    ShortImages(A);
    [A % 256, (A / 0x100) % 256, (A / 0x1_0000) % 256, (A / 0x100_0000) % 256]
  }

  function Int5Store(A: int): (b: seq<Byte>)
    ensures b == StoreLow(A, 5)
  {
    LowInHalves(A, 1);
    ShortImages(A);
    ShortImages(A / WORD32);
    [A % 256, (A / 0x100) % 256, (A / 0x1_0000) % 256, (A / 0x100_0000) % 256, (A / WORD32) % 256]
  }

  function Int6Store(A: int): (b: seq<Byte>)
    ensures b == StoreLow(A, 6)
  {
    LowInHalves(A, 2);
    ShortImages(A);
    ShortImages(A / WORD32);
    ShiftBy40(A);
    [A % 256, (A / 0x100) % 256, (A / 0x1_0000) % 256, (A / 0x100_0000) % 256,
     (A / WORD32) % 256, (A / (0x100 * WORD32)) % 256]
  }

  function Int8Store(A: int): (b: seq<Byte>)
    ensures b == StoreLow(A, 8)
  {
    var temp, temp2 := A % WORD32, (A / WORD32) % WORD32;
    LowInHalves(A, 4);
    SameImage(A, WORD32);
    SameImage(A / WORD32, WORD32);
    Int4Store(temp) + Int4Store(temp2)
  }

  /** The assignments of a store macro: the bytes go into the buffer, all else stays. */
  method PutBytes(T: array<Byte>, at: nat, bytes: seq<Byte>)
    requires at + |bytes| <= T.Length
    modifies T
    ensures T[..] == Spliced(old(T[..]), at, bytes)
  {
    for i := 0 to |bytes|
      invariant forall k :: 0 <= k < T.Length ==>
        T[k] == if at <= k < at + i then bytes[k - at] else old(T[k])
    {
      T[at + i] := bytes[i];
    }
  }
}
