/**
 The bit functions of my_bit.h on words of any width.  A word is the sequence of its bits, the
 lowest first; the 32-bit routines are the case of width 32.
 */
module BitTricks {

  type Word = seq<bool>

  function Pow2(n: nat): (p: nat)
    ensures p >= 1
  {
    if n == 0 then 1 else 2 * Pow2(n - 1)
  }

  /** The value of a word. */
  function Val(b: Word): (v: nat)
    ensures v < Pow2(|b|)
  {
    if b == [] then 0 else (if b[0] then 1 else 0) + 2 * Val(b[1..])
  }

  /** The lowest `n` bits of a number. */
  function OfNat(x: nat, n: nat): (b: Word)
    ensures |b| == n
    decreases n
  {
    if n == 0 then [] else [x % 2 == 1] + OfNat(x / 2, n - 1)
  }

  lemma {:induction false} OfNatVal(x: nat, n: nat)
    requires x < Pow2(n)
    ensures Val(OfNat(x, n)) == x
    decreases n
  {
    if n > 0 {
      OfNatVal(x / 2, n - 1);
      assert OfNat(x, n)[1..] == OfNat(x / 2, n - 1);
    }
  }

  lemma {:induction false} PowersGrow(i: nat, j: nat)
    requires i <= j
    ensures Pow2(i) <= Pow2(j)
    ensures i < j ==> 2 * Pow2(i) <= Pow2(j)
    decreases j
  {
    if i < j {
      PowersGrow(i, j - 1);
    }
  }

  // ---------------------------------------------------------------- operations on words

  function Or(a: Word, b: Word): (r: Word)
    requires |a| == |b|
    ensures |r| == |a| && forall i :: 0 <= i < |a| ==> r[i] == (a[i] || b[i])
  {
    seq(|a|, i requires 0 <= i < |a| => a[i] || b[i])
  }

  function And(a: Word, b: Word): (r: Word)
    requires |a| == |b|
    ensures |r| == |a| && forall i :: 0 <= i < |a| ==> r[i] == (a[i] && b[i])
  {
    seq(|a|, i requires 0 <= i < |a| => a[i] && b[i])
  }

  function Shr(a: Word, s: nat): (r: Word)
    ensures |r| == |a| && forall i :: 0 <= i < |a| ==> r[i] == (i + s < |a| && a[i + s])
  {
    seq(|a|, i requires 0 <= i < |a| => i + s < |a| && a[i + s])
  }

  // ---------------------------------------------------------------- smearing

  /** v|= v >> s, v|= v >> 2*s, and so on while the shift is less than the width. */
  function Smear(b: Word, s: nat): (r: Word)
    requires s > 0
    ensures |r| == |b|
    decreases |b| - s
  {
    if s >= |b| then b else Smear(Or(b, Shr(b, s)), 2 * s)
  }

  /** A bit is set at `i` or less than `r` places above. */
  predicate SetWithin(b: Word, i: nat, r: nat) {
    exists j :: i <= j < i + r && j < |b| && b[j]
  }

  lemma {:induction false} SmearReaches(b: Word, now: Word, s: nat)
    requires s > 0 && |now| == |b|
    requires forall i :: 0 <= i < |b| ==> (now[i] <==> SetWithin(b, i, s))
    ensures forall i :: 0 <= i < |b| ==> (Smear(now, s)[i] <==> SetWithin(b, i, |b|))
    decreases |b| - s
  {
    if s >= |b| {
      forall i | 0 <= i < |b| ensures SetWithin(b, i, s) <==> SetWithin(b, i, |b|) {
        if SetWithin(b, i, s) {
          var j :| i <= j < i + s && j < |b| && b[j];
          assert i <= j < i + |b|;
        }
        if SetWithin(b, i, |b|) {
          var j :| i <= j < i + |b| && j < |b| && b[j];
          assert i <= j < i + s;
        }
      }
    } else {
      var next := Or(now, Shr(now, s));
      forall i | 0 <= i < |b| ensures next[i] <==> SetWithin(b, i, 2 * s) {
        SmearOnce(b, now, s, i);
      }
      SmearReaches(b, next, 2 * s);
    }
  }

  lemma SmearOnce(b: Word, now: Word, s: nat, i: nat)
    requires |now| == |b| && i < |b|
    requires forall i :: 0 <= i < |b| ==> (now[i] <==> SetWithin(b, i, s))
    ensures now[i] || (i + s < |b| && now[i + s]) <==> SetWithin(b, i, 2 * s)
  {
    if now[i] {
      var j :| i <= j < i + s && j < |b| && b[j];
      assert i <= j < i + 2 * s;
    }
    if i + s < |b| && now[i + s] {
      var j :| i + s <= j < i + s + s && j < |b| && b[j];
      assert i <= j < i + 2 * s;
    }
    if SetWithin(b, i, 2 * s) {
      var j :| i <= j < i + 2 * s && j < |b| && b[j];
      if j < i + s {
        assert SetWithin(b, i, s);
      } else {
        assert SetWithin(b, i + s, s);
      }
    }
  }

  // ---------------------------------------------------------------- the highest bit

  /** The loop of my_bit_log2 as a recursion. */
  function Log2(v: nat): nat {
    if v <= 1 then 0 else 1 + Log2(v / 2)
  }

  /** `my_bit_log2` */
  method MyBitLog2(v: nat) returns (bit: nat)
    ensures bit == Log2(v)
  {
    bit := 0;
    var value := v;
    while value > 1
      invariant bit + Log2(value) == Log2(v)
    {
      value, bit := value / 2, bit + 1;
    }
  }

  /** It is the logarithm rounded down, ... */
  lemma {:induction false} Log2RoundsDown(v: nat)
    requires v > 0
    ensures Pow2(Log2(v)) <= v < Pow2(Log2(v) + 1)
  {
    if v > 1 {
      Log2RoundsDown(v / 2);
    }
  }

  /** The smallest X with 2^X >= v. */
  ghost predicate IsLog2Up(x: nat, v: nat) {
    v <= Pow2(x) && forall y: nat :: v <= Pow2(y) ==> x <= y
  }

  ghost predicate IsPowerOf2(v: nat) {
    exists k: nat :: v == Pow2(k)
  }

  lemma {:induction false} Log2OfPower(k: nat)
    ensures Log2(Pow2(k)) == k
  {
    if k > 0 {
      Log2OfPower(k - 1);
    }
  }

  /** ... which is what its comment says, the logarithm rounded up, just for 0 and powers of two. */
  lemma Log2IsRoundedUpIff(v: nat)
    ensures IsLog2Up(Log2(v), v) <==> v == 0 || IsPowerOf2(v)
  {
    if k: nat :| v == Pow2(k) {
      Log2OfPower(k);
    }
    if v > 0 {
      Log2RoundsDown(v);
      assert v == Pow2(Log2(v)) ==> IsPowerOf2(v);
      forall y: nat | v <= Pow2(y) ensures Log2(v) <= y {
        if y < Log2(v) {
          PowersGrow(y, Log2(v));
        }
      }
    }
  }

  lemma Log2OfThree()
    ensures Log2(3) == 1 && !IsLog2Up(Log2(3), 3)
  {
    assert Log2(3) == 1 + Log2(1);
    assert Pow2(1) == 2 * Pow2(0);
  }

  lemma {:induction false} AllClear(b: Word)
    ensures Val(b) == 0 <==> forall i :: 0 <= i < |b| ==> !b[i]
  {
    if b != [] {
      AllClear(b[1..]);
      assert forall i :: 1 <= i < |b| ==> b[i] == b[1..][i - 1];
      assert forall i :: 0 <= i < |b| - 1 ==> b[1..][i] == b[i + 1];
    }
  }

  /** The highest bit set in a word is the one numbered Log2 of its value. */
  lemma {:induction false} HighestBit(b: Word)
    requires Val(b) > 0
    ensures Log2(Val(b)) < |b| && b[Log2(Val(b))]
    ensures forall i :: Log2(Val(b)) < i < |b| ==> !b[i]
  {
    assert Val(b) / 2 == Val(b[1..]);
    assert forall i :: 1 <= i < |b| ==> b[i] == b[1..][i - 1];
    if Val(b[1..]) == 0 {
      AllClear(b[1..]);
    } else {
      HighestBit(b[1..]);
    }
  }

  /** The word whose lowest `k` bits are set. */
  ghost predicate Ones(b: Word, k: nat) {
    k <= |b| && forall i :: 0 <= i < |b| ==> (b[i] <==> i < k)
  }

  lemma {:induction false} OnesVal(b: Word, k: nat)
    requires Ones(b, k)
    ensures Val(b) == Pow2(k) - 1
    decreases k
  {
    if k == 0 {
      AllClear(b);
    } else {
      assert forall i :: 0 <= i < |b| - 1 ==> b[1..][i] == b[i + 1];
      OnesVal(b[1..], k - 1);
    }
  }

  /** Smearing sets every bit below the highest one. */
  lemma SmearFills(b: Word)
    requires Val(b) > 0
    ensures Ones(Smear(b, 1), Log2(Val(b)) + 1)
  {
    HighestBit(b);
    forall i | 0 <= i < |b| ensures b[i] <==> SetWithin(b, i, 1) {
      if SetWithin(b, i, 1) {
        var j :| i <= j < i + 1 && j < |b| && b[j];
        assert j == i;
      }
      assert i <= i < i + 1;
    }
    SmearReaches(b, b, 1);
    var h := Log2(Val(b));
    forall i | 0 <= i < |b| ensures Smear(b, 1)[i] <==> i < h + 1 {
      if i <= h {
        assert i <= h < i + |b| && b[h];
      }
    }
  }

  lemma SmearNothing(b: Word)
    requires Val(b) == 0
    ensures Val(Smear(b, 1)) == 0
  {
    AllClear(b);
    forall i | 0 <= i < |b| ensures !SetWithin(b, i, 1) && !SetWithin(b, i, |b|) {
    }
    SmearReaches(b, b, 1);
    AllClear(Smear(b, 1));
  }

  // ---------------------------------------------------------------- next power of two

  ghost predicate IsLeastPower(r: nat, v: nat) {
    exists k: nat :: r == Pow2(k) && IsLog2Up(k, v)
  }

  /** The value of v-1, which wraps. */
  function Below(v: Word): (x: nat)
    ensures x < Pow2(|v|)
  {
    if Val(v) == 0 then Pow2(|v|) - 1 else Val(v) - 1
  }

  /** v-1 and v+1 on words; both wrap. */
  function Decrement(v: Word): (r: Word)
    ensures |r| == |v|
  {
    OfNat(Below(v), |v|)
  }

  function Increment(v: Word): (r: Word)
    ensures |r| == |v|
  {
    OfNat((Val(v) + 1) % Pow2(|v|), |v|)
  }

  /** `my_round_up_to_next_power` on words of any width. */
  function RoundUp(v: Word): (r: Word)
    ensures |r| == |v|
  {
    Increment(Smear(Decrement(v), 1))
  }

  lemma WrapAround(x: nat, m: nat)
    requires x <= m && m > 0
    ensures x % m == if x == m then 0 else x
  {
  }

  /** How many bits v-1 takes. */
  function Exponent(v: Word): nat {
    if Below(v) == 0 then 0 else Log2(Below(v)) + 1
  }

  lemma ExponentFits(v: Word)
    ensures Exponent(v) <= |v|
    ensures Val(Smear(Decrement(v), 1)) == Pow2(Exponent(v)) - 1
  {
    var w := Decrement(v);
    OfNatVal(Below(v), |v|);
    if Below(v) == 0 {
      SmearNothing(w);
    } else {
      SmearFills(w);
      OnesVal(Smear(w, 1), Exponent(v));
    }
  }

  lemma IncrementVal(w: Word)
    ensures Val(Increment(w)) == if Val(w) + 1 == Pow2(|w|) then 0 else Val(w) + 1
  {
    WrapAround(Val(w) + 1, Pow2(|w|));
    OfNatVal((Val(w) + 1) % Pow2(|w|), |w|);
  }

  // Rounding up adds one to a word of ones.
  lemma RoundUpIsPower(v: Word)
    ensures Exponent(v) <= |v|
    ensures Val(RoundUp(v)) == if Exponent(v) == |v| then 0 else Pow2(Exponent(v))
  {
    ExponentFits(v);
    IncrementVal(Smear(Decrement(v), 1));
    PowersGrow(Exponent(v), |v|);
  }

  /** The least power of two from the value on, up to the highest one of the width; otherwise 0. */
  lemma RoundUpIsLeastPower(v: Word)
    requires v != []
    ensures 1 <= Val(v) <= Pow2(|v| - 1) ==> IsLeastPower(Val(RoundUp(v)), Val(v))
    ensures Val(v) == 0 || Val(v) > Pow2(|v| - 1) ==> Val(RoundUp(v)) == 0
  {
    RoundUpIsPower(v);
    if 1 <= Val(v) <= Pow2(|v| - 1) {
      ExponentIsLog2Up(v);
      LeastPowerFits(v);
    } else {
      LargeExponent(v);
    }
  }

  lemma LeastPowerFits(v: Word)
    requires v != [] && 1 <= Val(v) <= Pow2(|v| - 1)
    ensures Exponent(v) < |v|
  {
    ExponentIsLog2Up(v);
    assert Exponent(v) <= |v| - 1;
  }

  // v-1 has exactly as many bits as the power of two above it needs.
  lemma ExponentIsLog2Up(v: Word)
    requires Val(v) >= 1
    ensures IsLog2Up(Exponent(v), Val(v))
  {
    if Below(v) == 0 {
      assert Pow2(0) == 1;
    } else {
      Log2RoundsDown(Below(v));
      PowerAbove(Exponent(v), Val(v));
    }
  }

  // It has as many as the word when v is above the highest power of two of the width.
  lemma LargeExponent(v: Word)
    requires v != [] && (Val(v) == 0 || Val(v) > Pow2(|v| - 1))
    ensures Exponent(v) == |v|
  {
    BitsNeeded(Below(v), |v|);
  }

  lemma BitsNeeded(x: nat, n: nat)
    requires n > 0 && 0 < x < Pow2(n) && Pow2(n - 1) <= x
    ensures Log2(x) + 1 == n
  {
    Log2RoundsDown(x);
    if Log2(x) + 1 < n {
      PowersGrow(Log2(x) + 1, n - 1);
    } else if n < Log2(x) + 1 {
      PowersGrow(n, Log2(x));
    }
  }

  lemma PowerAbove(k: nat, v: nat)
    requires k > 0 && Pow2(k - 1) < v <= Pow2(k)
    ensures IsLog2Up(k, v)
  {
    forall y: nat | v <= Pow2(y) ensures k <= y {
      if y < k {
        PowersGrow(y, k - 1);
      }
    }
  }

  /** The 32-bit routine as it is written. */
  method MyRoundUpToNextPower(v: Word) returns (r: Word)
    requires |v| == 32
    ensures r == RoundUp(v)
  {
    var w := Decrement(v);
    ghost var w0 := w;
    w := Or(w, Shr(w, 1));
    ghost var w1 := w;
    w := Or(w, Shr(w, 2));
    ghost var w2 := w;
    w := Or(w, Shr(w, 4));
    ghost var w3 := w;
    w := Or(w, Shr(w, 8));
    ghost var w4 := w;
    w := Or(w, Shr(w, 16));
    FiveShifts(w0, w1, w2, w3, w4, w);
    r := Increment(w);
  }

  lemma FiveShifts(w0: Word, w1: Word, w2: Word, w3: Word, w4: Word, w5: Word)
    requires |w0| == 32 && w1 == Or(w0, Shr(w0, 1)) && w2 == Or(w1, Shr(w1, 2)) && w3 == Or(w2, Shr(w2, 4))
    requires w4 == Or(w3, Shr(w3, 8)) && w5 == Or(w4, Shr(w4, 16))
    ensures Smear(w0, 1) == w5
  {
    SmearStep(w0, 1, w1);
    SmearStep(w1, 2, w2);
    SmearStep(w2, 4, w3);
    SmearStep(w3, 8, w4);
    SmearStep(w4, 16, w5);
  }

  lemma SmearStep(b: Word, s: nat, next: Word)
    requires 0 < s < |b| && next == Or(b, Shr(b, s))
    ensures Smear(b, s) == Smear(next, 2 * s)
  {
  }

  // ---------------------------------------------------------------- clearing the highest bit

  function ClearHighest(b: Word): (r: Word)
    ensures |r| == |b|
  {
    And(b, Smear(Shr(b, 1), 1))
  }

  /** `my_clear_highest_bit`, the 32-bit routine as it is written. */
  method MyClearHighestBit(v: Word) returns (r: Word)
    requires |v| == 32
    ensures r == ClearHighest(v)
  {
    var w := Shr(v, 1);
    ghost var w0 := w;
    w := Or(w, Shr(w, 1));
    ghost var w1 := w;
    w := Or(w, Shr(w, 2));
    ghost var w2 := w;
    w := Or(w, Shr(w, 4));
    ghost var w3 := w;
    w := Or(w, Shr(w, 8));
    ghost var w4 := w;
    w := Or(w, Shr(w, 16));
    FiveShifts(w0, w1, w2, w3, w4, w);
    r := And(v, w);
  }

  lemma {:induction false} ClearBit(b: Word, h: nat)
    requires h < |b| && b[h]
    ensures Val(b[h := false]) == Val(b) - Pow2(h)
    ensures PopCount(b[h := false]) == PopCount(b) - 1
  {
    if h == 0 {
      assert b[h := false][1..] == b[1..];
    } else {
      ClearBit(b[1..], h - 1);
      assert b[h := false][1..] == b[1..][h - 1 := false];
    }
  }

  lemma ShiftedValue(b: Word)
    requires b != []
    ensures Val(Shr(b, 1)) == Val(b) / 2
  {
    assert Shr(b, 1) == b[1..] + [false];
    AppendClear(b[1..]);
  }

  lemma {:induction false} AppendClear(b: Word)
    ensures Val(b + [false]) == Val(b)
  {
    if b != [] {
      AppendClear(b[1..]);
      assert (b + [false])[1..] == b[1..] + [false];
    } else {
      assert [] + [false] == [false] && [false][1..] == [];
    }
  }

  /** Exactly the highest set bit goes: 2^log2(v) is subtracted, and one bit fewer is set. */
  lemma ClearHighestClearsOne(b: Word)
    requires Val(b) > 0
    ensures Val(ClearHighest(b)) == Val(b) - Pow2(Log2(Val(b)))
    ensures PopCount(ClearHighest(b)) == PopCount(b) - 1
  {
    var h, w := Log2(Val(b)), Shr(b, 1);
    HighestBit(b);
    ShiftedValue(b);
    if Val(b) == 1 {
      SmearNothing(w);
      AllClear(Smear(w, 1));
    } else {
      SmearFills(w);
    }
    assert ClearHighest(b) == b[h := false];
    ClearBit(b, h);
  }

  lemma ClearHighestOfZero(b: Word)
    requires Val(b) == 0
    ensures Val(ClearHighest(b)) == 0
  {
    AllClear(b);
    AllClear(ClearHighest(b));
  }

  // ---------------------------------------------------------------- counting bits

  function PopCount(b: Word): nat {
    if b == [] then 0 else (if b[0] then 1 else 0) + PopCount(b[1..])
  }

  function Iterate(b: Word, k: nat): (r: Word)
    ensures |r| == |b|
  {
    if k == 0 then b else ClearHighest(Iterate(b, k - 1))
  }

  lemma {:induction false} NothingToCount(b: Word)
    ensures PopCount(b) == 0 <==> Val(b) == 0
  {
    if b != [] {
      NothingToCount(b[1..]);
    }
  }

  lemma {:induction false} IterateCounts(b: Word, k: nat)
    ensures PopCount(Iterate(b, k)) == if k <= PopCount(b) then PopCount(b) - k else 0
  {
    if k > 0 {
      IterateCounts(b, k - 1);
      var before := Iterate(b, k - 1);
      NothingToCount(before);
      if Val(before) > 0 {
        ClearHighestClearsOne(before);
      } else {
        ClearHighestOfZero(before);
        NothingToCount(ClearHighest(before));
      }
    }
  }

  /** Clearing the highest bit again and again reaches 0 after exactly as many steps as bits are set. */
  lemma ClearingReachesZero(b: Word, k: nat)
    ensures Val(Iterate(b, k)) == 0 <==> k >= PopCount(b)
  {
    IterateCounts(b, k);
    NothingToCount(Iterate(b, k));
  }

  /** What the table `_my_bits_nbits` is: the number of bits of every byte value. */
  ghost predicate IsCountTable(table: seq<nat>) {
    |table| == 256 && forall b: Word :: |b| == 8 ==> table[ByteValue(b)] == PopCount(b)
  }

  function ByteValue(b: Word): (v: nat)
    requires |b| == 8
    ensures v < 256
  {
    EightBits();
    Val(b)
  }

  lemma EightBits()
    ensures Pow2(8) == 256
  {
    assert Pow2(4) == 2 * (2 * (2 * (2 * Pow2(0))));
    assert Pow2(8) == 2 * (2 * (2 * (2 * Pow2(4))));
  }

  /** The table sum byte by byte, for words of any number of bytes. */
  function CountBits(b: Word, table: seq<nat>): (r: nat)
    requires |b| % 8 == 0 && IsCountTable(table)
    ensures r == PopCount(b)
  {
    if b == [] then 0
    else
      CountConcat(b[..8], b[8..]);
      assert b == b[..8] + b[8..];
      table[ByteValue(b[..8])] + CountBits(b[8..], table)
  }

  /** `my_count_bits` as it is written, for 64 bits. */
  function MyCountBits(v: Word, table: seq<nat>): (r: nat)
    requires |v| == 64 && IsCountTable(table)
    ensures r == PopCount(v)
  {
    var low, high := v[..32], v[32..];
    CountConcat(low, high);
    assert v == low + high;
    FourBytes(low, table);
    FourBytes(high, table);
    var sum :=
      table[ByteValue(low[..8])] + table[ByteValue(low[8..16])] +
      table[ByteValue(low[16..24])] + table[ByteValue(low[24..])] +
      table[ByteValue(high[..8])] + table[ByteValue(high[8..16])] +
      table[ByteValue(high[16..24])] + table[ByteValue(high[24..])];
    CountFits(v);
    sum % 256
  }

  lemma FourBytes(v: Word, table: seq<nat>)
    requires |v| == 32 && IsCountTable(table)
    ensures table[ByteValue(v[..8])] + table[ByteValue(v[8..16])] +
            table[ByteValue(v[16..24])] + table[ByteValue(v[24..])] == PopCount(v)
  {
    CountConcat(v[..8], v[8..16]);
    CountConcat(v[..8] + v[8..16], v[16..24]);
    CountConcat(v[..8] + v[8..16] + v[16..24], v[24..]);
    InFourBytes(v);
  }

  lemma {:induction false} CountFits(b: Word)
    ensures PopCount(b) <= |b|
  {
    if b != [] {
      CountFits(b[1..]);
    }
  }

  lemma {:induction false} CountConcat(a: Word, b: Word)
    ensures PopCount(a + b) == PopCount(a) + PopCount(b)
  {
    if a == [] {
      assert a + b == b;
    } else {
      CountConcat(a[1..], b);
      assert (a + b)[1..] == a[1..] + b;
    }
  }

  // ---------------------------------------------------------------- reversing bits

  function Mirror(b: Word): (r: Word)
    ensures |r| == |b| && forall i :: 0 <= i < |b| ==> r[i] == b[|b| - 1 - i]
  {
    seq(|b|, i requires 0 <= i < |b| => b[|b| - 1 - i])
  }

  lemma MirrorConcat(a: Word, b: Word)
    ensures Mirror(a + b) == Mirror(b) + Mirror(a)
  {
  }

  /** What the table `_my_bits_reverse_table` is: every byte value with its bits mirrored. */
  ghost predicate IsReverseTable(table: seq<Word>) {
    && |table| == 256
    && (forall k :: 0 <= k < 256 ==> |table[k]| == 8)
    && (forall b: Word :: |b| == 8 ==> table[ByteValue(b)] == Mirror(b))
  }

  /** The lowest byte, mirrored, becomes the highest; for any number of bytes. */
  function ReverseBits(b: Word, table: seq<Word>): (r: Word)
    requires |b| % 8 == 0 && |table| == 256 && forall k :: 0 <= k < 256 ==> |table[k]| == 8
    ensures |r| == |b|
  {
    if b == [] then [] else ReverseBits(b[8..], table) + table[ByteValue(b[..8])]
  }

  lemma MirroredByte(b: Word, table: seq<Word>)
    requires |b| == 8 && IsReverseTable(table)
    ensures table[ByteValue(b)] == Mirror(b)
  {
  }

  lemma {:induction false} ReverseBitsMirrors(b: Word, table: seq<Word>)
    requires |b| % 8 == 0 && IsReverseTable(table)
    ensures ReverseBits(b, table) == Mirror(b)
  {
    if b != [] {
      ReverseBitsMirrors(b[8..], table);
      assert b == b[..8] + b[8..];
      MirrorConcat(b[..8], b[8..]);
      MirroredByte(b[..8], table);
    }
  }

  /** `my_reverse_bits` as it is written: the four bytes of the key, mirrored, in the opposite order. */
  function MyReverseBits(key: Word, table: seq<Word>): (r: Word)
    requires |key| == 32 && IsReverseTable(table)
    ensures r == Mirror(key)
  {
    InFourBytes(key);
    FourMirrored(key[..8], key[8..16], key[16..24], key[24..], table);
    table[ByteValue(key[24..])] + table[ByteValue(key[16..24])] +
    table[ByteValue(key[8..16])] + table[ByteValue(key[..8])]
  }

  lemma InFourBytes(key: Word)
    requires |key| == 32
    ensures key == key[..8] + key[8..16] + key[16..24] + key[24..]
  {
  }

  lemma FourMirrored(b0: Word, b1: Word, b2: Word, b3: Word, table: seq<Word>)
    requires |b0| == |b1| == |b2| == |b3| == 8 && IsReverseTable(table)
    ensures table[ByteValue(b3)] + table[ByteValue(b2)] + table[ByteValue(b1)] + table[ByteValue(b0)]
         == Mirror(b0 + b1 + b2 + b3)
  {
    MirroredByte(b0, table);
    MirroredByte(b1, table);
    MirroredByte(b2, table);
    MirroredByte(b3, table);
    MirrorOfFour(b0, b1, b2, b3);
  }

  lemma MirrorOfFour(b0: Word, b1: Word, b2: Word, b3: Word)
    ensures Mirror(b3) + Mirror(b2) + Mirror(b1) + Mirror(b0) == Mirror(b0 + b1 + b2 + b3)
  {
    MirrorConcat(b0, b1);
    MirrorConcat(b0 + b1, b2);
    MirrorConcat(b0 + b1 + b2, b3);
  }

  lemma {:induction false} MirrorCount(b: Word)
    ensures PopCount(Mirror(b)) == PopCount(b)
  {
    if b != [] {
      MirrorCount(b[1..]);
      assert Mirror(b) == Mirror(b[1..]) + [b[0]];
      CountConcat(Mirror(b[1..]), [b[0]]);
      assert [b[0]][1..] == [];
    }
  }

  /** Reversing twice changes nothing, and reversing keeps the number of bits. */
  lemma ReverseIsInvolution(b: Word, table: seq<Word>)
    requires |b| % 8 == 0 && IsReverseTable(table)
    ensures ReverseBits(ReverseBits(b, table), table) == b
    ensures PopCount(ReverseBits(b, table)) == PopCount(b)
  {
    ReverseBitsMirrors(b, table);
    ReverseBitsMirrors(Mirror(b), table);
    MirrorCount(b);
    assert Mirror(Mirror(b)) == b;
  }

  // ---------------------------------------------------------------- the tables

  lemma {:induction false} WordOfValue(b: Word)
    ensures OfNat(Val(b), |b|) == b
  {
    if b != [] {
      WordOfValue(b[1..]);
      assert Val(b) / 2 == Val(b[1..]);
    }
  }

  /** Tables that meet the two descriptions exist. */
  lemma TablesExist() returns (counts: seq<nat>, mirrored: seq<Word>)
    ensures IsCountTable(counts) && IsReverseTable(mirrored)
  {
    counts := seq(256, k requires 0 <= k < 256 => PopCount(OfNat(k, 8)));
    mirrored := seq(256, k requires 0 <= k < 256 => Mirror(OfNat(k, 8)));
    forall b: Word | |b| == 8 ensures counts[ByteValue(b)] == PopCount(b) && mirrored[ByteValue(b)] == Mirror(b) {
      WordOfValue(b);
    }
  }
}
