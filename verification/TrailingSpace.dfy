/**
 `skip_trailing_space` of m_string.h: the trailing spaces of a string skipped a machine word at
 a time, against the byte-by-byte scan it replaces.  Pointers are addresses; the word size is
 4 or 8 and the byte order is either.
 */
module TrailingSpace {
  import opened Common
  import opened ByteOrder

  const SPACE: Byte := 0x20

  /** SPACE_INT */
  function SpaceInt(w: nat): int {
    if w == 4 then 0x2020_2020 else 0x2020_2020_2020_2020
  }

  /** The naive scan: how much of the first `n` bytes is left without trailing spaces. */
  function NaiveEnd(b: seq<Byte>, n: nat): (r: nat)
    requires n <= |b|
    ensures r <= n
    ensures forall k :: r <= k < n ==> b[k] == SPACE
    ensures r > 0 ==> b[r - 1] != SPACE
  {
    if n > 0 && b[n - 1] == SPACE then NaiveEnd(b, n - 1) else n
  }

  // A byte that is not a space is never among the trailing spaces.
  lemma NotBeyond(b: seq<Byte>, r: nat, n: nat)
    requires r <= |b| && forall k :: r <= k < |b| ==> b[k] == SPACE
    requires n <= |b| && (n > 0 ==> b[n - 1] != SPACE)
    ensures n <= r
  {
  }

  /** That position is determined by what it promises. */
  lemma EndIsUnique(b: seq<Byte>, r: nat)
    requires r <= |b| && (forall k :: r <= k < |b| ==> b[k] == SPACE) && (r > 0 ==> b[r - 1] != SPACE)
    ensures r == NaiveEnd(b, |b|)
  {
    NotBeyond(b, r, NaiveEnd(b, |b|));
    NotBeyond(b, NaiveEnd(b, |b|), r);
  }

  /** The value of a word in memory. */
  function WordValue(bytes: seq<Byte>, bigEndian: bool): int {
    if bigEndian then KorrHigh(bytes) else KorrLow(bytes)
  }

  function Spaces(w: nat): (b: seq<Byte>)
    ensures |b| == w && forall k :: 0 <= k < w ==> b[k] == SPACE
  {
    seq(w, _ => SPACE)
  }

  lemma {:induction false} SpacesLow(w: nat)
    ensures KorrLow(Spaces(w + 1)) == SPACE + 256 * KorrLow(Spaces(w))
    ensures Reverse(Spaces(w)) == Spaces(w)
  {
    assert Spaces(w + 1)[1..] == Spaces(w);
    if w > 0 {
      SpacesLow(w - 1);
      assert Spaces(w)[1..] == Spaces(w - 1);
    }
  }

  lemma SpaceIntIsSpaces(w: nat, bigEndian: bool)
    requires w == 4 || w == 8
    ensures WordValue(Spaces(w), bigEndian) == SpaceInt(w)
  {
    SpacesLow(0);
    SpacesLow(1);
    SpacesLow(2);
    SpacesLow(3);
    SpacesLow(4);
    SpacesLow(5);
    SpacesLow(6);
    SpacesLow(7);
    SpacesLow(w);
    HighReadsReversed(Spaces(w));
  }

  lemma {:induction false} ReverseTwice(b: seq<Byte>)
    ensures Reverse(Reverse(b)) == b
  {
    if b != [] {
      ReverseTwice(b[1..]);
      ReverseLast(Reverse(b[1..]), b[0]);
    }
  }

  lemma {:induction false} ReverseLast(b: seq<Byte>, x: Byte)
    ensures Reverse(b + [x]) == [x] + Reverse(b)
  {
    if b != [] {
      ReverseLast(b[1..], x);
      assert (b + [x])[1..] == b[1..] + [x];
    }
  }

  /** A word equals SPACE_INT exactly when all its bytes are spaces. */
  lemma WordOfSpaces(bytes: seq<Byte>, bigEndian: bool)
    requires |bytes| == 4 || |bytes| == 8
    ensures WordValue(bytes, bigEndian) == SpaceInt(|bytes|) <==> forall k :: 0 <= k < |bytes| ==> bytes[k] == SPACE
  {
    var w := |bytes|;
    SpaceIntIsSpaces(w, bigEndian);
    SpaceIntIsSpaces(w, false);
    if WordValue(bytes, bigEndian) == SpaceInt(w) {
      if bigEndian {
        ReverseTwice(bytes);
        HighReadsReversed(Reverse(bytes));
        LowBytesReturn(Reverse(bytes));
        LowBytesReturn(Spaces(w));
        SpacesLow(w);
        ReverseTwice(bytes);
        assert bytes == Spaces(w);
      } else {
        LowBytesReturn(bytes);
        LowBytesReturn(Spaces(w));
        assert bytes == Spaces(w);
      }
    } else {
      assert bytes != Spaces(w);
      assert exists k :: 0 <= k < w && bytes[k] != Spaces(w)[k];
    }
  }

  /** One read of memory. */
  datatype Access = Access(address: nat, size: nat)

  /** It lies inside the `len` bytes at `ptr`, and is a single byte or an aligned word. */
  predicate Proper(a: Access, ptr: nat, len: nat, w: nat)
    requires w > 0
  {
    && ptr <= a.address && a.address + a.size <= ptr + len
    && (a.size == 1 || (a.size == w && a.address % w == 0))
  }

  method ByteAt(ptr: nat, buf: seq<Byte>, address: nat) returns (b: Byte, ghost access: Access)
    requires ptr <= address < ptr + |buf|
    ensures b == buf[address - ptr] && access == Access(address, 1)
  {
    b, access := buf[address - ptr], Access(address, 1);
  }

  /** A read of one word, aligned and inside the string, compared with SPACE_INT. */
  method WordIsSpaces(ptr: nat, buf: seq<Byte>, address: nat, w: nat, bigEndian: bool)
    returns (yes: bool, ghost access: Access)
    requires w == 4 || w == 8
    requires address % w == 0
    requires ptr <= address && address + w <= ptr + |buf|
    ensures yes <==> forall k :: address - ptr <= k < address - ptr + w ==> buf[k] == SPACE
    ensures access == Access(address, w)
  {
    access := Access(address, w);
    var at := address - ptr;
    var word := buf[at..at + w];
    WordOfSpaces(word, bigEndian);
    yes := WordValue(word, bigEndian) == SpaceInt(w);
    assert forall k :: 0 <= k < w ==> word[k] == buf[at + k];
    assert forall k :: at <= k < at + w ==> buf[k] == word[k - at];
  }

  /** The first word boundary from `ptr` on, and the last one up to `end`. */
  method WordBounds(ptr: nat, end: nat, w: nat) returns (startWords: nat, endWords: nat)
    requires w == 4 || w == 8
    ensures startWords % w == 0 && ptr <= startWords < ptr + w
    ensures endWords % w == 0 && end - w < endWords <= end
  {
    endWords := end / w * w;
    startWords := (ptr + w - 1) / w * w;
    Aligned(end, w);
    Aligned(ptr + w - 1, w);
  }

  /**
   `skip_trailing_space` on a string at address `ptr`: the address just past the last byte that
   is not a space, as the naive scan finds it.  `accesses` are its reads of memory, in order: each
   inside the string, a byte or an aligned word.
   */
  method SkipTrailingSpace(ptr: nat, buf: seq<Byte>, w: nat, bigEndian: bool)
    returns (end: nat, ghost accesses: seq<Access>)
    requires w == 4 || w == 8
    ensures end == ptr + NaiveEnd(buf, |buf|)
    ensures forall a :: a in accesses ==> Proper(a, ptr, |buf|, w)
  {
    var len := |buf|;
    ghost var access;
    end, accesses := ptr + len, [];
    if len > 20 {
      var startWords, endWords := WordBounds(ptr, end, w);
      if endWords > ptr {
        end, accesses := SkipBytes(ptr, buf, w, endWords, end, accesses);
        var last;
        last, access := ByteAt(ptr, buf, end - 1);
        accesses := accesses + [access];
        if last == SPACE && startWords < endWords {
          var isSpace := true;
          while end > startWords && isSpace
            invariant startWords <= end <= ptr + len && end % w == 0
            invariant forall k :: end - ptr <= k < len ==> buf[k] == SPACE
            invariant forall a :: a in accesses ==> Proper(a, ptr, len, w)
            decreases end, isSpace
          {
            OneWordBack(end, startWords, w);
            isSpace, access := WordIsSpaces(ptr, buf, end - w, w, bigEndian);
            accesses := accesses + [access];
            if isSpace {
              end := end - w;
            }
          }
        }
      }
    }
    end, accesses := SkipBytes(ptr, buf, w, ptr, end, accesses);
    EndIsUnique(buf, end - ptr);
  }

  // The first loop and the last: back over spaces, byte by byte, as far as `stop`.
  method SkipBytes(ptr: nat, buf: seq<Byte>, w: nat, stop: nat, from: nat, ghost before: seq<Access>)
    returns (end: nat, ghost accesses: seq<Access>)
    requires w > 0 && ptr <= stop <= from <= ptr + |buf|
    requires forall k :: from - ptr <= k < |buf| ==> buf[k] == SPACE
    requires forall a :: a in before ==> Proper(a, ptr, |buf|, w)
    ensures stop <= end <= from
    ensures forall k :: end - ptr <= k < |buf| ==> buf[k] == SPACE
    ensures end > stop ==> buf[end - ptr - 1] != SPACE
    ensures forall a :: a in accesses ==> Proper(a, ptr, |buf|, w)
  {
    end, accesses := from, before;
    var isSpace := true;
    while end > stop && isSpace
      invariant stop <= end <= from
      invariant forall k :: end - ptr <= k < |buf| ==> buf[k] == SPACE
      invariant !isSpace ==> end > stop && buf[end - ptr - 1] != SPACE
      invariant forall a :: a in accesses ==> Proper(a, ptr, |buf|, w)
      decreases end, isSpace
    {
      var last;
      ghost var access;
      last, access := ByteAt(ptr, buf, end - 1);
      accesses := accesses + [access];
      isSpace := last == SPACE;
      if isSpace {
        end := end - 1;
      }
    }
  }

  lemma Aligned(x: nat, w: nat)
    requires w == 4 || w == 8
    ensures x / w * w <= x < x / w * w + w && (x / w * w) % w == 0
  {
  }

  // Between two word boundaries there is room for a whole word.
  lemma OneWordBack(end: nat, start: nat, w: nat)
    requires w == 4 || w == 8
    requires end % w == 0 && start % w == 0 && start < end
    ensures start <= end - w && (end - w) % w == 0
  {
  }
}
