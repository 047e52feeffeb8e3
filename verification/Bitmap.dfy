/**
 The page bitmap of bitmap.h: one bit per page, eight to a byte, and what those bits mean as a sequence of booleans.
 */
module Bitmaps {

  function Mask(i: nat): (m: bv8)
    requires i < 8
    ensures m != 0
  {
    if i == 0 then 0x01 else if i == 1 then 0x02 else if i == 2 then 0x04 else if i == 3 then 0x08
    else if i == 4 then 0x10 else if i == 5 then 0x20 else if i == 6 then 0x40 else 0x80
  }

  lemma MaskIsShift(i: nat)
    requires i < 8
    ensures Mask(i) == (1 as bv8) << i
  {
  }

  lemma MasksApart(i: nat, j: nat)
    requires i < 8 && j < 8 && i != j
    ensures Mask(i) & Mask(j) == 0 && Mask(i) != Mask(j)
  {
  }

  predicate Bit(b: bv8, i: nat)
    requires i < 8
  {
    b & Mask(i) != 0
  }

  lemma MaskOr(b: bv8, m: bv8, q: bv8)
    requires m != 0 && (m == q || m & q == 0)
    ensures ((b | m) & q != 0) == (m == q || b & q != 0)
  {
  }

  lemma MaskAnd(b: bv8, m: bv8, q: bv8)
    requires m != 0 && (m == q || m & q == 0)
    ensures ((b & !m) & q != 0) == (m != q && b & q != 0)
  {
  }

  lemma SameBitSet(b: bv8, i: nat)
    requires i < 8
    ensures Bit(b | Mask(i), i)
  {
    MaskOr(b, Mask(i), Mask(i));
  }

  lemma SameBitCleared(b: bv8, i: nat)
    requires i < 8
    ensures !Bit(b & !Mask(i), i)
  {
    MaskAnd(b, Mask(i), Mask(i));
  }

  lemma OtherBitSet(b: bv8, i: nat, j: nat)
    requires i < 8 && j < 8 && i != j
    ensures Bit(b | Mask(i), j) == Bit(b, j)
  {
    MasksApart(i, j);
    MaskOr(b, Mask(i), Mask(j));
  }

  lemma OtherBitCleared(b: bv8, i: nat, j: nat)
    requires i < 8 && j < 8 && i != j
    ensures Bit(b & !Mask(i), j) == Bit(b, j)
  {
    MasksApart(i, j);
    MaskAnd(b, Mask(i), Mask(j));
  }

  /** Byte b' is byte b with bit i set to v. */
  predicate Changed(b': bv8, b: bv8, i: nat, v: bool) {
    forall j :: 0 <= j < 8 ==> Bit(b', j) == if j == i then v else Bit(b, j)
  }

  lemma BitSet(b: bv8, i: nat)
    requires i < 8
    ensures Changed(b | Mask(i), b, i, true)
  {
    forall j | 0 <= j < 8
      ensures Bit(b | Mask(i), j) == if j == i then true else Bit(b, j)
    {
      if j == i {
        SameBitSet(b, i);
      } else {
        OtherBitSet(b, i, j);
      }
    }
  }

  lemma BitCleared(b: bv8, i: nat)
    requires i < 8
    ensures Changed(b & !Mask(i), b, i, false)
  {
    forall j | 0 <= j < 8
      ensures Bit(b & !Mask(i), j) == if j == i then false else Bit(b, j)
    {
      if j == i {
        SameBitCleared(b, i);
      } else {
        OtherBitCleared(b, i, j);
      }
    }
  }

  /** The first n bits of a bitmap in order: `true` is a used page. */
  function FirstBits(bytes: seq<bv8>, n: nat): (bits: seq<bool>)
    requires n <= 8 * |bytes|
    ensures |bits| == n
  {
    if n == 0 then [] else FirstBits(bytes, n - 1) + [Bit(bytes[(n - 1) / 8], (n - 1) % 8)]
  }

  function Bits(bytes: seq<bv8>): (bits: seq<bool>)
    ensures |bits| == 8 * |bytes|
  {
    FirstBits(bytes, 8 * |bytes|)
  }

  lemma {:induction false} FirstBitsAt(bytes: seq<bv8>, n: nat, k: nat)
    requires k < n <= 8 * |bytes|
    ensures FirstBits(bytes, n)[k] == Bit(bytes[k / 8], k % 8)
  {
    if k < n - 1 {
      FirstBitsAt(bytes, n - 1, k);
    }
  }

  lemma BitsAt(bytes: seq<bv8>, k: nat)
    requires k < 8 * |bytes|
    ensures Bits(bytes)[k] == Bit(bytes[k / 8], k % 8)
  {
    FirstBitsAt(bytes, 8 * |bytes|, k);
  }

  /** A byte replaced so that one of its bits has value v and the others are as before. */
  lemma OneBitChanged(bytes: seq<bv8>, bit: nat, byte: bv8, v: bool)
    requires bit < 8 * |bytes|
    requires Changed(byte, bytes[bit / 8], bit % 8, v)
    ensures Bits(bytes[bit / 8 := byte]) == Bits(bytes)[bit := v]
  {
    var bits := Bits(bytes)[bit := v];
    forall k | 0 <= k < |bits|
      ensures Bits(bytes[bit / 8 := byte])[k] == bits[k]
    {
      BitsAt(bytes, k);
      BitsAt(bytes[bit / 8 := byte], k);
    }
  }

  /** bitmap[bit / 8] |= 1 << (bit % 8), on one byte. */
  method SetBit(b: bv8, i: nat) returns (r: bv8)
    requires i < 8
    ensures Changed(r, b, i, true)
  {
    BitSet(b, i);
    r := b | Mask(i);
  }

  /** bitmap[bit / 8] &= ~(1 << (bit % 8)), on one byte. */
  method ClearBit(b: bv8, i: nat) returns (r: bv8)
    requires i < 8
    ensures Changed(r, b, i, false)
  {
    BitCleared(b, i);
    r := b & !Mask(i);
  }

  method BitmapSet(bitmap: array<bv8>, bit: nat)
    requires bit < 8 * bitmap.Length
    modifies bitmap
    ensures Bits(bitmap[..]) == old(Bits(bitmap[..]))[bit := true]
  {
    var byte := SetBit(bitmap[bit / 8], bit % 8);
    OneBitChanged(bitmap[..], bit, byte, true);
    bitmap[bit / 8] := byte;
    assert bitmap[..] == old(bitmap[..])[bit / 8 := byte];
  }

  method BitmapClear(bitmap: array<bv8>, bit: nat)
    requires bit < 8 * bitmap.Length
    modifies bitmap
    ensures Bits(bitmap[..]) == old(Bits(bitmap[..]))[bit := false]
  {
    var byte := ClearBit(bitmap[bit / 8], bit % 8);
    OneBitChanged(bitmap[..], bit, byte, false);
    bitmap[bit / 8] := byte;
    assert bitmap[..] == old(bitmap[..])[bit / 8 := byte];
  }

  method BitmapGet(bitmap: array<bv8>, bit: nat) returns (used: bool)
    requires bit < 8 * bitmap.Length
    ensures used == Bits(bitmap[..])[bit]
  {
    BitsAt(bitmap[..], bit);
    used := bitmap[bit / 8] & Mask(bit % 8) != 0;
  }

  // ---- Pages as ranges of bits ----

  /** Bits first .. first + n - 1 have value b, the others are as in `bits`. */
  function Painted(bits: seq<bool>, first: nat, n: nat, b: bool): (r: seq<bool>)
    requires first + n <= |bits|
    ensures |r| == |bits|
    ensures forall k {:trigger r[k]} :: 0 <= k < |bits| ==> r[k] == if first <= k < first + n then b else bits[k]
  {
    seq(|bits|, k requires 0 <= k < |bits| => if first <= k < first + n then b else bits[k])
  }

  predicate FreeRun(bits: seq<bool>, first: nat, n: nat) {
    first + n <= |bits| && forall k :: first <= k < first + n ==> !bits[k]
  }

  predicate UsedRun(bits: seq<bool>, first: nat, n: nat) {
    first + n <= |bits| && forall k :: first <= k < first + n ==> bits[k]
  }

  /** Freeing the pages just allocated restores the bitmap. */
  lemma PaintedBack(bits: seq<bool>, first: nat, n: nat, b: bool)
    requires first + n <= |bits| && forall k :: first <= k < first + n ==> bits[k] == b
    ensures Painted(Painted(bits, first, n, !b), first, n, b) == bits
  {
  }

  /** The first page at or after `from` where n free pages lie below `count`; -1 when there is none. */
  function FirstFit(bits: seq<bool>, from: nat, n: nat, count: nat): (s: int)
    requires count <= |bits|
    ensures s == -1 || (from <= s && s + n <= count)
    decreases count - from
  {
    if from + n > count then -1
    else if FreeRun(bits, from, n) then from
    else if from == count then -1
    else FirstFit(bits, from + 1, n, count)
  }

  /** It is a free run, and no earlier page starts one. */
  lemma {:induction false} FirstFitIsLeast(bits: seq<bool>, from: nat, n: nat, count: nat)
    requires count <= |bits|
    ensures var s := FirstFit(bits, from, n, count);
      && (s != -1 ==> FreeRun(bits, s, n))
      && forall k {:trigger FreeRun(bits, k, n)} :: from <= k && k + n <= count && FreeRun(bits, k, n) ==> s != -1 && s <= k
    decreases count - from
  {
    if from + n <= count && !FreeRun(bits, from, n) && from < count {
      FirstFitIsLeast(bits, from + 1, n, count);
    }
  }

  /** A used page p rules out every start whose run would contain it. */
  lemma {:induction false} FitSkips(bits: seq<bool>, from: nat, p: nat, n: nat, count: nat)
    requires count <= |bits| && from <= p < count && p < from + n && bits[p]
    ensures FirstFit(bits, from, n, count) == FirstFit(bits, p + 1, n, count)
    decreases p - from
  {
    if from + n > count {
    } else if from < p {
      FitSkips(bits, from + 1, p, n, count);
    }
  }

  /** How many of the first `count` pages are free. */
  function FreePages(bits: seq<bool>, count: nat): (n: nat)
    requires count <= |bits|
    ensures n > 0 <==> exists p :: 0 <= p < count && !bits[p]
  {
    if count == 0 then 0 else FreePages(bits, count - 1) + (if bits[count - 1] then 0 else 1)
  }

  lemma {:induction false} FreePagesSame(bits: seq<bool>, bits': seq<bool>, count: nat)
    requires count <= |bits| == |bits'| && forall p :: 0 <= p < count ==> bits[p] == bits'[p]
    ensures FreePages(bits', count) == FreePages(bits, count)
  {
    if count > 0 {
      FreePagesSame(bits, bits', count - 1);
    }
  }

  /** Allocating one free page takes exactly one from the count. */
  lemma {:induction false} OnePageTaken(bits: seq<bool>, p: nat, count: nat)
    requires p < count <= |bits| && !bits[p]
    ensures FreePages(Painted(bits, p, 1, true), count) == FreePages(bits, count) - 1
  {
    if p == count - 1 {
      FreePagesSame(bits, Painted(bits, p, 1, true), count - 1);
    } else {
      OnePageTaken(bits, p, count - 1);
    }
  }

  /** A free page is a run of one free page. */
  lemma OneFreePageFits(bits: seq<bool>, count: nat)
    requires count <= |bits| && FreePages(bits, count) > 0
    ensures FirstFit(bits, 0, 1, count) >= 0
  {
    var p :| 0 <= p < count && !bits[p];
    assert FreeRun(bits, p, 1);
    FirstFitIsLeast(bits, 0, 1, count);
  }
}
