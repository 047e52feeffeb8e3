/**
 Page arithmetic of pmm.h.
 */
module Pages {
  const PAGE_SIZE := 4096

  function DivCeiling(x: nat, y: nat): nat
    requires y >= 1
  {
    (x + (y - 1)) / y
  }

  function AlignUp(x: nat, y: nat): nat
    requires y >= 1
  {
    DivCeiling(x, y) * y
  }

  function AlignDown(x: nat, y: nat): nat
    requires y >= 1
  {
    x / y * y
  }
}

/**
 Building the page bitmap from the boot loader's memory map (pmm_init).
 */
module MemoryMaps {
  import opened Bitmaps
  import opened Pages

  datatype MemmapEntry = MemmapEntry(base: nat, length: nat, usable: bool) {
    function Top(): nat { base + length }

    predicate Covers(page: nat) {
      usable && base <= page * PAGE_SIZE < Top()
    }
  }

  /** The highest address of usable memory. */
  function HigherAddress(es: seq<MemmapEntry>): (top: nat)
    ensures forall i :: 0 <= i < |es| && es[i].usable ==> es[i].Top() <= top
  {
    if es == [] then 0
    else
      var h := HigherAddress(es[..|es| - 1]);
      var e := es[|es| - 1];
      if e.usable && e.Top() > h then e.Top() else h
  }

  /** The first of the largest usable entries; -1 when there is none. */
  function Largest(es: seq<MemmapEntry>): (d: int)
    ensures -1 <= d < |es|
    ensures d == -1 <==> forall i :: 0 <= i < |es| ==> !es[i].usable
    ensures d >= 0 ==> es[d].usable && forall i :: 0 <= i < |es| && es[i].usable ==>
      es[i].length <= es[d].length && (es[i].length == es[d].length ==> d <= i)
  {
    if es == [] then -1
    else
      var n := |es| - 1;
      var d := Largest(es[..n]);
      if es[n].usable && (d == -1 || es[n].length > es[d].length) then n else d
  }

  function PageCount(es: seq<MemmapEntry>): nat {
    HigherAddress(es) / PAGE_SIZE
  }

  function BitmapSize(es: seq<MemmapEntry>): nat {
    AlignUp(PageCount(es) / 8, PAGE_SIZE)
  }

  /** Page-aligned usable entries that do not overlap. */
  predicate WellFormed(es: seq<MemmapEntry>) {
    && (forall i :: 0 <= i < |es| && es[i].usable ==> es[i].base % PAGE_SIZE == 0 && es[i].length % PAGE_SIZE == 0)
    && (forall i, j :: 0 <= i < j < |es| && es[i].usable && es[j].usable ==>
          es[i].Top() <= es[j].base || es[j].Top() <= es[i].base)
  }

  /** There is usable memory, and its largest entry holds a bitmap that has a bit for every page. */
  predicate HoldsBitmap(es: seq<MemmapEntry>) {
    && Largest(es) >= 0
    && BitmapSize(es) <= es[Largest(es)].length
    && PageCount(es) <= 8 * BitmapSize(es)
  }

  /** The memory map once the bitmap is cut off the front of the largest entry. */
  function Carved(es: seq<MemmapEntry>): seq<MemmapEntry>
    requires HoldsBitmap(es)
  {
    var d, size := Largest(es), BitmapSize(es);
    es[d := es[d].(base := es[d].base + size, length := es[d].length - size)]
  }

  ghost predicate Usable(es: seq<MemmapEntry>, page: nat) {
    exists i :: 0 <= i < |es| && es[i].Covers(page)
  }

  /** A page of the bitmap itself. */
  predicate HoldsBits(es: seq<MemmapEntry>, page: nat)
    requires HoldsBitmap(es)
  {
    es[Largest(es)].base <= page * PAGE_SIZE < es[Largest(es)].base + BitmapSize(es)
  }

  /** One bit is clear for every usable page outside the bitmap itself, the others are set. */
  ghost predicate Reflects(es: seq<MemmapEntry>, bits: seq<bool>)
    requires HoldsBitmap(es)
  {
    forall page :: 0 <= page < |bits| ==> (!bits[page] <==> Usable(es, page) && !HoldsBits(es, page))
  }

  /** What is usable after carving: everything usable before, less the pages of the bitmap. */
  lemma CarvedUsable(es: seq<MemmapEntry>, page: nat)
    requires WellFormed(es) && HoldsBitmap(es)
    ensures Usable(Carved(es), page) <==> Usable(es, page) && !HoldsBits(es, page)
  {
    var d, cs := Largest(es), Carved(es);
    if Usable(cs, page) {
      var i :| 0 <= i < |cs| && cs[i].Covers(page);
      assert es[i].Covers(page);
    }
    if Usable(es, page) && !HoldsBits(es, page) {
      var i :| 0 <= i < |es| && es[i].Covers(page);
      assert cs[i].Covers(page);
    }
  }

  /** Carving keeps the map well-formed, and every page of it below the page count. */
  lemma CarvedWellFormed(es: seq<MemmapEntry>)
    requires WellFormed(es) && HoldsBitmap(es)
    ensures WellFormed(Carved(es))
    ensures forall i :: 0 <= i < |es| && es[i].usable ==> Carved(es)[i].Top() <= PageCount(es) * PAGE_SIZE
  {
    var d := Largest(es);
    AlignedParts(es[d].base, es[d].length, PageCount(es) / 8);
    TopsCounted(es);
    CutWellFormed(es, d, BitmapSize(es), PageCount(es) * PAGE_SIZE);
  }

  lemma TopsCounted(es: seq<MemmapEntry>)
    requires WellFormed(es)
    ensures forall i :: 0 <= i < |es| && es[i].usable ==> es[i].Top() <= PageCount(es) * PAGE_SIZE
  {
    TopAligned(es);
  }

  /** Cutting whole pages off the front of an entry keeps a map well-formed, and the ends of its entries. */
  lemma CutWellFormed(es: seq<MemmapEntry>, d: nat, size: nat, top: nat)
    requires forall i :: 0 <= i < |es| && es[i].usable ==> es[i].Top() <= top
    requires WellFormed(es) && d < |es| && size <= es[d].length
    requires (es[d].base + size) % PAGE_SIZE == 0 && (es[d].length - size) % PAGE_SIZE == 0
    ensures var cs := es[d := es[d].(base := es[d].base + size, length := es[d].length - size)];
      WellFormed(cs) && forall i :: 0 <= i < |es| && es[i].usable ==> cs[i].Top() <= top
  {
  }

  lemma AlignedParts(base: nat, length: nat, bytes: nat)
    requires base % PAGE_SIZE == 0 && length % PAGE_SIZE == 0
    ensures (base + AlignUp(bytes, PAGE_SIZE)) % PAGE_SIZE == 0 && (length - AlignUp(bytes, PAGE_SIZE)) % PAGE_SIZE == 0
  {
  }

  lemma {:induction false} TopAligned(es: seq<MemmapEntry>)
    requires WellFormed(es)
    ensures HigherAddress(es) % PAGE_SIZE == 0
  {
    if es != [] {
      TopAligned(es[..|es| - 1]);
    }
  }

  /** A bit behind the last page exists unless the whole bytes of the bitmap exactly fill their pages; in that case
      even the last pages have no bit, unless their number is a multiple of 8. */
  lemma SentinelExists(es: seq<MemmapEntry>)
    ensures PageCount(es) < 8 * BitmapSize(es) <==> PageCount(es) / 8 % PAGE_SIZE != 0
    ensures PageCount(es) <= 8 * BitmapSize(es) <==> PageCount(es) / 8 % PAGE_SIZE != 0 || PageCount(es) % 8 == 0
  {
    RoundedUp(PageCount(es));
  }

  lemma RoundedUp(pages: nat)
    ensures pages < 8 * AlignUp(pages / 8, PAGE_SIZE) <==> pages / 8 % PAGE_SIZE != 0
    ensures pages <= 8 * AlignUp(pages / 8, PAGE_SIZE) <==> pages / 8 % PAGE_SIZE != 0 || pages % 8 == 0
  {
  }

  /** One usable entry of 128 MiB from address 0: its bitmap has no bit behind the last page. */
  lemma NoSentinelAt128MiB()
    ensures var es := [MemmapEntry(0, 0x8000000, true)];
      WellFormed(es) && HoldsBitmap(es) && PageCount(es) == 8 * BitmapSize(es)
  {
    var es := [MemmapEntry(0, 0x8000000, true)];
    assert es[..0] == [];
    assert HigherAddress(es[..0]) == 0 && Largest(es[..0]) == -1;
    assert PageCount(es) == 32768;
  }

  /** One page more: its bitmap fits the entry, but has no bit for the last page, which the source clears all the same. */
  lemma NoBitForLastPage()
    ensures var es := [MemmapEntry(0, 0x8001000, true)];
      && WellFormed(es) && Largest(es) == 0 && BitmapSize(es) <= es[0].length
      && PageCount(es) == 8 * BitmapSize(es) + 1 && Usable(es, PageCount(es) - 1)
  {
    var es := [MemmapEntry(0, 0x8001000, true)];
    assert es[..0] == [];
    assert HigherAddress(es[..0]) == 0 && Largest(es[..0]) == -1;
    assert PageCount(es) == 32769;
    assert es[0].Covers(32768);
  }
}
