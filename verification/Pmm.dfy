/**
 The physical page allocator: a next-fit scan of the page bitmap, tried again from page 0 when it fails.
 */
module Pmms {
  import opened Bitmaps
  import opened Pages
  import opened MemoryMaps

  // ---- What the allocator does, on values ----

  /** The bits, where the next scan starts, and the page found (0: none). */
  datatype Scan = Scan(bits: seq<bool>, last: nat, page: nat)

  function Find(bits: seq<bool>, last: nat, n: nat, count: nat): (r: Scan)
    requires count <= |bits| && last <= count
    ensures |r.bits| == |bits| && r.last <= count
    ensures count < |bits| ==> r.bits[count] == bits[count]
  {
    var s := FirstFit(bits, last, n, count);
    if n == 0 then Scan(bits, last, 0)
    else if s < 0 then Scan(bits, count, 0)
    else Scan(Painted(bits, s, n, true), s + n, s)
  }

  function Allocation(bits: seq<bool>, last: nat, n: nat, count: nat): (r: Scan)
    requires count <= |bits| && last <= count
    ensures |r.bits| == |bits| && r.last <= count
    ensures count < |bits| ==> r.bits[count] == bits[count]
  {
    var r := Find(bits, last, n, count);
    if r.page != 0 then r else Find(r.bits, 0, n, count)
  }

  /** Some run of n free pages exists. */
  predicate Fits(bits: seq<bool>, n: nat, count: nat) {
    exists s :: 0 <= s && s + n <= count && FreeRun(bits, s, n)
  }

  /** An exact allocation: nothing found and nothing changed when no run exists, otherwise a run of free pages away
      from page 0, of which exactly those bits are now set. */
  predicate Exact(bits: seq<bool>, n: nat, count: nat, r: Scan)
    requires count <= |bits|
  {
    if !Fits(bits, n, count) then r.page == 0 && r.bits == bits
    else 0 < r.page && r.page + n <= count && FreeRun(bits, r.page, n) && r.bits == Painted(bits, r.page, n, true)
  }

  /** The scan comes to a run that starts at page 0, whose number means "not found". */
  predicate MeetsPageZero(bits: seq<bool>, last: nat, n: nat, count: nat)
    requires count <= |bits|
  {
    n <= count && FreeRun(bits, 0, n) && (last == 0 || FirstFit(bits, last, n, count) < 0)
  }

  /** For n >= 1 the allocator is exact if and only if its scan does not come to a run at page 0. */
  lemma AllocationExact(bits: seq<bool>, last: nat, n: nat, count: nat)
    requires count <= |bits| && last <= count && n >= 1
    ensures Exact(bits, n, count, Allocation(bits, last, n, count)) <==> !MeetsPageZero(bits, last, n, count)
  {
    var r := Allocation(bits, last, n, count);
    var s := FirstFit(bits, 0, n, count);
    FirstFitIsLeast(bits, last, n, count);
    FirstFitIsLeast(bits, 0, n, count);
    FirstFitIsLeast(Find(bits, last, n, count).bits, 0, n, count);
    if MeetsPageZero(bits, last, n, count) {
      assert s == 0;
      assert Fits(bits, n, count);
      assert Find(bits, last, n, count).page == 0;
      if last != 0 {
        assert r.page == 0;
      } else {
        assert Find(bits, last, n, count).bits[0] && r.bits[0];
        assert !Painted(bits, r.page, n, true)[0] || r.page == 0;
      }
    } else if Fits(bits, n, count) {
      assert s >= 0;
      assert FreeRun(bits, s, n);
    }
  }

  /** Reserving page 0 is enough. */
  lemma ReservedPageZero(bits: seq<bool>, last: nat, n: nat, count: nat)
    requires count <= |bits| && last <= count && n >= 1 && |bits| > 0 && bits[0]
    ensures !MeetsPageZero(bits, last, n, count)
    ensures Exact(bits, n, count, Allocation(bits, last, n, count))
  {
    AllocationExact(bits, last, n, count);
  }

  /** A scan that comes to a run at page 0 marks its n pages and does not hand them out: the caller gets the next run
      of n free pages behind them, or nothing. */
  lemma PageZeroIsLost(bits: seq<bool>, last: nat, n: nat, count: nat)
    requires count <= |bits| && last <= count && n >= 1 && MeetsPageZero(bits, last, n, count)
    ensures var r, lost := Allocation(bits, last, n, count), Painted(bits, 0, n, true);
      if r.page == 0 then r.bits == lost
      else n <= r.page && r.page + n <= count && FreeRun(bits, r.page, n) && r.bits == Painted(lost, r.page, n, true)
  {
    var lost := Painted(bits, 0, n, true);
    FirstFitIsLeast(bits, 0, n, count);
    FirstFitIsLeast(bits, last, n, count);
    FirstFitIsLeast(lost, 0, n, count);
    assert FreeRun(bits, 0, n);
    var s := FirstFit(lost, 0, n, count);
    if s >= 0 {
      assert !lost[s];
      forall k | s <= k < s + n ensures !bits[k] {
        assert !lost[k];
      }
    }
  }

  /** Freeing what an allocation has just handed out restores the bitmap, unless the scan has lost pages on its way. */
  lemma AllocatedAndFreed(bits: seq<bool>, last: nat, n: nat, count: nat)
    requires count <= |bits| && last <= count && n >= 1 && Allocation(bits, last, n, count).page != 0
    ensures var r := Allocation(bits, last, n, count);
      r.page + n <= count && (Painted(r.bits, r.page, n, false) == bits) == !MeetsPageZero(bits, last, n, count)
  {
    var r := Allocation(bits, last, n, count);
    AllocationExact(bits, last, n, count);
    if MeetsPageZero(bits, last, n, count) {
      PageZeroIsLost(bits, last, n, count);
      assert Painted(r.bits, r.page, n, false)[0] && !bits[0];
    } else {
      PaintedBack(bits, r.page, n, false);
    }
  }

  /** Requests of no pages are refused and rewind the scan. */
  lemma NoPages(bits: seq<bool>, last: nat, count: nat)
    requires count <= |bits| && last <= count
    ensures Allocation(bits, last, 0, count) == Scan(bits, 0, 0)
  {
  }

  // ---- The allocator ----

  /** The first loop of pmm_init: the largest usable entry and the highest usable address. */
  method ScanMemmap(entries: array<MemmapEntry>) returns (defaultMemmap: int, higherAddress: nat)
    ensures defaultMemmap == Largest(entries[..]) && higherAddress == HigherAddress(entries[..])
  {
    defaultMemmap, higherAddress := -1, 0;
    for i := 0 to entries.Length
      invariant defaultMemmap == Largest(entries[..i]) && higherAddress == HigherAddress(entries[..i])
    {
      assert entries[..i + 1][..i] == entries[..i];
      if entries[i].usable {
        if defaultMemmap == -1 || entries[i].length > entries[defaultMemmap].length {
          defaultMemmap := i;
        }
        var topAddress := entries[i].base + entries[i].length;
        if topAddress > higherAddress {
          higherAddress := topAddress;
        }
      }
    }
    assert entries[..entries.Length] == entries[..];
  }

  /** The bitmap takes the front of the entry. */
  method CarveBitmap(entries: array<MemmapEntry>, d: int, size: nat)
    requires HoldsBitmap(entries[..]) && d == Largest(entries[..]) && size == BitmapSize(entries[..])
    modifies entries
    ensures entries[..] == Carved(old(entries[..]))
  {
    entries[d] := entries[d].(base := entries[d].base + size, length := entries[d].length - size);
  }

  /** The last loop of pmm_init: the pages of usable entries become free. */
  method ClearUsable(entries: array<MemmapEntry>, bitmap: array<bv8>, count: nat)
    requires WellFormed(entries[..]) && count <= 8 * bitmap.Length && entries as object != bitmap as object
    requires forall i :: 0 <= i < entries.Length && entries[i].usable ==> entries[i].Top() <= count * PAGE_SIZE
    requires forall i :: 0 <= i < bitmap.Length ==> bitmap[i] == 0xFF
    modifies bitmap
    ensures forall page :: 0 <= page < 8 * bitmap.Length ==> (!Bits(bitmap[..])[page] <==> Usable(entries[..], page))
  {
    AllSet(bitmap[..]);
    ghost var es := entries[..];
    for i := 0 to entries.Length
      invariant entries[..] == es
      invariant forall page :: 0 <= page < 8 * bitmap.Length ==> (!Bits(bitmap[..])[page] <==> Usable(es[..i], page))
    {
      ghost var bits := Bits(bitmap[..]);
      if entries[i].usable {
        ClearPages(bitmap, entries[i]);
      }
      forall page | 0 <= page < 8 * bitmap.Length
        ensures !Bits(bitmap[..])[page] <==> Usable(es[..i + 1], page)
      {
        UsableStep(es, i, page);
        assert bits[page] == !Usable(es[..i], page);
      }
    }
    assert es[..entries.Length] == es;
  }

  method ClearPages(bitmap: array<bv8>, e: MemmapEntry)
    requires e.usable && e.base % PAGE_SIZE == 0 && e.length % PAGE_SIZE == 0 && e.Top() <= 8 * bitmap.Length * PAGE_SIZE
    modifies bitmap
    ensures forall page :: 0 <= page < 8 * bitmap.Length ==>
      Bits(bitmap[..])[page] == (old(Bits(bitmap[..]))[page] && !e.Covers(page))
  {
    var o := 0;
    while o < e.length
      invariant o % PAGE_SIZE == 0 && o <= e.length
      invariant forall page :: 0 <= page < 8 * bitmap.Length ==>
        Bits(bitmap[..])[page] == (old(Bits(bitmap[..]))[page] && !Within(page, e.base, o))
    {
      ghost var page := (e.base + o) / PAGE_SIZE;
      PageCleared(e, o, page, 8 * bitmap.Length);
      BitmapClear(bitmap, (e.base + o) / PAGE_SIZE);
      o := o + PAGE_SIZE;
    }
  }

  /** One page more of an entry. */
  lemma PageCleared(e: MemmapEntry, o: nat, page: nat, count: nat)
    requires e.base % PAGE_SIZE == 0 && e.length % PAGE_SIZE == 0 && o % PAGE_SIZE == 0 && o < e.length
    requires e.Top() <= count * PAGE_SIZE && page == (e.base + o) / PAGE_SIZE
    ensures page < count && o + PAGE_SIZE <= e.length && (o + PAGE_SIZE) % PAGE_SIZE == 0
    ensures forall k :: Within(k, e.base, o + PAGE_SIZE) <==> Within(k, e.base, o) || k == page
  {
  }

  /** Page k begins in the first o bytes from base on. */
  predicate Within(k: int, base: nat, o: nat) {
    base <= k * PAGE_SIZE < base + o
  }

  lemma UsableStep(es: seq<MemmapEntry>, i: nat, page: nat)
    requires i < |es|
    ensures Usable(es[..i + 1], page) <==> Usable(es[..i], page) || es[i].Covers(page)
  {
    if Usable(es[..i], page) {
      var j :| 0 <= j < i && es[..i][j].Covers(page);
      assert es[..i + 1][j].Covers(page);
    }
    if es[i].Covers(page) {
      assert es[..i + 1][i].Covers(page);
    }
  }

  /** A bit is clear exactly when its page is usable in the carved map. */
  ghost predicate ReflectsCarved(es: seq<MemmapEntry>, bits: seq<bool>)
    requires HoldsBitmap(es)
  {
    && |bits| == 8 * BitmapSize(es)
    && forall page :: 0 <= page < |bits| ==> (!bits[page] <==> Usable(Carved(es), page))
  }

  /** What clearing the carved map amounts to. */
  lemma ClearedPages(es: seq<MemmapEntry>, bits: seq<bool>, count: nat)
    requires WellFormed(es) && HoldsBitmap(es) && ReflectsCarved(es, bits) && count == PageCount(es)
    ensures Reflects(es, bits)
    ensures count < |bits| && bits[count] <==> count / 8 % PAGE_SIZE != 0
    ensures count <= |bits|
  {
    CarvedWellFormed(es);
    SentinelExists(es);
    forall page | 0 <= page < |bits|
      ensures !bits[page] <==> Usable(es, page) && !HoldsBits(es, page)
    {
      CarvedUsable(es, page);
    }
  }

  /** The steps of pmm_init. */
  method MakeBitmap(entries: array<MemmapEntry>) returns (bits: array<bv8>, count: nat)
    requires WellFormed(entries[..]) && HoldsBitmap(entries[..])
    modifies entries
    ensures fresh(bits) && entries[..] == old(Carved(entries[..])) && count == old(PageCount(entries[..]))
    ensures old(HoldsBitmap(entries[..])) && ReflectsCarved(old(entries[..]), Bits(bits[..]))
  {
    var defaultMemmap, higherAddress := ScanMemmap(entries);
    count := higherAddress / PAGE_SIZE;
    var bitmapSize := AlignUp(count / 8, PAGE_SIZE);
    bits := new bv8[bitmapSize](_ => 0xFF);
    CarvedWellFormed(entries[..]);
    CarveBitmap(entries, defaultMemmap, bitmapSize);
    ClearUsable(entries, bits, count);
  }

  lemma AllSet(bytes: seq<bv8>)
    requires forall i :: 0 <= i < |bytes| ==> bytes[i] == 0xFF
    ensures forall k :: 0 <= k < 8 * |bytes| ==> Bits(bytes)[k]
  {
    forall k | 0 <= k < 8 * |bytes|
      ensures Bits(bytes)[k]
    {
      BitsAt(bytes, k);
      assert (0xFF as bv8) & Mask(k % 8) == Mask(k % 8);
    }
  }

  class Pmm {
    const bitmap: array<bv8>
    const pageCount: nat
    var lastPage: nat

    /** The scan never leaves the pages, and the bit behind the last page stops every run. */
    predicate Valid()
      reads this, bitmap
    {
      lastPage <= pageCount < 8 * bitmap.Length && Bits(bitmap[..])[pageCount]
    }

    /** pmm_init: one bit is set for every page but those of usable memory outside the bitmap itself. */
    constructor PmmInit(entries: array<MemmapEntry>)
      requires WellFormed(entries[..]) && HoldsBitmap(entries[..])
      modifies entries
      ensures fresh(bitmap) && entries[..] == old(Carved(entries[..]))
      ensures pageCount == old(PageCount(entries[..])) <= |Used()|
      ensures Reflects(old(entries[..]), Used())
      ensures Valid() <==> pageCount / 8 % PAGE_SIZE != 0
    {
      ghost var es := entries[..];
      var bits, count := MakeBitmap(entries);
      ClearedPages(es, Bits(bits[..]), count);
      bitmap, pageCount, lastPage := bits, count, 0;
    }

    ghost function Used(): (bits: seq<bool>)
      reads bitmap
      ensures |bits| == 8 * bitmap.Length
    {
      Bits(bitmap[..])
    }

    method FindPages(n: nat) returns (page: nat)
      requires Valid()
      modifies this, bitmap
      ensures Valid()
      ensures Scan(Used(), lastPage, page) == Find(old(Used()), old(lastPage), n, pageCount)
    {
      var pages := 0;
      var firstPage := lastPage;
      ghost var bits := Used();
      while pages < n
        invariant bitmap[..] == old(bitmap[..])
        invariant firstPage == lastPage && pages <= n && (pages == n ==> n == 0)
        invariant Searching(bits, old(lastPage), lastPage, pages, n, pageCount)
        decreases pageCount - lastPage, n - pages
      {
        if lastPage == pageCount {
          NothingLeft(bits, old(lastPage), pages, n, pageCount);
          return 0;
        }
        var used := BitmapGet(bitmap, lastPage + pages);
        if !used {
          OneMoreFree(bits, old(lastPage), lastPage, pages, n, pageCount);
          pages := pages + 1;
          if pages == n {
            FoundHere(bits, old(lastPage), lastPage, n, pageCount);
            TakePages(n);
            return firstPage;
          }
        } else {
          SkipUsed(bits, old(lastPage), lastPage, pages, n, pageCount);
          lastPage := lastPage + (if pages == 0 then 1 else pages);
          firstPage := lastPage;
          pages := 0;
        }
      }
      return 0;
    }

    /** The scan stands at n free pages: they are marked, and the next scan starts behind them. */
    method TakePages(n: nat)
      requires Valid() && n >= 1 && lastPage + n <= pageCount && FreeRun(Used(), lastPage, n)
      modifies this, bitmap
      ensures Valid()
      ensures Scan(Used(), lastPage, old(lastPage)) == Find(old(Used()), old(lastPage), n, pageCount)
    {
      for i := 0 to n
        invariant lastPage == old(lastPage) && Used() == Painted(old(Used()), lastPage, i, true)
      {
        BitmapSet(bitmap, lastPage + i);
      }
      FindHere(old(Used()), lastPage, n, pageCount);
      lastPage := lastPage + n;
    }

    /** pmm_alloc: the physical address of n pages, 0 (NULL) when there are none. */
    method Alloc(n: nat) returns (physical: nat)
      requires Valid()
      modifies this, bitmap
      ensures Valid()
      ensures Scan(Used(), lastPage, physical / PAGE_SIZE) == Allocation(old(Used()), old(lastPage), n, pageCount)
      ensures physical % PAGE_SIZE == 0
    {
      var pages := FindPages(n);
      if pages == 0 {
        lastPage := 0;
        pages := FindPages(n);
        if pages == 0 {
          return 0;
        }
      }
      physical := pages * PAGE_SIZE;
    }

    /** pmm_free of n pages below the last page. */
    method Free(p: nat, n: nat)
      requires Valid() && p / PAGE_SIZE + n <= pageCount
      modifies bitmap
      ensures Valid() && Used() == Painted(old(Used()), p / PAGE_SIZE, n, false)
    {
      var page := p / PAGE_SIZE;
      for i := 0 to n
        invariant Used() == Painted(old(Used()), page, i, false)
      {
        BitmapClear(bitmap, page + i);
      }
    }
  }

  lemma FindHere(bits: seq<bool>, from: nat, n: nat, count: nat)
    requires n >= 1 && from + n <= count <= |bits| && FreeRun(bits, from, n)
    ensures Find(bits, from, n, count) == Scan(Painted(bits, from, n, true), from + n, from)
  {
  }

  /** The scan has come from page `start` to `last`, and from there over a run of free pages, past no fit. */
  ghost predicate Searching(bits: seq<bool>, start: nat, last: nat, pages: nat, n: nat, count: nat) {
    && start <= last && last + pages <= count <= |bits| && FreeRun(bits, last, pages)
    && FirstFit(bits, last, n, count) == FirstFit(bits, start, n, count)
    && (n == 0 ==> last == start)
  }

  lemma OneMoreFree(bits: seq<bool>, start: nat, last: nat, pages: nat, n: nat, count: nat)
    requires Searching(bits, start, last, pages, n, count) && count < |bits| && bits[count] && !bits[last + pages]
    ensures Searching(bits, start, last, pages + 1, n, count)
  {
  }

  lemma FoundHere(bits: seq<bool>, start: nat, last: nat, n: nat, count: nat)
    requires Searching(bits, start, last, n, n, count) && n >= 1
    ensures FreeRun(bits, last, n) && Find(bits, start, n, count) == Find(bits, last, n, count)
  {
  }

  lemma NothingLeft(bits: seq<bool>, start: nat, pages: nat, n: nat, count: nat)
    requires Searching(bits, start, count, pages, n, count) && pages < n
    ensures Find(bits, start, n, count) == Scan(bits, count, 0)
  {
  }

  /** Jumping over the used page that ended a run loses no candidate. */
  lemma SkipUsed(bits: seq<bool>, start: nat, last: nat, pages: nat, n: nat, count: nat)
    requires Searching(bits, start, last, pages, n, count) && last < count < |bits| && pages < n
    requires bits[last + pages] && bits[count]
    ensures Searching(bits, start, last + (if pages == 0 then 1 else pages), 0, n, count)
  {
    var p := last + pages;
    if p < count {
      FitSkips(bits, last, p, n, count);
      FitSkips(bits, p, p, n, count);
    }
  }
}
