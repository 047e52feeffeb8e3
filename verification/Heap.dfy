/**
 The kernel heap: blocks of whole pages on a circular doubly linked list that starts and ends at a header of its own.

 A header lies at the start of the first page of its block, so a pointer to a header is the number of that page.
 */
module Heaps {
  import opened Bitmaps
  import opened Pages
  import opened Pmms

  const HEAP_MAGIC := 0xdeadcafe
  const HEADER_SIZE := 32

  /** struct heap_block. */
  datatype Block = Block(next: nat, prev: nat, used: bool, magic: nat, size: nat)

  /** Pages of a block with n bytes of payload. */
  function PagesFor(n: nat): (pages: nat)
    ensures pages >= 1
    ensures HEADER_SIZE + n <= pages * PAGE_SIZE < HEADER_SIZE + n + PAGE_SIZE
  {
    DivCeiling(HEADER_SIZE + n, PAGE_SIZE)
  }

  /** Address of the payload of the block at a page. */
  function Payload(page: nat): nat {
    page * PAGE_SIZE + HEADER_SIZE
  }

  function PageOf(ptr: nat): nat
    requires ptr >= HEADER_SIZE
  {
    (ptr - HEADER_SIZE) / PAGE_SIZE
  }

  // ---- The ring ----

  function After(i: nat, n: nat): nat { if i + 1 == n then 0 else i + 1 }

  function Before(i: nat, n: nat): nat
    requires n >= 1
  {
    if i == 0 then n - 1 else i - 1
  }

  predicate Distinct(ring: seq<nat>) {
    forall i, j :: 0 <= i < j < |ring| ==> ring[i] != ring[j]
  }

  /** The headers on the ring, linked in order both ways. */
  predicate Ring(hs: seq<Block>, ring: seq<nat>) {
    && |ring| >= 1 && Distinct(ring)
    && (forall i :: 0 <= i < |ring| ==> ring[i] < |hs|)
    && (forall i {:trigger hs[ring[i]].magic} :: 0 <= i < |ring| ==> hs[ring[i]].magic == HEAP_MAGIC)
    && (forall i {:trigger hs[ring[i]].next} :: 0 <= i < |ring| ==> hs[ring[i]].next == ring[After(i, |ring|)])
    && (forall i {:trigger hs[ring[i]].prev} :: 0 <= i < |ring| ==> hs[ring[i]].prev == ring[Before(i, |ring|)])
  }

  /** The header k steps after a header. */
  function Follow(hs: seq<Block>, page: nat, k: nat): nat {
    if k == 0 then page
    else
      var p := Follow(hs, page, k - 1);
      if p < |hs| then hs[p].next else p
  }

  function FollowBack(hs: seq<Block>, page: nat, k: nat): nat {
    if k == 0 then page
    else
      var p := FollowBack(hs, page, k - 1);
      if p < |hs| then hs[p].prev else p
  }

  /** From the first header the links visit the ring in order, and come back after the last. */
  lemma {:induction false} Visits(hs: seq<Block>, ring: seq<nat>, k: nat)
    requires Ring(hs, ring) && k <= |ring|
    ensures Follow(hs, ring[0], k) == if k == |ring| then ring[0] else ring[k]
    ensures FollowBack(hs, ring[0], k) == if k == 0 then ring[0] else ring[|ring| - k]
  {
    if k > 0 {
      Visits(hs, ring, k - 1);
    }
  }

  lemma VisitsLive(hs: seq<Block>, head: nat, live: seq<nat>, k: nat)
    requires Ring(hs, [head] + live) && k <= |live|
    ensures Follow(hs, head, k + 1) == if k == |live| then head else live[k]
    ensures FollowBack(hs, head, k + 1) == if k == |live| then head else live[|live| - 1 - k]
  {
    Visits(hs, [head] + live, k + 1);
  }

  /** heap_alloc's stores to the headers. */
  function Inserted(hs: seq<Block>, head: nat, b: nat, n: nat): (r: seq<Block>)
    requires head < |hs| && b < |hs| && hs[head].prev < |hs|
    ensures |r| == |hs|
  {
    var last := hs[head].prev;
    var h1 := hs[b := Block(head, last, true, HEAP_MAGIC, n)];
    var h2 := h1[last := h1[last].(next := b)];
    h2[head := h2[head].(prev := b)]
  }

  /** heap_free's stores to the headers. */
  function Removed(hs: seq<Block>, b: nat): (r: seq<Block>)
    requires b < |hs| && hs[b].prev < |hs| && hs[b].next < |hs|
    ensures |r| == |hs|
  {
    var p, q := hs[b].prev, hs[b].next;
    var h1 := hs[p := hs[p].(next := q)];
    h1[q := h1[q].(prev := p)]
  }

  /** Linking changes no size but that of the block inserted. */
  lemma InsertedSizes(hs: seq<Block>, head: nat, b: nat, n: nat, p: nat)
    requires head < |hs| && b < |hs| && hs[head].prev < |hs| && b != head && p < |hs|
    ensures Inserted(hs, head, b, n)[p].size == if p == b then n else hs[p].size
  {
  }

  lemma RemovedAt(hs: seq<Block>, b: nat, x: nat)
    requires b < |hs| && hs[b].prev < |hs| && hs[b].next < |hs| && x < |hs|
    ensures var h := Removed(hs, b)[x];
      && h.size == hs[x].size && h.magic == hs[x].magic
      && (x != b && hs[b].prev != b && hs[b].next != b ==>
            && h.next == (if x == hs[b].prev then hs[b].next else hs[x].next)
            && h.prev == (if x == hs[b].next then hs[b].prev else hs[x].prev))
  {
  }

  lemma InsertedLinks(hs: seq<Block>, ring: seq<nat>, b: nat, n: nat, k: nat)
    requires Ring(hs, ring) && b < |hs| && b !in ring && k <= |ring|
    ensures hs[ring[0]].prev < |hs|
    ensures var ring' := ring + [b];
      var h := Inserted(hs, ring[0], b, n)[ring'[k]];
      && h.magic == HEAP_MAGIC
      && h.next == ring'[After(k, |ring| + 1)] && h.prev == ring'[Before(k, |ring| + 1)]
  {
    assert hs[ring[0]].prev == ring[|ring| - 1];
    if k < |ring| {
      assert hs[ring[k]].magic == HEAP_MAGIC;
      assert hs[ring[k]].next == ring[After(k, |ring|)] && hs[ring[k]].prev == ring[Before(k, |ring|)];
    }
  }

  lemma InsertedRing(hs: seq<Block>, ring: seq<nat>, b: nat, n: nat)
    requires Ring(hs, ring) && b < |hs| && b !in ring
    ensures hs[ring[0]].prev < |hs| && Ring(Inserted(hs, ring[0], b, n), ring + [b])
  {
    assert hs[ring[0]].prev == ring[|ring| - 1];
    var hs', ring' := Inserted(hs, ring[0], b, n), ring + [b];
    forall k | 0 <= k < |ring'|
      ensures hs'[ring'[k]].magic == HEAP_MAGIC
      ensures hs'[ring'[k]].next == ring'[After(k, |ring'|)] && hs'[ring'[k]].prev == ring'[Before(k, |ring'|)]
    {
      InsertedLinks(hs, ring, b, n, k);
    }
  }

  function Without(s: seq<nat>, j: nat): seq<nat>
    requires j < |s|
  {
    s[..j] + s[j + 1..]
  }

  /** Where the k-th of the others was. */
  function Skip(k: nat, j: nat): nat { if k < j then k else k + 1 }

  lemma SamePlace(ring: seq<nat>, a: nat, b: nat)
    requires Distinct(ring) && a < |ring| && b < |ring|
    ensures ring[a] == ring[b] <==> a == b
  {
  }

  /** Leading past ring[j] is leading along the ring without it. */
  lemma LinksPast(ring: seq<nat>, j: nat, k: nat)
    requires Distinct(ring) && 1 <= j < |ring| && k < |ring| - 1
    ensures var n, i := |ring|, Skip(k, j);
      && (if ring[i] == ring[j - 1] then ring[After(j, n)] else ring[After(i, n)]) == ring[Skip(After(k, n - 1), j)]
      && (if ring[i] == ring[After(j, n)] then ring[j - 1] else ring[Before(i, n)]) == ring[Skip(Before(k, n - 1), j)]
  {
    SamePlace(ring, Skip(k, j), j - 1);
    SamePlace(ring, Skip(k, j), After(j, |ring|));
  }

  lemma RemovedLinks(hs: seq<Block>, ring: seq<nat>, j: nat, k: nat)
    requires Ring(hs, ring) && 1 <= j < |ring| && k < |ring| - 1
    ensures hs[ring[j]].prev < |hs| && hs[ring[j]].next < |hs|
    ensures var h := Removed(hs, ring[j])[ring[Skip(k, j)]];
      && h.magic == HEAP_MAGIC
      && h.next == ring[Skip(After(k, |ring| - 1), j)] && h.prev == ring[Skip(Before(k, |ring| - 1), j)]
  {
    var i := Skip(k, j);
    assert hs[ring[j]].prev == ring[j - 1] && hs[ring[j]].next == ring[After(j, |ring|)];
    assert hs[ring[i]].magic == HEAP_MAGIC && ring[i] != ring[j];
    RemovedAt(hs, ring[j], ring[i]);
    assert hs[ring[i]].next == ring[After(i, |ring|)] && hs[ring[i]].prev == ring[Before(i, |ring|)];
    LinksPast(ring, j, k);
  }

  lemma WithoutAt(ring: seq<nat>, j: nat, k: nat)
    requires j < |ring| && k < |ring| - 1
    ensures Without(ring, j)[k] == ring[Skip(k, j)]
  {
  }

  lemma WithoutDistinct(ring: seq<nat>, j: nat)
    requires Distinct(ring) && j < |ring|
    ensures Distinct(Without(ring, j))
  {
    forall a, b | 0 <= a < b < |ring| - 1
      ensures Without(ring, j)[a] != Without(ring, j)[b]
    {
      WithoutAt(ring, j, a);
      WithoutAt(ring, j, b);
    }
  }

  /** The ring, as it is shown of each place. */
  lemma RingByPlace(hs: seq<Block>, ring: seq<nat>)
    requires |ring| >= 1 && Distinct(ring)
    requires forall k {:trigger ring[k]} :: 0 <= k < |ring| ==>
      && ring[k] < |hs| && hs[ring[k]].magic == HEAP_MAGIC
      && hs[ring[k]].next == ring[After(k, |ring|)] && hs[ring[k]].prev == ring[Before(k, |ring|)]
    ensures Ring(hs, ring)
  {
  }

  lemma RemovedPlace(hs: seq<Block>, ring: seq<nat>, j: nat, k: nat)
    requires Ring(hs, ring) && 1 <= j < |ring| && k < |ring| - 1
    ensures hs[ring[j]].prev < |hs| && hs[ring[j]].next < |hs|
    ensures var hs', ring' := Removed(hs, ring[j]), Without(ring, j);
      && ring'[k] < |hs'| && hs'[ring'[k]].magic == HEAP_MAGIC
      && hs'[ring'[k]].next == ring'[After(k, |ring'|)] && hs'[ring'[k]].prev == ring'[Before(k, |ring'|)]
  {
    WithoutAt(ring, j, k);
    WithoutAt(ring, j, After(k, |ring| - 1));
    WithoutAt(ring, j, Before(k, |ring| - 1));
    RemovedLinks(hs, ring, j, k);
  }

  lemma RemovedRing(hs: seq<Block>, ring: seq<nat>, j: nat)
    requires Ring(hs, ring) && 1 <= j < |ring|
    ensures hs[ring[j]].prev < |hs| && hs[ring[j]].next < |hs| && Ring(Removed(hs, ring[j]), Without(ring, j))
  {
    RemovedPlace(hs, ring, j, 0);
    var hs', ring' := Removed(hs, ring[j]), Without(ring, j);
    WithoutDistinct(ring, j);
    forall k | 0 <= k < |ring'|
      ensures ring'[k] < |hs'| && hs'[ring'[k]].magic == HEAP_MAGIC
      ensures hs'[ring'[k]].next == ring'[After(k, |ring'|)] && hs'[ring'[k]].prev == ring'[Before(k, |ring'|)]
    {
      RemovedPlace(hs, ring, j, k);
    }
    RingByPlace(hs', ring');
  }

  // ---- Page accounts ----

  datatype Span = Span(first: nat, pages: nat) {
    predicate Has(k: nat) { first <= k < first + pages }
  }

  /** Page k belongs to one of the spans. */
  predicate Owned(spans: seq<Span>, k: nat) {
    exists i :: 0 <= i < |spans| && spans[i].Has(k)
  }

  /** Spans below `count`, off page 0 and pairwise disjoint; the used pages are exactly theirs and, apart from
      those, the ones of `base`. */
  ghost predicate Account(spans: seq<Span>, used: seq<bool>, base: seq<bool>, count: nat) {
    && |used| == |base|
    && (forall i :: 0 <= i < |spans| ==> 0 < spans[i].first && 0 < spans[i].pages && spans[i].first + spans[i].pages <= count)
    && (forall i, j :: 0 <= i < j < |spans| ==>
         spans[i].first + spans[i].pages <= spans[j].first || spans[j].first + spans[j].pages <= spans[i].first)
    && (forall k :: 0 <= k < |used| ==> (used[k] <==> base[k] || Owned(spans, k)))
    && (forall k :: 0 <= k < |used| && base[k] ==> !Owned(spans, k))
  }

  lemma OwnedMore(spans: seq<Span>, s: Span, k: nat)
    ensures Owned(spans + [s], k) <==> Owned(spans, k) || s.Has(k)
  {
    if Owned(spans, k) {
      var i :| 0 <= i < |spans| && spans[i].Has(k);
      assert (spans + [s])[i].Has(k);
    }
    if s.Has(k) {
      assert (spans + [s])[|spans|].Has(k);
    }
  }

  /** A run of free pages becomes a span of its own. */
  lemma AccountOpened(spans: seq<Span>, used: seq<bool>, base: seq<bool>, count: nat, s: Span)
    requires Account(spans, used, base, count) && FreeRun(used, s.first, s.pages)
    requires 0 < s.first && 0 < s.pages && s.first + s.pages <= count
    ensures Account(spans + [s], Painted(used, s.first, s.pages, true), base, count)
  {
    forall k | 0 <= k < |used|
      ensures Owned(spans + [s], k) <==> Owned(spans, k) || s.Has(k)
    {
      OwnedMore(spans, s, k);
    }
    forall i | 0 <= i < |spans|
      ensures spans[i].first + spans[i].pages <= s.first || s.first + s.pages <= spans[i].first
    {
      if spans[i].first < s.first + s.pages && s.first < spans[i].first + spans[i].pages {
        var k := if spans[i].first < s.first then s.first else spans[i].first;
        assert !used[k];
        assert spans[i].Has(k);
      }
    }
  }

  function Dropped(spans: seq<Span>, j: nat): seq<Span>
    requires j < |spans|
  {
    spans[..j] + spans[j + 1..]
  }

  lemma OwnedLess(spans: seq<Span>, j: nat, k: nat)
    requires j < |spans|
    ensures Owned(spans, k) <==> Owned(Dropped(spans, j), k) || spans[j].Has(k)
  {
    var rest := Dropped(spans, j);
    if Owned(spans, k) {
      var i :| 0 <= i < |spans| && spans[i].Has(k);
      assert i < j ==> rest[i].Has(k);
      assert i > j ==> rest[i - 1].Has(k);
    }
    if Owned(rest, k) {
      var i :| 0 <= i < |rest| && rest[i].Has(k);
      assert spans[Skip(i, j)].Has(k);
    }
  }

  /** A span given back. */
  lemma AccountClosed(spans: seq<Span>, used: seq<bool>, base: seq<bool>, count: nat, j: nat)
    requires Account(spans, used, base, count) && j < |spans| && count <= |used|
    ensures Account(Dropped(spans, j), Painted(used, spans[j].first, spans[j].pages, false), base, count)
  {
    var s, rest := spans[j], Dropped(spans, j);
    assert forall i :: 0 <= i < |rest| ==> rest[i] == spans[Skip(i, j)];
    forall k | 0 <= k < |used|
      ensures Owned(spans, k) <==> Owned(rest, k) || s.Has(k)
      ensures !(Owned(rest, k) && s.Has(k))
    {
      OwnedLess(spans, j, k);
      if Owned(rest, k) {
        var i :| 0 <= i < |rest| && rest[i].Has(k);
        assert rest[i] == spans[Skip(i, j)];
      }
    }
  }

  lemma NoSpans(used: seq<bool>, count: nat)
    ensures Account([], used, used, count)
  {
  }

  // ---- The heap ----

  /** The pages of live blocks. */
  function SpansOf(hs: seq<Block>, live: seq<nat>): (spans: seq<Span>)
    ensures |spans| == |live|
    ensures forall i :: 0 <= i < |live| ==> spans[i] == Span(live[i], PagesFor(if live[i] < |hs| then hs[live[i]].size else 0))
  {
    seq(|live|, i requires 0 <= i < |live| => Span(live[i], PagesFor(if live[i] < |hs| then hs[live[i]].size else 0)))
  }

  /** The pages of a heap: its own, that of the list header, and those of live blocks. */
  function HeapSpans(hs: seq<Block>, self: nat, head: nat, live: seq<nat>): seq<Span> {
    [Span(self, 1), Span(head, 1)] + SpansOf(hs, live)
  }

  lemma SpansInserted(hs: seq<Block>, live: seq<nat>, head: nat, b: nat, n: nat)
    requires head < |hs| && b < |hs| && hs[head].prev < |hs| && b != head && b !in live
    ensures SpansOf(Inserted(hs, head, b, n), live + [b]) == SpansOf(hs, live) + [Span(b, PagesFor(n))]
  {
    var hs' := Inserted(hs, head, b, n);
    InsertedSizes(hs, head, b, n, b);
    forall i | 0 <= i < |live|
      ensures SpansOf(hs', live + [b])[i] == SpansOf(hs, live)[i]
    {
      if live[i] < |hs| {
        InsertedSizes(hs, head, b, n, live[i]);
      }
    }
  }

  lemma SpansRemoved(hs: seq<Block>, live: seq<nat>, j: nat, b: nat)
    requires j < |live| && b < |hs| && hs[b].prev < |hs| && hs[b].next < |hs|
    ensures SpansOf(Removed(hs, b), Without(live, j)) == Dropped(SpansOf(hs, live), j)
  {
    var hs' := Removed(hs, b);
    forall i | 0 <= i < |live| - 1
      ensures SpansOf(hs', Without(live, j))[i] == Dropped(SpansOf(hs, live), j)[i]
    {
      if live[Skip(i, j)] < |hs| {
        RemovedAt(hs, b, live[Skip(i, j)]);
      }
    }
  }

  /** The list and the page accounts of a heap. */
  ghost predicate Consistent(hs: seq<Block>, self: nat, head: nat, live: seq<nat>, used: seq<bool>, base: seq<bool>, count: nat) {
    Ring(hs, [head] + live) && Account(HeapSpans(hs, self, head, live), used, base, count)
  }

  /** A free page holds no header of the list. */
  lemma FreeIsFresh(hs: seq<Block>, self: nat, head: nat, live: seq<nat>, used: seq<bool>, base: seq<bool>, count: nat, b: nat)
    requires Consistent(hs, self, head, live, used, base, count) && b < |used| && !used[b]
    ensures b != head && b !in live
  {
    var spans := HeapSpans(hs, self, head, live);
    assert !Owned(spans, b);
    assert !spans[1].Has(b);
    forall i | 0 <= i < |live|
      ensures live[i] != b
    {
      assert !spans[i + 2].Has(b);
    }
  }

  /** heap_alloc keeps the heap consistent. */
  lemma Opens(hs: seq<Block>, self: nat, head: nat, live: seq<nat>, used: seq<bool>, base: seq<bool>, count: nat, b: nat, n: nat)
    requires Consistent(hs, self, head, live, used, base, count) && b < |hs|
    requires FreeRun(used, b, PagesFor(n)) && 0 < b && b + PagesFor(n) <= count
    ensures head < |hs| && hs[head].prev < |hs| && b != head && b !in live
    ensures Consistent(Inserted(hs, head, b, n), self, head, live + [b], Painted(used, b, PagesFor(n), true), base, count)
  {
    var ring := [head] + live;
    FreeIsFresh(hs, self, head, live, used, base, count, b);
    InsertedRing(hs, ring, b, n);
    assert ring + [b] == [head] + (live + [b]);
    SpansInserted(hs, live, head, b, n);
    AccountOpened(HeapSpans(hs, self, head, live), used, base, count, Span(b, PagesFor(n)));
    assert HeapSpans(hs, self, head, live) + [Span(b, PagesFor(n))]
        == HeapSpans(Inserted(hs, head, b, n), self, head, live + [b]);
  }

  lemma ClosesRing(hs: seq<Block>, ring: seq<nat>, j: nat, b: nat, rest: seq<nat>)
    requires Ring(hs, ring) && 1 <= j < |ring| && b == ring[j] && rest == Without(ring, j)
    ensures b < |hs| && hs[b].prev < |hs| && hs[b].next < |hs| && Ring(Removed(hs, b), rest)
  {
    RemovedRing(hs, ring, j);
  }

  lemma WithoutHead(head: nat, live: seq<nat>, j: nat)
    requires j < |live|
    ensures ([head] + live)[j + 1] == live[j] && [head] + Without(live, j) == Without([head] + live, j + 1)
  {
  }

  lemma ClosesAccount(hs: seq<Block>, self: nat, head: nat, live: seq<nat>, used: seq<bool>, base: seq<bool>, count: nat, j: nat)
    requires Account(HeapSpans(hs, self, head, live), used, base, count) && j < |live| && count <= |used|
    requires var b := live[j]; b < |hs| && hs[b].prev < |hs| && hs[b].next < |hs|
    ensures var b := live[j];
      && b + PagesFor(hs[b].size) <= count
      && Account(HeapSpans(Removed(hs, b), self, head, Without(live, j)), Painted(used, b, PagesFor(hs[b].size), false), base, count)
  {
    var spans := HeapSpans(hs, self, head, live);
    assert spans[j + 2] == Span(live[j], PagesFor(hs[live[j]].size));
    SpansRemoved(hs, live, j, live[j]);
    AccountClosed(spans, used, base, count, j + 2);
    assert Dropped(spans, j + 2) == HeapSpans(Removed(hs, live[j]), self, head, Without(live, j));
  }

  /** heap_free keeps the heap consistent. */
  lemma Closes(hs: seq<Block>, self: nat, head: nat, live: seq<nat>, used: seq<bool>, base: seq<bool>, count: nat, j: nat)
    requires Consistent(hs, self, head, live, used, base, count) && j < |live| && count <= |used|
    ensures var b := live[j];
      && b < |hs| && hs[b].prev < |hs| && hs[b].next < |hs| && b + PagesFor(hs[b].size) <= count
      && Consistent(Removed(hs, b), self, head, Without(live, j), Painted(used, b, PagesFor(hs[b].size), false), base, count)
  {
    WithoutHead(head, live, j);
    ClosesRing(hs, [head] + live, j + 1, live[j], [head] + Without(live, j));
    ClosesAccount(hs, self, head, live, used, base, count, j);
  }

  /** pmm_alloc where a run of that many free pages exists. */
  method NewPages(pmm: Pmm, n: nat, ghost spans: seq<Span>, ghost base: seq<bool>) returns (page: nat)
    requires pmm.Valid() && pmm.Used()[0] && n >= 1 && Fits(pmm.Used(), n, pmm.pageCount)
    requires Account(spans, pmm.Used(), base, pmm.pageCount)
    modifies pmm, pmm.bitmap
    ensures pmm.Valid() && pmm.Used()[0] && 0 < page && page + n <= pmm.pageCount
    ensures FreeRun(old(pmm.Used()), page, n) && pmm.Used() == Painted(old(pmm.Used()), page, n, true)
    ensures Account(spans + [Span(page, n)], pmm.Used(), base, pmm.pageCount)
  {
    ghost var used := pmm.Used();
    var physical := pmm.Alloc(n);
    page := physical / PAGE_SIZE;
    ReservedPageZero(used, old(pmm.lastPage), n, pmm.pageCount);
    AccountOpened(spans, used, base, pmm.pageCount, Span(page, n));
  }

  lemma FreePageFits(used: seq<bool>, count: nat)
    requires count <= |used| && FreePages(used, count) > 0
    ensures Fits(used, 1, count)
  {
    var p :| 0 <= p < count && !used[p];
    assert FreeRun(used, p, 1);
  }

  /** The two pages of a new heap. */
  method HeapPages(pmm: Pmm) returns (h: nat, head: nat)
    requires pmm.Valid() && pmm.Used()[0] && FreePages(pmm.Used(), pmm.pageCount) >= 2
    modifies pmm, pmm.bitmap
    ensures pmm.Valid() && pmm.Used()[0] && head < pmm.pageCount
    ensures Account([Span(h, 1)] + [Span(head, 1)], pmm.Used(), old(pmm.Used()), pmm.pageCount)
  {
    ghost var used := pmm.Used();
    FreePageFits(used, pmm.pageCount);
    NoSpans(used, pmm.pageCount);
    h := NewPages(pmm, 1, [], used);
    assert [] + [Span(h, 1)] == [Span(h, 1)];
    OnePageTaken(used, h, pmm.pageCount);
    FreePageFits(pmm.Used(), pmm.pageCount);
    head := NewPages(pmm, 1, [Span(h, 1)], used);
  }

  /** A header leaves the list. */
  method Unlink(headers: array<Block>, block: nat)
    requires block < headers.Length && headers[block].prev < headers.Length && headers[block].next < headers.Length
    modifies headers
    ensures headers[..] == old(Removed(headers[..], block))
  {
    headers[headers[block].prev] := headers[headers[block].prev].(next := headers[block].next);
    headers[headers[block].next] := headers[headers[block].next].(prev := headers[block].prev);
  }

  lemma RemovedSizes(hs: seq<Block>, b: nat)
    requires b < |hs| && hs[b].prev < |hs| && hs[b].next < |hs|
    ensures forall p :: 0 <= p < |hs| ==> Removed(hs, b)[p].size == hs[p].size
  {
  }

  /** The header of an empty list. */
  method EmptyList(headers: array<Block>, head: nat)
    requires head < headers.Length
    modifies headers
    ensures headers[head] == Block(head, head, true, HEAP_MAGIC, 0)
  {
    headers[head] := headers[head].(magic := HEAP_MAGIC);
    headers[head] := headers[head].(next := head, prev := head);
    headers[head] := headers[head].(size := 0);
    headers[head] := headers[head].(used := true);
  }

  class Heap {
    const pmm: Pmm
    const headers: array<Block>
    const data: array<bv8>
    const self: nat
    const blockHead: nat
    /** The live blocks in the order of the list, and the page bitmap from before the heap. */
    ghost var live: seq<nat>
    ghost const base: seq<bool>

    ghost predicate Valid()
      reads this, pmm, pmm.bitmap, headers
    {
      && pmm.Valid() && pmm.Used()[0]
      && pmm.pageCount <= headers.Length && pmm.pageCount * PAGE_SIZE <= data.Length
      && headers as object != pmm.bitmap as object && data as object != pmm.bitmap as object
      && headers as object != data as object
      && Consistent(headers[..], self, blockHead, live, pmm.Used(), base, pmm.pageCount)
    }

    /** heap_create, with two free pages at hand. */
    constructor (pmm: Pmm, headers: array<Block>, data: array<bv8>)
      requires pmm.Valid() && pmm.Used()[0] && FreePages(pmm.Used(), pmm.pageCount) >= 2
      requires pmm.pageCount <= headers.Length && pmm.pageCount * PAGE_SIZE <= data.Length
      requires headers as object != pmm.bitmap as object && data as object != pmm.bitmap as object
      requires headers as object != data as object
      modifies pmm, pmm.bitmap, headers
      ensures this.pmm == pmm && this.headers == headers && this.data == data
      ensures Valid() && live == [] && base == old(pmm.Used())
    {
      ghost var used := pmm.Used();
      var h, head := HeapPages(pmm);
      EmptyList(headers, head);
      EmptyConsistent(headers[..], h, head, pmm.Used(), used, pmm.pageCount);
      this.pmm, this.headers, this.data, self, blockHead := pmm, headers, data, h, head;
      live, base := [], used;
    }

    /** heap_alloc where the pages can be had: a new live block at the end of the list, on pages that were free. */
    method Alloc(n: nat) returns (ptr: nat, ghost block: nat)
      requires Valid() && Fits(pmm.Used(), PagesFor(n), pmm.pageCount)
      modifies pmm, pmm.bitmap, headers, `live
      ensures Valid() && ptr == Payload(block) && live == old(live) + [block]
      ensures block + PagesFor(n) <= pmm.pageCount && FreeRun(old(pmm.Used()), block, PagesFor(n))
      ensures pmm.Used() == Painted(old(pmm.Used()), block, PagesFor(n), true)
      ensures block < headers.Length && headers[block].size == n && block !in old(live)
      ensures forall p :: 0 <= p < headers.Length && p != block ==> headers[p].size == old(headers[p].size)
    {
      ghost var hs, used := headers[..], pmm.Used();
      var page := NewPages(pmm, PagesFor(n), HeapSpans(hs, self, blockHead, live), base);
      Opens(hs, self, blockHead, live, used, base, pmm.pageCount, page, n);
      InsertHeader(page, n);
      live := live + [page];
      return Payload(page), page;
    }

    /** The new header and its links. */
    method InsertHeader(block: nat, n: nat)
      requires block < headers.Length && blockHead < headers.Length && block != blockHead
      requires headers[blockHead].prev < headers.Length
      modifies headers
      ensures headers[..] == Inserted(old(headers[..]), blockHead, block, n)
    {
      headers[block] := headers[block].(magic := HEAP_MAGIC);
      headers[block] := headers[block].(size := n);
      headers[block] := headers[block].(used := true);
      headers[block] := headers[block].(prev := headers[blockHead].prev);
      headers[block] := headers[block].(next := blockHead);
      headers[headers[blockHead].prev] := headers[headers[blockHead].prev].(next := block);
      headers[blockHead] := headers[blockHead].(prev := block);
    }

    /** heap_free of a pointer to a live block, or to something that does not look like a block. */
    method Free(ptr: nat) returns (ghost j: nat)
      requires Valid() && ptr >= HEADER_SIZE && ptr == Payload(PageOf(ptr)) && PageOf(ptr) < headers.Length
      requires headers[PageOf(ptr)].magic == HEAP_MAGIC ==> PageOf(ptr) in live
      modifies pmm.bitmap, headers, `live
      ensures Valid()
      ensures old(headers[PageOf(ptr)].magic) != HEAP_MAGIC ==>
        pmm.Used() == old(pmm.Used()) && headers[..] == old(headers[..]) && live == old(live)
      ensures old(headers[PageOf(ptr)].magic) == HEAP_MAGIC ==>
        && j < |old(live)| && old(live)[j] == PageOf(ptr) && live == Without(old(live), j)
        && (forall p :: 0 <= p < headers.Length ==> headers[p].size == old(headers[p].size))
        && PageOf(ptr) + PagesFor(old(headers[PageOf(ptr)].size)) <= pmm.pageCount
        && pmm.Used() == Painted(old(pmm.Used()), PageOf(ptr), PagesFor(old(headers[PageOf(ptr)].size)), false)
    {
      var block := (ptr - HEADER_SIZE) / PAGE_SIZE;
      if headers[block].magic != HEAP_MAGIC {
        j := 0;
        return;
      }
      j :| 0 <= j < |live| && live[j] == block;
      ghost var hs := headers[..];
      FreeBlock(block, j);
      RemovedSizes(hs, block);
      assert forall p :: 0 <= p < headers.Length ==> headers[..][p].size == hs[p].size;
    }

    /** The part of heap_free that a live block comes to. */
    method FreeBlock(block: nat, ghost j: nat)
      requires Valid() && j < |live| && live[j] == block < headers.Length
      modifies pmm.bitmap, headers, `live
      ensures Valid() && live == Without(old(live), j)
      ensures old(headers[block].prev) < headers.Length && old(headers[block].next) < headers.Length
      ensures headers[..] == old(Removed(headers[..], block))
      ensures block + PagesFor(old(headers[block].size)) <= pmm.pageCount
      ensures pmm.Used() == Painted(old(pmm.Used()), block, PagesFor(old(headers[block].size)), false)
    {
      ghost var hs := headers[..];
      Closes(hs, self, blockHead, live, pmm.Used(), base, pmm.pageCount, j);
      Unlink(headers, block);
      RemovedAt(hs, block, block);
      var pages := PagesFor(headers[block].size);
      pmm.Free(block * PAGE_SIZE, pages);
      live := Without(live, j);
    }

    /** heap_realloc to a block of at least as many pages: the old block is replaced by a new one of the asked size,
        which begins with the old bytes; no byte outside the new block changes. */
    method Realloc(ptr: nat, n: nat) returns (newPtr: nat, ghost j: nat, ghost block: nat)
      requires Valid() && ptr >= HEADER_SIZE && ptr == Payload(PageOf(ptr)) && PageOf(ptr) < headers.Length
      requires headers[PageOf(ptr)].magic == HEAP_MAGIC ==> PageOf(ptr) in live && CanGrow(PageOf(ptr), n)
      modifies pmm, pmm.bitmap, headers, data, `live
      ensures Valid()
      ensures old(headers[PageOf(ptr)].magic) != HEAP_MAGIC ==>
        && newPtr == 0 && pmm.Used() == old(pmm.Used()) && headers[..] == old(headers[..])
        && data[..] == old(data[..]) && live == old(live)
      ensures old(headers[PageOf(ptr)].magic) == HEAP_MAGIC ==>
        && j < |old(live)| && old(live)[j] == PageOf(ptr) && newPtr == Payload(block) && block !in old(live)
        && live == Without(old(live), j) + [block] && block < headers.Length && headers[block].size == n
        && Moved(old(data[..]), data[..], newPtr, ptr, old(headers[PageOf(ptr)].size), (block + PagesFor(n)) * PAGE_SIZE)
    {
      var page := (ptr - HEADER_SIZE) / PAGE_SIZE;
      if headers[page].magic != HEAP_MAGIC {
        newPtr, j, block := 0, 0, 0;
        return;
      }
      newPtr, j, block := Move(ptr, n);
    }

    /** The pages for n bytes can be had, and are no fewer than those of a block. */
    ghost predicate CanGrow(page: nat, n: nat)
      requires page < headers.Length && pmm.Valid()
      reads this, pmm, pmm.bitmap, headers
    {
      PagesFor(headers[page].size) <= PagesFor(n) && Fits(pmm.Used(), PagesFor(n), pmm.pageCount)
    }

    /** The part of heap_realloc behind the check. */
    method Move(ptr: nat, n: nat) returns (newPtr: nat, ghost j: nat, ghost block: nat)
      requires Valid() && ptr >= HEADER_SIZE && ptr == Payload(PageOf(ptr)) && PageOf(ptr) < headers.Length
      requires PageOf(ptr) in live && CanGrow(PageOf(ptr), n) && headers[PageOf(ptr)].magic == HEAP_MAGIC
      modifies pmm, pmm.bitmap, headers, data, `live
      ensures Valid()
      ensures j < |old(live)| && old(live)[j] == PageOf(ptr) && newPtr == Payload(block) && block !in old(live)
      ensures live == Without(old(live), j) + [block] && block < headers.Length && headers[block].size == n
      ensures Moved(old(data[..]), data[..], newPtr, ptr, old(headers[PageOf(ptr)].size), (block + PagesFor(n)) * PAGE_SIZE)
    {
      var size := headers[PageOf(ptr)].size;
      LiveIsUsed(PageOf(ptr));
      newPtr, block := Alloc(n);
      CopyStaysInside(block, size, n);
      RunsApart(old(pmm.Used()), PageOf(ptr), PagesFor(size), block, PagesFor(n));
      Copy(newPtr, ptr, size);
      MovedWithin(old(data[..]), data[..], newPtr, ptr, size, (block + PagesFor(n)) * PAGE_SIZE);
      LiveIsUsed(PageOf(ptr));
      j := Free(ptr);
      WithoutBefore(old(live), block, j, PageOf(ptr));
    }

    /** memcpy between ranges that do not overlap. */
    method Copy(to: nat, from: nat, n: nat)
      requires to + n <= data.Length && from + n <= data.Length && (to + n <= from || from + n <= to)
      modifies data
      ensures Moved(old(data[..]), data[..], to, from, n, to + n)
    {
      for i := 0 to n
        invariant forall k {:trigger data[k]} :: 0 <= k < data.Length ==>
          data[k] == if to <= k < to + i then old(data[..])[k - to + from] else old(data[..])[k]
      {
        data[to + i] := data[from + i];
      }
    }

    /** The pages of a live block are in memory and used. */
    lemma LiveIsUsed(page: nat)
      requires Valid() && page in live
      ensures page < headers.Length && page + PagesFor(headers[page].size) <= pmm.pageCount
      ensures UsedRun(pmm.Used(), page, PagesFor(headers[page].size)) && headers[page].magic == HEAP_MAGIC
    {
      var j :| 0 <= j < |live| && live[j] == page;
      SpanIsUsed(headers[..], self, blockHead, live, pmm.Used(), base, pmm.pageCount, j);
    }

    /** Over any run of calls: live blocks lie on used pages of their own. */
    lemma LiveBlocksApart(i: nat, j: nat)
      requires Valid() && i < j < |live|
      ensures live[i] < headers.Length && live[j] < headers.Length
      ensures live[i] + PagesFor(headers[live[i]].size) <= live[j] || live[j] + PagesFor(headers[live[j]].size) <= live[i]
    {
      LiveIsUsed(live[i]);
      LiveIsUsed(live[j]);
      var spans := HeapSpans(headers[..], self, blockHead, live);
      assert spans[i + 2].first == live[i] && spans[j + 2].first == live[j];
    }

    /** The list leads from its header through every live block once, forwards and backwards, and back. */
    lemma ListVisitsLive(k: nat)
      requires Valid() && k <= |live|
      ensures Follow(headers[..], blockHead, k + 1) == if k == |live| then blockHead else live[k]
      ensures FollowBack(headers[..], blockHead, k + 1) == if k == |live| then blockHead else live[|live| - 1 - k]
    {
      VisitsLive(headers[..], blockHead, live, k);
    }

    /** When every block has been freed, the heap holds its own two pages and no others. */
    lemma AllFreed()
      requires Valid() && live == []
      ensures self < |base| && blockHead < |base| && pmm.Used() == base[self := true][blockHead := true]
    {
      var spans := HeapSpans(headers[..], self, blockHead, live);
      assert spans == [Span(self, 1), Span(blockHead, 1)];
      assert spans[0].first == self && spans[1].first == blockHead;
      TwoPages(self, blockHead, pmm.Used(), base, pmm.pageCount);
    }
  }

  lemma TwoPages(a: nat, b: nat, used: seq<bool>, base: seq<bool>, count: nat)
    requires Account([Span(a, 1), Span(b, 1)], used, base, count) && count <= |used|
    ensures a < |base| && b < |base| && used == base[a := true][b := true]
  {
    var spans := [Span(a, 1), Span(b, 1)];
    assert spans[0].first == a && spans[1].first == b;
    forall k | 0 <= k < |used|
      ensures used[k] == base[a := true][b := true][k]
    {
      assert spans[0].Has(k) <==> k == a;
      assert spans[1].Has(k) <==> k == b;
    }
  }

  lemma OwnedIsUsed(spans: seq<Span>, used: seq<bool>, base: seq<bool>, count: nat, i: nat)
    requires Account(spans, used, base, count) && i < |spans| && count <= |used|
    ensures spans[i].first + spans[i].pages <= count && UsedRun(used, spans[i].first, spans[i].pages)
  {
    forall k | spans[i].first <= k < spans[i].first + spans[i].pages
      ensures used[k]
    {
      assert spans[i].Has(k);
    }
  }

  lemma LiveOnRing(hs: seq<Block>, head: nat, live: seq<nat>, j: nat)
    requires Ring(hs, [head] + live) && j < |live|
    ensures live[j] < |hs| && hs[live[j]].magic == HEAP_MAGIC
  {
    var ring := [head] + live;
    assert ring[j + 1] == live[j] && hs[ring[j + 1]].magic == HEAP_MAGIC;
  }

  lemma SpanIsUsed(hs: seq<Block>, self: nat, head: nat, live: seq<nat>, used: seq<bool>, base: seq<bool>, count: nat, j: nat)
    requires Consistent(hs, self, head, live, used, base, count) && j < |live| && count <= |used|
    ensures live[j] < |hs| && live[j] + PagesFor(hs[live[j]].size) <= count
    ensures UsedRun(used, live[j], PagesFor(hs[live[j]].size)) && hs[live[j]].magic == HEAP_MAGIC
  {
    LiveOnRing(hs, head, live, j);
    SpanOfLive(hs, self, head, live, j);
    OwnedIsUsed(HeapSpans(hs, self, head, live), used, base, count, j + 2);
  }

  lemma SpanOfLive(hs: seq<Block>, self: nat, head: nat, live: seq<nat>, j: nat)
    requires j < |live| && live[j] < |hs|
    ensures HeapSpans(hs, self, head, live)[j + 2] == Span(live[j], PagesFor(hs[live[j]].size))
  {
  }

  lemma WithoutBefore(live: seq<nat>, block: nat, j: nat, page: nat)
    requires page in live && block !in live && j <= |live| && (live + [block])[j] == page
    ensures j < |live| && live[j] == page && Without(live + [block], j) == Without(live, j) + [block]
  {
  }

  /** Used pages and free pages are different pages. */
  lemma RunsApart(used: seq<bool>, a: nat, n: nat, b: nat, m: nat)
    requires UsedRun(used, a, n) && FreeRun(used, b, m) && n >= 1 && m >= 1
    ensures a + n <= b || b + m <= a
  {
    var k := if a <= b then b else a;
    assert a <= k < a + n ==> used[k];
    assert b <= k < b + m ==> !used[k];
  }

  /** Bytes to, to + 1, ... are now the n bytes that were at `from`; bytes outside to .. end are as they were. */
  ghost predicate Moved(before: seq<bv8>, after: seq<bv8>, to: nat, from: nat, n: nat, end: nat) {
    && |after| == |before| && to + n <= end <= |before| && from + n <= |before|
    && after[to..to + n] == before[from..from + n]
    && after[..to] == before[..to] && after[end..] == before[end..]
  }

  lemma MovedWithin(before: seq<bv8>, after: seq<bv8>, to: nat, from: nat, n: nat, end: nat)
    requires Moved(before, after, to, from, n, to + n) && to + n <= end <= |before|
    ensures Moved(before, after, to, from, n, end)
  {
    assert after[end..] == after[to + n..][end - to - n..];
    assert before[end..] == before[to + n..][end - to - n..];
  }

  /** The copy of heap_realloc stays inside the new block if and only if that has at least as many pages. */
  lemma CopyStaysInside(block: nat, size: nat, n: nat)
    ensures Payload(block) + size <= (block + PagesFor(n)) * PAGE_SIZE <==> PagesFor(size) <= PagesFor(n)
  {
  }

  /** Shrinking a block of 5000 bytes to one: the copy runs into the page behind the new block. */
  lemma ShrinkingOverruns()
    ensures PagesFor(1) == 1 && forall block: nat :: Payload(block) + 5000 > (block + PagesFor(1)) * PAGE_SIZE
  {
  }

  lemma EmptyConsistent(hs: seq<Block>, self: nat, head: nat, used: seq<bool>, base: seq<bool>, count: nat)
    requires head < |hs| && hs[head].magic == HEAP_MAGIC && hs[head].next == head && hs[head].prev == head
    requires Account([Span(self, 1)] + [Span(head, 1)], used, base, count)
    ensures Consistent(hs, self, head, [], used, base, count)
  {
    assert [head] + [] == [head];
    assert HeapSpans(hs, self, head, []) == [Span(self, 1)] + [Span(head, 1)];
  }
}
