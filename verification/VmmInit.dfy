/**
 The kernel's address space as vmm_init builds it: the sections of the kernel image at their virtual addresses, and
 the first 4 GiB of physical memory both directly and in the higher half.
 */
module KernelMaps {
  import opened Arithmetic
  import opened Bits
  import opened Bitmaps
  import opened Pages
  import opened PageTables
  import opened Pmms

  const FOUR_GIB := 0x1_0000_0000
  const FOUR_GIB_PAGES := 0x10_0000

  // ---- Ranges of pages ----

  /** t with `count` pages from `first` on mapped, page p to the entry f(p). */
  function Mapped(t: seq<nat>, first: nat, count: nat, f: nat -> nat): (r: seq<nat>)
    requires |t| == TWO_36
    ensures |r| == TWO_36
  {
    if count == 0 then t
    else Mapped(t, first, count - 1, f)[(first + count - 1) % TWO_36 := f(first + count - 1)]
  }

  /** How far page v lies behind `first`, in 36 bits. */
  function Offset(v: nat, first: nat): (d: nat)
    ensures d < TWO_36
  {
    (v - first) % TWO_36
  }

  predicate InRange(v: nat, first: nat, count: nat) {
    Offset(v, first) < count
  }

  lemma OffsetIs(v: nat, first: nat, d: nat)
    requires v < TWO_36 && d < TWO_36
    ensures (first + d) % TWO_36 == v <==> Offset(v, first) == d
  {
  }

  /** A range of at most 2^36 pages maps each of its pages, and no other. */
  lemma {:induction false} MappedAt(t: seq<nat>, first: nat, count: nat, f: nat -> nat, v: nat)
    requires |t| == TWO_36 && count <= TWO_36 && v < TWO_36
    ensures Mapped(t, first, count, f)[v] == if InRange(v, first, count) then f(first + Offset(v, first)) else t[v]
    decreases count
  {
    if count > 0 {
      MappedAt(t, first, count - 1, f, v);
      OffsetIs(v, first, count - 1);
    }
  }

  // ---- Entries ----

  /** The entry of a page of the kernel image. */
  function ImageEntry(virtBase: nat, physBase: nat, flags: nat): nat -> nat {
    (page: nat) => BitOr((page * PAGE_SIZE - virtBase + physBase) % TWO_64, flags)
  }

  /** The entry of a page of physical memory. */
  function MemoryEntry(page: nat): nat {
    BitOr(page * PAGE_SIZE, PTE_PRESENT + PTE_WRITABLE)
  }

  /** t with the first pages of memory mapped twice: at their own numbers, and from page h on. */
  function MappedTwice(t: seq<nat>, h: nat, count: nat): (r: seq<nat>)
    requires |t| == TWO_36 && count <= TWO_36
    ensures |r| == TWO_36
  {
    if count == 0 then t
    else MappedTwice(t, h, count - 1)[count - 1 := MemoryEntry(count - 1)][(h + count - 1) % TWO_36 := MemoryEntry(count - 1)]
  }

  /** The first `limit` pages and those from page h on do not overlap. */
  ghost predicate Apart(h: nat, limit: nat) {
    forall v {:trigger Offset(v, h)} :: 0 <= v < limit ==> Offset(v, h) >= limit
  }

  lemma {:induction false} MappedTwiceAt(t: seq<nat>, h: nat, count: nat, limit: nat, v: nat)
    requires |t| == TWO_36 && count <= limit <= TWO_36 && v < TWO_36 && Apart(h, limit)
    ensures MappedTwice(t, h, count)[v]
         == if v < count then MemoryEntry(v) else if InRange(v, h, count) then MemoryEntry(Offset(v, h)) else t[v]
    decreases count
  {
    if count > 0 {
      MappedTwiceAt(t, h, count - 1, limit, v);
      OffsetIs(v, h, count - 1);
    }
  }

  // ---- The kernel ----

  datatype Section = Section(start: nat, end: nat, flags: nat) {
    /** The pages of a section, its ends rounded outwards. */
    function First(): nat { start / PAGE_SIZE }

    function Count(): nat {
      if DivCeiling(end, PAGE_SIZE) < First() then 0 else DivCeiling(end, PAGE_SIZE) - First()
    }

    predicate Has(v: nat) { InRange(v, First(), Count()) }

    predicate Valid() { end + PAGE_SIZE <= TWO_64 && Count() <= TWO_36 }
  }

  /** What the linker script and the boot loader decide. */
  datatype Kernel = Kernel(text: Section, rodata: Section, data: Section, virtBase: nat, physBase: nat, hhdm: nat) {
    /** The offset of the higher half is a number of pages, and the two windows of 4 GiB do not overlap. */
    ghost predicate Valid() {
      && text.Valid() && rodata.Valid() && data.Valid()
      && text.flags == PTE_PRESENT && rodata.flags == PTE_PRESENT + PTE_NX
      && data.flags == PTE_PRESENT + PTE_WRITABLE + PTE_NX
      && hhdm % PAGE_SIZE == 0 && hhdm + FOUR_GIB <= TWO_64
      && Apart(Higher(), FOUR_GIB_PAGES)
    }

    function Higher(): nat { hhdm / PAGE_SIZE }

    function Image(s: Section, v: nat): nat {
      ImageEntry(virtBase, physBase, s.flags)(s.First() + Offset(v, s.First()))
    }

    predicate Maps(v: nat) {
      v < FOUR_GIB_PAGES || InRange(v, Higher(), FOUR_GIB_PAGES) || data.Has(v) || rodata.Has(v) || text.Has(v)
    }

    /** The entry a page ends up with: what is mapped later wins. */
    function Entry(v: nat): nat {
      if v < FOUR_GIB_PAGES then MemoryEntry(v)
      else if InRange(v, Higher(), FOUR_GIB_PAGES) then MemoryEntry(Offset(v, Higher()))
      else if data.Has(v) then Image(data, v)
      else if rodata.Has(v) then Image(rodata, v)
      else if text.Has(v) then Image(text, v)
      else 0
    }

    /** The tables that the pages of the kernel need. */
    ghost function Tables(): set<Node> {
      {ROOT} + set v, l | 0 <= v < TWO_36 && 1 <= l <= 3 && Maps(v) :: TableOf(v, l)
    }
  }

  /** Page tables that will stay within a set of tables, with a free frame left for each that does not exist yet. */
  ghost predicate Funded(space: AddressSpace, needed: set<Node>)
    reads space, space.pmm, space.pmm.bitmap, space.mem
  {
    space.Valid() && space.tables.Keys <= needed && |needed| <= space.FreeFrames() + space.made
  }

  predicate Needs(needed: set<Node>, v: nat) {
    TableOf(v, 1) in needed && TableOf(v, 2) in needed && TableOf(v, 3) in needed
  }

  lemma FundedAffords(tables: map<Node, nat>, needed: set<Node>, v: nat)
    requires tables.Keys <= needed && Needs(needed, v)
    ensures |tables| + Lacking(tables, v) <= |needed|
  {
    var a := tables.Keys;
    var b := a + {TableOf(v, 3)};
    var c := b + {TableOf(v, 2)};
    OneMore(a, TableOf(v, 3));
    OneMore(b, TableOf(v, 2));
    OneMore(c, TableOf(v, 1));
    Subset(c + {TableOf(v, 1)}, needed);
  }

  lemma OneMore(a: set<Node>, n: Node)
    ensures |a + {n}| == |a| + (if n in a then 0 else 1)
  {
    if n in a {
      assert a + {n} == a;
    }
  }

  lemma Subset(a: set<Node>, b: set<Node>)
    requires a <= b
    ensures |a| <= |b|
  {
    assert b == a + (b - a);
  }

  /** vmm_map where a frame is known to be left for every table that may be missing. */
  method MapFunded(space: AddressSpace, virt: nat, phys: nat, flags: nat, ghost needed: set<Node>)
    requires Funded(space, needed) && Needs(needed, Vpn(virt))
    modifies space.pmm, space.pmm.bitmap, space.mem, space`tables, space`made
    ensures Funded(space, needed)
    ensures space.Entries() == old(space.Entries())[Vpn(virt) := BitOr(phys, flags)]
  {
    FundedAffords(space.tables, needed, Vpn(virt));
    space.Map(virt, phys, flags);
  }

  /** The address `virt` of the page i pages behind `first`. */
  predicate IsPage(virt: nat, first: nat, i: nat) {
    virt == (first + i) * PAGE_SIZE
  }

  lemma PageReached(virt: nat, first: nat, count: nat, i: nat)
    requires i < count <= TWO_36 && IsPage(virt, first, i)
    ensures Vpn(virt) == (first + i) % TWO_36 && InRange(Vpn(virt), first, count)
    ensures IsPage(virt + PAGE_SIZE, first, i + 1)
  {
    OffsetIs((first + i) % TWO_36, first, i);
  }

  lemma SectionStarts(s: Section)
    ensures IsPage(AlignDown(s.start, PAGE_SIZE), s.First(), 0)
  {
  }

  lemma SectionEnds(s: Section, virt: nat, i: nat)
    requires i <= s.Count() && IsPage(virt, s.First(), i)
    ensures virt < AlignUp(s.end, PAGE_SIZE) <==> i < s.Count()
  {
  }

  /** One turn of the loop over a section. */
  lemma SectionStep(t: seq<nat>, s: Section, virtBase: nat, physBase: nat, virt: nat, i: nat)
    requires |t| == TWO_36 && s.Valid() && i < s.Count() && IsPage(virt, s.First(), i)
    ensures s.Has(Vpn(virt)) && IsPage(virt + PAGE_SIZE, s.First(), i + 1)
    ensures virt + PAGE_SIZE < AlignUp(s.end, PAGE_SIZE) <==> i + 1 < s.Count()
    ensures Mapped(t, s.First(), i + 1, ImageEntry(virtBase, physBase, s.flags))
         == Mapped(t, s.First(), i, ImageEntry(virtBase, physBase, s.flags))
            [Vpn(virt) := BitOr((virt - virtBase + physBase) % TWO_64, s.flags)]
  {
    PageReached(virt, s.First(), s.Count(), i);
    SectionEnds(s, virt + PAGE_SIZE, i + 1);
  }

  /** vmm_map inside the loop over a section. */
  method MapSectionPage(space: AddressSpace, s: Section, virtBase: nat, physBase: nat, virt: nat, ghost needed: set<Node>,
                        ghost before: seq<nat>, ghost i: nat)
    requires Funded(space, needed) && s.Valid() && i < s.Count() && IsPage(virt, s.First(), i) && |before| == TWO_36
    requires forall v {:trigger s.Has(v)} :: 0 <= v < TWO_36 && s.Has(v) ==> Needs(needed, v)
    requires space.Entries() == Mapped(before, s.First(), i, ImageEntry(virtBase, physBase, s.flags))
    modifies space.pmm, space.pmm.bitmap, space.mem, space`tables, space`made
    ensures Funded(space, needed)
    ensures space.Entries() == Mapped(before, s.First(), i + 1, ImageEntry(virtBase, physBase, s.flags))
    ensures IsPage(virt + PAGE_SIZE, s.First(), i + 1)
    ensures virt + PAGE_SIZE < AlignUp(s.end, PAGE_SIZE) <==> i + 1 < s.Count()
  {
    SectionStep(before, s, virtBase, physBase, virt, i);
    MapFunded(space, virt, (virt - virtBase + physBase) % TWO_64, s.flags, needed);
  }

  /** One of the three loops over the sections of the kernel image. */
  method MapSection(space: AddressSpace, s: Section, virtBase: nat, physBase: nat, ghost needed: set<Node>)
    requires Funded(space, needed) && s.Valid()
    requires forall v {:trigger s.Has(v)} :: 0 <= v < TWO_36 && s.Has(v) ==> Needs(needed, v)
    modifies space.pmm, space.pmm.bitmap, space.mem, space`tables, space`made
    ensures Funded(space, needed)
    ensures space.Entries()
         == Mapped(old(space.Entries()), s.First(), s.Count(), ImageEntry(virtBase, physBase, s.flags))
  {
    var virt, end := AlignDown(s.start, PAGE_SIZE), AlignUp(s.end, PAGE_SIZE);
    ghost var i, before := 0, space.Entries();
    SectionStarts(s);
    SectionEnds(s, virt, i);
    while virt < end
      invariant IsPage(virt, s.First(), i) && i <= s.Count() && (virt < end <==> i < s.Count())
      invariant Funded(space, needed)
      invariant space.Entries() == Mapped(before, s.First(), i, ImageEntry(virtBase, physBase, s.flags))
    {
      MapSectionPage(space, s, virtBase, physBase, virt, needed, before, i);
      virt := virt + PAGE_SIZE;
      i := i + 1;
    }
  }

  /** One turn of the loop over memory. */
  lemma MemoryStep(t: seq<nat>, hhdm: nat, h: nat, addr: nat, i: nat)
    requires |t| == TWO_36 && hhdm == h * PAGE_SIZE && i < FOUR_GIB_PAGES && IsPage(addr, 0, i)
    ensures Vpn(addr) < FOUR_GIB_PAGES
    ensures InRange(Vpn(addr + hhdm), h, FOUR_GIB_PAGES)
    ensures var entry := BitOr(addr, PTE_PRESENT + PTE_WRITABLE);
      MappedTwice(t, h, i + 1) == MappedTwice(t, h, i)[Vpn(addr) := entry][Vpn(addr + hhdm) := entry]
  {
    PageReached(addr, 0, FOUR_GIB_PAGES, i);
    PageReached(addr + hhdm, h, FOUR_GIB_PAGES, i);
  }

  lemma MemoryEnds(addr: nat, i: nat)
    requires i < FOUR_GIB_PAGES && IsPage(addr, 0, i)
    ensures IsPage(addr + PAGE_SIZE, 0, i + 1)
    ensures addr + PAGE_SIZE < FOUR_GIB <==> i + 1 < FOUR_GIB_PAGES
  {
  }

  /** The tables of both windows are among the needed ones. */
  ghost predicate MemoryNeeded(needed: set<Node>, h: nat) {
    forall v {:trigger Needs(needed, v)} ::
      0 <= v < TWO_36 && (v < FOUR_GIB_PAGES || InRange(v, h, FOUR_GIB_PAGES)) ==> Needs(needed, v)
  }

  lemma PageNeeded(needed: set<Node>, h: nat, v: nat)
    requires MemoryNeeded(needed, h) && v < TWO_36 && (v < FOUR_GIB_PAGES || InRange(v, h, FOUR_GIB_PAGES))
    ensures Needs(needed, v)
  {
  }

  /** Both windows are mapped up to page i. */
  ghost predicate MappedUpTo(space: AddressSpace, needed: set<Node>, before: seq<nat>, h: nat, i: nat)
    reads space, space.pmm, space.pmm.bitmap, space.mem
    requires |before| == TWO_36 && i <= FOUR_GIB_PAGES
  {
    Funded(space, needed) && space.Entries() == MappedTwice(before, h, i)
  }

  /** The two calls of vmm_map inside the loop over memory. */
  method MapMemoryPage(space: AddressSpace, hhdm: nat, addr: nat, ghost h: nat, ghost needed: set<Node>,
                       ghost before: seq<nat>, ghost i: nat)
    requires hhdm == h * PAGE_SIZE && i < FOUR_GIB_PAGES && IsPage(addr, 0, i) && |before| == TWO_36
    requires MemoryNeeded(needed, h) && MappedUpTo(space, needed, before, h, i)
    modifies space.pmm, space.pmm.bitmap, space.mem, space`tables, space`made
    ensures MappedUpTo(space, needed, before, h, i + 1)
  {
    MemoryStep(before, hhdm, h, addr, i);
    PageNeeded(needed, h, Vpn(addr));
    PageNeeded(needed, h, Vpn(addr + hhdm));
    MapFunded(space, addr, addr, PTE_PRESENT + PTE_WRITABLE, needed);
    MapFunded(space, addr + hhdm, addr, PTE_PRESENT + PTE_WRITABLE, needed);
  }

  /** The loop over the first 4 GiB of physical memory. */
  method MapMemory(space: AddressSpace, hhdm: nat, ghost h: nat, ghost needed: set<Node>)
    requires Funded(space, needed) && hhdm == h * PAGE_SIZE && MemoryNeeded(needed, h)
    modifies space.pmm, space.pmm.bitmap, space.mem, space`tables, space`made
    ensures Funded(space, needed)
    ensures space.Entries() == MappedTwice(old(space.Entries()), h, FOUR_GIB_PAGES)
  {
    var addr := 0;
    ghost var i, before := 0, space.Entries();
    while addr < FOUR_GIB
      invariant IsPage(addr, 0, i) && i <= FOUR_GIB_PAGES && (addr < FOUR_GIB <==> i < FOUR_GIB_PAGES)
      invariant MappedUpTo(space, needed, before, h, i)
    {
      MemoryEnds(addr, i);
      MapMemoryPage(space, hhdm, addr, h, needed, before, i);
      addr := addr + PAGE_SIZE;
      i := i + 1;
    }
  }

  lemma KernelNeeds(k: Kernel)
    ensures ROOT in k.Tables() && forall v :: 0 <= v < TWO_36 && k.Maps(v) ==> Needs(k.Tables(), v)
    ensures MemoryNeeded(k.Tables(), k.Higher())
  {
  }

  /** One section of the kernel image on top of t. */
  function WithSection(k: Kernel, t: seq<nat>, s: Section): (r: seq<nat>)
    requires |t| == TWO_36
    ensures |r| == TWO_36
  {
    Mapped(t, s.First(), s.Count(), ImageEntry(k.virtBase, k.physBase, s.flags))
  }

  lemma SectionAt(k: Kernel, t: seq<nat>, s: Section, v: nat)
    requires |t| == TWO_36 && s.Valid() && v < TWO_36
    ensures WithSection(k, t, s)[v] == if s.Has(v) then k.Image(s, v) else t[v]
  {
    MappedAt(t, s.First(), s.Count(), ImageEntry(k.virtBase, k.physBase, s.flags), v);
  }

  /** The three sections of the kernel image. */
  function Image(k: Kernel): (t: seq<nat>)
    ensures |t| == TWO_36
  {
    WithSection(k, WithSection(k, WithSection(k, seq(TWO_36, _ => 0), k.text), k.rodata), k.data)
  }

  lemma ImageAt(k: Kernel, v: nat)
    requires k.Valid() && v < TWO_36
    ensures Image(k)[v] == if k.data.Has(v) then k.Image(k.data, v) else if k.rodata.Has(v) then k.Image(k.rodata, v)
                           else if k.text.Has(v) then k.Image(k.text, v) else 0
  {
    var t0 := seq(TWO_36, _ => 0);
    var t1 := WithSection(k, t0, k.text);
    SectionAt(k, t0, k.text, v);
    SectionAt(k, t1, k.rodata, v);
    SectionAt(k, WithSection(k, t1, k.rodata), k.data, v);
  }

  /** The loops of vmm_init leave the kernel's entries. */
  lemma KernelEntries(k: Kernel)
    requires k.Valid()
    ensures forall v :: 0 <= v < TWO_36 ==> MappedTwice(Image(k), k.Higher(), FOUR_GIB_PAGES)[v] == k.Entry(v)
  {
    forall v | 0 <= v < TWO_36
      ensures MappedTwice(Image(k), k.Higher(), FOUR_GIB_PAGES)[v] == k.Entry(v)
    {
      MappedTwiceAt(Image(k), k.Higher(), FOUR_GIB_PAGES, FOUR_GIB_PAGES, v);
      ImageAt(k, v);
    }
  }

  /** The word of a page of physical memory: its frame, present and writable, nothing else. */
  lemma MemoryWord(a: nat)
    requires a < FOUR_GIB_PAGES
    ensures MemoryEntry(a) == a * 4096 + 3
  {
    EntryReadsBack(a, PTE_PRESENT + PTE_WRITABLE, false);
  }

  /** Both windows show page a of memory as that frame, and a supervisor, and nobody else, may write to it and fetch
      from it. */
  lemma MemoryMapped(k: Kernel, a: nat)
    requires k.Valid() && a < FOUR_GIB_PAGES
    ensures k.Entry(a) == MemoryEntry(a) == k.Entry((k.Higher() + a) % TWO_36) && FrameOf(MemoryEntry(a)) == a
    ensures Granted(MemoryEntry(a)) == Access(a * 4096 + 3, true, true, false)
  {
    var v := (k.Higher() + a) % TWO_36;
    OffsetIs(v, k.Higher(), a);
    EntryReadsBack(a, PTE_PRESENT + PTE_WRITABLE, false);
    FlagsRead(MemoryEntry(a), PTE_PRESENT + PTE_WRITABLE, false);
  }

  /** Permissions by the flags that an entry was stored with. */
  lemma FlagsRead(w: nat, flags: nat, nx: bool)
    requires w % 4096 == flags && w / 0x8000_0000_0000_0000 == (if nx then 1 else 0)
    ensures Present(w) == Present(flags) && Writable(w) == Writable(flags) && User(w) == User(flags) && NoExecute(w) == nx
  {
    LowFlags(w / PAGE_SIZE, flags);
    assert w == w / PAGE_SIZE * PAGE_SIZE + flags;
  }

  lemma LowFlags(q: nat, flags: nat)
    ensures Present(q * PAGE_SIZE + flags) == Present(flags) && Writable(q * PAGE_SIZE + flags) == Writable(flags)
    ensures User(q * PAGE_SIZE + flags) == User(flags)
  {
    assert (q * PAGE_SIZE + flags) / 2 == q * 0x800 + flags / 2;
    assert (q * PAGE_SIZE + flags) / 4 == q * 0x400 + flags / 4;
  }

  /** Where the image is loaded at a page boundary, page `page` of a section that nothing mapped later covers shows the
      frame at its distance from the base; a supervisor may fetch from the text, write to the data and do neither to the
      read-only data; user mode may do nothing.  The words are the frame with present, present and no-execute, and
      present, writable and no-execute. */
  lemma SectionMapped(k: Kernel, s: Section, page: nat, frame: nat)
    requires k.Valid() && (s == k.text || s == k.rodata || s == k.data) && s.First() <= page < s.First() + s.Count()
    requires frame * PAGE_SIZE == page * PAGE_SIZE - k.virtBase + k.physBase && frame < TWO_40
    requires var v := page % TWO_36;
      && v >= FOUR_GIB_PAGES && !InRange(v, k.Higher(), FOUR_GIB_PAGES)
      && (s != k.data ==> !k.data.Has(v)) && (s == k.text ==> !k.rodata.Has(v))
    ensures var w := k.Entry(page % TWO_36);
      && FrameOf(w) == frame && Present(w)
      && w == frame * 4096 + (if s == k.text then 1 else if s == k.rodata then 1 + 0x8000_0000_0000_0000 else 3 + 0x8000_0000_0000_0000)
      && Granted(w) == Access(w, s == k.data, s == k.text, false)
  {
    ImageWord(k, s, page, frame);
    assert k.Entry(page % TWO_36) == k.Image(s, page % TWO_36);
    SectionFlags(k, s);
    EntryReadsBack(frame, s.flags % PAGE_SIZE, s.flags >= PTE_NX);
    FlagsRead(k.Entry(page % TWO_36), s.flags % PAGE_SIZE, s.flags >= PTE_NX);
  }

  /** The pages of a section are those that its bytes touch. */
  lemma SectionCovers(s: Section, page: nat)
    requires s.start < s.end
    ensures s.First() <= page < s.First() + s.Count() <==> exists a :: s.start <= a < s.end && a / 4096 == page
  {
    var first, last := s.start, s.end - 1;
    assert s.First() == first / 4096 && s.First() + s.Count() == last / 4096 + 1;
    if first / 4096 <= page <= last / 4096 {
      var a := if page * 4096 < first then first else page * 4096;
      assert s.start <= a < s.end && a / 4096 == page;
    }
  }

  lemma ImageWord(k: Kernel, s: Section, page: nat, frame: nat)
    requires s.Valid() && s.First() <= page < s.First() + s.Count()
    requires frame * PAGE_SIZE == page * PAGE_SIZE - k.virtBase + k.physBase && frame < TWO_40
    ensures s.Has(page % TWO_36) && k.Image(s, page % TWO_36) == BitOr(frame * PAGE_SIZE, s.flags)
  {
    OffsetIs(page % TWO_36, s.First(), page - s.First());
  }

  lemma SectionFlags(k: Kernel, s: Section)
    requires k.Valid() && (s == k.text || s == k.rodata || s == k.data)
    ensures s.flags == s.flags % PAGE_SIZE + (if s.flags >= PTE_NX then PTE_NX else 0)
  {
  }

  /** The three loops over the sections of the kernel image. */
  method MapImage(space: AddressSpace, k: Kernel, ghost needed: set<Node>)
    requires Funded(space, needed) && k.Valid() && space.Entries() == seq(TWO_36, _ => 0)
    requires forall v :: 0 <= v < TWO_36 && k.Maps(v) ==> Needs(needed, v)
    modifies space.pmm, space.pmm.bitmap, space.mem, space`tables, space`made
    ensures Funded(space, needed) && space.Entries() == Image(k)
  {
    MapSection(space, k.text, k.virtBase, k.physBase, needed);
    MapSection(space, k.rodata, k.virtBase, k.physBase, needed);
    MapSection(space, k.data, k.virtBase, k.physBase, needed);
  }

  /** All loops of vmm_init. */
  method MapKernel(space: AddressSpace, k: Kernel, ghost needed: set<Node>)
    requires Funded(space, needed) && k.Valid() && space.Entries() == seq(TWO_36, _ => 0)
    requires MemoryNeeded(needed, k.Higher()) && forall v :: 0 <= v < TWO_36 && k.Maps(v) ==> Needs(needed, v)
    modifies space.pmm, space.pmm.bitmap, space.mem, space`tables, space`made
    ensures Funded(space, needed) && space.Entries() == MappedTwice(Image(k), k.Higher(), FOUR_GIB_PAGES)
  {
    MapImage(space, k, needed);
    MapMemory(space, k.hhdm, k.Higher(), needed);
  }

  /** vmm_init, with a frame for every table the kernel needs: the walk of every page of the two windows and of the
      sections ends at its entry with all that this grants, and no other page is mapped. */
  method VmmInit(pmm: Pmm, mem: array2<nat>, k: Kernel) returns (space: AddressSpace)
    requires pmm.Valid() && pmm.Used()[0] && k.Valid()
    requires pmm.pageCount <= mem.Length0 <= TWO_40 && mem.Length1 == 512 && mem as object != pmm.bitmap as object
    requires |k.Tables()| <= FreePages(pmm.Used(), pmm.pageCount)
    modifies pmm, pmm.bitmap, mem
    ensures fresh(space) && space.pmm == pmm && space.mem == mem && space.Valid()
    ensures forall v :: 0 <= v < TWO_36 ==> space.Translations()[v] == Supervised(k.Entry(v))
  {
    ghost var needed := k.Tables();
    KernelNeeds(k);
    space := new AddressSpace(pmm, mem);
    MapKernel(space, k, needed);
    space.TranslationsAreEntries();
    KernelEntries(k);
  }
}
