/**
 Four-level page tables (Intel SDM volume 3A, section 4.5) built on demand out of the page allocator.

 Tables are frames of 512 words; a pointer to a table, which the kernel forms by adding and subtracting the offset
 of the higher half, is the number of its frame.
 */
module PageTables {
  import opened Arithmetic
  import opened Bits
  import opened Bitmaps
  import opened Pages
  import opened Pmms

  const TWO_36 := 0x10_0000_0000
  const TWO_40 := 0x100_0000_0000
  const PTE_PRESENT := 1
  const PTE_WRITABLE := 2
  const PTE_NX := 0x8000_0000_0000_0000
  /** What vmm_map passes for the tables it makes. */
  const TABLE_FLAGS := PTE_PRESENT + PTE_WRITABLE

  /** PTE_GET_ADDR, as a frame number: bits 12 to 51. */
  function FrameOf(word: nat): nat {
    word / PAGE_SIZE % TWO_40
  }

  /** The bits of an entry, by their numbers in the manual (table 4-20): 0, 1, 2 and 63. */
  predicate Present(word: nat) {
    word % 2 == 1
  }

  predicate Writable(word: nat) {
    word / 2 % 2 == 1
  }

  predicate User(word: nat) {
    word / 4 % 2 == 1
  }

  predicate NoExecute(word: nat) {
    word / 0x8000_0000_0000_0000 % 2 == 1
  }

  /** Bit 7, which ends the walk above level 1. */
  predicate Large(word: nat) {
    word / 0x80 % 2 == 1
  }

  /** An entry that takes nothing away from a supervisor below it, and leaves nothing to a user. */
  predicate Open(word: nat) {
    Present(word) && Writable(word) && !User(word) && !NoExecute(word) && !Large(word)
  }

  /** What the processor finds for a page: the entry its walk ends at, 0 if there is none, what a supervisor may do
      there, and whether user mode may get there at all.  A write and user mode need the permission of every level, and
      a fetch that no level forbids it (section 4.6). */
  datatype Access = Access(entry: nat, write: bool, fetch: bool, user: bool)

  const NO_ACCESS := Access(0, false, false, false)

  function Granted(word: nat): Access {
    Access(word, Present(word) && Writable(word), Present(word) && !NoExecute(word), Present(word) && User(word))
  }

  /** The permissions found below an entry, cut down by its own. */
  function Through(word: nat, a: Access): Access {
    Access(a.entry, Writable(word) && a.write, !NoExecute(word) && a.fetch, User(word) && a.user)
  }

  /** What an entry grants below tables of the supervisor. */
  function Supervised(word: nat): Access {
    Granted(word).(user := false)
  }

  /** What single entries grant. */
  function Grants(e: seq<nat>): (a: seq<Access>)
    ensures |a| == |e|
  {
    seq(|e|, v requires 0 <= v < |e| => Supervised(e[v]))
  }

  lemma GrantsUpdated(e: seq<nat>, v: nat, w: nat)
    requires v < |e|
    ensures Grants(e[v := w]) == Grants(e)[v := Supervised(w)]
  {
  }

  /** The page of a virtual address: bits 12 to 47. */
  function Vpn(virt: nat): (v: nat)
    ensures v < TWO_36
  {
    virt / PAGE_SIZE % TWO_36
  }

  /** A table of level 4 (the root) to 1, by the part of the page number that leads to it. */
  datatype Node = Node(level: nat, prefix: nat)

  const ROOT := Node(4, 0)

  /** Pages below one table of a level. */
  function Span(level: nat): (n: nat)
    requires level <= 4
    ensures n >= 1
  {
    if level == 0 then 1 else if level == 1 then 0x200 else if level == 2 then 0x4_0000
    else if level == 3 then 0x800_0000 else TWO_36
  }

  function TableOf(vpn: nat, level: nat): Node
    requires level <= 4
  {
    Node(level, vpn / Span(level))
  }

  function Index(vpn: nat, level: nat): (i: nat)
    requires 1 <= level <= 4
    ensures i < 512
  {
    vpn / Span(level - 1) % 512
  }

  function Child(n: Node, i: nat): Node
    requires n.level >= 1
  {
    Node(n.level - 1, n.prefix * 512 + i)
  }

  lemma ChildOnPath(vpn: nat, level: nat)
    requires 1 <= level <= 4 && vpn < TWO_36
    ensures Child(TableOf(vpn, level), Index(vpn, level)) == TableOf(vpn, level - 1)
    ensures TableOf(vpn, 4) == ROOT
  {
    Levels(vpn);
  }

  lemma Levels(vpn: nat)
    ensures vpn / 0x200 / 512 == vpn / 0x4_0000
    ensures vpn / 0x4_0000 / 512 == vpn / 0x800_0000
    ensures vpn / 0x800_0000 / 512 == vpn / TWO_36
  {
  }

  /** Different entries lead to different tables. */
  lemma ChildrenApart(n: Node, i: nat, m: Node, j: nat)
    requires n.level >= 1 && m.level >= 1 && i < 512 && j < 512 && Child(n, i) == Child(m, j)
    ensures n == m && i == j
  {
  }

  /** Taking 9 bits of a page number is not disturbed by dropping the bits above 36. */
  lemma NineBits(page: nat, span: nat, tables: nat)
    requires 1 <= span && TWO_36 == span * (512 * tables)
    ensures page % TWO_36 / span % 512 == page / span % 512
  {
    var q, r := page / TWO_36, page % TWO_36;
    assert q * (span * (512 * tables)) == (q * (512 * tables)) * span;
    DivMod(q * (512 * tables) + r / span, span, r % span);
    assert page == (q * (512 * tables) + r / span) * span + r % span;
    assert q * (512 * tables) == (q * tables) * 512;
    DivMod(q * tables + r / span / 512, 512, r / span % 512);
  }

  lemma Shifts(virt: nat)
    ensures virt / 0x80_0000_0000 == virt / PAGE_SIZE / 0x800_0000
    ensures virt / 0x4000_0000 == virt / PAGE_SIZE / 0x4_0000
    ensures virt / 0x20_0000 == virt / PAGE_SIZE / 0x200
  {
  }

  /** The four indices that vmm_map cuts out of a virtual address. */
  lemma Indices(virt: nat)
    ensures virt / 0x80_0000_0000 % 512 == Index(Vpn(virt), 4)
    ensures virt / 0x4000_0000 % 512 == Index(Vpn(virt), 3)
    ensures virt / 0x20_0000 % 512 == Index(Vpn(virt), 2)
    ensures virt / 0x1000 % 512 == Index(Vpn(virt), 1)
  {
    Shifts(virt);
    NineBits(virt / PAGE_SIZE, 0x800_0000, 1);
    NineBits(virt / PAGE_SIZE, 0x4_0000, 0x200);
    NineBits(virt / PAGE_SIZE, 0x200, 0x4_0000);
    NineBits(virt / PAGE_SIZE, 1, 0x800_0000);
  }

  // ---- Entries ----

  lemma PowersOfTwo()
    ensures Pow2(12) == PAGE_SIZE && Pow2(52) == TWO_40 * PAGE_SIZE
  {
    assert Pow2(4) == 16;
    Pow2Sum(4, 4);
    Pow2Sum(8, 4);
    Pow2Sum(12, 8);
    Pow2Sum(20, 20);
    Pow2Sum(40, 12);
  }

  /** A frame's address and flags below bit 12 and above bit 51 have no common bit. */
  lemma EntryIsSum(frame: nat, flags: nat, high: nat)
    requires frame < TWO_40 && flags < PAGE_SIZE
    ensures BitOr(frame * PAGE_SIZE, flags + high * (TWO_40 * PAGE_SIZE)) == frame * PAGE_SIZE + flags + high * (TWO_40 * PAGE_SIZE)
  {
    PowersOfTwo();
    HighJoined(frame * PAGE_SIZE, flags, high, 52, TWO_40 * PAGE_SIZE);
    LowJoined(frame, flags, 12, PAGE_SIZE);
  }

  lemma HighJoined(address: nat, flags: nat, high: nat, k: nat, p: nat)
    requires p == Pow2(k) && address < p && flags < p
    ensures BitOr(address, flags + high * p) == BitOr(address, flags) + high * p
  {
    HighAndLow(high, p, flags);
    PartsJoined(address, flags + high * p, flags, high, k, p);
    Commuted(p, high);
  }

  lemma PartsJoined(address: nat, b: nat, low: nat, high: nat, k: nat, p: nat)
    requires p == Pow2(k) && address < p && High(b, p) == high && Low(b, p) == low
    ensures BitOr(address, b) == BitOr(address, low) + p * high
  {
    OrSplit(address, b, k);
    NothingHigh(address, p);
  }

  lemma NothingHigh(address: nat, p: nat)
    requires address < p
    ensures High(address, p) == 0 && Low(address, p) == address
  {
  }

  lemma LowJoined(frame: nat, flags: nat, k: nat, p: nat)
    requires p == Pow2(k) && flags < p
    ensures BitOr(frame * p, flags) == frame * p + flags
  {
    DivMod(frame, p, 0);
    OrIsSum(frame * p, flags, k);
  }

  lemma HighAndLow(high: nat, p: nat, low: nat)
    requires low < p
    ensures High(low + high * p, p) == high && Low(low + high * p, p) == low
  {
    DivMod(high, p, low);
  }

  lemma SumReadsBack(frame: nat, flags: nat, high: nat)
    requires frame < TWO_40 && flags < PAGE_SIZE
    ensures var w := frame * PAGE_SIZE + flags + high * (TWO_40 * PAGE_SIZE);
      FrameOf(w) == frame && w % PAGE_SIZE == flags
  {
    DivMod(frame + high * TWO_40, PAGE_SIZE, flags);
    DivMod(high, TWO_40, frame);
  }

  /** What vmm_get_next_lvl stores for vmm_map: it leads to the frame of the table and takes no permission away. */
  lemma TableEntry(frame: nat)
    requires frame < TWO_40
    ensures var w := BitOr(frame * PAGE_SIZE, TABLE_FLAGS); w == frame * 4096 + 3 && Open(w) && FrameOf(w) == frame
  {
    EntryIsSum(frame, TABLE_FLAGS, 0);
    SumReadsBack(frame, TABLE_FLAGS, 0);
    LowBits(frame);
  }

  lemma LowBits(frame: nat)
    requires frame < TWO_40
    ensures Open(frame * PAGE_SIZE + TABLE_FLAGS)
  {
    BitAt(frame * 0x800 + 1, 2, 1);
    BitAt(frame * 0x400, 4, 3);
    BitAt(frame * 0x20, 0x80, 3);
    BitAt(0, PTE_NX, frame * PAGE_SIZE + TABLE_FLAGS);
    OddAndEven(frame);
  }

  /** The bit of q * p + r with weight p, for r below p. */
  lemma BitAt(q: nat, p: nat, r: nat)
    requires r < p
    ensures (q * p + r) / p % 2 == q % 2
  {
    DivMod(q, p, r);
  }

  lemma OddAndEven(frame: nat)
    ensures (frame * PAGE_SIZE + TABLE_FLAGS) % 2 == 1 && (frame * 0x800 + 1) % 2 == 1 && frame * 0x20 % 2 == 0
    ensures frame * 0x400 % 2 == 0
  {
    DivMod(frame * 0x800 + 1, 2, 1);
    DivMod(frame * 0x400, 2, 1);
    DivMod(frame * 0x200, 2, 0);
    DivMod(frame * 0x10, 2, 0);
  }

  // ---- Trees of tables in memory ----

  /** Memory by frames: 512 words each. */
  predicate Framed(words: seq<seq<nat>>) {
    forall f :: 0 <= f < |words| ==> |words[f]| == 512
  }

  /** A table has a frame of its own, in memory and marked used, and hangs below a table of the next level. */
  ghost predicate Placed(words: seq<seq<nat>>, tables: map<Node, nat>, used: seq<bool>, n: Node)
    requires n in tables
  {
    && 1 <= n.level <= 4 && 0 < tables[n] < |words| <= TWO_40 && tables[n] < |used| && used[tables[n]]
    && (n.level == 4 ==> n == ROOT)
    && (n.level < 4 ==> Node(n.level + 1, n.prefix / 512) in tables)
  }

  /** Entry i of a table that is not a leaf is present exactly when the table below it exists; it then points to it and
      takes no permission away. */
  ghost predicate Wired(words: seq<seq<nat>>, tables: map<Node, nat>, n: Node, i: nat)
    requires Framed(words) && n in tables && n.level >= 1 && i < 512 && tables[n] < |words|
  {
    var w := words[tables[n]][i];
    && (Present(w) <==> Child(n, i) in tables)
    && (Child(n, i) in tables ==> FrameOf(w) == tables[Child(n, i)] && Open(w))
  }

  /** An unshared tree of used frames. */
  ghost predicate Tree(words: seq<seq<nat>>, tables: map<Node, nat>, used: seq<bool>) {
    && Framed(words) && ROOT in tables
    && (forall n :: n in tables ==> Placed(words, tables, used, n))
    && (forall n, m :: n in tables && m in tables && tables[n] == tables[m] ==> n == m)
    && (forall n, i {:trigger Wired(words, tables, n, i)} ::
         n in tables && n.level >= 2 && 0 <= i < 512 ==> Wired(words, tables, n, i))
  }

  /** The leaf entry for a page; 0 when its table does not exist. */
  ghost function Leaf(words: seq<seq<nat>>, tables: map<Node, nat>, used: seq<bool>, vpn: nat): nat
    requires Tree(words, tables, used)
  {
    var n := TableOf(vpn, 1);
    if n in tables then
      assert Placed(words, tables, used, n);
      words[tables[n]][Index(vpn, 1)]
    else 0
  }

  /** The leaf entries of all pages. */
  ghost function Leaves(words: seq<seq<nat>>, tables: map<Node, nat>, used: seq<bool>): (e: seq<nat>)
    requires Tree(words, tables, used)
    ensures |e| == TWO_36
  {
    seq(TWO_36, v requires 0 <= v < TWO_36 => Leaf(words, tables, used, v))
  }

  lemma FirstTable(words: seq<seq<nat>>, tables: map<Node, nat>, used: seq<bool>, frame: nat)
    requires Framed(words) && 0 < frame < |words| <= TWO_40 && frame < |used| && used[frame]
    requires words[frame] == seq(512, _ => 0) && tables == map[ROOT := frame]
    ensures Tree(words, tables, used) && Leaves(words, tables, used) == seq(TWO_36, _ => 0)
    ensures Grants(Leaves(words, tables, used)) == seq(TWO_36, _ => NO_ACCESS)
  {
    assert Placed(words, tables, used, ROOT);
    assert Leaves(words, tables, used) == seq(TWO_36, _ => 0);
  }

  /** The walk of the processor (sections 4.5.4 and 4.6.1). */
  function Walk(words: seq<seq<nat>>, frame: nat, level: nat, vpn: nat): Access
    requires Framed(words) && 1 <= level <= 4
    decreases level
  {
    if frame >= |words| then NO_ACCESS
    else
      var w := words[frame][Index(vpn, level)];
      if level == 1 then Granted(w)
      else if !Present(w) || (Large(w) && level == 4) then NO_ACCESS
      else if Large(w) then Granted(w)
      else Through(w, Walk(words, FrameOf(w), level - 1, vpn))
  }

  /** What the processor finds for every page. */
  function Walks(words: seq<seq<nat>>, root: nat): (a: seq<Access>)
    requires Framed(words)
    ensures |a| == TWO_36
  {
    seq(TWO_36, v requires 0 <= v < TWO_36 => Walk(words, root, 4, v))
  }

  lemma LeafNeedsPath(words: seq<seq<nat>>, tables: map<Node, nat>, used: seq<bool>, vpn: nat)
    requires Tree(words, tables, used) && vpn < TWO_36 && TableOf(vpn, 1) in tables
    ensures TableOf(vpn, 2) in tables && TableOf(vpn, 3) in tables
  {
    assert Placed(words, tables, used, TableOf(vpn, 1));
    assert Placed(words, tables, used, TableOf(vpn, 2));
  }

  lemma WalkStep(words: seq<seq<nat>>, tables: map<Node, nat>, used: seq<bool>, level: nat, vpn: nat)
    requires Tree(words, tables, used) && 2 <= level <= 4 && vpn < TWO_36 && TableOf(vpn, level) in tables
    ensures Walk(words, tables[TableOf(vpn, level)], level, vpn)
         == if TableOf(vpn, level - 1) in tables
            then Walk(words, tables[TableOf(vpn, level - 1)], level - 1, vpn).(user := false)
            else NO_ACCESS
  {
    assert Placed(words, tables, used, TableOf(vpn, level));
    ChildOnPath(vpn, level);
    assert Wired(words, tables, TableOf(vpn, level), Index(vpn, level));
  }

  /** In an unshared tree the processor's walk ends at the leaf entry of the page, with all that it grants a
      supervisor. */
  lemma {:induction false} WalkReachesLeaf(words: seq<seq<nat>>, tables: map<Node, nat>, used: seq<bool>, level: nat, vpn: nat)
    requires Tree(words, tables, used) && 1 <= level <= 4 && vpn < TWO_36 && TableOf(vpn, level) in tables
    ensures Walk(words, tables[TableOf(vpn, level)], level, vpn)
         == if level == 1 then Granted(Leaf(words, tables, used, vpn)) else Supervised(Leaf(words, tables, used, vpn))
    decreases level
  {
    if level == 1 {
      assert Placed(words, tables, used, TableOf(vpn, 1));
    } else {
      WalkStep(words, tables, used, level, vpn);
      if TableOf(vpn, level - 1) in tables {
        WalkReachesLeaf(words, tables, used, level - 1, vpn);
      } else if TableOf(vpn, 1) in tables {
        LeafNeedsPath(words, tables, used, vpn);
      }
    }
  }

  lemma WalksAreLeaves(words: seq<seq<nat>>, tables: map<Node, nat>, used: seq<bool>)
    requires Tree(words, tables, used)
    ensures Walks(words, tables[ROOT]) == Grants(Leaves(words, tables, used))
  {
    var walks, grants := Walks(words, tables[ROOT]), Grants(Leaves(words, tables, used));
    forall v | 0 <= v < TWO_36
      ensures walks[v] == grants[v]
    {
      ChildOnPath(v, 4);
      WalkReachesLeaf(words, tables, used, 4, v);
    }
  }

  function SetWord(words: seq<seq<nat>>, f: nat, i: nat, w: nat): (r: seq<seq<nat>>)
    requires f < |words| && i < |words[f]|
  {
    var row: seq<nat> := words[f][i := w];
    words[f := row]
  }

  /** Memory after a zeroed frame is hung below entry i of a table. */
  function AddTable(words: seq<seq<nat>>, lvl: nat, i: nat, frame: nat, flags: nat): (r: seq<seq<nat>>)
    requires Framed(words) && lvl < |words| && frame < |words| && lvl != frame && i < 512
    ensures |r| == |words| && Framed(r)
    ensures r[frame] == seq(512, _ => 0) && r[lvl] == words[lvl][i := BitOr(frame * PAGE_SIZE, flags)]
    ensures forall f :: 0 <= f < |words| && f != frame && f != lvl ==> r[f] == words[f]
  {
    SetWord(words[frame := seq(512, _ => 0)], lvl, i, BitOr(frame * PAGE_SIZE, flags))
  }

  predicate AddedTable(before: seq<seq<nat>>, after: seq<seq<nat>>, lvl: nat, i: nat, frame: nat, flags: nat) {
    && Framed(before) && lvl < |before| && frame < |before| && lvl != frame && i < 512
    && after == AddTable(before, lvl, i, frame, flags)
  }

  /** A zeroed, newly used frame, to be hung below entry i of table n, which is not present. */
  ghost predicate CanAdd(words: seq<seq<nat>>, tables: map<Node, nat>, used: seq<bool>, n: Node, i: nat, frame: nat) {
    && Tree(words, tables, used) && n in tables && n.level >= 2 && i < 512 && Child(n, i) !in tables
    && tables[n] < |words| && tables[n] != frame
    && 0 < frame < |words| && frame < |used| && !used[frame]
  }

  lemma TableAddedPlaced(words: seq<seq<nat>>, tables: map<Node, nat>, used: seq<bool>, n: Node, i: nat, frame: nat,
                         m: Node)
    requires CanAdd(words, tables, used, n, i, frame) && m in tables[Child(n, i) := frame]
    ensures Placed(AddTable(words, tables[n], i, frame, TABLE_FLAGS), tables[Child(n, i) := frame], used[frame := true], m)
    ensures m in tables ==> tables[m] != frame
  {
    assert Placed(words, tables, used, n);
    if m in tables {
      assert Placed(words, tables, used, m);
    }
  }

  lemma TableAddedWired(words: seq<seq<nat>>, tables: map<Node, nat>, used: seq<bool>, n: Node, i: nat, frame: nat,
                        m: Node, j: nat)
    requires CanAdd(words, tables, used, n, i, frame) && m in tables[Child(n, i) := frame]
    requires m.level >= 2 && j < 512 && tables[Child(n, i) := frame][m] < |words|
    ensures Wired(AddTable(words, tables[n], i, frame, TABLE_FLAGS), tables[Child(n, i) := frame], m, j)
  {
    var words' := AddTable(words, tables[n], i, frame, TABLE_FLAGS);
    assert Placed(words, tables, used, n) && Wired(words, tables, n, i);
    TableEntry(frame);
    if m in tables {
      assert Placed(words, tables, used, m) && Wired(words, tables, m, j);
      if m != n || j != i {
        assert words'[tables[m]][j] == words[tables[m]][j];
        assert Child(m, j) != Child(n, i) by {
          if Child(m, j) == Child(n, i) {
            ChildrenApart(n, i, m, j);
          }
        }
      }
    }
  }

  /** Hanging it there keeps the tree. */
  lemma TreeGrows(words: seq<seq<nat>>, tables: map<Node, nat>, used: seq<bool>, n: Node, i: nat, frame: nat)
    requires CanAdd(words, tables, used, n, i, frame)
    ensures Tree(AddTable(words, tables[n], i, frame, TABLE_FLAGS), tables[Child(n, i) := frame], used[frame := true])
  {
    var words' := AddTable(words, tables[n], i, frame, TABLE_FLAGS);
    var tables', used' := tables[Child(n, i) := frame], used[frame := true];
    forall m | m in tables'
      ensures Placed(words', tables', used', m) && (m in tables ==> tables[m] != frame)
    {
      TableAddedPlaced(words, tables, used, n, i, frame, m);
    }
    forall m, j {:trigger Wired(words', tables', m, j)} | m in tables' && m.level >= 2 && 0 <= j < 512
      ensures Wired(words', tables', m, j)
    {
      assert Placed(words', tables', used', m);
      TableAddedWired(words, tables, used, n, i, frame, m, j);
    }
  }

  /** And every leaf entry. */
  lemma LeavesKept(words: seq<seq<nat>>, tables: map<Node, nat>, used: seq<bool>, n: Node, i: nat, frame: nat)
    requires CanAdd(words, tables, used, n, i, frame)
    requires Tree(AddTable(words, tables[n], i, frame, TABLE_FLAGS), tables[Child(n, i) := frame], used[frame := true])
    ensures Leaves(AddTable(words, tables[n], i, frame, TABLE_FLAGS), tables[Child(n, i) := frame], used[frame := true])
         == Leaves(words, tables, used)
  {
    var after := Leaves(AddTable(words, tables[n], i, frame, TABLE_FLAGS), tables[Child(n, i) := frame], used[frame := true]);
    var before := Leaves(words, tables, used);
    forall v | 0 <= v < TWO_36
      ensures after[v] == before[v]
    {
      var l := TableOf(v, 1);
      if l in tables {
        assert Placed(words, tables, used, l) && l != n;
      }
    }
  }

  lemma Hung(words: seq<seq<nat>>, tables: map<Node, nat>, used: seq<bool>, n: Node, i: nat, frame: nat)
    requires CanAdd(words, tables, used, n, i, frame)
    ensures var words', tables', used' := AddTable(words, tables[n], i, frame, TABLE_FLAGS), tables[Child(n, i) := frame], used[frame := true];
      && Tree(words', tables', used') && Leaves(words', tables', used') == Leaves(words, tables, used)
      && |tables'| == |tables| + 1 && tables'[ROOT] == tables[ROOT]
  {
    TreeGrows(words, tables, used, n, i, frame);
    LeavesKept(words, tables, used, n, i, frame);
  }

  /** Writing a leaf entry changes the entry of its page and nothing else. */
  lemma LeafWritten(words: seq<seq<nat>>, tables: map<Node, nat>, used: seq<bool>, vpn: nat, w: nat)
    requires Tree(words, tables, used) && vpn < TWO_36 && TableOf(vpn, 1) in tables && tables[TableOf(vpn, 1)] < |words|
    ensures var words' := SetWord(words, tables[TableOf(vpn, 1)], Index(vpn, 1), w);
      && Tree(words', tables, used)
      && Leaves(words', tables, used) == Leaves(words, tables, used)[vpn := w]
  {
    var f := tables[TableOf(vpn, 1)];
    var words' := SetWord(words, f, Index(vpn, 1), w);
    forall n | n in tables
      ensures Placed(words', tables, used, n) && (tables[n] == f ==> n == TableOf(vpn, 1))
    {
      assert Placed(words, tables, used, n);
    }
    forall n, i {:trigger Wired(words', tables, n, i)} | n in tables && n.level >= 2 && 0 <= i < 512
      ensures Wired(words', tables, n, i)
    {
      assert Placed(words, tables, used, n) && Wired(words, tables, n, i);
    }
    assert Tree(words', tables, used);
    var before, after := Leaves(words, tables, used), Leaves(words', tables, used);
    forall v | 0 <= v < TWO_36
      ensures after[v] == if v == vpn then w else before[v]
    {
      LeafIndex(v, vpn);
      if TableOf(v, 1) in tables {
        assert Placed(words', tables, used, TableOf(v, 1));
      }
    }
  }

  lemma LeafIndex(v: nat, w: nat)
    ensures TableOf(v, 1) == TableOf(w, 1) && Index(v, 1) == Index(w, 1) ==> v == w
  {
  }

  /** What vmm_map stores for a page-aligned physical address and flags below bit 12, with or without the no-execute
      flag, reads back as that frame and those flags. */
  lemma EntryReadsBack(frame: nat, flags: nat, nx: bool)
    requires frame < TWO_40 && flags < PAGE_SIZE
    ensures var w, high := BitOr(frame * PAGE_SIZE, flags + (if nx then PTE_NX else 0)), if nx then 1 else 0;
      && w == frame * 4096 + flags + high * 0x8000_0000_0000_0000
      && FrameOf(w) == frame && w % 4096 == flags && w / 0x8000_0000_0000_0000 == high
  {
    var high := if nx then 0x800 else 0;
    EntryIsSum(frame, flags, high);
    SumReadsBack(frame, flags, high);
  }

  class AddressSpace {
    const pmm: Pmm
    const mem: array2<nat>
    var root: nat
    ghost var tables: map<Node, nat>
    ghost var made: nat

    ghost predicate Valid()
      reads this, pmm, pmm.bitmap, mem
    {
      && pmm.Valid() && pmm.Used()[0] && mem as object != pmm.bitmap as object
      && mem.Length1 == 512 && pmm.pageCount <= mem.Length0 <= TWO_40
      && Tree(Rows(mem), tables, pmm.Used()) && tables[ROOT] == root && made == |tables|
    }

    ghost function FreeFrames(): nat
      requires pmm.Valid()
      reads pmm, pmm.bitmap
    {
      FreePages(pmm.Used(), pmm.pageCount)
    }

    /** What the processor finds for every page. */
    ghost function Translations(): (a: seq<Access>)
      requires Valid()
      reads this, pmm, pmm.bitmap, mem
      ensures |a| == TWO_36
    {
      Walks(Rows(mem), root)
    }

    /** The leaf entries that vmm_map stores. */
    ghost function Entries(): (e: seq<nat>)
      requires Valid()
      reads this, pmm, pmm.bitmap, mem
      ensures |e| == TWO_36
    {
      Leaves(Rows(mem), tables, pmm.Used())
    }

    lemma TranslationsAreEntries()
      requires Valid()
      ensures Translations() == Grants(Entries())
    {
      WalksAreLeaves(Rows(mem), tables, pmm.Used());
    }

    /** The empty address space at the start of vmm_init. */
    constructor (pmm: Pmm, mem: array2<nat>)
      requires pmm.Valid() && pmm.Used()[0] && FreePages(pmm.Used(), pmm.pageCount) > 0
      requires pmm.pageCount <= mem.Length0 <= TWO_40 && mem.Length1 == 512
      requires mem as object != pmm.bitmap as object
      modifies pmm, pmm.bitmap, mem
      ensures this.pmm == pmm && this.mem == mem && Valid()
      ensures tables.Keys == {ROOT} && FreeFrames() + made == old(FreePages(pmm.Used(), pmm.pageCount))
      ensures Entries() == seq(TWO_36, _ => 0) && Translations() == seq(TWO_36, _ => NO_ACCESS)
    {
      var frame := NewFrame(pmm, mem);
      FirstTable(Rows(mem), map[ROOT := frame], pmm.Used(), frame);
      this.pmm, this.mem, root := pmm, mem, frame;
      tables, made := map[ROOT := frame], 1;
      new;
      TranslationsAreEntries();
    }

    /** vmm_get_next_lvl: the table below entry `entry` of table n, made if need be and if asked to. */
    method GetNextLvl(ghost n: Node, lvl: nat, entry: nat, flags: nat, alloc: bool) returns (next: nat)
      requires Valid() && n in tables && n.level >= 2 && lvl == tables[n] && entry < 512
      requires alloc && Child(n, entry) !in tables ==> flags == TABLE_FLAGS && FreeFrames() > 0
      modifies pmm, pmm.bitmap, mem, `tables, `made
      ensures Valid()
      ensures if alloc then Grown(old(tables), tables, Child(n, entry)) else tables == old(tables)
      ensures next == if Child(n, entry) in tables then tables[Child(n, entry)] else 0
      ensures made == old(made) + (if alloc && Child(n, entry) !in old(tables) then 1 else 0)
      ensures FreeFrames() + made == old(FreeFrames() + made)
      ensures Entries() == old(Entries())
      ensures if alloc && Child(n, entry) !in old(tables)
              then AddedTable(old(Rows(mem)), Rows(mem), lvl, entry, next, flags)
              else Rows(mem) == old(Rows(mem))
    {
      assert Placed(Rows(mem), tables, pmm.Used(), n) && Wired(Rows(mem), tables, n, entry);
      assert mem[lvl, entry] == Rows(mem)[lvl][entry];
      if mem[lvl, entry] % 2 == 1 {
        return FrameOf(mem[lvl, entry]);
      }
      if !alloc {
        return 0;
      }
      next := MakeTable(n, lvl, entry);
    }

    /** The allocating half of vmm_get_next_lvl. */
    method MakeTable(ghost n: Node, lvl: nat, entry: nat) returns (next: nat)
      requires Valid() && n in tables && n.level >= 2 && lvl == tables[n] && entry < 512 && Child(n, entry) !in tables
      requires FreeFrames() > 0
      modifies pmm, pmm.bitmap, mem, `tables, `made
      ensures Valid()
      ensures tables == old(tables)[Child(n, entry) := next] && made == old(made) + 1
      ensures FreeFrames() + made == old(FreeFrames() + made)
      ensures Entries() == old(Entries())
      ensures AddedTable(old(Rows(mem)), Rows(mem), lvl, entry, next, TABLE_FLAGS)
    {
      ghost var words, used := Rows(mem), pmm.Used();
      assert Placed(words, tables, used, n);
      next := HangFrame(pmm, mem, lvl, entry, TABLE_FLAGS);
      Adopt(n, entry, next, words, used);
    }

    /** The frame just hung below entry `entry` of table n counts as a table. */
    ghost method Adopt(n: Node, entry: nat, next: nat, words: seq<seq<nat>>, used: seq<bool>)
      requires CanAdd(words, tables, used, n, entry, next) && tables[ROOT] == root && made == |tables|
      requires pmm.Valid() && pmm.Used() == used[next := true] && pmm.Used()[0] && mem as object != pmm.bitmap as object
      requires mem.Length1 == 512 && pmm.pageCount <= mem.Length0 <= TWO_40
      requires Rows(mem) == AddTable(words, tables[n], entry, next, TABLE_FLAGS)
      modifies `tables, `made
      ensures Valid()
      ensures tables == old(tables)[Child(n, entry) := next] && made == old(made) + 1
      ensures Entries() == Leaves(words, old(tables), used)
    {
      Hung(words, tables, used, n, entry, next);
      tables, made := tables[Child(n, entry) := next], made + 1;
    }

    /** Enough free frames for the tables that the page still lacks. */
    ghost predicate Affords(vpn: nat)
      requires pmm.Valid()
      reads this, pmm, pmm.bitmap
    {
      Lacking(tables, vpn) <= FreeFrames()
    }

    /** One step down the path of a page. */
    method Descend(ghost vpn: nat, ghost level: nat, lvl: nat, entry: nat) returns (next: nat)
      requires Valid() && vpn < TWO_36 && 2 <= level <= 4 && Affords(vpn)
      requires TableOf(vpn, level) in tables && lvl == tables[TableOf(vpn, level)] && entry == Index(vpn, level)
      modifies pmm, pmm.bitmap, mem, `tables, `made
      ensures Valid() && Affords(vpn)
      ensures TableOf(vpn, level - 1) in tables && next == tables[TableOf(vpn, level - 1)]
      ensures Grown(old(tables), tables, TableOf(vpn, level - 1))
      ensures FreeFrames() + made == old(FreeFrames() + made)
      ensures Entries() == old(Entries())
    {
      ChildOnPath(vpn, level);
      next := GetNextLvl(TableOf(vpn, level), lvl, entry, TABLE_FLAGS, true);
      LackingShrinks(old(tables), tables, vpn, level - 1);
    }

    /** The last step of vmm_map. */
    method WriteEntry(ghost vpn: nat, pml1: nat, pml1i: nat, w: nat)
      requires Valid() && vpn < TWO_36
      requires TableOf(vpn, 1) in tables && pml1 == tables[TableOf(vpn, 1)] && pml1i == Index(vpn, 1)
      modifies mem
      ensures Valid()
      ensures Entries() == old(Entries())[vpn := w]
    {
      ghost var words := Rows(mem);
      assert Placed(words, tables, pmm.Used(), TableOf(vpn, 1));
      LeafWritten(words, tables, pmm.Used(), vpn, w);
      StoreWord(mem, pml1, pml1i, w);
    }

    /** The walk of vmm_map down the four indices of a page, and its effect on the leaf entries of the tree. */
    method MapEntry(ghost vpn: nat, pml4i: nat, pml3i: nat, pml2i: nat, pml1i: nat, w: nat)
      requires Valid() && vpn < TWO_36 && Affords(vpn)
      requires pml4i == Index(vpn, 4) && pml3i == Index(vpn, 3) && pml2i == Index(vpn, 2) && pml1i == Index(vpn, 1)
      modifies pmm, pmm.bitmap, mem, `tables, `made
      ensures Valid()
      ensures Entries() == old(Entries())[vpn := w]
      ensures PathAdded(old(tables), tables, vpn)
      ensures FreeFrames() + made == old(FreeFrames() + made)
    {
      var pml1 := WalkDown(vpn, pml4i, pml3i, pml2i);
      WriteEntry(vpn, pml1, pml1i, w);
    }

    /** The three steps down to the table of the leaf entry. */
    method WalkDown(ghost vpn: nat, pml4i: nat, pml3i: nat, pml2i: nat) returns (pml1: nat)
      requires Valid() && vpn < TWO_36 && Affords(vpn)
      requires pml4i == Index(vpn, 4) && pml3i == Index(vpn, 3) && pml2i == Index(vpn, 2)
      modifies pmm, pmm.bitmap, mem, `tables, `made
      ensures Valid() && Entries() == old(Entries())
      ensures TableOf(vpn, 1) in tables && pml1 == tables[TableOf(vpn, 1)]
      ensures PathAdded(old(tables), tables, vpn)
      ensures FreeFrames() + made == old(FreeFrames() + made)
    {
      ghost var tables4 := tables;
      ChildOnPath(vpn, 4);
      var pml3 := Descend(vpn, 4, root, pml4i);
      ghost var tables3 := tables;
      var pml2 := Descend(vpn, 3, pml3, pml3i);
      ghost var tables2 := tables;
      pml1 := Descend(vpn, 2, pml2, pml2i);
      PathGrown(tables4, tables3, tables2, tables, vpn);
    }

    /** vmm_map: the walk of the page of virt now ends in phys | flags and has all the permissions of those flags, every
        other walk is what it was; tables are only added, each on a frame that was free. */
    method Map(virt: nat, phys: nat, flags: nat)
      requires Valid() && Affords(Vpn(virt))
      modifies pmm, pmm.bitmap, mem, `tables, `made
      ensures Valid()
      ensures Entries() == old(Entries())[Vpn(virt) := BitOr(phys, flags)]
      ensures Translations() == old(Translations())[Vpn(virt) := Supervised(BitOr(phys, flags))]
      ensures PathAdded(old(tables), tables, Vpn(virt))
      ensures FreeFrames() + made == old(FreeFrames() + made)
    {
      var pml4i := virt / 0x80_0000_0000 % 512;
      var pml3i := virt / 0x4000_0000 % 512;
      var pml2i := virt / 0x20_0000 % 512;
      var pml1i := virt / 0x1000 % 512;
      Indices(virt);
      TranslationsAreEntries();
      GrantsUpdated(Entries(), Vpn(virt), BitOr(phys, flags));
      MapEntry(Vpn(virt), pml4i, pml3i, pml2i, pml1i, BitOr(phys, flags));
      TranslationsAreEntries();
    }
  }

  /** A table below the root that the page needs. */
  predicate OnPath(n: Node, vpn: nat) {
    n == TableOf(vpn, 3) || n == TableOf(vpn, 2) || n == TableOf(vpn, 1)
  }

  /** At most one more table, n; the others stay where they are. */
  ghost predicate Grown(tables: map<Node, nat>, tables': map<Node, nat>, n: Node) {
    && (forall m :: m in tables' <==> m in tables || m == n)
    && (forall m :: m in tables ==> tables'[m] == tables[m])
  }

  /** The tables on the path of a page exist besides those that did, which stay where they are. */
  ghost predicate PathAdded(tables: map<Node, nat>, tables': map<Node, nat>, vpn: nat) {
    && (forall m :: m in tables' <==> m in tables || OnPath(m, vpn))
    && (forall m :: m in tables ==> tables'[m] == tables[m])
  }

  lemma PathGrown(tables4: map<Node, nat>, tables3: map<Node, nat>, tables2: map<Node, nat>, tables1: map<Node, nat>, vpn: nat)
    requires Grown(tables4, tables3, TableOf(vpn, 3)) && Grown(tables3, tables2, TableOf(vpn, 2))
    requires Grown(tables2, tables1, TableOf(vpn, 1))
    ensures PathAdded(tables4, tables1, vpn)
  {
  }

  /** How many of them do not exist. */
  ghost function Lacking(tables: map<Node, nat>, vpn: nat): nat {
      (if TableOf(vpn, 3) in tables then 0 else 1)
    + (if TableOf(vpn, 2) in tables then 0 else 1)
    + (if TableOf(vpn, 1) in tables then 0 else 1)
  }

  lemma LackingShrinks(tables: map<Node, nat>, tables': map<Node, nat>, vpn: nat, level: nat)
    requires 1 <= level <= 3
    requires Grown(tables, tables', TableOf(vpn, level))
    ensures Lacking(tables', vpn) == Lacking(tables, vpn) - (if TableOf(vpn, level) in tables then 0 else 1)
    ensures TableOf(vpn, level) !in tables ==> Lacking(tables, vpn) > 0
  {
  }

  ghost function Rows(mem: array2<nat>): (words: seq<seq<nat>>)
    reads mem
    ensures |words| == mem.Length0
    ensures forall f :: 0 <= f < mem.Length0 ==> |words[f]| == mem.Length1
    ensures forall f, i {:trigger words[f][i]} :: 0 <= f < mem.Length0 && 0 <= i < mem.Length1 ==> words[f][i] == mem[f, i]
  {
    seq(mem.Length0, f requires 0 <= f < mem.Length0 reads mem =>
      seq(mem.Length1, i requires 0 <= i < mem.Length1 reads mem => mem[f, i]))
  }

  /** One word of memory. */
  method StoreWord(mem: array2<nat>, f: nat, i: nat, w: nat)
    requires f < mem.Length0 && i < mem.Length1
    modifies mem
    ensures Rows(mem) == SetWord(old(Rows(mem)), f, i, w)
  {
    mem[f, i] := w;
    assert Rows(mem)[f] == SetWord(old(Rows(mem)), f, i, w)[f];
    assert forall g :: 0 <= g < mem.Length0 && g != f ==> Rows(mem)[g] == old(Rows(mem))[g];
  }

  /** memset of a table. */
  method ZeroTable(mem: array2<nat>, frame: nat)
    requires frame < mem.Length0
    modifies mem
    ensures Rows(mem) == old(Rows(mem))[frame := seq(mem.Length1, _ => 0)]
  {
    for i := 0 to mem.Length1
      invariant forall j :: 0 <= j < i ==> mem[frame, j] == 0
      invariant forall f, j :: 0 <= f < mem.Length0 && 0 <= j < mem.Length1 && f != frame ==> mem[f, j] == old(mem[f, j])
    {
      mem[frame, i] := 0;
    }
    assert Rows(mem)[frame] == seq(mem.Length1, _ => 0);
    assert forall f :: 0 <= f < mem.Length0 && f != frame ==> Rows(mem)[f] == old(Rows(mem))[f];
  }

  /** pmm_alloc(1) and memset: a zeroed frame that was free. */
  method NewFrame(pmm: Pmm, mem: array2<nat>) returns (frame: nat)
    requires pmm.Valid() && pmm.Used()[0] && FreePages(pmm.Used(), pmm.pageCount) > 0
    requires pmm.pageCount <= mem.Length0 && mem as object != pmm.bitmap as object
    modifies pmm, pmm.bitmap, mem
    ensures pmm.Valid() && 0 < frame < pmm.pageCount && !old(pmm.Used())[frame]
    ensures pmm.Used() == old(pmm.Used())[frame := true]
    ensures FreePages(pmm.Used(), pmm.pageCount) == old(FreePages(pmm.Used(), pmm.pageCount)) - 1
    ensures Rows(mem) == old(Rows(mem))[frame := seq(mem.Length1, _ => 0)]
  {
    ghost var bits := pmm.Used();
    var physical := pmm.Alloc(1);
    frame := physical / PAGE_SIZE;
    OneFreePageFits(bits, pmm.pageCount);
    ReservedPageZero(bits, old(pmm.lastPage), 1, pmm.pageCount);
    OnePageTaken(bits, frame, pmm.pageCount);
    assert pmm.Used() == bits[frame := true];
    ZeroTable(mem, frame);
  }

  /** A new zeroed frame, stored in an entry of a table. */
  method HangFrame(pmm: Pmm, mem: array2<nat>, lvl: nat, entry: nat, flags: nat) returns (frame: nat)
    requires pmm.Valid() && pmm.Used()[0] && FreePages(pmm.Used(), pmm.pageCount) > 0
    requires pmm.pageCount <= mem.Length0 && mem.Length1 == 512 && mem as object != pmm.bitmap as object
    requires lvl < |pmm.Used()| && pmm.Used()[lvl] && lvl < mem.Length0 && entry < 512
    modifies pmm, pmm.bitmap, mem
    ensures pmm.Valid() && 0 < frame < pmm.pageCount && !old(pmm.Used())[frame]
    ensures pmm.Used() == old(pmm.Used())[frame := true]
    ensures FreePages(pmm.Used(), pmm.pageCount) == old(FreePages(pmm.Used(), pmm.pageCount)) - 1
    ensures Rows(mem) == AddTable(old(Rows(mem)), lvl, entry, frame, flags)
  {
    frame := NewFrame(pmm, mem);
    StoreWord(mem, lvl, entry, BitOr(frame * PAGE_SIZE, flags));
  }
}
