/** The ELF loader (kernel/src/ELF/elf.c; System V gABI, chapter 5, "Program Header").

    Segments go page by page into an identity-mapped window.  `SegmentImage` says what memory and
    mappings a load leaves behind; `ElfLoader.Loader` is the loader on top of the page tables. */
module SegmentImage {
  import opened Words
  import opened PageTree

  const PAGE_SIZE: nat := 0x1000

  const WINDOW_START: nat := 0x40_0000

  const WINDOW_END: nat := 0x50_0000

  const SIGNAL_ADDRESS: nat := 0x10_0000

  const PT_LOAD: nat := 1

  const MAX_RECORDED: nat := 4096

  datatype Phdr = Phdr(ptype: u32, offset: u64, vaddr: u64, filesz: u64, memsz: u64)

  function RoundUp(n: nat): nat {
    (n + 0xFFF) / PAGE_SIZE * PAGE_SIZE
  }

  /** What the source demands of its input: segments start on a page and their bytes are in the image. */
  predicate IsLoadable(image: seq<u8>, ph: Phdr) {
    ph.ptype == PT_LOAD ==>
      ph.vaddr % PAGE_SIZE == 0 && (ph.memsz > 0 ==> ph.offset + Min(ph.filesz, RoundUp(ph.memsz)) <= |image|)
  }

  /** Byte k of a loaded segment: file bytes, then zeros. */
  function SegmentByte(image: seq<u8>, ph: Phdr, k: nat): u8 {
    if k < ph.filesz && ph.offset + k < |image| then image[ph.offset + k] else 0
  }

  predicate InWindow(virt: nat) {
    WINDOW_START <= virt <= WINDOW_END
  }

  function PageEntry(virt: nat, attributes: u64): u64
    requires virt < 0x1_0000_0000_0000_0000
  {
    LeafEntry(virt, attributes)
  }

  /** Identity mappings of the pages, entered one after the other. */
  ghost function Mapped(m: map<nat, u64>, pages: seq<u64>, attributes: u64): map<nat, u64> {
    if pages == [] then m
    else
      var last := pages[|pages| - 1];
      Mapped(m, pages[..|pages| - 1], attributes)[Page(last) := PageEntry(last, attributes)]
  }

  ghost function Unmapped(m: map<nat, u64>, pages: seq<u64>): map<nat, u64> {
    m - set x | x in pages :: Page(x)
  }

  lemma WindowAddress(virt: nat)
    requires virt <= WINDOW_END + PAGE_SIZE
    ensures Page(virt) == virt / PAGE_SIZE
    ensures virt % PAGE_SIZE == 0 ==> FrameOf(virt) * PAGE_SIZE == virt
  {
  }

  /** All pages of the window share the three upper tables; the signal page shares two of them. */
  lemma WindowPath(virt: nat)
    requires InWindow(virt)
    ensures Path(Page(virt)) == [0, 0, 2]
  {
    WindowAddress(virt);
    var n := virt / PAGE_SIZE;
    assert 0x400 <= n <= 0x500;
    assert n / 512 == 2;
  }

  lemma SignalPath()
    ensures Path(Page(SIGNAL_ADDRESS)) == [0, 0, 0]
  {
    WindowAddress(SIGNAL_ADDRESS);
    assert SIGNAL_ADDRESS / PAGE_SIZE == 0x100;
  }

  lemma {:induction false} MappedAppend(m: map<nat, u64>, a: seq<u64>, b: seq<u64>, attributes: u64)
    ensures Mapped(m, a + b, attributes) == Mapped(Mapped(m, a, attributes), b, attributes)
    decreases |b|
  {
    if b == [] {
      assert a + b == a;
    } else {
      assert (a + b)[..|a + b| - 1] == a + b[..|b| - 1];
      MappedAppend(m, a, b[..|b| - 1], attributes);
    }
  }

  lemma UnmappedSnoc(m: map<nat, u64>, pages: seq<u64>, p: u64)
    ensures Unmapped(m, pages + [p]) == Unmapped(m, pages) - {Page(p)}
  {
    hide Page;
    var s0, s := set x | x in pages :: Page(x), set x | x in pages + [p] :: Page(x);
    assert s == s0 + {Page(p)};
  }

  lemma UnmappedUpdate(m: map<nat, u64>, pages: seq<u64>, p: u64, entry: u64)
    ensures Unmapped(m[Page(p) := entry], pages) - {Page(p)} == Unmapped(m, pages) - {Page(p)}
  {
    hide Page;
  }

  /** Removing the pages of a load removes the load: what remains is what was mapped elsewhere before. */
  lemma {:induction false} UnmapUndoesMap(m: map<nat, u64>, pages: seq<u64>, attributes: u64)
    ensures Unmapped(Mapped(m, pages, attributes), pages) == Unmapped(m, pages)
    decreases |pages|
  {
    hide Page, PageEntry, Unmapped;
    if pages != [] {
      var init, last := pages[..|pages| - 1], pages[|pages| - 1];
      var a := Mapped(m, init, attributes);
      UnmapUndoesMap(m, init, attributes);
      assert pages == init + [last];
      UnmappedSnoc(m, init, last);
      UnmappedSnoc(a[Page(last) := PageEntry(last, attributes)], init, last);
      UnmappedUpdate(a, init, last, PageEntry(last, attributes));
    }
  }

  lemma NothingUnmapped(m: map<nat, u64>)
    ensures Unmapped(m, []) == m
  {
  }

  lemma UnmappedAppend(m: map<nat, u64>, a: seq<u64>, b: seq<u64>)
    ensures Unmapped(m, a + b) == Unmapped(Unmapped(m, b), a)
  {
    hide Page;
    assert (set x | x in a + b :: Page(x)) == (set x | x in a :: Page(x)) + set x | x in b :: Page(x);
  }

  lemma UnmapAllUndoesMap(m: map<nat, u64>, record: seq<u64>, pages: seq<u64>, attributes: u64)
    ensures Unmapped(Mapped(m, pages, attributes), record + pages) == Unmapped(m, record + pages)
  {
    hide Unmapped, Mapped;
    UnmappedAppend(Mapped(m, pages, attributes), record, pages);
    UnmapUndoesMap(m, pages, attributes);
    UnmappedAppend(m, record, pages);
  }

  // ---------- how many pages fit the window ----------

  ghost predicate NoRepeat(s: seq<u64>) {
    forall i, j :: 0 <= i < j < |s| ==> s[i] != s[j]
  }

  lemma {:induction false} ElementsCount(s: seq<nat>, r: set<nat>)
    requires forall i, j :: 0 <= i < j < |s| ==> s[i] != s[j]
    requires forall i :: 0 <= i < |s| ==> s[i] in r
    ensures |s| <= |r|
    decreases |s|
  {
    if s != [] {
      var last := s[|s| - 1];
      ElementsCount(s[..|s| - 1], r - {last});
    }
  }

  /** A load that maps no page twice maps at most the 257 pages of the window. */
  lemma WindowHolds257(pages: seq<u64>)
    requires NoRepeat(pages) && forall i :: 0 <= i < |pages| ==> InWindow(pages[i]) && pages[i] % PAGE_SIZE == 0
    ensures |pages| <= 257
  {
    var s: seq<nat> := seq(|pages|, i requires 0 <= i < |pages| => (pages[i] - WINDOW_START) / PAGE_SIZE);
    forall i, j | 0 <= i < j < |s|
      ensures s[i] != s[j]
    {
      assert pages[i] != pages[j];
    }
    ElementsCount(s, Below(257));
  }
}

module ElfLoader {
  import opened Words
  import opened FreeSlots
  import opened Frames
  import opened PageTree
  import opened PageTables
  import opened SegmentImage
  import FrameAllocator

  /** The parsed file header. */
  datatype Ehdr = Ehdr(ident: seq<u8>, etype: u16, entry: u64, phdrs: seq<Phdr>)

  const ET_EXEC: nat := 2

  const ET_DYN: nat := 3

  predicate HasMagic(h: Ehdr) {
    && |h.ident| >= 4 && h.ident[0] == 0x7F
    && h.ident[1] == 'E' as int && h.ident[2] == 'L' as int && h.ident[3] == 'F' as int
  }

  /** The file types LoadKernelElf goes on with. */
  predicate IsAccepted(h: Ehdr) {
    HasMagic(h) && (h.etype == ET_EXEC || (h.etype == ET_DYN && h.entry != 0))
  }

  /** The magic bytes and file types of the specification: an executable, or a shared object with an entry point. */
  predicate IsProgram(h: Ehdr) {
    && |h.ident| >= 4 && h.ident[..4] == [0x7F, 0x45, 0x4C, 0x46]
    && (h.etype == 2 || (h.etype == 3 && h.entry != 0))
  }

  lemma AcceptedIsProgram(h: Ehdr)
    ensures IsAccepted(h) <==> IsProgram(h)
    ensures HasMagic(h) <==> |h.ident| >= 4 && h.ident[..4] == [0x7F, 0x45, 0x4C, 0x46]
  {
    if |h.ident| >= 4 {
      var m := h.ident[..4];
      assert m[0] == h.ident[0] && m[1] == h.ident[1] && m[2] == h.ident[2] && m[3] == h.ident[3];
    }
  }

  ghost predicate SegmentsApart(phdrs: seq<Phdr>) {
    forall i, j :: 0 <= i < j < |phdrs| && phdrs[i].ptype == PT_LOAD && phdrs[j].ptype == PT_LOAD ==>
      phdrs[i].vaddr + RoundUp(phdrs[i].memsz) <= phdrs[j].vaddr
      || phdrs[j].vaddr + RoundUp(phdrs[j].memsz) <= phdrs[i].vaddr
  }

  ghost predicate AllLoadable(image: seq<u8>, phdrs: seq<Phdr>) {
    forall i :: 0 <= i < |phdrs| ==> IsLoadable(image, phdrs[i])
  }

  /** All pages of the segment lie in the window. */
  predicate FitsWindow(ph: Phdr) {
    RoundUp(ph.memsz) == 0 || (WINDOW_START <= ph.vaddr && ph.vaddr + RoundUp(ph.memsz) - PAGE_SIZE <= WINDOW_END)
  }

  predicate AllFit(phdrs: seq<Phdr>) {
    forall i :: 0 <= i < |phdrs| && phdrs[i].ptype == PT_LOAD ==> FitsWindow(phdrs[i])
  }

  // ---------- the pages of a load and the tables they need ----------

  /** The pages a segment maps from `off` on: up to its end or to the first page outside the window. */
  function SegmentPages(ph: Phdr, off: nat): seq<u64>
    decreases ph.memsz - off
  {
    var virt: u64 := (ph.vaddr + off) % 0x1_0000_0000_0000_0000;
    if off >= ph.memsz || !InWindow(virt) then [] else [virt] + SegmentPages(ph, off + PAGE_SIZE)
  }

  /** All pages of the window that a load maps: it gives up behind the first segment that leaves the window. */
  function LoadPages(phdrs: seq<Phdr>): seq<u64> {
    if phdrs == [] then []
    else if phdrs[0].ptype != PT_LOAD then LoadPages(phdrs[1..])
    else SegmentPages(phdrs[0], 0) + if FitsWindow(phdrs[0]) then LoadPages(phdrs[1..]) else []
  }

  /** The pages LoadKernelElf maps; the signal page comes last, if the load gets there. */
  function KernelPages(h: Ehdr): seq<u64> {
    if !IsAccepted(h) then []
    else LoadPages(h.phdrs) + if AllFit(h.phdrs) then [SIGNAL_ADDRESS] else []
  }

  function UserPages(h: Ehdr): seq<u64> {
    if HasMagic(h) then LoadPages(h.phdrs) else []
  }

  /** The maps of these pages; the tables they need do not depend on frames and attributes. */
  function MapsOf(pages: seq<u64>): seq<Op> {
    if pages == [] then [] else [Map(pages[0], pages[0], 0)] + MapsOf(pages[1..])
  }

  /** How many tables these pages need that are absent. */
  ghost function Need(tables: Memory, root: nat, pages: seq<u64>): nat {
    |Needed(tables, root, MapsOf(pages))|
  }

  lemma {:induction false} SegmentPagesInWindow(ph: Phdr, off: nat)
    ensures forall p :: p in SegmentPages(ph, off) ==> InWindow(p)
    decreases ph.memsz - off
  {
    var virt: u64 := (ph.vaddr + off) % 0x1_0000_0000_0000_0000;
    if off < ph.memsz && InWindow(virt) {
      SegmentPagesInWindow(ph, off + PAGE_SIZE);
    }
  }

  lemma {:induction false} LoadPagesInWindow(phdrs: seq<Phdr>)
    ensures forall p :: p in LoadPages(phdrs) ==> InWindow(p)
  {
    hide InWindow, FitsWindow;
    if phdrs != [] {
      SegmentPagesInWindow(phdrs[0], 0);
      LoadPagesInWindow(phdrs[1..]);
    }
  }

  /** All window pages go through the same three tables, and the signal page through two of these and one more. */
  lemma {:induction false} WalkedByLoad(pages: seq<u64>)
    requires forall p :: p in pages ==> InWindow(p) || p == SIGNAL_ADDRESS
    ensures Walked(MapsOf(pages)) <= {[0], [0, 0], [0, 0, 2], [0, 0, 0]}
    ensures SIGNAL_ADDRESS !in pages ==> Walked(MapsOf(pages)) <= {[0], [0, 0], [0, 0, 2]}
  {
    hide Page, Path, InWindow;
    if pages != [] {
      var p := pages[0];
      WalkedByLoad(pages[1..]);
      if p == SIGNAL_ADDRESS {
        SignalPath();
        assert Prefixes(Page(p)) == {[0], [0, 0], [0, 0, 0]} by {
          assert [0, 0, 0][..1] == [0] && [0, 0, 0][..2] == [0, 0] && [0, 0, 0][..3] == [0, 0, 0];
        }
      } else {
        WindowPath(p);
        assert Prefixes(Page(p)) == {[0], [0, 0], [0, 0, 2]} by {
          assert [0, 0, 2][..1] == [0] && [0, 0, 2][..2] == [0, 0] && [0, 0, 2][..3] == [0, 0, 2];
        }
      }
    }
  }

  lemma {:induction false} SubsetCount(s: set<seq<nat>>, t: set<seq<nat>>)
    requires s <= t
    ensures |s| <= |t|
  {
    if s != {} {
      var x :| x in s;
      SubsetCount(s - {x}, t - {x});
    }
  }

  lemma FewAbsent(tables: Memory, root: nat, s: set<seq<nat>>, t: set<seq<nat>>)
    requires s <= t
    ensures |Absent(tables, root, s)| <= |Absent(tables, root, t)| <= |t|
  {
    hide Node;
    SubsetCount(Absent(tables, root, s), Absent(tables, root, t));
    SubsetCount(Absent(tables, root, t), t);
  }

  /** However long the program, a load needs at most four tables, three without the signal page, and none that is
      there already. */
  lemma LoadNeedsFour(tables: Memory, root: nat, pages: seq<u64>)
    requires forall p :: p in pages ==> InWindow(p) || p == SIGNAL_ADDRESS
    ensures Need(tables, root, pages) <= 4
    ensures SIGNAL_ADDRESS !in pages ==> Need(tables, root, pages) <= 3
    ensures (forall q :: q in {[0], [0, 0], [0, 0, 2]} ==> Node(tables, root, q).Some?) ==>
      Need(tables, root, pages) <= if SIGNAL_ADDRESS in pages && Node(tables, root, [0, 0, 0]).None? then 1 else 0
  {
    hide Node;
    var window: set<seq<nat>>, all: set<seq<nat>> := {[0], [0, 0], [0, 0, 2]}, {[0], [0, 0], [0, 0, 2], [0, 0, 0]};
    WalkedByLoad(pages);
    FewAbsent(tables, root, Walked(MapsOf(pages)), all);
    if SIGNAL_ADDRESS !in pages {
      FewAbsent(tables, root, Walked(MapsOf(pages)), window);
    }
    if forall q :: q in window ==> Node(tables, root, q).Some? {
      assert Absent(tables, root, window) == {};
      assert Absent(tables, root, all) == Absent(tables, root, {[0, 0, 0]});
      FewAbsent(tables, root, {[0, 0, 0]}, {[0, 0, 0]});
    }
  }

  lemma OnePageLess(virt: u64, later: seq<u64>)
    ensures MapsOf([virt] + later) != [] && MapsOf([virt] + later)[0] == Map(virt, virt, 0)
    ensures MapsOf([virt] + later)[1..] == MapsOf(later)
  {
    assert ([virt] + later)[1..] == later;
  }

  // ---------- tables and bytes in one memory ----------

  /** The frames the loader writes to: the signal page and the window. */
  predicate Reserved(f: nat) {
    f == SIGNAL_ADDRESS / PAGE_SIZE || WINDOW_START / PAGE_SIZE <= f <= WINDOW_END / PAGE_SIZE
  }

  /** No page of a load lies in the frame of a table or in one of the n lowest free frames, from which new tables are
      made.  The kernel has one memory for tables and programs; this is what keeps the two apart for one load. */
  ghost predicate ClearOf(tables: Memory, root: nat, o: Owners, first: nat, pages: seq<u64>, n: nat) {
    forall p :: p in pages ==>
      !IsTable(tables, root, p / PAGE_SIZE) && !AmongLowest(o, first, p / PAGE_SIZE, n)
  }

  /** No byte of a table or of the n lowest free frames has changed. */
  ghost predicate MissesTables(before: seq<u8>, after: seq<u8>, tables: Memory, root: nat, o: Owners, first: nat,
                               n: nat) {
    && |after| == |before|
    && forall a :: 0 <= a < |before| && after[a] != before[a] ==>
         !IsTable(tables, root, a / PAGE_SIZE) && !AmongLowest(o, first, a / PAGE_SIZE, n)
  }

  ghost predicate DistinctWindowPages(pages: seq<u64>) {
    NoRepeat(pages) && forall k :: 0 <= k < |pages| ==> InWindow(pages[k]) && pages[k] % PAGE_SIZE == 0
  }

  /** A load changes bytes of its pages only, and the signal word if it reaches its entry. */
  ghost predicate LoadChanges(before: seq<u8>, after: seq<u8>, pages: seq<u64>, entered: bool) {
    && |after| == |before|
    && forall a :: 0 <= a < |before| && after[a] != before[a] ==>
         a / PAGE_SIZE * PAGE_SIZE in pages || (entered && SIGNAL_ADDRESS <= a < SIGNAL_ADDRESS + 4)
  }

  lemma LoadMissesTables(before: seq<u8>, after: seq<u8>, pages: seq<u64>, entered: bool,
                         tables: Memory, root: nat, o: Owners, first: nat, n: nat)
    requires LoadChanges(before, after, pages, entered)
    requires ClearOf(tables, root, o, first, pages + if entered then [SIGNAL_ADDRESS] else [], n)
    ensures MissesTables(before, after, tables, root, o, first, n)
  {
    hide IsTable, AmongLowest;
    forall a | 0 <= a < |before| && after[a] != before[a]
      ensures !IsTable(tables, root, a / PAGE_SIZE) && !AmongLowest(o, first, a / PAGE_SIZE, n)
    {
      if a / PAGE_SIZE * PAGE_SIZE in pages {
        assert a / PAGE_SIZE * PAGE_SIZE / PAGE_SIZE == a / PAGE_SIZE;
      } else {
        assert SIGNAL_ADDRESS in pages + [SIGNAL_ADDRESS] && a / PAGE_SIZE == SIGNAL_ADDRESS / PAGE_SIZE;
      }
    }
  }

  /** A little-endian 64-bit word of memory. */
  function Le64(memory: seq<u8>, a: nat): u64
    requires a + 8 <= |memory|
  {
    memory[a] as int + memory[a + 1] as int * 0x100 + memory[a + 2] as int * 0x1_0000
    + memory[a + 3] as int * 0x100_0000 + memory[a + 4] as int * 0x1_0000_0000 + memory[a + 5] as int * 0x100_0000_0000
    + memory[a + 6] as int * 0x1_0000_0000_0000 + memory[a + 7] as int * 0x100_0000_0000_0000
  }

  /** A frame of memory read as a table. */
  function FrameWords(memory: seq<u8>, f: nat): (t: seq<u64>)
    requires (f + 1) * PAGE_SIZE <= |memory|
    ensures |t| == ENTRIES
  {
    seq(ENTRIES, j requires 0 <= j < ENTRIES => Le64(memory, f * PAGE_SIZE + 8 * j))
  }

  /** A program that writes to this frame: one byte at its start, or none at all if the signal word is there. */
  function ProgramAt(f: nat): seq<Phdr>
    requires Reserved(f)
  {
    if f == SIGNAL_ADDRESS / PAGE_SIZE then [] else [Phdr(PT_LOAD, 0, f * PAGE_SIZE, 1, 1)]
  }

  /** A cleared table but for one entry. */
  function TableWith(i: nat, e: u64): (t: seq<u64>)
    ensures |t| == ENTRIES
  {
    seq(ENTRIES, j => if j == i then e else 0)
  }

  /** Tables that map this page of the window, with the page itself as their last table. */
  function TablesAt(f: nat): Memory
    requires Reserved(f)
  {
    map[1 := TableWith(0, LinkEntry(2)), 2 := TableWith(0, LinkEntry(3)), 3 := TableWith(2, LinkEntry(f)),
        f := TableWith(f % ENTRIES, LeafEntry(f * PAGE_SIZE, 3))]
  }

  /** Every byte of the segment's pages is in place. */
  ghost predicate SegmentInPlace(memory: seq<u8>, image: seq<u8>, ph: Phdr) {
    && (RoundUp(ph.memsz) > 0 ==> WINDOW_START <= ph.vaddr && ph.vaddr + RoundUp(ph.memsz) <= |memory|)
    && forall k :: 0 <= k < RoundUp(ph.memsz) ==> memory[ph.vaddr + k] == SegmentByte(image, ph, k)
  }

  lemma OneByteInPlace(memory: seq<u8>, image: seq<u8>, f: nat)
    requires Reserved(f) && f != SIGNAL_ADDRESS / PAGE_SIZE && |image| == 1
    requires SegmentInPlace(memory, image, ProgramAt(f)[0])
    ensures (f + 1) * PAGE_SIZE <= |memory| && memory[f * PAGE_SIZE] == image[0]
    ensures forall a :: f * PAGE_SIZE < a < (f + 1) * PAGE_SIZE ==> memory[a] == 0
  {
    var ph := ProgramAt(f)[0];
    assert RoundUp(1) == PAGE_SIZE;
    assert memory[ph.vaddr + 0] == SegmentByte(image, ph, 0);
    forall a | f * PAGE_SIZE < a < (f + 1) * PAGE_SIZE
      ensures memory[a] == 0
    {
      assert memory[ph.vaddr + (a - f * PAGE_SIZE)] == SegmentByte(image, ph, a - f * PAGE_SIZE);
    }
  }

  lemma ThreeLinks(m: Memory, f: nat)
    requires f < FRAME_LIMIT && 1 in m && m[1] == TableWith(0, LinkEntry(2))
    requires 2 in m && m[2] == TableWith(0, LinkEntry(3)) && 3 in m && m[3] == TableWith(2, LinkEntry(f))
    ensures Node(m, 1, [0, 0, 2]) == Some(f)
  {
    hide LinkEntry;
    assert Node(m, 1, []) == Some(1);
    NodeSnoc(m, 1, [], 0);
    assert [] + [0] == [0];
    NodeSnoc(m, 1, [0], 0);
    assert [0] + [0] == [0, 0];
    NodeSnoc(m, 1, [0, 0], 2);
    assert [0, 0] + [2] == [0, 0, 2];
  }

  lemma LookupThrough(m: Memory, f: nat)
    requires WINDOW_START <= f * PAGE_SIZE <= WINDOW_END && 1 in m && m[1] == TableWith(0, LinkEntry(2))
    requires 2 in m && m[2] == TableWith(0, LinkEntry(3)) && 3 in m && m[3] == TableWith(2, LinkEntry(f))
    requires f in m && |m[f]| == ENTRIES
    ensures Lookup(m, 1, f) == if Present(m[f][f % ENTRIES]) then Some(m[f][f % ENTRIES]) else None
  {
    hide LinkEntry;
    ThreeLinks(m, f);
    WindowPath(f * PAGE_SIZE);
    WindowAddress(f * PAGE_SIZE);
    assert Path(f) == [0, 0, 2];
    hide Node, TableWith;
  }

  lemma TableWords(memory: seq<u8>, f: nat)
    requires (f + 1) * PAGE_SIZE <= |memory| && memory[f * PAGE_SIZE] == 7
    requires forall a :: f * PAGE_SIZE < a < (f + 1) * PAGE_SIZE ==> memory[a] == 0
    ensures FrameWords(memory, f)[0] == 7 && forall j :: 1 <= j < ENTRIES ==> FrameWords(memory, f)[j] == 0
  {
  }

  /** What a load of one byte does to a frame of the window that is free or a table: a fresh table made of the free
      frame would have a present entry, and as the last table of the window it loses the mapping of the very page. */
  lemma LoadIntoATableOrFreeFrame(memory: seq<u8>, f: nat)
    requires Reserved(f) && f != SIGNAL_ADDRESS / PAGE_SIZE && SegmentInPlace(memory, [7], ProgramAt(f)[0])
    ensures (f + 1) * PAGE_SIZE <= |memory| && Present(FrameWords(memory, f)[0])
    ensures Lookup(TablesAt(f), 1, f) == Some(LeafEntry(f * PAGE_SIZE, 3))
    ensures Lookup(TablesAt(f)[f := FrameWords(memory, f)], 1, f) != Some(LeafEntry(f * PAGE_SIZE, 3))
  {
    hide LeafEntry, LinkEntry, Node, FrameWords, Path, Lookup;
    OneByteInPlace(memory, [7], f);
    TableWords(memory, f);
    WindowAddress(f * PAGE_SIZE);
    LookupThrough(TablesAt(f), f);
    LookupThrough(TablesAt(f)[f := FrameWords(memory, f)], f);
    assert FrameOf(LeafEntry(f * PAGE_SIZE, 3)) == f;
    assert FrameOf(7) == 0;
  }

  // ---------- memory ----------

  /** The first n bytes of a segment lie at its address; everything else is as before. */
  ghost predicate SegmentStored(before: seq<u8>, after: seq<u8>, image: seq<u8>, ph: Phdr, n: nat) {
    && |after| == |before|
    && forall a :: 0 <= a < |before| ==>
         after[a] == if ph.vaddr <= a < ph.vaddr + n then SegmentByte(image, ph, a - ph.vaddr) else before[a]
  }

  /** Only bytes on these pages changed. */
  ghost predicate OnlyPagesChanged(before: seq<u8>, after: seq<u8>, pages: seq<u64>) {
    && |after| == |before|
    && forall a :: 0 <= a < |before| && after[a] != before[a] ==> a / PAGE_SIZE * PAGE_SIZE in pages
  }

  /** The record of loaded pages keeps the first 4096. */
  ghost function Recorded(record: seq<u64>, pages: seq<u64>): seq<u64> {
    if |record + pages| <= MAX_RECORDED then record + pages else (record + pages)[..MAX_RECORDED]
  }

  ghost predicate AllInPlace(memory: seq<u8>, image: seq<u8>, phdrs: seq<Phdr>) {
    forall i :: 0 <= i < |phdrs| && phdrs[i].ptype == PT_LOAD ==> SegmentInPlace(memory, image, phdrs[i])
  }

  ghost predicate InSegment(p: u64, ph: Phdr) {
    ph.ptype == PT_LOAD && ph.vaddr <= p < ph.vaddr + RoundUp(ph.memsz)
  }

  ghost predicate InSome(p: u64, phdrs: seq<Phdr>) {
    exists i :: 0 <= i < |phdrs| && InSegment(p, phdrs[i])
  }

  /** The pages are distinct window pages, each of one of these segments. */
  ghost predicate Collected(pages: seq<u64>, phdrs: seq<Phdr>) {
    && DistinctWindowPages(pages)
    && forall k :: 0 <= k < |pages| ==> InSome(pages[k], phdrs)
  }

  lemma CollectedAreDistinct(pages: seq<u64>, phdrs: seq<Phdr>)
    requires Collected(pages, phdrs)
    ensures DistinctWindowPages(pages)
  {
  }

  lemma NothingCollected(m: seq<u8>, image: seq<u8>, phdrs: seq<Phdr>, record: seq<u64>, mapped: map<nat, u64>,
                         attributes: u64)
    requires |record| <= MAX_RECORDED
    ensures AllInPlace(m, image, phdrs[..0]) && OnlyPagesChanged(m, m, []) && Collected([], phdrs[..0])
    ensures Mapped(mapped, [], attributes) == mapped && Recorded(record, []) == record
  {
    assert record + [] == record;
  }

  lemma WiderCollection(pages: seq<u64>, a: seq<Phdr>, b: seq<Phdr>)
    requires Collected(pages, a) && a <= b
    ensures Collected(pages, b)
  {
    forall k | 0 <= k < |pages|
      ensures InSome(pages[k], b)
    {
      assert InSome(pages[k], a);
      var i :| 0 <= i < |a| && InSegment(pages[k], a[i]);
      assert InSegment(pages[k], b[i]);
    }
  }

  lemma SegmentSkipped(m: seq<u8>, image: seq<u8>, phdrs: seq<Phdr>, i: nat, pages: seq<u64>)
    requires i < |phdrs| && phdrs[i].ptype != PT_LOAD
    requires AllInPlace(m, image, phdrs[..i]) && Collected(pages, phdrs[..i])
    ensures AllInPlace(m, image, phdrs[..i + 1]) && Collected(pages, phdrs[..i + 1])
  {
    hide SegmentInPlace, InSegment;
    WiderCollection(pages, phdrs[..i], phdrs[..i + 1]);
    var part := phdrs[..i + 1];
    forall j | 0 <= j < |part| && part[j].ptype == PT_LOAD
      ensures SegmentInPlace(m, image, part[j])
    {
      assert phdrs[..i][j] == phdrs[j];
    }
  }

  lemma SegmentKept(before: seq<u8>, after: seq<u8>, image: seq<u8>, ph: Phdr, n: nat, other: Phdr)
    requires SegmentStored(before, after, image, ph, n) && SegmentInPlace(before, image, other)
      && n <= RoundUp(ph.memsz)
    requires ph.vaddr + RoundUp(ph.memsz) <= other.vaddr || other.vaddr + RoundUp(other.memsz) <= ph.vaddr
    ensures SegmentInPlace(after, image, other)
  {
    hide RoundUp;
  }

  /** Consecutive pages of the window from the start of the segment. */
  ghost predicate ArePages(pages: seq<u64>, ph: Phdr) {
    forall i :: 0 <= i < |pages| ==> pages[i] == ph.vaddr + i * PAGE_SIZE && InWindow(pages[i])
  }

  lemma SegmentDone(before: seq<u8>, after: seq<u8>, image: seq<u8>, ph: Phdr, pages: seq<u64>)
    requires SegmentStored(before, after, image, ph, RoundUp(ph.memsz))
    requires ArePages(pages, ph) && |pages| * PAGE_SIZE == RoundUp(ph.memsz) && |after| >= WINDOW_END + PAGE_SIZE
    ensures SegmentInPlace(after, image, ph)
  {
    hide RoundUp, SegmentByte;
    if |pages| > 0 {
      assert InWindow(pages[0]) && InWindow(pages[|pages| - 1]);
    }
  }

  lemma PageOfAddress(a: nat, base: nat)
    requires base <= a && base % PAGE_SIZE == 0
    ensures a / PAGE_SIZE * PAGE_SIZE == base + (a - base) / PAGE_SIZE * PAGE_SIZE
  {
  }

  lemma ChangesCollected(start: seq<u8>, before: seq<u8>, after: seq<u8>, image: seq<u8>, ph: Phdr,
                         pages: seq<u64>, more: seq<u64>)
    requires ph.ptype == PT_LOAD && IsLoadable(image, ph)
    requires OnlyPagesChanged(start, before, pages) && ArePages(more, ph)
    requires SegmentStored(before, after, image, ph, |more| * PAGE_SIZE)
    ensures OnlyPagesChanged(start, after, pages + more)
  {
    hide SegmentByte;
    forall a | 0 <= a < |start| && after[a] != start[a]
      ensures a / PAGE_SIZE * PAGE_SIZE in pages + more
    {
      if ph.vaddr <= a < ph.vaddr + |more| * PAGE_SIZE {
        var k := (a - ph.vaddr) / PAGE_SIZE;
        PageOfAddress(a, ph.vaddr);
        assert more[k] == ph.vaddr + k * PAGE_SIZE;
      }
    }
  }

  lemma PagesCollected(phdrs: seq<Phdr>, i: nat, pages: seq<u64>, more: seq<u64>)
    requires i < |phdrs| && phdrs[i].ptype == PT_LOAD && SegmentsApart(phdrs) && phdrs[i].vaddr % PAGE_SIZE == 0
    requires Collected(pages, phdrs[..i]) && ArePages(more, phdrs[i]) && |more| * PAGE_SIZE <= RoundUp(phdrs[i].memsz)
    ensures Collected(pages + more, phdrs[..i + 1])
  {
    hide RoundUp;
    var all, part := pages + more, phdrs[..i + 1];
    WiderCollection(pages, phdrs[..i], part);
    forall k | 0 <= k < |more|
      ensures InSegment(more[k], phdrs[i]) && more[k] !in pages
    {
      forall x | 0 <= x < |pages|
        ensures pages[x] != more[k]
      {
        assert InSome(pages[x], phdrs[..i]);
      }
    }
    forall k | 0 <= k < |all|
      ensures InSome(all[k], part)
      ensures InWindow(all[k]) && all[k] % PAGE_SIZE == 0
    {
      if k >= |pages| {
        assert InSegment(all[k], part[i]);
      } else {
        assert all[k] == pages[k];
      }
    }
  }

  /** What one more segment adds to the state of the loop, finished or not. */
  lemma SegmentCollected(start: seq<u8>, before: seq<u8>, after: seq<u8>, image: seq<u8>, phdrs: seq<Phdr>, i: nat,
                         pages: seq<u64>, more: seq<u64>)
    requires i < |phdrs| && phdrs[i].ptype == PT_LOAD && AllLoadable(image, phdrs) && SegmentsApart(phdrs)
    requires AllInPlace(before, image, phdrs[..i]) && Collected(pages, phdrs[..i])
    requires OnlyPagesChanged(start, before, pages) && |after| >= WINDOW_END + PAGE_SIZE
    requires ArePages(more, phdrs[i]) && |more| * PAGE_SIZE <= RoundUp(phdrs[i].memsz)
    requires SegmentStored(before, after, image, phdrs[i], |more| * PAGE_SIZE)
    ensures |more| * PAGE_SIZE == RoundUp(phdrs[i].memsz) ==> AllInPlace(after, image, phdrs[..i + 1])
    ensures OnlyPagesChanged(start, after, pages + more)
    ensures Collected(pages + more, phdrs[..i + 1])
  {
    hide RoundUp, SegmentInPlace, SegmentStored, OnlyPagesChanged, Collected, ArePages;
    forall j | 0 <= j < i && phdrs[j].ptype == PT_LOAD
      ensures SegmentInPlace(after, image, phdrs[j])
    {
      assert phdrs[..i][j] == phdrs[j];
      SegmentKept(before, after, image, phdrs[i], |more| * PAGE_SIZE, phdrs[j]);
    }
    if |more| * PAGE_SIZE == RoundUp(phdrs[i].memsz) {
      SegmentDone(before, after, image, phdrs[i], more);
    }
    ChangesCollected(start, before, after, image, phdrs[i], pages, more);
    PagesCollected(phdrs, i, pages, more);
  }

  ghost predicate SignalIsSet(memory: seq<u8>) {
    && |memory| >= SIGNAL_ADDRESS + 4
    && memory[SIGNAL_ADDRESS] == 0xEF && memory[SIGNAL_ADDRESS + 1] == 0xBE
    && memory[SIGNAL_ADDRESS + 2] == 0xAD && memory[SIGNAL_ADDRESS + 3] == 0xDE
  }

  predicate PageIn(ph: Phdr, k: nat) {
    0x40_0000 <= ph.vaddr + k * 0x1000 <= 0x50_0000
  }

  ghost predicate AllPagesIn(ph: Phdr) {
    forall k: nat :: k * 0x1000 < ph.memsz ==> PageIn(ph, k)
  }

  /** Every page of every loadable segment lies at 0x400000 up to 0x500000. */
  ghost predicate PagesFit(phdrs: seq<Phdr>) {
    forall i :: 0 <= i < |phdrs| && phdrs[i].ptype == 1 ==> AllPagesIn(phdrs[i])
  }

  ghost predicate SegmentLoaded(memory: seq<u8>, image: seq<u8>, ph: Phdr) {
    var stop := (ph.memsz + 0xFFF) / 0x1000 * 0x1000;
    var n := Min(ph.filesz, stop);
    && ph.vaddr + stop <= |memory| && ph.offset + n <= |image|
    && memory[ph.vaddr..ph.vaddr + n] == image[ph.offset..ph.offset + n]
    && forall a :: ph.vaddr + n <= a < ph.vaddr + stop ==> memory[a] == 0
  }

  /** A memory image as the specification describes it: the file bytes of a segment at its address, then zeros up to the
      end of its last page. */
  ghost predicate ImageLoaded(memory: seq<u8>, image: seq<u8>, phdrs: seq<Phdr>) {
    forall i :: 0 <= i < |phdrs| && phdrs[i].ptype == 1 && phdrs[i].memsz > 0 ==> SegmentLoaded(memory, image, phdrs[i])
  }

  lemma InPlaceIsLoaded(memory: seq<u8>, image: seq<u8>, ph: Phdr)
    requires SegmentInPlace(memory, image, ph) && IsLoadable(image, ph) && ph.ptype == PT_LOAD && ph.memsz > 0
    ensures SegmentLoaded(memory, image, ph)
  {
    var stop := RoundUp(ph.memsz);
    var n := Min(ph.filesz, stop);
    forall a | ph.vaddr <= a < ph.vaddr + stop
      ensures memory[a] == if a < ph.vaddr + n then image[ph.offset + (a - ph.vaddr)] else 0
    {
      assert memory[ph.vaddr + (a - ph.vaddr)] == SegmentByte(image, ph, a - ph.vaddr);
    }
    var x, y := memory[ph.vaddr..ph.vaddr + n], image[ph.offset..ph.offset + n];
    forall k | 0 <= k < |x|
      ensures x[k] == y[k]
    {
      assert memory[ph.vaddr + k] == image[ph.offset + (ph.vaddr + k - ph.vaddr)];
    }
  }

  lemma AllInPlaceIsLoaded(memory: seq<u8>, image: seq<u8>, phdrs: seq<Phdr>)
    requires AllInPlace(memory, image, phdrs) && AllLoadable(image, phdrs)
    ensures ImageLoaded(memory, image, phdrs)
  {
    hide SegmentInPlace, SegmentLoaded, IsLoadable;
    forall i | 0 <= i < |phdrs| && phdrs[i].ptype == 1 && phdrs[i].memsz > 0
      ensures SegmentLoaded(memory, image, phdrs[i])
    {
      InPlaceIsLoaded(memory, image, phdrs[i]);
    }
  }

  lemma RoundUpBounds(n: nat)
    ensures n <= RoundUp(n) < n + PAGE_SIZE && RoundUp(n) % PAGE_SIZE == 0
  {
  }

  lemma FitsPageByPage(ph: Phdr)
    ensures FitsWindow(ph) <==> AllPagesIn(ph)
  {
    RoundUpBounds(ph.memsz);
    if ph.memsz > 0 {
      var last := (ph.memsz - 1) / 0x1000;
      assert RoundUp(ph.memsz) == (last + 1) * 0x1000;
      if AllPagesIn(ph) {
        assert PageIn(ph, 0) && PageIn(ph, last);
      }
    }
  }

  /** The header loops get through exactly when every page has its place. */
  lemma AllFitPageByPage(phdrs: seq<Phdr>)
    ensures AllFit(phdrs) <==> PagesFit(phdrs)
  {
    hide FitsWindow, AllPagesIn;
    forall i | 0 <= i < |phdrs|
      ensures FitsWindow(phdrs[i]) <==> AllPagesIn(phdrs[i])
    {
      FitsPageByPage(phdrs[i]);
    }
  }

  /** What a load that reaches its entry leaves in memory. */
  ghost predicate IsFinishedLoad(before: seq<u8>, after: seq<u8>, image: seq<u8>, phdrs: seq<Phdr>) {
    && AllLoadable(image, phdrs) && SegmentsApart(phdrs) && AllFit(phdrs)
    && LoadChanges(before, after, LoadPages(phdrs), true)
    && AllInPlace(after, image, phdrs) && SignalIsSet(after)
  }

  // ---------- tables and pool under every load ----------

  /** No table lies in a reserved frame, and none can come to lie in one. */
  ghost predicate KeptApart(tables: Memory, root: nat, o: Owners, first: nat) {
    forall f: nat :: Reserved(f) ==> !IsTable(tables, root, f) && !IsFree(o, first, f)
  }

  /** No byte of a table or of any free frame of the pool has changed. */
  ghost predicate MissesPool(before: seq<u8>, after: seq<u8>, tables: Memory, root: nat, o: Owners, first: nat) {
    && |after| == |before|
    && forall a :: 0 <= a < |before| && after[a] != before[a] ==>
         !IsTable(tables, root, a / PAGE_SIZE) && !IsFree(o, first, a / PAGE_SIZE)
  }

  /** Then a load is clear of all tables and of all free frames. */
  lemma KeptApartMeansClear(tables: Memory, root: nat, o: Owners, first: nat, pages: seq<u64>, n: nat)
    requires KeptApart(tables, root, o, first) && forall p :: p in pages ==> InWindow(p) || p == SIGNAL_ADDRESS
    ensures ClearOf(tables, root, o, first, pages, n)
  {
    hide IsTable, IsFree;
    assert forall p :: p in pages ==> Reserved(p / PAGE_SIZE);
  }

  /** Making tables does not end it. */
  lemma KeptApartStays(a: Memory, o: Owners, b: Memory, o': Owners, root: nat, first: nat, pid: int, n: nat)
    requires KeptApart(a, root, o, first) && Took(a, o, b, o', root, first, pid, n) && pid != 0
    ensures KeptApart(b, root, o', first)
  {
    hide IsTable, AllocMany, CountFree, Reserved, KeepsLinks, AddsPlainLinks;
    AllocManyTakesTheLowest(o, pid, n);
    assert forall f: nat :: IsFree(o', first, f) ==> IsFree(o, first, f);
  }

  /** Memory after the load of the program at frame f whose one byte is b. */
  function LoadedAt(before: seq<u8>, b: u8, f: nat): (after: seq<u8>)
    ensures |after| == |before|
  {
    seq(|before|, a requires 0 <= a < |before| =>
      if SIGNAL_ADDRESS <= a < SIGNAL_ADDRESS + 4 then [0xEF, 0xBE, 0xAD, 0xDE][a - SIGNAL_ADDRESS]
      else if f == SIGNAL_ADDRESS / PAGE_SIZE || a / PAGE_SIZE != f then before[a]
      else if a == f * PAGE_SIZE then b else 0)
  }

  lemma OnePageProgram(b: u8, f: nat)
    requires Reserved(f) && f != SIGNAL_ADDRESS / PAGE_SIZE
    ensures AllLoadable([b], ProgramAt(f)) && AllFit(ProgramAt(f)) && LoadPages(ProgramAt(f)) == [f * PAGE_SIZE]
    ensures RoundUp(1) == PAGE_SIZE
  {
    var ph := ProgramAt(f)[0];
    assert RoundUp(1) == PAGE_SIZE;
    assert SegmentPages(ph, PAGE_SIZE) == [];
    assert SegmentPages(ph, 0) == [f * PAGE_SIZE];
    assert LoadPages([]) == [];
  }

  /** For every reserved frame and every memory there is a program that is loaded to its end in this way. */
  lemma ProgramIsLoaded(before: seq<u8>, b: u8, f: nat)
    requires Reserved(f) && |before| >= WINDOW_END + PAGE_SIZE
    ensures IsFinishedLoad(before, LoadedAt(before, b, f), [b], ProgramAt(f))
  {
    hide RoundUp, SegmentPages, LoadPages;
    if f == SIGNAL_ADDRESS / PAGE_SIZE {
      assert ProgramAt(f) == [];
    } else {
      OnePageProgram(b, f);
    }
  }

  /** A load writes to reserved frames only. */
  lemma FinishedLoadStays(before: seq<u8>, after: seq<u8>, image: seq<u8>, phdrs: seq<Phdr>)
    requires IsFinishedLoad(before, after, image, phdrs)
    ensures |after| == |before|
    ensures forall a :: 0 <= a < |before| && after[a] != before[a] ==> Reserved(a / PAGE_SIZE)
  {
    hide AllLoadable, SegmentsApart, AllFit, LoadPages, AllInPlace, SignalIsSet;
    LoadPagesInWindow(phdrs);
    forall a | 0 <= a < |before| && after[a] != before[a]
      ensures Reserved(a / PAGE_SIZE)
    {
      if a / PAGE_SIZE * PAGE_SIZE in LoadPages(phdrs) {
        assert InWindow(a / PAGE_SIZE * PAGE_SIZE);
      }
    }
  }

  lemma LoadedByte(before: seq<u8>, b: u8, f: nat)
    requires Reserved(f) && |before| >= WINDOW_END + PAGE_SIZE
    ensures f * PAGE_SIZE < |before|
    ensures f * PAGE_SIZE / PAGE_SIZE == f
    ensures LoadedAt(before, b, f)[f * PAGE_SIZE] == if f == SIGNAL_ADDRESS / PAGE_SIZE then 0xEF else b
  {
  }

  /** The tables and all free frames of the pool come through every load unharmed exactly if none of them is one of the
      258 frames that a load may write to. */
  lemma LoadsMissPoolIffKeptApart(tables: Memory, root: nat, o: Owners, first: nat)
    ensures KeptApart(tables, root, o, first)
       <==> forall before, after, image, phdrs :: IsFinishedLoad(before, after, image, phdrs) ==>
              MissesPool(before, after, tables, root, o, first)
  {
    hide IsTable, IsFree, IsFinishedLoad, Reserved;
    if KeptApart(tables, root, o, first) {
      forall before, after, image, phdrs | IsFinishedLoad(before, after, image, phdrs)
        ensures MissesPool(before, after, tables, root, o, first)
      {
        FinishedLoadStays(before, after, image, phdrs);
      }
    } else {
      var f: nat :| Reserved(f) && (IsTable(tables, root, f) || IsFree(o, first, f));
      var before := seq(WINDOW_END + PAGE_SIZE, _ => 0);
      ProgramIsLoaded(before, 7, f);
      LoadedByte(before, 7, f);
      assert !MissesPool(before, LoadedAt(before, 7, f), tables, root, o, first);
    }
  }

  lemma SignalBytes(memory: seq<u8>)
    requires SignalIsSet(memory)
    ensures |memory| >= 0x10_0004 && memory[0x10_0000..0x10_0004] == [0xEF, 0xBE, 0xAD, 0xDE]
  {
  }

  lemma NothingToLoad(m: seq<u8>, v: map<nat, u64>, record: seq<u64>)
    requires |record| <= MAX_RECORDED
    ensures LoadChanges(m, m, [], false) && DistinctWindowPages([])
    ensures Mapped(v, [], 3) == v && Recorded(record, []) == record
  {
    assert record + [] == record;
  }

  lemma NothingForUser(m: seq<u8>, v: map<nat, u64>)
    ensures OnlyPagesChanged(m, m, []) && Mapped(v, [], 7) == v
  {
  }

  lemma PageEntryIsLeaf(virt: u64, attributes: u64)
    ensures PageEntry(virt, attributes) == LeafEntry(virt, attributes)
  {
  }

  lemma PagesChangedOnly(before: seq<u8>, after: seq<u8>, pages: seq<u64>)
    requires OnlyPagesChanged(before, after, pages)
    ensures LoadChanges(before, after, pages, false)
  {
  }

  lemma SignalWritten(start: seq<u8>, loaded: seq<u8>, now: seq<u8>, image: seq<u8>, phdrs: seq<Phdr>, pages: seq<u64>)
    requires LoadChanges(start, loaded, pages, false) && AllInPlace(loaded, image, phdrs)
    requires |now| == |loaded| >= WINDOW_END
    requires forall a :: 0 <= a < |loaded| ==>
               now[a] == if SIGNAL_ADDRESS <= a < SIGNAL_ADDRESS + 4 then [0xEF, 0xBE, 0xAD, 0xDE][a - SIGNAL_ADDRESS]
                         else loaded[a]
    ensures LoadChanges(start, now, pages, true) && AllInPlace(now, image, phdrs) && SignalIsSet(now)
  {
    hide RoundUp, SegmentByte;
  }

  /** A record with room for the 257 pages of the window takes every page of a load. */
  lemma RecordHoldsAll(record: seq<u64>, pages: seq<u64>)
    requires DistinctWindowPages(pages) && |record| + 257 <= 4096
    ensures Recorded(record, pages) == record + pages
  {
    WindowHolds257(pages);
  }

  ghost predicate NotRecorded(virt: u64, record: seq<u64>) {
    forall x :: x in record ==> Page(x) != Page(virt)
  }

  /** The signal page outlasts an unload exactly if it has not been recorded itself. */
  lemma SignalPageStays(m: map<nat, u64>, record: seq<u64>, pages: seq<u64>, entry: u64)
    requires DistinctWindowPages(pages)
    ensures Unmapped(m[Page(SIGNAL_ADDRESS) := entry], record + pages)
         == if NotRecorded(SIGNAL_ADDRESS, record) then Unmapped(m, record + pages)[Page(SIGNAL_ADDRESS) := entry]
            else Unmapped(m, record + pages)
  {
    WindowAddress(SIGNAL_ADDRESS);
    forall x | x in pages
      ensures Page(x) != Page(SIGNAL_ADDRESS)
    {
      WindowAddress(x);
    }
    assert NotRecorded(SIGNAL_ADDRESS, record) <==> NotRecorded(SIGNAL_ADDRESS, record + pages);
    hide Page;
  }

  lemma OutsideMeansNoFit(ph: Phdr, k: nat)
    requires (k + 1) * PAGE_SIZE <= RoundUp(ph.memsz)
    requires !InWindow((ph.vaddr + k * PAGE_SIZE) % 0x1_0000_0000_0000_0000)
    ensures !FitsWindow(ph)
  {
    hide RoundUp;
  }

  lemma CompleteMeansFit(ph: Phdr, pages: seq<u64>)
    requires ArePages(pages, ph) && |pages| * PAGE_SIZE == RoundUp(ph.memsz)
    ensures FitsWindow(ph)
  {
    hide RoundUp;
    if pages != [] {
      assert InWindow(pages[0]) && InWindow(pages[|pages| - 1]);
    }
  }

  lemma RoundUpStep(n: nat, pages: nat)
    requires pages * PAGE_SIZE < n
    ensures (pages + 1) * PAGE_SIZE <= RoundUp(n)
  {
  }

  datatype LoadState = State(memory: seq<u8>, pages: map<nat, u64>, record: seq<u64>)

  /** What loading these pages of a segment has done to memory, mappings and record. */
  ghost predicate SegmentState(start: LoadState, now: LoadState, image: seq<u8>, ph: Phdr, attributes: u64,
                               pages: seq<u64>) {
    && SegmentStored(start.memory, now.memory, image, ph, |pages| * PAGE_SIZE)
    && now.pages == Mapped(start.pages, pages, attributes)
    && now.record == Recorded(start.record, pages)
  }

  lemma StateStarts(s: LoadState, image: seq<u8>, ph: Phdr, attributes: u64)
    requires |s.record| <= MAX_RECORDED
    ensures SegmentState(s, s, image, ph, attributes, [])
  {
    assert s.record + [] == s.record;
  }

  /** One page holds its part of the segment and the rest is as before. */
  ghost predicate PageStored(before: seq<u8>, after: seq<u8>, image: seq<u8>, ph: Phdr, off: nat) {
    && |after| == |before|
    && forall a :: 0 <= a < |before| ==>
         after[a] == if ph.vaddr + off <= a < ph.vaddr + off + PAGE_SIZE then SegmentByte(image, ph, a - ph.vaddr)
                     else before[a]
  }

  lemma PageBehind(before: seq<u8>, m: seq<u8>, after: seq<u8>, image: seq<u8>, ph: Phdr, off: nat)
    requires SegmentStored(before, m, image, ph, off) && PageStored(m, after, image, ph, off)
    ensures SegmentStored(before, after, image, ph, off + PAGE_SIZE)
  {
  }

  lemma MappedSnoc(m: map<nat, u64>, pages: seq<u64>, virt: u64, attributes: u64)
    ensures Mapped(m, pages + [virt], attributes)
         == Mapped(m, pages, attributes)[Page(virt) := PageEntry(virt, attributes)]
  {
    assert (pages + [virt])[..|pages|] == pages;
  }

  lemma RecordedSnoc(record: seq<u64>, pages: seq<u64>, virt: u64)
    ensures Recorded(Recorded(record, pages), [virt]) == Recorded(record, pages + [virt])
  {
    assert record + (pages + [virt]) == record + pages + [virt];
  }

  lemma StateStep(start: LoadState, before: LoadState, now: LoadState, image: seq<u8>, ph: Phdr, attributes: u64,
                  pages: seq<u64>, virt: u64, off: nat)
    requires SegmentState(start, before, image, ph, attributes, pages)
    requires off == |pages| * PAGE_SIZE
    requires PageStored(before.memory, now.memory, image, ph, off)
    requires now.pages == before.pages[Page(virt) := PageEntry(virt, attributes)]
    requires now.record == Recorded(before.record, [virt])
    ensures SegmentState(start, now, image, ph, attributes, pages + [virt])
  {
    hide PageStored, SegmentStored, Mapped, Recorded, PageEntry, Page;
    PageBehind(start.memory, before.memory, now.memory, image, ph, |pages| * PAGE_SIZE);
    MappedSnoc(start.pages, pages, virt, attributes);
    RecordedSnoc(start.record, pages, virt);
  }

  lemma StateMeans(start: LoadState, now: LoadState, image: seq<u8>, ph: Phdr, attributes: u64, pages: seq<u64>)
    requires SegmentState(start, now, image, ph, attributes, pages)
    ensures SegmentStored(start.memory, now.memory, image, ph, |pages| * PAGE_SIZE)
    ensures now.pages == Mapped(start.pages, pages, attributes) && now.record == Recorded(start.record, pages)
  {
  }

  lemma RecordedAppend(record: seq<u64>, a: seq<u64>, b: seq<u64>)
    ensures Recorded(Recorded(record, a), b) == Recorded(record, a + b)
  {
    assert record + (a + b) == record + a + b;
  }

  lemma EntryFrame(virt: u64, attributes: u64)
    ensures FrameOf(PageEntry(virt, attributes)) == FrameOf(virt)
  {
  }

  lemma FileBytesAreThere(image: seq<u8>, ph: Phdr, off: nat)
    requires IsLoadable(image, ph) && ph.ptype == PT_LOAD && off % PAGE_SIZE == 0 && off < ph.memsz && off < ph.filesz
    ensures ph.offset + off + Min(PAGE_SIZE, ph.filesz - off) <= |image|
  {
  }

  lemma PageIsStored(before: seq<u8>, after: seq<u8>, image: seq<u8>, ph: Phdr, off: nat, n: nat)
    requires ph.vaddr + off + PAGE_SIZE <= |before| == |after|
    requires n == if off < ph.filesz then Min(PAGE_SIZE, ph.filesz - off) else 0
    requires n > 0 ==> ph.offset + off + n <= |image|
    requires forall a :: 0 <= a < |before| ==>
               after[a] == if ph.vaddr + off <= a < ph.vaddr + off + n
                           then image[ph.offset + off + (a - ph.vaddr - off)]
                           else if ph.vaddr + off + n <= a < ph.vaddr + off + PAGE_SIZE then 0
                           else before[a]
    ensures PageStored(before, after, image, ph, off)
  {
  }

  /** The page loop has come to `off` with these pages behind it. */
  ghost predicate Midway(ph: Phdr, pages: seq<u64>, off: nat) {
    && off == |pages| * PAGE_SIZE <= RoundUp(ph.memsz)
    && SegmentPages(ph, 0) == pages + SegmentPages(ph, off)
    && ArePages(pages, ph)
    && (off > 0 ==> ph.vaddr + off <= WINDOW_END + PAGE_SIZE)
  }

  lemma MidwayStarts(ph: Phdr)
    ensures Midway(ph, [], 0)
  {
  }

  lemma NoWrap(vaddr: u64, off: nat)
    requires off > 0 ==> vaddr + off <= WINDOW_END + PAGE_SIZE
    ensures (vaddr + off) % 0x1_0000_0000_0000_0000 == vaddr + off
  {
  }

  /** One more page, or the first one outside the window. */
  lemma MidwayStep(image: seq<u8>, ph: Phdr, pages: seq<u64>, off: nat, later: seq<u64>)
    requires Midway(ph, pages, off) && off < ph.memsz && IsLoadable(image, ph) && ph.ptype == PT_LOAD
    ensures off == |pages| * PAGE_SIZE && off % PAGE_SIZE == 0
    ensures (ph.vaddr + off) % 0x1_0000_0000_0000_0000 == ph.vaddr + off
    ensures var virt := ph.vaddr + off;
      if InWindow(virt) then
        && Midway(ph, pages + [virt], off + PAGE_SIZE) && off + PAGE_SIZE < 0x1_0000_0000_0000_0000
        && SegmentPages(ph, off) + later == [virt] + (SegmentPages(ph, off + PAGE_SIZE) + later)
      else
        && !FitsWindow(ph) && ArePages(pages, ph) && |pages| * PAGE_SIZE < RoundUp(ph.memsz)
        && SegmentPages(ph, 0) == pages && SegmentPages(ph, off) + later == later
  {
    hide RoundUp, IsLoadable, FitsWindow;
    NoWrap(ph.vaddr, off);
    RoundUpStep(ph.memsz, |pages|);
    if InWindow(ph.vaddr + off) {
      var rest := SegmentPages(ph, off + PAGE_SIZE);
      assert pages + ([ph.vaddr + off] + rest) == pages + [ph.vaddr + off] + rest;
    } else {
      OutsideMeansNoFit(ph, |pages|);
      assert [] + later == later;
    }
  }

  lemma MidwayEnds(ph: Phdr, pages: seq<u64>, off: nat, later: seq<u64>)
    requires Midway(ph, pages, off) && off >= ph.memsz
    ensures ArePages(pages, ph) && |pages| * PAGE_SIZE == RoundUp(ph.memsz) && FitsWindow(ph)
    ensures SegmentPages(ph, 0) == pages && SegmentPages(ph, off) + later == later
  {
    hide RoundUp;
    RoundUpBounds(ph.memsz);
    CompleteMeansFit(ph, pages);
    assert [] + later == later;
  }

  /** The pages of the segments behind this one, if the load gets there. */
  function PagesBehind(phdrs: seq<Phdr>, i: nat): seq<u64>
    requires i < |phdrs|
  {
    if FitsWindow(phdrs[i]) then LoadPages(phdrs[i + 1..]) else []
  }

  lemma NextSegment(phdrs: seq<Phdr>, i: nat, later: seq<u64>)
    requires i < |phdrs|
    ensures phdrs[i].ptype != PT_LOAD ==> LoadPages(phdrs[i..]) == LoadPages(phdrs[i + 1..])
    ensures phdrs[i].ptype == PT_LOAD ==>
      && LoadPages(phdrs[i..]) == SegmentPages(phdrs[i], 0) + PagesBehind(phdrs, i)
      && LoadPages(phdrs[i..]) + later == SegmentPages(phdrs[i], 0) + (PagesBehind(phdrs, i) + later)
    ensures !FitsWindow(phdrs[i]) ==> PagesBehind(phdrs, i) + later == later
  {
    hide FitsWindow, SegmentPages;
    assert phdrs[i..][0] == phdrs[i] && phdrs[i..][1..] == phdrs[i + 1..];
  }

  lemma NoSegmentLeft(later: seq<u64>)
    ensures LoadPages([]) == [] && LoadPages([]) + later == later
  {
  }

  lemma NothingNeededBy(tables: Memory, root: nat)
    ensures MapsOf([]) == [] && Need(tables, root, []) == 0
  {
    NothingNeeded(tables, root);
  }

  lemma AllTaken(a: Memory, o: Owners, b: Memory, o': Owners, root: nat, first: nat, pid: int, pages: seq<u64>)
    requires Spent(a, o, b, o', root, first, pid, MapsOf(pages), MapsOf([]))
    ensures Took(a, o, b, o', root, first, pid, Need(a, root, pages))
  {
    hide Spent, Took;
    NothingNeededBy(b, root);
    AllSpent(a, o, b, o', root, first, pid, MapsOf(pages));
  }

  lemma NothingMissed(m: seq<u8>, tables: Memory, root: nat, o: Owners, first: nat, n: nat)
    ensures MissesTables(m, m, tables, root, o, first, n)
  {
  }

  lemma {:induction false} LoadedPagesAreMapped(m: map<nat, u64>, pages: seq<u64>, attributes: u64)
    requires DistinctWindowPages(pages)
    ensures forall p :: p in pages ==>
      Page(p) in Mapped(m, pages, attributes) && Mapped(m, pages, attributes)[Page(p)] == PageEntry(p, attributes)
    decreases |pages|
  {
    hide Page, LeafEntry, PageEntry;
    if pages != [] {
      var init, last := pages[..|pages| - 1], pages[|pages| - 1];
      LoadedPagesAreMapped(m, init, attributes);
      forall k | 0 <= k < |init|
        ensures Page(init[k]) != Page(last)
      {
        assert pages[k] != last;
        WindowAddress(init[k]);
        WindowAddress(last);
      }
    }
  }

  lemma LoadedPagesAreUser(pages: seq<u64>)
    ensures forall p :: p in pages ==> UserBit(PageEntry(p, 7))
  {
    forall p | p in pages
      ensures UserBit(PageEntry(p, 7))
    {
      LeafUserBit(p, 7);
    }
  }

  /** Every loaded page is found by the processor at its own address, unless a large page lies on the way. */
  ghost predicate PagesFound(a: Memory, b: Memory, root: nat, pages: seq<u64>, attributes: u64) {
    forall p :: p in pages ==> MapsTo(a, b, root, p, p, attributes)
  }

  lemma NoPagesFound(a: Memory, b: Memory, root: nat, attributes: u64)
    ensures PagesFound(a, b, root, [], attributes)
  {
  }

  lemma LoadedPagesAreFound(a: Memory, b: Memory, root: nat, m: map<nat, u64>, pages: seq<u64>, attributes: u64)
    requires forall v: u64 :: WalkAgrees(a, b, root, v)
    requires DistinctWindowPages(pages)
    requires View(b, root) == Mapped(m, pages, attributes)
          || View(b, root) == Mapped(m, pages, attributes)[Page(SIGNAL_ADDRESS) := PageEntry(SIGNAL_ADDRESS, 3)]
    ensures PagesFound(a, b, root, pages, attributes)
  {
    hide WalkAgrees, Mapped, PageEntry, Page, MapsTo, Lookup, LeafEntry;
    LoadedPagesAreMapped(m, pages, attributes);
    WindowAddress(SIGNAL_ADDRESS);
    forall p | p in pages
      ensures MapsTo(a, b, root, p, p, attributes)
    {
      WindowAddress(p);
      PageEntryIsLeaf(p, attributes);
      assert Page(p) in View(b, root);
      HardwareAtNewPage(a, b, root, p, p, attributes);
    }
  }

  // ---------- which pages a load maps ----------

  predicate IsSegmentPage(phdrs: seq<Phdr>, i: nat, k: nat, p: nat) {
    i < |phdrs| && phdrs[i].ptype == 1 && k * 0x1000 < phdrs[i].memsz && p == phdrs[i].vaddr + k * 0x1000
  }

  lemma InWindowIs(ph: Phdr, k: nat)
    requires PageIn(ph, k)
    ensures var virt := (ph.vaddr + k * 0x1000) % 0x1_0000_0000_0000_0000;
      virt == ph.vaddr + k * 0x1000 && InWindow(virt)
  {
  }

  lemma {:induction false} PagesOfSegment(ph: Phdr, from: nat, k: nat)
    requires AllPagesIn(ph) && from <= k && k * 0x1000 < ph.memsz
    ensures ph.vaddr + k * 0x1000 in SegmentPages(ph, from * 0x1000)
    decreases k - from
  {
    hide PageIn;
    assert PageIn(ph, from);
    InWindowIs(ph, from);
    if from < k {
      PagesOfSegment(ph, from + 1, k);
    }
  }

  /** A load that gets through maps every page of every loadable segment. */
  lemma {:induction false} EveryPageIsMapped(phdrs: seq<Phdr>, i: nat, k: nat, p: nat)
    requires PagesFit(phdrs) && IsSegmentPage(phdrs, i, k, p)
    ensures p in LoadPages(phdrs)
    decreases |phdrs|
  {
    hide FitsWindow, AllPagesIn, SegmentPages;
    FitsPageByPage(phdrs[0]);
    if i == 0 {
      PagesOfSegment(phdrs[0], 0, k);
    } else {
      assert PagesFit(phdrs[1..]);
      EveryPageIsMapped(phdrs[1..], i - 1, k, p);
    }
  }

  lemma {:induction false} OnlyPagesOfSegment(ph: Phdr, from: nat, p: u64)
    requires p in SegmentPages(ph, from * 0x1000) && (from > 0 ==> PageIn(ph, from - 1))
    ensures exists k: nat :: k * 0x1000 < ph.memsz && p == ph.vaddr + k * 0x1000
    decreases ph.memsz - from * 0x1000
  {
    var virt: u64 := (ph.vaddr + from * 0x1000) % 0x1_0000_0000_0000_0000;
    assert virt == ph.vaddr + from * 0x1000;
    if p != virt {
      assert PageIn(ph, from);
      OnlyPagesOfSegment(ph, from + 1, p);
    } else {
      assert from * 0x1000 < ph.memsz;
    }
  }

  /** And no load maps any other. */
  lemma {:induction false} NoOtherPageIsMapped(phdrs: seq<Phdr>, p: u64)
    requires p in LoadPages(phdrs)
    ensures exists i: nat, k: nat :: IsSegmentPage(phdrs, i, k, p)
    decreases |phdrs|
  {
    hide FitsWindow, SegmentPages;
    if phdrs[0].ptype == PT_LOAD && p in SegmentPages(phdrs[0], 0) {
      OnlyPagesOfSegment(phdrs[0], 0, p);
      var k: nat :| k * 0x1000 < phdrs[0].memsz && p == phdrs[0].vaddr + k * 0x1000;
      assert IsSegmentPage(phdrs, 0, k, p);
    } else {
      NoOtherPageIsMapped(phdrs[1..], p);
      var i: nat, k: nat :| IsSegmentPage(phdrs[1..], i, k, p);
      assert IsSegmentPage(phdrs, i + 1, k, p);
    }
  }

  class Loader {
    const space: AddressSpace
    /** Physical memory, by address; its table frames are what `space` holds, and no store of a load that `CanLoad`
        allows meets them. */
    const mem: array<u8>
    const loadedPages: array<u64>
    var loadedPageCount: nat
    /** 0 until the first load reaches its entry. */
    var signalBuffer: u64

    ghost predicate Valid()
      reads this, space, space.pmm, space.pmm.bitmap, space.pmm.pidTrace
    {
      && space.Valid()
      && mem.Length >= WINDOW_END + PAGE_SIZE && loadedPages.Length == MAX_RECORDED
      && loadedPageCount <= MAX_RECORDED
      && (signalBuffer == 0 || signalBuffer == SIGNAL_ADDRESS)
      && mem as object != loadedPages as object && Apart(mem) && Apart(loadedPages)
    }

    ghost predicate Apart(a: object)
      reads this, space.pmm
    {
      a != space.pmm.bitmap && a != space.pmm.pidTrace && a != space && a != space.pmm && a != this
    }

    /** The free frames suffice for the tables that these pages still need, with `spare` clean ones left. */
    ghost predicate Prepared(pages: seq<u64>, spare: nat)
      reads this, space, space.pmm, space.pmm.bitmap, space.pmm.pidTrace
    {
      Valid() && space.Ready(Need(space.mem, space.root, pages) + spare)
    }

    /** What a load asks of tables and pool: it can take the frames it needs and stays clear of them and of all tables.
        Nothing is asked of the other free frames. */
    ghost predicate CanLoad(pages: seq<u64>, spare: nat)
      reads this, space, space.pmm, space.pmm.bitmap, space.pmm.pidTrace
    {
      && Prepared(pages, spare)
      && ClearOf(space.mem, space.root, space.pmm.Owner(), space.pmm.base / 0x1000, pages,
                 Need(space.mem, space.root, pages) + spare)
    }

    /** Mapping has come from `pages` still to be done to `later`. */
    ghost predicate Spends(tables: Memory, o: Owners, pid: int, pages: seq<u64>, later: seq<u64>)
      requires space.pmm.totalPages <= space.pmm.pidTrace.Length
      reads this, space, space.pmm, space.pmm.pidTrace
    {
      Spent(tables, o, space.mem, space.pmm.Owner(), space.root, space.pmm.base / 0x1000, pid,
            MapsOf(pages), MapsOf(later))
    }

    ghost function Record(): seq<u64>
      requires loadedPageCount <= loadedPages.Length
      reads this, loadedPages
    {
      loadedPages[..loadedPageCount]
    }

    constructor (space: AddressSpace, mem: array<u8>)
      requires space.Valid() && mem.Length >= WINDOW_END + PAGE_SIZE
      requires mem as object != space.pmm.bitmap && mem as object != space.pmm.pidTrace
      ensures Valid() && loadedPageCount == 0 && signalBuffer == 0 && this.space == space && this.mem == mem
    {
      this.space, this.mem := space, mem;
      loadedPages := new u64[MAX_RECORDED](_ => 0);
      loadedPageCount, signalBuffer := 0, 0;
    }

    /** Drops an old mapping of the page and maps it to the frame of the same address; `later` are the pages that the
        load maps after it. */
    method MapIdentity(virt: u64, attributes: u64, currentPid: int, ghost later: seq<u64>, ghost spare: nat)
      requires Prepared([virt] + later, spare) && currentPid != 0
      modifies space`mem, space.pmm`freePages, space.pmm.bitmap, space.pmm.pidTrace
      ensures Prepared(later, spare)
      ensures Spends(old(space.mem), old(space.pmm.Owner()), currentPid, [virt] + later, later)
      ensures space.Pages() == old(space.Pages())[Page(virt) := PageEntry(virt, attributes)]
    {
      hide Node, View, MissingFrom, CountFree, KeepsLinks, SameTables, IsTree, FreeFramesAreClean, FrameAllocator.Agree,
           LeafEntry, Path, AddsOnly, Took, Spent, Needed, MapsOf;
      ghost var tables, o, first, ops := space.mem, space.pmm.Owner(), space.pmm.base / 0x1000, MapsOf([virt] + later);
      OnePageLess(virt, later);
      space.KiUMap(virt, |Needed(tables, space.root, ops)| + spare);
      SameTablesSpent(tables, o, space.mem, space.root, first, currentPid, ops);
      ghost var unmapped := space.mem;
      NeededForMap(unmapped, space.root, ops);
      space.KiMMap(virt, virt, attributes, currentPid,
                   |Needed(unmapped, space.root, ops)| - Missing(unmapped, space.root, Page(virt)) + spare);
      MapSpent(unmapped, o, space.mem, space.pmm.Owner(), space.root, first, currentPid, ops);
      SpentThenSpent(tables, o, unmapped, o, space.mem, space.pmm.Owner(), space.root, first, currentPid,
                     ops, ops, MapsOf(later));
    }

    /** Where the walk of the page tables leads. */
    method Translate(virt: u64) returns (phys: nat)
      requires Valid() && Page(virt) in space.Pages()
      ensures phys == FrameOf(space.Pages()[Page(virt)]) * PAGE_SIZE + virt % PAGE_SIZE
    {
      var entry: u64 := Lookup(space.mem, space.root, Page(virt)).value;
      phys := FrameOf(entry) * PAGE_SIZE + virt % PAGE_SIZE;
    }

    /** memcpy from the image, or memset to zero where the image ends: `text` at `phys`. */
    method Store(phys: nat, text: seq<u8>)
      requires phys + |text| <= mem.Length
      modifies mem
      ensures forall a :: 0 <= a < mem.Length ==>
        mem[a] == if phys <= a < phys + |text| then text[a - phys] else old(mem[a])
    {
      for i := 0 to |text|
        invariant forall a :: 0 <= a < mem.Length ==>
          mem[a] == if phys <= a < phys + i then text[a - phys] else old(mem[a])
      {
        mem[phys + i] := text[i];
      }
    }

    /** Copies the file bytes of one page and zeroes the rest of it. */
    method FillPage(phys: nat, image: seq<u8>, ph: Phdr, off: u64)
      requires phys + PAGE_SIZE <= mem.Length && phys == ph.vaddr + off
      requires IsLoadable(image, ph) && ph.ptype == PT_LOAD && off % PAGE_SIZE == 0 && off < ph.memsz
      modifies mem
      ensures PageStored(old(mem[..]), mem[..], image, ph, off)
    {
      hide IsLoadable, PageStored;
      var copySize := 0;
      if off < ph.filesz {
        copySize := if ph.filesz - off >= PAGE_SIZE then PAGE_SIZE else ph.filesz - off;
        FileBytesAreThere(image, ph, off);
        Store(phys, image[ph.offset + off..ph.offset + off + copySize]);
      }
      if copySize < PAGE_SIZE {
        Store(phys + copySize, seq(PAGE_SIZE - copySize, _ => 0));
      }
      PageIsStored(old(mem[..]), mem[..], image, ph, off, copySize);
    }

    /** Remembers the page while there is room. */
    method RecordPage(virt: u64)
      requires loadedPageCount <= loadedPages.Length == MAX_RECORDED
      modifies loadedPages, this`loadedPageCount
      ensures loadedPageCount <= MAX_RECORDED && Record() == Recorded(old(Record()), [virt])
      ensures Record() == if |old(Record())| < 4096 then old(Record()) + [virt] else old(Record())
    {
      if loadedPageCount < MAX_RECORDED {
        loadedPages[loadedPageCount] := virt;
        loadedPageCount := loadedPageCount + 1;
      }
      assert Record() == Recorded(old(Record()), [virt]);
    }

    /** One page of a segment: map it, record it, copy the file bytes, zero the rest. */
    method LoadPage(image: seq<u8>, ph: Phdr, off: u64, attributes: u64, currentPid: int,
                    ghost later: seq<u64>, ghost spare: nat)
      requires IsLoadable(image, ph) && ph.ptype == PT_LOAD && off < ph.memsz && InWindow(ph.vaddr + off)
      requires Prepared([ph.vaddr + off] + later, spare) && currentPid != 0 && off % PAGE_SIZE == 0
      modifies space`mem, space.pmm`freePages, space.pmm.bitmap, space.pmm.pidTrace
      modifies mem, loadedPages, this`loadedPageCount
      ensures Prepared(later, spare)
      ensures Spends(old(space.mem), old(space.pmm.Owner()), currentPid, [ph.vaddr + off] + later, later)
      ensures space.Pages() == old(space.Pages())[Page(ph.vaddr + off) := PageEntry(ph.vaddr + off, attributes)]
      ensures Record() == Recorded(old(Record()), [ph.vaddr + off])
      ensures PageStored(old(mem[..]), mem[..], image, ph, off)
    {
      hide Node, View, CountFree, IsTree, FreeFramesAreClean, FrameAllocator.Agree, LeafEntry, PageStored, FrameOf,
           Page, Recorded, Spent, Needed, MapsOf, MissingFrom, Need, PageEntry;
      var virt: u64 := ph.vaddr + off;
      WindowAddress(virt);
      MapIdentity(virt, attributes, currentPid, later, spare);
      RecordPage(virt);
      EntryFrame(virt, attributes);
      var phys := Translate(virt);
      assert phys == virt;
      FillPage(phys, image, ph, off);
    }

    /** The page loop of one segment; it gives up at the first page outside the window. */
    method LoadSegment(image: seq<u8>, ph: Phdr, attributes: u64, currentPid: int,
                       ghost later: seq<u64>, ghost spare: nat)
      returns (ok: bool, ghost pages: seq<u64>)
      requires Prepared(SegmentPages(ph, 0) + later, spare)
      requires currentPid != 0 && IsLoadable(image, ph) && ph.ptype == PT_LOAD
      modifies space`mem, space.pmm`freePages, space.pmm.bitmap, space.pmm.pidTrace
      modifies mem, loadedPages, this`loadedPageCount
      ensures Prepared(later, spare) && pages == SegmentPages(ph, 0)
      ensures Spends(old(space.mem), old(space.pmm.Owner()), currentPid, pages + later, later)
      ensures ArePages(pages, ph) && |pages| * PAGE_SIZE <= RoundUp(ph.memsz)
      ensures ok <==> |pages| * PAGE_SIZE == RoundUp(ph.memsz)
      ensures ok <==> FitsWindow(ph)
      ensures SegmentStored(old(mem[..]), mem[..], image, ph, |pages| * PAGE_SIZE)
      ensures space.Pages() == Mapped(old(space.Pages()), pages, attributes)
      ensures Record() == Recorded(old(Record()), pages)
    {
      hide View, IsTree, FreeFramesAreClean, FrameAllocator.Agree, PageStored, CountFree, PageEntry, RoundUp,
           SegmentState, Spent, Needed, MapsOf, SegmentPages, Need, IsLoadable, Recorded, Mapped, Page,
           AddressSpace.Ready, SegmentStored, ArePages, FitsWindow, Apart, FrameOf, LeafEntry, Midway;
      pages := [];
      ghost var start := State(mem[..], space.Pages(), Record());
      ghost var tables, o, first, all := space.mem, space.pmm.Owner(), space.pmm.base / 0x1000, SegmentPages(ph, 0);
      NothingSpent(tables, o, space.root, first, currentPid, MapsOf(all + later));
      StateStarts(start, image, ph, attributes);
      MidwayStarts(ph);
      var off: u64 := 0;
      while off < ph.memsz
        invariant Midway(ph, pages, off) && Prepared(SegmentPages(ph, off) + later, spare)
        invariant Spends(tables, o, currentPid, all + later, SegmentPages(ph, off) + later)
        invariant SegmentState(start, State(mem[..], space.Pages(), Record()), image, ph, attributes, pages)
        decreases ph.memsz - off
      {
        var virt: u64 := (ph.vaddr + off) % 0x1_0000_0000_0000_0000;
        MidwayStep(image, ph, pages, off, later);
        if virt < WINDOW_START || virt > WINDOW_END {
          StateMeans(start, State(mem[..], space.Pages(), Record()), image, ph, attributes, pages);
          return false, pages;
        }
        ghost var before := State(mem[..], space.Pages(), Record());
        ghost var m, owners, rest := space.mem, space.pmm.Owner(), SegmentPages(ph, off + PAGE_SIZE) + later;
        LoadPage(image, ph, off, attributes, currentPid, rest, spare);
        SpentThenSpent(tables, o, m, owners, space.mem, space.pmm.Owner(), space.root, first, currentPid,
                       MapsOf(all + later), MapsOf([virt] + rest), MapsOf(rest));
        StateStep(start, before, State(mem[..], space.Pages(), Record()), image, ph, attributes, pages, virt, off);
        pages := pages + [virt];
        off := off + PAGE_SIZE;
      }
      StateMeans(start, State(mem[..], space.Pages(), Record()), image, ph, attributes, pages);
      MidwayEnds(ph, pages, off, later);
      ok := true;
    }

    /** The program header loop of LoadKernelElf and LoadUserElf. */
    method LoadSegments(phdrs: seq<Phdr>, image: seq<u8>, attributes: u64, currentPid: int,
                        ghost later: seq<u64>, ghost spare: nat)
      returns (ok: bool, ghost pages: seq<u64>)
      requires Prepared(LoadPages(phdrs) + later, spare)
      requires currentPid != 0 && AllLoadable(image, phdrs) && SegmentsApart(phdrs)
      modifies space`mem, space.pmm`freePages, space.pmm.bitmap, space.pmm.pidTrace
      modifies mem, loadedPages, this`loadedPageCount
      ensures Prepared(later, spare) && pages == LoadPages(phdrs)
      ensures Spends(old(space.mem), old(space.pmm.Owner()), currentPid, pages + later, later)
      ensures ok <==> AllFit(phdrs)
      ensures ok ==> AllInPlace(mem[..], image, phdrs)
      ensures OnlyPagesChanged(old(mem[..]), mem[..], pages)
      ensures DistinctWindowPages(pages)
      ensures space.Pages() == Mapped(old(space.Pages()), pages, attributes)
      ensures Record() == Recorded(old(Record()), pages)
    {
      hide View, IsTree, FreeFramesAreClean, FrameAllocator.Agree, SegmentStored, Recorded, Mapped, CountFree, RoundUp,
           AllInPlace, OnlyPagesChanged, Collected, ArePages, IsLoadable, SegmentsApart, FitsWindow, Spent, Needed,
           MapsOf, SegmentPages, LoadPages;
      pages := [];
      ghost var tables, o, first, all := space.mem, space.pmm.Owner(), space.pmm.base / 0x1000, LoadPages(phdrs);
      NothingSpent(tables, o, space.root, first, currentPid, MapsOf(all + later));
      NothingCollected(mem[..], image, phdrs, Record(), space.Pages(), attributes);
      assert phdrs[0..] == phdrs;
      for i := 0 to |phdrs|
        invariant all == pages + LoadPages(phdrs[i..]) && Prepared(LoadPages(phdrs[i..]) + later, spare)
        invariant Spends(tables, o, currentPid, all + later, LoadPages(phdrs[i..]) + later)
        invariant forall j :: 0 <= j < i && phdrs[j].ptype == PT_LOAD ==> FitsWindow(phdrs[j])
        invariant AllInPlace(mem[..], image, phdrs[..i])
        invariant OnlyPagesChanged(old(mem[..]), mem[..], pages)
        invariant Collected(pages, phdrs[..i])
        invariant space.Pages() == Mapped(old(space.Pages()), pages, attributes)
        invariant Record() == Recorded(old(Record()), pages)
      {
        var ph := phdrs[i];
        NextSegment(phdrs, i, later);
        if ph.ptype != PT_LOAD {
          SegmentSkipped(mem[..], image, phdrs, i, pages);
          continue;
        }
        assert IsLoadable(image, ph);
        ghost var before := mem[..];
        ghost var m, owners, rest := space.mem, space.pmm.Owner(), PagesBehind(phdrs, i) + later;
        var done, more := LoadSegment(image, ph, attributes, currentPid, rest, spare);
        SpentThenSpent(tables, o, m, owners, space.mem, space.pmm.Owner(), space.root, first, currentPid,
                       MapsOf(all + later), MapsOf(more + rest), MapsOf(rest));
        MappedAppend(old(space.Pages()), pages, more, attributes);
        RecordedAppend(old(Record()), pages, more);
        SegmentCollected(old(mem[..]), before, mem[..], image, phdrs, i, pages, more);
        pages := pages + more;
        if !done {
          CollectedAreDistinct(pages, phdrs[..i + 1]);
          return false, pages;
        }
      }
      assert phdrs[..|phdrs|] == phdrs && phdrs[|phdrs|..] == [];
      NoSegmentLeft(later);
      CollectedAreDistinct(pages, phdrs);
      ok := true;
    }

    /** Maps the signal page and writes the signal word through it. */
    method WriteSignal(currentPid: int, ghost spare: nat)
      requires Prepared([SIGNAL_ADDRESS], spare) && currentPid != 0
      modifies space`mem, space.pmm`freePages, space.pmm.bitmap, space.pmm.pidTrace
      modifies mem, this`signalBuffer
      ensures Prepared([], spare)
      ensures Spends(old(space.mem), old(space.pmm.Owner()), currentPid, [SIGNAL_ADDRESS], [])
      ensures space.Pages() == old(space.Pages())[Page(SIGNAL_ADDRESS) := PageEntry(SIGNAL_ADDRESS, 3)]
      ensures forall a :: 0 <= a < mem.Length ==>
        mem[a] == if SIGNAL_ADDRESS <= a < SIGNAL_ADDRESS + 4 then [0xEF, 0xBE, 0xAD, 0xDE][a - SIGNAL_ADDRESS]
                  else old(mem[a])
    {
      hide View, IsTree, FreeFramesAreClean, FrameAllocator.Agree, CountFree, Node, MissingFrom, KeepsLinks, PageEntry,
           LeafEntry, AddsOnly, Path, Took, Spent, Needed, MapsOf;
      if signalBuffer == 0 {
        signalBuffer := SIGNAL_ADDRESS;
      }
      PageEntryIsLeaf(SIGNAL_ADDRESS, 3);
      ghost var tables, o, ops := space.mem, space.pmm.Owner(), MapsOf([SIGNAL_ADDRESS]);
      OnePageLess(SIGNAL_ADDRESS, []);
      assert [SIGNAL_ADDRESS] + [] == [SIGNAL_ADDRESS];
      NeededForMap(tables, space.root, ops);
      space.KiMMap(signalBuffer, signalBuffer, 3, currentPid,
                   |Needed(tables, space.root, ops)| - Missing(tables, space.root, Page(SIGNAL_ADDRESS)) + spare);
      MapSpent(tables, o, space.mem, space.pmm.Owner(), space.root, space.pmm.base / 0x1000, currentPid, ops);
      WindowAddress(SIGNAL_ADDRESS);
      EntryFrame(SIGNAL_ADDRESS, 3);
      var phys := Translate(signalBuffer);
      assert phys == SIGNAL_ADDRESS;
      Store(phys, [0xEF, 0xBE, 0xAD, 0xDE]);
    }

    /** Loads and, unless something is wrong with the header or a page lies outside the window, writes the signal
        word and reaches the entry call.  A load that gives up keeps its pages mapped and recorded. */
    method LoadKernelElf(h: Ehdr, image: seq<u8>, currentPid: int, ghost spare: nat)
      returns (entered: bool, ghost pages: seq<u64>)
      requires CanLoad(KernelPages(h), spare)
      requires currentPid != 0 && AllLoadable(image, h.phdrs) && SegmentsApart(h.phdrs)
      modifies space`mem, space.pmm`freePages, space.pmm.bitmap, space.pmm.pidTrace
      modifies mem, loadedPages, this`loadedPageCount, this`signalBuffer
      ensures Valid() && space.Ready(spare) && DistinctWindowPages(pages)
      ensures Took(old(space.mem), old(space.pmm.Owner()), space.mem, space.pmm.Owner(), space.root,
                   space.pmm.base / 0x1000, currentPid, Need(old(space.mem), space.root, KernelPages(h)))
      ensures MissesTables(old(mem[..]), mem[..], old(space.mem), space.root, old(space.pmm.Owner()),
                           space.pmm.base / 0x1000, Need(old(space.mem), space.root, KernelPages(h)) + spare)
      ensures pages == (if IsAccepted(h) then LoadPages(h.phdrs) else [])
      ensures !IsProgram(h) ==> !entered && mem[..] == old(mem[..]) && space.mem == old(space.mem)
                                && space.pmm.Owner() == old(space.pmm.Owner()) && Record() == old(Record())
      ensures entered <==> IsProgram(h) && PagesFit(h.phdrs)
      ensures entered ==> ImageLoaded(mem[..], image, h.phdrs) && mem[0x10_0000..0x10_0004] == [0xEF, 0xBE, 0xAD, 0xDE]
      ensures entered ==> IsFinishedLoad(old(mem[..]), mem[..], image, h.phdrs)
      ensures LoadChanges(old(mem[..]), mem[..], pages, entered)
      ensures space.Pages() == var m := Mapped(old(space.Pages()), pages, 3);
        if entered then m[Page(SIGNAL_ADDRESS) := PageEntry(SIGNAL_ADDRESS, 3)] else m
      ensures PagesFound(old(space.mem), space.mem, space.root, pages, 3)
      ensures Record() == Recorded(old(Record()), pages)
    {
      hide MissesTables, ClearOf, View, IsTree, FreeFramesAreClean, FrameAllocator.Agree, Recorded, Mapped, CountFree,
           RoundUp, AllInPlace, DistinctWindowPages, LoadChanges, SignalIsSet, PageEntry, OnlyPagesChanged, AllFit,
           Spent, Took, Needed, MapsOf, LoadPages, AllLoadable, SegmentsApart, Page, Need, IsProgram, PagesFit,
           ImageLoaded, PagesFound, WalkAgrees;
      ghost var v := space.Pages();
      AcceptedIsProgram(h);
      AllFitPageByPage(h.phdrs);
      ghost var start, need := mem[..], Need(space.mem, space.root, KernelPages(h));
      ghost var tables, o, root, first := space.mem, space.pmm.Owner(), space.root, space.pmm.base / 0x1000;
      NothingToLoad(start, space.Pages(), Record());
      NothingSpent(tables, o, root, first, currentPid, MapsOf(KernelPages(h)));
      NothingNeededBy(tables, root);
      if !HasMagic(h) || (h.etype != ET_EXEC && !(h.etype == ET_DYN && h.entry != 0)) {
        AllTaken(tables, o, tables, o, root, first, currentPid, []);
        NothingMissed(start, tables, root, o, first, need + spare);
        NoPagesFound(tables, tables, root, 3);
        return false, [];
      }
      ghost var later := if AllFit(h.phdrs) then [SIGNAL_ADDRESS] else [];
      var ok;
      ok, pages := LoadSegments(h.phdrs, image, 3, currentPid, later, spare);
      ghost var loaded := mem[..];
      PagesChangedOnly(start, loaded, pages);
      NothingNeededBy(space.mem, root);
      if ok {
        ghost var m, owners := space.mem, space.pmm.Owner();
        WriteSignal(currentPid, spare);
        NothingNeededBy(space.mem, root);
        SpentThenSpent(tables, o, m, owners, space.mem, space.pmm.Owner(), root, first, currentPid,
                       MapsOf(KernelPages(h)), MapsOf(later), MapsOf([]));
        SignalWritten(start, loaded, mem[..], image, h.phdrs, pages);
        AllInPlaceIsLoaded(mem[..], image, h.phdrs);
        SignalBytes(mem[..]);
      }
      AllTaken(tables, o, space.mem, space.pmm.Owner(), root, first, currentPid, KernelPages(h));
      HardwareAfter(tables, o, space.mem, space.pmm.Owner(), root, first, currentPid, need);
      LoadedPagesAreFound(tables, space.mem, root, v, pages, 3);
      LoadMissesTables(start, mem[..], pages, ok, tables, root, o, first, need + spare);
      entered := ok;
    }

    /** LoadUserElf: the same loop with user pages, without a check of the file type and without the signal word.  A
        loaded page is within reach of user mode exactly if all its tables were there before, with open links: the
        tables that the load makes are closed. */
    method LoadUserElf(h: Ehdr, image: seq<u8>, currentPid: int, ghost spare: nat)
      returns (entered: bool, ghost pages: seq<u64>)
      requires CanLoad(UserPages(h), spare)
      requires currentPid != 0 && AllLoadable(image, h.phdrs) && SegmentsApart(h.phdrs)
      modifies space`mem, space.pmm`freePages, space.pmm.bitmap, space.pmm.pidTrace
      modifies mem, loadedPages, this`loadedPageCount
      ensures Valid() && space.Ready(spare) && DistinctWindowPages(pages) && pages == UserPages(h)
      ensures Took(old(space.mem), old(space.pmm.Owner()), space.mem, space.pmm.Owner(), space.root,
                   space.pmm.base / 0x1000, currentPid, Need(old(space.mem), space.root, pages))
      ensures MissesTables(old(mem[..]), mem[..], old(space.mem), space.root, old(space.pmm.Owner()),
                           space.pmm.base / 0x1000, Need(old(space.mem), space.root, pages) + spare)
      ensures !HasMagic(h) ==> !entered && mem[..] == old(mem[..]) && space.mem == old(space.mem)
                               && space.pmm.Owner() == old(space.pmm.Owner()) && Record() == old(Record())
      ensures entered <==> |h.ident| >= 4 && h.ident[..4] == [0x7F, 0x45, 0x4C, 0x46] && PagesFit(h.phdrs)
      ensures entered ==> ImageLoaded(mem[..], image, h.phdrs)
      ensures OnlyPagesChanged(old(mem[..]), mem[..], pages)
      ensures space.Pages() == Mapped(old(space.Pages()), pages, 7)
      ensures forall p :: p in pages ==>
        (UserAccessible(space.mem, space.root, Page(p)) <==> OpenPath(old(space.mem), space.root, Page(p)))
      ensures PagesFound(old(space.mem), space.mem, space.root, pages, 7)
      ensures Record() == Recorded(old(Record()), pages)
    {
      hide MissesTables, ClearOf, View, IsTree, FreeFramesAreClean, FrameAllocator.Agree, Recorded, Mapped, CountFree,
           AllInPlace, DistinctWindowPages, LoadChanges, OnlyPagesChanged, AllFit, Spent, Took, Needed, MapsOf,
           LoadPages, AllLoadable, SegmentsApart, UserAccessible, OpenPath, Page, PagesFit, ImageLoaded,
           PagesFound, WalkAgrees, PageEntry, UserBit;
      AcceptedIsProgram(h);
      AllFitPageByPage(h.phdrs);
      ghost var start, all, v := mem[..], UserPages(h), space.Pages();
      ghost var tables, o, root, first := space.mem, space.pmm.Owner(), space.root, space.pmm.base / 0x1000;
      NothingToLoad(start, v, Record());
      NothingForUser(start, v);
      NothingSpent(tables, o, root, first, currentPid, MapsOf(all));
      NothingNeededBy(tables, root);
      if !HasMagic(h) {
        AllTaken(tables, o, tables, o, root, first, currentPid, []);
        NothingMissed(start, tables, root, o, first, Need(tables, root, all) + spare);
        NoPagesFound(tables, tables, root, 7);
        return false, [];
      }
      assert all + [] == all;
      entered, pages := LoadSegments(h.phdrs, image, 7, currentPid, [], spare);
      NothingNeededBy(space.mem, root);
      AllTaken(tables, o, space.mem, space.pmm.Owner(), root, first, currentPid, all);
      PagesChangedOnly(start, mem[..], pages);
      LoadMissesTables(start, mem[..], pages, false, tables, root, o, first, Need(tables, root, all) + spare);
      UserPagesOf(tables, o, space.mem, space.pmm.Owner(), root, first, currentPid, Need(tables, root, all));
      LoadedPagesAreMapped(v, pages, 7);
      LoadedPagesAreUser(pages);
      HardwareAfter(tables, o, space.mem, space.pmm.Owner(), root, first, currentPid, Need(tables, root, all));
      LoadedPagesAreFound(tables, space.mem, root, v, pages, 7);
      if entered {
        AllInPlaceIsLoaded(mem[..], image, h.phdrs);
      }
    }

    method UnloadKernelElf(ghost spare: nat)
      requires Valid() && space.Ready(spare)
      modifies space`mem, loadedPages, this`loadedPageCount
      ensures Valid() && space.Ready(spare) && loadedPageCount == 0
      ensures space.Pages() == Unmapped(old(space.Pages()), old(Record()))
      ensures forall k :: 0 <= k < old(loadedPageCount) ==> loadedPages[k] == 0
    {
      hide View, IsTree, FreeFramesAreClean, FrameAllocator.Agree, CountFree, Page, Unmapped, KeepsLinks, SameTables;
      ghost var record, m := Record(), space.Pages();
      NothingUnmapped(m);
      assert record[..0] == [];
      for i := 0 to loadedPageCount
        invariant Valid() && space.Ready(spare) && loadedPageCount == old(loadedPageCount) == |record|
        invariant forall k :: i <= k < loadedPageCount ==> loadedPages[k] == record[k]
        invariant forall k :: 0 <= k < i ==> loadedPages[k] == 0
        invariant space.Pages() == Unmapped(m, record[..i])
      {
        space.KiUMap(loadedPages[i], spare);
        loadedPages[i] := 0;
        UnmappedSnoc(m, record[..i], record[i]);
        assert record[..i + 1] == record[..i] + [record[i]];
      }
      assert record[..|record|] == record;
      loadedPageCount := 0;
    }

    /** Unloading after any load, finished or given up, leaves no page of it and none recorded before mapped, and every
        other page, but for the signal page of a finished load, as it was. */
    method LoadThenUnload(h: Ehdr, image: seq<u8>, currentPid: int, ghost spare: nat)
      returns (entered: bool, ghost pages: seq<u64>)
      requires CanLoad(KernelPages(h), spare)
      requires currentPid != 0 && AllLoadable(image, h.phdrs) && SegmentsApart(h.phdrs)
      requires loadedPageCount + 257 <= 4096
      modifies space`mem, space.pmm`freePages, space.pmm.bitmap, space.pmm.pidTrace
      modifies mem, loadedPages, this`loadedPageCount, this`signalBuffer
      ensures Valid() && space.Ready(spare) && loadedPageCount == 0 && DistinctWindowPages(pages)
      ensures pages == (if IsAccepted(h) then LoadPages(h.phdrs) else [])
      ensures space.Pages() == var m := Unmapped(old(space.Pages()), old(Record()) + pages);
        if entered && NotRecorded(SIGNAL_ADDRESS, old(Record()))
        then m[Page(SIGNAL_ADDRESS) := PageEntry(SIGNAL_ADDRESS, 3)] else m
    {
      hide MissesTables, View, IsTree, FreeFramesAreClean, FrameAllocator.Agree, Mapped, Unmapped, CountFree,
           DistinctWindowPages, AllLoadable, SegmentsApart, LoadChanges, AllInPlace, PageEntry, SignalIsSet,
           NotRecorded, Recorded, ClearOf, Took, Needed, MapsOf, LoadPages;
      ghost var m, record := space.Pages(), Record();
      entered, pages := LoadKernelElf(h, image, currentPid, spare);
      RecordHoldsAll(record, pages);
      UnloadKernelElf(spare);
      UnmapAllUndoesMap(m, record, pages, 3);
      SignalPageStays(Mapped(m, pages, 3), record, pages, PageEntry(SIGNAL_ADDRESS, 3));
    }
  }
}
